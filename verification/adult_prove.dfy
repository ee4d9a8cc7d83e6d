/** The adult-proof credential (src/credentials/adult_prove.rs): the holder's
    e-mail identity and whether they are an adult, in an unsigned document
    without an expiration date. The fresh UUID is passed in. */
module AdultProve {
  import opened Wrappers
  import opened Json
  import opened Credentials

  const AdultContext: string := "https://credential.codegene.xyz/context/adult.jsonld"

  datatype CredentialAdultProve = CredentialAdultProve(identity: string, isAdult: bool)

  /** The credential subject: the holder as its id, the e-mail identity and the verdict. */
  function Subject(c: CredentialAdultProve, holder: string): (j: Json)
    ensures GetString(j, "id") == Some(holder)
    ensures GetString(j, "email") == Some(c.identity)
    ensures GetBool(j, "isAdult") == Some(c.isAdult)
    ensures j.JObject? && j.fields.Keys == {"id", "email", "isAdult"}
  {
    JObject(map["id" := JString(holder), "email" := JString(c.identity), "isAdult" := JBool(c.isAdult)])
  }

  /** Reads the identity and the verdict back out of a credential subject. */
  function ReadSubject(j: Json): (r: Option<CredentialAdultProve>)
    ensures r.Some? <==> GetString(j, "email").Some? && GetBool(j, "isAdult").Some?
    ensures r.Some? ==> GetString(j, "email") == Some(r.value.identity)
    ensures r.Some? ==> GetBool(j, "isAdult") == Some(r.value.isAdult)
  {
    match (GetString(j, "email"), GetBool(j, "isAdult"))
    case (Some(e), Some(a)) => Some(CredentialAdultProve(e, a))
    case _ => None
  }

  /** `generate_unsigned` for an adult proof: the shared credential shape
      with the adult context and no expiration date. */
  function GenerateUnsigned(c: CredentialAdultProve, issuer: string, holder: string, uuid: string): (doc: Json)
    ensures GetString(doc, "issuer") == Some(issuer)
    ensures GetString(doc, "holder") == Some(holder)
    ensures GetString(doc, "id") == Some(UrnUuid(uuid))
    ensures Get(doc, "type") == Some(JArray([JString(VerifiableCredentialType)]))
    ensures Get(doc, "@context") == Some(JArray([JString(W3cCredentialsContext), JString(AdultContext)]))
    ensures Get(doc, "expirationDate") == None
    ensures Get(doc, "credentialSubject") == Some(Subject(c, holder))
  {
    Unsigned(AdultContext, uuid, issuer, holder, None, Subject(c, holder))
  }

  /** The document gives back what it was built from: the subject's id is
      the document's holder, and the subject reads as the credential. */
  lemma GenerateUnsignedRoundTrip(c: CredentialAdultProve, issuer: string, holder: string, uuid: string)
    ensures Get(GenerateUnsigned(c, issuer, holder, uuid), "credentialSubject").Some?
    ensures GetString(Get(GenerateUnsigned(c, issuer, holder, uuid), "credentialSubject").value, "id")
      == GetString(GenerateUnsigned(c, issuer, holder, uuid), "holder")
    ensures ReadSubject(Get(GenerateUnsigned(c, issuer, holder, uuid), "credentialSubject").value) == Some(c)
  {
  }
}
