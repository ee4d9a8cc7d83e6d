/** The shape both credential builders share (src/credentials/mod.rs and its
    two implementations): a W3C verifiable credential without a proof. The
    fresh UUID is passed in. */
module Credentials {
  import opened Wrappers
  import opened Json

  const W3cCredentialsContext: string := "https://www.w3.org/2018/credentials/v1"
  const VerifiableCredentialType: string := "VerifiableCredential"

  function UrnUuid(uuid: string): (s: string)
    ensures |s| == 9 + |uuid| && s[9..] == uuid
  {
    "urn:uuid:" + uuid
  }

  /** The keys every credential carries, whatever its kind. */
  const EnvelopeKeys: set<string> := {"@context", "id", "type", "issuer", "holder", "credentialSubject"}

  /** The fields every credential carries, whatever its kind. */
  function Envelope(context: string, uuid: string, issuer: string, holder: string, subject: Json)
    : (fields: map<string, Json>)
    ensures fields.Keys == EnvelopeKeys && "expirationDate" !in fields
    ensures fields["@context"] == JArray([JString(W3cCredentialsContext), JString(context)])
    ensures fields["id"] == JString(UrnUuid(uuid))
    ensures fields["type"] == JArray([JString(VerifiableCredentialType)])
    ensures fields["issuer"] == JString(issuer) && fields["holder"] == JString(holder)
    ensures fields["credentialSubject"] == subject
  {
    map[
      "@context" := JArray([JString(W3cCredentialsContext), JString(context)]),
      "id" := JString(UrnUuid(uuid)),
      "type" := JArray([JString(VerifiableCredentialType)]),
      "issuer" := JString(issuer),
      "holder" := JString(holder),
      "credentialSubject" := subject]
  }

  /** The unsigned credential document. Every field is found under its key;
      "expirationDate" is there exactly when an expiration is given, and no
      other key is present. */
  function Unsigned(context: string, uuid: string, issuer: string, holder: string,
                    expiration: Option<string>, subject: Json): (doc: Json)
    ensures Get(doc, "@context") == Some(JArray([JString(W3cCredentialsContext), JString(context)]))
    ensures GetString(doc, "id") == Some(UrnUuid(uuid))
    ensures Get(doc, "type") == Some(JArray([JString(VerifiableCredentialType)]))
    ensures GetString(doc, "issuer") == Some(issuer)
    ensures GetString(doc, "holder") == Some(holder)
    ensures Get(doc, "expirationDate").Some? <==> expiration.Some?
    ensures expiration.Some? ==> GetString(doc, "expirationDate") == expiration
    ensures Get(doc, "credentialSubject") == Some(subject)
    ensures doc.JObject? && doc.fields.Keys == EnvelopeKeys + (if expiration.Some? then {"expirationDate"} else {})
  {
    var fields := Envelope(context, uuid, issuer, holder, subject);
    match expiration
    case Some(e) => JObject(fields["expirationDate" := JString(e)])
    case None => JObject(fields)
  }
}
