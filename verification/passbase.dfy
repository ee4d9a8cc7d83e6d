/** Deciding whether a verified identity belongs to an adult, and what
    follows from the decision (src/service/passbase.rs). The identity
    provider's response, the stored row, the current year and the results of
    the steps that talk to other services are passed in. */
module Passbase {
  import opened Wrappers
  import opened Calendar
  import opened Json
  import opened AdultProve

  const Approved: string := "approved"
  const NationalIdCard: string := "NATIONAL_ID_CARD"
  const AdultAge: int := 18

  /** What `chain_submit` returns while the chain step is a stub. */
  const ChainSubmitPlaceholder: string := "not ready"

  /** The issuer name and issuer DID the adult credential is issued with. */
  const PredefinedIssuer: string := "ott"
  const BlankIssuerDid: string := " "

  datatype DataPoint = DataPoint(dateOfBirth: Option<string>, documentNumber: Option<string>)
  datatype Resource = Resource(datapoints: DataPoint, dataType: string)
  datatype Owner = Owner(email: string, firstName: Option<string>, lastName: Option<string>)

  /** The identity provider's answer; its floating-point score is not read. */
  datatype IdentityResponse = IdentityResponse(
    id: string,
    status: string,
    owner: Owner,
    created: int,
    updated: int,
    resources: seq<Resource>)

  /** The identity is approved and its first document is a national ID card;
      later documents are not looked at. */
  predicate Judgeable(r: IdentityResponse) {
    r.status == Approved && |r.resources| > 0 && r.resources[0].dataType == NationalIdCard
  }

  /** The birth date on the first document, when it is judgeable and the date
      reads as `YYYY-MM-DD`. */
  function BirthDate(r: IdentityResponse): (b: Option<Civil>)
    ensures b.Some? <==> (Judgeable(r) && r.resources[0].datapoints.dateOfBirth.Some?
      && ParseDate(r.resources[0].datapoints.dateOfBirth.value, '-').Some?)
    ensures b.Some? ==> b == ParseDate(r.resources[0].datapoints.dateOfBirth.value, '-')
  {
    if Judgeable(r) then
      match r.resources[0].datapoints.dateOfBirth
      case Some(s) => ParseDate(s, '-')
      case None => None
    else None
  }

  /** `process_identity_is_adult`: no verdict unless the identity is approved,
      its first document is a national ID card and its birth date reads;
      otherwise adult exactly when the current year is at least 18 past the
      birth year (month and day do not count). */
  function IsAdult(r: IdentityResponse, currentYear: int): (a: Option<bool>)
    ensures r.status != Approved ==> a == None
    ensures |r.resources| == 0 || r.resources[0].dataType != NationalIdCard ==> a == None
    ensures Judgeable(r) && r.resources[0].datapoints.dateOfBirth.None? ==> a == None
    ensures a.Some? <==> BirthDate(r).Some?
    ensures a.Some? ==> (a.value <==> currentYear - BirthDate(r).value.year >= AdultAge)
  {
    match BirthDate(r)
    case Some(birth) => Some(currentYear - birth.year >= AdultAge)
    case None => None
  }

  /** Documents after the first never change the verdict. */
  lemma IsAdultReadsFirstResourceOnly(r: IdentityResponse, later: seq<Resource>, currentYear: int)
    requires |r.resources| > 0
    ensures IsAdult(r.(resources := [r.resources[0]] + later), currentYear) == IsAdult(r, currentYear)
  {
    assert ([r.resources[0]] + later)[0] == r.resources[0];
  }

  /** Two birth dates in the same year give the same verdict. */
  lemma IsAdultIgnoresMonthAndDay(r: IdentityResponse, s: IdentityResponse, currentYear: int)
    requires BirthDate(r).Some? && BirthDate(s).Some? && BirthDate(r).value.year == BirthDate(s).value.year
    ensures IsAdult(r, currentYear) == IsAdult(s, currentYear)
  {
  }

  /** Once an adult, always an adult: a later year never withdraws the verdict. */
  lemma AdultStaysAdult(r: IdentityResponse, year: int, later: int)
    requires IsAdult(r, year) == Some(true) && year <= later
    ensures IsAdult(r, later) == Some(true)
  {
  }

  // ----------------------------------------------------- refreshing an identity

  datatype PassbaseIdentity = PassbaseIdentity(
    id: string,
    did: Option<string>,
    identity: string,
    status: string,
    isAdult: Option<bool>,
    txHash: Option<string>,
    isBackendNotified: Option<bool>,
    createdAt: int,
    updatedAt: int)

  /** The stored row for the identity: the one found, or a new one holding a
      fresh DID, the owner's e-mail, the provider's status and the verdict. */
  function IdentityRow(found: Option<PassbaseIdentity>, uid: string, r: IdentityResponse,
                       verdict: Option<bool>, freshDid: string, now: int): (row: PassbaseIdentity)
    ensures found.Some? ==> row == found.value
    ensures found.None? ==> row.id == uid && row.did == Some(freshDid) && row.identity == r.owner.email
    ensures found.None? ==> row.status == r.status && row.isAdult == verdict
    ensures found.None? ==> row.txHash.None? && row.isBackendNotified.None?
  {
    match found
    case Some(row) => row
    case None => PassbaseIdentity(uid, Some(freshDid), r.owner.email, r.status, verdict, None, None, now, now)
  }

  /** The credential request handed to the issuing service. */
  datatype IssueRequest = IssueRequest(issuerName: string, issuerDid: string, holderDid: string,
                                       credential: CredentialAdultProve)

  /** What a refresh that reaches a verdict does: the credential it issues and
      the row it writes back. */
  datatype Issued = Issued(request: IssueRequest, row: PassbaseIdentity)

  /** The issue/no-issue branch of `refresh_identity_status`. Without a
      verdict nothing is issued and the row is not written. With a verdict, an
      adult proof carrying the row's identity and the verdict is issued to the
      row's DID, and the row is written back with the verdict, the chain
      placeholder, the backend marked as notified and the new update time. A row
      without a DID makes the source panic. */
  function IssueStep(row: PassbaseIdentity, verdict: Option<bool>, now: int): (r: Option<Issued>)
    requires verdict.Some? ==> row.did.Some?
    ensures r.Some? <==> verdict.Some?
    ensures r.Some? ==> r.value.request.credential == CredentialAdultProve(row.identity, verdict.value)
    ensures r.Some? ==> r.value.request.holderDid == row.did.value && r.value.request.issuerName == PredefinedIssuer
    ensures r.Some? ==> r.value.row.isAdult == verdict && r.value.row.txHash == Some(ChainSubmitPlaceholder)
    ensures r.Some? ==> r.value.row.isBackendNotified == Some(true) && r.value.row.updatedAt == now
    ensures r.Some? ==> r.value.row.(isAdult := row.isAdult, txHash := row.txHash,
      isBackendNotified := row.isBackendNotified, updatedAt := row.updatedAt) == row
  {
    match verdict
    case None => None
    case Some(adult) =>
      var request := IssueRequest(PredefinedIssuer, BlankIssuerDid, row.did.value, CredentialAdultProve(row.identity, adult));
      Some(Issued(request, row.(isAdult := Some(adult), txHash := Some(ChainSubmitPlaceholder),
        isBackendNotified := Some(true), updatedAt := now)))
  }

  /** What a refresh leaves behind: the identity's row as stored afterwards,
      and the credential issued, if any. */
  datatype Refresh = Refresh(stored: PassbaseIdentity, issued: Option<Issued>)

  /** `refresh_identity_status` once the provider has answered and every
      service call succeeds: an unknown identity gets a row with a fresh DID
      whether or not there is a verdict; the verdict decides whether a
      credential is issued, and the credential's `isAdult` is the stored
      verdict. */
  function RefreshIdentityStatus(r: IdentityResponse, currentYear: int, found: Option<PassbaseIdentity>,
                                 uid: string, freshDid: string, now: int): (out: Refresh)
    requires found.Some? && IsAdult(r, currentYear).Some? ==> found.value.did.Some?
    ensures out.issued.Some? <==> IsAdult(r, currentYear).Some?
    ensures out.issued.Some? ==> out.stored == out.issued.value.row
    ensures out.stored.isAdult == (if found.Some? && out.issued.None? then found.value.isAdult else IsAdult(r, currentYear))
    ensures out.issued.Some? ==> out.issued.value.request.credential.isAdult == IsAdult(r, currentYear).value
    ensures found.Some? && out.issued.None? ==> out.stored == found.value
    ensures found.None? ==> out.stored.id == uid && out.stored.did == Some(freshDid) && out.stored.identity == r.owner.email
    ensures out.issued.Some? && found.None? ==> out.issued.value.request.credential.identity == r.owner.email
    ensures out.issued.Some? && found.None? ==> out.issued.value.request.holderDid == freshDid
  {
    var verdict := IsAdult(r, currentYear);
    var row := IdentityRow(found, uid, r, verdict, freshDid, now);
    var issued := IssueStep(row, verdict, now);
    Refresh(if issued.Some? then issued.value.row else row, issued)
  }

  /** The credential issued and the row written agree: the document built
      from the request says adult exactly when the stored row does. */
  lemma IssuedCredentialMatchesRow(r: IdentityResponse, currentYear: int, found: Option<PassbaseIdentity>,
                                   uid: string, freshDid: string, now: int, uuid: string)
    requires found.Some? && IsAdult(r, currentYear).Some? ==> found.value.did.Some?
    requires RefreshIdentityStatus(r, currentYear, found, uid, freshDid, now).issued.Some?
    ensures var out := RefreshIdentityStatus(r, currentYear, found, uid, freshDid, now).issued.value;
      var doc := GenerateUnsigned(out.request.credential, out.request.issuerDid, out.request.holderDid, uuid);
      ReadSubject(Get(doc, "credentialSubject").value).value.isAdult == out.row.isAdult.value
  {
    var out := RefreshIdentityStatus(r, currentYear, found, uid, freshDid, now).issued.value;
    GenerateUnsignedRoundTrip(out.request.credential, out.request.issuerDid, out.request.holderDid, uuid);
  }
}
