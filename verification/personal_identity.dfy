/** The personal-identity credential (src/credentials/personal_identity.rs):
    the record built from an identity-verification result, the expiry
    conversion that caps a credential's life at 180 days, and the unsigned
    document. The current instant and the fresh UUID are passed in. */
module PersonalIdentity {
  import opened Wrappers
  import opened Text
  import opened Calendar
  import opened Json
  import opened Credentials

  const MaxExpiryDays: int := 180
  const NanosPerSecond: int := 1_000_000_000
  const NanosPerDay: int := 86_400_000_000_000
  const PersonalIdentityContext: string := "https://credential.codegene.xyz/context/credential.jsonld"

  // ----------------------------------------------------------------- expiry

  /** An instant as the clock gives it: whole seconds since the epoch (UTC)
      and the nanoseconds past them. */
  datatype Instant = Instant(secs: int, nanos: int)

  predicate ValidInstant(t: Instant) {
    0 <= t.nanos < NanosPerSecond
  }

  /** Integer division rounding toward zero, as Rust divides signed integers. */
  function TruncDiv(a: int, b: int): (q: int)
    requires b > 0
    ensures a >= 0 ==> 0 <= q && q * b <= a < q * b + b
    ensures a < 0 ==> q <= 0 && q * b - b < a <= q * b
  {
    DivBounds(if a >= 0 then a else -a, b);
    if a >= 0 then a / b else -((-a) / b)
  }

  lemma DivBounds(n: nat, b: int)
    requires b > 0
    ensures 0 <= n / b && (n / b) * b <= n < (n / b) * b + b
  {
    assert n == (n / b) * b + n % b;
  }

  /** The exact time from `now` to the instant `t` (whole seconds), in nanoseconds. */
  function SpanNanos(t: int, now: Instant): int {
    (t - now.secs) * NanosPerSecond - now.nanos
  }

  /** `signed_duration_since(now).num_days()`: the span cut to whole seconds,
      then to whole days, each time toward zero. */
  function NumDays(t: int, now: Instant): (d: int)
    ensures SpanNanos(t, now) >= 0 ==>
      0 <= d && d * NanosPerDay <= SpanNanos(t, now) < (d + 1) * NanosPerDay
    ensures SpanNanos(t, now) < 0 ==>
      d <= 0 && (d - 1) * NanosPerDay < SpanNanos(t, now) <= d * NanosPerDay
  {
    TruncDiv(TruncDiv(SpanNanos(t, now), NanosPerSecond), SecondsPerDay)
  }

  /** The whole-day count exceeds the maximum exactly when the exact span is
      at least one day longer than the maximum. */
  lemma ExceedsMaxIff(t: int, now: Instant)
    ensures NumDays(t, now) > MaxExpiryDays <==>
      SpanNanos(t, now) >= (MaxExpiryDays + 1) * SecondsPerDay * NanosPerSecond
  {
    var span := SpanNanos(t, now);
    var secs := TruncDiv(span, NanosPerSecond);
    var days := TruncDiv(secs, SecondsPerDay);
    if span >= 0 {
      assert secs >= (MaxExpiryDays + 1) * SecondsPerDay <==>
        span >= (MaxExpiryDays + 1) * SecondsPerDay * NanosPerSecond;
      assert days > MaxExpiryDays <==> secs >= (MaxExpiryDays + 1) * SecondsPerDay;
    }
  }

  /** Midnight UTC at the start of the requested expiry date. */
  function ExpiryMidnight(expiry: string): int
    requires ParseDate(expiry, '/').Some?
  {
    DaysFromCivil(ParseDate(expiry, '/').value) * SecondsPerDay
  }

  /** The instant (whole seconds) the converted expiry stands for: now plus
      180 days when the request reaches further than that, the requested
      midnight otherwise. */
  function ExpiryInstant(expiry: string, now: Instant): (t: int)
    requires ValidInstant(now) && ParseDate(expiry, '/').Some?
    ensures t <= ExpiryMidnight(expiry)
    ensures t * NanosPerSecond < (now.secs + (MaxExpiryDays + 1) * SecondsPerDay) * NanosPerSecond + now.nanos
    ensures ExpiryMidnight(expiry) <= now.secs ==> t == ExpiryMidnight(expiry)
  {
    var midnight := ExpiryMidnight(expiry);
    ExceedsMaxIff(midnight, now);
    if NumDays(midnight, now) > MaxExpiryDays then now.secs + MaxExpiryDays * SecondsPerDay else midnight
  }

  /** `convert_expiry`: the requested date at midnight in RFC 3339 with whole
      seconds and a "Z", unless that lies 181 days or more after now, in which
      case now plus 180 days. An input that is not a `YYYY/MM/DD` date makes
      the source panic. */
  function ConvertExpiry(expiry: string, now: Instant): (s: string)
    requires ValidInstant(now) && ParseDate(expiry, '/').Some?
    ensures SpanNanos(ExpiryMidnight(expiry), now) >= (MaxExpiryDays + 1) * SecondsPerDay * NanosPerSecond ==>
      s == FormatRfc3339(now.secs + MaxExpiryDays * SecondsPerDay)
    ensures SpanNanos(ExpiryMidnight(expiry), now) < (MaxExpiryDays + 1) * SecondsPerDay * NanosPerSecond ==>
      s == DateText(ParseDate(expiry, '/').value) + "T00:00:00Z"
  {
    var c := ParseDate(expiry, '/').value;
    var midnight := ExpiryMidnight(expiry);
    var t := ExpiryInstant(expiry, now);
    assert SpanNanos(midnight, now) >= (MaxExpiryDays + 1) * SecondsPerDay * NanosPerSecond ==>
      t == now.secs + MaxExpiryDays * SecondsPerDay by {
      ExceedsMaxIff(midnight, now);
    }
    assert SpanNanos(midnight, now) < (MaxExpiryDays + 1) * SecondsPerDay * NanosPerSecond ==>
      FormatRfc3339(t) == DateText(c) + "T00:00:00Z" by {
      ExceedsMaxIff(midnight, now);
      FormatMidnight(c);
    }
    FormatRfc3339(t)
  }

  /** A date that has already passed comes out unchanged, as that date at midnight. */
  lemma PastExpiryKept(expiry: string, now: Instant)
    requires ValidInstant(now) && ParseDate(expiry, '/').Some?
    requires ExpiryMidnight(expiry) <= now.secs
    ensures ConvertExpiry(expiry, now) == DateText(ParseDate(expiry, '/').value) + "T00:00:00Z"
  {
  }

  /** The source's own test, on 1 June 2022 at 01:00:00.25: a date four
      months ahead is kept. */
  lemma ConvertExpiryKeptExample()
    ensures ParseDate("2022/09/28", '/').Some?
    ensures ConvertExpiry("2022/09/28", Example) == "2022-09-28T00:00:00Z"
  {
    assert ParseDate("2022/09/28", '/') == Some(Civil(2022, 9, 28)) &&
      SpanNanos(ExpiryMidnight("2022/09/28"), Example) < (MaxExpiryDays + 1) * SecondsPerDay * NanosPerSecond by {
      ExampleMidnights();
    }
    assert ConvertExpiry("2022/09/28", Example) == DateText(Civil(2022, 9, 28)) + "T00:00:00Z";
    KeptText();
  }

  lemma KeptText()
    ensures DateText(Civil(2022, 9, 28)) + "T00:00:00Z" == "2022-09-28T00:00:00Z"
  {
    ExampleDates();
  }

  /** The same test's second case: a date two years ahead is capped at now
      plus 180 days. */
  lemma ConvertExpiryCappedExample()
    ensures ParseDate("2024/09/28", '/').Some?
    ensures ConvertExpiry("2024/09/28", Example) == FormatRfc3339(Example.secs + 180 * 86400)
  {
    assert ParseDate("2024/09/28", '/').Some? &&
      SpanNanos(ExpiryMidnight("2024/09/28"), Example) >= (MaxExpiryDays + 1) * SecondsPerDay * NanosPerSecond by {
      ExampleMidnights();
    }
  }

  /** The two requested dates parse, and their midnights lie 119 and 850
      days after the example's day. */
  lemma ExampleMidnights()
    ensures ParseDate("2022/09/28", '/') == Some(Civil(2022, 9, 28))
    ensures ParseDate("2024/09/28", '/') == Some(Civil(2024, 9, 28))
    ensures ExpiryMidnight("2022/09/28") == (ExampleDay + 119) * SecondsPerDay
    ensures ExpiryMidnight("2024/09/28") == (ExampleDay + 850) * SecondsPerDay
  {
    ExampleDates();
    ExampleDistances();
    ParseCanonicalDate(Civil(2022, 9, 28), '/');
    ParseCanonicalDate(Civil(2024, 9, 28), '/');
  }

  lemma ExampleDates()
    ensures DateWith(Civil(2022, 9, 28), '/') == "2022/09/28"
    ensures DateWith(Civil(2024, 9, 28), '/') == "2024/09/28"
    ensures DateText(Civil(2022, 9, 28)) == "2022-09-28"
  {
    ExampleYears();
    ExampleMonthDay();
  }

  lemma ExampleYears()
    ensures Decimal(2022) == "2022" && Decimal(2024) == "2024"
  {
    assert Decimal(2022) == "2022";
    assert Decimal(2024) == "2024";
  }

  lemma ExampleMonthDay()
    ensures Decimal(9) == "9" && Decimal(28) == "28"
  {
    assert Decimal(9) == "9";
    assert Decimal(28) == "28";
  }

  lemma ExampleDistances()
    ensures DaysFromCivil(Civil(2022, 9, 28)) - ExampleDay == 119
    ensures DaysFromCivil(Civil(2024, 9, 28)) - ExampleDay == 850
  {
  }

  const ExampleDay: int := DaysFromCivil(Civil(2022, 6, 1))
  const Example: Instant := Instant(ExampleDay * SecondsPerDay + 3600, 250_000_000)

  // ------------------------------------------------------------- the record

  datatype CredentialPersonalIdentity = CredentialPersonalIdentity(
    documentNumber: string,
    documentType: string,
    firstName: string,
    lastName: string,
    fullName: string,
    sex: string,
    dob: string,
    address: string,
    issuerOrgFull: string,
    issuerOrgIso2: string,
    issuerOrgIso3: string,
    nationalityFull: string,
    nationalityIso2: string,
    nationalityIso3: string,
    expiry: string,
    issued: string,
    issueAuthority: string,
    faceIsIdentical: bool,
    faceConfidenceScore: string,
    verificationFaceResult: bool,
    verificationDigitResult: bool)

  /** The parts of an identity-verification result the conversion reads. */
  datatype DocumentResult = DocumentResult(
    documentNumber: string,
    documentType: string,
    firstName: string,
    lastName: string,
    fullName: string,
    sex: string,
    dob: string,
    address1: string,
    issuerOrgFull: string,
    issuerOrgIso2: string,
    issuerOrgIso3: string,
    nationalityFull: string,
    nationalityIso2: string,
    nationalityIso3: string,
    expiry: string,
    issued: string,
    issueAuthority: string)

  datatype FaceResult = FaceResult(isIdentical: bool, confidence: string)
  datatype CheckResult = CheckResult(face: bool, checkdigit: bool)
  datatype Verification = Verification(result: CheckResult)
  datatype PartyResult = PartyResult(result: DocumentResult, face: FaceResult, verification: Verification)

  /** `From<PartyResult>`: each field taken from its one source field. */
  function FromParty(p: PartyResult): (c: CredentialPersonalIdentity)
    ensures c.documentNumber == p.result.documentNumber && c.documentType == p.result.documentType
    ensures c.firstName == p.result.firstName && c.lastName == p.result.lastName
    ensures c.fullName == p.result.fullName && c.sex == p.result.sex
    ensures c.address == p.result.address1 && c.expiry == p.result.expiry && c.dob == p.result.dob
    ensures c.issuerOrgFull == p.result.issuerOrgFull && c.issuerOrgIso2 == p.result.issuerOrgIso2
    ensures c.issuerOrgIso3 == p.result.issuerOrgIso3
    ensures c.nationalityFull == p.result.nationalityFull && c.nationalityIso2 == p.result.nationalityIso2
    ensures c.nationalityIso3 == p.result.nationalityIso3
    ensures c.issued == p.result.issued && c.issueAuthority == p.result.issueAuthority
    ensures c.faceIsIdentical == p.face.isIdentical && c.faceConfidenceScore == p.face.confidence
    ensures c.verificationFaceResult == p.verification.result.face
    ensures c.verificationDigitResult == p.verification.result.checkdigit
  {
    var r := p.result;
    CredentialPersonalIdentity(
      r.documentNumber, r.documentType, r.firstName, r.lastName, r.fullName, r.sex, r.dob, r.address1,
      r.issuerOrgFull, r.issuerOrgIso2, r.issuerOrgIso3, r.nationalityFull, r.nationalityIso2,
      r.nationalityIso3, r.expiry, r.issued, r.issueAuthority,
      p.face.isIdentical, p.face.confidence, p.verification.result.face, p.verification.result.checkdigit)
  }

  /** The verification result a record came from. */
  function ToParty(c: CredentialPersonalIdentity): (p: PartyResult)
    ensures p.result.documentNumber == c.documentNumber && p.result.documentType == c.documentType
    ensures p.result.firstName == c.firstName && p.result.lastName == c.lastName
    ensures p.result.fullName == c.fullName && p.result.sex == c.sex
    ensures p.result.address1 == c.address && p.result.expiry == c.expiry && p.result.dob == c.dob
    ensures p.result.issuerOrgFull == c.issuerOrgFull && p.result.issuerOrgIso2 == c.issuerOrgIso2
    ensures p.result.issuerOrgIso3 == c.issuerOrgIso3
    ensures p.result.nationalityFull == c.nationalityFull && p.result.nationalityIso2 == c.nationalityIso2
    ensures p.result.nationalityIso3 == c.nationalityIso3
    ensures p.result.issued == c.issued && p.result.issueAuthority == c.issueAuthority
    ensures p.face.isIdentical == c.faceIsIdentical && p.face.confidence == c.faceConfidenceScore
    ensures p.verification.result.face == c.verificationFaceResult
    ensures p.verification.result.checkdigit == c.verificationDigitResult
  {
    PartyResult(
      DocumentResult(c.documentNumber, c.documentType, c.firstName, c.lastName, c.fullName, c.sex, c.dob,
        c.address, c.issuerOrgFull, c.issuerOrgIso2, c.issuerOrgIso3, c.nationalityFull, c.nationalityIso2,
        c.nationalityIso3, c.expiry, c.issued, c.issueAuthority),
      FaceResult(c.faceIsIdentical, c.faceConfidenceScore),
      Verification(CheckResult(c.verificationFaceResult, c.verificationDigitResult)))
  }

  /** No field is dropped or mixed up: the conversion is a bijection. */
  lemma FromPartyBijective(p: PartyResult, c: CredentialPersonalIdentity)
    ensures ToParty(FromParty(p)) == p
    ensures FromParty(ToParty(c)) == c
  {
  }

  // ----------------------------------------------------------- the document

  /** The credential subject: the holder as its id, then every record field
      under its own key; the raw expiry string is kept as given. */
  function Subject(c: CredentialPersonalIdentity, holder: string): Json {
    JObject(map[
      "id" := JString(holder),
      "documentNumber" := JString(c.documentNumber),
      "firstName" := JString(c.firstName),
      "lastName" := JString(c.lastName),
      "fullName" := JString(c.fullName),
      "sex" := JString(c.sex),
      "dob" := JString(c.dob),
      "address1" := JString(c.address),
      "documentType" := JString(c.documentType),
      "issuerOrgFull" := JString(c.issuerOrgFull),
      "issuerOrgIso2" := JString(c.issuerOrgIso2),
      "issuerOrgIso3" := JString(c.issuerOrgIso3),
      "nationalityFull" := JString(c.nationalityFull),
      "nationalityIso2" := JString(c.nationalityIso2),
      "nationalityIso3" := JString(c.nationalityIso3),
      "expiry" := JString(c.expiry),
      "issued" := JString(c.issued),
      "issueAuthority" := JString(c.issueAuthority),
      "faceIsIdentical" := JBool(c.faceIsIdentical),
      "faceConfidence" := JString(c.faceConfidenceScore),
      "verificationFace" := JBool(c.verificationFaceResult),
      "verificationDigit" := JBool(c.verificationDigitResult)])
  }

  /** A subject that holds every field of the record with the right kind of value. */
  predicate CompleteSubject(j: Json) {
    GetString(j, "documentNumber").Some? &&
    GetString(j, "documentType").Some? &&
    GetString(j, "firstName").Some? &&
    GetString(j, "lastName").Some? &&
    GetString(j, "fullName").Some? &&
    GetString(j, "sex").Some? &&
    GetString(j, "dob").Some? &&
    GetString(j, "address1").Some? &&
    GetString(j, "issuerOrgFull").Some? &&
    GetString(j, "issuerOrgIso2").Some? &&
    GetString(j, "issuerOrgIso3").Some? &&
    GetString(j, "nationalityFull").Some? &&
    GetString(j, "nationalityIso2").Some? &&
    GetString(j, "nationalityIso3").Some? &&
    GetString(j, "expiry").Some? &&
    GetString(j, "issued").Some? &&
    GetString(j, "issueAuthority").Some? &&
    GetString(j, "faceConfidence").Some? &&
    GetBool(j, "faceIsIdentical").Some? &&
    GetBool(j, "verificationFace").Some? &&
    GetBool(j, "verificationDigit").Some?
  }

  /** Reads a record back out of a credential subject. */
  function ReadSubject(j: Json): (r: Option<CredentialPersonalIdentity>)
    ensures r.Some? <==> CompleteSubject(j)
    ensures r.Some? ==> GetString(j, "expiry") == Some(r.value.expiry)
  {
    if CompleteSubject(j) then
      Some(CredentialPersonalIdentity(
        GetString(j, "documentNumber").value,
        GetString(j, "documentType").value,
        GetString(j, "firstName").value,
        GetString(j, "lastName").value,
        GetString(j, "fullName").value,
        GetString(j, "sex").value,
        GetString(j, "dob").value,
        GetString(j, "address1").value,
        GetString(j, "issuerOrgFull").value,
        GetString(j, "issuerOrgIso2").value,
        GetString(j, "issuerOrgIso3").value,
        GetString(j, "nationalityFull").value,
        GetString(j, "nationalityIso2").value,
        GetString(j, "nationalityIso3").value,
        GetString(j, "expiry").value,
        GetString(j, "issued").value,
        GetString(j, "issueAuthority").value,
        GetBool(j, "faceIsIdentical").value,
        GetString(j, "faceConfidence").value,
        GetBool(j, "verificationFace").value,
        GetBool(j, "verificationDigit").value))
    else None
  }

  /** `generate_unsigned` for a personal identity. */
  function GenerateUnsigned(c: CredentialPersonalIdentity, issuer: string, holder: string, uuid: string, now: Instant)
    : (doc: Json)
    requires ValidInstant(now) && ParseDate(c.expiry, '/').Some?
    ensures GetString(doc, "issuer") == Some(issuer) && GetString(doc, "holder") == Some(holder)
    ensures GetString(doc, "id") == Some(UrnUuid(uuid))
    ensures GetString(doc, "expirationDate") == Some(ConvertExpiry(c.expiry, now))
    ensures Get(doc, "@context") == Some(JArray([JString(W3cCredentialsContext), JString(PersonalIdentityContext)]))
    ensures Get(doc, "credentialSubject") == Some(Subject(c, holder))
  {
    Unsigned(PersonalIdentityContext, uuid, issuer, holder, Some(ConvertExpiry(c.expiry, now)),
      Subject(c, holder))
  }

  /** `j` holds the holder as its id and every field of the record under its key. */
  predicate Describes(j: Json, c: CredentialPersonalIdentity, holder: string) {
    Get(j, "id") == Some(JString(holder)) &&
    Get(j, "documentNumber") == Some(JString(c.documentNumber)) &&
    Get(j, "firstName") == Some(JString(c.firstName)) &&
    Get(j, "lastName") == Some(JString(c.lastName)) &&
    Get(j, "fullName") == Some(JString(c.fullName)) &&
    Get(j, "sex") == Some(JString(c.sex)) &&
    Get(j, "dob") == Some(JString(c.dob)) &&
    Get(j, "address1") == Some(JString(c.address)) &&
    Get(j, "documentType") == Some(JString(c.documentType)) &&
    Get(j, "issuerOrgFull") == Some(JString(c.issuerOrgFull)) &&
    Get(j, "issuerOrgIso2") == Some(JString(c.issuerOrgIso2)) &&
    Get(j, "issuerOrgIso3") == Some(JString(c.issuerOrgIso3)) &&
    Get(j, "nationalityFull") == Some(JString(c.nationalityFull)) &&
    Get(j, "nationalityIso2") == Some(JString(c.nationalityIso2)) &&
    Get(j, "nationalityIso3") == Some(JString(c.nationalityIso3)) &&
    Get(j, "expiry") == Some(JString(c.expiry)) &&
    Get(j, "issued") == Some(JString(c.issued)) &&
    Get(j, "issueAuthority") == Some(JString(c.issueAuthority)) &&
    Get(j, "faceIsIdentical") == Some(JBool(c.faceIsIdentical)) &&
    Get(j, "faceConfidence") == Some(JString(c.faceConfidenceScore)) &&
    Get(j, "verificationFace") == Some(JBool(c.verificationFaceResult)) &&
    Get(j, "verificationDigit") == Some(JBool(c.verificationDigitResult))
  }

  /** Any object that describes a record reads back as that record. */
  lemma ReadDescribed(j: Json, c: CredentialPersonalIdentity, holder: string)
    requires Describes(j, c, holder)
    ensures ReadSubject(j) == Some(c)
  {
  }

  // Lookups in the subject, two keys at a time so each stays cheap to prove.
  lemma SubjectFields0(c: CredentialPersonalIdentity, holder: string)
    ensures Get(Subject(c, holder), "id") == Some(JString(holder))
    ensures Get(Subject(c, holder), "documentNumber") == Some(JString(c.documentNumber))
  {
  }

  lemma SubjectFields1(c: CredentialPersonalIdentity, holder: string)
    ensures Get(Subject(c, holder), "firstName") == Some(JString(c.firstName))
    ensures Get(Subject(c, holder), "lastName") == Some(JString(c.lastName))
  {
  }

  lemma SubjectFields2(c: CredentialPersonalIdentity, holder: string)
    ensures Get(Subject(c, holder), "fullName") == Some(JString(c.fullName))
    ensures Get(Subject(c, holder), "sex") == Some(JString(c.sex))
  {
  }

  lemma SubjectFields3(c: CredentialPersonalIdentity, holder: string)
    ensures Get(Subject(c, holder), "dob") == Some(JString(c.dob))
    ensures Get(Subject(c, holder), "address1") == Some(JString(c.address))
  {
  }

  lemma SubjectFields4(c: CredentialPersonalIdentity, holder: string)
    ensures Get(Subject(c, holder), "documentType") == Some(JString(c.documentType))
    ensures Get(Subject(c, holder), "issuerOrgFull") == Some(JString(c.issuerOrgFull))
  {
  }

  lemma SubjectFields5(c: CredentialPersonalIdentity, holder: string)
    ensures Get(Subject(c, holder), "issuerOrgIso2") == Some(JString(c.issuerOrgIso2))
    ensures Get(Subject(c, holder), "issuerOrgIso3") == Some(JString(c.issuerOrgIso3))
  {
  }

  lemma SubjectFields6(c: CredentialPersonalIdentity, holder: string)
    ensures Get(Subject(c, holder), "nationalityFull") == Some(JString(c.nationalityFull))
    ensures Get(Subject(c, holder), "nationalityIso2") == Some(JString(c.nationalityIso2))
  {
  }

  lemma SubjectFields7(c: CredentialPersonalIdentity, holder: string)
    ensures Get(Subject(c, holder), "nationalityIso3") == Some(JString(c.nationalityIso3))
    ensures Get(Subject(c, holder), "expiry") == Some(JString(c.expiry))
  {
  }

  lemma SubjectFields8(c: CredentialPersonalIdentity, holder: string)
    ensures Get(Subject(c, holder), "issued") == Some(JString(c.issued))
    ensures Get(Subject(c, holder), "issueAuthority") == Some(JString(c.issueAuthority))
  {
  }

  lemma SubjectFields9(c: CredentialPersonalIdentity, holder: string)
    ensures Get(Subject(c, holder), "faceIsIdentical") == Some(JBool(c.faceIsIdentical))
    ensures Get(Subject(c, holder), "faceConfidence") == Some(JString(c.faceConfidenceScore))
  {
  }

  lemma SubjectFields10(c: CredentialPersonalIdentity, holder: string)
    ensures Get(Subject(c, holder), "verificationFace") == Some(JBool(c.verificationFaceResult))
    ensures Get(Subject(c, holder), "verificationDigit") == Some(JBool(c.verificationDigitResult))
  {
  }

  /** The subject carries the holder as its id and every field of the record,
      so the record can be read back from the document. */
  lemma SubjectRoundTrip(c: CredentialPersonalIdentity, holder: string)
    ensures GetString(Subject(c, holder), "id") == Some(holder)
    ensures ReadSubject(Subject(c, holder)) == Some(c)
  {
    assert Describes(Subject(c, holder), c, holder) by {
      SubjectFields0(c, holder);
      SubjectFields1(c, holder);
      SubjectFields2(c, holder);
      SubjectFields3(c, holder);
      SubjectFields4(c, holder);
      SubjectFields5(c, holder);
      SubjectFields6(c, holder);
      SubjectFields7(c, holder);
      SubjectFields8(c, holder);
      SubjectFields9(c, holder);
      SubjectFields10(c, holder);
    }
    ReadDescribed(Subject(c, holder), c, holder);
  }

  /** The unsigned credential gives the record back: its subject reads as
      exactly the record it was generated from. */
  lemma GenerateUnsignedRoundTrip(c: CredentialPersonalIdentity, issuer: string, holder: string, uuid: string,
                                  now: Instant)
    requires ValidInstant(now) && ParseDate(c.expiry, '/').Some?
    ensures Get(GenerateUnsigned(c, issuer, holder, uuid, now), "credentialSubject").Some?
    ensures ReadSubject(Get(GenerateUnsigned(c, issuer, holder, uuid, now), "credentialSubject").value) == Some(c)
  {
    SubjectRoundTrip(c, holder);
  }
}
