/** The service's error type and its mapping onto an HTTP failure response
    (src/error.rs). Errors wrapped from libraries keep only their display text. */
module Errors {

  /** What the database layer reports. */
  datatype SqlError =
    | RowNotFound
    | UniqueViolation(constraint: string)
    | Database(detail: string)

  datatype Error =
    | BcryptError(detail: string)
    | SqlxError(cause: SqlError)
    | JwtError(detail: string)
    | TokioRecvError(detail: string)
    | AxumTypedHeaderError(detail: string)
    | AxumExtensionError(detail: string)
    | ValidationError(detail: string)
    | SsiDidJwkGenerationError(detail: string)
    | WrongCredentials
    | WrongPassword
    | DuplicateUserEmail
    | DuplicateUserName
    | DuplicateVcTpltName
    | DidGenerateError

  /** Variants with a fixed message of their own (the rest display their cause). */
  predicate HasFixedMessage(e: Error) {
    e.WrongCredentials? || e.WrongPassword? || e.DuplicateUserEmail? || e.DuplicateUserName?
    || e.DuplicateVcTpltName? || e.DidGenerateError?
  }

  /** sqlx's text for a `fetch_one` that finds no row. */
  const NoRowsMessage: string := "no rows returned by a query " + "that expected to return at least one row"

  /** How sqlx introduces an error the database server returned. */
  const DatabasePrefix: string := "error returned from database: "

  /** sqlx's display text: its own text for a missing row; otherwise the
      server's message after `DatabasePrefix`, with Postgres's double quotes
      around a violated constraint's name. */
  function SqlMessage(e: SqlError): (m: string)
    ensures e.RowNotFound? <==> m == NoRowsMessage
    ensures !e.RowNotFound? ==> |m| >= |DatabasePrefix| && m[..|DatabasePrefix|] == DatabasePrefix
    ensures e.UniqueViolation? ==> m[|DatabasePrefix|..] == "duplicate key value violates unique constraint \"" + e.constraint + "\""
    ensures e.Database? ==> m[|DatabasePrefix|..] == e.detail
  {
    match e
    case RowNotFound => NoRowsMessage
    case UniqueViolation(c) => Prefixed("duplicate key value violates unique constraint \"" + c + "\"")
    case Database(d) => Prefixed(d)
  }

  /** Server text after `DatabasePrefix`; never the missing-row sentence, which
      starts with another letter. */
  function Prefixed(d: string): (m: string)
    ensures |m| == |DatabasePrefix| + |d|
    ensures m[..|DatabasePrefix|] == DatabasePrefix && m[|DatabasePrefix|..] == d
    ensures m != NoRowsMessage
  {
    var m := DatabasePrefix + d;
    assert m[0] == 'e' && NoRowsMessage[0] == 'n';
    assert m[..|DatabasePrefix|] == DatabasePrefix && m[|DatabasePrefix|..] == d;
    m
  }

  /** The texts of the variants with a fixed message; two variants share one. */
  const FixedMessages: set<string> := {"wrong credentials", "password doesn't match",
    "email is already taken", "name is already taken", "DID generate error"}

  /** The error's display string: fixed text, or the wrapped error's own text. */
  function Message(e: Error): (m: string)
    ensures e.SqlxError? ==> m == SqlMessage(e.cause)
    ensures !HasFixedMessage(e) && !e.SqlxError? ==> m == e.detail
    ensures HasFixedMessage(e) ==> m in FixedMessages
    ensures e.WrongCredentials? ==> m == "wrong credentials"
    ensures e.WrongPassword? ==> m == "password doesn't match"
    ensures e.DuplicateUserEmail? ==> m == "email is already taken"
    ensures e.DuplicateUserName? || e.DuplicateVcTpltName? ==> m == "name is already taken"
    ensures e.DidGenerateError? ==> m == "DID generate error"
  {
    match e
    case BcryptError(d) => d
    case SqlxError(c) => SqlMessage(c)
    case JwtError(d) => d
    case TokioRecvError(d) => d
    case AxumTypedHeaderError(d) => d
    case AxumExtensionError(d) => d
    case ValidationError(d) => d
    case SsiDidJwkGenerationError(d) => d
    case WrongCredentials => "wrong credentials"
    case WrongPassword => "password doesn't match"
    case DuplicateUserEmail => "email is already taken"
    case DuplicateUserName => "name is already taken"
    case DuplicateVcTpltName => "name is already taken"
    case DidGenerateError => "DID generate error"
  }

  /** Two fixed-message errors read the same exactly when they are the same
      variant, or are the two "name is already taken" variants. */
  lemma FixedMessagesDistinct(a: Error, b: Error)
    requires HasFixedMessage(a) && HasFixedMessage(b)
    ensures Message(a) == Message(b) <==>
      a == b || ((a.DuplicateUserName? || a.DuplicateVcTpltName?) && (b.DuplicateUserName? || b.DuplicateVcTpltName?))
  {
    if a != b && Message(a) == Message(b) {
      assert Message(a)[0] == Message(b)[0];
      assert |Message(a)| == |Message(b)|;
    }
  }

  const Unauthorized: int := 401
  const BadRequest: int := 400
  const InternalServerError: int := 500

  datatype Failure = Failure(code: int, message: string)
  datatype ApiFailure = ApiFailure(apiVersion: string, body: Failure)

  /** The response pair: an HTTP status and a JSON failure payload. */
  datatype ApiError = ApiError(status: int, payload: ApiFailure)

  /** Every error becomes a response: 401 for wrong credentials, 400 for a
      validation error, 500 for everything else; the payload repeats the status
      as its code and carries the error's display string. */
  function ToApiError(e: Error, apiVersion: string): (r: ApiError)
    ensures r.status == Unauthorized <==> e.WrongCredentials?
    ensures r.status == BadRequest <==> e.ValidationError?
    ensures r.status == InternalServerError <==> !e.WrongCredentials? && !e.ValidationError?
    ensures r.payload.body.code == r.status
    ensures r.payload.body.message == Message(e)
    ensures r.payload.apiVersion == apiVersion
  {
    var status :=
      match e
      case WrongCredentials => Unauthorized
      case ValidationError(_) => BadRequest
      case _ => InternalServerError;
    ApiError(status, ApiFailure(apiVersion, Failure(status, Message(e))))
  }

  /** The two duplicate-name errors cannot be told apart by their response. */
  lemma DuplicateNamesShareResponse(apiVersion: string)
    ensures ToApiError(DuplicateUserName, apiVersion) == ToApiError(DuplicateVcTpltName, apiVersion)
  {
  }
}
