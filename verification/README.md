# disn decision logic in Dafny

This project models the decision logic of disn. disn is a service that issues W3C verifiable credentials to DIDs, records credential transactions on an Ethereum-style chain and keeps its bookkeeping in Postgres. The model is functional:

- The database tables are maps keyed by their natural key: `tx_records` by transaction hash, `vc_issuers` by DID, `dids` by id.
- The tables whose key the database generates (users, credential templates) are sequences of rows in the order the database returns them.
- The order of an unordered `SELECT` is a `scan` parameter that visits every key once.
- The current time, fresh UUIDs and DIDs, the RPC outcomes of the chain node, and the password hash and check are parameters.
- A Rust `unwrap`/`expect` that can panic on the modelled path becomes a precondition. Every other failure is a `Result` or an `Option`.

Modules, one per source file, plus shared helpers:

- `Chain`: `src/service/chain.rs`. It covers:
  - the 32-byte cert-type encoding;
  - the hex form of a hash;
  - the receipt-to-status mapping;
  - the retrying `confirm_tx`, both as written and corrected;
  - `send_tx`.
- `Recovery`: `src/bin/confirm_pending_txs.rs`, the sweep over pending transactions.
- `Store`: `src/sql.rs`, the three keyed tables and the `IN`-list query text.
- `Auth` and `Templates`: `src/service/user.rs` and `src/service/vc.rs`, over `Rows`, the first-match lookup of a `LIMIT 1` query.
- `Configuration`: `src/configuration.rs`.
- `Errors`: `src/error.rs`.
- `Credentials`, `PersonalIdentity` and `AdultProve`: the unsigned credential documents of `src/credentials`.
- `Passbase`: `src/service/passbase.rs`, the adult verdict and what the refresh does with it.
- `Calendar`: the date parsing and RFC 3339 formatting the credential code gets from chrono. It uses days-from-civil and civil-from-days conversions.
- Helpers: `Text` (digits, hex, lower-casing, joining), `Json` (an object as a map from keys to values) and `Wrappers` (`Option`, `Result`).

Three behaviours of the code shape the model:

- **Repeated status write.** After a failed receipt fetch, a confirmation retries, and once the retry returns it still writes its own failure status. So one confirmation can write more than once, and a later write can overwrite a success; see Findings. A nested frame can also write while the outermost frame never returns.
- **Expiry cap.** The cap applies only when the whole-day count from now to the requested midnight, truncated toward zero, exceeds 180. So a date between 180 and 181 days ahead is kept as requested. `ConvertExpiry` and `ExceedsMaxIff` state this rule.
- **Recovery sweep.** The sweep awaits each confirmation before starting the next, so one confirmation that never returns stalls it. `RecoverPending` models that.

## Model

| member | source | states |
|---|---|---|
| Chain.Encode | src/service/chain.rs:35-46 | The Identity cert type is exactly 32 bytes: the 8 ASCII bytes of "identity" followed by 24 zero bytes. |
| Chain.CertTypeRoundTrip | src/service/chain.rs:241-246 | Reading the encoded cert type as text and trimming NUL from both ends gives back "identity". |
| Chain.FromString | src/service/chain.rs:48-55 | Only "identity" is accepted (anything else panics), and the contract name of the parsed type is that same string. |
| Chain.ContractName | src/service/chain.rs:57-63 | The Identity type's contract name is the credentials contract constant, "identity". |
| Chain.H256RoundTrip | src/service/chain.rs:78 | The `0x` plus 64 lower-case hex digits that `send_tx` stores parse back to the same hash, which is what `confirm_tx` later unwraps. |
| Chain.HexBytesRoundTrip | src/service/chain.rs:78 | Any byte string written as hex pairs parses back to itself. |
| Chain.FormatH256 | src/service/chain.rs:78 | `{:#x}` of a hash is "0x" followed by 64 hex digits, none of them upper case. Digits `2k` and `2k+1` after the prefix spell byte `k` of the hash. |
| Chain.ParseH256 | src/service/chain.rs:95 | The modelled `H256::from_str` succeeds exactly when the text after an optional "0x" is 64 hex digits. The bytes of the hash are then the ones those digit pairs spell. |
| Chain.TrimMatches | src/service/chain.rs:245 | `trim_matches` gives a contiguous part of the text that neither starts nor ends with the character, and everything cut off on either side is that character. |
| Chain.AsI64 | src/service/chain.rs:114 | `low_u64() as i64` is a two's-complement reinterpretation: the result is in the i64 range, agrees with the input mod 2^64, and equals it exactly below 2^63. |
| Chain.AsI64Injective | src/service/chain.rs:114 | Distinct block numbers stay distinct after the cast. |
| Chain.StatusWrite | src/service/chain.rs:107-118 | The status is 1 exactly when a receipt was obtained and its status is 1, otherwise -1. The block number is present exactly when the receipt carries one, and it is then the cast block number. |
| Chain.Confirm | src/service/chain.rs:93-127 | A completed confirmation made as many writes as it used waits and fetches. Its first write is for a fetch that obtained a receipt, and its last write is for some fetch. Whether or not it completes, every write it made is the status write of one of the fetches it used. |
| Chain.FailedFetchWritesFailureLast | src/service/chain.rs:116-121 | When a frame's wait succeeds but its fetch yields no receipt, its last write, after the retry returns, is the failure `(-1, None)`, whatever the retry wrote. |
| Chain.ConfirmOverwritesSuccess | src/service/chain.rs:103-121 | Concrete run: with no receipt first and a confirmed receipt in block 7 on retry, the writes are `(1, 7)` and then `(-1, None)`. |
| Chain.ConfirmFixed | src/service/chain.rs:93-127 | Corrected flow: a completed confirmation makes exactly one write, for the first fetch from its start that obtained a receipt; one that does not complete writes nothing. |
| Chain.ConfirmFixedReportsFirstReceipt | src/service/chain.rs:107-112 | In the corrected flow the final status is 1 exactly when the first receipt obtained reports success. |
| Chain.ConfirmAgreesWithoutRetry | src/service/chain.rs:99-121 | When the first wait succeeds and the first fetch gets a receipt, both flows issue the same single write. |
| Chain.ApplyWrites | src/service/chain.rs:119-121 | Applying a confirmation's writes keeps the table's keys and every other row. The row ends with the last write's status and block. No writes leave the table as it was. |
| Chain.ConfirmTx | src/service/chain.rs:93-122 | `confirm_tx` as written, on a stored hash that parses. No other row is touched. The row either stays as it was or ends settled at 1 or -1, holding the status and block of one of the fetches, with its hash and creation time kept. When the outermost frame returns, the row is always settled. |
| Chain.ConfirmTxFixed | src/service/chain.rs:93-122 | Corrected flow: a confirmation that does not return changes nothing, and one that returns settles the row at 1 or -1 with the status and block of the first receipt obtained, keeping its hash and creation time. No other row is touched. |
| Chain.StalledConfirmationWrites | src/service/chain.rs:99-106 | Concrete run: the first wait fails, the nested frame finds the transaction confirmed in block 7 and writes `(1, 7)`, and the outer frame then never gets a receipt fetch back. The row is written although the confirmation never returns. |
| Chain.SendTx | src/service/chain.rs:66-85 | The call is signed with gas 2,000,000 against the configured contract address. A signing error returns with nothing stored and nothing started. Otherwise the hex hash is stored as a pending row. Only after that is its confirmation started, and the returned text is exactly the stored hash, which parses back to the signed hash. |
| Recovery.RecoverPending | src/bin/confirm_pending_txs.rs:5-13 | The confirmed records are a prefix, in scan order, of exactly the status-0 records. The sweep stalls exactly when it does not reach them all. The touched records are the confirmed ones, plus the record it stalls on when a nested frame already wrote it. Records with status 1 or -1 are never touched, every touched record ends at 1 or -1 with its hash and creation time kept, and all other rows are unchanged. |
| Recovery.ConfirmNext | src/bin/confirm_pending_txs.rs:10-12 | One awaited confirmation either writes the next record, which then joins the settled ones and keeps the sweep's invariant, or leaves the table untouched. A confirmation that returns always writes. |
| Recovery.PendingPrefixIsPending | src/bin/confirm_pending_txs.rs:6 | Every record in a prefix of the selection for status 0 is stored with status 0. |
| Recovery.SweepOutcome | src/bin/confirm_pending_txs.rs:6-12 | Once the sweep stops, rows that were not pending are unchanged and every settled row is at 1 or -1, with its hash and creation time kept. |
| Store.TxCreate | src/sql.rs:14-29 | The insert fails with a unique violation exactly when the hash is present, and then changes nothing. Otherwise it adds one row keyed by the hash, at the default status 0 with no block, and returns that row. |
| Store.HashesWithStatus | src/sql.rs:31-38 | The selected hashes are exactly the scanned hashes whose row has the status, each once when the scan repeats none. |
| Store.FindBySendStatus | src/sql.rs:31-38 | The result holds every stored row with the requested status, once each, and nothing else. |
| Store.UpdateSendStatus | src/sql.rs:40-64 | An absent hash fails with "no row", because `fetch_one` sees nothing. Otherwise exactly that row's status, block number and update time change: its hash and creation time stay, and so does every other row. |
| Store.CreatedTxIsPending | src/sql.rs:14-38 | A newly created transaction is among the rows the status-0 selection returns. |
| Store.UpdatedTxSelectedByNewStatus | src/sql.rs:31-64 | After an update the row is selected under its new status and under no other. |
| Store.UpdateSendStatusIdempotent | src/sql.rs:40-64 | Repeating an update with the same values returns the same row and table. |
| Store.SortByAddressDesc | src/sql.rs:104-110 | The result is ordered by service address, highest first, and is a permutation of the input. |
| Store.InsertByAddress | src/sql.rs:104-110 | Inserting into a descending list keeps it descending and adds exactly the one row. |
| Store.FindAll | src/sql.rs:104-110 | Every issuer is returned exactly once (as many rows as DIDs, each stored row present, nothing else), highest service address first. |
| Store.TableRowsCover | src/sql.rs:104-110 | Any permutation of the scanned rows has one row per key, and holds every stored row and nothing else. |
| Store.FindByDid | src/sql.rs:112-115 | The lookup succeeds exactly when the DID is stored and returns its row. Otherwise it fails with "no row". |
| Store.FindByName | src/sql.rs:117-120 | The lookup succeeds exactly when some scanned issuer has the name, and returns the first one the scan meets (`LIMIT 1`): no issuer before it has that name. |
| Store.IssuerCreate | src/sql.rs:135-152 | A present DID fails with a unique violation. Otherwise one row is added carrying the DID, name, service address and timestamps, with the default status 0 and no pid. |
| Store.IssuerCreateIgnoresStatus | src/sql.rs:138 | The status in the create data has no effect on the insert. |
| Store.IssuerUpdate | src/sql.rs:154-175 | An absent DID fails with "no row". Otherwise service address, status, pid and update time are written; name, creation time and every other row stay. |
| Store.IssuerCreateThenFind | src/sql.rs:112-152 | A created issuer is found under its DID as the row the insert returned. |
| Store.IssuerUpdateThenFind | src/sql.rs:112-175 | An updated issuer is found under its DID as the row the update returned. |
| Store.QuoteAll | src/sql.rs:126-129 | Each name is wrapped in single quotes, in order. |
| Store.InListRoundTrip | src/sql.rs:122-131 | For a non-empty list of names without quotes, the database reads the generated IN-list back as exactly those names. |
| Store.InListNotEscaped | src/sql.rs:128 | Names are not escaped: the single name `a','b` produces text the database reads as the two names `a` and `b`. |
| Store.FindByNamesSql | src/sql.rs:123-131 | The query is the fixed `SELECT` head, the IN-list and a closing parenthesis. For a non-empty list of quote-free names, the database reads the text between the parentheses as exactly those names. |
| Store.FindByNames | src/sql.rs:122-133 | An empty list is an SQL error. When the text between the parentheses is a plain list of literals, the result holds only table rows whose name that list reads as; for quote-free names these are exactly the scanned issuers whose name is listed. Any other text is run as the query it spells, and the result is the database's answer to it. |
| Store.InjectedNameDefersToDatabase | src/sql.rs:126-131 | The name `x') OR ('1'='1` ends the list early and adds its own clause, so the result is whatever the database answers to that query, not a lookup in the list. |
| Store.RowsNamed | src/sql.rs:124 | The rows kept are exactly the scanned rows whose name is in the list. |
| Store.DidCreate | src/sql.rs:179-195 | A present id fails with a unique violation. Otherwise exactly one row with the given id, key material and timestamps is added. |
| Store.DidFindById | src/sql.rs:197-200 | The lookup succeeds exactly when the id is stored and returns its row. Otherwise it fails with "no row". |
| Store.DidCreateThenFind | src/sql.rs:179-200 | A created DID is found under its id holding the data it was created with. |
| Rows.First | src/sql.rs:74 | A `LIMIT 1` lookup finds the first matching row, with no match before it, and finds none exactly when no row matches. |
| Rows.FirstAfterAppend | src/sql.rs:83-100 | Appending a row keeps an earlier first match, and makes the new row the first match when there was none before. |
| Auth.FindByEmail | src/sql.rs:73-76 | The lookup succeeds exactly when some user has the e-mail and returns such a user. Otherwise it fails with "no row". |
| Auth.FindByName | src/sql.rs:78-81 | The lookup succeeds exactly when some user has the name and returns such a user. Otherwise it fails with "no row". |
| Auth.SignUp | src/service/user.rs:22-38 | A taken e-mail gives `DuplicateUserEmail`, checked before the name. A taken name gives `DuplicateUserName`, and a failed hash is passed on. Success happens exactly when none of these occur, and then adds exactly one user with the name, the e-mail and the password's hash. A refused call adds nothing. |
| Auth.SignIn | src/service/user.rs:13-20 | An unknown e-mail fails with the lookup's error. The stored user is returned exactly when the password checks against its hash. A failed check gives `WrongPassword`, and an erroring check passes its error on. |
| Auth.SignUpThenSignIn | src/service/user.rs:13-38 | A user who has just signed up signs in with the same password, given that the password checks against its own hash. |
| Auth.SignUpTwiceRefused | src/service/user.rs:23-25 | Signing up again with the same input fails with `DuplicateUserEmail`. |
| Templates.FindByName | src/service/vc.rs:14 | The lookup succeeds exactly when some template has the name and returns such a template. |
| Templates.Create | src/service/vc.rs:13-26 | A taken name is refused with `DuplicateVcTpltName` and leaves the table unchanged. Otherwise one template is added carrying the input's name, purpose and fields. |
| Templates.CreateThenDuplicateRefused | src/service/vc.rs:14-16 | After a successful create, another create with the same name fails, whatever its purpose and fields. |
| Templates.CreateThenFind | src/service/vc.rs:14-25 | The created template is the one a lookup by its name then finds. |
| Configuration.GetContractAddress | src/configuration.rs:69-74 | The result is the address of the first entry with that name, and `None` exactly when no entry carries the name. |
| Configuration.LookupIgnoresLaterEntries | src/configuration.rs:72 | Entries after the first match never change the answer. |
| Configuration.TryFrom | src/configuration.rs:144-153 | Accepted exactly when the lower-cased input is "local" or "production", and the result's name is that lower-cased input. An error message starts with the lower-cased input. |
| Configuration.AsStr | src/configuration.rs:133-138 | Each environment's name is "local" or "production", different for the two, and already lower case, which is what lets `TryFrom` read it back. |
| Configuration.EnvironmentRoundTrip | src/configuration.rs:133-153 | Parsing the name of an environment gives that environment back. |
| Configuration.UpperCaseLocal | src/configuration.rs:145-146 | "LOCAL" parses as `Local`. |
| Configuration.WithoutDb | src/configuration.rs:78-90 | SSL is `Require` exactly when the settings require it and `Prefer` otherwise. Host, user, password and port are copied, and no database is named. |
| Configuration.WithDb | src/configuration.rs:92-96 | The result is `without_db` with the configured database name added. |
| Errors.ToApiError | src/error.rs:43-60 | The status is 401 exactly for `WrongCredentials`, 400 exactly for `ValidationError` and 500 for every other variant. The payload's code is the status, and its message is the error's display string. |
| Errors.FixedMessagesDistinct | src/error.rs:25-36 | Two fixed-message variants display the same text exactly when they are the same variant, or are the two duplicate-name variants. |
| Errors.Message | src/error.rs:8-37 | A transparent variant displays its cause's text. For `SqlxError` that is sqlx's text: its own sentence for a missing row; otherwise "error returned from database: " followed by the server's message, with a violated constraint's name in double quotes. Every other wrapped variant shows its cause's text. Each variant with its own message displays exactly its `#[error]` text, and the two duplicate-name variants share one. |
| Errors.SqlMessage | src/error.rs:11-12 | A database error shows sqlx's own text. A missing row, and only a missing row, gives the no-rows sentence. Every server error is "error returned from database: " followed by the server's message, and a unique violation names its constraint in double quotes. |
| Errors.DuplicateNamesShareResponse | src/error.rs:31-34 | `DuplicateUserName` and `DuplicateVcTpltName` produce identical responses. |
| Credentials.UrnUuid | src/credentials/adult_prove.rs:15 | The id is "urn:uuid:" followed by the UUID unchanged. |
| Credentials.Envelope | src/credentials/personal_identity.rs:40-47 | A credential's shared fields are exactly context, id, type, issuer, holder and subject, each holding its argument. They include no expiration date. |
| Credentials.Unsigned | src/credentials/personal_identity.rs:40-71 | Every field reads back as given. `expirationDate` is present exactly when an expiration is given, and the document has no other keys. |
| AdultProve.Subject | src/credentials/adult_prove.rs:19-23 | The subject holds exactly the holder as id, the e-mail identity and the verdict. |
| AdultProve.ReadSubject | src/credentials/adult_prove.rs:19-23 | A subject reads as a credential exactly when it carries an e-mail string and an adult flag, and then gives those values. |
| AdultProve.GenerateUnsigned | src/credentials/adult_prove.rs:12-25 | The document's issuer and holder are the arguments, and its id is the URN of the UUID. Its type is ["VerifiableCredential"] and its context is the W3C v1 URL followed by the adult context. It has no expiration date. |
| AdultProve.GenerateUnsignedRoundTrip | src/credentials/adult_prove.rs:18-22 | The subject's id equals the document's holder, and the subject reads back as exactly the credential built. |
| PersonalIdentity.TruncDiv | src/credentials/personal_identity.rs:111 | Division rounds toward zero: the quotient bounds the dividend from below for non-negative dividends and from above for negative ones. |
| PersonalIdentity.NumDays | src/credentials/personal_identity.rs:109-111 | `num_days` is the span's whole-day count rounded toward zero: for a non-negative span, the largest `d` with `d` days at most the span; for a negative one, the smallest `d` with `d` days at least the span. |
| PersonalIdentity.ExceedsMaxIff | src/credentials/personal_identity.rs:109-111 | The truncated whole-day count exceeds 180 exactly when the exact span, in nanoseconds, is at least 181 days. |
| PersonalIdentity.ExpiryInstant | src/credentials/personal_identity.rs:103-117 | The result is never after the requested midnight, and is always strictly before now plus 181 days. A midnight already past is kept as it is. |
| PersonalIdentity.ConvertExpiry | src/credentials/personal_identity.rs:103-117 | A span of at least 181 days gives now plus 180 days, in RFC 3339 with whole seconds and "Z". Any shorter span, past ones included, gives the requested date at `T00:00:00Z`. Input that is not `YYYY/MM/DD` panics. |
| PersonalIdentity.PastExpiryKept | src/credentials/personal_identity.rs:109-115 | A date already in the past is returned unchanged at midnight, never clamped or raised. |
| PersonalIdentity.ConvertExpiryKeptExample | src/credentials/personal_identity.rs:124-129 | The source test's first case: "2022/09/28", requested on 1 June 2022, converts to "2022-09-28T00:00:00Z". |
| PersonalIdentity.ConvertExpiryCappedExample | src/credentials/personal_identity.rs:131-138 | The source test's second case: "2024/09/28" is capped at now plus 180 days. |
| PersonalIdentity.ExampleMidnights | src/credentials/personal_identity.rs:106-108 | The test's two dates parse, and their midnights lie 119 and 850 days after the example day. |
| PersonalIdentity.FromParty | src/credentials/personal_identity.rs:75-101 | Each of the 21 record fields is named with the one field of the verification result it is taken from. |
| PersonalIdentity.ToParty | src/credentials/personal_identity.rs:75-101 | The inverse of the conversion: each field of the verification result is named with the record field it is read back from. |
| PersonalIdentity.FromPartyBijective | src/credentials/personal_identity.rs:75-101 | The conversion is a bijection, so no field is dropped or mixed up. |
| PersonalIdentity.ReadSubject | src/credentials/personal_identity.rs:47-70 | A subject reads as a record exactly when it carries every field with the right kind of value. The expiry read is the raw expiry string. |
| PersonalIdentity.GenerateUnsigned | src/credentials/personal_identity.rs:39-72 | Issuer and holder are the arguments, and the id is the URN of the UUID. `expirationDate` is the converted expiry. The context is the W3C v1 URL followed by the personal-identity context. |
| PersonalIdentity.SubjectRoundTrip | src/credentials/personal_identity.rs:47-70 | The subject's id is the holder, and the subject reads back as exactly the record it was built from, including the raw expiry. |
| PersonalIdentity.GenerateUnsignedRoundTrip | src/credentials/personal_identity.rs:39-72 | The document's subject reads back as exactly the record it was generated from. |
| Passbase.BirthDate | src/service/passbase.rs:48-56 | A birth date exists exactly when the identity is approved, its first document is a national ID card, and that document's birth date reads as `%Y-%m-%d`. |
| Passbase.IsAdult | src/service/passbase.rs:46-76 | The verdict is `None` unless the identity is approved, its first document is a national ID card, and the birth date is present and parses. When there is a verdict, it is adult exactly when the current year minus the birth year is at least 18. |
| Passbase.IsAdultReadsFirstResourceOnly | src/service/passbase.rs:49-53 | Documents after the first never change the verdict. |
| Passbase.IsAdultIgnoresMonthAndDay | src/service/passbase.rs:58-59 | Two birth dates in the same year give the same verdict. |
| Passbase.AdultStaysAdult | src/service/passbase.rs:58-66 | An adult verdict stays adult in every later year. |
| Passbase.IdentityRow | src/service/passbase.rs:104-128 | A found row is used as it is. Otherwise a new row holds the fresh DID, the owner's e-mail, the provider's status and the verdict, with no transaction and no notification. |
| Passbase.IssueStep | src/service/passbase.rs:130-183 | With no verdict nothing is issued or written. With a verdict, an adult proof carrying the row's identity and the verdict is issued to the row's DID by the predefined issuer. The row is written back with only the verdict, the chain placeholder, the notification flag and the update time changed. |
| Passbase.RefreshIdentityStatus | src/service/passbase.rs:101-183 | An unknown identity always gets a stored row with the fresh DID and the owner's e-mail, verdict or not. A credential is issued exactly when there is a verdict, and the stored row is then the one written back. The stored verdict is the computed one unless a found row is left as it was, and the credential's flag equals the verdict. A new identity's credential goes to its fresh DID under the owner's e-mail. |
| Passbase.IssuedCredentialMatchesRow | src/service/passbase.rs:131-142 | The issued document's subject says adult exactly when the written row does. |
| Calendar.ParseDate | src/credentials/personal_identity.rs:106-108 | A successful parse gives a valid calendar date within the library's year range. |
| Calendar.ParseCanonicalDate | src/service/passbase.rs:56 | Every valid date with a four-digit year, written with the separator, parses back to itself. |
| Calendar.CivilRoundTrip | src/credentials/personal_identity.rs:106-115 | Converting a valid date to its day count and back gives the same date. |
| Calendar.DaysRoundTrip | src/credentials/personal_identity.rs:106-115 | Every day count names a valid date, and converting that date back gives the same count. With `CivilRoundTrip`, the two conversions are inverse bijections. |
| Calendar.DaysFromCivilInjective | src/credentials/personal_identity.rs:106-109 | Two valid dates share a day count exactly when they are equal. |
| Calendar.FormatRfc3339 | src/credentials/personal_identity.rs:112-115 | The timestamp is at least 20 characters long, has a "T" ten characters from the end, and ends in "Z". `FormatRfc3339ReadBack` states what it reads back to. |
| Calendar.FormatRfc3339ReadBack | src/credentials/personal_identity.rs:112-115 | For an instant whose date has a four-digit year, the timestamp is 20 characters. Its date part parses to the instant's day, and that day's count times 86400 plus the hour, minute and second fields gives the instant back. |
| Calendar.TimeText | src/credentials/personal_identity.rs:112-115 | The time part is `THH:MM:SSZ`, and hours times 3600 plus minutes times 60 plus seconds is the second of the day. |
| Calendar.FormatMidnight | src/credentials/personal_identity.rs:115 | Midnight UTC of a valid date is formatted as that date followed by `T00:00:00Z`. |
| Text.AsciiLower | src/configuration.rs:145 | Lower-casing keeps the length, maps each ASCII capital to its small letter and leaves every other character unchanged. |
| Text.DecimalRoundTrip | src/credentials/personal_identity.rs:115 | The decimal text of a number reads back as that number. |

## Left out

- I/O: the web3 transport, Postgres, HTTP to the identity provider, and process-wide statics. Each becomes a parameter or an input list.
- Chain timing: the 2 s poll interval and the 10 s back-off. `tokio::spawn` is left out too: `SendTx` records the hash it starts confirming, and the confirmation itself is modelled separately and sequentially.
- `send_tx` panics and ABI loading: the private-key parse, the contract-address parse and the ABI file read are `expect`s on I/O or on configuration text. `SendTx` takes the signing result as a parameter, and requires only that the contract name is configured.
- Chain.Confirm: the unbounded recursion is bounded by the lengths of the two RPC outcome lists. A frame that runs out of outcomes counts as never returning.
- Chain.ParseH256: hex parsing follows the code's own `{:#x}` output: an optional "0x" and hex digits only. The hex library behind `H256::from_str` is not part of this model, and any whitespace it may skip between digits is not modelled.
- Chain.ConfirmTx: the `update_send_status(...).unwrap()` panic on a vanished row is excluded by requiring the row to be stored.
- Chain.ConfirmTx: when the outermost frame does not return, the contract says only that the row is unchanged or holds the write for one of the fetches. It does not say which nested write that is.
- Column defaults for `tx_records.send_status` and `vc_issuers.status`: the schema is not part of this model. Both are taken to be 0, the status the recovery sweep selects.
- Quote doubling: the database's reading of a doubled quote inside a literal is not modelled. `ParseInList` stops a literal at the first quote.
- Store.FindByNames: SQL is not modelled beyond a plain list of quoted literals separated by bare commas. Whitespace around a comma (`'a' ,'b'`), an injected `OR` clause, a `UNION SELECT` or a stray quote all take the database's answer as a parameter. The model promises nothing about that answer, which may hold rows that are not in the table.
- `User::find_by_id`: no modelled operation calls it.
- Users table constraints: no unique constraint is assumed, and `User::create` never fails in the model.
- Store.TxCreate: one instant fills both `created_at` and `updated_at`, where the source reads `Utc::now()` separately for each.
- Passbase.IdentityRow: one instant fills both timestamps of a new row, where the source reads `Utc::now()` separately for each.
- Errors.Message: the database server's texts are modelled only for a unique violation and for an empty IN-list. The schema is not part of this model, so the constraint names assume Postgres's default `<table>_pkey` for each table's primary key. Any other server failure is `Database(detail)`, with the server's own text as its detail.
- Templates.Create: the insert `VcTplt::create` never fails in the model, though the database may refuse it. The model also uses one instant for both timestamps, where the source reads `Utc::now()` separately for `created_at` and `updated_at`.
- VcTplt: the template type and its table are defined outside the modelled files. Their lookup is taken to be a `LIMIT 1` query like the users table's.
- Auth.SignUp and Auth.SignIn: password hashing and checking are bcrypt library calls and are parameters.
- Auth.SignIn: the contract does not say that `WrongPassword` occurs only for a failed check, because the password check may itself return `WrongPassword` as its error.
- Passbase: only success is modelled for the service calls `refresh_identity_status` makes (identity fetch, DID creation, issuing, chain submit, backend notification, row update). Their failures and the credential service's signing are left out.
- The provider's floating-point `score` is not read by any modelled decision.
- Passbase row store: the `PassbaseIdentity` store functions and the `Passbase*` error variants used by `src/service/passbase.rs` are not part of this model. The row found, or not found, is a parameter.
- Passbase.IsAdult: the current year is a parameter in place of `Utc::now()`.
- PersonalIdentity.ConvertExpiry: the source reads the clock twice, once for the distance and once for the capped result. The model uses one instant for both, so a capped result can differ from the source's by the time between the two reads.
- Calendar.ParseDate: chrono's parser also skips whitespace around items. `ParseDate` accepts only a `%Y`, a separator, up to two month digits, the separator and up to two day digits. Years are limited to chrono's range.
- Calendar.FormatRfc3339ReadBack: covers instants whose date has a year from 0 to 9999. Outside that range the year is written with a sign, and reading it back is not proved.
- Text.AsciiLower: it changes ASCII capitals only. Rust's `to_lowercase` also maps non-ASCII capitals.
- JSON key order and serialisation: a document is a map from keys to values.
- The `PartyResult` type: `src/api.rs` defines it, and it is not part of this model. Its shape is inferred from the field accesses in `From<PartyResult>`.
- Envelope encryption, DID key generation, JWTs, the HTTP handlers and routing: `src/utils`, `src/service/did.rs`, `src/handlers` and `src/api.rs` are not part of this model.

## Findings

| source | as written | input that shows it | evidently intended | confidence | as-written member | corrected member |
|---|---|---|---|---|---|---|
| src/service/chain.rs:103-121 | After `retry_confirm` returns, the frame carries on to its own receipt fetch or status write. A frame whose fetch found no receipt writes `(-1, None)` after the retry's write. | First fetch gives no receipt; the retry's wait succeeds and its fetch gets a receipt with status 1 in block 7. The writes are `(1, 7)` and then `(-1, None)`, so a confirmed transaction is stored as failed. | Return after the retry, so one write reports the first receipt obtained. | not executed | Chain.ConfirmOverwritesSuccess | Chain.ConfirmFixed |
