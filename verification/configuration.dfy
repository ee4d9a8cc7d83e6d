/** The decisions inside the settings code (src/configuration.rs): contract
    address lookup, the runtime environment name and the database connect
    options with their SSL mode. Reading the files and the process environment
    is not modelled; the settings arrive as values. */
module Configuration {
  import opened Wrappers
  import opened Text

  datatype ContractMeta = ContractMeta(name: string, address: string)

  datatype ChainSettings = ChainSettings(
    controllerPrivateKey: string,
    contractAbiPath: string,
    provider: string,
    contracts: seq<ContractMeta>)

  /** Index of the first contract entry with the given name, if any. */
  function FirstNamed(contracts: seq<ContractMeta>, name: string): (i: Option<nat>)
    ensures i.Some? ==> i.value < |contracts| && contracts[i.value].name == name
    ensures i.Some? ==> forall j :: 0 <= j < i.value ==> contracts[j].name != name
    ensures i.None? ==> forall j :: 0 <= j < |contracts| ==> contracts[j].name != name
  {
    if |contracts| == 0 then None
    else if contracts[0].name == name then Some(0)
    else match FirstNamed(contracts[1..], name)
      case None => None
      case Some(k) => Some(k + 1)
  }

  predicate IsFirstNamed(contracts: seq<ContractMeta>, j: nat, name: string)
    requires j < |contracts|
  {
    contracts[j].name == name && forall k :: 0 <= k < j ==> contracts[k].name != name
  }

  /** The address of the first configured contract with that name; `None` when
      no entry carries the name. */
  function GetContractAddress(settings: ChainSettings, name: string): (a: Option<string>)
    ensures a.None? <==> forall j :: 0 <= j < |settings.contracts| ==> settings.contracts[j].name != name
    ensures a.Some? ==>
      exists j :: 0 <= j < |settings.contracts| && IsFirstNamed(settings.contracts, j, name) && settings.contracts[j].address == a.value
  {
    match FirstNamed(settings.contracts, name)
    case None => None
    case Some(i) => Some(settings.contracts[i].address)
  }

  /** Adding entries after the list never changes an answer the list already gives. */
  lemma {:induction false} LookupIgnoresLaterEntries(contracts: seq<ContractMeta>, more: seq<ContractMeta>, name: string)
    requires FirstNamed(contracts, name).Some?
    ensures FirstNamed(contracts + more, name) == FirstNamed(contracts, name)
  {
    if contracts[0].name != name {
      assert (contracts + more)[1..] == contracts[1..] + more;
      LookupIgnoresLaterEntries(contracts[1..], more, name);
    }
  }

  // ------------------------------------------------------------ environment

  datatype Environment = Local | Production

  /** The environment's name: one of the two names `TryFrom` accepts, already
      lower case, and different for the two environments. */
  function AsStr(e: Environment): (s: string)
    ensures s == "local" || s == "production"
    ensures s == "local" <==> e == Local
    ensures forall i :: 0 <= i < |s| ==> !IsAsciiUpper(s[i])
  {
    match e
    case Local => "local"
    case Production => "production"
  }

  /** Lower-cases the input, then accepts exactly "local" and "production";
      anything else is an error that quotes the lower-cased input. */
  function TryFrom(s: string): (r: Result<Environment, string>)
    ensures r.Ok? <==> AsciiLower(s) == "local" || AsciiLower(s) == "production"
    ensures r.Ok? ==> AsStr(r.value) == AsciiLower(s)
    ensures r.Err? ==> |r.error| >= |s| && r.error[..|s|] == AsciiLower(s)
  {
    var lower := AsciiLower(s);
    if lower == "local" then Ok(Local)
    else if lower == "production" then Ok(Production)
    else Err(lower + " is not a supported environment. Use either `local` or `production`.")
  }

  /** Parsing the name of an environment gives that environment back. */
  lemma EnvironmentRoundTrip(e: Environment)
    ensures TryFrom(AsStr(e)) == Ok(e)
  {
    var s := AsStr(e);
    LowerOfLower(s);
  }

  lemma UpperCaseLocal()
    ensures TryFrom("LOCAL") == Ok(Local)
  {
    assert AsciiLower("LOCAL") == "local";
  }

  // --------------------------------------------------------------- database

  datatype DatabaseSettings = DatabaseSettings(
    username: string,
    password: string,
    port: nat,
    host: string,
    databaseName: string,
    requireSsl: bool)

  datatype SslMode = Require | Prefer

  datatype PgConnectOptions = PgConnectOptions(
    host: string,
    username: string,
    password: string,
    port: nat,
    sslMode: SslMode,
    database: Option<string>)

  /** Connect options without a database: the settings' connection fields, SSL
      required exactly when the settings ask for it and preferred otherwise. */
  function WithoutDb(s: DatabaseSettings): (o: PgConnectOptions)
    ensures o.sslMode == Require <==> s.requireSsl
    ensures o.sslMode == Prefer <==> !s.requireSsl
    ensures o.host == s.host && o.username == s.username && o.password == s.password && o.port == s.port
    ensures o.database.None?
  {
    var mode := if s.requireSsl then Require else Prefer;
    PgConnectOptions(s.host, s.username, s.password, s.port, mode, None)
  }

  /** The same options naming the configured database. */
  function WithDb(s: DatabaseSettings): (o: PgConnectOptions)
    ensures o.database == Some(s.databaseName)
    ensures o.(database := None) == WithoutDb(s)
  {
    WithoutDb(s).(database := Some(s.databaseName))
  }
}
