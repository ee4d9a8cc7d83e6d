/** The three tables of src/sql.rs as maps keyed by their natural key:
    `tx_records` by transaction hash, `vc_issuers` by DID, `dids` by id.
    A statement that ends in `fetch_one` fails when it returns no row; an
    insert fails when its key is already present. Timestamps are passed in. */
module Store {
  import opened Wrappers
  import opened Text
  import opened Errors

  /** The order in which the database happens to return the rows of an
      unordered SELECT: every key of the table exactly once. */
  ghost predicate Enumerates<K(!new), V>(scan: seq<K>, table: map<K, V>) {
    (forall i, j :: 0 <= i < j < |scan| ==> scan[i] != scan[j])
    && (forall k :: k in scan <==> k in table)
  }

  /** A write's outcome: the new table and the row the statement returned. */
  datatype Stored<K, V> = Stored(table: map<K, V>, row: V)

  // -------------------------------------------------------------- tx_records

  datatype TxRecord = TxRecord(
    txHash: string,
    sendStatus: int,
    blockNumber: Option<int>,
    createdAt: int,
    updatedAt: int)

  type TxTable = map<string, TxRecord>

  predicate TxKeyed(t: TxTable) {
    forall h :: h in t ==> t[h].txHash == h
  }

  /** `send_status` is not written by the insert: the row takes the column
      default, 0 ("pending"). */
  const DefaultSendStatus: int := 0

  /** Inserts a row for `txHash` and returns it; a hash already present violates
      the key and changes nothing. */
  function TxCreate(t: TxTable, txHash: string, now: int): (r: Result<Stored<string, TxRecord>, Error>)
    ensures r.Err? <==> txHash in t
    ensures r.Err? ==> r.error.SqlxError? && r.error.cause.UniqueViolation?
    ensures r.Ok? ==> r.value.row == TxRecord(txHash, DefaultSendStatus, None, now, now)
    ensures r.Ok? ==> r.value.table == t[txHash := r.value.row]
    ensures r.Ok? && TxKeyed(t) ==> TxKeyed(r.value.table)
  {
    if txHash in t then Err(SqlxError(UniqueViolation("tx_records_pkey")))
    else
      var row := TxRecord(txHash, DefaultSendStatus, None, now, now);
      Ok(Stored(t[txHash := row], row))
  }

  /** Hashes of the rows whose status is `s`, in the order `scan` visits them. */
  function HashesWithStatus(t: TxTable, scan: seq<string>, s: int): (hs: seq<string>)
    requires forall i :: 0 <= i < |scan| ==> scan[i] in t
    ensures forall i :: 0 <= i < |hs| ==> hs[i] in t && t[hs[i]].sendStatus == s
    ensures forall h :: h in hs <==> h in scan && t[h].sendStatus == s
    ensures (forall i, j :: 0 <= i < j < |scan| ==> scan[i] != scan[j]) ==>
      forall i, j :: 0 <= i < j < |hs| ==> hs[i] != hs[j]
  {
    if |scan| == 0 then []
    else
      var rest := HashesWithStatus(t, scan[1..], s);
      if t[scan[0]].sendStatus == s then [scan[0]] + rest else rest
  }

  /** `find_by_send_status`: exactly the rows whose status is `s`, each once. */
  function FindBySendStatus(t: TxTable, scan: seq<string>, s: int): (rows: seq<TxRecord>)
    requires Enumerates(scan, t) && TxKeyed(t)
    ensures forall i :: 0 <= i < |rows| ==> rows[i].sendStatus == s && rows[i].txHash in t && t[rows[i].txHash] == rows[i]
    ensures forall h :: h in t && t[h].sendStatus == s ==> t[h] in rows
    ensures forall i, j :: 0 <= i < j < |rows| ==> rows[i].txHash != rows[j].txHash
  {
    var hs := HashesWithStatus(t, scan, s);
    var rows := seq(|hs|, i requires 0 <= i < |hs| => t[hs[i]]);
    forall h | h in t && t[h].sendStatus == s
      ensures t[h] in rows
    {
      assert h in hs;
      var i :| 0 <= i < |hs| && hs[i] == h;
      assert rows[i] == t[h];
    }
    rows
  }

  /** Sets status, block number and update time of the row for `txHash`; a
      missing row makes the statement return nothing, which is an error. */
  function UpdateSendStatus(t: TxTable, txHash: string, sendStatus: int, blockNumber: Option<int>, now: int)
    : (r: Result<Stored<string, TxRecord>, Error>)
    ensures r.Err? <==> txHash !in t
    ensures r.Err? ==> r.error == SqlxError(RowNotFound)
    ensures r.Ok? ==> r.value.table.Keys == t.Keys
    ensures r.Ok? ==> forall h :: h in t && h != txHash ==> r.value.table[h] == t[h]
    ensures r.Ok? ==> r.value.table[txHash] == r.value.row
    ensures r.Ok? ==> r.value.row.sendStatus == sendStatus && r.value.row.blockNumber == blockNumber
    ensures r.Ok? ==> r.value.row.updatedAt == now
    ensures r.Ok? ==> r.value.row.txHash == t[txHash].txHash && r.value.row.createdAt == t[txHash].createdAt
    ensures r.Ok? && TxKeyed(t) ==> TxKeyed(r.value.table)
  {
    if txHash !in t then Err(SqlxError(RowNotFound))
    else
      var row := t[txHash].(sendStatus := sendStatus, blockNumber := blockNumber, updatedAt := now);
      Ok(Stored(t[txHash := row], row))
  }

  /** A newly stored transaction is one the pending selection returns. */
  lemma CreatedTxIsPending(t: TxTable, scan: seq<string>, txHash: string, now: int)
    requires txHash !in t && TxKeyed(t)
    requires Enumerates(scan, TxCreate(t, txHash, now).value.table)
    ensures TxCreate(t, txHash, now).value.row in FindBySendStatus(TxCreate(t, txHash, now).value.table, scan, DefaultSendStatus)
  {
    var r := TxCreate(t, txHash, now).value;
    assert txHash in r.table && r.table[txHash] == r.row && r.row.sendStatus == DefaultSendStatus;
  }

  /** After a status update the row is selected under its new status and
      under no other. */
  lemma UpdatedTxSelectedByNewStatus(t: TxTable, scan: seq<string>, txHash: string, sendStatus: int,
                                     blockNumber: Option<int>, now: int, other: int)
    requires txHash in t && TxKeyed(t) && Enumerates(scan, t) && other != sendStatus
    ensures var r := UpdateSendStatus(t, txHash, sendStatus, blockNumber, now).value;
      r.row in FindBySendStatus(r.table, scan, sendStatus) && r.row !in FindBySendStatus(r.table, scan, other)
  {
    var r := UpdateSendStatus(t, txHash, sendStatus, blockNumber, now).value;
    assert Enumerates(scan, r.table);
  }

  /** Repeating an update with the same values changes nothing more. */
  lemma UpdateSendStatusIdempotent(t: TxTable, txHash: string, sendStatus: int, blockNumber: Option<int>, now: int)
    requires txHash in t
    ensures var once := UpdateSendStatus(t, txHash, sendStatus, blockNumber, now).value;
      UpdateSendStatus(once.table, txHash, sendStatus, blockNumber, now) == Ok(once)
  {
    var once := UpdateSendStatus(t, txHash, sendStatus, blockNumber, now).value;
    assert once.table[txHash := once.row] == once.table;
  }

  // -------------------------------------------------------------- vc_issuers

  datatype VcIssuer = VcIssuer(
    did: string,
    name: string,
    serviceAddress: int,
    status: int,
    pid: Option<int>,
    createdAt: int,
    updatedAt: int)

  datatype CreateVcIssuerData = CreateVcIssuerData(
    did: string,
    name: string,
    serviceAddress: int,
    status: int,
    createdAt: int,
    updatedAt: int)

  datatype UpdateVcIssuerData = UpdateVcIssuerData(
    did: string,
    name: string,
    serviceAddress: int,
    pid: Option<int>,
    status: int,
    updatedAt: int)

  type IssuerTable = map<string, VcIssuer>

  predicate IssuerKeyed(t: IssuerTable) {
    forall d :: d in t ==> t[d].did == d
  }

  /** The insert does not write `status` or `pid`: the row takes the column
      defaults, status 0 and no process id. */
  const DefaultIssuerStatus: int := 0

  function IssuerRows(t: IssuerTable, scan: seq<string>): (rows: seq<VcIssuer>)
    requires forall i :: 0 <= i < |scan| ==> scan[i] in t
    ensures |rows| == |scan|
    ensures forall i :: 0 <= i < |scan| ==> rows[i] == t[scan[i]]
  {
    seq(|scan|, i requires 0 <= i < |scan| => t[scan[i]])
  }

  predicate SortedByAddressDesc(rows: seq<VcIssuer>) {
    forall i, j :: 0 <= i < j < |rows| ==> rows[i].serviceAddress >= rows[j].serviceAddress
  }

  function InsertByAddress(x: VcIssuer, rows: seq<VcIssuer>): (r: seq<VcIssuer>)
    requires SortedByAddressDesc(rows)
    ensures SortedByAddressDesc(r)
    ensures multiset(r) == multiset(rows) + multiset{x}
    ensures forall y :: y in r ==> y == x || y in rows
  {
    if |rows| == 0 then [x]
    else if x.serviceAddress >= rows[0].serviceAddress then [x] + rows
    else
      var tail := InsertByAddress(x, rows[1..]);
      assert rows == [rows[0]] + rows[1..];
      InsertBelowHead(x, rows[0], rows[1..], tail);
      [rows[0]] + tail
  }

  /** The step of the insertion: `x` went below the head, into the rest. */
  lemma InsertBelowHead(x: VcIssuer, head: VcIssuer, rest: seq<VcIssuer>, tail: seq<VcIssuer>)
    requires SortedByAddressDesc([head] + rest) && x.serviceAddress < head.serviceAddress
    requires SortedByAddressDesc(tail) && multiset(tail) == multiset(rest) + multiset{x}
    requires forall y :: y in tail ==> y == x || y in rest
    ensures SortedByAddressDesc([head] + tail)
    ensures multiset([head] + tail) == multiset([head] + rest) + multiset{x}
    ensures forall y :: y in [head] + tail ==> y == x || y in [head] + rest
  {
    forall y | y in tail
      ensures y.serviceAddress <= head.serviceAddress
    {
      if y != x {
        var j :| 0 <= j < |rest| && rest[j] == y;
        assert ([head] + rest)[0] == head && ([head] + rest)[j + 1] == y;
      }
    }
    var r := [head] + tail;
    forall i, j | 0 <= i < j < |r|
      ensures r[i].serviceAddress >= r[j].serviceAddress
    {
      if i > 0 {
        assert r[i] == tail[i - 1] && r[j] == tail[j - 1];
      } else {
        assert r[j] in tail;
      }
    }
  }

  function SortByAddressDesc(rows: seq<VcIssuer>): (r: seq<VcIssuer>)
    ensures SortedByAddressDesc(r)
    ensures multiset(r) == multiset(rows)
  {
    if |rows| == 0 then []
    else
      assert rows == [rows[0]] + rows[1..];
      InsertByAddress(rows[0], SortByAddressDesc(rows[1..]))
  }

  /** `find_all`: every issuer exactly once, highest service address first. */
  function FindAll(t: IssuerTable, scan: seq<string>): (rows: seq<VcIssuer>)
    requires Enumerates(scan, t)
    ensures SortedByAddressDesc(rows)
    ensures multiset(rows) == multiset(IssuerRows(t, scan))
    ensures |rows| == |t|
    ensures forall d :: d in t ==> t[d] in rows
    ensures forall x :: x in rows ==> exists d :: d in t && t[d] == x
  {
    var r := SortByAddressDesc(IssuerRows(t, scan));
    TableRowsCover(t, scan, r);
    r
  }

  /** Any arrangement of the rows a scan visits holds each row of the table
      once: as many rows as keys, and every row stored under some key. */
  lemma TableRowsCover(t: IssuerTable, scan: seq<string>, r: seq<VcIssuer>)
    requires Enumerates(scan, t)
    requires multiset(r) == multiset(IssuerRows(t, scan))
    ensures |r| == |t|
    ensures forall d :: d in t ==> t[d] in r
    ensures forall x :: x in r ==> exists d :: d in t && t[d] == x
  {
    var unsorted := IssuerRows(t, scan);
    assert |r| == |unsorted| by {
      assert |multiset(r)| == |multiset(unsorted)|;
    }
    assert |scan| == |t| by {
      DistinctCover(scan, t);
    }
    forall d | d in t
      ensures t[d] in r
    {
      var i :| 0 <= i < |scan| && scan[i] == d;
      assert unsorted[i] == t[d];
      assert t[d] in multiset(unsorted);
    }
    forall x | x in r
      ensures exists d :: d in t && t[d] == x
    {
      assert x in multiset(unsorted);
      var i :| 0 <= i < |unsorted| && unsorted[i] == x;
      assert t[scan[i]] == x;
    }
  }

  lemma {:induction false} DistinctCover<K(!new), V>(scan: seq<K>, t: map<K, V>)
    requires Enumerates(scan, t)
    ensures |scan| == |t|
    decreases |scan|
  {
    if |scan| == 0 {
      assert t.Keys == {};
    } else {
      var k := scan[0];
      var t' := map x | x in t && x != k :: t[x];
      assert t'.Keys == t.Keys - {k};
      assert Enumerates(scan[1..], t') by {
        forall x
          ensures x in scan[1..] <==> x in t'
        {
          if x in scan[1..] {
            var j :| 0 <= j < |scan[1..]| && scan[1..][j] == x;
            assert scan[j + 1] == x;
          }
          if x in t' {
            assert x in scan;
            var j :| 0 <= j < |scan| && scan[j] == x;
            assert j != 0;
            assert scan[1..][j - 1] == x;
          }
        }
      }
      DistinctCover(scan[1..], t');
    }
  }

  function FindByDid(t: IssuerTable, did: string): (r: Result<VcIssuer, Error>)
    ensures r.Ok? <==> did in t
    ensures r.Ok? ==> r.value == t[did]
    ensures r.Err? ==> r.error == SqlxError(RowNotFound)
  {
    if did in t then Ok(t[did]) else Err(SqlxError(RowNotFound))
  }

  /** `find_by_name` takes one matching row (`LIMIT 1`): the first the scan meets. */
  function FindByName(t: IssuerTable, scan: seq<string>, name: string): (r: Result<VcIssuer, Error>)
    requires forall i :: 0 <= i < |scan| ==> scan[i] in t
    ensures r.Ok? <==> exists i :: 0 <= i < |scan| && t[scan[i]].name == name
    ensures r.Ok? ==> r.value.name == name && r.value in IssuerRows(t, scan)
    ensures r.Ok? ==> exists i :: 0 <= i < |scan| && t[scan[i]] == r.value && NoneNamedBefore(t, scan, i, name)
    ensures r.Err? ==> r.error == SqlxError(RowNotFound)
  {
    if |scan| == 0 then Err(SqlxError(RowNotFound))
    else if t[scan[0]].name == name then
      assert NoneNamedBefore(t, scan, 0, name);
      Ok(t[scan[0]])
    else
      var r := FindByName(t, scan[1..], name);
      assert forall i :: 1 <= i < |scan| ==> scan[i] == scan[1..][i - 1];
      assert r.Ok? ==> r.value in IssuerRows(t, scan[1..]);
      if r.Ok? then
        var i :| 0 <= i < |scan[1..]| && t[scan[1..][i]] == r.value && NoneNamedBefore(t, scan[1..], i, name);
        assert t[scan[i + 1]] == r.value && NoneNamedBefore(t, scan, i + 1, name);
        r
      else r
  }

  /** No issuer the scan meets before position `i` has the name. */
  predicate NoneNamedBefore(t: IssuerTable, scan: seq<string>, i: nat, name: string)
    requires i <= |scan| && forall k :: 0 <= k < |scan| ==> scan[k] in t
  {
    forall j :: 0 <= j < i ==> t[scan[j]].name != name
  }

  /** Inserts the DID, name, service address and timestamps; the status in
      `data` is not written. A DID already present violates the key. */
  function IssuerCreate(t: IssuerTable, data: CreateVcIssuerData): (r: Result<Stored<string, VcIssuer>, Error>)
    ensures r.Err? <==> data.did in t
    ensures r.Err? ==> r.error.SqlxError? && r.error.cause.UniqueViolation?
    ensures r.Ok? ==> r.value.table == t[data.did := r.value.row]
    ensures r.Ok? ==> r.value.row.did == data.did && r.value.row.name == data.name
    ensures r.Ok? ==> r.value.row.serviceAddress == data.serviceAddress
    ensures r.Ok? ==> r.value.row.createdAt == data.createdAt && r.value.row.updatedAt == data.updatedAt
    ensures r.Ok? ==> r.value.row.status == DefaultIssuerStatus && r.value.row.pid.None?
    ensures r.Ok? && IssuerKeyed(t) ==> IssuerKeyed(r.value.table)
  {
    if data.did in t then Err(SqlxError(UniqueViolation("vc_issuers_pkey")))
    else
      var row := VcIssuer(data.did, data.name, data.serviceAddress, DefaultIssuerStatus, None,
        data.createdAt, data.updatedAt);
      Ok(Stored(t[data.did := row], row))
  }

  /** The status a caller puts into the create data has no effect. */
  lemma IssuerCreateIgnoresStatus(t: IssuerTable, data: CreateVcIssuerData, status: int)
    ensures IssuerCreate(t, data.(status := status)) == IssuerCreate(t, data)
  {
  }

  /** Writes service address, status, pid and update time of the row for the
      DID; its name and creation time stay, every other row stays. */
  function IssuerUpdate(t: IssuerTable, data: UpdateVcIssuerData): (r: Result<Stored<string, VcIssuer>, Error>)
    ensures r.Err? <==> data.did !in t
    ensures r.Err? ==> r.error == SqlxError(RowNotFound)
    ensures r.Ok? ==> r.value.table.Keys == t.Keys && r.value.table[data.did] == r.value.row
    ensures r.Ok? ==> forall d :: d in t && d != data.did ==> r.value.table[d] == t[d]
    ensures r.Ok? ==> r.value.row.serviceAddress == data.serviceAddress && r.value.row.status == data.status
    ensures r.Ok? ==> r.value.row.pid == data.pid && r.value.row.updatedAt == data.updatedAt
    ensures r.Ok? ==> r.value.row.did == t[data.did].did && r.value.row.name == t[data.did].name
    ensures r.Ok? ==> r.value.row.createdAt == t[data.did].createdAt
    ensures r.Ok? && IssuerKeyed(t) ==> IssuerKeyed(r.value.table)
  {
    if data.did !in t then Err(SqlxError(RowNotFound))
    else
      var row := t[data.did].(serviceAddress := data.serviceAddress, status := data.status,
        pid := data.pid, updatedAt := data.updatedAt);
      Ok(Stored(t[data.did := row], row))
  }

  /** A created issuer is found under its DID; an updated one is found
      holding the update. */
  lemma IssuerCreateThenFind(t: IssuerTable, data: CreateVcIssuerData)
    requires data.did !in t
    ensures IssuerCreate(t, data).Ok?
    ensures FindByDid(IssuerCreate(t, data).value.table, data.did) == Ok(IssuerCreate(t, data).value.row)
  {
  }

  lemma IssuerUpdateThenFind(t: IssuerTable, data: UpdateVcIssuerData)
    requires data.did in t
    ensures IssuerUpdate(t, data).Ok?
    ensures FindByDid(IssuerUpdate(t, data).value.table, data.did) == Ok(IssuerUpdate(t, data).value.row)
  {
  }

  // ---------------------------------------------------- find_by_names IN-list

  function Quote(name: string): (q: string)
    ensures |q| == |name| + 2 && q[0] == '\'' && q[|q| - 1] == '\''
  {
    "'" + name + "'"
  }

  function QuoteAll(names: seq<string>): (qs: seq<string>)
    ensures |qs| == |names|
    ensures forall i :: 0 <= i < |names| ==> qs[i] == Quote(names[i])
  {
    if |names| == 0 then [] else [Quote(names[0])] + QuoteAll(names[1..])
  }

  /** The IN-list text: each name between single quotes, joined by commas, with
      nothing escaped. */
  function InList(names: seq<string>): string {
    Join(",", QuoteAll(names))
  }

  const NamesQueryHead: string := "SELECT * FROM vc_issuers WHERE name IN ("

  /** The query text: the fixed head, the IN-list, a closing parenthesis. For
      a non-empty list of quote-free names, the database reads the text
      between the parentheses as exactly those names. */
  function FindByNamesSql(names: seq<string>): (q: string)
    ensures |q| == |NamesQueryHead| + |InList(names)| + 1
    ensures q[..|NamesQueryHead|] == NamesQueryHead && q[|q| - 1] == ')'
    ensures (|names| > 0 && forall i :: 0 <= i < |names| ==> QuoteFree(names[i])) ==>
      ParseInList(q[|NamesQueryHead|..|q| - 1]) == Some(names)
  {
    var q := NamesQueryHead + InList(names) + ")";
    assert q[|NamesQueryHead|..|q| - 1] == InList(names);
    assert (|names| > 0 && forall i :: 0 <= i < |names| ==> QuoteFree(names[i])) ==>
      ParseInList(InList(names)) == Some(names) by {
      if |names| > 0 && forall i :: 0 <= i < |names| ==> QuoteFree(names[i]) {
        InListRoundTrip(names);
      }
    }
    q
  }

  predicate QuoteFree(name: string) {
    forall i :: 0 <= i < |name| ==> name[i] != '\''
  }

  /** Position of the first single quote in `s`, if any. */
  function QuoteAt(s: string): (k: Option<nat>)
    ensures k.Some? ==> k.value < |s| && s[k.value] == '\'' && QuoteFree(s[..k.value])
    ensures k.None? ==> QuoteFree(s)
  {
    if |s| == 0 then None
    else if s[0] == '\'' then Some(0)
    else match QuoteAt(s[1..])
      case None => None
      case Some(k) =>
        assert s[..k + 1] == [s[0]] + s[1..][..k];
        Some(k + 1)
  }

  /** How the database reads a comma-separated list of quoted literals (a
      doubled quote inside a literal is not modelled). */
  function ParseInList(s: string): (r: Option<seq<string>>)
    decreases |s|
  {
    if |s| == 0 || s[0] != '\'' then None
    else match QuoteAt(s[1..])
      case None => None
      case Some(k) =>
        var item := s[1..k + 1];
        var rest := s[k + 2..];
        if |rest| == 0 then Some([item])
        else if rest[0] != ',' then None
        else match ParseInList(rest[1..])
          case None => None
          case Some(items) => Some([item] + items)
  }

  lemma QuoteAtQuoted(name: string, rest: string)
    requires QuoteFree(name)
    ensures QuoteAt(name + "'" + rest) == Some(|name|)
  {
    if |name| > 0 {
      assert (name + "'" + rest)[1..] == name[1..] + "'" + rest;
      QuoteAtQuoted(name[1..], rest);
    }
  }

  /** Quote-free names survive the trip through the IN-list text. */
  lemma {:induction false} InListRoundTrip(names: seq<string>)
    requires |names| > 0
    requires forall i :: 0 <= i < |names| ==> QuoteFree(names[i])
    ensures ParseInList(InList(names)) == Some(names)
  {
    var s := InList(names);
    var n := names[0];
    if |names| == 1 {
      assert names == [n];
      assert s == "'" + n + "'";
      assert |s| == |n| + 2;
      assert s[1..] == n + "'" + "";
      QuoteAtQuoted(n, "");
      assert s[1..|n| + 1] == n;
    } else {
      var tail := InList(names[1..]);
      assert QuoteAll(names)[1..] == QuoteAll(names[1..]);
      assert s == "'" + n + "'" + "," + tail;
      assert s[1..] == n + "'" + ("," + tail);
      QuoteAtQuoted(n, "," + tail);
      assert s[1..|n| + 1] == n;
      assert s[|n| + 2..] == "," + tail;
      assert ("," + tail)[1..] == tail;
      InListRoundTrip(names[1..]);
      assert [n] + names[1..] == names;
    }
  }

  /** A quote inside a name is not escaped: the name "a','b" reads as the
      two names "a" and "b". */
  lemma InListNotEscaped()
    ensures InList(["a','b"]) == "'a','b'"
    ensures ParseInList(InList(["a','b"])) == Some(["a", "b"])
  {
    var s := InList(["a','b"]);
    assert s == "'a','b'";
    assert ParseInList("'b'") == Some(["b"]) by {
      assert "'b'"[1..] == "b'";
      assert QuoteAt("b'") == Some(1);
      assert "'b'"[1..2] == "b";
      assert "'b'"[3..] == "";
    }
    assert s[1..] == "a','b'";
    assert QuoteAt("a','b'") == Some(1);
    assert s[1..2] == "a";
    assert s[3..] == ",'b'";
    assert s[3..][1..] == "'b'";
    assert s[3..][0] == ',' && |s[3..]| != 0;
    assert ["a"] + ["b"] == ["a", "b"];
  }

  /** `find_by_names`: when the text between the parentheses is a plain list
      of quoted literals, the rows whose name it lists, in scan order. The
      empty list gives `IN ()`, a syntax error. Any other text (a name
      carrying a quote can close the list and append its own SQL) is run by
      the database as whatever query it spells; its answer is the parameter
      `injected`, about which nothing is assumed. */
  function FindByNames(t: IssuerTable, scan: seq<string>, names: seq<string>,
                       injected: Result<seq<VcIssuer>, Error>): (r: Result<seq<VcIssuer>, Error>)
    requires forall i :: 0 <= i < |scan| ==> scan[i] in t
    ensures |names| == 0 ==> r.Err?
    ensures ParseInList(InList(names)).Some? ==>
      r.Ok? && forall x :: x in r.value ==> x in IssuerRows(t, scan) && x.name in ParseInList(InList(names)).value
    ensures |names| > 0 && ParseInList(InList(names)).None? ==> r == injected
    ensures (|names| > 0 && forall i :: 0 <= i < |names| ==> QuoteFree(names[i])) ==>
      r.Ok? && forall i :: 0 <= i < |scan| ==> (t[scan[i]] in r.value <==> t[scan[i]].name in names)
  {
    var parsed := ParseInList(InList(names));
    assert (|names| > 0 && forall i :: 0 <= i < |names| ==> QuoteFree(names[i])) ==> parsed == Some(names) by {
      if |names| > 0 && forall i :: 0 <= i < |names| ==> QuoteFree(names[i]) {
        InListRoundTrip(names);
      }
    }
    if |names| == 0 then Err(SqlxError(Database("syntax error at or near \")\"")))
    else match parsed
      case None => injected
      case Some(listed) => Ok(RowsNamed(t, scan, listed))
  }

  /** The name `x') OR ('1'='1` closes the IN-list early and adds a clause of
      its own: the text is not a plain list, so the result is whatever the
      database answers to the injected query, which may be every row. */
  lemma InjectedNameDefersToDatabase(t: IssuerTable, scan: seq<string>, injected: Result<seq<VcIssuer>, Error>)
    requires forall i :: 0 <= i < |scan| ==> scan[i] in t
    ensures InList(["x') OR ('1'='1"]) == "'x') OR ('1'='1'"
    ensures FindByNames(t, scan, ["x') OR ('1'='1"], injected) == injected
  {
  }

  function RowsNamed(t: IssuerTable, scan: seq<string>, listed: seq<string>): (rows: seq<VcIssuer>)
    requires forall i :: 0 <= i < |scan| ==> scan[i] in t
    ensures forall x :: x in rows ==> x in IssuerRows(t, scan) && x.name in listed
    ensures forall i :: 0 <= i < |scan| && t[scan[i]].name in listed ==> t[scan[i]] in rows
  {
    if |scan| == 0 then []
    else
      var rest := RowsNamed(t, scan[1..], listed);
      assert forall i :: 1 <= i < |scan| ==> scan[i] == scan[1..][i - 1];
      assert forall x :: x in IssuerRows(t, scan[1..]) ==> x in IssuerRows(t, scan);
      if t[scan[0]].name in listed then [t[scan[0]]] + rest else rest
  }

  // -------------------------------------------------------------------- dids

  datatype Did = Did(id: string, jwk: string, createdAt: int, updatedAt: int)
  datatype CreateDidData = CreateDidData(id: string, jwk: string, createdAt: int, updatedAt: int)

  type DidTable = map<string, Did>

  function DidCreate(t: DidTable, data: CreateDidData): (r: Result<Stored<string, Did>, Error>)
    ensures r.Err? <==> data.id in t
    ensures r.Err? ==> r.error.SqlxError? && r.error.cause.UniqueViolation?
    ensures r.Ok? ==> r.value.row == Did(data.id, data.jwk, data.createdAt, data.updatedAt)
    ensures r.Ok? ==> r.value.table == t[data.id := r.value.row]
  {
    if data.id in t then Err(SqlxError(UniqueViolation("dids_pkey")))
    else
      var row := Did(data.id, data.jwk, data.createdAt, data.updatedAt);
      Ok(Stored(t[data.id := row], row))
  }

  function DidFindById(t: DidTable, id: string): (r: Result<Did, Error>)
    ensures r.Ok? <==> id in t
    ensures r.Ok? ==> r.value == t[id]
    ensures r.Err? ==> r.error == SqlxError(RowNotFound)
  {
    if id in t then Ok(t[id]) else Err(SqlxError(RowNotFound))
  }

  /** A created DID is found again under its id with the data it was created from. */
  lemma DidCreateThenFind(t: DidTable, data: CreateDidData)
    requires data.id !in t
    ensures DidCreate(t, data).Ok?
    ensures DidFindById(DidCreate(t, data).value.table, data.id)
      == Ok(Did(data.id, data.jwk, data.createdAt, data.updatedAt))
  {
  }
}
