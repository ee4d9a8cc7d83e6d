/** Transaction bookkeeping of the chain service (src/service/chain.rs): the
    cert-type encoding, the hex form of a transaction hash, how a receipt
    becomes a stored status, the retrying confirmation of a transaction and
    the order of steps in sending one. RPC outcomes arrive as input lists; a
    confirmation that runs out of them is one that never completes. */
module Chain {
  import opened Wrappers
  import opened Text
  import opened Errors
  import opened Configuration
  import opened Store

  newtype byte = x: int | 0 <= x < 256
  newtype u64 = x: int | 0 <= x < 0x1_0000_0000_0000_0000

  const CredentialsContract: string := "identity"

  // -------------------------------------------------------------- cert type

  datatype CredentialType = Identity

  function AsciiBytes(s: string): (bs: seq<byte>)
    requires forall i :: 0 <= i < |s| ==> (s[i] as int) < 128
    ensures |bs| == |s|
    ensures forall i :: 0 <= i < |s| ==> bs[i] as int == s[i] as int
  {
    seq(|s|, i requires 0 <= i < |s| => s[i] as int as byte)
  }

  /** The fixed 32-byte form: the name's ASCII bytes, then NUL bytes. */
  function Encode(t: CredentialType): (bs: seq<byte>)
    ensures |bs| == 32
    ensures bs[..8] == AsciiBytes("identity")
    ensures forall i :: 8 <= i < 32 ==> bs[i] == 0
  {
    match t
    case Identity =>
      var name := AsciiBytes("identity");
      name + seq(32 - |name|, _ => 0 as byte)
  }

  /** Bytes below 128 read as the characters with the same code. */
  function AsciiText(bs: seq<byte>): (s: string)
    requires forall i :: 0 <= i < |bs| ==> bs[i] < 128
    ensures |s| == |bs|
    ensures forall i :: 0 <= i < |bs| ==> s[i] as int == bs[i] as int
  {
    seq(|bs|, i requires 0 <= i < |bs| => bs[i] as int as char)
  }

  /** `trim_matches(c)`: drops every leading and trailing `c`. */
  function TrimStart(s: string, c: char): (r: string)
    ensures |r| <= |s| && r == s[|s| - |r|..]
    ensures |r| > 0 ==> r[0] != c
    ensures forall i :: 0 <= i < |s| - |r| ==> s[i] == c
  {
    if |s| > 0 && s[0] == c then TrimStart(s[1..], c) else s
  }

  function TrimEnd(s: string, c: char): (r: string)
    ensures |r| <= |s| && r == s[..|r|]
    ensures |r| > 0 ==> r[|r| - 1] != c
    ensures forall i :: |r| <= i < |s| ==> s[i] == c
  {
    if |s| > 0 && s[|s| - 1] == c then TrimEnd(s[..|s| - 1], c) else s
  }

  /** `r` is the part of `s` starting at `i`, and everything before and after it is `c`. */
  predicate TrimmedAt(s: string, c: char, r: string, i: int) {
    0 <= i <= |s| - |r| && r == s[i..i + |r|]
    && (forall k :: 0 <= k < i ==> s[k] == c) && (forall k :: i + |r| <= k < |s| ==> s[k] == c)
  }

  /** The result is a contiguous part of `s`: everything before it and after
      it is `c`, and it neither starts nor ends with `c`. */
  function TrimMatches(s: string, c: char): (r: string)
    ensures |r| <= |s|
    ensures |r| > 0 ==> r[0] != c && r[|r| - 1] != c
    ensures exists i :: TrimmedAt(s, c, r, i)
  {
    TrimBoth(s, c);
    TrimEnd(TrimStart(s, c), c)
  }

  lemma TrimBoth(s: string, c: char)
    ensures TrimmedAt(s, c, TrimEnd(TrimStart(s, c), c), |s| - |TrimStart(s, c)|)
  {
    var front := TrimStart(s, c);
    var r := TrimEnd(front, c);
    var i := |s| - |front|;
    assert front == s[i..];
    assert r == front[..|r|];
    forall k | 0 <= k < |r|
      ensures r[k] == s[i + k]
    {
      assert r[k] == front[k];
    }
    assert r == s[i..i + |r|];
    assert forall k :: 0 <= k < i ==> s[k] == c;
    forall k | i + |r| <= k < |s|
      ensures s[k] == c
    {
      assert s[k] == front[k - i];
    }
    assert TrimmedAt(s, c, r, i);
  }

  /** Reading the encoded cert type back as text and trimming the NUL padding
      gives the name again. */
  lemma CertTypeRoundTrip()
    ensures TrimMatches(AsciiText(Encode(Identity)), 0 as char) == "identity"
  {
    var s := AsciiText(Encode(Identity));
    assert s[..8] == "identity";
    assert TrimStart(s, 0 as char) == s;
    var e := TrimEnd(s, 0 as char);
    assert s[7] == 'y';
    assert forall i :: 8 <= i < 32 ==> s[i] == 0 as char;
    assert |e| == 8;
    assert e == s[..8];
  }

  /** `From<String>` panics on anything but "identity". */
  function FromString(s: string): (t: CredentialType)
    requires s == "identity"
    ensures ContractName(t) == s
  {
    Identity
  }

  function ContractName(t: CredentialType): (name: string)
    ensures name == CredentialsContract
  {
    match t
    case Identity => "identity"
  }

  // ------------------------------------------------------- hash formatting

  type H256 = s: seq<byte> | |s| == 32 witness seq(32, _ => 0 as byte)

  function HexPair(b: byte): (s: string)
    ensures |s| == 2 && IsHexDigit(s[0]) && IsHexDigit(s[1])
    ensures HexValue(s[0]) * 16 + HexValue(s[1]) == b as int
    ensures !IsAsciiUpper(s[0]) && !IsAsciiUpper(s[1])
  {
    [HexChar(b as int / 16), HexChar(b as int % 16)]
  }

  /** Positions `2k` and `2k + 1` of `s` are hex digits spelling the byte `b`. */
  predicate SpellsByte(s: string, k: nat, b: byte)
    requires 2 * k + 1 < |s|
  {
    IsHexDigit(s[2 * k]) && IsHexDigit(s[2 * k + 1]) && HexValue(s[2 * k]) * 16 + HexValue(s[2 * k + 1]) == b as int
  }

  function HexBytes(bs: seq<byte>): (s: string)
    ensures |s| == 2 * |bs|
    ensures forall k :: 0 <= k < |bs| ==> SpellsByte(s, k, bs[k])
    ensures forall i :: 0 <= i < |s| ==> !IsAsciiUpper(s[i])
  {
    if |bs| == 0 then [] else HexPair(bs[0]) + HexBytes(bs[1..])
  }

  /** `{:#x}` of a hash: "0x" and 64 lower-case hex digits. */
  function FormatH256(h: H256): (s: string)
    ensures |s| == 66 && s[..2] == "0x"
    ensures forall k :: 0 <= k < 32 ==> SpellsByte(s[2..], k, h[k])
    ensures forall i :: 2 <= i < 66 ==> !IsAsciiUpper(s[i])
  {
    var s := "0x" + HexBytes(h);
    assert s[2..] == HexBytes(h);
    s
  }

  function ParseHexBytes(s: string): (r: Option<seq<byte>>)
    ensures r.Some? <==> |s| % 2 == 0 && forall i :: 0 <= i < |s| ==> IsHexDigit(s[i])
    ensures r.Some? ==> 2 * |r.value| == |s| && forall k :: 0 <= k < |r.value| ==> SpellsByte(s, k, r.value[k])
    decreases |s|
  {
    if |s| == 0 then Some([])
    else if |s| == 1 || !IsHexDigit(s[0]) || !IsHexDigit(s[1]) then None
    else match ParseHexBytes(s[2..])
      case None => None
      case Some(rest) => Some([(HexValue(s[0]) * 16 + HexValue(s[1])) as byte] + rest)
  }

  /** The digits of a hash text: what follows an optional "0x". */
  function HexBody(s: string): (b: string)
    ensures b == s || (|s| >= 2 && s[..2] == "0x" && b == s[2..])
  {
    if |s| >= 2 && s[..2] == "0x" then s[2..] else s
  }

  /** `H256::from_str`: an optional "0x", then exactly 64 hex digits of either case. */
  function ParseH256(s: string): (r: Option<H256>)
    ensures r.Some? <==> |HexBody(s)| == 64 && forall i :: 0 <= i < 64 ==> IsHexDigit(HexBody(s)[i])
    ensures r.Some? ==> forall k :: 0 <= k < 32 ==> SpellsByte(HexBody(s), k, r.value[k])
  {
    var body := HexBody(s);
    if |body| != 64 then None
    else match ParseHexBytes(body)
      case None => None
      case Some(bs) => Some(bs)
  }

  lemma {:induction false} HexBytesRoundTrip(bs: seq<byte>)
    ensures ParseHexBytes(HexBytes(bs)) == Some(bs)
  {
    if |bs| > 0 {
      var s := HexBytes(bs);
      assert s[2..] == HexBytes(bs[1..]);
      HexBytesRoundTrip(bs[1..]);
      assert [bs[0]] + bs[1..] == bs;
    }
  }

  /** The formatted hash parses back to the same hash. */
  lemma H256RoundTrip(h: H256)
    ensures ParseH256(FormatH256(h)) == Some(h)
  {
    var s := FormatH256(h);
    assert s[2..] == HexBytes(h);
    HexBytesRoundTrip(h);
  }

  // --------------------------------------------------------------- receipts

  datatype Receipt = Receipt(status: Option<u64>, blockNumber: Option<u64>)

  /** One `transaction_receipt` call: the RPC failed, no receipt yet, or a receipt. */
  datatype Fetch = RpcFailed | NoReceipt | Got(receipt: Receipt)

  /** One `update_send_status` call. */
  datatype Write = Write(sendStatus: int, blockNumber: Option<int>)

  const TwoTo63: int := 0x8000_0000_0000_0000
  const TwoTo64: int := 0x1_0000_0000_0000_0000

  /** `x as i64` on a 64-bit value: two's-complement reinterpretation. */
  function AsI64(x: u64): (r: int)
    ensures -TwoTo63 <= r < TwoTo63
    ensures (r - x as int) % TwoTo64 == 0
    ensures x as int < TwoTo63 <==> r == x as int
  {
    if (x as int) < TwoTo63 then x as int else x as int - TwoTo64
  }

  /** The reinterpretation loses nothing: it is undone by adding 2^64 to negatives. */
  lemma AsI64Injective(x: u64, y: u64)
    ensures AsI64(x) == AsI64(y) ==> x == y
  {
  }

  /** The write a frame issues for the last receipt fetch it made. */
  function StatusWrite(f: Fetch): (w: Write)
    ensures w.sendStatus == 1 <==> f.Got? && f.receipt.status == Some(1)
    ensures w.sendStatus == 1 || w.sendStatus == -1
    ensures w.blockNumber.Some? <==> f.Got? && f.receipt.blockNumber.Some?
    ensures w.blockNumber.Some? ==> w.blockNumber.value == AsI64(f.receipt.blockNumber.value)
  {
    match f
    case Got(receipt) =>
      Write(if receipt.status == Some(1) then 1 else -1,
        match receipt.blockNumber
        case Some(b) => Some(AsI64(b))
        case None => None)
    case _ => Write(-1, None)
  }

  // ------------------------------------------------------------ confirm_tx

  /** What a confirmation did: the writes it issued in order, how many of
      each kind of RPC outcome had been used when it stopped, and whether it
      returned. */
  datatype Outcome = Outcome(writes: seq<Write>, waitsUsed: nat, fetchesUsed: nat, completed: bool)

  /** `confirm_tx` as written, starting at position `i` of the outcomes of
      `wait_for_confirmations` and position `j` of those of
      `transaction_receipt`. A failed wait or fetch starts a nested
      confirmation; when that returns, the frame carries on: it fetches the
      receipt after a failed wait, and writes the failure status after a
      failed fetch. Running out of outcomes means never returning. */
  function Confirm(waits: seq<bool>, fetches: seq<Fetch>, i: nat, j: nat): (o: Outcome)
    requires i <= |waits| && j <= |fetches|
    ensures i <= o.waitsUsed <= |waits| && j <= o.fetchesUsed <= |fetches|
    ensures o.completed ==> |o.writes| == o.waitsUsed - i == o.fetchesUsed - j
    ensures o.completed ==> exists k :: j <= k < o.fetchesUsed && fetches[k].Got? && o.writes[0] == StatusWrite(fetches[k])
    ensures o.completed ==> exists k :: j <= k < o.fetchesUsed && o.writes[|o.writes| - 1] == StatusWrite(fetches[k])
    ensures forall w :: w in o.writes ==> exists k :: j <= k < o.fetchesUsed && w == StatusWrite(fetches[k])
    decreases |waits| - i
  {
    if i == |waits| then Outcome([], i, j, false)
    else
      var waited := if waits[i] then Outcome([], i + 1, j, true) else Confirm(waits, fetches, i + 1, j);
      if !waited.completed then waited
      else if waited.fetchesUsed == |fetches| then waited.(completed := false)
      else
        var k := waited.fetchesUsed;
        var f := fetches[k];
        var fetched :=
          if f.Got? then Outcome(waited.writes, waited.waitsUsed, k + 1, true)
          else
            var retry := Confirm(waits, fetches, waited.waitsUsed, k + 1);
            Outcome(waited.writes + retry.writes, retry.waitsUsed, retry.fetchesUsed, retry.completed);
        if !fetched.completed then fetched
        else Outcome(fetched.writes + [StatusWrite(f)], fetched.waitsUsed, fetched.fetchesUsed, true)
  }

  /** A confirmation can write without returning: the first wait fails, the
      nested frame confirms the transaction in block 7 and writes that, and
      the outer frame then waits on a receipt fetch that never comes. */
  lemma StalledConfirmationWrites()
    ensures Confirm([false, true], [Got(Receipt(Some(1), Some(7)))], 0, 0)
      == Outcome([Write(1, Some(7))], 2, 1, false)
  {
    var inner := Confirm([false, true], [Got(Receipt(Some(1), Some(7)))], 1, 0);
    assert inner == Outcome([Write(1, Some(7))], 2, 1, true);
  }

  /** A frame whose wait succeeds but whose receipt fetch fails ends, once its
      retry returns, with the failure write, whatever the retry wrote. */
  lemma FailedFetchWritesFailureLast(waits: seq<bool>, fetches: seq<Fetch>, i: nat, j: nat)
    requires i < |waits| && waits[i] && j < |fetches| && !fetches[j].Got?
    ensures Confirm(waits, fetches, i, j).completed ==>
      Confirm(waits, fetches, i, j).writes[|Confirm(waits, fetches, i, j).writes| - 1] == Write(-1, None)
  {
  }

  /** The as-written flow overwrites a confirmed status: the first receipt is
      missing, the retry finds the transaction confirmed in block 7 and writes
      that, then the outer frame writes the failure status over it. */
  lemma ConfirmOverwritesSuccess()
    ensures Confirm([true, true], [NoReceipt, Got(Receipt(Some(1), Some(7)))], 0, 0).completed
    ensures Confirm([true, true], [NoReceipt, Got(Receipt(Some(1), Some(7)))], 0, 0).writes
      == [Write(1, Some(7)), Write(-1, None)]
  {
    var inner := Confirm([true, true], [NoReceipt, Got(Receipt(Some(1), Some(7)))], 1, 1);
    assert inner.writes == [Write(1, Some(7))];
  }

  /** `k` is the first position from `j` on where a receipt was obtained. */
  predicate IsFirstReceipt(fetches: seq<Fetch>, j: nat, k: nat) {
    j <= k < |fetches| && fetches[k].Got? && forall m :: j <= m < k ==> !fetches[m].Got?
  }

  /** The intended flow: a retry takes the place of the rest of the frame, so
      the one write made is for the first receipt obtained. */
  function ConfirmFixed(waits: seq<bool>, fetches: seq<Fetch>, i: nat, j: nat): (o: Outcome)
    requires i <= |waits| && j <= |fetches|
    ensures i <= o.waitsUsed <= |waits| && j <= o.fetchesUsed <= |fetches|
    ensures !o.completed ==> o.writes == []
    ensures o.completed ==> |o.writes| == 1 && j < o.fetchesUsed && IsFirstReceipt(fetches, j, o.fetchesUsed - 1)
    ensures o.completed ==> o.writes[0] == StatusWrite(fetches[o.fetchesUsed - 1])
    decreases |waits| - i
  {
    if i == |waits| then Outcome([], i, j, false)
    else if !waits[i] then ConfirmFixed(waits, fetches, i + 1, j)
    else if j == |fetches| then Outcome([], i + 1, j, false)
    else if fetches[j].Got? then Outcome([StatusWrite(fetches[j])], i + 1, j + 1, true)
    else ConfirmFixed(waits, fetches, i + 1, j + 1)
  }

  /** In the corrected flow a confirmed transaction keeps its success status:
      the final write reports status 1 exactly when the first receipt obtained
      does. */
  lemma ConfirmFixedReportsFirstReceipt(waits: seq<bool>, fetches: seq<Fetch>)
    requires ConfirmFixed(waits, fetches, 0, 0).completed
    ensures var o := ConfirmFixed(waits, fetches, 0, 0);
      o.writes[|o.writes| - 1].sendStatus == 1 <==> fetches[o.fetchesUsed - 1].receipt.status == Some(1)
  {
  }

  /** Without a failure on the way the two flows issue the same single write. */
  lemma ConfirmAgreesWithoutRetry(waits: seq<bool>, fetches: seq<Fetch>, i: nat, j: nat)
    requires i < |waits| && waits[i] && j < |fetches| && fetches[j].Got?
    ensures Confirm(waits, fetches, i, j).writes == ConfirmFixed(waits, fetches, i, j).writes == [StatusWrite(fetches[j])]
  {
  }

  /** Applies the writes of a confirmation, in order, to the row of `txHash`. */
  function ApplyWrites(t: TxTable, txHash: string, writes: seq<Write>, now: int): (t': TxTable)
    requires txHash in t
    ensures t'.Keys == t.Keys
    ensures forall h :: h in t && h != txHash ==> t'[h] == t[h]
    ensures |writes| == 0 ==> t' == t
    ensures |writes| > 0 ==> t'[txHash] == t[txHash].(sendStatus := writes[|writes| - 1].sendStatus,
      blockNumber := writes[|writes| - 1].blockNumber, updatedAt := now)
    ensures TxKeyed(t) ==> TxKeyed(t')
    decreases |writes|
  {
    if |writes| == 0 then t
    else
      var w := writes[0];
      var r := UpdateSendStatus(t, txHash, w.sendStatus, w.blockNumber, now);
      ApplyWrites(r.value.table, txHash, writes[1..], now)
  }

  /** The row of `txHash` in `t'` holds a settled status, written by a
      confirmation of the row it had in `t`. */
  predicate SettledRow(t: TxTable, t': TxTable, txHash: string) {
    txHash in t && txHash in t'
    && (t'[txHash].sendStatus == 1 || t'[txHash].sendStatus == -1)
    && t'[txHash].txHash == t[txHash].txHash && t'[txHash].createdAt == t[txHash].createdAt
  }

  /** The row carries the status and block of write `w`, made at `now`. */
  predicate HoldsWrite(row: TxRecord, w: Write, now: int) {
    row.sendStatus == w.sendStatus && row.blockNumber == w.blockNumber && row.updatedAt == now
  }

  /** `confirm_tx` as written, on a stored hash; the second component says
      whether the outermost frame returned. Writes made by nested frames stay
      even when it does not, so an unfinished confirmation can leave the row
      settled. The hash must parse and its row must exist: otherwise the
      source panics. */
  function ConfirmTx(t: TxTable, txHash: string, waits: seq<bool>, fetches: seq<Fetch>, now: int): (r: (TxTable, bool))
    requires ParseH256(txHash).Some? && txHash in t
    ensures r.0.Keys == t.Keys && forall h :: h in t && h != txHash ==> r.0[h] == t[h]
    ensures r.0 == t || SettledRow(t, r.0, txHash)
    ensures r.0 == t || exists k :: 0 <= k < |fetches| && HoldsWrite(r.0[txHash], StatusWrite(fetches[k]), now)
    ensures r.1 ==> SettledRow(t, r.0, txHash)
    ensures TxKeyed(t) ==> TxKeyed(r.0)
  {
    var o := Confirm(waits, fetches, 0, 0);
    assert |o.writes| > 0 ==> exists k :: 0 <= k < |fetches| && o.writes[|o.writes| - 1] == StatusWrite(fetches[k]) by {
      if |o.writes| > 0 {
        assert o.writes[|o.writes| - 1] in o.writes;
      }
    }
    (ApplyWrites(t, txHash, o.writes, now), o.completed)
  }

  /** `confirm_tx` on a stored hash with the corrected flow: an unfinished
      confirmation changes nothing, a finished one settles the row. */
  function ConfirmTxFixed(t: TxTable, txHash: string, waits: seq<bool>, fetches: seq<Fetch>, now: int): (r: (TxTable, bool))
    requires ParseH256(txHash).Some? && txHash in t
    ensures r.0.Keys == t.Keys && forall h :: h in t && h != txHash ==> r.0[h] == t[h]
    ensures !r.1 ==> r.0 == t
    ensures r.1 ==> SettledRow(t, r.0, txHash)
    ensures r.1 ==> exists k: nat :: IsFirstReceipt(fetches, 0, k) && HoldsWrite(r.0[txHash], StatusWrite(fetches[k]), now)
    ensures TxKeyed(t) ==> TxKeyed(r.0)
  {
    var o := ConfirmFixed(waits, fetches, 0, 0);
    (ApplyWrites(t, txHash, o.writes, now), o.completed)
  }

  // ---------------------------------------------------------------- send_tx

  const Gas: nat := 2_000_000

  datatype SignedCall = SignedCall(contractAddress: string, func: string, gas: nat)

  /** What `send_tx` did: the call it signed, the table afterwards, the hashes
      whose confirmation it started, and what it returned. */
  datatype Sent = Sent(call: SignedCall, table: TxTable, spawned: seq<string>, result: Result<string, Error>)

  /** `send_tx`: signs the call with the fixed gas, stores the new hash in hex,
      and only then starts its confirmation; it returns the stored text. An
      unknown contract name panics. */
  function SendTx(settings: ChainSettings, t: TxTable, contract: string, func: string,
                  signed: Result<H256, Error>, now: int): (s: Sent)
    requires GetContractAddress(settings, contract).Some?
    ensures s.call == SignedCall(GetContractAddress(settings, contract).value, func, Gas)
    ensures signed.Err? ==> s.result == Err(signed.error) && s.table == t && s.spawned == []
    ensures signed.Ok? ==> (s.result.Ok? <==> FormatH256(signed.value) !in t)
    ensures s.result.Err? ==> s.table == t && s.spawned == []
    ensures s.result.Ok? ==> s.result.value == FormatH256(signed.value) && s.spawned == [s.result.value]
    ensures s.result.Ok? ==> s.table == t[s.result.value := TxRecord(s.result.value, DefaultSendStatus, None, now, now)]
    ensures forall h :: h in s.spawned ==> h in s.table && ParseH256(h) == Some(signed.value)
  {
    var call := SignedCall(GetContractAddress(settings, contract).value, func, Gas);
    match signed
    case Err(e) => Sent(call, t, [], Err(e))
    case Ok(h) =>
      var hash := FormatH256(h);
      H256RoundTrip(h);
      match TxCreate(t, hash, now)
      case Err(e) => Sent(call, t, [], Err(e))
      case Ok(stored) => Sent(call, stored.table, [hash], Ok(hash))
  }
}
