/** The recovery sweep (src/bin/confirm_pending_txs.rs): select the stored
    transactions still at status 0 and confirm them one after another, each
    awaited before the next starts. A confirmation that never returns holds
    the sweep there for good, possibly after a nested frame of it wrote. */
module Recovery {
  import opened Store
  import opened Chain

  /** The RPC outcomes one confirmation will see. */
  datatype RpcOutcomes = RpcOutcomes(waits: seq<bool>, fetches: seq<Fetch>)

  /** The outcomes for the `i`-th selected record; none at all when the list is shorter. */
  function OutcomesFor(runs: seq<RpcOutcomes>, i: nat): (r: RpcOutcomes)
    ensures i >= |runs| ==> r == RpcOutcomes([], [])
    ensures i < |runs| ==> r == runs[i]
  {
    if i < |runs| then runs[i] else RpcOutcomes([], [])
  }

  /** Confirms the pending records in the order the selection returns them.
      `confirmed` are the records whose confirmation returned; `stalled` says
      the sweep is still waiting on the next one. `touched` are the records
      whose row was written: the confirmed ones, and the one the sweep waits
      on when a nested frame of its confirmation already wrote. Stored hashes
      must parse, since the confirmation unwraps the parse. */
  method RecoverPending(t: TxTable, scan: seq<string>, runs: seq<RpcOutcomes>, now: int)
    returns (t': TxTable, confirmed: seq<string>, stalled: bool, touched: seq<string>)
    requires Enumerates(scan, t) && TxKeyed(t)
    requires forall h :: h in t && t[h].sendStatus == DefaultSendStatus ==> ParseH256(h).Some?
    ensures |confirmed| <= |HashesWithStatus(t, scan, 0)| && confirmed == HashesWithStatus(t, scan, 0)[..|confirmed|]
    ensures stalled <==> |confirmed| < |HashesWithStatus(t, scan, 0)|
    ensures touched == confirmed || (stalled && touched == confirmed + [HashesWithStatus(t, scan, 0)[|confirmed|]])
    ensures t'.Keys == t.Keys && TxKeyed(t')
    ensures forall h :: h in t && h !in touched ==> t'[h] == t[h]
    ensures forall h :: h in t && t[h].sendStatus != 0 ==> t'[h] == t[h]
    ensures forall h :: h in touched ==> t'[h].sendStatus == 1 || t'[h].sendStatus == -1
    ensures forall h :: h in touched ==> t'[h].txHash == h && t'[h].createdAt == t[h].createdAt
  {
    var pending := HashesWithStatus(t, scan, 0);
    t' := t;
    confirmed := [];
    stalled := false;
    touched := [];
    var i := 0;
    while i < |pending| && !stalled
      invariant 0 <= i <= |pending|
      invariant confirmed == pending[..i]
      invariant stalled ==> i < |pending|
      invariant touched == confirmed || (stalled && touched == confirmed + [pending[i]])
      invariant |touched| <= |pending| && touched == pending[..|touched|]
      invariant SweepKeeps(t, t', touched)
      decreases |pending| - i, if stalled then 0 else 1
    {
      var h := pending[i];
      assert h in t' && ParseH256(h).Some? by {
        assert h in t && t[h].sendStatus == DefaultSendStatus;
      }
      var run := OutcomesFor(runs, i);
      var t2, done, wrote := ConfirmNext(t, t', confirmed, h, run, now);
      t' := t2;
      PrefixGrows(pending, i);
      if done {
        confirmed := confirmed + [h];
        touched := confirmed;
        i := i + 1;
      } else {
        stalled := true;
        if wrote {
          touched := confirmed + [h];
        }
      }
    }
    SweepOutcome(t, scan, t', touched);
  }

  lemma PrefixGrows<T>(s: seq<T>, i: nat)
    requires i < |s|
    ensures s[..i] + [s[i]] == s[..i + 1]
  {
  }

  /** What the sweep's invariant says once it stops, in the terms of its
      contract: rows outside the settled prefix of the selection are as they
      were, and every settled row was pending. */
  lemma SweepOutcome(t: TxTable, scan: seq<string>, t': TxTable, confirmed: seq<string>)
    requires Enumerates(scan, t)
    requires |confirmed| <= |HashesWithStatus(t, scan, 0)| && confirmed == HashesWithStatus(t, scan, 0)[..|confirmed|]
    requires SweepKeeps(t, t', confirmed)
    ensures forall h :: h in t && t[h].sendStatus != 0 ==> t'[h] == t[h]
    ensures forall h :: h in confirmed ==> t'[h].sendStatus == 1 || t'[h].sendStatus == -1
    ensures forall h :: h in confirmed ==> t'[h].txHash == h && t'[h].createdAt == t[h].createdAt
  {
    PendingPrefixIsPending(t, scan, confirmed);
  }

  /** One confirmation of the sweep, on the table `t'` built so far from
      `t`. `wrote` says whether the row of `h` was written: always when the
      confirmation returns, and possibly by a nested frame when it does not.
      A written row joins the settled records; otherwise nothing has changed. */
  method ConfirmNext(t: TxTable, t': TxTable, confirmed: seq<string>, h: string, run: RpcOutcomes, now: int)
    returns (t2: TxTable, done: bool, wrote: bool)
    requires SweepKeeps(t, t', confirmed) && h in t' && ParseH256(h).Some?
    ensures done ==> wrote
    ensures wrote ==> SweepKeeps(t, t2, confirmed + [h])
    ensures !wrote ==> t2 == t'
  {
    var r := ConfirmTx(t', h, run.waits, run.fetches, now);
    t2, done := r.0, r.1;
    wrote := done || t2 != t';
    if wrote {
      ConfirmedStep(t, t', t2, confirmed, h);
    }
  }

  /** What the sweep keeps true of the table `t'` it has built from `t`: the
      same keys, rows that are not yet confirmed untouched, confirmed rows
      settled at 1 or -1. */
  predicate SweepKeeps(t: TxTable, t': TxTable, confirmed: seq<string>) {
    t'.Keys == t.Keys && TxKeyed(t')
    && (forall h :: h in t && h !in confirmed ==> t'[h] == t[h])
    && (forall h :: h in confirmed && h in t' ==> t'[h].sendStatus == 1 || t'[h].sendStatus == -1)
    && (forall h :: h in confirmed && h in t && h in t' ==> t'[h].createdAt == t[h].createdAt)
  }

  lemma ConfirmedStep(t: TxTable, t': TxTable, t2: TxTable, confirmed: seq<string>, h: string)
    requires SweepKeeps(t, t', confirmed) && h in t'
    requires t2.Keys == t'.Keys && TxKeyed(t2)
    requires forall g :: g in t' && g != h ==> t2[g] == t'[g]
    requires t2[h].sendStatus == 1 || t2[h].sendStatus == -1
    requires t2[h].createdAt == t'[h].createdAt
    ensures SweepKeeps(t, t2, confirmed + [h])
  {
    forall g | g in t && g !in confirmed + [h]
      ensures t2[g] == t[g]
    {
      assert g !in confirmed;
    }
    forall g | g in confirmed + [h] && g in t
      ensures t2[g].createdAt == t[g].createdAt
    {
      if g != h {
        assert g in confirmed;
      }
    }
  }

  /** Every record in a prefix of the selection was selected for status 0. */
  lemma PendingPrefixIsPending(t: TxTable, scan: seq<string>, confirmed: seq<string>)
    requires forall i :: 0 <= i < |scan| ==> scan[i] in t
    requires |confirmed| <= |HashesWithStatus(t, scan, 0)| && confirmed == HashesWithStatus(t, scan, 0)[..|confirmed|]
    ensures forall h :: h in confirmed ==> h in t && t[h].sendStatus == 0
  {
    var pending := HashesWithStatus(t, scan, 0);
    forall h | h in confirmed
      ensures h in t && t[h].sendStatus == 0
    {
      var k :| 0 <= k < |confirmed| && confirmed[k] == h;
      assert pending[k] == h;
    }
  }
}
