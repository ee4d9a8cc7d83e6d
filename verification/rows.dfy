/** Tables kept as the sequence of their rows in the order the database
    returns them, for the tables whose key is generated by the database
    (users, credential templates). A `LIMIT 1` lookup returns the first
    matching row; an insert adds a row. */
module Rows {
  import opened Wrappers

  /** The position of the first row satisfying `p`, scanning from `from`. */
  function FirstFrom<T>(rows: seq<T>, p: T -> bool, from: nat): (k: Option<nat>)
    requires from <= |rows|
    ensures k.Some? ==> from <= k.value < |rows| && p(rows[k.value])
    ensures k.Some? ==> forall j :: from <= j < k.value ==> !p(rows[j])
    ensures k.None? ==> forall j :: from <= j < |rows| ==> !p(rows[j])
    decreases |rows| - from
  {
    if from == |rows| then None
    else if p(rows[from]) then Some(from)
    else FirstFrom(rows, p, from + 1)
  }

  /** The position of the first row satisfying `p`. */
  function First<T>(rows: seq<T>, p: T -> bool): (k: Option<nat>)
    ensures k.Some? ==> k.value < |rows| && p(rows[k.value])
    ensures k.Some? ==> forall j :: 0 <= j < k.value ==> !p(rows[j])
    ensures k.None? <==> forall j :: 0 <= j < |rows| ==> !p(rows[j])
  {
    FirstFrom(rows, p, 0)
  }

  /** Adding a row at the end leaves an earlier match where it is, and makes
      the new row the first match when there was none. */
  lemma FirstAfterAppend<T>(rows: seq<T>, x: T, p: T -> bool)
    ensures First(rows, p).Some? ==> First(rows + [x], p) == First(rows, p)
    ensures First(rows, p).None? && p(x) ==> First(rows + [x], p) == Some(|rows|)
    ensures First(rows, p).None? && !p(x) ==> First(rows + [x], p).None?
  {
    var k := First(rows, p);
    forall j | 0 <= j < |rows|
      ensures (rows + [x])[j] == rows[j]
    {
    }
    if k.None? && p(x) {
      assert (rows + [x])[|rows|] == x;
    }
  }
}
