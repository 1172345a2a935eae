/** `gauss`: a single elimination pass over the parity matrix that records,
    for each row, which pivot positions were applied to it.

    What the source does, as opposed to what its comments describe:
    - clearing a row below the pivot only sets that row's entry in the pivot
      column to 0; the pivot row is not added (XORed) into it;
    - the provenance list of a row starts with the candidate tag of the row,
      but what is appended is the pivot's POSITION in the matrix;
    - every row's provenance list is returned, whether or not the row ended
      up all zero. */
module Elimination {
  import opened ExponentMatrix

  /** A row being eliminated: its entries and its provenance list. */
  datatype GfRow = GfRow(bits: seq<int>, prov: seq<int>)

  /** The state of the outer loop: the matrix, the pivot position `i` and
      the column `j`. */
  datatype Sweep = Sweep(rows: seq<GfRow>, i: nat, j: nat)

  predicate Uniform(rows: seq<GfRow>, w: nat) {
    forall k :: 0 <= k < |rows| ==> |rows[k].bits| == w
  }

  /** The source indexes every row at the current pivot row's column, so it
      needs all rows to have one width. */
  predicate SameWidth(m: seq<Relation>) {
    forall a, b :: 0 <= a < |m| && 0 <= b < |m| ==> |m[a].0| == |m[b].0|
  }

  function Width(m: seq<Relation>): nat {
    if |m| == 0 then 0 else |m[0].0|
  }

  function TagSeq(m: seq<Relation>): seq<int> {
    seq(|m|, k requires 0 <= k < |m| => m[k].1)
  }

  function Provenance(rows: seq<GfRow>): seq<seq<int>> {
    seq(|rows|, k requires 0 <= k < |rows| => rows[k].prov)
  }

  function Firsts(lists: seq<seq<int>>): seq<int>
    requires forall k :: 0 <= k < |lists| ==> |lists[k]| >= 1
  {
    seq(|lists|, k requires 0 <= k < |lists| => lists[k][0])
  }

  /** Provenance lists as elimination leaves them when pivots `0 .. i-1`
      have been applied: each list is non-empty and after its head holds
      strictly increasing pivot positions, all below both `i` and the
      list's own position. */
  predicate ProvenanceBelow(lists: seq<seq<int>>, i: int) {
    forall k :: 0 <= k < |lists| ==> RowProvenanceBelow(lists[k], k, i)
  }

  /** The same for the list at position `k`. */
  predicate RowProvenanceBelow(prov: seq<int>, k: int, i: int) {
    && |prov| >= 1
    && (forall a :: 1 <= a < |prov| ==> 0 <= prov[a] < k && prov[a] < i)
    && (forall a, b :: 1 <= a < b < |prov| ==> prov[a] < prov[b])
  }

  /** `row` came from some input row with the same tag by setting entries
      to zero. */
  ghost predicate Descends(row: GfRow, m: seq<Relation>) {
    exists s :: 0 <= s < |m| && DescendsFrom(row, m[s])
  }

  predicate DescendsFrom(row: GfRow, rel: Relation) {
    && |row.prov| >= 1 && row.prov[0] == rel.1
    && |row.bits| == |rel.0|
    && forall c :: 0 <= c < |row.bits| ==> row.bits[c] == rel.0[c] || row.bits[c] == 0
  }

  /** The search of the source for a row to swap in: the first row at or
      after `from` with a 1 in column `j`, or the row count when there is
      none. */
  function FirstOne(rows: seq<GfRow>, w: nat, j: nat, from: nat): (r: nat)
    requires Uniform(rows, w) && j < w && from <= |rows|
    ensures from <= r <= |rows|
    ensures forall k :: from <= k < r ==> rows[k].bits[j] != 1
    ensures r < |rows| ==> rows[r].bits[j] == 1
    decreases |rows| - from
  {
    if from == |rows| || rows[from].bits[j] == 1 then from else FirstOne(rows, w, j, from + 1)
  }

  /** What clearing does to one row below pivot position `i`: a row with a
      non-zero entry in column `j` gets that entry set to 0 and `i`
      appended to its provenance; any other row is left as it is. */
  predicate Cleared(before: GfRow, after: GfRow, i: nat, j: nat)
    requires j < |before.bits|
  {
    if before.bits[j] == 0 then after == before
    else after == GfRow(before.bits[j := 0], before.prov + [i])
  }

  /** The clearing loop `for (row = from; row < size; row++)`. */
  function ClearFrom(rows: seq<GfRow>, w: nat, i: nat, j: nat, from: nat): (out: seq<GfRow>)
    requires Uniform(rows, w) && j < w && from <= |rows|
    ensures |out| == |rows| && Uniform(out, w)
    ensures forall k :: 0 <= k < from ==> out[k] == rows[k]
    ensures forall k :: from <= k < |rows| ==> Cleared(rows[k], out[k], i, j)
    ensures forall k :: from <= k < |rows| ==> out[k].bits[j] == 0
    decreases |rows| - from
  {
    if from == |rows| then
      rows
    else
      var row := rows[from];
      var next := if row.bits[j] == 0 then rows else rows[from := GfRow(row.bits[j := 0], row.prov + [i])];
      ClearFrom(next, w, i, j, from + 1)
  }

  function Swap(rows: seq<GfRow>, a: nat, b: nat): seq<GfRow>
    requires a < |rows| && b < |rows|
  {
    rows[a := rows[b]][b := rows[a]]
  }

  /** Column `j` offers no pivot at position `i`: the entry there is 0 and
      no lower row has a 1 in that column. */
  predicate NoPivot(s: Sweep)
    requires s.i < |s.rows| && forall k :: 0 <= k < |s.rows| ==> s.j < |s.rows[k].bits|
  {
    s.rows[s.i].bits[s.j] == 0 && forall k :: s.i < k < |s.rows| ==> s.rows[k].bits[s.j] != 1
  }

  /** One iteration of the outer loop of `gauss` (one value of `j`). */
  function Step(s: Sweep, w: nat): (t: Sweep)
    requires s.i < |s.rows| && Uniform(s.rows, w) && s.j < w
    ensures |t.rows| == |s.rows| && Uniform(t.rows, w)
    ensures t.j == s.j + 1
    ensures NoPivot(s) ==> t == Sweep(s.rows, s.i, s.j + 1)
    ensures !NoPivot(s) ==>
      && t.i == s.i + 1
      && (forall k :: 0 <= k < s.i ==> t.rows[k] == s.rows[k])
      && t.rows[s.i].bits[s.j] != 0
      && (forall k :: s.i < k < |t.rows| ==> t.rows[k].bits[s.j] == 0)
    ensures s.rows[s.i].bits[s.j] != 0 ==>
      && t.rows[s.i] == s.rows[s.i]
      && forall k :: s.i < k < |s.rows| ==> Cleared(s.rows[k], t.rows[k], s.i, s.j)
    ensures s.rows[s.i].bits[s.j] == 0 && !NoPivot(s) ==>
      var o := FirstOne(s.rows, w, s.j, s.i + 1);
      && s.i < o < |s.rows|
      && t.rows[s.i] == s.rows[o]
      && t.rows[o] == s.rows[s.i]
      && forall k :: s.i < k < |s.rows| && k != o ==> Cleared(s.rows[k], t.rows[k], s.i, s.j)
  {
    var rows, i, j := s.rows, s.i, s.j;
    if rows[i].bits[j] == 0 then
      var one := FirstOne(rows, w, j, i + 1);
      if one < |rows| then
        SwapPivot(rows, w, i, j, one);
        Sweep(ClearFrom(Swap(rows, i, one), w, i, j, i + 1), i + 1, j + 1)
      else
        Sweep(rows, i, j + 1)
    else
      Sweep(ClearFrom(rows, w, i, j, i + 1), i + 1, j + 1)
  }

  /** The swap branch of `Step`: the row found by the search becomes the
      pivot row and the old row `i` takes its place, untouched by the
      clearing because its entry in column `j` is 0. */
  lemma SwapPivot(rows: seq<GfRow>, w: nat, i: nat, j: nat, o: nat)
    requires Uniform(rows, w) && j < w && i < o < |rows|
    requires rows[i].bits[j] == 0 && rows[o].bits[j] == 1
    ensures var out := ClearFrom(Swap(rows, i, o), w, i, j, i + 1);
      && out[i] == rows[o]
      && out[o] == rows[i]
      && (forall k :: 0 <= k < i ==> out[k] == rows[k])
      && forall k :: i < k < |rows| && k != o ==> Cleared(rows[k], out[k], i, j)
  {
    var sw := Swap(rows, i, o);
    assert Cleared(sw[o], ClearFrom(sw, w, i, j, i + 1)[o], i, j);
  }

  lemma ProvenanceBelowRows(rows: seq<GfRow>, i: int)
    ensures ProvenanceBelow(Provenance(rows), i) <==>
      forall k :: 0 <= k < |rows| ==> RowProvenanceBelow(rows[k].prov, k, i)
  {
    assert forall k :: 0 <= k < |rows| ==> Provenance(rows)[k] == rows[k].prov;
  }

  /** A cleared row keeps its head; its appended pivot position `i` is
      larger than everything recorded before it. */
  lemma ClearedProvenance(before: GfRow, after: GfRow, k: nat, i: nat, j: nat)
    requires j < |before.bits| && Cleared(before, after, i, j)
    requires i < k && RowProvenanceBelow(before.prov, k, i)
    ensures RowProvenanceBelow(after.prov, k, i + 1)
  {
  }

  lemma StepKeepsProvenance(s: Sweep, w: nat)
    requires s.i < |s.rows| && Uniform(s.rows, w) && s.j < w
    requires ProvenanceBelow(Provenance(s.rows), s.i)
    ensures ProvenanceBelow(Provenance(Step(s, w).rows), Step(s, w).i)
  {
    var t := Step(s, w);
    var i, j := s.i, s.j;
    ProvenanceBelowRows(s.rows, i);
    ProvenanceBelowRows(t.rows, t.i);
    if !NoPivot(s) {
      forall k | 0 <= k < |t.rows|
        ensures RowProvenanceBelow(t.rows[k].prov, k, i + 1)
      {
        if k < i {
          assert t.rows[k] == s.rows[k];
        } else if s.rows[i].bits[j] != 0 {
          if k > i {
            ClearedProvenance(s.rows[k], t.rows[k], k, i, j);
          }
        } else {
          var o := FirstOne(s.rows, w, j, i + 1);
          if k == i {
            assert RowProvenanceBelow(s.rows[o].prov, o, i);
          } else if k == o {
            assert RowProvenanceBelow(s.rows[i].prov, i, i);
          } else {
            ClearedProvenance(s.rows[k], t.rows[k], k, i, j);
          }
        }
      }
    }
  }

  predicate NonEmptyProvenance(rows: seq<GfRow>) {
    forall k :: 0 <= k < |rows| ==> |rows[k].prov| >= 1
  }

  /** The heads of the provenance lists, i.e. the candidate tags in the
      current row order. */
  function Heads(rows: seq<GfRow>): seq<int>
    requires NonEmptyProvenance(rows)
  {
    Firsts(Provenance(rows))
  }

  lemma MultisetSwap(h: seq<int>, a: nat, b: nat)
    requires a < |h| && b < |h|
    ensures multiset(h[a := h[b]][b := h[a]]) == multiset(h)
  {
  }

  /** Rows only move by swaps and clearing keeps every head, so the tags
      are permuted and never lost or duplicated. */
  lemma StepKeepsHeads(s: Sweep, w: nat)
    requires s.i < |s.rows| && Uniform(s.rows, w) && s.j < w
    requires NonEmptyProvenance(s.rows)
    ensures NonEmptyProvenance(Step(s, w).rows)
    ensures multiset(Heads(Step(s, w).rows)) == multiset(Heads(s.rows))
  {
    var t := Step(s, w);
    var i, j := s.i, s.j;
    var h := Heads(s.rows);
    if NoPivot(s) {
    } else if s.rows[i].bits[j] != 0 {
      assert Heads(t.rows) == h;
    } else {
      var o := FirstOne(s.rows, w, j, i + 1);
      assert Heads(t.rows) == h[i := h[o]][o := h[i]];
      MultisetSwap(h, i, o);
    }
  }

  /** Clearing only ever turns entries into zeros. */
  lemma StepKeepsDescends(s: Sweep, w: nat, m: seq<Relation>)
    requires s.i < |s.rows| && Uniform(s.rows, w) && s.j < w
    requires forall k :: 0 <= k < |s.rows| ==> Descends(s.rows[k], m)
    ensures forall k :: 0 <= k < |Step(s, w).rows| ==> Descends(Step(s, w).rows[k], m)
  {
    var t := Step(s, w);
    var i, j := s.i, s.j;
    forall k | 0 <= k < |t.rows|
      ensures Descends(t.rows[k], m)
    {
      if NoPivot(s) || k < i {
      } else if s.rows[i].bits[j] != 0 {
        if k > i {
          ClearedDescends(s.rows[k], t.rows[k], i, j, m);
        }
      } else {
        var o := FirstOne(s.rows, w, j, i + 1);
        if k != i && k != o {
          ClearedDescends(s.rows[k], t.rows[k], i, j, m);
        }
      }
    }
  }

  lemma ClearedDescends(before: GfRow, after: GfRow, i: nat, j: nat, m: seq<Relation>)
    requires j < |before.bits| && Cleared(before, after, i, j)
    requires Descends(before, m)
    ensures Descends(after, m)
  {
    var s :| 0 <= s < |m| && DescendsFrom(before, m[s]);
    assert DescendsFrom(after, m[s]);
  }

  /** The rows `gauss` starts from: each input row with the one-element
      provenance list holding its candidate tag. */
  function InitialRows(m: seq<Relation>): (rows: seq<GfRow>)
  {
    seq(|m|, k requires 0 <= k < |m| => GfRow(m[k].0, [m[k].1]))
  }

  /** The elimination loop of `gauss` (everything before the result list
      is assembled). Each iteration either stops because `j` has run past
      the width, or performs one `Step`, which advances `j` by exactly one,
      so the loop ends. */
  method Eliminate(m: seq<Relation>) returns (rows: seq<GfRow>)
    requires SameWidth(m)
    ensures |rows| == |m| && Uniform(rows, Width(m))
    ensures NonEmptyProvenance(rows)
    ensures multiset(Heads(rows)) == multiset(TagSeq(m))
    ensures ProvenanceBelow(Provenance(rows), |rows|)
    ensures forall k :: 0 <= k < |rows| ==> Descends(rows[k], m)
  {
    var w := Width(m);
    rows := InitialRows(m);
    assert Heads(rows) == TagSeq(m);
    forall k | 0 <= k < |rows|
      ensures Descends(rows[k], m)
    {
      assert DescendsFrom(rows[k], m[k]);
    }
    ProvenanceBelowRows(rows, 0);
    var i, j := 0, 0;
    while i < |rows|
      invariant |rows| == |m| && Uniform(rows, w)
      invariant 0 <= i <= |rows| && 0 <= j <= w
      invariant NonEmptyProvenance(rows)
      invariant multiset(Heads(rows)) == multiset(TagSeq(m))
      invariant ProvenanceBelow(Provenance(rows), i)
      invariant forall k :: 0 <= k < |rows| ==> Descends(rows[k], m)
      decreases w - j
    {
      if j >= |rows[i].bits| {
        break;
      }
      var s := Sweep(rows, i, j);
      StepKeepsProvenance(s, w);
      StepKeepsHeads(s, w);
      StepKeepsDescends(s, w, m);
      var t := Step(s, w);
      rows, i, j := t.rows, t.i, t.j;
    }
    ProvenanceBelowRows(rows, i);
    ProvenanceBelowRows(rows, |rows|);
  }

  /** `gauss`: the provenance list of every row after elimination, in the
      final row order. A list's head is a candidate tag; the entries after
      it are pivot positions, increasing and below the list's own
      position. The lists of rows that did not end up all zero are
      returned too. */
  method Gauss(m: seq<Relation>) returns (hits: seq<seq<int>>)
    requires SameWidth(m)
    ensures |hits| == |m|
    ensures ProvenanceBelow(hits, |hits|)
    ensures forall k :: 0 <= k < |hits| ==> |hits[k]| >= 1
    ensures multiset(Firsts(hits)) == multiset(TagSeq(m))
  {
    var rows := Eliminate(m);
    hits := Provenance(rows);
  }
}
