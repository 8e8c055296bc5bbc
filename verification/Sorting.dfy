/** Sorting the rows of a two-dimensional array, whose row vector holds self-relative
    offsets, and the comparisons the sorts use. */
module Sorting {
  import opened AmxOpcodes

  /** The address that entry `i` of a row vector at `base` leads to. */
  function Row(vector: seq<Cell>, base: Cell, i: nat): Cell
    requires i < |vector|
  {
    Wrap(base + 4 * i + vector[i])
  }

  function Rows(vector: seq<Cell>, base: Cell): (rows: seq<Cell>)
    ensures |rows| == |vector|
  {
    seq(|vector|, i requires 0 <= i < |vector| => Row(vector, base, i))
  }

  function Picked<T>(s: seq<T>, indices: seq<nat>): (r: seq<T>)
    requires forall i | 0 <= i < |indices| :: indices[i] < |s|
    ensures |r| == |indices|
  {
    seq(|indices|, i requires 0 <= i < |indices| => s[indices[i]])
  }

  function Indices(n: nat): (s: seq<nat>)
    ensures |s| == n && forall i | 0 <= i < n :: s[i] == i
  {
    seq(n, i => i)
  }

  /** What a sort makes of the indices below `n`: the same ones, in another order. */
  ghost predicate Permutes(order: seq<nat>, n: nat) {
    (forall i | 0 <= i < |order| :: order[i] < n) && multiset(order) == multiset(Indices(n))
  }

  /** No row comes before one that stands ahead of it. */
  ghost predicate Ordered(rows: seq<Cell>, comesBefore: (Cell, Cell) -> bool) {
    forall i, j | 0 <= i < j < |rows| :: !comesBefore(rows[j], rows[i])
  }

  lemma PermutesLength(order: seq<nat>, n: nat)
    requires Permutes(order, n)
    ensures |order| == n
  {
    assert |multiset(order)| == |multiset(Indices(n))|;
  }

  /** Picking by orders with the same elements gives the same elements. */
  lemma {:induction false} PickedSame<T>(s: seq<T>, a: seq<nat>, b: seq<nat>)
    requires multiset(a) == multiset(b)
    requires forall i | 0 <= i < |a| :: a[i] < |s|
    requires forall i | 0 <= i < |b| :: b[i] < |s|
    ensures multiset(Picked(s, a)) == multiset(Picked(s, b))
    decreases |a|
  {
    if a == [] {
      assert |multiset(b)| == 0;
    } else {
      var k := Find(b, a[0]);
      var a', b' := Dropped(a, 0), Dropped(b, k);
      DroppedRest(a, 0);
      DroppedRest(b, k);
      CancelOne(multiset(a'), multiset(b'), a[0]);
      PickedDropped(s, a, 0);
      PickedDropped(s, b, k);
      hide Picked, Dropped;
      PickedSame(s, a', b');
      DroppedRest(Picked(s, a), 0);
      DroppedRest(Picked(s, b), k);
    }
  }

  lemma Find(b: seq<nat>, x: nat) returns (k: nat)
    requires x in multiset(b)
    ensures k < |b| && b[k] == x
  {
    k :| k < |b| && b[k] == x;
  }

  lemma CancelOne(a: multiset<nat>, b: multiset<nat>, x: nat)
    requires a + multiset{x} == b + multiset{x}
    ensures a == b
  {
    assert a == (a + multiset{x}) - multiset{x};
    assert b == (b + multiset{x}) - multiset{x};
  }

  function Dropped<T>(s: seq<T>, k: nat): (r: seq<T>)
    requires k < |s|
    ensures |r| == |s| - 1
  {
    s[..k] + s[k + 1..]
  }

  lemma DroppedRest<T>(s: seq<T>, k: nat)
    requires k < |s|
    ensures multiset(s) == multiset(Dropped(s, k)) + multiset{s[k]}
  {
    assert s == s[..k] + [s[k]] + s[k + 1..];
  }

  lemma PickedDropped<T>(s: seq<T>, a: seq<nat>, k: nat)
    requires k < |a| && forall i | 0 <= i < |a| :: a[i] < |s|
    ensures forall i | 0 <= i < |Dropped(a, k)| :: Dropped(a, k)[i] < |s|
    ensures Picked(s, Dropped(a, k)) == Dropped(Picked(s, a), k) && Picked(s, a)[k] == s[a[k]]
  {
  }

  lemma PickedAll<T>(s: seq<T>)
    ensures Picked(s, Indices(|s|)) == s
  {
  }

  // ---------------------------------------------------------------- the natives

  /** `SortCustom2D` and `SortStrings`: the offsets are put aside and replaced by indices,
      the indices are sorted (`order` is what the sort makes of them), and each is turned
      into the offset of its row from the new place. */
  method SortRows(vector: array<Cell>, base: Cell, order: seq<nat>, ghost comesBefore: (Cell, Cell) -> bool)
    requires vector.Length < 0x4000_0000 && Permutes(order, vector.Length)
    requires Ordered(Picked(Rows(vector[..], base), order), comesBefore)
    modifies vector
    ensures Rows(vector[..], base) == Picked(old(Rows(vector[..], base)), order)
    ensures multiset(Rows(vector[..], base)) == multiset(old(Rows(vector[..], base)))
    ensures Ordered(Rows(vector[..], base), comesBefore)
  {
    ghost var src := vector[..];
    PermutesLength(order, vector.Length);
    var remap := Backup(vector);
    Sorted(vector, order);
    FixUp(vector, remap, order);
    PickedRows(src, vector[..], base, order);
  }

  /** The offsets are put aside and replaced by indices. */
  method Backup(vector: array<Cell>) returns (remap: array<Cell>)
    requires vector.Length < 0x4000_0000
    modifies vector
    ensures fresh(remap) && remap[..] == old(vector[..])
    ensures vector[..] == Indices(vector.Length)
  {
    remap := new Cell[vector.Length];
    for i := 0 to vector.Length
      invariant forall j | 0 <= j < i :: remap[j] == old(vector[j]) && vector[j] == j
      invariant forall j | i <= j < vector.Length :: vector[j] == old(vector[j])
      modifies vector, remap
    {
      remap[i] := vector[i];
      vector[i] := i;
    }
  }

  /** The sort itself, which leaves `order`. */
  method Sorted(vector: array<Cell>, order: seq<nat>)
    requires |order| == vector.Length < 0x4000_0000 && forall i | 0 <= i < |order| :: order[i] < |order|
    modifies vector
    ensures forall i | 0 <= i < vector.Length :: vector[i] == order[i]
  {
    for i := 0 to vector.Length
      invariant forall j | 0 <= j < i :: vector[j] == order[j]
      modifies vector
    {
      vector[i] := order[i];
    }
  }

  /** Each index is turned into the offset of its row from its new place. */
  method FixUp(vector: array<Cell>, remap: array<Cell>, ghost order: seq<nat>)
    requires |order| == vector.Length == remap.Length && vector != remap
    requires forall i | 0 <= i < |order| :: vector[i] == order[i] < |order|
    modifies vector
    ensures forall i | 0 <= i < vector.Length :: vector[i] == Rebased(remap[..], order[i], i)
  {
    for i := 0 to vector.Length
      invariant forall j | 0 <= j < i :: vector[j] == Rebased(remap[..], order[j], j)
      invariant forall j | i <= j < vector.Length :: vector[j] == order[j]
      modifies vector
    {
      vector[i] := Wrap(4 * vector[i] + remap[vector[i]] - 4 * i);
    }
  }

  /** The offset that leads from place `i` to where entry `k` led. */
  function Rebased(vector: seq<Cell>, k: nat, i: nat): Cell
    requires k < |vector|
  {
    Wrap(4 * k + vector[k] - 4 * i)
  }

  lemma RebasedRow(base: Cell, offset: Cell, k: nat, i: nat)
    ensures Wrap(base + 4 * i + Wrap(4 * k + offset - 4 * i)) == Wrap(base + 4 * k + offset)
  {
  }

  lemma PickedRows(src: seq<Cell>, dst: seq<Cell>, base: Cell, order: seq<nat>)
    requires |src| == |dst| == |order| && Permutes(order, |src|)
    requires forall i | 0 <= i < |order| :: dst[i] == Rebased(src, order[i], i)
    ensures Rows(dst, base) == Picked(Rows(src, base), order)
    ensures multiset(Rows(dst, base)) == multiset(Rows(src, base))
  {
    hide Wrap;
    var rows := Rows(src, base);
    forall i | 0 <= i < |order| ensures Rows(dst, base)[i] == Picked(rows, order)[i] {
      RebasedRow(base, src[order[i]], order[i], i);
    }
    assert Rows(dst, base) == Picked(rows, order);
    PickedSame(rows, order, Indices(|src|));
    PickedAll(rows);
  }

  // --------------------------------------------------------------- comparisons

  /** `sort_ints_asc`: the difference, in a signed cell. */
  function Difference(a: Cell, b: Cell): int {
    Signed(Wrap(a - b))
  }

  /** The difference has the right sign exactly when it does not overflow. */
  lemma DifferenceOrders(a: Cell, b: Cell)
    ensures (Difference(a, b) < 0 <==> Signed(a) < Signed(b)) <==>
            -0x8000_0000 <= Signed(a) - Signed(b) < 0x8000_0000
    ensures Difference(a, b) == 0 <==> a == b
  {
  }

  /** The lowest integer is put behind 1. */
  lemma LowestIsGreater()
    ensures Signed(0x8000_0000) < Signed(1) && Difference(0x8000_0000, 1) > 0
  {
  }

  /** A terminated string of cells. */
  predicate Text(s: seq<Cell>) {
    |s| > 0 && s[|s| - 1] == 0 && forall i | 0 <= i < |s| - 1 :: s[i] != 0
  }

  /** `sort_strings_asc`: the difference of the first cells that differ. */
  method CompareStrings(s: seq<Cell>, t: seq<Cell>) returns (r: int)
    requires Text(s) && Text(t)
    ensures r == 0 <==> s == t
    ensures s != t ==> exists k: nat :: FirstDifference(s, t, k) && r == Difference(s[k], t[k])
  {
    var k := 0;
    while s[k] == t[k]
      invariant k < |s| && k < |t| && s[..k] == t[..k]
      decreases |s| - k
    {
      if s[k] == 0 {
        assert s == s[..k] + [0] && t == t[..k] + [0];
        return 0;
      }
      k := k + 1;
    }
    DifferenceOrders(s[k], t[k]);
    assert FirstDifference(s, t, k);
    r := Difference(s[k], t[k]);
  }

  predicate FirstDifference(s: seq<Cell>, t: seq<Cell>, k: nat) {
    k < |s| && k < |t| && s[..k] == t[..k] && s[k] != t[k]
  }
}
