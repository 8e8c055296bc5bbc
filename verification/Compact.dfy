/** The compact encoding of an AMX image: each cell is a run of 7-bit groups, most
    significant first, every byte but the last marked with 0x80, sign-extended
    from the first byte. */
module Compact {

  type Bytes = seq<bv8>

  predicate Continued(b: bv8) {
    b & 0x80 != 0
  }

  function Payload(b: bv8): bv32 {
    (b & 0x7f) as bv32
  }

  // ------------------------------------------------------- forward decoding

  function Or(x: bv32, y: bv32): bv32 {
    x | y
  }

  function Append7(v: bv32, x: bv32): bv32 {
    (v << 7) | x
  }

  /** The obvious decoder of one group: start from the sign, append 7 bits a byte. */
  function Fold(v: bv32, g: Bytes): bv32
    decreases g
  {
    if g == [] then v else Fold(Append7(v, Payload(g[0])), g[1..])
  }

  function CellOf(g: Bytes): bv32
    requires g != []
  {
    Fold(if g[0] & 0x40 != 0 then 0xffff_ffff else 0, g)
  }

  /** The length of the first group of a stream. */
  function GroupLength(s: Bytes): (n: nat)
    requires s != []
    ensures 1 <= n <= |s|
  {
    if Continued(s[0]) && |s| > 1 then 1 + GroupLength(s[1..]) else 1
  }

  /** The whole stream, decoded from front to back. */
  function Decode(s: Bytes): seq<bv32>
  {
    if s == [] then []
    else
      var n := GroupLength(s);
      [CellOf(s[..n])] + Decode(s[n..])
  }

  // --------------------------------------------------------------- a stream

  /** A complete group of at most five bytes. */
  predicate IsGroup(g: Bytes) {
    && 1 <= |g| <= 5
    && !Continued(g[|g| - 1])
    && forall i | 0 <= i < |g| - 1 :: Continued(g[i])
  }

  /** A stream cut into its groups. */
  function Groups(s: Bytes): seq<Bytes> {
    if s == [] then []
    else
      var n := GroupLength(s);
      [s[..n]] + Groups(s[n..])
  }

  predicate Complete(gs: seq<Bytes>) {
    forall k | 0 <= k < |gs| :: IsGroup(gs[k])
  }

  /** Where group `k` starts in the stream. */
  function Start(gs: seq<Bytes>, k: nat): nat
    requires k <= |gs|
  {
    if k == 0 then 0 else Start(gs, k - 1) + |gs[k - 1]|
  }

  /** The cells of a stream of complete groups. */
  function Cells(gs: seq<Bytes>): seq<bv32>
    requires Complete(gs)
  {
    seq(|gs|, k requires 0 <= k < |gs| => CellOf(gs[k]))
  }

  lemma NoCells()
    ensures Complete([]) && Cells([]) == []
  {
  }

  lemma CellsCons(gs: seq<Bytes>)
    requires Complete(gs) && gs != []
    ensures Complete(gs[1..]) && Cells(gs) == [CellOf(gs[0])] + Cells(gs[1..])
  {
    hide CellOf, IsGroup;
    var rest := gs[1..];
    assert forall k | 0 <= k < |rest| :: rest[k] == gs[k + 1] && IsGroup(rest[k]);
  }

  /** The forward decoder reads the groups one by one. */
  lemma {:induction false} DecodeGroups(s: Bytes)
    requires Complete(Groups(s))
    ensures Decode(s) == Cells(Groups(s))
    decreases s
  {
    hide CellOf, IsGroup, GroupLength, Cells, Complete;
    if s == [] {
      NoCells();
    } else {
      var n := GroupLength(s);
      var gs := Groups(s);
      assert gs[1..] == Groups(s[n..]);
      CellsCons(gs);
      DecodeGroups(s[n..]);
    }
  }

  /** Group `k` is the stretch of the stream between two starts. */
  lemma {:induction false} GroupAt(s: Bytes, k: nat)
    requires k <= |Groups(s)|
    ensures Start(Groups(s), k) <= |s|
    ensures k == |Groups(s)| ==> Start(Groups(s), k) == |s|
    ensures k < |Groups(s)| ==>
              && Start(Groups(s), k) + |Groups(s)[k]| <= |s|
              && s[Start(Groups(s), k)..Start(Groups(s), k) + |Groups(s)[k]|] == Groups(s)[k]
    decreases s
  {
    var gs := Groups(s);
    if s != [] {
      var n := GroupLength(s);
      assert gs[1..] == Groups(s[n..]);
      if k > 0 {
        GroupAt(s[n..], k - 1);
        StartTail(gs, k);
        if k < |gs| {
          var i := Start(gs[1..], k - 1);
          assert s[n..][i..i + |gs[k]|] == s[n + i..n + i + |gs[k]|];
        }
      }
    }
  }

  lemma {:induction false} StartTail(gs: seq<Bytes>, k: nat)
    requires 1 <= k <= |gs|
    ensures Start(gs, k) == |gs[0]| + Start(gs[1..], k - 1)
  {
    if k > 1 {
      StartTail(gs, k - 1);
    }
  }

  lemma {:induction false} StartMonotone(gs: seq<Bytes>, j: nat, k: nat)
    requires j <= k <= |gs|
    ensures Start(gs, j) <= Start(gs, k)
    decreases k
  {
    if j < k {
      StartMonotone(gs, j, k - 1);
    }
  }

  // ------------------------------------------------------ backward decoding

  /** A left shift by `k` groups of 7 bits. */
  function Shl(v: bv32, k: nat): bv32 {
    match k
    case 0 => v
    case 1 => v << 7
    case 2 => v << 14
    case 3 => v << 21
    case 4 => v << 28
    case _ => 0
  }

  /** The shift counter after `k` bytes. */
  function ShiftAfter(k: nat): bv32 {
    match k
    case 0 => 0
    case 1 => 7
    case 2 => 14
    case 3 => 21
    case 4 => 28
    case _ => 35
  }

  function ShiftBy(v: bv32, shift: bv32): bv32
    requires shift < 32
  {
    v << shift
  }

  function Plus7(shift: bv32): bv32 {
    shift + 7
  }

  lemma ShiftStep(v: bv32, k: nat)
    requires k <= 4
    ensures ShiftAfter(k) < 32 && ShiftBy(v, ShiftAfter(k)) == Shl(v, k) && Plus7(ShiftAfter(k)) == ShiftAfter(k + 1)
  {
    match k
    case 0 => assert v << (0 as bv32) == v;
    case 1 => assert v << (7 as bv32) == v << 7;
    case 2 => assert v << (14 as bv32) == v << 14;
    case 3 => assert v << (21 as bv32) == v << 21;
    case 4 => assert v << (28 as bv32) == v << 28;
  }

  /** The bits of a group as the backward loop collects them. */
  function Accumulate(g: Bytes): bv32 {
    if g == [] then 0 else Or(Accumulate(g[1..]), Shl(Payload(g[0]), |g| - 1))
  }

  lemma ShlStep(v: bv32, a: bv32, k: nat)
    requires k <= 4
    ensures Shl(Append7(v, a), k) == Or(Shl(v, k + 1), Shl(a, k))
  {
    match k
    case 0 =>
    case 1 => assert ((v << 7) | a) << 7 == (v << 14) | (a << 7);
    case 2 => assert ((v << 7) | a) << 14 == (v << 21) | (a << 14);
    case 3 => assert ((v << 7) | a) << 21 == (v << 28) | (a << 21);
    case 4 => assert ((v << 7) | a) << 28 == a << 28;
  }

  lemma Regroup(x: bv32, y: bv32, z: bv32)
    ensures Or(Or(x, y), z) == Or(x, Or(z, y))
  {
  }

  lemma ShlZero(v: bv32)
    ensures forall k: nat :: Shl(0, k) == 0
    ensures Shl(v, 0) == v == Or(v, 0) == Or(0, v)
  {
  }

  /** Appending bytes from the front and collecting them from the back give the
      same bits. */
  lemma {:induction false} FoldAccumulate(v: bv32, g: Bytes)
    requires |g| <= 5
    ensures Fold(v, g) == Or(Shl(v, |g|), Accumulate(g))
    decreases g
  {
    hide Shl, Payload, Or, Append7;
    if g == [] {
      ShlZero(v);
    } else {
      var a, rest := Payload(g[0]), g[1..];
      FoldAccumulate(Append7(v, a), rest);
      ShlStep(v, a, |rest|);
      Regroup(Shl(v, |g|), Shl(a, |rest|), Accumulate(rest));
    }
  }

  /** The sign-expansion loop, from a group of `k` bytes. */
  method SignExpand(c0: bv32, shift0: bv32, ghost k: nat) returns (c: bv32)
    requires 1 <= k <= 5 && shift0 == ShiftAfter(k)
    ensures c == Or(c0, Shl(0xffff_ffff, k))
  {
    c := c0;
    var shift := shift0;
    while shift < 32
      invariant Expanding(c, c0, shift, k)
      decreases 40 - shift as int
    {
      c := c | (0xff << shift);
      shift := shift + 8;
    }
  }

  ghost predicate Expanding(c: bv32, c0: bv32, shift: bv32, k: nat) {
    match k
    case 1 => (shift == 7 && c == c0) || (shift == 15 && c == c0 | 0x7f80) || (shift == 23 && c == c0 | 0x7f_ff80)
              || (shift == 31 && c == c0 | 0x7fff_ff80) || (shift == 39 && c == c0 | 0xffff_ff80)
    case 2 => (shift == 14 && c == c0) || (shift == 22 && c == c0 | 0x3f_c000) || (shift == 30 && c == c0 | 0x3fff_c000)
              || (shift == 38 && c == c0 | 0xffff_c000)
    case 3 => (shift == 21 && c == c0) || (shift == 29 && c == c0 | 0x1fe0_0000) || (shift == 37 && c == c0 | 0xffe0_0000)
    case 4 => (shift == 28 && c == c0) || (shift == 36 && c == c0 | 0xf000_0000)
    case _ => shift == 35 && c == c0
  }

  /** The backward loop computes what the forward decoder says. */
  lemma GroupDecodes(g: Bytes)
    requires 1 <= |g| <= 5
    ensures CellOf(g) == if g[0] & 0x40 != 0 then Or(Accumulate(g), Shl(0xffff_ffff, |g|)) else Accumulate(g)
  {
    hide Shl, Payload, Or, Append7;
    FoldAccumulate(0, g);
    FoldAccumulate(0xffff_ffff, g);
    ShlZero(Accumulate(g));
    Swap(Accumulate(g), Shl(0xffff_ffff, |g|));
  }

  lemma Swap(x: bv32, y: bv32)
    ensures Or(x, y) == Or(y, x)
  {
  }

  // ---------------------------------------------------- in-place expansion

  const MARGIN: nat := 64

  const CELL: nat := 4

  /** A cell as it lies in memory, low byte first. */
  function CellBytes(c: bv32): Bytes {
    [(c & 0xff) as bv8, ((c >> 8) & 0xff) as bv8, ((c >> 16) & 0xff) as bv8, ((c >> 24) & 0xff) as bv8]
  }

  function Memory(cells: seq<bv32>): Bytes {
    if cells == [] then [] else Memory(cells[..|cells| - 1]) + CellBytes(cells[|cells| - 1])
  }

  datatype Spare = Spare(memloc: nat, c: bv32)

  /** The condition under which the ring never overflows: no group starts `MARGIN`
      or more cells beyond the place of its own cell, unless so few groups follow
      that they all fit in the ring. */
  predicate WithinMargin(gs: seq<Bytes>) {
    forall k | 0 <= k < |gs| :: RoomAt(gs, k)
  }

  predicate RoomAt(gs: seq<Bytes>, k: nat)
    requires k < |gs|
  {
    Start(gs, k) < CELL * (k + MARGIN) || |gs| <= k + MARGIN
  }

  /** The condition is exact.  When cell `k` has to wait, the `sc` cells waiting
      already are precisely those whose place is not clear of the bytes before
      group `k`; the ring has room for one more if and only if `RoomAt` holds. */
  lemma RoomIsExact(gs: seq<Bytes>, k: nat, sc: nat)
    requires k + 1 + sc <= |gs| && CELL * k <= Start(gs, k)
    requires sc > 0 ==> CELL * (k + sc) <= Start(gs, k)
    requires k + 1 + sc < |gs| ==> Start(gs, k) < CELL * (k + 1 + sc)
    ensures sc < MARGIN <==> RoomAt(gs, k)
  {
  }

  ghost predicate InPlace(code: Bytes, j: nat, c: bv32) {
    CELL * (j + 1) <= |code| && code[CELL * j..CELL * (j + 1)] == CellBytes(c)
  }

  /** How far the backward sweep has come.  The bytes before group `k` are as they
      were, cells from `hi` on are in place, and the place of `hi` and everything
      after it is clear of the bytes before group `k`. */
  ghost predicate Sweeping(code: Bytes, image: Bytes, gs: seq<Bytes>, k: nat, hi: nat) {
    && k <= |gs| && hi <= |gs| && CELL * |gs| <= |code| == |image|
    && Complete(gs)
    && Start(gs, k) <= |code|
    && code[..Start(gs, k)] == image[..Start(gs, k)]
    && code[CELL * |gs|..] == image[CELL * |gs|..]
    && (forall j | hi <= j < |gs| :: InPlace(code, j, CellOf(gs[j])))
    && (hi < |gs| ==> Start(gs, k) < CELL * hi || hi == k == 0)
  }

  /** The place in the ring of the entry pushed `t` entries after the head. */
  function Slot(sh: nat, t: nat): nat {
    (sh + t) % MARGIN
  }

  lemma SlotInRange(sh: nat, t: nat)
    ensures Slot(sh, t) < MARGIN && Slot(sh, t + 1) == (Slot(sh, t) + 1) % MARGIN
  {
  }

  lemma SlotNext(sh: nat, t: nat)
    ensures Slot((sh + 1) % MARGIN, t) == Slot(sh, t + 1)
  {
  }

  lemma SlotDistinct(sh: nat, t: nat, t': nat)
    requires t < t' < t + MARGIN
    ensures Slot(sh, t) != Slot(sh, t')
  {
  }

  /** The ring holds the cells below `hi`, the highest first. */
  ghost predicate Ring(spare: seq<Spare>, sh: nat, sc: nat, gs: seq<Bytes>, hi: nat) {
    && |spare| == MARGIN && sh < MARGIN && sc <= MARGIN && sc <= hi <= |gs| && Complete(gs)
    && forall t | 0 <= t < sc :: spare[Slot(sh, t)] == Waiting(gs, hi - 1 - t)
  }

  function Waiting(gs: seq<Bytes>, j: int): Spare
    requires 0 <= j < |gs| && Complete(gs)
  {
    Spare(CELL * j, CellOf(gs[j]))
  }

  lemma RingDrained(spare: seq<Spare>, sh: nat, gs: seq<Bytes>, hi: nat, hi': nat)
    requires Ring(spare, sh, 0, gs, hi) && hi' <= |gs|
    ensures Ring(spare, sh, 0, gs, hi')
  {
  }

  lemma RingPop(spare: seq<Spare>, sh: nat, sc: nat, gs: seq<Bytes>, hi: nat)
    requires Ring(spare, sh, sc, gs, hi) && sc > 0
    ensures sh < MARGIN == |spare| && hi <= |gs| && spare[sh] == Waiting(gs, hi - 1)
    ensures Waiting(gs, hi - 1) == Spare(CELL * (hi - 1), CellOf(gs[hi - 1]))
    ensures Ring(spare, (sh + 1) % MARGIN, sc - 1, gs, hi - 1)
  {
    assert Slot(sh, 0) == sh;
    var next := (sh + 1) % MARGIN;
    forall t | 0 <= t < sc - 1 ensures spare[Slot(next, t)] == Waiting(gs, hi - 2 - t) {
      SlotNext(sh, t);
    }
  }

  lemma RingPush(spare: seq<Spare>, sh: nat, sc: nat, gs: seq<Bytes>, hi: nat)
    requires Ring(spare, sh, sc, gs, hi) && sc < MARGIN && sc < hi
    ensures Ring(spare[Slot(sh, sc) := Waiting(gs, hi - 1 - sc)], sh, sc + 1, gs, hi)
  {
    var spare' := spare[Slot(sh, sc) := Waiting(gs, hi - 1 - sc)];
    forall t | 0 <= t < sc + 1 ensures spare'[Slot(sh, t)] == Waiting(gs, hi - 1 - t) {
      if t < sc {
        SlotDistinct(sh, t, sc);
      }
    }
  }

  /** Writes a cell. */
  method Store(code: array<bv8>, at: nat, c: bv32)
    requires at + CELL <= code.Length
    modifies code
    ensures code[..] == old(code[..at]) + CellBytes(c) + old(code[at + CELL..])
  {
    code[at] := (c & 0xff) as bv8;
    code[at + 1] := ((c >> 8) & 0xff) as bv8;
    code[at + 2] := ((c >> 16) & 0xff) as bv8;
    code[at + 3] := ((c >> 24) & 0xff) as bv8;
    assert code[..] == code[..at] + code[at..at + CELL] + code[at + CELL..];
    assert code[at..at + CELL] == CellBytes(c);
  }

  lemma SliceAfter(a: Bytes, b: Bytes, i: nat, j: nat)
    requires |a| <= i <= j <= |a| + |b|
    ensures (a + b)[i..j] == b[i - |a|..j - |a|]
  {
  }

  /** Putting the next cell in place keeps everything, as long as its place is clear
      of the unread bytes. */
  lemma StoreSweeping(code: Bytes, image: Bytes, gs: seq<Bytes>, k: nat, hi: nat, code': Bytes)
    requires Sweeping(code, image, gs, k, hi) && hi > 0
    requires Start(gs, k) < CELL * (hi - 1) || hi - 1 == k == 0
    requires code' == code[..CELL * (hi - 1)] + CellBytes(CellOf(gs[hi - 1])) + code[CELL * hi..]
    ensures Sweeping(code', image, gs, k, hi - 1)
  {
    var n := Start(gs, k);
    assert code'[..n] == code[..n];
    assert code'[CELL * |gs|..] == code[CELL * |gs|..];
    forall j | hi - 1 <= j < |gs| ensures InPlace(code', j, CellOf(gs[j])) {
      if j >= hi {
        SliceAfter(code[..CELL * (hi - 1)] + CellBytes(CellOf(gs[hi - 1])), code[CELL * hi..], CELL * j, CELL * (j + 1));
        assert code[CELL * hi..][CELL * (j - hi)..CELL * (j + 1 - hi)] == code[CELL * j..CELL * (j + 1)];
      } else {
        assert code'[CELL * j..CELL * (j + 1)] == CellBytes(CellOf(gs[j]));
      }
    }
  }

  /** One round of the backward loop. */
  function Collect(c: bv32, b: bv8, shift: bv32): bv32
    requires shift < 32
  {
    Or(c, ShiftBy(Payload(b), shift))
  }

  lemma SweepFacts(code: Bytes, image: Bytes, gs: seq<Bytes>, k: nat, hi: nat)
    requires Sweeping(code, image, gs, k, hi)
    ensures CELL * |gs| <= |code| && Start(gs, k) <= |code| && code[..Start(gs, k)] == image[..Start(gs, k)]
    ensures Complete(gs) && code[CELL * |gs|..] == image[CELL * |gs|..]
  {
  }

  lemma SweepBegins(image: Bytes, s: Bytes)
    requires |s| <= |image| && s == image[..|s|] && Complete(Groups(s)) && CELL * |Groups(s)| <= |image|
    ensures Sweeping(image, image, Groups(s), |Groups(s)|, |Groups(s)|)
    ensures Start(Groups(s), |Groups(s)|) == |s|
  {
    GroupAt(s, |Groups(s)|);
  }

  lemma EmptyRing(spare: seq<Spare>, gs: seq<Bytes>)
    requires |spare| == MARGIN && Complete(gs)
    ensures Ring(spare, 0, 0, gs, |gs|) && Slot(0, 0) == 0
  {
  }

  /** Only the first group starts at 0. */
  lemma {:induction false} StartZero(gs: seq<Bytes>, k: nat)
    requires Complete(gs) && k <= |gs|
    ensures Start(gs, k) == 0 <==> k == 0
  {
    if k > 0 {
      assert IsGroup(gs[k - 1]);
    }
  }

  lemma SweepClear(code: Bytes, image: Bytes, gs: seq<Bytes>, k: nat, hi: nat)
    requires Sweeping(code, image, gs, k, hi) && k < hi < |gs|
    ensures Start(gs, k) < CELL * hi
  {
  }

  /** Reading one group takes the sweep from group `k + 1` to group `k`. */
  lemma SweepOn(code: Bytes, image: Bytes, gs: seq<Bytes>, k: nat, hi: nat)
    requires Sweeping(code, image, gs, k + 1, hi) && k < hi
    ensures Sweeping(code, image, gs, k, hi)
  {
    var n, n' := Start(gs, k), Start(gs, k + 1);
    assert code[..n] == code[..n'][..n] && image[..n] == image[..n'][..n];
  }

  /** At the end of the sweep the memory holds all cells in order. */
  lemma {:induction false} SweepEnds(code: Bytes, image: Bytes, gs: seq<Bytes>, n: nat)
    requires Sweeping(code, image, gs, 0, 0) && n <= |gs|
    ensures code[..CELL * n] == Memory(Cells(gs)[..n])
  {
    if n > 0 {
      SweepEnds(code, image, gs, n - 1);
      var cells := Cells(gs)[..n];
      assert cells[..n - 1] == Cells(gs)[..n - 1];
      assert InPlace(code, n - 1, CellOf(gs[n - 1]));
      assert code[..CELL * n] == code[..CELL * (n - 1)] + code[CELL * (n - 1)..CELL * n];
    }
  }

  /** One more byte of the group, seen from its end. */
  lemma AccumulateStep(g: Bytes, n: nat, c: bv32)
    requires n < |g| <= 5 && c == Accumulate(g[|g| - n..])
    ensures ShiftAfter(n) < 32 && Plus7(ShiftAfter(n)) == ShiftAfter(n + 1)
    ensures Collect(c, g[|g| - 1 - n], ShiftAfter(n)) == Accumulate(g[|g| - 1 - n..])
  {
    hide Or, Shl, Payload, Collect, ShiftAfter, Plus7;
    CollectBits(c, g[|g| - 1 - n], n);
    var rest := g[|g| - 1 - n..];
    assert rest[1..] == g[|g| - n..];
  }

  lemma CollectBits(c: bv32, b: bv8, n: nat)
    requires n <= 4
    ensures ShiftAfter(n) < 32 && Plus7(ShiftAfter(n)) == ShiftAfter(n + 1)
    ensures Collect(c, b, ShiftAfter(n)) == Or(c, Shl(Payload(b), n))
  {
    hide Shl, ShiftAfter, Plus7, Payload, ShiftBy, Or;
    ShiftStep(Payload(b), n);
  }

  /** Collects the group that ends at `codesize`, from its last byte to its first. */
  method CollectGroup(code: array<bv8>, codesize: nat, ghost g: Bytes) returns (size: nat, c: bv32, shift: bv32)
    requires IsGroup(g) && |g| <= codesize <= code.Length
    requires code[codesize - |g|..codesize] == g
    requires codesize > |g| ==> !Continued(code[codesize - |g| - 1])
    ensures size == codesize - |g| && c == Accumulate(g) && shift == ShiftAfter(|g|)
  {
    hide Shl, Or, ShiftAfter, Plus7, Accumulate, Payload, Collect, Continued, CellOf;
    ghost var b := code[codesize - |g|..codesize];
    assert forall j | codesize - |g| <= j < codesize :: code[j] == g[j - (codesize - |g|)];
    Nothing(g);
    AccumulateStep(g, 0, 0);
    size := codesize - 1;
    c := Collect(0, code[size], 0);
    shift := 7;
    ghost var n := 1;
    while size > 0 && Continued(code[size - 1])
      invariant 1 <= n <= |g| && size == codesize - n
      invariant c == Accumulate(g[|g| - n..]) && shift == ShiftAfter(n)
    {
      AccumulateStep(g, n, c);
      size := size - 1;
      c := Collect(c, code[size], shift);
      shift := Plus7(shift);
      n := n + 1;
    }
    assert g[0..] == g;
  }

  /** Reads the group that ends at `codesize`. */
  method ReadGroup(code: array<bv8>, codesize: nat, ghost g: Bytes) returns (size: nat, c: bv32)
    requires IsGroup(g) && |g| <= codesize <= code.Length
    requires code[codesize - |g|..codesize] == g
    requires codesize > |g| ==> !Continued(code[codesize - |g| - 1])
    ensures size == codesize - |g| && c == CellOf(g)
  {
    hide Shl, Or, ShiftAfter, Accumulate, CellOf;
    var shift;
    size, c, shift := CollectGroup(code, codesize, g);
    assert code[size] == g[0];
    if code[size] & 0x40 != 0 {
      c := SignExpand(c, shift, |g|);
    }
    GroupDecodes(g);
  }

  lemma Nothing(g: Bytes)
    ensures Accumulate(g[|g|..]) == 0 && ShiftAfter(0) == 0 && ShiftAfter(1) == 7
  {
  }

  // ------------------------------------------------------------ the routine

  /** Writes the waiting cells whose place has become clear. */
  method Flush(code: array<bv8>, codesize: nat, spare: array<Spare>, sh: nat, sc: nat,
               ghost image: Bytes, ghost gs: seq<Bytes>, ghost k: nat, ghost hi: nat)
    returns (sh': nat, sc': nat)
    requires spare as object != code as object
    requires k < |gs| && Complete(gs) && codesize == Start(gs, k) && hi == k + 1 + sc
    requires Sweeping(code[..], image, gs, k, hi) && Ring(spare[..], sh, sc, gs, hi)
    modifies code
    ensures sc' <= sc && Slot(sh', sc') == Slot(sh, sc)
    ensures Sweeping(code[..], image, gs, k, k + 1 + sc') && Ring(spare[..], sh', sc', gs, k + 1 + sc')
    ensures sc' > 0 ==> CELL * (k + sc') <= codesize
  {
    hide Sweeping, Ring, Start, CellOf, CellBytes, Complete;
    ghost var ring := spare[..];
    sh', sc' := sh, sc;
    if sc > 0 {
      RingPop(ring, sh', sc', gs, hi);
    }
    while sc' > 0 && spare[sh'].memloc > codesize
      invariant sc' <= sc && Slot(sh', sc') == Slot(sh, sc) && spare[..] == ring
      invariant Sweeping(code[..], image, gs, k, k + 1 + sc') && Ring(ring, sh', sc', gs, k + 1 + sc')
      invariant sc' > 0 ==> k + sc' < |gs| && sh' < MARGIN == spare.Length && ring[sh'] == Waiting(gs, k + sc')
    {
      ghost var b, h := code[..], k + 1 + sc';
      SweepFacts(b, image, gs, k, h);
      RingPop(ring, sh', sc', gs, h);
      SlotNext(sh', sc' - 1);
      Store(code, spare[sh'].memloc, spare[sh'].c);
      StoreSweeping(b, image, gs, k, h, code[..]);
      sh' := (sh' + 1) % MARGIN;
      sc' := sc' - 1;
      if sc' > 0 {
        RingPop(ring, sh', sc', gs, h - 1);
      }
    }
  }

  /** Stores cell `k` if its place is clear, and puts it in the ring otherwise. */
  method StoreOrWait(code: array<bv8>, codesize: nat, mem: nat, c: bv32, spare: array<Spare>, sh: nat, st: nat, sc: nat,
                     ghost image: Bytes, ghost gs: seq<Bytes>, ghost k: nat)
    returns (st': nat, sc': nat)
    requires spare as object != code as object
    requires k < |gs| && Complete(gs) && codesize == Start(gs, k) && mem == CELL * k && c == CellOf(gs[k])
    requires WithinMargin(gs) && (k == 0 ==> codesize == 0)
    requires Sweeping(code[..], image, gs, k, k + 1 + sc) && Ring(spare[..], sh, sc, gs, k + 1 + sc)
    requires st == Slot(sh, sc) && spare.Length == MARGIN && k + 1 + sc <= |gs|
    requires sc > 0 ==> CELL * (k + sc) <= codesize
    modifies code, spare
    ensures Sweeping(code[..], image, gs, k, k + sc') && Ring(spare[..], sh, sc', gs, k + sc')
    ensures st' == Slot(sh, sc') && k + sc' <= |gs| && (k == 0 ==> sc' == 0)
  {
    hide Sweeping, Ring, Start, CellOf, CellBytes, Complete, Slot;
    st', sc' := st, sc;
    ghost var b, ring := code[..], spare[..];
    SweepFacts(b, image, gs, k, k + 1 + sc);
    if mem > codesize || (mem == codesize && mem == 0) {
      Store(code, mem, c);
      StoreSweeping(b, image, gs, k, k + 1, code[..]);
      assert spare[..] == ring;
      RingDrained(ring, sh, gs, k + 1, k);
    } else {
      if k + 1 + sc < |gs| {
        SweepClear(b, image, gs, k, k + 1 + sc);
      }
      RoomIsExact(gs, k, sc);
      RingPush(ring, sh, sc, gs, k + 1 + sc);
      SlotInRange(sh, sc);
      spare[st] := Spare(mem, c);
      assert spare[..] == ring[st := Spare(mem, c)] && code[..] == b;
      st' := (st + 1) % MARGIN;
      sc' := sc + 1;
    }
  }

  /** Group `k` can be read backward from the start of the next one. */
  lemma Readable(code: Bytes, s: Bytes, k: nat)
    requires k < |Groups(s)| && Complete(Groups(s))
    requires Start(Groups(s), k + 1) <= |code| && Start(Groups(s), k + 1) <= |s|
    requires code[..Start(Groups(s), k + 1)] == s[..Start(Groups(s), k + 1)]
    ensures var (gs, i) := (Groups(s), Start(Groups(s), k));
            && IsGroup(gs[k]) && Start(gs, k + 1) == i + |gs[k]|
            && code[i..i + |gs[k]|] == gs[k]
            && (i > 0 ==> !Continued(code[i - 1]))
  {
    hide Groups, Continued;
    var gs, i, end := Groups(s), Start(Groups(s), k), Start(Groups(s), k + 1);
    GroupAt(s, k);
    assert code[i..end] == code[..end][i..end] == s[..end][i..end] == s[i..end];
    if k > 0 {
      GroupAt(s, k - 1);
      assert IsGroup(gs[k - 1]);
      var j := Start(gs, k - 1);
      assert s[j..i][i - 1 - j] == gs[k - 1][|gs[k - 1]| - 1];
      assert code[i - 1] == code[..end][i - 1] == s[..end][i - 1];
    }
  }

  /** Expands the compact image in `code[..codesize]` in place, from the end
      backward, into `memsize` bytes of cells. */
  method Expand(code: array<bv8>, codesize: nat, memsize: nat)
    requires codesize <= code.Length && memsize <= code.Length
    requires var gs := Groups(code[..codesize]);
             Complete(gs) && memsize == CELL * |gs| && WithinMargin(gs)
    modifies code
    ensures code[..memsize] == Memory(Decode(old(code[..codesize])))
    ensures code[memsize..] == old(code[memsize..])
  {
    hide Sweeping, Ring, Start, Groups, CellOf, CellBytes, IsGroup, Complete, Decode, Memory;
    ghost var image, s := code[..], code[..codesize];
    ghost var gs := Groups(s);
    SweepBegins(image, s);
    var spare := new Spare[MARGIN](_ => Spare(0, 0));
    var sh, st, sc := 0, 0, 0;
    var size, mem := codesize, memsize;
    ghost var k := |gs|;
    EmptyRing(spare[..], gs);
    while size > 0
      invariant 0 <= k <= |gs| && size == Start(gs, k) && mem == CELL * k
      invariant Sweeping(code[..], image, gs, k, k + sc) && Ring(spare[..], sh, sc, gs, k + sc)
      invariant k == 0 ==> sc == 0
      invariant spare.Length == MARGIN
      invariant k + sc <= |gs| && st == Slot(sh, sc)
      decreases k
    {
      StartZero(gs, k);
      StartZero(gs, k - 1);
      k := k - 1;
      SweepFacts(code[..], image, gs, k + 1, k + 1 + sc);
      SweepOn(code[..], image, gs, k, k + 1 + sc);
      GroupAt(s, k + 1);
      Readable(code[..], s, k);
      var c;
      size, c := ReadGroup(code, size, gs[k]);
      sh, sc := Flush(code, size, spare, sh, sc, image, gs, k, k + 1 + sc);
      mem := mem - CELL;
      st, sc := StoreOrWait(code, size, mem, c, spare, sh, st, sc, image, gs, k);
    }
    StartZero(gs, k);
    SweepFacts(code[..], image, gs, 0, 0);
    SweepEnds(code[..], image, gs, |gs|);
    assert Cells(gs)[..|gs|] == Cells(gs);
    assert s == old(code[..codesize]);
    DecodeGroups(s);
  }
}
