/** The compiler's side of the compact encoding: `write_encoded`, and the guard
    that gives compression up. */
module CompactWriter {
  import opened Wrappers
  import opened Compact

  const ENC_MAX: nat := 5

  /** What is left of a cell after `k` pieces. */
  function Shr(p: bv32, k: nat): bv32 {
    match k
    case 0 => p
    case 1 => p >> 7
    case 2 => p >> 14
    case 3 => p >> 21
    case 4 => p >> 28
    case _ => 0
  }

  function Low7(p: bv32): bv8 {
    (p & 0x7f) as bv8
  }

  function Drop7(p: bv32): bv32 {
    p >> 7
  }

  function Marked(b: bv8): bv8 {
    b | 0x80
  }

  /** The group that the 7-bit pieces `t`, low piece first, are written as. */
  function Written(t: Bytes): Bytes
    requires t != []
  {
    if |t| == 1 then t else [Marked(t[|t| - 1])] + Written(t[..|t| - 1])
  }

  predicate Pieces(t: Bytes) {
    forall i | 0 <= i < |t| :: t[i] < 0x80
  }

  lemma {:induction false} WrittenIsGroup(t: Bytes)
    requires Pieces(t) && 1 <= |t| <= 5
    ensures |Written(t)| == |t| && IsGroup(Written(t))
    ensures Payload(Written(t)[0]) == Payload(t[|t| - 1])
    ensures Written(t)[0] & 0x40 == t[|t| - 1] & 0x40
  {
    var b := t[|t| - 1];
    MarkBits(b);
    if |t| > 1 {
      WrittenIsGroup(t[..|t| - 1]);
    }
  }

  lemma MarkBits(b: bv8)
    ensures Continued(Marked(b)) && Payload(Marked(b)) == Payload(b) && Marked(b) & 0x40 == b & 0x40
    ensures b < 0x80 ==> !Continued(b)
  {
  }

  lemma LowPayload(p: bv32)
    ensures Payload(Low7(p)) == p & 0x7f && Low7(p) < 0x80
  {
  }

  lemma Rejoin(x: bv32)
    ensures Append7(Drop7(x), Payload(Low7(x))) == x && Low7(x) < 0x80
  {
    LowPayload(x);
    assert ((x >> 7) << 7) | (x & 0x7f) == x;
  }

  lemma DropStep(p: bv32, k: nat)
    requires k <= 4
    ensures Drop7(Shr(p, k)) == Shr(p, k + 1)
  {
    hide Shr, Drop7;
    match k
    case 0 => DropZero(p);
    case 1 => DropOne(p);
    case 2 => DropTwo(p);
    case 3 => DropThree(p);
    case 4 => DropFour(p);
  }

  lemma DropZero(p: bv32)
    ensures Drop7(Shr(p, 0)) == Shr(p, 1)
  {
  }

  lemma DropOne(p: bv32)
    ensures Drop7(Shr(p, 1)) == Shr(p, 2)
  {
  }

  lemma DropTwo(p: bv32)
    ensures Drop7(Shr(p, 2)) == Shr(p, 3)
  {
  }

  lemma DropThree(p: bv32)
    ensures Drop7(Shr(p, 3)) == Shr(p, 4)
  {
  }

  lemma DropFour(p: bv32)
    ensures Drop7(Shr(p, 4)) == Shr(p, 5)
  {
  }

  /** Dropping a piece and putting it back. */
  lemma DropShr(p: bv32, k: nat)
    requires k <= 4
    ensures Drop7(Shr(p, k)) == Shr(p, k + 1) && Low7(Shr(p, k)) < 0x80
    ensures Append7(Shr(p, k + 1), Payload(Low7(Shr(p, k)))) == Shr(p, k)
    ensures Shr(p, 0) == p
  {
    hide Payload, Low7, Append7, Drop7;
    DropStep(p, k);
    Rejoin(Shr(p, k));
  }

  /** The first `k` pieces of a cell. */
  predicate PiecesOf(t: Bytes, p: bv32, k: nat) {
    |t| == k <= ENC_MAX && forall i | 0 <= i < k :: t[i] == Low7(Shr(p, i))
  }

  /** What is left of the cell after `k` pieces, followed by those pieces, is the
      cell. */
  lemma {:induction false} PiecesFold(t: Bytes, p: bv32, k: nat)
    requires PiecesOf(t, p, k) && k > 0
    ensures Fold(Shr(p, k), Written(t)) == p && Pieces(t)
  {
    hide Shr, Append7, Low7, Drop7, Payload, Marked;
    var rest := t[..k - 1];
    WrittenStep(Shr(p, k), t);
    DropShr(p, k - 1);
    DropShr(p, 0);
    if k > 1 {
      PiecesFold(rest, p, k - 1);
    }
    forall i | 0 <= i < |t| ensures t[i] < 0x80 {
      DropShr(p, i);
    }
  }

  /** The top piece of a group, folded in. */
  lemma WrittenStep(v: bv32, t: Bytes)
    requires t != []
    ensures Fold(v, Written(t)) ==
            if |t| == 1 then Append7(v, Payload(t[0]))
            else Fold(Append7(v, Payload(t[|t| - 1])), Written(t[..|t| - 1]))
  {
    hide Append7, Payload, Marked;
    MarkBits(t[|t| - 1]);
  }

  /** The sign that the decoder takes from the top piece. */
  function SignOf(b: bv8): bv32 {
    if b & 0x40 != 0 then 0xffff_ffff else 0
  }

  lemma CellOfWritten(t: Bytes)
    requires Pieces(t) && 1 <= |t| <= 5
    ensures IsGroup(Written(t)) && CellOf(Written(t)) == Fold(SignOf(t[|t| - 1]), Written(t))
  {
    hide Fold, Payload, Marked;
    WrittenIsGroup(t);
  }

  /** The pieces of a cell, low piece first. */
  function PiecesFor(cell: bv32, k: nat): Bytes {
    seq(k, i requires 0 <= i < k => Low7(Shr(cell, i)))
  }

  /** What is left of a cell after `k` pieces only repeats the sign of the last piece. */
  predicate Fits(cell: bv32, k: nat)
    requires 1 <= k <= 5
  {
    Shr(cell, k) == Shr(SignOf(Low7(Shr(cell, k - 1))), k)
  }

  /** How many pieces a cell needs. */
  function Size(cell: bv32): (k: nat)
    ensures 1 <= k <= 5 && Fits(cell, k) && forall j | 1 <= j < k :: !Fits(cell, j)
  {
    if Fits(cell, 1) then 1 else if Fits(cell, 2) then 2 else if Fits(cell, 3) then 3
    else if Fits(cell, 4) then 4 else 5
  }

  /** The group of a cell. */
  function Group(cell: bv32): Bytes {
    Written(PiecesFor(cell, Size(cell)))
  }

  /** A piece more does not hurt. */
  lemma FitsMore(cell: bv32, k: nat)
    requires 1 <= k <= 4 && Fits(cell, k)
    ensures Fits(cell, k + 1)
  {
    match k
    case 1 =>
    case 2 =>
    case 3 =>
    case 4 =>
  }

  /** The top piece can be left out exactly when one of the writer's tests says so. */
  predicate Skippable(b: bv8, b': bv8, index: nat) {
    || (b == 0 && b' & 0x40 == 0)
    || (b == 0x7f && b' & 0x40 != 0)
    || (index == 5 && b == 0x0f && b' & 0x40 != 0)
  }

  lemma SkipIsExact(cell: bv32, k: nat)
    requires 2 <= k <= 5 && Fits(cell, k)
    ensures Fits(cell, k - 1) <==> Skippable(Low7(Shr(cell, k - 1)), Low7(Shr(cell, k - 2)), k)
  {
    match k
    case 2 =>
    case 3 =>
    case 4 =>
    case 5 =>
  }

  /** Putting `k` pieces under the sign and taking them off again. */
  lemma SignUnder(sign: bv32, k: nat)
    requires 1 <= k <= 5 && (sign == 0 || sign == 0xffff_ffff)
    ensures Shl(Shr(sign, k), k) == Shl(sign, k)
  {
    match k
    case 1 =>
    case 2 =>
    case 3 =>
    case 4 =>
    case 5 =>
  }

  /** The pieces that a cell needs are written as a group that decodes to it. */
  lemma FitsDecodes(cell: bv32, k: nat)
    requires 1 <= k <= 5 && Fits(cell, k)
    ensures var g := Written(PiecesFor(cell, k)); IsGroup(g) && |g| == k && CellOf(g) == cell
  {
    hide Shr, Low7, Drop7, Written, CellOf, Fold, SignOf, Shl, Or, Accumulate;
    var t := PiecesFor(cell, k);
    PiecesFold(t, cell, k);
    CellOfWritten(t);
    WrittenIsGroup(t);
    var sign := SignOf(t[k - 1]);
    SignValues(t[k - 1]);
    SignUnder(sign, k);
    FoldAccumulate(Shr(cell, k), Written(t));
    FoldAccumulate(sign, Written(t));
  }

  lemma SignValues(b: bv8)
    ensures SignOf(b) == 0 || SignOf(b) == 0xffff_ffff
  {
  }

  /** Cuts a cell into pieces and drops those that the sign implies. */
  method Encode(cell: bv32) returns (g: Bytes)
    ensures g == Group(cell) && IsGroup(g) && CellOf(g) == cell
  {
    hide Shr, Low7, Drop7, Written, CellOf, IsGroup, Fits;
    var t: Bytes, p := [], cell;
    DropShr(cell, 0);
    for index := 0 to ENC_MAX
      invariant t == PiecesFor(cell, index) && p == Shr(cell, index)
    {
      DropShr(cell, index);
      t := t + [Low7(p)];
      p := Drop7(p);
    }
    FiveFit(cell);
    var index := ENC_MAX;
    while index > 1 && t[index - 1] == 0 && t[index - 2] & 0x40 == 0
      invariant 1 <= index <= ENC_MAX && Fits(cell, index)
    {
      SkipIsExact(cell, index);
      index := index - 1;
    }
    if index == ENC_MAX && t[index - 1] == 0x0f && t[index - 2] & 0x40 != 0 {
      SkipIsExact(cell, index);
      index := index - 1;
      Signed(t[index - 1]);
    }
    while index > 1 && t[index - 1] == 0x7f && t[index - 2] & 0x40 != 0
      invariant 1 <= index <= ENC_MAX && Fits(cell, index)
      invariant index > 1 ==> !(t[index - 1] == 0 && t[index - 2] & 0x40 == 0)
      invariant index == ENC_MAX ==> !(t[index - 1] == 0x0f && t[index - 2] & 0x40 != 0)
    {
      SkipIsExact(cell, index);
      index := index - 1;
      Signed(t[index - 1]);
    }
    if index > 1 {
      SkipIsExact(cell, index);
    }
    LeastIsSize(cell, index);
    assert t[..index] == PiecesFor(cell, index);
    FitsDecodes(cell, index);
    g := WriteGroup(t, index);
  }

  lemma Signed(b: bv8)
    ensures b & 0x40 != 0 ==> b != 0
  {
  }

  lemma FiveFit(cell: bv32)
    ensures Fits(cell, 5)
  {
  }

  lemma LeastIsSize(cell: bv32, k: nat)
    requires 1 <= k <= 5 && Fits(cell, k) && (k > 1 ==> !Fits(cell, k - 1))
    ensures Size(cell) == k
  {
    hide Fits;
    var n := Size(cell);
    if n < k {
      FitsUpTo(cell, n, k - 1);
    }
  }

  lemma {:induction false} FitsUpTo(cell: bv32, j: nat, k: nat)
    requires 1 <= j <= k <= 5 && Fits(cell, j)
    ensures Fits(cell, k)
    decreases k - j
  {
    hide Fits;
    if j < k {
      FitsMore(cell, j);
      FitsUpTo(cell, j + 1, k);
    }
  }

  /** No group for the cell is shorter. */
  lemma GroupIsShortest(cell: bv32, g: Bytes)
    requires IsGroup(g) && CellOf(g) == cell
    ensures |Group(cell)| <= |g|
  {
    hide Fits;
    GroupFits(g);
    FitsDecodes(cell, Size(cell));
  }

  /** What a group decodes to fits in its pieces. */
  lemma GroupFits(g: Bytes)
    requires IsGroup(g)
    ensures Fits(CellOf(g), |g|)
  {
    hide Fold, Payload, Accumulate, SignOf, Or, Shl, Shr, Low7;
    var k := |g|;
    var sign := SignOf(g[0]);
    var bits := Accumulate(g);
    SignValues(g[0]);
    SignIs(g[0]);
    FoldAccumulate(sign, g);
    Narrow(g);
    if k == 5 {
      FiveFit(CellOf(g));
    } else {
      ShrOr(sign, bits, k);
      TopPiece(sign, g);
    }
  }

  lemma SignIs(b: bv8)
    ensures SignOf(b) == if b & 0x40 != 0 then 0xffff_ffff else 0
  {
  }

  /** The bits of `k` pieces leave nothing above them. */
  lemma {:induction false} Narrow(g: Bytes)
    requires |g| <= 5
    ensures Shr(Accumulate(g), |g|) == 0
  {
    hide Payload, Shr, Shl, Or;
    if g != [] {
      Narrow(g[1..]);
      NarrowStep(Accumulate(g[1..]), g[0], |g| - 1);
    } else {
      NoBits();
    }
  }

  lemma NoBits()
    ensures Shr(0, 0) == 0
  {
  }

  lemma NarrowStep(v: bv32, b: bv8, k: nat)
    requires k <= 4 && Shr(v, k) == 0
    ensures Shr(Or(v, Shl(Payload(b), k)), k + 1) == 0
    ensures k < 4 ==> Low7(Shr(Or(v, Shl(Payload(b), k)), k)) & 0x40 == b & 0x40
  {
    match k
    case 0 =>
    case 1 =>
    case 2 =>
    case 3 =>
    case 4 =>
  }

  lemma ShrOr(sign: bv32, bits: bv32, k: nat)
    requires 1 <= k <= 4 && Shr(bits, k) == 0 && (sign == 0 || sign == 0xffff_ffff)
    ensures Shr(Or(Shl(sign, k), bits), k) == Shr(sign, k)
    ensures Low7(Shr(Or(Shl(sign, k), bits), k - 1)) & 0x40 == Low7(Shr(bits, k - 1)) & 0x40
  {
    hide Shr, Shl, Or, Low7;
    if sign == 0 {
      ShlZero(bits);
      ShrZero(k);
    } else {
      match k
      case 1 => OverOne(bits);
      case 2 => OverTwo(bits);
      case 3 => OverThree(bits);
      case 4 => OverFour(bits);
    }
  }

  lemma ShrZero(k: nat)
    ensures Shr(0, k) == 0
  {
  }

  lemma OverOne(bits: bv32)
    requires Shr(bits, 1) == 0
    ensures Shr(Or(Shl(0xffff_ffff, 1), bits), 1) == Shr(0xffff_ffff, 1)
    ensures Low7(Shr(Or(Shl(0xffff_ffff, 1), bits), 0)) & 0x40 == Low7(Shr(bits, 0)) & 0x40
  {
  }

  lemma OverTwo(bits: bv32)
    requires Shr(bits, 2) == 0
    ensures Shr(Or(Shl(0xffff_ffff, 2), bits), 2) == Shr(0xffff_ffff, 2)
    ensures Low7(Shr(Or(Shl(0xffff_ffff, 2), bits), 1)) & 0x40 == Low7(Shr(bits, 1)) & 0x40
  {
  }

  lemma OverThree(bits: bv32)
    requires Shr(bits, 3) == 0
    ensures Shr(Or(Shl(0xffff_ffff, 3), bits), 3) == Shr(0xffff_ffff, 3)
    ensures Low7(Shr(Or(Shl(0xffff_ffff, 3), bits), 2)) & 0x40 == Low7(Shr(bits, 2)) & 0x40
  {
  }

  lemma OverFour(bits: bv32)
    requires Shr(bits, 4) == 0
    ensures Shr(Or(Shl(0xffff_ffff, 4), bits), 4) == Shr(0xffff_ffff, 4)
    ensures Low7(Shr(Or(Shl(0xffff_ffff, 4), bits), 3)) & 0x40 == Low7(Shr(bits, 3)) & 0x40
  {
  }

  lemma TopPiece(sign: bv32, g: Bytes)
    requires 1 <= |g| <= 4 && sign == SignOf(g[0])
    ensures SignOf(Low7(Shr(Or(Shl(sign, |g|), Accumulate(g)), |g| - 1))) == sign
  {
    hide Payload, Shr, Shl, Or, Low7;
    Narrow(g);
    Narrow(g[1..]);
    NarrowStep(Accumulate(g[1..]), g[0], |g| - 1);
    ShrOr(sign, Accumulate(g), |g|);
  }

  /** Writes pieces `index - 1` down to 0, high piece first. */
  method WriteGroup(t: Bytes, index: nat) returns (g: Bytes)
    requires 1 <= index <= |t|
    ensures g == Written(t[..index])
  {
    g := [];
    var i := index;
    while i > 0
      invariant 0 <= i <= index
      invariant i > 0 ==> g + Written(t[..i]) == Written(t[..index])
      invariant i == 0 ==> g == Written(t[..index])
    {
      i := i - 1;
      ghost var t' := t[..i + 1];
      assert i > 0 ==> t'[..i] == t[..i];
      g := g + [if i == 0 then t[i] else Marked(t[i])];
    }
  }

  // ------------------------------------------------------------ whole images

  /** Appending a group appends it to the cut. */
  lemma {:induction false} GroupsSnoc(s: Bytes, g: Bytes)
    requires Complete(Groups(s)) && IsGroup(g)
    ensures Groups(s + g) == Groups(s) + [g]
    decreases s
  {
    hide IsGroup, Complete, GroupLength;
    if s == [] {
      GroupsCons(g, []);
      assert s + g == g + [];
    } else {
      var first, rest := Groups(s)[0], s[GroupLength(s)..];
      CompleteTail(Groups(s));
      assert Groups(s) == [first] + Groups(rest);
      GroupsSnoc(rest, g);
      GroupsCons(first, rest + g);
      assert s + g == first + (rest + g);
    }
  }

  lemma GroupsCons(g: Bytes, rest: Bytes)
    requires IsGroup(g)
    ensures Groups(g + rest) == [g] + Groups(rest)
  {
    WholeGroup(g, rest);
    assert (g + rest)[..|g|] == g && (g + rest)[|g|..] == rest;
  }

  lemma CompleteTail(gs: seq<Bytes>)
    requires Complete(gs) && gs != []
    ensures Complete(gs[1..]) && IsGroup(gs[0])
  {
    var rest := gs[1..];
    assert forall k | 0 <= k < |rest| :: rest[k] == gs[k + 1];
  }

  /** A group at the front of a stream is cut off whole. */
  lemma {:induction false} WholeGroup(g: Bytes, rest: Bytes)
    requires g != [] && !Continued(g[|g| - 1]) && forall i | 0 <= i < |g| - 1 :: Continued(g[i])
    ensures GroupLength(g + rest) == |g|
    decreases g
  {
    if |g| > 1 {
      assert (g + rest)[1..] == g[1..] + rest;
      WholeGroup(g[1..], rest);
    }
  }

  lemma {:induction false} StartSnoc(gs: seq<Bytes>, g: Bytes, k: nat)
    requires k <= |gs|
    ensures Start(gs + [g], k) == Start(gs, k)
  {
    if k > 0 {
      StartSnoc(gs, g, k - 1);
    }
  }

  /** The output outgrew the cells by less than the writer's limit at every cell. */
  predicate Tight(gs: seq<Bytes>) {
    forall k | 0 <= k <= |gs| :: Start(gs, k) < CELL * k + MARGIN - 2
  }

  lemma TightSnoc(gs: seq<Bytes>, g: Bytes)
    requires Tight(gs) && Start(gs, |gs|) + |g| < CELL * (|gs| + 1) + MARGIN - 2
    ensures Tight(gs + [g])
  {
    forall k | 0 <= k <= |gs| + 1 ensures Start(gs + [g], k) < CELL * k + MARGIN - 2 {
      if k <= |gs| {
        StartSnoc(gs, g, k);
      } else {
        StartSnoc(gs, g, |gs|);
      }
    }
  }

  /** What the cells are written as. */
  function Output(cells: seq<bv32>): Bytes {
    if cells == [] then [] else Output(cells[..|cells| - 1]) + Group(cells[|cells| - 1])
  }

  /** After some number of cells the output runs ahead of the input so far that the
      loader's ring might not absorb it. */
  predicate RunsAhead(cells: seq<bv32>) {
    exists k | 0 <= k <= |cells| :: |Output(cells[..k])| >= CELL * k + MARGIN - 2
  }

  /** Writes the cells; gives up exactly when the output runs ahead. */
  method WriteEncoded(cells: seq<bv32>) returns (out: Option<Bytes>)
    ensures out == if RunsAhead(cells) then None else Some(Output(cells))
    ensures out.Some? ==>
              var gs := Groups(out.value);
              Complete(gs) && |gs| == |cells| && Cells(gs) == cells && WithinMargin(gs)
  {
    hide IsGroup, CellOf, Complete, Groups, Tight, Cells, Start, Group;
    var bytes: Bytes := [];
    var bytesIn := 0;
    ghost var gs: seq<Bytes> := [];
    NothingWritten();
    for i := 0 to |cells|
      invariant Complete(gs) && Groups(bytes) == gs && |gs| == i && Tight(gs)
      invariant Cells(gs) == cells[..i] && bytesIn == CELL * i && |bytes| == Start(gs, |gs|)
      invariant bytes == Output(cells[..i])
      invariant forall k | 0 <= k <= i :: |Output(cells[..k])| < CELL * k + MARGIN - 2
    {
      var g := Encode(cells[i]);
      bytesIn := bytesIn + CELL;
      GroupsSnoc(bytes, g);
      OneMore(gs, g);
      bytes := bytes + g;
      assert cells[..i + 1] == cells[..i] + [cells[i]];
      assert bytes == Output(cells[..i + 1]);
      if |bytes| - bytesIn >= MARGIN - 2 {
        return None;
      }
      TightSnoc(gs, g);
      gs := gs + [g];
    }
    assert cells[..|cells|] == cells;
    TightFits(gs);
    out := Some(bytes);
  }

  lemma NothingWritten()
    ensures Groups([]) == [] && Complete([]) && Cells([]) == [] && Tight([]) && Start([], 0) == 0
  {
  }

  lemma OneMore(gs: seq<Bytes>, g: Bytes)
    requires Complete(gs) && IsGroup(g)
    ensures Complete(gs + [g]) && Cells(gs + [g]) == Cells(gs) + [CellOf(g)]
    ensures Start(gs + [g], |gs + [g]|) == Start(gs, |gs|) + |g|
  {
    hide CellOf, IsGroup;
    StartSnoc(gs, g, |gs|);
    var all := gs + [g];
    assert forall k | 0 <= k < |all| :: IsGroup(all[k]);
  }

  /** The writer's limit keeps the loader's ring from overflowing. */
  lemma TightFits(gs: seq<Bytes>)
    requires Tight(gs)
    ensures WithinMargin(gs)
  {
    forall k | 0 <= k < |gs| ensures RoomAt(gs, k) {
      assert Start(gs, k) < CELL * k + MARGIN - 2;
    }
  }

  /** The image that the loader expands in place is the one the compiler had, and it is
      written in compact form unless the output runs ahead. */
  method SaveAndLoad(cells: seq<bv32>) returns (memory: Option<Bytes>)
    ensures memory == if RunsAhead(cells) then None else Some(Memory(cells))
  {
    hide Complete, Cells, Groups, WithinMargin, Memory, Decode, RunsAhead, Output;
    var out := WriteEncoded(cells);
    match out
    case None => memory := None;
    case Some(bytes) =>
      var memsize := CELL * |cells|;
      var code := new bv8[|bytes| + memsize];
      for i := 0 to |bytes|
        invariant code[..i] == bytes[..i]
      {
        code[i] := bytes[i];
      }
      assert code[..|bytes|] == bytes;
      DecodeGroups(bytes);
      Expand(code, |bytes|, memsize);
      memory := Some(code[..memsize]);
  }
}
