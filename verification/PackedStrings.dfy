/** Strings in the plugin's memory: one character a cell, or four to a cell with the
    first one in the high byte. The memory is a little-endian byte array. */
module PackedStrings {
  import opened Wrappers

  type Bytes = seq<bv8>

  const UNPACKEDMAX: bv32 := 0xff_ffff

  function CellOf(b0: bv8, b1: bv8, b2: bv8, b3: bv8): bv32 {
    (b0 as bv32) | ((b1 as bv32) << 8) | ((b2 as bv32) << 16) | ((b3 as bv32) << 24)
  }

  /** The cell at index `k`. */
  function CellAt(mem: Bytes, k: nat): bv32
    requires 4 * k + 4 <= |mem|
  {
    CellOf(mem[4 * k], mem[4 * k + 1], mem[4 * k + 2], mem[4 * k + 3])
  }

  /** The low byte of a cell shifted right by `i` bytes. */
  function Shifted(c: bv32, i: nat): bv8
    requires i < 4
  {
    match i
    case 0 => (c & 0xff) as bv8
    case 1 => ((c >> 8) & 0xff) as bv8
    case 2 => ((c >> 16) & 0xff) as bv8
    case _ => ((c >> 24) & 0xff) as bv8
  }

  lemma ShiftedByte(mem: Bytes, k: nat, i: nat)
    requires 4 * k + 4 <= |mem| && i < 4
    ensures Shifted(CellAt(mem, k), i) == mem[4 * k + i]
  {
    BytesOf(mem[4 * k], mem[4 * k + 1], mem[4 * k + 2], mem[4 * k + 3]);
  }

  lemma BytesOf(b0: bv8, b1: bv8, b2: bv8, b3: bv8)
    ensures Shifted(CellOf(b0, b1, b2, b3), 0) == b0 && Shifted(CellOf(b0, b1, b2, b3), 1) == b1
    ensures Shifted(CellOf(b0, b1, b2, b3), 2) == b2 && Shifted(CellOf(b0, b1, b2, b3), 3) == b3
  {
  }

  /** A cell is above the unpacked range exactly when its high byte is set. */
  lemma HighByte(b0: bv8, b1: bv8, b2: bv8, b3: bv8)
    ensures CellOf(b0, b1, b2, b3) > UNPACKEDMAX <==> b3 != 0
  {
  }

  /** A string that a C string can hold. */
  predicate Text(s: Bytes) {
    0 !in s
  }

  /** Where character `i` of a packed string lies. */
  function Place(i: nat): nat {
    4 * (i / 4) + (3 - i % 4)
  }

  /** The bytes that the cells of a packed string take. */
  function Extent(n: nat): nat {
    4 * (n / 4) + 4
  }

  /** Character `i` of a packed string: past its end, the zeros that fill the last cell. */
  function Letter(s: Bytes, i: nat): bv8 {
    if i < |s| then s[i] else 0
  }

  /** `mem` holds `s`, packed. */
  predicate Packed(mem: Bytes, s: Bytes) {
    Extent(|s|) <= |mem| && forall i {:trigger Letter(s, i)} | 0 <= i < Extent(|s|) :: mem[Place(i)] == Letter(s, i)
  }

  /** A character as a cell: `char` is signed, so bytes from 0x80 on become negative. */
  function Widened(c: bv8): bv32 {
    if c >= 0x80 then 0xffff_ff00 | (c as bv32) else c as bv32
  }

  /** `mem` holds `s`, a character to a cell, and a zero cell. */
  predicate Unpacked(mem: Bytes, s: Bytes) {
    && 4 * |s| + 4 <= |mem|
    && (forall i | 0 <= i < |s| :: CellAt(mem, i) == Widened(s[i]))
    && CellAt(mem, |s|) == 0
  }

  // ----------------------------------------------------- what the readers see

  /** The characters of `s` in the bytes of cells, and a zero behind them. */
  predicate InBytes(mem: Bytes, s: Bytes) {
    && Extent(|s|) <= |mem| && mem[Place(|s|)] == 0
    && forall i {:trigger s[i]} | 0 <= i < |s| :: mem[Place(i)] == s[i]
  }

  /** The characters of `s` in the low bytes of cells that are not zero, and a zero cell. */
  predicate InCells(mem: Bytes, s: Bytes) {
    && 4 * |s| + 4 <= |mem| && CellAt(mem, |s|) == 0
    && forall i {:trigger s[i]} | 0 <= i < |s| :: CellAt(mem, i) != 0 && Shifted(CellAt(mem, i), 0) == s[i]
  }

  /** The readers take `mem` for `s`: they tell by the first cell how to read it. */
  predicate Seen(mem: Bytes, s: Bytes) {
    |mem| >= 4 && if CellAt(mem, 0) > UNPACKEDMAX then InBytes(mem, s) else InCells(mem, s)
  }

  // ------------------------------------------------------------------ writing

  lemma PlaceInside(i: nat, n: nat)
    requires i < Extent(n)
    ensures 0 <= Place(i) < Extent(n)
  {
  }

  method SwapCell(mem: array<bv8>, k: nat)
    requires 4 * k + 4 <= mem.Length
    modifies mem
    ensures forall j | 0 <= j < mem.Length ::
              mem[j] == if 4 * k <= j < 4 * k + 4 then old(mem[8 * k + 3 - j]) else old(mem[j])
  {
    mem[4 * k], mem[4 * k + 3] := mem[4 * k + 3], mem[4 * k];
    mem[4 * k + 1], mem[4 * k + 2] := mem[4 * k + 2], mem[4 * k + 1];
  }

  /** Swap the cells up to `last`, from the last one down. */
  method SwapCells(mem: array<bv8>, last: nat)
    requires 4 * last + 4 <= mem.Length
    modifies mem
    ensures forall i {:trigger Place(i)} | 0 <= i < 4 * last + 4 :: mem[Place(i)] == old(mem[i])
  {
    var k := last;
    while k >= 0
      invariant -1 <= k <= last
      invariant forall j | 0 <= j < 4 * (k + 1) :: mem[j] == old(mem[j])
      invariant forall i {:trigger Place(i)} | 4 * (k + 1) <= i < 4 * last + 4 :: mem[Place(i)] == old(mem[i])
      modifies mem
    {
      SwapCell(mem, k);
      k := k - 1;
    }
  }

  method StoreCell(mem: array<bv8>, k: nat, c: bv8)
    requires 4 * k + 4 <= mem.Length
    modifies mem
    ensures var high := if c >= 0x80 then 0xff else 0;
            mem[4 * k] == c && mem[4 * k + 1] == high && mem[4 * k + 2] == high && mem[4 * k + 3] == high
    ensures CellAt(mem[..], k) == Widened(c)
    ensures forall j | 0 <= j < mem.Length && !(4 * k <= j < 4 * k + 4) :: mem[j] == old(mem[j])
  {
    var high := if c >= 0x80 then 0xff else 0;
    mem[4 * k], mem[4 * k + 1], mem[4 * k + 2], mem[4 * k + 3] := c, high, high, high;
    WideCell(c);
  }

  lemma WideCell(c: bv8)
    ensures CellOf(c, if c >= 0x80 then 0xff else 0, if c >= 0x80 then 0xff else 0, if c >= 0x80 then 0xff else 0) == Widened(c)
  {
  }

  /** What fits of a string into `size` cells, or all of it when there is no limit. */
  function Cut(s: Bytes, pack: bool, size: Option<nat>): Bytes
    requires size.Some? ==> size.value > 0
  {
    var room := if size.None? then |s| else if pack then 4 * size.value - 1 else size.value - 1;
    if |s| <= room then s else s[..room]
  }

  /** `amx_SetString`, packing: the characters are copied and the cells swapped. */
  method SetPacked(dest: array<bv8>, source: Bytes, size: Option<nat>)
    requires size.Some? ==> size.value > 0
    requires Extent(|Cut(source, true, size)|) <= dest.Length
    modifies dest
    ensures Packed(dest[..], Cut(source, true, size))
  {
    hide CellAt, Place;
    var len := |source|;
    if size.Some? && len >= 4 * size.value {
      len := 4 * size.value - 1;
    }
    ghost var s := Cut(source, true, size);
    assert s == source[..len];
    StoreCell(dest, len / 4, 0);
    var i := 0;
    while i < len
      invariant 0 <= i <= len && forall j | 0 <= j < i :: dest[j] == source[j]
      invariant forall j | i <= j < Extent(len) && 4 * (len / 4) <= j :: dest[j] == 0
      modifies dest
    {
      dest[i] := source[i];
      i := i + 1;
    }
    assert forall j | 0 <= j < Extent(len) :: dest[j] == Letter(s, j);
    SwapCells(dest, len / 4);
    forall j {:trigger Letter(s, j)} | 0 <= j < Extent(len)
      ensures Place(j) < Extent(len) && dest[..][Place(j)] == Letter(s, j)
    {
      PlaceInside(j, len);
    }
  }

  /** `amx_SetString`, not packing. */
  method SetUnpacked(dest: array<bv8>, source: Bytes, size: Option<nat>)
    requires size.Some? ==> size.value > 0
    requires 4 * |Cut(source, false, size)| + 4 <= dest.Length
    modifies dest
    ensures Unpacked(dest[..], Cut(source, false, size))
  {
    hide CellOf, Widened;
    var len := |source|;
    if size.Some? && len >= size.value {
      len := size.value - 1;
    }
    ghost var s := Cut(source, false, size);
    assert s == source[..len];
    var i := 0;
    while i < len
      invariant 0 <= i <= len && forall j | 0 <= j < i :: CellAt(dest[..], j) == Widened(s[j])
      modifies dest
    {
      StoreCell(dest, i, source[i]);
      i := i + 1;
    }
    StoreCell(dest, len, 0);
    ZeroIsZero();
  }

  lemma ZeroIsZero()
    ensures Widened(0) == 0
  {
  }

  // ------------------------------------------------------------------ reading

  /** The first zero byte at or after `from`. */
  method StrLen(mem: Bytes) returns (n: nat)
    requires 0 in mem
    ensures n < |mem| && mem[n] == 0 && forall j | 0 <= j < n :: mem[j] != 0
  {
    n := 0;
    while mem[n] != 0
      invariant n < |mem| && forall j | 0 <= j < n :: mem[j] != 0
      decreases |mem| - n
    {
      n := n + 1;
    }
  }

  /** In memory order, a text in bytes has its first zero in its last cell. */
  lemma FirstZero(mem: Bytes, s: Bytes)
    requires InBytes(mem, s) && Text(s)
    ensures forall j | 0 <= j < 4 * (|s| / 4) :: mem[j] != 0
    ensures 4 * (|s| / 4) <= Place(|s|) < 4 * (|s| / 4) + 4 <= |mem| && mem[Place(|s|)] == 0
  {
    forall j | 0 <= j < 4 * (|s| / 4) ensures mem[j] != 0 {
      assert Place(Place(j)) == j && s[Place(j)] in s;
    }
  }

  function Up8(c: bv32): bv32 {
    c << 8
  }

  function HighBits(c: bv32): bv32 {
    c & 0xff00_0000
  }

  lemma Up8Shifts(c: bv32)
    ensures Shifted(Up8(c), 0) == 0 && Shifted(Up8(c), 1) == Shifted(c, 0)
    ensures Shifted(Up8(c), 2) == Shifted(c, 1) && Shifted(Up8(c), 3) == Shifted(c, 2)
    ensures HighBits(c) != 0 <==> Shifted(c, 3) != 0
  {
  }

  /** Character `i` of a text in bytes is a byte of cell `i / 4`. */
  lemma LetterByte(mem: Bytes, s: Bytes, i: nat)
    requires InBytes(mem, s) && i <= |s|
    ensures 4 * (i / 4) + 4 <= |mem|
    ensures Shifted(CellAt(mem, i / 4), 3 - i % 4) == Letter(s, i)
  {
    ShiftedByte(mem, i / 4, 3 - i % 4);
    assert i < |s| ==> mem[Place(i)] == s[i];
  }

  /** What is left of a cell after `r` of its bytes have been shifted out. */
  predicate Tail(c: bv32, cell: bv32, r: nat) {
    forall q {:trigger Shifted(c, q)} | 0 <= q < 4 :: Shifted(c, q) == if q >= r then Shifted(cell, q - r) else 0
  }

  lemma TailStart(cell: bv32)
    ensures Tail(cell, cell, 0)
  {
  }

  lemma TailNext(c: bv32, cell: bv32, r: nat)
    requires Tail(c, cell, r) && r < 4
    ensures Tail(Up8(c), cell, r + 1)
    ensures HighBits(c) != 0 <==> Shifted(cell, 3 - r) != 0
  {
    hide Up8, HighBits, Shifted;
    Up8Shifts(c);
    assert Shifted(c, 3) == Shifted(cell, 3 - r);
    assert r <= 2 ==> Shifted(c, 2) == Shifted(cell, 2 - r);
    assert r <= 1 ==> Shifted(c, 1) == Shifted(cell, 1 - r);
    assert r <= 0 ==> Shifted(c, 0) == Shifted(cell, 0 - r);
  }

  lemma CellInside(mem: Bytes, s: Bytes, i: nat)
    requires InCells(mem, s) && i <= |s|
    ensures 4 * i + 4 <= |mem| && (CellAt(mem, i) == 0 <==> i == |s|)
    ensures i < |s| ==> Shifted(CellAt(mem, i), 0) == s[i]
  {
    if i < |s| {
      var c := s[i];
      assert CellAt(mem, i) != 0 && Shifted(CellAt(mem, i), 0) == c;
    }
  }

  /** The length of a text in bytes: the last cell is searched for its end from the high
      byte down. */
  method LenOfBytes(mem: Bytes, ghost s: Bytes) returns (len: nat)
    requires Text(s) && InBytes(mem, s)
    ensures len == |s|
  {
    hide CellAt, Shifted, Up8, HighBits, Place, InBytes, Extent, Tail, Letter;
    FirstZero(mem, s);
    NoZeros(s);
    len := StrLen(mem);
    var c := CellAt(mem, len / 4);
    ghost var cell := c;
    len := len - len % 4;
    ghost var r := 0;
    LetterByte(mem, s, len);
    TailStart(cell);
    TailNext(c, cell, 0);
    while HighBits(c) != 0
      invariant 0 <= r < 4 && len == 4 * (|s| / 4) + r && len <= |s| && Tail(c, cell, r)
      invariant HighBits(c) != 0 <==> Letter(s, len) != 0
      decreases 4 - r
    {
      LetterEnds(s, len);
      TailNext(c, cell, r);
      c := Up8(c);
      len, r := len + 1, r + 1;
      LetterByte(mem, s, len);
      TailNext(c, cell, r);
    }
    LetterEnds(s, len);
  }

  lemma LetterEnds(s: Bytes, i: nat)
    requires Text(s) && i <= |s|
    ensures Letter(s, i) != 0 <==> i < |s|
  {
    NoZeros(s);
  }

  /** `amx_StrLen`: the length of the text that the memory is taken for. */
  method AmxStrLen(mem: Bytes, ghost s: Bytes) returns (len: nat)
    requires Text(s) && Seen(mem, s)
    ensures len == |s|
  {
    hide CellAt, InBytes, InCells;
    if CellAt(mem, 0) > UNPACKEDMAX {
      len := LenOfBytes(mem, s);
    } else {
      len := 0;
      CellInside(mem, s, 0);
      while CellAt(mem, len) != 0
        invariant len <= |s| && 4 * len + 4 <= |mem| && (CellAt(mem, len) == 0 <==> len == |s|)
        decreases |s| - len
      {
        len := len + 1;
        CellInside(mem, s, len);
      }
    }
  }

  /** The C string that `n` bytes of room leave of a text. */
  predicate Got(dest: Bytes, s: Bytes, size: nat) {
    size > 0 ==>
      var n := if |s| < size then |s| else size - 1;
      n < |dest| && dest[..n] == s[..n] && dest[n] == 0
  }

  lemma NoZeros(s: Bytes)
    requires Text(s)
    ensures forall i | 0 <= i < |s| :: s[i] != 0
  {
    forall i | 0 <= i < |s| ensures s[i] != 0 {
      assert s[i] in s;
    }
  }

  lemma CountStep(len: nat)
    ensures (3 - len % 4 + 3) % 4 == 3 - (len + 1) % 4
    ensures (len + 1 + 3) / 4 == len / 4 + 1
    ensures (len + 3) / 4 == if len % 4 == 0 then len / 4 else len / 4 + 1
    ensures (len + 1) % 4 != 0 ==> (len + 1) / 4 == len / 4
  {
  }

  /** `amx_GetString`, from bytes. */
  method GetPacked(dest: array<bv8>, mem: Bytes, size: nat, ghost s: Bytes) returns (len: nat)
    requires Text(s) && InBytes(mem, s) && size <= dest.Length
    modifies dest
    ensures len <= size && len <= |s| + 1
    ensures forall j | 0 <= j < len :: dest[j] == Letter(s, j)
    ensures len == size || len == |s| + 1
  {
    hide CellAt, Shifted, Place, InBytes, Extent;
    len := 0;
    LetterByte(mem, s, 0);
    NoZeros(s);
    var source, c: bv32, i := 0, 0, 3;
    while len < size
      invariant len <= size && len <= |s| && i == 3 - len % 4 && 4 * (len / 4) + 4 <= |mem|
      invariant source == (len + 3) / 4 && (len % 4 != 0 ==> c == CellAt(mem, len / 4))
      invariant forall j | 0 <= j < len :: dest[j] == Letter(s, j)
      modifies dest
    {
      CountStep(len);
      LetterByte(mem, s, len);
      if i == 3 {
        c := CellAt(mem, source);
        source := source + 1;
      }
      dest[len] := Shifted(c, i);
      len := len + 1;
      if dest[len - 1] == 0 {
        return;
      }
      LetterByte(mem, s, len);
      i := (i + 3) % 4;
    }
  }

  /** `amx_GetString`: the text that the memory is taken for, cut to the room there is, and
      a terminator. */
  method GetString(dest: array<bv8>, mem: Bytes, size: nat, ghost s: Bytes)
    requires Text(s) && Seen(mem, s) && size <= dest.Length
    modifies dest
    ensures Got(dest[..], s, size)
  {
    hide CellAt, Shifted, Place, InBytes, InCells;
    var len: int := 0;
    if CellAt(mem, 0) > UNPACKEDMAX {
      len := GetPacked(dest, mem, size, s);
    } else {
      CellInside(mem, s, 0);
      while CellAt(mem, len) != 0 && len < size
        invariant 0 <= len <= size && len <= |s|
        invariant 4 * len + 4 <= |mem| && (CellAt(mem, len) == 0 <==> len == |s|)
        invariant forall j | 0 <= j < len :: dest[j] == Letter(s, j)
        decreases size - len
        modifies dest
      {
        CellInside(mem, s, len);
        dest[len] := Shifted(CellAt(mem, len), 0);
        len := len + 1;
        CellInside(mem, s, len);
      }
    }
    if len >= size {
      len := size - 1;
    }
    if len >= 0 {
      dest[len] := 0;
    }
  }

  // ------------------------------------------------------- writing and reading

  /** A packed text is seen as itself. */
  lemma PackedSeen(mem: Bytes, s: Bytes)
    requires Packed(mem, s) && Text(s)
    ensures Seen(mem, s)
  {
    assert Letter(s, |s|) == 0;
    forall i {:trigger s[i]} | 0 <= i < |s| ensures mem[Place(i)] == s[i] {
      assert Letter(s, i) == s[i];
    }
    HighByte(mem[0], mem[1], mem[2], mem[3]);
    assert Place(0) == 3 && mem[3] == Letter(s, 0);
    if s == [] {
      assert Letter(s, 1) == 0 && Letter(s, 2) == 0 && Letter(s, 3) == 0;
      assert mem[Place(1)] == 0 && mem[Place(2)] == 0 && mem[Place(3)] == 0;
      ZeroCell();
    } else {
      assert s[0] in s;
    }
  }

  lemma ZeroCell()
    ensures CellOf(0, 0, 0, 0) == 0
  {
  }

  /** How many characters from 0x80 on the text begins with. */
  function Leading(s: Bytes): (h: nat)
    ensures h <= |s| && (h < |s| ==> s[h] < 0x80) && forall i | 0 <= i < h :: s[i] >= 0x80
  {
    if s == [] || s[0] < 0x80 then 0
    else
      assert forall i | 1 <= i < |s| :: s[i] == s[1..][i - 1];
      1 + Leading(s[1..])
  }

  /** The first `h` cells of an unpacked text, read as bytes. */
  function Misread(s: Bytes, h: nat): (r: Bytes)
    requires h <= |s|
    ensures |r| == 4 * h
    ensures forall i | 0 <= i < 4 * h :: r[i] == if i % 4 == 3 then s[i / 4] else 0xff
  {
    seq(4 * h, i requires 0 <= i < 4 * h => if i % 4 == 3 then s[i / 4] else 0xff)
  }

  /** What an unpacked text is seen as: itself, unless its first character is negative;
      then its cells are taken for packed ones. */
  function SeenAs(s: Bytes): Bytes {
    if s == [] || s[0] < 0x80 then s else Misread(s, Leading(s))
  }

  lemma WideBytes(c: bv8)
    ensures Shifted(Widened(c), 0) == c && (Widened(c) > UNPACKEDMAX <==> c >= 0x80) && (Widened(c) == 0 <==> c == 0)
    ensures c >= 0x80 ==> Shifted(Widened(c), 1) == 0xff && Shifted(Widened(c), 2) == 0xff && Shifted(Widened(c), 3) == 0xff
    ensures c < 0x80 ==> Shifted(Widened(c), 3) == 0
  {
  }

  lemma UnpackedSeen(mem: Bytes, s: Bytes)
    requires Unpacked(mem, s) && Text(s)
    ensures Seen(mem, SeenAs(s)) && Text(SeenAs(s))
  {
    hide CellAt, Shifted, Widened;
    NoZeros(s);
    if s != [] {
      WideBytes(s[0]);
    }
    if s == [] || s[0] < 0x80 {
      forall i {:trigger s[i]} | 0 <= i < |s| ensures CellAt(mem, i) != 0 && Shifted(CellAt(mem, i), 0) == s[i] {
        WideBytes(s[i]);
      }
    } else {
      MisreadSeen(mem, s);
    }
  }

  lemma MisreadSeen(mem: Bytes, s: Bytes)
    requires Unpacked(mem, s) && Text(s) && s != []
    ensures InBytes(mem, Misread(s, Leading(s))) && Text(Misread(s, Leading(s)))
  {
    hide CellAt, Shifted, Widened;
    var h := Leading(s);
    var r := Misread(s, h);
    NoZeros(s);
    forall i {:trigger r[i]} | 0 <= i < 4 * h ensures mem[Place(i)] == r[i] {
      WideBytes(s[i / 4]);
      ShiftedByte(mem, i / 4, 3 - i % 4);
    }
    assert Place(4 * h) == 4 * h + 3;
    ShiftedByte(mem, h, 3);
    if h < |s| {
      WideBytes(s[h]);
    } else {
      ZeroIsZero();
      WideBytes(0);
    }
  }

  /** The text and its length come back right. */
  predicate Right(text: Bytes, back: Bytes, len: nat) {
    len == |text| && |back| > |text| && back[..|text|] == text && back[|text|] == 0
  }

  /** An unpacked text has the right length exactly if it does not begin with a negative
      character, or a quarter of it does; and it reads right exactly if it does not, or
      consists of the byte 0xff. Both cannot hold but in the first case. */
  lemma SeenExactly(text: Bytes, back: Bytes)
    requires Text(text) && |back| > |text| && Got(back, SeenAs(text), |text| + 1)
    ensures var plain := text == [] || text[0] < 0x80;
            && (|SeenAs(text)| == |text| <==> plain || |text| == 4 * Leading(text))
            && (back[..|text|] == text && back[|text|] == 0 <==> plain || forall i | 0 <= i < |text| :: text[i] == 0xff)
            && (Right(text, back, |SeenAs(text)|) <==> plain)
  {
    NoZeros(text);
    if text == [] || text[0] < 0x80 {
      assert back[..|text|] == text[..|text|] == text;
    } else {
      var h := Leading(text);
      var r := Misread(text, h);
      if back[..|text|] == text {
        AllOnes(text, back);
      }
      if forall i | 0 <= i < |text| :: text[i] == 0xff {
        assert h == |text|;
        assert forall i | 0 <= i < |text| :: back[..|text|][i] == r[..|text|][i] == text[i];
        assert back[..|text|] == text;
      }
    }
  }

  /** A misread text that reads right is all ones. */
  lemma AllOnes(text: Bytes, back: Bytes)
    requires Text(text) && text != [] && text[0] >= 0x80 && |back| > |text|
    requires Got(back, Misread(text, Leading(text)), |text| + 1) && back[..|text|] == text
    ensures forall i | 0 <= i < |text| :: text[i] == 0xff
  {
    NoZeros(text);
    var r := Misread(text, Leading(text));
    assert forall i | 0 <= i < |text| :: back[i] == back[..|text|][i] == text[i];
    assert |r| >= |text|;
    forall i | 0 <= i < |text| ensures text[i] == r[i] {
      assert back[..|text|][i] == text[i] && r[..|text|][i] == r[i];
    }
    ForallOnes(text, r, |text|);
  }

  lemma {:induction false} ForallOnes(text: Bytes, r: Bytes, n: nat)
    requires n <= |text| <= |r| && Leading(text) <= |text| && r == Misread(text, Leading(text))
    requires forall i | 0 <= i < |text| :: text[i] == r[i]
    ensures forall i | 0 <= i < n :: text[i] == 0xff
  {
    if n > 0 {
      ForallOnes(text, r, n - 1);
      assert text[n - 1] == r[n - 1];
    }
  }

  /** A text written into the plugin's memory and read back, with its length. Packed, it
      comes back right; unpacked, exactly if it does not begin with a character from 0x80
      on. */
  method RoundTrip(text: Bytes, pack: bool) returns (back: array<bv8>, len: nat)
    requires Text(text)
    ensures Right(text, back[..], len) <==> pack || text == [] || text[0] < 0x80
    ensures var seen := if pack then text else SeenAs(text); len == |seen| && Got(back[..], seen, |text| + 1)
  {
    hide CellAt, InBytes, InCells, Packed, Unpacked, Misread;
    var mem := new bv8[4 * |text| + 4];
    assert Cut(text, pack, None) == text;
    ghost var seen := text;
    if pack {
      SetPacked(mem, text, None);
      PackedSeen(mem[..], text);
    } else {
      SetUnpacked(mem, text, None);
      UnpackedSeen(mem[..], text);
      seen := SeenAs(text);
    }
    len := AmxStrLen(mem[..], seen);
    back := new bv8[|text| + 1];
    GetString(back, mem[..], |text| + 1, seen);
    assert text[..|text|] == text;
    if !pack {
      SeenExactly(text, back[..]);
    }
  }

  /** One character, 0xc3, written unpacked: its length is given as 4, and 0xff is read. */
  method ReadsAnother() returns (back: array<bv8>, len: nat)
    ensures len == 4 && back[..] == [0xff, 0]
  {
    var mem := new bv8[8];
    var text: Bytes := [0xc3];
    assert Cut(text, false, None) == text;
    SetUnpacked(mem, text, None);
    UnpackedSeen(mem[..], text);
    assert text[1..] == [] && Leading(text) == 1;
    len := AmxStrLen(mem[..], SeenAs(text));
    back := new bv8[2];
    GetString(back, mem[..], 2, SeenAs(text));
    assert back[..1][0] == 0xff;
  }
}
