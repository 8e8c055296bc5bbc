/** The `MD5` class: chunks of any size are buffered and compressed block by block. */
module Md5 {
  import opened Md5Spec

  /** The rotation as the source writes it. */
  function RotateLeft(x: bv32, n: nat): bv32
    requires 0 < n < 32
  {
    (x << n) | (x >> (32 - n))
  }

  /** What the four transformations share, given the value of their function. */
  function Turn(mix: bv32, a: bv32, b: bv32, x: bv32, s: nat, ac: bv32): bv32
    requires 0 < s < 32
  {
    Plus(RotateLeft(Plus(a, Plus(Plus(mix, x), ac)), s), b)
  }

  function FF(a: bv32, b: bv32, c: bv32, d: bv32, x: bv32, s: nat, ac: bv32): bv32
    requires 0 < s < 32
  {
    Turn(F(b, c, d), a, b, x, s, ac)
  }

  function GG(a: bv32, b: bv32, c: bv32, d: bv32, x: bv32, s: nat, ac: bv32): bv32
    requires 0 < s < 32
  {
    Turn(G(b, c, d), a, b, x, s, ac)
  }

  function HH(a: bv32, b: bv32, c: bv32, d: bv32, x: bv32, s: nat, ac: bv32): bv32
    requires 0 < s < 32
  {
    Turn(H(b, c, d), a, b, x, s, ac)
  }

  function II(a: bv32, b: bv32, c: bv32, d: bv32, x: bv32, s: nat, ac: bv32): bv32
    requires 0 < s < 32
  {
    Turn(I(b, c, d), a, b, x, s, ac)
  }

  /** The transformation of the round that operation `i` belongs to. */
  function Op(i: nat, a: bv32, b: bv32, c: bv32, d: bv32, x: bv32, s: nat, ac: bv32): bv32
    requires 0 < s < 32
  {
    if i < 16 then FF(a, b, c, d, x, s, ac) else if i < 32 then GG(a, b, c, d, x, s, ac)
    else if i < 48 then HH(a, b, c, d, x, s, ac) else II(a, b, c, d, x, s, ac)
  }

  lemma Rotations(x: bv32, s: nat)
    requires s in {4, 5, 6, 7, 9, 10, 11, 12, 14, 15, 16, 17, 20, 21, 22, 23}
    ensures RotateLeft(x, s) == Rotate(x, s)
  {
    if
    case s == 4 => assert (x << 4) | (x >> 28) == x.RotateLeft(4);
    case s == 5 => assert (x << 5) | (x >> 27) == x.RotateLeft(5);
    case s == 6 => assert (x << 6) | (x >> 26) == x.RotateLeft(6);
    case s == 7 => assert (x << 7) | (x >> 25) == x.RotateLeft(7);
    case s == 9 => assert (x << 9) | (x >> 23) == x.RotateLeft(9);
    case s == 10 => assert (x << 10) | (x >> 22) == x.RotateLeft(10);
    case s == 11 => assert (x << 11) | (x >> 21) == x.RotateLeft(11);
    case s == 12 => assert (x << 12) | (x >> 20) == x.RotateLeft(12);
    case s == 14 => assert (x << 14) | (x >> 18) == x.RotateLeft(14);
    case s == 15 => assert (x << 15) | (x >> 17) == x.RotateLeft(15);
    case s == 16 => assert (x << 16) | (x >> 16) == x.RotateLeft(16);
    case s == 17 => assert (x << 17) | (x >> 15) == x.RotateLeft(17);
    case s == 20 => assert (x << 20) | (x >> 12) == x.RotateLeft(20);
    case s == 21 => assert (x << 21) | (x >> 11) == x.RotateLeft(21);
    case s == 22 => assert (x << 22) | (x >> 10) == x.RotateLeft(22);
    case s == 23 => assert (x << 23) | (x >> 9) == x.RotateLeft(23);
  }

  /** The source's form of an operation computes the standard's. */
  lemma OpIsOperation(i: nat, st: State, x: seq<bv32>)
    requires i < 64 && |x| == 16
    ensures Operation(i, st, x) ==
            State(st.d, Op(i, st.a, st.b, st.c, st.d, x[WordIndex(i)], Rotation(i), T(i)), st.b, st.c)
  {
    hide T, WordIndex, Rotation, F, G, H, I, Turn, Update;
    var State(a, b, c, d) := st;
    RotationKnown(i);
    TurnIsUpdate(Mix(i, b, c, d), a, b, x[WordIndex(i)], Rotation(i), T(i));
  }

  lemma RotationKnown(i: nat)
    ensures Rotation(i) in {4, 5, 6, 7, 9, 10, 11, 12, 14, 15, 16, 17, 20, 21, 22, 23}
  {
  }

  lemma TurnIsUpdate(mix: bv32, a: bv32, b: bv32, w: bv32, s: nat, t: bv32)
    requires s in {4, 5, 6, 7, 9, 10, 11, 12, 14, 15, 16, 17, 20, 21, 22, 23}
    ensures Turn(mix, a, b, w, s, t) == Update(a, b, mix, w, t, s)
  {
    hide RotateLeft, Rotate, Plus;
    var sum := Plus(a, Plus(Plus(mix, w), t));
    Rotations(sum, s);
    PlusCommutes(Rotate(sum, s), b);
  }

  lemma PlusCommutes(x: bv32, y: bv32)
    ensures Plus(x, y) == Plus(y, x)
  {
  }

  /** Four operations in a row, each updating the register that comes next. */
  lemma Quad(i: nat, st: State, x: seq<bv32>, a: bv32, b: bv32, c: bv32, d: bv32)
    requires i < 61 && |x| == 16 && Rounds(st, x, i) == State(a, b, c, d)
    ensures var a1 := Op(i, a, b, c, d, x[WordIndex(i)], Rotation(i), T(i));
            var d1 := Op(i + 1, d, a1, b, c, x[WordIndex(i + 1)], Rotation(i + 1), T(i + 1));
            var c1 := Op(i + 2, c, d1, a1, b, x[WordIndex(i + 2)], Rotation(i + 2), T(i + 2));
            var b1 := Op(i + 3, b, c1, d1, a1, x[WordIndex(i + 3)], Rotation(i + 3), T(i + 3));
            Rounds(st, x, i + 4) == State(a1, b1, c1, d1)
  {
    hide T, WordIndex, Rotation, Op, Operation;
    OpIsOperation(i, Rounds(st, x, i), x);
    OpIsOperation(i + 1, Rounds(st, x, i + 1), x);
    OpIsOperation(i + 2, Rounds(st, x, i + 2), x);
    OpIsOperation(i + 3, Rounds(st, x, i + 3), x);
  }


  lemma QuadF(i: nat, st: State, x: seq<bv32>, a: bv32, b: bv32, c: bv32, d: bv32)
    requires 0 <= i <= 12 && |x| == 16 && Rounds(st, x, i) == State(a, b, c, d)
    ensures var a1 := FF(a, b, c, d, x[WordIndex(i)], Rotation(i), T(i));
            var d1 := FF(d, a1, b, c, x[WordIndex(i + 1)], Rotation(i + 1), T(i + 1));
            var c1 := FF(c, d1, a1, b, x[WordIndex(i + 2)], Rotation(i + 2), T(i + 2));
            var b1 := FF(b, c1, d1, a1, x[WordIndex(i + 3)], Rotation(i + 3), T(i + 3));
            Rounds(st, x, i + 4) == State(a1, b1, c1, d1)
  {
    hide T, WordIndex, Rotation, Rounds, FF, GG, HH, II;
    Quad(i, st, x, a, b, c, d);
  }

  lemma QuadG(i: nat, st: State, x: seq<bv32>, a: bv32, b: bv32, c: bv32, d: bv32)
    requires 16 <= i <= 28 && |x| == 16 && Rounds(st, x, i) == State(a, b, c, d)
    ensures var a1 := GG(a, b, c, d, x[WordIndex(i)], Rotation(i), T(i));
            var d1 := GG(d, a1, b, c, x[WordIndex(i + 1)], Rotation(i + 1), T(i + 1));
            var c1 := GG(c, d1, a1, b, x[WordIndex(i + 2)], Rotation(i + 2), T(i + 2));
            var b1 := GG(b, c1, d1, a1, x[WordIndex(i + 3)], Rotation(i + 3), T(i + 3));
            Rounds(st, x, i + 4) == State(a1, b1, c1, d1)
  {
    hide T, WordIndex, Rotation, Rounds, FF, GG, HH, II;
    Quad(i, st, x, a, b, c, d);
  }

  lemma QuadH(i: nat, st: State, x: seq<bv32>, a: bv32, b: bv32, c: bv32, d: bv32)
    requires 32 <= i <= 44 && |x| == 16 && Rounds(st, x, i) == State(a, b, c, d)
    ensures var a1 := HH(a, b, c, d, x[WordIndex(i)], Rotation(i), T(i));
            var d1 := HH(d, a1, b, c, x[WordIndex(i + 1)], Rotation(i + 1), T(i + 1));
            var c1 := HH(c, d1, a1, b, x[WordIndex(i + 2)], Rotation(i + 2), T(i + 2));
            var b1 := HH(b, c1, d1, a1, x[WordIndex(i + 3)], Rotation(i + 3), T(i + 3));
            Rounds(st, x, i + 4) == State(a1, b1, c1, d1)
  {
    hide T, WordIndex, Rotation, Rounds, FF, GG, HH, II;
    Quad(i, st, x, a, b, c, d);
  }

  lemma QuadI(i: nat, st: State, x: seq<bv32>, a: bv32, b: bv32, c: bv32, d: bv32)
    requires 48 <= i <= 60 && |x| == 16 && Rounds(st, x, i) == State(a, b, c, d)
    ensures var a1 := II(a, b, c, d, x[WordIndex(i)], Rotation(i), T(i));
            var d1 := II(d, a1, b, c, x[WordIndex(i + 1)], Rotation(i + 1), T(i + 1));
            var c1 := II(c, d1, a1, b, x[WordIndex(i + 2)], Rotation(i + 2), T(i + 2));
            var b1 := II(b, c1, d1, a1, x[WordIndex(i + 3)], Rotation(i + 3), T(i + 3));
            Rounds(st, x, i + 4) == State(a1, b1, c1, d1)
  {
    hide T, WordIndex, Rotation, Rounds, FF, GG, HH, II;
    Quad(i, st, x, a, b, c, d);
  }



  /** The standard's table for operations 0 to 7. */
  lemma Table1a()
    ensures (WordIndex(0), Rotation(0), T(0)) == (0, 7, 0xd76aa478)
    ensures (WordIndex(1), Rotation(1), T(1)) == (1, 12, 0xe8c7b756)
    ensures (WordIndex(2), Rotation(2), T(2)) == (2, 17, 0x242070db)
    ensures (WordIndex(3), Rotation(3), T(3)) == (3, 22, 0xc1bdceee)
    ensures (WordIndex(4), Rotation(4), T(4)) == (4, 7, 0xf57c0faf)
    ensures (WordIndex(5), Rotation(5), T(5)) == (5, 12, 0x4787c62a)
    ensures (WordIndex(6), Rotation(6), T(6)) == (6, 17, 0xa8304613)
    ensures (WordIndex(7), Rotation(7), T(7)) == (7, 22, 0xfd469501)
  {
  }

  /** The standard's table for operations 8 to 15. */
  lemma Table1b()
    ensures (WordIndex(8), Rotation(8), T(8)) == (8, 7, 0x698098d8)
    ensures (WordIndex(9), Rotation(9), T(9)) == (9, 12, 0x8b44f7af)
    ensures (WordIndex(10), Rotation(10), T(10)) == (10, 17, 0xffff5bb1)
    ensures (WordIndex(11), Rotation(11), T(11)) == (11, 22, 0x895cd7be)
    ensures (WordIndex(12), Rotation(12), T(12)) == (12, 7, 0x6b901122)
    ensures (WordIndex(13), Rotation(13), T(13)) == (13, 12, 0xfd987193)
    ensures (WordIndex(14), Rotation(14), T(14)) == (14, 17, 0xa679438e)
    ensures (WordIndex(15), Rotation(15), T(15)) == (15, 22, 0x49b40821)
  {
  }

  /** Round 1 of the transformation. */
  method Round1(ghost st: State, x: seq<bv32>, a0: bv32, b0: bv32, c0: bv32, d0: bv32)
    returns (a: bv32, b: bv32, c: bv32, d: bv32)
    requires |x| == 16 && Rounds(st, x, 0) == State(a0, b0, c0, d0)
    ensures Rounds(st, x, 16) == State(a, b, c, d)
  {
    hide FF, GG, HH, II, Rounds, T, WordIndex, Rotation;
    Table1a();
    Table1b();
    a, b, c, d := a0, b0, c0, d0;
    QuadF(0, st, x, a, b, c, d);
    a := FF(a, b, c, d, x[0], 7, 0xd76aa478);
    d := FF(d, a, b, c, x[1], 12, 0xe8c7b756);
    c := FF(c, d, a, b, x[2], 17, 0x242070db);
    b := FF(b, c, d, a, x[3], 22, 0xc1bdceee);
    QuadF(4, st, x, a, b, c, d);
    a := FF(a, b, c, d, x[4], 7, 0xf57c0faf);
    d := FF(d, a, b, c, x[5], 12, 0x4787c62a);
    c := FF(c, d, a, b, x[6], 17, 0xa8304613);
    b := FF(b, c, d, a, x[7], 22, 0xfd469501);
    QuadF(8, st, x, a, b, c, d);
    a := FF(a, b, c, d, x[8], 7, 0x698098d8);
    d := FF(d, a, b, c, x[9], 12, 0x8b44f7af);
    c := FF(c, d, a, b, x[10], 17, 0xffff5bb1);
    b := FF(b, c, d, a, x[11], 22, 0x895cd7be);
    QuadF(12, st, x, a, b, c, d);
    a := FF(a, b, c, d, x[12], 7, 0x6b901122);
    d := FF(d, a, b, c, x[13], 12, 0xfd987193);
    c := FF(c, d, a, b, x[14], 17, 0xa679438e);
    b := FF(b, c, d, a, x[15], 22, 0x49b40821);
  }

  /** The standard's table for operations 16 to 23. */
  lemma Table2a()
    ensures (WordIndex(16), Rotation(16), T(16)) == (1, 5, 0xf61e2562)
    ensures (WordIndex(17), Rotation(17), T(17)) == (6, 9, 0xc040b340)
    ensures (WordIndex(18), Rotation(18), T(18)) == (11, 14, 0x265e5a51)
    ensures (WordIndex(19), Rotation(19), T(19)) == (0, 20, 0xe9b6c7aa)
    ensures (WordIndex(20), Rotation(20), T(20)) == (5, 5, 0xd62f105d)
    ensures (WordIndex(21), Rotation(21), T(21)) == (10, 9, 0x2441453)
    ensures (WordIndex(22), Rotation(22), T(22)) == (15, 14, 0xd8a1e681)
    ensures (WordIndex(23), Rotation(23), T(23)) == (4, 20, 0xe7d3fbc8)
  {
  }

  /** The standard's table for operations 24 to 31. */
  lemma Table2b()
    ensures (WordIndex(24), Rotation(24), T(24)) == (9, 5, 0x21e1cde6)
    ensures (WordIndex(25), Rotation(25), T(25)) == (14, 9, 0xc33707d6)
    ensures (WordIndex(26), Rotation(26), T(26)) == (3, 14, 0xf4d50d87)
    ensures (WordIndex(27), Rotation(27), T(27)) == (8, 20, 0x455a14ed)
    ensures (WordIndex(28), Rotation(28), T(28)) == (13, 5, 0xa9e3e905)
    ensures (WordIndex(29), Rotation(29), T(29)) == (2, 9, 0xfcefa3f8)
    ensures (WordIndex(30), Rotation(30), T(30)) == (7, 14, 0x676f02d9)
    ensures (WordIndex(31), Rotation(31), T(31)) == (12, 20, 0x8d2a4c8a)
  {
  }

  /** Round 2 of the transformation. */
  method Round2(ghost st: State, x: seq<bv32>, a0: bv32, b0: bv32, c0: bv32, d0: bv32)
    returns (a: bv32, b: bv32, c: bv32, d: bv32)
    requires |x| == 16 && Rounds(st, x, 16) == State(a0, b0, c0, d0)
    ensures Rounds(st, x, 32) == State(a, b, c, d)
  {
    hide FF, GG, HH, II, Rounds, T, WordIndex, Rotation;
    Table2a();
    Table2b();
    a, b, c, d := a0, b0, c0, d0;
    QuadG(16, st, x, a, b, c, d);
    a := GG(a, b, c, d, x[1], 5, 0xf61e2562);
    d := GG(d, a, b, c, x[6], 9, 0xc040b340);
    c := GG(c, d, a, b, x[11], 14, 0x265e5a51);
    b := GG(b, c, d, a, x[0], 20, 0xe9b6c7aa);
    QuadG(20, st, x, a, b, c, d);
    a := GG(a, b, c, d, x[5], 5, 0xd62f105d);
    d := GG(d, a, b, c, x[10], 9, 0x2441453);
    c := GG(c, d, a, b, x[15], 14, 0xd8a1e681);
    b := GG(b, c, d, a, x[4], 20, 0xe7d3fbc8);
    QuadG(24, st, x, a, b, c, d);
    a := GG(a, b, c, d, x[9], 5, 0x21e1cde6);
    d := GG(d, a, b, c, x[14], 9, 0xc33707d6);
    c := GG(c, d, a, b, x[3], 14, 0xf4d50d87);
    b := GG(b, c, d, a, x[8], 20, 0x455a14ed);
    QuadG(28, st, x, a, b, c, d);
    a := GG(a, b, c, d, x[13], 5, 0xa9e3e905);
    d := GG(d, a, b, c, x[2], 9, 0xfcefa3f8);
    c := GG(c, d, a, b, x[7], 14, 0x676f02d9);
    b := GG(b, c, d, a, x[12], 20, 0x8d2a4c8a);
  }

  /** The standard's table for operations 32 to 39. */
  lemma Table3a()
    ensures (WordIndex(32), Rotation(32), T(32)) == (5, 4, 0xfffa3942)
    ensures (WordIndex(33), Rotation(33), T(33)) == (8, 11, 0x8771f681)
    ensures (WordIndex(34), Rotation(34), T(34)) == (11, 16, 0x6d9d6122)
    ensures (WordIndex(35), Rotation(35), T(35)) == (14, 23, 0xfde5380c)
    ensures (WordIndex(36), Rotation(36), T(36)) == (1, 4, 0xa4beea44)
    ensures (WordIndex(37), Rotation(37), T(37)) == (4, 11, 0x4bdecfa9)
    ensures (WordIndex(38), Rotation(38), T(38)) == (7, 16, 0xf6bb4b60)
    ensures (WordIndex(39), Rotation(39), T(39)) == (10, 23, 0xbebfbc70)
  {
  }

  /** The standard's table for operations 40 to 47. */
  lemma Table3b()
    ensures (WordIndex(40), Rotation(40), T(40)) == (13, 4, 0x289b7ec6)
    ensures (WordIndex(41), Rotation(41), T(41)) == (0, 11, 0xeaa127fa)
    ensures (WordIndex(42), Rotation(42), T(42)) == (3, 16, 0xd4ef3085)
    ensures (WordIndex(43), Rotation(43), T(43)) == (6, 23, 0x4881d05)
    ensures (WordIndex(44), Rotation(44), T(44)) == (9, 4, 0xd9d4d039)
    ensures (WordIndex(45), Rotation(45), T(45)) == (12, 11, 0xe6db99e5)
    ensures (WordIndex(46), Rotation(46), T(46)) == (15, 16, 0x1fa27cf8)
    ensures (WordIndex(47), Rotation(47), T(47)) == (2, 23, 0xc4ac5665)
  {
  }

  /** Round 3 of the transformation. */
  method Round3(ghost st: State, x: seq<bv32>, a0: bv32, b0: bv32, c0: bv32, d0: bv32)
    returns (a: bv32, b: bv32, c: bv32, d: bv32)
    requires |x| == 16 && Rounds(st, x, 32) == State(a0, b0, c0, d0)
    ensures Rounds(st, x, 48) == State(a, b, c, d)
  {
    hide FF, GG, HH, II, Rounds, T, WordIndex, Rotation;
    Table3a();
    Table3b();
    a, b, c, d := a0, b0, c0, d0;
    QuadH(32, st, x, a, b, c, d);
    a := HH(a, b, c, d, x[5], 4, 0xfffa3942);
    d := HH(d, a, b, c, x[8], 11, 0x8771f681);
    c := HH(c, d, a, b, x[11], 16, 0x6d9d6122);
    b := HH(b, c, d, a, x[14], 23, 0xfde5380c);
    QuadH(36, st, x, a, b, c, d);
    a := HH(a, b, c, d, x[1], 4, 0xa4beea44);
    d := HH(d, a, b, c, x[4], 11, 0x4bdecfa9);
    c := HH(c, d, a, b, x[7], 16, 0xf6bb4b60);
    b := HH(b, c, d, a, x[10], 23, 0xbebfbc70);
    QuadH(40, st, x, a, b, c, d);
    a := HH(a, b, c, d, x[13], 4, 0x289b7ec6);
    d := HH(d, a, b, c, x[0], 11, 0xeaa127fa);
    c := HH(c, d, a, b, x[3], 16, 0xd4ef3085);
    b := HH(b, c, d, a, x[6], 23, 0x4881d05);
    QuadH(44, st, x, a, b, c, d);
    a := HH(a, b, c, d, x[9], 4, 0xd9d4d039);
    d := HH(d, a, b, c, x[12], 11, 0xe6db99e5);
    c := HH(c, d, a, b, x[15], 16, 0x1fa27cf8);
    b := HH(b, c, d, a, x[2], 23, 0xc4ac5665);
  }

  /** The standard's table for operations 48 to 55. */
  lemma Table4a()
    ensures (WordIndex(48), Rotation(48), T(48)) == (0, 6, 0xf4292244)
    ensures (WordIndex(49), Rotation(49), T(49)) == (7, 10, 0x432aff97)
    ensures (WordIndex(50), Rotation(50), T(50)) == (14, 15, 0xab9423a7)
    ensures (WordIndex(51), Rotation(51), T(51)) == (5, 21, 0xfc93a039)
    ensures (WordIndex(52), Rotation(52), T(52)) == (12, 6, 0x655b59c3)
    ensures (WordIndex(53), Rotation(53), T(53)) == (3, 10, 0x8f0ccc92)
    ensures (WordIndex(54), Rotation(54), T(54)) == (10, 15, 0xffeff47d)
    ensures (WordIndex(55), Rotation(55), T(55)) == (1, 21, 0x85845dd1)
  {
  }

  /** The standard's table for operations 56 to 63. */
  lemma Table4b()
    ensures (WordIndex(56), Rotation(56), T(56)) == (8, 6, 0x6fa87e4f)
    ensures (WordIndex(57), Rotation(57), T(57)) == (15, 10, 0xfe2ce6e0)
    ensures (WordIndex(58), Rotation(58), T(58)) == (6, 15, 0xa3014314)
    ensures (WordIndex(59), Rotation(59), T(59)) == (13, 21, 0x4e0811a1)
    ensures (WordIndex(60), Rotation(60), T(60)) == (4, 6, 0xf7537e82)
    ensures (WordIndex(61), Rotation(61), T(61)) == (11, 10, 0xbd3af235)
    ensures (WordIndex(62), Rotation(62), T(62)) == (2, 15, 0x2ad7d2bb)
    ensures (WordIndex(63), Rotation(63), T(63)) == (9, 21, 0xeb86d391)
  {
  }

  /** Round 4 of the transformation. */
  method Round4(ghost st: State, x: seq<bv32>, a0: bv32, b0: bv32, c0: bv32, d0: bv32)
    returns (a: bv32, b: bv32, c: bv32, d: bv32)
    requires |x| == 16 && Rounds(st, x, 48) == State(a0, b0, c0, d0)
    ensures Rounds(st, x, 64) == State(a, b, c, d)
  {
    hide FF, GG, HH, II, Rounds, T, WordIndex, Rotation;
    Table4a();
    Table4b();
    a, b, c, d := a0, b0, c0, d0;
    QuadI(48, st, x, a, b, c, d);
    a := II(a, b, c, d, x[0], 6, 0xf4292244);
    d := II(d, a, b, c, x[7], 10, 0x432aff97);
    c := II(c, d, a, b, x[14], 15, 0xab9423a7);
    b := II(b, c, d, a, x[5], 21, 0xfc93a039);
    QuadI(52, st, x, a, b, c, d);
    a := II(a, b, c, d, x[12], 6, 0x655b59c3);
    d := II(d, a, b, c, x[3], 10, 0x8f0ccc92);
    c := II(c, d, a, b, x[10], 15, 0xffeff47d);
    b := II(b, c, d, a, x[1], 21, 0x85845dd1);
    QuadI(56, st, x, a, b, c, d);
    a := II(a, b, c, d, x[8], 6, 0x6fa87e4f);
    d := II(d, a, b, c, x[15], 10, 0xfe2ce6e0);
    c := II(c, d, a, b, x[6], 15, 0xa3014314);
    b := II(b, c, d, a, x[13], 21, 0x4e0811a1);
    QuadI(60, st, x, a, b, c, d);
    a := II(a, b, c, d, x[4], 6, 0xf7537e82);
    d := II(d, a, b, c, x[11], 10, 0xbd3af235);
    c := II(c, d, a, b, x[2], 15, 0x2ad7d2bb);
    b := II(b, c, d, a, x[9], 21, 0xeb86d391);
  }

  // ------------------------------------------------------------ the class

  /** `uint4` values. */
  const M: nat := 0x1_0000_0000

  /** The loop test of `update`, in 32-bit arithmetic: does a whole block remain at
      `index`? */
  predicate Guard(index: nat, length: nat) {
    (index + 63) % 0x1_0000_0000 < length
  }

  /** Where the block loop stops when it starts at `start`. */
  function LastIndex(start: nat, length: nat): nat
    requires start <= length
  {
    length - (length - start) % 64
  }

  /** The loop test does not wrap around at the index where the loop must stop. */
  predicate LoopSafe(start: nat, length: nat) {
    start <= length ==> LastIndex(start, length) + 63 < 0x1_0000_0000
  }

  /** That condition is exact: the test is right at every index the loop visits if
      and only if it does not wrap at the last one. */
  lemma GuardExact(start: nat, length: nat)
    requires start <= length < 0x1_0000_0000
    ensures LoopSafe(start, length) <==>
            forall j: nat | start + 64 * j <= length :: Guard(start + 64 * j, length) <==> start + 64 * j + 64 <= length
  {
    var last := LastIndex(start, length);
    var n := (length - start) / 64;
    assert last == start + 64 * n && last + 64 > length;
    if LoopSafe(start, length) {
      forall j: nat | start + 64 * j <= length
        ensures Guard(start + 64 * j, length) <==> start + 64 * j + 64 <= length
      {
        assert j <= n;
      }
    } else {
      assert Guard(start + 64 * n, length);
    }
  }

  /** The bit counter after `n` bytes, as two words. */
  function Count0(n: nat): nat {
    8 * n % 0x1_0000_0000
  }

  function Count1(n: nat): nat {
    8 * n / 0x1_0000_0000 % 0x1_0000_0000
  }

  /** The two-word addition of `update` counts modulo 2^64. */
  lemma CountAdds(n: nat, length: nat)
    requires length < 0x1_0000_0000
    ensures var bits := length * 8 % 0x1_0000_0000;
            var c0 := (Count0(n) + bits) % 0x1_0000_0000;
            var c1 := if c0 < bits then (Count1(n) + 1) % 0x1_0000_0000 else Count1(n);
            c0 == Count0(n + length) && (c1 + length / 0x2000_0000) % 0x1_0000_0000 == Count1(n + length)
  {
    var q, r := 8 * n / 0x1_0000_0000, 8 * n % 0x1_0000_0000;
    var q', r' := length / 0x2000_0000, length * 8 % 0x1_0000_0000;
    Divided(length * 8, q', length % 0x2000_0000 * 8);
    if r + r' < 0x1_0000_0000 {
      Divided(8 * (n + length), q + q', r + r');
      ModAdd(q, q');
    } else {
      Divided(8 * (n + length), q + q' + 1, r + r' - 0x1_0000_0000);
      Divided(r + r', 1, r + r' - 0x1_0000_0000);
      ModAdd(q, 1);
      ModAdd(q + 1, q');
    }
  }

  lemma Divided(x: nat, q: nat, r: nat)
    requires x == q * 0x1_0000_0000 + r && r < 0x1_0000_0000
    ensures x / 0x1_0000_0000 == q && x % 0x1_0000_0000 == r
  {
  }

  lemma ModAdd(x: nat, y: nat)
    ensures (x % 0x1_0000_0000 + y) % 0x1_0000_0000 == (x + y) % 0x1_0000_0000
  {
  }

  /** The state is the fold over all complete blocks of `data`, the buffer holds the
      rest, and the counters hold the length in bits. */
  ghost predicate Absorbed(state: State, count0: nat, count1: nat, buffer: Bytes, data: Bytes) {
    var rest := |data| % 64;
    && |buffer| == 64
    && count0 == Count0(|data|) && count1 == Count1(|data|)
    && state == Fold(INITIAL, data[..|data| - rest])
    && buffer[..rest] == data[|data| - rest..]
  }

  /** At a block boundary the state is the fold over everything. */
  lemma AbsorbedWhole(state: State, count0: nat, count1: nat, buffer: Bytes, data: Bytes)
    requires Absorbed(state, count0, count1, buffer, data)
    ensures count0 == Count0(|data|) && count1 == Count1(|data|)
    ensures |data| % 64 == 0 ==> state == Fold(INITIAL, data)
  {
    assert data[..|data|] == data;
  }

  class MD5 {
    var state: State
    var count0: nat
    var count1: nat
    var buffer: array<bv8>
    var digest: array<bv8>
    var finalized: bool

    /** Everything that has been passed to `Update`. */
    ghost var data: Bytes

    /** Until finalization everything has been absorbed; afterwards the digest field
        holds the digest. */
    ghost predicate Valid()
      reads this, buffer, digest
    {
      && buffer.Length == 64 && digest.Length == 16 && buffer != digest
      && if finalized then digest[..] == Digest(data) else Absorbed(state, count0, count1, buffer[..], data)
    }

    constructor ()
      ensures Valid() && !finalized && data == [] && fresh(buffer) && fresh(digest)
    {
      finalized := false;
      count0, count1 := 0, 0;
      state := INITIAL;
      buffer, digest := new bv8[64], new bv8[16];
      data := [];
    }

    /** The basic transformation. */
    method Transform(block: Bytes)
      requires |block| == 64
      modifies `state
      ensures state == Compress(old(state), block)
    {
      hide Rounds;
      var x := DecodeWords(block);
      ghost var st := state;
      NoRounds(st, x);
      var a, b, c, d := Round1(st, x, state.a, state.b, state.c, state.d);
      a, b, c, d := Round2(st, x, a, b, c, d);
      a, b, c, d := Round3(st, x, a, b, c, d);
      a, b, c, d := Round4(st, x, a, b, c, d);
      state := State(Plus(state.a, a), Plus(state.b, b), Plus(state.c, c), Plus(state.d, d));
    }

    /** `memcpy` into the buffer. */
    method FillBuffer(at: nat, input: Bytes)
      requires buffer.Length == 64 && at + |input| <= 64
      modifies buffer
      ensures buffer[..at] == old(buffer[..at]) && buffer[at..at + |input|] == input
    {
      for i := 0 to |input|
        invariant buffer[..at] == old(buffer[..at]) && buffer[at..at + i] == input[..i]
      {
        buffer[at + i] := input[i];
      }
    }

    /** Adds a chunk of any size. */
    method Update(input: Bytes)
      requires Valid() && |input| < M
      requires LoopSafe(64 - |data| % 64, |input|)
      modifies this, buffer
      ensures Valid() && finalized == old(finalized) && buffer == old(buffer) && digest == old(digest)
      ensures data == if finalized then old(data) else old(data) + input
    {
      hide Fold, Compress, Guard, LoopSafe, Count0, Count1, Digest;
      if finalized {
        return;
      }
      IndexOf(|data|);
      var bufferIndex := count0 / 8 % 64;
      Count(|input|);
      ghost var n, total := |data|, data + input;
      ghost var full := n - n % 64;
      assert data[..full] == total[..full] && data[full..] == total[full..n];
      var bufferSpace := 64 - bufferIndex;
      var inputIndex;
      if |input| >= bufferSpace {
        CompleteBlock(input, bufferIndex, n, total);
        inputIndex := TransformAll(input, bufferSpace, n, total);
        bufferIndex := 0;
      } else {
        inputIndex := 0;
      }
      KeepRest(input, bufferIndex, inputIndex, n, total);
    }

    /** Fills the rest of the buffer and compresses it. */
    method CompleteBlock(input: Bytes, bufferIndex: nat, ghost n: nat, ghost total: Bytes)
      requires buffer.Length == 64 && bufferIndex == n % 64 && |input| >= 64 - bufferIndex
      requires |total| == n + |input| && total[n..] == input
      requires state == Fold(INITIAL, total[..n - bufferIndex])
      requires buffer[..bufferIndex] == total[n - bufferIndex..n]
      modifies `state, buffer
      ensures state == Fold(INITIAL, total[..n + (64 - bufferIndex)])
    {
      hide Fold, Compress;
      var space := 64 - bufferIndex;
      FillBuffer(bufferIndex, input[..space]);
      assert buffer[..] == buffer[..bufferIndex] + buffer[bufferIndex..bufferIndex + space];
      assert total[n - bufferIndex..n + space] == total[n - bufferIndex..n] + total[n..][..space];
      Absorb(total, n - bufferIndex);
      Transform(buffer[..]);
    }

    /** Buffers what is left of a chunk. */
    method KeepRest(input: Bytes, bufferIndex: nat, inputIndex: nat, ghost n: nat, ghost total: Bytes)
      requires buffer.Length == 64 && digest.Length == 16 && buffer != digest && !finalized
      requires |total| == n + |input| && total[n..] == input && inputIndex <= |input|
      requires (inputIndex == 0 && bufferIndex == n % 64 && |input| < 64 - bufferIndex
                && state == Fold(INITIAL, total[..n - bufferIndex]) && buffer[..bufferIndex] == total[n - bufferIndex..n])
            || (bufferIndex == 0 && (n + inputIndex) % 64 == 0 && |input| < inputIndex + 64
                && state == Fold(INITIAL, total[..n + inputIndex]))
      requires count0 == Count0(|total|) && count1 == Count1(|total|)
      modifies buffer, `data
      ensures Valid() && data == total
    {
      hide Absorbed, Fold, Count0, Count1;
      FillBuffer(bufferIndex, input[inputIndex..]);
      data := total;
      RestBuffered(state, count0, count1, buffer[..], total, input, bufferIndex, inputIndex, n);
    }

    /** Ends the message and stores its digest. */
    method Finalize()
      requires Valid()
      modifies this, buffer, digest
      ensures Valid() && finalized && buffer == old(buffer) && digest == old(digest)
      ensures data == old(data)
      ensures digest[..] == Digest(data)
    {
      hide Absorbed, Fold, Compress, Count0, Count1, Digest, Pad, LengthBytes, WordBytes, LoopSafe;
      if finalized {
        return;
      }
      ghost var m := data;
      AbsorbedWhole(state, count0, count1, buffer[..], data);
      var bits := EncodeCount();
      IndexOf(|m|);
      var index := count0 / 8 % 64;
      var padLen := if index < 56 then 56 - index else 120 - index;
      ShortIsSafe(64 - index, padLen);
      Update(PADDING[..padLen]);
      PadInTwo(m, padLen, bits);
      ShortIsSafe(64 - |data| % 64, 8);
      Update(bits);
      PadWhole(m);
      AbsorbedWhole(state, count0, count1, buffer[..], data);
      StoreDigest(m);
      buffer[0] := 0;
      finalized := true;
      data := m;
    }

    /** Encodes the bit counter. */
    method EncodeCount() returns (bits: Bytes)
      requires count0 == Count0(|data|) && count1 == Count1(|data|)
      ensures bits == LengthBytes(|data|)
    {
      hide WordBytes;
      var words := [count0 as bv32, count1 as bv32];
      bits := EncodeWords(words);
      WordsEncoded(words);
    }

    /** Encodes the state into the digest. */
    method StoreDigest(ghost m: Bytes)
      requires |Pad(m)| % 64 == 0 && state == Fold(INITIAL, Pad(m)) && digest.Length == 16
      modifies digest
      ensures digest[..] == Digest(m)
    {
      hide Fold, Digest, Pad, WordBytes;
      var words := [state.a, state.b, state.c, state.d];
      var bytes := EncodeWords(words);
      WordsEncoded(words);
      for i := 0 to 16
        invariant digest[..i] == bytes[..i]
      {
        digest[i] := bytes[i];
      }
      DigestIs(m, state);
      assert bytes[..16] == bytes && digest[..16] == digest[..];
    }

    /** Adds the length of a chunk to the bit counter. */
    method Count(length: nat)
      requires length < M
      requires count0 == Count0(|data|) && count1 == Count1(|data|)
      modifies `count0, `count1
      ensures count0 == Count0(|data| + length) && count1 == Count1(|data| + length)
    {
      var bits := length * 8 % M;
      CountAdds(|data|, length);
      count0 := (count0 + bits) % M;
      if count0 < bits {
        count1 := (count1 + 1) % M;
      }
      count1 := (count1 + length / 0x2000_0000) % M;
    }

    /** Compresses the whole blocks of a chunk, bypassing the buffer. */
    method TransformAll(input: Bytes, start: nat, ghost n: nat, ghost total: Bytes) returns (inputIndex: nat)
      requires start <= |input| < M && LoopSafe(start, |input|)
      requires |total| == n + |input| && total[n..] == input && (n + start) % 64 == 0
      requires state == Fold(INITIAL, total[..n + start])
      modifies `state
      ensures start <= inputIndex <= |input| < inputIndex + 64 && (n + inputIndex) % 64 == 0
      ensures state == Fold(INITIAL, total[..n + inputIndex])
    {
      hide Fold, Compress, Guard, LoopSafe;
      inputIndex := start;
      ghost var j := 0;
      GuardExact(start, |input|);
      while Guard(inputIndex, |input|)
        invariant inputIndex == start + 64 * j <= |input| && (n + inputIndex) % 64 == 0
        invariant state == Fold(INITIAL, total[..n + inputIndex])
        decreases |input| - inputIndex
      {
        assert input[inputIndex..inputIndex + 64] == total[n + inputIndex..n + inputIndex + 64];
        Absorb(total, n + inputIndex);
        Transform(input[inputIndex..inputIndex + 64]);
        inputIndex := inputIndex + 64;
        j := j + 1;
      }
    }
  }

  /** `PADDING`: 0x80 and zeros. */
  const PADDING: Bytes := [0x80] + Zeros(63)

  /** The bit counter knows how full the buffer is. */
  lemma IndexOf(n: nat)
    ensures Count0(n) / 8 % 64 == n % 64
  {
    var q := 8 * n / 0x1_0000_0000;
    assert Count0(n) == 8 * (n - q * 0x2000_0000);
    SameMod(n, n - q * 0x2000_0000, q * 0x80_0000);
  }

  lemma SameMod(n: nat, m: nat, k: nat)
    requires n == m + 64 * k
    ensures n % 64 == m % 64
  {
  }

  /** One more block of a message. */
  lemma Absorb(s: Bytes, k: nat)
    requires k % 64 == 0 && (k + 64) % 64 == 0 && k + 64 <= |s|
    ensures Compress(Fold(INITIAL, s[..k]), s[k..k + 64]) == Fold(INITIAL, s[..k + 64])
  {
    hide Compress, Fold;
    FoldBlock(INITIAL, s[..k], s[k..k + 64]);
    assert s[..k] + s[k..k + 64] == s[..k + 64];
  }

  lemma RestBuffered(state: State, count0: nat, count1: nat, buffer: Bytes, total: Bytes, input: Bytes,
                     bufferIndex: nat, inputIndex: nat, n: nat)
    requires |buffer| == 64 && inputIndex <= |input| && |total| == n + |input| && total[n..] == input
    requires (inputIndex == 0 && bufferIndex == n % 64 && |input| < 64 - bufferIndex
              && state == Fold(INITIAL, total[..n - bufferIndex]) && buffer[..bufferIndex] == total[n - bufferIndex..n])
          || (bufferIndex == 0 && (n + inputIndex) % 64 == 0 && |input| < inputIndex + 64
              && state == Fold(INITIAL, total[..n + inputIndex]))
    requires bufferIndex + (|input| - inputIndex) <= 64
    requires buffer[bufferIndex..bufferIndex + (|input| - inputIndex)] == input[inputIndex..]
    requires count0 == Count0(|total|) && count1 == Count1(|total|)
    ensures Absorbed(state, count0, count1, buffer, total)
  {
    hide Fold, Count0, Count1;
    Remainder(n, |input|, bufferIndex, inputIndex);
    var rest := |input| - inputIndex;
    assert buffer[..bufferIndex + rest] == buffer[..bufferIndex] + buffer[bufferIndex..bufferIndex + rest];
    assert total[n + inputIndex..] == total[n..][inputIndex..];
    if bufferIndex > 0 {
      assert total[n - bufferIndex..] == total[n - bufferIndex..n] + total[n..];
    }
  }

  /** What is left after the whole blocks is what the buffer must hold. */
  lemma Remainder(n: nat, length: nat, bufferIndex: nat, inputIndex: nat)
    requires inputIndex <= length
    requires (inputIndex == 0 && bufferIndex == n % 64 && length < 64 - bufferIndex)
          || (bufferIndex == 0 && (n + inputIndex) % 64 == 0 && length < inputIndex + 64)
    ensures (n + length) % 64 == bufferIndex + (length - inputIndex)
  {
  }

  /** A chunk that ends well below 2^32 cannot make the loop test wrap. */
  lemma ShortIsSafe(start: nat, length: nat)
    requires length + 63 < 0x1_0000_0000
    ensures LoopSafe(start, length)
  {
  }

  /** The two final updates together add the padding. */
  lemma PadInTwo(m: Bytes, padLen: nat, bits: Bytes)
    requires padLen == (if |m| % 64 < 56 then 56 - |m| % 64 else 120 - |m| % 64)
    requires bits == LengthBytes(|m|)
    ensures m + PADDING[..padLen] + bits == Pad(m)
  {
    hide LengthBytes;
    assert PADDING[..padLen] == [0x80] + Zeros(padLen - 1);
  }

  lemma DigestIs(m: Bytes, st: State)
    requires |Pad(m)| % 64 == 0 && st == Fold(INITIAL, Pad(m))
    ensures Digest(m) == WordBytes(st.a) + WordBytes(st.b) + WordBytes(st.c) + WordBytes(st.d)
  {
    hide WordBytes, Fold, Pad;
  }

  /** Words to bytes, one after the other. */
  function WordsBytes(words: seq<bv32>): (r: Bytes)
    ensures |r| == 4 * |words|
  {
    if words == [] then [] else WordsBytes(words[..|words| - 1]) + WordBytes(words[|words| - 1])
  }

  lemma WordsEncoded(w: seq<bv32>)
    ensures |w| == 2 ==> WordsBytes(w) == WordBytes(w[0]) + WordBytes(w[1])
    ensures |w| == 4 ==> WordsBytes(w) == WordBytes(w[0]) + WordBytes(w[1]) + WordBytes(w[2]) + WordBytes(w[3])
  {
    hide WordBytes;
    if |w| == 2 {
      assert WordsBytes(w[..1]) == WordBytes(w[0]);
    } else if |w| == 4 {
      assert WordsBytes(w[..1]) == WordBytes(w[0]);
      assert w[..2][..1] == w[..1] && w[..3][..2] == w[..2];
      assert WordsBytes(w[..2]) == WordBytes(w[0]) + WordBytes(w[1]);
      assert WordsBytes(w[..3]) == WordsBytes(w[..2]) + WordBytes(w[2]);
    }
  }

  /** `encode`: words to bytes, low byte first. */
  method EncodeWords(input: seq<bv32>) returns (output: Bytes)
    ensures output == WordsBytes(input)
  {
    hide WordBytes;
    output := [];
    for i := 0 to |input|
      invariant output == WordsBytes(input[..i])
    {
      assert input[..i + 1][..i] == input[..i];
      output := output + WordBytes(input[i]);
    }
    assert input[..|input|] == input;
  }

  lemma NoRounds(st: State, x: seq<bv32>)
    requires |x| == 16
    ensures Rounds(st, x, 0) == st
  {
  }

  /** Bytes to words, low byte first. */
  method DecodeWords(block: Bytes) returns (x: seq<bv32>)
    requires |block| == 64
    ensures x == Words(block)
  {
    hide Word;
    x := [];
    for i := 0 to 16
      invariant |x| == i && forall j | 0 <= j < i :: x[j] == Word(block, j)
    {
      x := x + [Word(block, i)];
    }
  }

  function Concat(chunks: seq<Bytes>): Bytes {
    if chunks == [] then [] else Concat(chunks[..|chunks| - 1]) + chunks[|chunks| - 1]
  }

  /** However a message is cut into chunks, the digest is that of the message. */
  method Hash(chunks: seq<Bytes>) returns (digest: Bytes)
    requires forall i | 0 <= i < |chunks| :: |chunks[i]| + 63 < M
    ensures digest == Digest(Concat(chunks))
  {
    hide Absorbed, Digest, LoopSafe;
    var md5 := new MD5();
    for i := 0 to |chunks|
      invariant md5.Valid() && !md5.finalized && fresh(md5) && fresh(md5.buffer) && fresh(md5.digest)
      invariant md5.data == Concat(chunks[..i])
    {
      assert chunks[..i + 1][..i] == chunks[..i];
      ShortIsSafe(64 - |md5.data| % 64, |chunks[i]|);
      md5.Update(chunks[i]);
    }
    assert chunks[..|chunks|] == chunks;
    md5.Finalize();
    digest := md5.digest[..];
  }
}
