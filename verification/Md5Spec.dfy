/** The MD5 message digest of RFC 1321: what the standard says. */
module Md5Spec {

  type Bytes = seq<bv8>

  /** The four registers. */
  datatype State = State(a: bv32, b: bv32, c: bv32, d: bv32)

  // ------------------------------------------ section 3.4, auxiliary functions

  function F(x: bv32, y: bv32, z: bv32): bv32 {
    (x & y) | (!x & z)
  }

  function G(x: bv32, y: bv32, z: bv32): bv32 {
    (x & z) | (y & !z)
  }

  function H(x: bv32, y: bv32, z: bv32): bv32 {
    x ^ y ^ z
  }

  function I(x: bv32, y: bv32, z: bv32): bv32 {
    y ^ (x | !z)
  }

  // --------------------------------------------- section 3.4, the 64 operations

  /** The auxiliary function of operation `i`, counted from 0. */
  function Mix(i: nat, b: bv32, c: bv32, d: bv32): bv32 {
    if i < 16 then F(b, c, d) else if i < 32 then G(b, c, d) else if i < 48 then H(b, c, d) else I(b, c, d)
  }

  /** Which word of the block operation `i` reads. */
  function WordIndex(i: nat): (k: nat)
    ensures k < 16
  {
    if i < 16 then i % 16 else if i < 32 then (5 * i + 1) % 16 else if i < 48 then (3 * i + 5) % 16 else (7 * i) % 16
  }

  /** By how much operation `i` rotates. */
  function Rotation(i: nat): (s: nat)
    ensures 0 < s < 32
  {
    var j := i % 4;
    if i < 16 then (if j == 0 then 7 else if j == 1 then 12 else if j == 2 then 17 else 22)
    else if i < 32 then (if j == 0 then 5 else if j == 1 then 9 else if j == 2 then 14 else 20)
    else if i < 48 then (if j == 0 then 4 else if j == 1 then 11 else if j == 2 then 16 else 23)
    else (if j == 0 then 6 else if j == 1 then 10 else if j == 2 then 15 else 21)
  }

  /** The sine table: `T(i)` is the integer part of 2^32 * |sin(i + 1)|. */
  function T(i: nat): bv32 {
    if i < 16 then T1(i) else if i < 32 then T2(i) else if i < 48 then T3(i) else T4(i)
  }

  function T1(i: nat): bv32 {
    match i
    case 0 => 0xd76aa478
    case 1 => 0xe8c7b756
    case 2 => 0x242070db
    case 3 => 0xc1bdceee
    case 4 => 0xf57c0faf
    case 5 => 0x4787c62a
    case 6 => 0xa8304613
    case 7 => 0xfd469501
    case 8 => 0x698098d8
    case 9 => 0x8b44f7af
    case 10 => 0xffff5bb1
    case 11 => 0x895cd7be
    case 12 => 0x6b901122
    case 13 => 0xfd987193
    case 14 => 0xa679438e
    case 15 => 0x49b40821
    case _ => 0
  }

  function T2(i: nat): bv32 {
    match i
    case 16 => 0xf61e2562
    case 17 => 0xc040b340
    case 18 => 0x265e5a51
    case 19 => 0xe9b6c7aa
    case 20 => 0xd62f105d
    case 21 => 0x02441453
    case 22 => 0xd8a1e681
    case 23 => 0xe7d3fbc8
    case 24 => 0x21e1cde6
    case 25 => 0xc33707d6
    case 26 => 0xf4d50d87
    case 27 => 0x455a14ed
    case 28 => 0xa9e3e905
    case 29 => 0xfcefa3f8
    case 30 => 0x676f02d9
    case 31 => 0x8d2a4c8a
    case _ => 0
  }

  function T3(i: nat): bv32 {
    match i
    case 32 => 0xfffa3942
    case 33 => 0x8771f681
    case 34 => 0x6d9d6122
    case 35 => 0xfde5380c
    case 36 => 0xa4beea44
    case 37 => 0x4bdecfa9
    case 38 => 0xf6bb4b60
    case 39 => 0xbebfbc70
    case 40 => 0x289b7ec6
    case 41 => 0xeaa127fa
    case 42 => 0xd4ef3085
    case 43 => 0x04881d05
    case 44 => 0xd9d4d039
    case 45 => 0xe6db99e5
    case 46 => 0x1fa27cf8
    case 47 => 0xc4ac5665
    case _ => 0
  }

  function T4(i: nat): bv32 {
    match i
    case 48 => 0xf4292244
    case 49 => 0x432aff97
    case 50 => 0xab9423a7
    case 51 => 0xfc93a039
    case 52 => 0x655b59c3
    case 53 => 0x8f0ccc92
    case 54 => 0xffeff47d
    case 55 => 0x85845dd1
    case 56 => 0x6fa87e4f
    case 57 => 0xfe2ce6e0
    case 58 => 0xa3014314
    case 59 => 0x4e0811a1
    case 60 => 0xf7537e82
    case 61 => 0xbd3af235
    case 62 => 0x2ad7d2bb
    case 63 => 0xeb86d391
    case _ => 0
  }

  /** The circular left shift. */
  function Rotate(x: bv32, s: nat): bv32
    requires s <= 32
  {
    x.RotateLeft(s)
  }

  /** Addition modulo 2^32. */
  function Plus(x: bv32, y: bv32): bv32 {
    x + y
  }

  /** The second register after an operation. */
  function Update(a: bv32, b: bv32, mix: bv32, w: bv32, t: bv32, s: nat): bv32
    requires s <= 32
  {
    Plus(b, Rotate(Plus(a, Plus(Plus(mix, w), t)), s))
  }

  /** Operation `i`: the new second register; the others move one place on. */
  function Operation(i: nat, st: State, x: seq<bv32>): State
    requires |x| == 16
  {
    var State(a, b, c, d) := st;
    State(d, Update(a, b, Mix(i, b, c, d), x[WordIndex(i)], T(i), Rotation(i)), b, c)
  }

  /** The registers after the first `n` operations. */
  function Rounds(st: State, x: seq<bv32>, n: nat): State
    requires |x| == 16
  {
    if n == 0 then st else Operation(n - 1, Rounds(st, x, n - 1), x)
  }

  /** Word `j` of a block, low byte first. */
  function Word(block: Bytes, j: nat): bv32
    requires 4 * j + 4 <= |block|
  {
    block[4 * j] as bv32 | ((block[4 * j + 1] as bv32) << 8) | ((block[4 * j + 2] as bv32) << 16) | ((block[4 * j + 3] as bv32) << 24)
  }

  function Words(block: Bytes): (x: seq<bv32>)
    requires |block| == 64
    ensures |x| == 16
  {
    seq(16, j requires 0 <= j < 16 => Word(block, j))
  }

  /** What one 64-byte block does to the state. */
  function Compress(st: State, block: Bytes): State
    requires |block| == 64
  {
    var r := Rounds(st, Words(block), 64);
    State(Plus(st.a, r.a), Plus(st.b, r.b), Plus(st.c, r.c), Plus(st.d, r.d))
  }

  // ---------------------------------------- sections 3.1 to 3.3, whole messages

  const INITIAL: State := State(0x67452301, 0xefcdab89, 0x98badcfe, 0x10325476)

  /** All blocks of a message, in order. */
  function Fold(st: State, s: Bytes): State
    requires |s| % 64 == 0
    decreases s
  {
    if s == [] then st else Fold(Compress(st, s[..64]), s[64..])
  }

  /** A word as four bytes, low byte first. */
  function WordBytes(w: bv32): (r: Bytes)
    ensures |r| == 4
  {
    [(w & 0xff) as bv8, ((w >> 8) & 0xff) as bv8, ((w >> 16) & 0xff) as bv8, ((w >> 24) & 0xff) as bv8]
  }

  
  /** The length of the message in bits, as 64 bits, low word first. */
  function LengthBytes(n: nat): (r: Bytes)
    ensures |r| == 8
  {
    CountBytes(8 * n % 0x1_0000_0000, 8 * n / 0x1_0000_0000 % 0x1_0000_0000)
  }

  function CountBytes(low: nat, high: nat): (r: Bytes)
    requires low < 0x1_0000_0000 && high < 0x1_0000_0000
    ensures |r| == 8
  {
    WordBytes(low as bv32) + WordBytes(high as bv32)
  }

  function Zeros(n: nat): (r: Bytes)
    ensures |r| == n
  {
    seq(n, _ => 0)
  }

  /** How many bytes bring `n` bytes to 56 modulo 64; at least one. */
  function PadLength(n: nat): (k: nat)
    ensures 1 <= k <= 64 && (n + k) % 64 == 56
  {
    if n % 64 < 56 then 56 - n % 64 else 120 - n % 64
  }

  function Pad(m: Bytes): Bytes {
    m + [0x80] + Zeros(PadLength(|m|) - 1) + LengthBytes(|m|)
  }

  /** A padded message is a whole number of blocks. */
  lemma PadWhole(m: Bytes)
    ensures |Pad(m)| == |m| + PadLength(|m|) + 8 && |Pad(m)| % 64 == 0
  {
    hide LengthBytes, Zeros;
    var n, k := |m|, PadLength(|m|);
    assert (n + k + 8) % 64 == 0;
  }

  /** Section 3.5: the digest of a message. */
  function Digest(m: Bytes): Bytes {
    PadWhole(m);
    StateBytes(Fold(INITIAL, Pad(m)))
  }

  function StateBytes(st: State): Bytes {
    WordBytes(st.a) + WordBytes(st.b) + WordBytes(st.c) + WordBytes(st.d)
  }

  // ------------------------------------------------------------ about folding

  lemma {:induction false} FoldBlock(st: State, s: Bytes, block: Bytes)
    requires |s| % 64 == 0 && |block| == 64
    ensures Fold(st, s + block) == Compress(Fold(st, s), block)
    decreases s
  {
    hide Compress;
    if s == [] {
      assert s + block == block && block[..64] == block && block[64..] == [];
    } else {
      assert (s + block)[..64] == s[..64] && (s + block)[64..] == s[64..] + block;
      FoldBlock(Compress(st, s[..64]), s[64..], block);
    }
  }
}
