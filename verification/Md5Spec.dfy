/** MD5 as RFC 1321 defines it: sections 3.1 and 3.2 (padding), 3.3 (registers),
    3.4 (the 64 operations of one block) and 3.5 (output). Nothing here follows the
    shape of the C code; module Md5 proves that the C code computes these functions. */
module Md5Spec {

  type Byte = bv8
  type Word = bv32

  const TWO29: nat := 0x2000_0000
  const TWO32: nat := 0x1_0000_0000
  const TWO61: nat := 0x2000_0000_0000_0000
  const TWO64: nat := 0x1_0000_0000_0000_0000

  datatype Regs = Regs(a: Word, b: Word, c: Word, d: Word)

  // ---------- Section 3.4: one block ----------

  function F(x: Word, y: Word, z: Word): Word { (x & y) | (!x & z) }
  function G(x: Word, y: Word, z: Word): Word { (x & z) | (y & !z) }
  function H(x: Word, y: Word, z: Word): Word { x ^ y ^ z }
  function I(x: Word, y: Word, z: Word): Word { y ^ (x | !z) }

  /** The auxiliary function of operation k. */
  function Aux(k: nat, x: Word, y: Word, z: Word): Word {
    if k < 16 then F(x, y, z)
    else if k < 32 then G(x, y, z)
    else if k < 48 then H(x, y, z)
    else I(x, y, z)
  }

  /** Which message word operation k uses. */
  function Index(k: nat): (n: nat)
    ensures n < 16
  {
    if k < 16 then k
    else if k < 32 then (5 * k + 1) % 16
    else if k < 48 then (3 * k + 5) % 16
    else (7 * k) % 16
  }

  /** By how many bits operation k rotates. */
  function Shift(k: nat): (s: nat)
    requires k < 64
    ensures 4 <= s <= 23
  {
    var m := k % 4;
    if k < 16 then if m == 0 then 7 else if m == 1 then 12 else if m == 2 then 17 else 22
    else if k < 32 then if m == 0 then 5 else if m == 1 then 9 else if m == 2 then 14 else 20
    else if k < 48 then if m == 0 then 4 else if m == 1 then 11 else if m == 2 then 16 else 23
    else if m == 0 then 6 else if m == 1 then 10 else if m == 2 then 15 else 21
  }

  /** The constant of operation k, counted from 0: the table of section 3.4, four rows at a time. */
  function T(k: nat): Word
    requires k < 64
  {
    var j := k % 4;
    if k < 4 then Pick(j, 0xd76aa478, 0xe8c7b756, 0x242070db, 0xc1bdceee)
    else if k < 8 then Pick(j, 0xf57c0faf, 0x4787c62a, 0xa8304613, 0xfd469501)
    else if k < 12 then Pick(j, 0x698098d8, 0x8b44f7af, 0xffff5bb1, 0x895cd7be)
    else if k < 16 then Pick(j, 0x6b901122, 0xfd987193, 0xa679438e, 0x49b40821)
    else if k < 20 then Pick(j, 0xf61e2562, 0xc040b340, 0x265e5a51, 0xe9b6c7aa)
    else if k < 24 then Pick(j, 0xd62f105d, 0x02441453, 0xd8a1e681, 0xe7d3fbc8)
    else if k < 28 then Pick(j, 0x21e1cde6, 0xc33707d6, 0xf4d50d87, 0x455a14ed)
    else if k < 32 then Pick(j, 0xa9e3e905, 0xfcefa3f8, 0x676f02d9, 0x8d2a4c8a)
    else if k < 36 then Pick(j, 0xfffa3942, 0x8771f681, 0x6d9d6122, 0xfde5380c)
    else if k < 40 then Pick(j, 0xa4beea44, 0x4bdecfa9, 0xf6bb4b60, 0xbebfbc70)
    else if k < 44 then Pick(j, 0x289b7ec6, 0xeaa127fa, 0xd4ef3085, 0x04881d05)
    else if k < 48 then Pick(j, 0xd9d4d039, 0xe6db99e5, 0x1fa27cf8, 0xc4ac5665)
    else if k < 52 then Pick(j, 0xf4292244, 0x432aff97, 0xab9423a7, 0xfc93a039)
    else if k < 56 then Pick(j, 0x655b59c3, 0x8f0ccc92, 0xffeff47d, 0x85845dd1)
    else if k < 60 then Pick(j, 0x6fa87e4f, 0xfe2ce6e0, 0xa3014314, 0x4e0811a1)
    else Pick(j, 0xf7537e82, 0xbd3af235, 0x2ad7d2bb, 0xeb86d391)
  }

  function Pick(j: nat, w0: Word, w1: Word, w2: Word, w3: Word): Word {
    if j == 0 then w0 else if j == 1 then w1 else if j == 2 then w2 else w3
  }

  /** Addition of words, modulo 2^32. */
  function Add(x: Word, y: Word): Word {
    x + y
  }

  function Sum(a: Word, f: Word, x: Word, t: Word): Word {
    a + f + x + t
  }

  /** X <<< n. */
  function RotateLeft(x: Word, n: nat): Word
    requires n <= 32
  {
    x.RotateLeft(n)
  }

  /** Operation k, [ABCD Index(k) Shift(k) k+1], followed by the renaming of the registers
      that makes the next operation read them in the order A, B, C, D again. */
  function Op(k: nat, r: Regs, w: seq<Word>): Regs
    requires k < 64 && |w| == 16
  {
    var sum := Sum(r.a, Aux(k, r.b, r.c, r.d), w[Index(k)], T(k));
    Regs(r.d, Add(r.b, RotateLeft(sum, Shift(k))), r.b, r.c)
  }

  /** The first k operations. */
  function Ops(k: nat, r: Regs, w: seq<Word>): Regs
    requires k <= 64 && |w| == 16
  {
    if k == 0 then r else Op(k - 1, Ops(k - 1, r, w), w)
  }

  function Compress(r: Regs, w: seq<Word>): Regs
    requires |w| == 16
  {
    var q := Ops(4 * |w|, r, w);
    Regs(Add(r.a, q.a), Add(r.b, q.b), Add(r.c, q.c), Add(r.d, q.d))
  }

  /** Section 2: four bytes make a word, low-order byte first. */
  function Decode(q: seq<Byte>): Word
    requires |q| == 4
  {
    (q[0] as Word) | ((q[1] as Word) << 8) | ((q[2] as Word) << 16) | ((q[3] as Word) << 24)
  }

  function Words(chunk: seq<Byte>): (w: seq<Word>)
    requires |chunk| == 64
    ensures |w| == 16
    ensures forall i | 0 <= i < 16 :: w[i] == Decode(chunk[4 * i .. 4 * i + 4])
  {
    seq(16, i requires 0 <= i < 16 => Decode(chunk[4 * i .. 4 * i + 4]))
  }

  /** The registers after all the 64-byte blocks of m. */
  function Chain(r: Regs, m: seq<Byte>): Regs
    requires |m| % 64 == 0
  {
    if |m| == 0 then r
    else Compress(Chain(r, m[..|m| - 64]), Words(m[|m| - 64..]))
  }

  // ---------- Sections 3.1 and 3.2: padding ----------

  /** The k low-order bytes of n, low-order byte first. */
  function LittleEndian(n: nat, k: nat): (s: seq<Byte>)
    ensures |s| == k
  {
    if k == 0 then [] else [(n % 256) as Byte] + LittleEndian(n / 256, k - 1)
  }

  function Zeros(n: nat): (z: seq<Byte>)
    ensures |z| == n
  {
    seq(n, _ => 0)
  }

  /** The number of zero bytes between the 0x80 byte and the length. */
  function ZeroCount(n: nat): (z: nat)
    ensures (n + 1 + z + 8) % 64 == 0
  {
    (119 - n % 64) % 64
  }

  /** The length field of a message of n bytes: its bit count modulo 2^64. */
  function BitLength(n: nat): (s: seq<Byte>)
    ensures |s| == 8
  {
    LittleEndian(8 * n % TWO64, 8)
  }

  function Pad(m: seq<Byte>): (p: seq<Byte>)
    ensures |p| % 64 == 0
  {
    m + [0x80] + Zeros(ZeroCount(|m|)) + BitLength(|m|)
  }

  // ---------- Sections 3.3 and 3.5 ----------

  const INITIAL := Regs(0x67452301, 0xefcdab89, 0x98badcfe, 0x10325476)

  function Encode(w: Word): (s: seq<Byte>)
    ensures |s| == 4
  {
    [(w & 0xff) as Byte, ((w >> 8) & 0xff) as Byte, ((w >> 16) & 0xff) as Byte, ((w >> 24) & 0xff) as Byte]
  }

  function Output(r: Regs): (s: seq<Byte>)
    ensures |s| == 16
  {
    Encode(r.a) + Encode(r.b) + Encode(r.c) + Encode(r.d)
  }

  function Digest(m: seq<Byte>): (s: seq<Byte>)
    ensures |s| == 16
  {
    Output(Chain(INITIAL, Pad(m)))
  }

  // ---------- Properties of the specification ----------

  /** Padding is the least number of zeros that leaves room for exactly the length. */
  lemma PaddingIsLeast(n: nat, z: nat)
    ensures (n + 1 + ZeroCount(n)) % 64 == 56
    ensures (n + 1 + z) % 64 == 56 ==> ZeroCount(n) <= z
  {
    var q, r := n / 64, n % 64;
    assert n == 64 * q + r;
    if z < 64 {
      assert (n + 1 + z) % 64 == (r + 1 + z) % 64 by {
        DivModUnique(n + 1 + z, 64, q + (r + 1 + z) / 64, (r + 1 + z) % 64);
      }
    }
    assert (n + 1 + ZeroCount(n)) % 64 == (r + 1 + ZeroCount(n)) % 64 by {
      DivModUnique(n + 1 + ZeroCount(n), 64, q + (r + 1 + ZeroCount(n)) / 64, (r + 1 + ZeroCount(n)) % 64);
    }
  }

  /** The value that a little-endian byte string denotes. */
  function FromLittleEndian(s: seq<Byte>): nat {
    if s == [] then 0 else s[0] as nat + 256 * FromLittleEndian(s[1..])
  }

  function Pow256(k: nat): (p: nat)
    ensures p > 0
  {
    if k == 0 then 1 else 256 * Pow256(k - 1)
  }

  lemma MulAtLeast(m: nat, d: nat)
    requires d > 0
    ensures m * d >= m
  {
  }

  lemma DivModUnique(n: int, m: nat, q: int, r: nat)
    requires r < m && n == m * q + r
    ensures n % m == r && n / m == q
  {
    var q', r' := n / m, n % m;
    assert m * (q - q') == r' - r by {
      assert n == m * q' + r';
    }
    if q > q' {
      MulAtLeast(m, q - q');
    } else if q < q' {
      MulAtLeast(m, q' - q);
    }
  }

  lemma DivModStep(n: nat, p: nat)
    requires p > 0
    ensures n % 256 + 256 * (n / 256 % p) == n % (256 * p)
  {
    var q := n / 256;
    var low := n % 256 + 256 * (q % p);
    assert n == (256 * p) * (q / p) + low by {
      assert q == p * (q / p) + q % p;
      assert 256 * (p * (q / p)) == (256 * p) * (q / p);
    }
    DivModUnique(n, 256 * p, q / p, low);
  }

  lemma ByteValue(x: nat)
    requires x < 256
    ensures (x as Byte) as nat == x
  {
    if x < 16 {} else if x < 32 {} else if x < 64 {} else if x < 128 {} else {}
  }

  lemma LittleEndianHead(n: nat, k: nat)
    requires k > 0
    ensures FromLittleEndian(LittleEndian(n, k)) == n % 256 + 256 * FromLittleEndian(LittleEndian(n / 256, k - 1))
  {
    ByteValue(n % 256);
    assert LittleEndian(n, k)[1..] == LittleEndian(n / 256, k - 1);
  }

  lemma OrIsSum(b0: Byte, b1: Byte, b2: Byte, b3: Byte)
    ensures ((b0 as Word) | ((b1 as Word) << 8) | ((b2 as Word) << 16) | ((b3 as Word) << 24)) as nat
            == b0 as nat + 0x100 * (b1 as nat) + 0x1_0000 * (b2 as nat) + 0x100_0000 * (b3 as nat)
  {
  }

  lemma {:induction false} FourBytes(q: seq<Byte>)
    requires |q| == 4
    ensures FromLittleEndian(q)
            == q[0] as nat + 0x100 * (q[1] as nat) + 0x1_0000 * (q[2] as nat) + 0x100_0000 * (q[3] as nat)
  {
    assert q[1..][0] == q[1] && q[1..][1..] == q[2..];
    assert q[2..][0] == q[2] && q[2..][1..] == q[3..];
    assert q[3..][0] == q[3] && q[3..][1..] == [];
    var v: Byte -> nat := x => x as nat;
    assert FromLittleEndian(q) == v(q[0]) + 256 * FromLittleEndian(q[1..]);
    assert FromLittleEndian(q[1..]) == v(q[1]) + 256 * FromLittleEndian(q[2..]);
    assert FromLittleEndian(q[2..]) == v(q[2]) + 256 * FromLittleEndian(q[3..]);
    assert FromLittleEndian(q[3..]) == v(q[3]);
  }

  /** Section 2: a decoded word has the value that its four bytes denote, low-order byte first. */
  lemma {:induction false} DecodeValue(q: seq<Byte>)
    requires |q| == 4
    ensures Decode(q) as nat == FromLittleEndian(q)
  {
    OrIsSum(q[0], q[1], q[2], q[3]);
    hide FromLittleEndian;
    FourBytes(q);
  }

  /** The length field is a faithful encoding modulo 256^k. */
  lemma {:induction false} LittleEndianRoundTrip(n: nat, k: nat)
    ensures FromLittleEndian(LittleEndian(n, k)) == n % Pow256(k)
  {
    if k == 0 {
    } else {
      LittleEndianRoundTrip(n / 256, k - 1);
      DivModStep(n, Pow256(k - 1));
      LittleEndianHead(n, k);
    }
  }

  lemma SplitByte(x: nat, y: nat, p: nat)
    ensures (x + (256 * p) * y) % 256 == x % 256
    ensures (x + (256 * p) * y) / 256 == x / 256 + p * y
  {
    assert (256 * p) * y == 256 * (p * y);
    DivModUnique(x + 256 * (p * y), 256, x / 256 + p * y, x % 256);
  }

  lemma SplitOneByte(x: nat, y: nat, p: nat, j: nat, k: nat)
    requires j > 0
    requires LittleEndian(x / 256 + p * y, j - 1 + k) == LittleEndian(x / 256, j - 1) + LittleEndian(y, k)
    ensures LittleEndian(x + (256 * p) * y, j + k) == LittleEndian(x, j) + LittleEndian(y, k)
  {
    hide LittleEndian;
    var n := x + (256 * p) * y;
    SplitByte(x, y, p);
    LittleEndianStep(n, j + k);
    LittleEndianStep(x, j);
    var low := [(x % 256) as Byte];
    assert low + (LittleEndian(x / 256, j - 1) + LittleEndian(y, k)) == LittleEndian(x, j) + LittleEndian(y, k);
  }

  lemma NoLowBytes(x: nat, y: nat, k: nat)
    requires x == 0
    ensures LittleEndian(x + 1 * y, k) == LittleEndian(x, 0) + LittleEndian(y, k)
  {
  }

  lemma LowerPart(x: nat, p: nat)
    requires x < 256 * p
    ensures x / 256 < p
  {
  }

  /** A number written as a low half of j bytes and a high half of k bytes. */
  lemma {:induction false} LittleEndianSplit(x: nat, y: nat, j: nat, k: nat)
    requires x < Pow256(j)
    ensures LittleEndian(x + Pow256(j) * y, j + k) == LittleEndian(x, j) + LittleEndian(y, k)
  {
    hide LittleEndian;
    if j == 0 {
      NoLowBytes(x, y, k);
    } else {
      var p := Pow256(j - 1);
      LowerPart(x, p);
      LittleEndianSplit(x / 256, y, j - 1, k);
      SplitOneByte(x, y, p, j, k);
    }
  }

  lemma LittleEndianStep(n: nat, k: nat)
    requires k > 0
    ensures LittleEndian(n, k) == [(n % 256) as Byte] + LittleEndian(n / 256, k - 1)
  {
  }

  lemma DecodeEncode(w: Word)
    ensures Decode(Encode(w)) == w
  {
  }

  /** The four bytes of a word denote its value. */
  lemma EncodeValue(w: Word)
    ensures FromLittleEndian(Encode(w)) == w as nat
  {
    hide Decode, Encode, FromLittleEndian;
    DecodeEncode(w);
    DecodeValue(Encode(w));
  }

  lemma EncodeInjective(v: Word, w: Word)
    requires Encode(v) == Encode(w)
    ensures v == w
  {
    DecodeEncode(v);
    DecodeEncode(w);
  }

  /** The 16 output bytes determine the registers: nothing is lost in section 3.5. */
  lemma OutputInjective(r: Regs, s: Regs)
    requires Output(r) == Output(s)
    ensures r == s
  {
    hide Encode;
    assert forall q: Regs :: Output(q)[..4] == Encode(q.a) && Output(q)[4..8] == Encode(q.b)
                          && Output(q)[8..12] == Encode(q.c) && Output(q)[12..] == Encode(q.d);
    EncodeInjective(r.a, s.a);
    EncodeInjective(r.b, s.b);
    EncodeInjective(r.c, s.c);
    EncodeInjective(r.d, s.d);
  }

  /** A byte string written behind four others counts by 2^32. */
  lemma {:induction false} FourAhead(s: seq<Byte>, t: seq<Byte>)
    requires |s| == 4
    ensures FromLittleEndian(s + t) == FromLittleEndian(s) + TWO32 * FromLittleEndian(t)
  {
    var u := s + t;
    FourBytes(s);
    assert u[1..][1..] == u[2..] && u[2..][1..] == u[3..] && u[3..][1..] == t;
    var v: Byte -> nat := x => x as nat;
    assert FromLittleEndian(u) == v(s[0]) + 256 * FromLittleEndian(u[1..]);
    assert FromLittleEndian(u[1..]) == v(s[1]) + 256 * FromLittleEndian(u[2..]);
    assert FromLittleEndian(u[2..]) == v(s[2]) + 256 * FromLittleEndian(u[3..]);
    assert FromLittleEndian(u[3..]) == v(s[3]) + 256 * FromLittleEndian(t);
  }

  /** Section 3.5: the output begins with the low-order byte of A and ends with the high-order byte
      of D. */
  lemma OutputValue(r: Regs)
    ensures FromLittleEndian(Output(r))
            == r.a as nat + TWO32 * (r.b as nat) + TWO64 * (r.c as nat) + TWO64 * TWO32 * (r.d as nat)
  {
    hide Encode, FromLittleEndian;
    EncodeValue(r.a);
    EncodeValue(r.b);
    EncodeValue(r.c);
    EncodeValue(r.d);
    var a, b, c, d := Encode(r.a), Encode(r.b), Encode(r.c), Encode(r.d);
    assert Output(r) == a + (b + (c + d));
    FourAhead(a, b + (c + d));
    FourAhead(b, c + d);
    FourAhead(c, d);
  }

  /** Chaining over a concatenation is chaining twice. */
  lemma {:induction false} ChainAppend(r: Regs, m: seq<Byte>, n: seq<Byte>)
    requires |m| % 64 == 0 && |n| % 64 == 0
    ensures (|m| + |n|) % 64 == 0
    ensures Chain(r, m + n) == Chain(Chain(r, m), n)
    decreases |n|
  {
    hide Compress, Words;
    if n == [] {
      assert m + n == m;
    } else {
      var n0 := n[..|n| - 64];
      ChainAppend(r, m, n0);
      assert (m + n)[..|m + n| - 64] == m + n0;
      assert (m + n)[|m + n| - 64..] == n[|n| - 64..];
    }
  }
}
