/** The MD5 code of src/server/hash_md5.c: the unrolled compression function, the buffered
    update with its split byte counter, and the finalisation. Every method is tied to Md5Spec. */
module Md5 {
  import opened Collections
  import opened Md5Spec

  // ---------- The macros ----------

  datatype Macro = MacroF | MacroG | MacroH | MacroH2 | MacroI

  function ExpandF(x: Word, y: Word, z: Word): Word { z ^ (x & (y ^ z)) }
  function ExpandG(x: Word, y: Word, z: Word): Word { y ^ (z & (x ^ y)) }
  function ExpandH(x: Word, y: Word, z: Word): Word { (x ^ y) ^ z }
  function ExpandH2(x: Word, y: Word, z: Word): Word { x ^ (y ^ z) }
  function ExpandI(x: Word, y: Word, z: Word): Word { y ^ (x | !z) }

  function Expand(f: Macro, x: Word, y: Word, z: Word): Word {
    match f
    case MacroF => ExpandF(x, y, z)
    case MacroG => ExpandG(x, y, z)
    case MacroH => ExpandH(x, y, z)
    case MacroH2 => ExpandH2(x, y, z)
    case MacroI => ExpandI(x, y, z)
  }

  /** The macros that the code may use in operation k. */
  predicate MacroOf(f: Macro, k: nat) {
    if k < 16 then f == MacroF
    else if k < 32 then f == MacroG
    else if k < 48 then f == MacroH || f == MacroH2
    else f == MacroI
  }

  lemma BitsOfF(x: Word, y: Word, z: Word)
    ensures z ^ (x & (y ^ z)) == (x & y) | (!x & z)
  {
  }

  lemma BitsOfG(x: Word, y: Word, z: Word)
    ensures y ^ (z & (x ^ y)) == (x & z) | (y & !z)
  {
  }

  lemma BitsOfH(x: Word, y: Word, z: Word)
    ensures x ^ (y ^ z) == (x ^ y) ^ z
  {
  }

  lemma FAgrees(x: Word, y: Word, z: Word)
    ensures ExpandF(x, y, z) == F(x, y, z)
  {
    BitsOfF(x, y, z);
  }

  lemma GAgrees(x: Word, y: Word, z: Word)
    ensures ExpandG(x, y, z) == G(x, y, z)
  {
    BitsOfG(x, y, z);
  }

  lemma HAgrees(x: Word, y: Word, z: Word)
    ensures ExpandH(x, y, z) == ExpandH2(x, y, z) == H(x, y, z)
  {
    BitsOfH(x, y, z);
  }

  /** The rewritten boolean forms are the functions of section 3.4, for all words. */
  lemma MacrosAgree(f: Macro, k: nat, x: Word, y: Word, z: Word)
    requires MacroOf(f, k)
    ensures Expand(f, x, y, z) == Aux(k, x, y, z)
  {
    match f
    case MacroF =>
      hide ExpandF, F;
      FAgrees(x, y, z);
    case MacroG =>
      hide ExpandG, G;
      GAgrees(x, y, z);
    case MacroH =>
      hide ExpandH, ExpandH2, H;
      HAgrees(x, y, z);
    case MacroH2 =>
      hide ExpandH, ExpandH2, H;
      HAgrees(x, y, z);
    case MacroI =>
  }

  // STEP is three assignments to its register a; one function for each right-hand side.

  function Accumulate(a: Word, f: Word, x: Word, t: Word): Word {
    a + (f + x + t)
  }

  function ShiftOr(a: Word, s: nat): Word
    requires s <= 32
  {
    (a << s) | ((a & 0xffffffff) >> (32 - s))
  }

  function Plus(a: Word, b: Word): Word {
    a + b
  }

  lemma SumBits(a: Word, f: Word, x: Word, t: Word)
    ensures a + (f + x + t) == a + f + x + t
  {
  }

  lemma SumsAgree(a: Word, f: Word, x: Word, t: Word)
    ensures Accumulate(a, f, x, t) == Sum(a, f, x, t)
  {
    SumBits(a, f, x, t);
  }

  lemma AddBits(x: Word, y: Word)
    ensures x + y == y + x
  {
  }

  lemma AddsAgree(x: Word, y: Word)
    ensures Plus(x, y) == Add(y, x)
  {
    AddBits(x, y);
  }

  lemma RotationBits1(x: Word, s: nat)
    requires s == 7 || s == 12 || s == 17 || s == 22
    ensures (x << s) | ((x & 0xffffffff) >> (32 - s)) == x.RotateLeft(s)
  {
    if s == 7 {} else if s == 12 {} else if s == 17 {} else {}
  }

  lemma RotationBits2(x: Word, s: nat)
    requires s == 5 || s == 9 || s == 14 || s == 20
    ensures (x << s) | ((x & 0xffffffff) >> (32 - s)) == x.RotateLeft(s)
  {
    if s == 5 {} else if s == 9 {} else if s == 14 {} else {}
  }

  lemma RotationBits3(x: Word, s: nat)
    requires s == 4 || s == 11 || s == 16 || s == 23
    ensures (x << s) | ((x & 0xffffffff) >> (32 - s)) == x.RotateLeft(s)
  {
    if s == 4 {} else if s == 11 {} else if s == 16 {} else {}
  }

  lemma RotationBits4(x: Word, s: nat)
    requires s == 6 || s == 10 || s == 15 || s == 21
    ensures (x << s) | ((x & 0xffffffff) >> (32 - s)) == x.RotateLeft(s)
  {
    if s == 6 {} else if s == 10 {} else if s == 15 {} else {}
  }

  lemma RotateAgrees1(x: Word, s: nat)
    requires s == 7 || s == 12 || s == 17 || s == 22
    ensures ShiftOr(x, s) == RotateLeft(x, s)
  {
    RotationBits1(x, s);
  }

  lemma RotateAgrees2(x: Word, s: nat)
    requires s == 5 || s == 9 || s == 14 || s == 20
    ensures ShiftOr(x, s) == RotateLeft(x, s)
  {
    RotationBits2(x, s);
  }

  lemma RotateAgrees3(x: Word, s: nat)
    requires s == 4 || s == 11 || s == 16 || s == 23
    ensures ShiftOr(x, s) == RotateLeft(x, s)
  {
    RotationBits3(x, s);
  }

  lemma RotateAgrees4(x: Word, s: nat)
    requires s == 6 || s == 10 || s == 15 || s == 21
    ensures ShiftOr(x, s) == RotateLeft(x, s)
  {
    RotationBits4(x, s);
  }

  /** Shift-or is a left rotation, for every word and every shift the code uses. */
  lemma RotateAgrees(x: Word, k: nat)
    requires k < 64
    ensures ShiftOr(x, Shift(k)) == RotateLeft(x, Shift(k))
  {
    hide ShiftOr, RotateLeft;
    if k < 16 {
      RotateAgrees1(x, Shift(k));
    } else if k < 32 {
      RotateAgrees2(x, Shift(k));
    } else if k < 48 {
      RotateAgrees3(x, Shift(k));
    } else {
      RotateAgrees4(x, Shift(k));
    }
  }

  /** STEP. The ghost arguments say which operation of section 3.4 this call stands for: the
      registers hold the result of the first k operations on r and w, and x, t and s are the
      word, the constant and the shift of operation k. */
  method Step(ghost k: nat, ghost r: Regs, ghost w: seq<Word>,
              f: Macro, a: Word, b: Word, c: Word, d: Word, x: Word, t: Word, s: nat)
    returns (a': Word)
    requires k < 64 && |w| == 16 && Ops(k, r, w) == Regs(a, b, c, d)
    requires MacroOf(f, k) && x == w[Index(k)] && t == T(k) && s == Shift(k)
    ensures Ops(k + 1, r, w) == Regs(d, a', b, c)
  {
    hide Expand, MacroOf, Aux, Index, Shift, T, Accumulate, Sum, ShiftOr, RotateLeft, Plus, Add;
    a' := Accumulate(a, Expand(f, b, c, d), x, t);
    MacrosAgree(f, k, b, c, d);
    SumsAgree(a, Expand(f, b, c, d), x, t);
    RotateAgrees(a', k);
    a' := ShiftOr(a', s);
    AddsAgree(a', b);
    a' := Plus(a', b);
  }

  /** The word that SET(n) puts together from four bytes. */
  function Load(data: seq<Byte>, base: nat): Word
    requires base + 4 <= |data|
  {
    (data[base] as Word) | ((data[base + 1] as Word) << 8)
    | ((data[base + 2] as Word) << 16) | ((data[base + 3] as Word) << 24)
  }

  lemma LoadDecodes(data: seq<Byte>, base: nat)
    requires base + 4 <= |data|
    ensures Load(data, base) == Decode(data[base..base + 4])
  {
  }

  lemma LoadIsWord(data: seq<Byte>, ptr: nat, n: nat)
    requires n < 16 && ptr + 64 <= |data|
    ensures Load(data, ptr + n * 4) == Words(data[ptr..ptr + 64])[n]
  {
    var base := ptr + n * 4;
    LoadDecodes(data, base);
    hide Load, Decode;
    assert data[ptr..ptr + 64][4 * n..4 * n + 4] == data[base..base + 4];
  }

  // ---------- The byte counter ----------

  /** lo and hi, 29 and 32 bits wide, together hold the byte count modulo 2^61. */
  predicate Counts(lo: nat, hi: nat, total: nat) {
    lo < TWO29 && hi < TWO32 && hi * TWO29 + lo == total % TWO61
  }

  /** The counter after an update of size bytes, with every operation truncated to the width of
      its C type: 64 bits for lo + size, 32 bits for hi. */
  function AddLo(lo: nat, size: nat): (r: nat)
    ensures r < TWO29
  {
    (lo + size) % TWO64 % TWO29
  }

  function AddHi(lo: nat, hi: nat, size: nat): nat {
    var carried := if AddLo(lo, size) < lo then (hi + 1) % TWO32 else hi;
    (carried + size / TWO29) % TWO32
  }

  lemma CounterSum(lo: nat, hi: nat, size: nat)
    requires lo < TWO29 && hi < TWO32 && size < TWO64
    ensures exists sum: nat ::
              && hi * TWO29 + lo + size == sum * TWO29 + AddLo(lo, size)
              && AddHi(lo, hi, size) == sum % TWO32
  {
    var carry := if lo + size % TWO29 >= TWO29 then 1 else 0;
    var sum := hi + carry + size / TWO29;
    assert AddLo(lo, size) == lo + size % TWO29 - carry * TWO29;
    assert hi * TWO29 + lo + size == sum * TWO29 + AddLo(lo, size) && AddHi(lo, hi, size) == sum % TWO32;
  }

  lemma Wrap(sum: nat, low: nat)
    requires low < TWO29
    ensures (sum * TWO29 + low) % TWO61 == sum % TWO32 * TWO29 + low
  {
  }

  /** The carry test is exact for every 64-bit size: no update loses or invents a byte. */
  lemma CarryIsExact(lo: nat, hi: nat, total: nat, size: nat)
    requires Counts(lo, hi, total) && size < TWO64
    ensures Counts(AddLo(lo, size), AddHi(lo, hi, size), total + size)
  {
    assert (total + size) % TWO61 == (hi * TWO29 + lo + size) % TWO61;
    hide AddLo, AddHi;
    CounterSum(lo, hi, size);
    var sum: nat :| hi * TWO29 + lo + size == sum * TWO29 + AddLo(lo, size) && AddHi(lo, hi, size) == sum % TWO32;
    Wrap(sum, AddLo(lo, size));
  }

  /** The low six bits of the counter are the fill of the buffer. */
  lemma CounterFill(lo: nat, hi: nat, total: nat)
    requires Counts(lo, hi, total)
    ensures lo % 64 == total % 64
  {
    var k := TWO61 / 64 * (total / TWO61) + TWO29 / 64 * hi;
    assert total == 64 * k + lo;
    DivModUnique(total, 64, k + lo / 64, lo % 64);
  }

  lemma {:induction false} BytesOf32(x: nat)
    requires x < TWO32
    ensures LittleEndian(x, 4)
            == [(x % 256) as Byte, (x / 0x100 % 256) as Byte, (x / 0x1_0000 % 256) as Byte,
                (x / 0x100_0000 % 256) as Byte]
  {
    assert LittleEndian(x, 4) == [(x % 256) as Byte] + LittleEndian(x / 256, 3);
    assert LittleEndian(x / 256, 3) == [(x / 256 % 256) as Byte] + LittleEndian(x / 256 / 256, 2);
    assert LittleEndian(x / 256 / 256, 2) == [(x / 256 / 256 % 256) as Byte] + LittleEndian(x / 256 / 256 / 256, 1);
    assert x / 256 / 256 == x / 0x1_0000 && x / 256 / 256 / 256 == x / 0x100_0000;
  }

  lemma BitCount(lo: nat, hi: nat, total: nat)
    requires Counts(lo, hi, total)
    ensures lo * 8 % TWO32 == lo * 8 && lo * 8 + TWO32 * hi == 8 * total % TWO64
  {
    DivModUnique(8 * total, TWO64, total / TWO61, 8 * (total % TWO61));
  }

  /** lo << 3 and hi, written out low-order byte first, are the length field of section 3.2. */
  lemma {:induction false} LengthField(lo: nat, hi: nat, total: nat)
    requires Counts(lo, hi, total)
    ensures LittleEndian(lo * 8 % TWO32, 4) + LittleEndian(hi, 4) == BitLength(total)
  {
    BitCount(lo, hi, total);
    assert Pow256(4) == TWO32;
    hide *;
    LittleEndianSplit(lo * 8, hi, 4, 4);
  }

  // ---------- Splitting a message into blocks ----------

  function Full(m: seq<Byte>): (f: seq<Byte>)
    ensures |f| % 64 == 0
  {
    m[..|m| / 64 * 64]
  }

  function Tail(m: seq<Byte>): (t: seq<Byte>)
    ensures |t| == |m| % 64 && Full(m) + t == m
  {
    m[|m| / 64 * 64..]
  }

  lemma FullUnique(m: seq<Byte>, f: seq<Byte>, t: seq<Byte>)
    requires m == f + t && |f| % 64 == 0 && |t| < 64
    ensures Full(m) == f && Tail(m) == t
  {
    assert |f| == |m| / 64 * 64;
  }

  lemma RegroupOne(m: seq<Byte>, f: seq<Byte>, t: seq<Byte>, x: seq<Byte>, y: seq<Byte>, l: seq<Byte>)
    requires m == f + t
    ensures m + x + y + l == f + (t + x + y + l)
  {
  }

  lemma RegroupTwo(m: seq<Byte>, f: seq<Byte>, t: seq<Byte>, x: seq<Byte>, y: seq<Byte>, z: seq<Byte>, l: seq<Byte>)
    requires m == f + t
    ensures m + x + (y + z) + l == f + (t + x + y) + (z + l)
  {
  }

  /** The two shapes that the padded message takes behind its full blocks. */
  lemma PadInOneBlock(m: seq<Byte>)
    requires |m| % 64 <= 55
    ensures Pad(m) == Full(m) + (Tail(m) + [0x80] + Zeros(55 - |m| % 64) + BitLength(|m|))
  {
    hide BitLength, Full, Tail, Zeros;
    assert ZeroCount(|m|) == 55 - |m| % 64;
    var x, l := [0x80], BitLength(|m|);
    assert Pad(m) == m + x + Zeros(ZeroCount(|m|)) + l;
    RegroupOne(m, Full(m), Tail(m), x, Zeros(ZeroCount(|m|)), l);
  }

  lemma ZerosAdd(j: nat, k: nat)
    ensures Zeros(j + k) == Zeros(j) + Zeros(k)
  {
  }

  lemma PadInTwoBlocks(m: seq<Byte>)
    requires 55 < |m| % 64
    ensures Pad(m) == Full(m) + (Tail(m) + [0x80] + Zeros(63 - |m| % 64)) + (Zeros(56) + BitLength(|m|))
  {
    hide BitLength, Full, Tail, Zeros;
    var j := 63 - |m| % 64;
    assert ZeroCount(|m|) == j + 56;
    var x, l := [0x80], BitLength(|m|);
    assert Pad(m) == m + x + Zeros(j + 56) + l;
    ZerosAdd(j, 56);
    RegroupTwo(m, Full(m), Tail(m), x, Zeros(j), Zeros(56), l);
  }

  class Md5Ctx {
    var lo: nat
    var hi: nat
    var a: Word
    var b: Word
    var c: Word
    var d: Word
    const buffer: array<Byte>
    const block: array<Word>
    /** All bytes passed to Update since Init. */
    ghost var msg: seq<Byte>

    ghost function Registers(): Regs
      reads this
    {
      Regs(a, b, c, d)
    }

    constructor ()
      ensures buffer.Length == 64 && block.Length == 16 && fresh(buffer) && fresh(block)
    {
      buffer := new Byte[64];
      block := new Word[16];
    }

    /** The first n words of the block have been stored. */
    ghost predicate Filled(n: nat, w: seq<Word>)
      requires n <= 16 && |w| == 16 && block.Length == 16
      reads block
    {
      block[..n] == w[..n]
    }

    lemma FilledAll(w: seq<Word>)
      requires |w| == 16 && block.Length == 16 && Filled(16, w)
      ensures block[..] == w
    {
    }

    /** SET(n), in the portable form that also stores the word in block. */
    method Set(n: nat, data: seq<Byte>, ptr: nat, ghost w: seq<Word>) returns (x: Word)
      requires n < 16 && block.Length == 16
      requires ptr + 64 <= |data| && w == Words(data[ptr..ptr + 64])
      requires Filled(n, w)
      modifies block
      ensures x == w[n] && Filled(n + 1, w)
    {
      hide Load, Decode;
      LoadIsWord(data, ptr, n);
      x := Load(data, ptr + n * 4);
      block[n] := x;
    }

    /** STEP(F, a, b, c, d, SET(n), t, s): the steps of round 1 also fill the block. */
    method StepSet(ghost k: nat, ghost r: Regs, ghost w: seq<Word>,
                   a: Word, b: Word, c: Word, d: Word,
                   n: nat, data: seq<Byte>, ptr: nat, t: Word, s: nat) returns (a': Word)
      requires k < 16 && n == k && block.Length == 16
      requires ptr + 64 <= |data| && w == Words(data[ptr..ptr + 64])
      requires Filled(k, w) && Ops(k, r, w) == Regs(a, b, c, d)
      requires t == T(k) && s == Shift(k)
      modifies block
      ensures Filled(k + 1, w) && Ops(k + 1, r, w) == Regs(d, a', b, c)
    {
      hide T, Shift, Ops, Filled;
      var x := Set(n, data, ptr, w);
      a' := Step(k, r, w, MacroF, a, b, c, d, x, t, s);
    }

    // The 64 lines of body, eight to a method.

    method Steps0(ghost r: Regs, ghost w: seq<Word>, data: seq<Byte>, ptr: nat,
                  a0: Word, b0: Word, c0: Word, d0: Word) returns (a: Word, b: Word, c: Word, d: Word)
      requires block.Length == 16
      requires ptr + 64 <= |data| && w == Words(data[ptr..ptr + 64])
      requires Filled(0, w) && Ops(0, r, w) == Regs(a0, b0, c0, d0)
      modifies block
      ensures Filled(8, w) && Ops(8, r, w) == Regs(a, b, c, d)
    {
      hide Words, Ops, Filled;
      a, b, c, d := a0, b0, c0, d0;
      a := StepSet(0, r, w, a, b, c, d, 0, data, ptr, 0xd76aa478, 7);
      d := StepSet(1, r, w, d, a, b, c, 1, data, ptr, 0xe8c7b756, 12);
      c := StepSet(2, r, w, c, d, a, b, 2, data, ptr, 0x242070db, 17);
      b := StepSet(3, r, w, b, c, d, a, 3, data, ptr, 0xc1bdceee, 22);
      a := StepSet(4, r, w, a, b, c, d, 4, data, ptr, 0xf57c0faf, 7);
      d := StepSet(5, r, w, d, a, b, c, 5, data, ptr, 0x4787c62a, 12);
      c := StepSet(6, r, w, c, d, a, b, 6, data, ptr, 0xa8304613, 17);
      b := StepSet(7, r, w, b, c, d, a, 7, data, ptr, 0xfd469501, 22);
    }

    method Steps8(ghost r: Regs, ghost w: seq<Word>, data: seq<Byte>, ptr: nat,
                  a0: Word, b0: Word, c0: Word, d0: Word) returns (a: Word, b: Word, c: Word, d: Word)
      requires block.Length == 16
      requires ptr + 64 <= |data| && w == Words(data[ptr..ptr + 64])
      requires Filled(8, w) && Ops(8, r, w) == Regs(a0, b0, c0, d0)
      modifies block
      ensures Filled(16, w) && Ops(16, r, w) == Regs(a, b, c, d)
    {
      hide Words, Ops, Filled;
      a, b, c, d := a0, b0, c0, d0;
      a := StepSet(8, r, w, a, b, c, d, 8, data, ptr, 0x698098d8, 7);
      d := StepSet(9, r, w, d, a, b, c, 9, data, ptr, 0x8b44f7af, 12);
      c := StepSet(10, r, w, c, d, a, b, 10, data, ptr, 0xffff5bb1, 17);
      b := StepSet(11, r, w, b, c, d, a, 11, data, ptr, 0x895cd7be, 22);
      a := StepSet(12, r, w, a, b, c, d, 12, data, ptr, 0x6b901122, 7);
      d := StepSet(13, r, w, d, a, b, c, 13, data, ptr, 0xfd987193, 12);
      c := StepSet(14, r, w, c, d, a, b, 14, data, ptr, 0xa679438e, 17);
      b := StepSet(15, r, w, b, c, d, a, 15, data, ptr, 0x49b40821, 22);
    }

    method Steps16(ghost r: Regs, ghost w: seq<Word>,
                   a0: Word, b0: Word, c0: Word, d0: Word) returns (a: Word, b: Word, c: Word, d: Word)
      requires |w| == 16 && block[..] == w
      requires Ops(16, r, w) == Regs(a0, b0, c0, d0)
      ensures Ops(24, r, w) == Regs(a, b, c, d)
    {
      hide Ops;
      var x := block[..];
      a, b, c, d := a0, b0, c0, d0;
      a := Step(16, r, w, MacroG, a, b, c, d, x[1], 0xf61e2562, 5);
      d := Step(17, r, w, MacroG, d, a, b, c, x[6], 0xc040b340, 9);
      c := Step(18, r, w, MacroG, c, d, a, b, x[11], 0x265e5a51, 14);
      b := Step(19, r, w, MacroG, b, c, d, a, x[0], 0xe9b6c7aa, 20);
      a := Step(20, r, w, MacroG, a, b, c, d, x[5], 0xd62f105d, 5);
      d := Step(21, r, w, MacroG, d, a, b, c, x[10], 0x02441453, 9);
      c := Step(22, r, w, MacroG, c, d, a, b, x[15], 0xd8a1e681, 14);
      b := Step(23, r, w, MacroG, b, c, d, a, x[4], 0xe7d3fbc8, 20);
    }

    method Steps24(ghost r: Regs, ghost w: seq<Word>,
                   a0: Word, b0: Word, c0: Word, d0: Word) returns (a: Word, b: Word, c: Word, d: Word)
      requires |w| == 16 && block[..] == w
      requires Ops(24, r, w) == Regs(a0, b0, c0, d0)
      ensures Ops(32, r, w) == Regs(a, b, c, d)
    {
      hide Ops;
      var x := block[..];
      a, b, c, d := a0, b0, c0, d0;
      a := Step(24, r, w, MacroG, a, b, c, d, x[9], 0x21e1cde6, 5);
      d := Step(25, r, w, MacroG, d, a, b, c, x[14], 0xc33707d6, 9);
      c := Step(26, r, w, MacroG, c, d, a, b, x[3], 0xf4d50d87, 14);
      b := Step(27, r, w, MacroG, b, c, d, a, x[8], 0x455a14ed, 20);
      a := Step(28, r, w, MacroG, a, b, c, d, x[13], 0xa9e3e905, 5);
      d := Step(29, r, w, MacroG, d, a, b, c, x[2], 0xfcefa3f8, 9);
      c := Step(30, r, w, MacroG, c, d, a, b, x[7], 0x676f02d9, 14);
      b := Step(31, r, w, MacroG, b, c, d, a, x[12], 0x8d2a4c8a, 20);
    }

    method Steps32(ghost r: Regs, ghost w: seq<Word>,
                   a0: Word, b0: Word, c0: Word, d0: Word) returns (a: Word, b: Word, c: Word, d: Word)
      requires |w| == 16 && block[..] == w
      requires Ops(32, r, w) == Regs(a0, b0, c0, d0)
      ensures Ops(40, r, w) == Regs(a, b, c, d)
    {
      hide Ops;
      var x := block[..];
      a, b, c, d := a0, b0, c0, d0;
      a := Step(32, r, w, MacroH, a, b, c, d, x[5], 0xfffa3942, 4);
      d := Step(33, r, w, MacroH2, d, a, b, c, x[8], 0x8771f681, 11);
      c := Step(34, r, w, MacroH, c, d, a, b, x[11], 0x6d9d6122, 16);
      b := Step(35, r, w, MacroH2, b, c, d, a, x[14], 0xfde5380c, 23);
      a := Step(36, r, w, MacroH, a, b, c, d, x[1], 0xa4beea44, 4);
      d := Step(37, r, w, MacroH2, d, a, b, c, x[4], 0x4bdecfa9, 11);
      c := Step(38, r, w, MacroH, c, d, a, b, x[7], 0xf6bb4b60, 16);
      b := Step(39, r, w, MacroH2, b, c, d, a, x[10], 0xbebfbc70, 23);
    }

    method Steps40(ghost r: Regs, ghost w: seq<Word>,
                   a0: Word, b0: Word, c0: Word, d0: Word) returns (a: Word, b: Word, c: Word, d: Word)
      requires |w| == 16 && block[..] == w
      requires Ops(40, r, w) == Regs(a0, b0, c0, d0)
      ensures Ops(48, r, w) == Regs(a, b, c, d)
    {
      hide Ops;
      var x := block[..];
      a, b, c, d := a0, b0, c0, d0;
      a := Step(40, r, w, MacroH, a, b, c, d, x[13], 0x289b7ec6, 4);
      d := Step(41, r, w, MacroH2, d, a, b, c, x[0], 0xeaa127fa, 11);
      c := Step(42, r, w, MacroH, c, d, a, b, x[3], 0xd4ef3085, 16);
      b := Step(43, r, w, MacroH2, b, c, d, a, x[6], 0x04881d05, 23);
      a := Step(44, r, w, MacroH, a, b, c, d, x[9], 0xd9d4d039, 4);
      d := Step(45, r, w, MacroH2, d, a, b, c, x[12], 0xe6db99e5, 11);
      c := Step(46, r, w, MacroH, c, d, a, b, x[15], 0x1fa27cf8, 16);
      b := Step(47, r, w, MacroH2, b, c, d, a, x[2], 0xc4ac5665, 23);
    }

    method Steps48(ghost r: Regs, ghost w: seq<Word>,
                   a0: Word, b0: Word, c0: Word, d0: Word) returns (a: Word, b: Word, c: Word, d: Word)
      requires |w| == 16 && block[..] == w
      requires Ops(48, r, w) == Regs(a0, b0, c0, d0)
      ensures Ops(56, r, w) == Regs(a, b, c, d)
    {
      hide Ops;
      var x := block[..];
      a, b, c, d := a0, b0, c0, d0;
      a := Step(48, r, w, MacroI, a, b, c, d, x[0], 0xf4292244, 6);
      d := Step(49, r, w, MacroI, d, a, b, c, x[7], 0x432aff97, 10);
      c := Step(50, r, w, MacroI, c, d, a, b, x[14], 0xab9423a7, 15);
      b := Step(51, r, w, MacroI, b, c, d, a, x[5], 0xfc93a039, 21);
      a := Step(52, r, w, MacroI, a, b, c, d, x[12], 0x655b59c3, 6);
      d := Step(53, r, w, MacroI, d, a, b, c, x[3], 0x8f0ccc92, 10);
      c := Step(54, r, w, MacroI, c, d, a, b, x[10], 0xffeff47d, 15);
      b := Step(55, r, w, MacroI, b, c, d, a, x[1], 0x85845dd1, 21);
    }

    method Steps56(ghost r: Regs, ghost w: seq<Word>,
                   a0: Word, b0: Word, c0: Word, d0: Word) returns (a: Word, b: Word, c: Word, d: Word)
      requires |w| == 16 && block[..] == w
      requires Ops(56, r, w) == Regs(a0, b0, c0, d0)
      ensures Ops(64, r, w) == Regs(a, b, c, d)
    {
      hide Ops;
      var x := block[..];
      a, b, c, d := a0, b0, c0, d0;
      a := Step(56, r, w, MacroI, a, b, c, d, x[8], 0x6fa87e4f, 6);
      d := Step(57, r, w, MacroI, d, a, b, c, x[15], 0xfe2ce6e0, 10);
      c := Step(58, r, w, MacroI, c, d, a, b, x[6], 0xa3014314, 15);
      b := Step(59, r, w, MacroI, b, c, d, a, x[13], 0x4e0811a1, 21);
      a := Step(60, r, w, MacroI, a, b, c, d, x[4], 0xf7537e82, 6);
      d := Step(61, r, w, MacroI, d, a, b, c, x[11], 0xbd3af235, 10);
      c := Step(62, r, w, MacroI, c, d, a, b, x[2], 0x2ad7d2bb, 15);
      b := Step(63, r, w, MacroI, b, c, d, a, x[9], 0xeb86d391, 21);
    }

    /** One block: the 64 steps and the addition of the saved registers. */
    method Block(data: seq<Byte>, ptr: nat, a0: Word, b0: Word, c0: Word, d0: Word)
      returns (a: Word, b: Word, c: Word, d: Word)
      requires block.Length == 16 && ptr + 64 <= |data|
      modifies block
      ensures Regs(a, b, c, d) == Compress(Regs(a0, b0, c0, d0), Words(data[ptr..ptr + 64]))
    {
      hide Words, Plus, Add;
      ghost var r := Regs(a0, b0, c0, d0);
      ghost var w := Words(data[ptr..ptr + 64]);
      assert Ops(0, r, w) == r && Filled(0, w);
      hide Ops, Filled;
      a, b, c, d := Steps0(r, w, data, ptr, a0, b0, c0, d0);
      a, b, c, d := Steps8(r, w, data, ptr, a, b, c, d);
      assert block[..] == w by { FilledAll(w); }
      a, b, c, d := Steps16(r, w, a, b, c, d);
      a, b, c, d := Steps24(r, w, a, b, c, d);
      a, b, c, d := Steps32(r, w, a, b, c, d);
      a, b, c, d := Steps40(r, w, a, b, c, d);
      a, b, c, d := Steps48(r, w, a, b, c, d);
      a, b, c, d := Steps56(r, w, a, b, c, d);
      assert Compress(r, w) == Regs(Add(a0, a), Add(b0, b), Add(c0, c), Add(d0, d));
      AddsAgree(a, a0);
      AddsAgree(b, b0);
      AddsAgree(c, c0);
      AddsAgree(d, d0);
      a, b, c, d := Plus(a, a0), Plus(b, b0), Plus(c, c0), Plus(d, d0);
    }

    lemma {:induction false} ChainEmpty(r: Regs)
      ensures Chain(r, []) == r
    {
    }

    lemma {:induction false} ChainStep(r: Regs, data: seq<Byte>, start: nat, ptr: nat)
      requires start <= ptr && ptr + 64 <= |data| && (ptr - start) % 64 == 0
      ensures Chain(r, data[start..ptr + 64]) == Compress(Chain(r, data[start..ptr]), Words(data[ptr..ptr + 64]))
    {
      var done := data[start..ptr + 64];
      assert done[..|done| - 64] == data[start..ptr] && done[|done| - 64..] == data[ptr..ptr + 64];
      hide Compress, Words;
    }

    /** body: the registers absorb size / 64 blocks of data, from ptr on. */
    method Body(data: seq<Byte>, start: nat, size: nat) returns (ptr: nat)
      requires block.Length == 16
      requires 0 < size && size % 64 == 0 && start + size <= |data|
      modifies `a, `b, `c, `d, block
      ensures ptr == start + size
      ensures Registers() == Chain(old(Registers()), data[start..start + size])
    {
      ptr := start;
      var n := size;
      var a, b, c, d := this.a, this.b, this.c, this.d;
      ghost var r := Regs(a, b, c, d);
      hide Compress, Words;
      hide Chain;
      ChainEmpty(r);
      assert data[start..start] == [];
      while true
        invariant start <= ptr && ptr + n == start + size && 0 < n && n % 64 == 0
        invariant Regs(a, b, c, d) == Chain(r, data[start..ptr])
        decreases n
      {
        ChainStep(r, data, start, ptr);
        a, b, c, d := Block(data, ptr, a, b, c, d);
        ptr := ptr + 64;
        n := n - 64;
        if n == 0 {
          break;
        }
      }
      this.a, this.b, this.c, this.d := a, b, c, d;
    }

    /** body(ctx, ctx->buffer, 64), after the blocks f. */
    method HashBuffer(ghost f: seq<Byte>)
      requires buffer.Length == 64 && block.Length == 16
      requires |f| % 64 == 0 && Registers() == Chain(INITIAL, f)
      modifies `a, `b, `c, `d, block
      ensures Registers() == Chain(INITIAL, f + buffer[..])
    {
      hide Chain;
      ChainAppend(INITIAL, f, buffer[..]);
      assert buffer[..][0..64] == buffer[..];
      var _ := Body(buffer[..], 0, 64);
    }

    /** What holds between two calls, for the bytes seen so far. */
    ghost predicate Valid()
      reads this, buffer
    {
      && buffer.Length == 64 && block.Length == 16
      && Counts(lo, hi, |msg|)
      && Registers() == Chain(INITIAL, Full(msg))
      && buffer[..|msg| % 64] == Tail(msg)
    }

    method Init()
      requires buffer.Length == 64 && block.Length == 16
      modifies this
      ensures Valid() && msg == []
    {
      a := 0x67452301;
      b := 0xefcdab89;
      c := 0x98badcfe;
      d := 0x10325476;
      lo := 0;
      hi := 0;
      msg := [];
    }

    /** memcpy into the buffer. */
    method Fill(at: nat, bytes: seq<Byte>)
      requires at + |bytes| <= buffer.Length
      modifies buffer
      ensures buffer[..at] == old(buffer[..at])
      ensures buffer[at..at + |bytes|] == bytes
      ensures buffer[at + |bytes|..] == old(buffer[at + |bytes|..])
    {
      forall i | 0 <= i < |bytes| {
        buffer[at + i] := bytes[i];
      }
    }

    /** The end of MD5_Update: hash whole blocks straight from data, keep the rest. */
    method AbsorbBlocks(ghost f: seq<Byte>, data: seq<Byte>, start: nat)
      requires buffer.Length == 64 && block.Length == 16 && start <= |data|
      requires |f| % 64 == 0 && Registers() == Chain(INITIAL, f)
      modifies `a, `b, `c, `d, buffer, block
      ensures Registers() == Chain(INITIAL, Full(f + data[start..]))
      ensures buffer[..|f + data[start..]| % 64] == Tail(f + data[start..])
    {
      hide Chain, Full, Tail;
      var from, size := start, |data| - start;
      ghost var g := f;
      if size >= 64 {
        var whole := size / 64 * 64;
        ChainAppend(INITIAL, f, data[from..from + whole]);
        g := f + data[from..from + whole];
        from := Body(data, from, whole);
        size := size % 64;
      }
      Fill(0, data[from..]);
      assert f + data[start..] == g + data[from..];
      FullUnique(f + data[start..], g, data[from..]);
    }

    /** The part of MD5_Update below the counter: fill up the buffer first. */
    method Absorb(used: nat, data: seq<Byte>)
      requires buffer.Length == 64 && block.Length == 16 && used == |msg| % 64
      requires Registers() == Chain(INITIAL, Full(msg)) && buffer[..used] == Tail(msg)
      modifies `a, `b, `c, `d, buffer, block
      ensures Registers() == Chain(INITIAL, Full(msg + data))
      ensures buffer[..|msg + data| % 64] == Tail(msg + data)
    {
      hide Chain, Full, Tail;
      ghost var f := Full(msg);
      if used != 0 {
        var available := 64 - used;
        if |data| < available {
          Fill(used, data);
          FullUnique(msg + data, f, Tail(msg) + data);
          return;
        }
        Fill(used, data[..available]);
        HashBuffer(f);
        assert buffer[..] == Tail(msg) + data[..available];
        f := f + buffer[..];
        assert msg + data == f + data[available..];
        AbsorbBlocks(f, data, available);
      } else {
        assert msg + data == f + data[0..];
        AbsorbBlocks(f, data, 0);
      }
    }

    method Update(data: seq<Byte>)
      requires Valid() && |data| < TWO64
      modifies this, buffer, block
      ensures Valid() && msg == old(msg) + data
    {
      hide Chain, Counts, Full, Tail;
      var savedLo := lo;
      var size := |data|;
      lo := (savedLo + size) % TWO64 % TWO29;
      if lo < savedLo {
        hi := (hi + 1) % TWO32;
      }
      hi := (hi + size / TWO29) % TWO32;
      CarryIsExact(savedLo, old(hi), |msg|, size);
      CounterFill(savedLo, old(hi), |msg|);
      Absorb(savedLo % 64, data);
      msg := msg + data;
    }

    /** Four byte stores: x, x >> 8, x >> 16, x >> 24. */
    method StoreWord(at: nat, x: nat)
      requires at + 4 <= buffer.Length && x < TWO32
      modifies buffer
      ensures buffer[..at + 4] == old(buffer[..at]) + LittleEndian(x, 4)
    {
      BytesOf32(x);
      hide LittleEndian;
      buffer[at] := (x % 256) as Byte;
      buffer[at + 1] := (x / 0x100 % 256) as Byte;
      buffer[at + 2] := (x / 0x1_0000 % 256) as Byte;
      buffer[at + 3] := (x / 0x100_0000 % 256) as Byte;
    }

    /** lo << 3 and hi into the last eight bytes of the buffer. */
    method WriteLength()
      requires buffer.Length == 64 && Counts(lo, hi, |msg|)
      modifies `lo, buffer
      ensures buffer[..] == old(buffer[..56]) + BitLength(|msg|)
    {
      LengthField(lo, hi, |msg|);
      hide LittleEndian, BitLength;
      lo := lo * 8 % TWO32;
      StoreWord(56, lo);
      StoreWord(60, hi);
      assert buffer[..] == buffer[..64];
    }

    /** The length does not fit behind the 0x80 byte: zeros to the end of the block, and hash it. */
    method Spill(ghost f: seq<Byte>, used: nat)
      requires buffer.Length == 64 && block.Length == 16 && used <= 64
      requires |f| % 64 == 0 && Registers() == Chain(INITIAL, f)
      modifies `a, `b, `c, `d, buffer, block
      ensures Registers() == Chain(INITIAL, f + (old(buffer[..used]) + Zeros(64 - used)))
    {
      hide Chain, Zeros;
      Fill(used, Zeros(64 - used));
      assert buffer[..] == buffer[..used] + buffer[used..used + (64 - used)];
      HashBuffer(f);
    }

    /** 0x80 and zeros up to where the length goes. They stay in the block that the message ends in
        when the length still fits there; otherwise that block is hashed and the zeros go on. */
    method PadBuffer() returns (ghost f: seq<Byte>)
      requires Valid()
      modifies `a, `b, `c, `d, buffer, block
      ensures |f| % 64 == 0 && Registers() == Chain(INITIAL, f)
      ensures Pad(msg) == f + (buffer[..56] + BitLength(|msg|))
    {
      hide Chain, Full, Tail, Pad, BitLength, Zeros, Counts;
      CounterFill(lo, hi, |msg|);
      f := Full(msg);
      var used := lo % 64;
      buffer[used] := 0x80;
      used := used + 1;
      assert buffer[..used] == Tail(msg) + [0x80];
      var available := 64 - used;
      if available < 8 {
        Spill(f, used);
        PadInTwoBlocks(msg);
        f := f + (Tail(msg) + [0x80] + Zeros(available));
        used := 0;
        available := 64;
      } else {
        PadInOneBlock(msg);
      }
      ghost var front := buffer[..used];
      Fill(used, Zeros(available - 8));
      assert buffer[..56] == front + Zeros(available - 8);
    }

    method FinishBlocks()
      requires Valid()
      modifies `lo, `a, `b, `c, `d, buffer, block
      ensures Registers() == Chain(INITIAL, Pad(msg))
    {
      ghost var f := PadBuffer();
      hide Chain, Pad, BitLength, Counts;
      WriteLength();
      HashBuffer(f);
    }

    method WriteWord(result: array<Byte>, at: nat, w: Word)
      requires at + 4 <= result.Length
      modifies result
      ensures result[..at + 4] == old(result[..at]) + Encode(w)
    {
      result[at] := (w & 0xff) as Byte;
      result[at + 1] := ((w >> 8) & 0xff) as Byte;
      result[at + 2] := ((w >> 16) & 0xff) as Byte;
      result[at + 3] := ((w >> 24) & 0xff) as Byte;
    }

    method WriteResult(result: array<Byte>)
      requires result.Length == 16
      modifies result
      ensures result[..] == Output(Registers())
    {
      hide Encode;
      assert result[..0] == [];
      WriteWord(result, 0, a);
      assert result[..4] == Encode(a);
      WriteWord(result, 4, b);
      WriteWord(result, 8, c);
      WriteWord(result, 12, d);
      assert result[..] == result[..16];
    }

    /** memset(ctx, 0, sizeof(*ctx)). */
    method Wipe()
      modifies this, buffer, block
      ensures lo == hi == 0 && Registers() == Regs(0, 0, 0, 0)
      ensures forall i | 0 <= i < buffer.Length :: buffer[i] == 0
      ensures forall i | 0 <= i < block.Length :: block[i] == 0
    {
      lo, hi := 0, 0;
      a, b, c, d := 0, 0, 0, 0;
      forall i | 0 <= i < buffer.Length {
        buffer[i] := 0;
      }
      forall i | 0 <= i < block.Length {
        block[i] := 0;
      }
    }

    method Final(result: array<Byte>)
      requires Valid() && result.Length == 16 && result != buffer
      modifies this, buffer, block, result
      ensures result[..] == Digest(old(msg))
      ensures lo == hi == 0 && Registers() == Regs(0, 0, 0, 0)
      ensures forall i | 0 <= i < buffer.Length :: buffer[i] == 0
      ensures forall i | 0 <= i < block.Length :: block[i] == 0
    {
      hide Chain, Output, Pad;
      FinishBlocks();
      WriteResult(result);
      Wipe();
    }
  }

  // ---------- The wrapper functions ----------

  /** hash_md5_binary: None and null stand for null pointers. */
  method HashBinary(data: Option<seq<Byte>>, output: array?<Byte>) returns (code: int)
    requires data.Some? ==> |data.value| < TWO64
    requires output != null ==> output.Length == 16
    modifies output
    ensures code == if data.None? || output == null then -1 else 0
    ensures code == 0 ==> output[..] == Digest(data.value)
    ensures code != 0 && output != null ==> output[..] == old(output[..])
  {
    if data.None? || output == null {
      return -1;
    }
    var ctx := new Md5Ctx();
    ctx.Init();
    ctx.Update(data.value);
    assert [] + data.value == data.value;
    ctx.Final(output);
    return 0;
  }

  /** Every run Init, Update, ..., Update, Final: the digest is that of the concatenation, so it
      does not depend on how the message was cut. */
  method HashPieces(pieces: seq<seq<Byte>>) returns (digest: seq<Byte>)
    requires forall p | p in pieces :: |p| < TWO64
    ensures digest == Digest(Flatten(pieces))
  {
    var ctx := new Md5Ctx();
    ctx.Init();
    for i := 0 to |pieces|
      invariant ctx.Valid() && fresh(ctx) && fresh(ctx.buffer) && fresh(ctx.block)
      invariant ctx.msg == Flatten(pieces[..i])
    {
      assert pieces[..i + 1][..i] == pieces[..i];
      ctx.Update(pieces[i]);
    }
    assert pieces[..|pieces|] == pieces;
    var result := new Byte[16];
    ctx.Final(result);
    digest := result[..];
  }

  // ---------- Hexadecimal text ----------

  function HexDigit(n: nat): char
    requires n < 16
  {
    "0123456789abcdef"[n]
  }

  /** What "%02x" prints for one byte. */
  function HexByte(b: Byte): (t: string)
    ensures |t| == 2
  {
    [HexDigit(b as nat / 16), HexDigit(b as nat % 16)]
  }

  function Hex(s: seq<Byte>): (t: string)
    ensures |t| == 2 * |s|
  {
    if s == [] then "" else Hex(s[..|s| - 1]) + HexByte(s[|s| - 1])
  }

  /** The reader of hexadecimal text. */
  function HexValue(c: char): nat {
    if '0' <= c <= '9' then c as nat - '0' as nat
    else if 'a' <= c <= 'f' then c as nat - 'a' as nat + 10
    else 0
  }

  function FromHex(t: string): seq<nat> {
    if |t| < 2 then [] else FromHex(t[..|t| - 2]) + [16 * HexValue(t[|t| - 2]) + HexValue(t[|t| - 1])]
  }

  function Values(s: seq<Byte>): seq<nat> {
    if s == [] then [] else Values(s[..|s| - 1]) + [s[|s| - 1] as nat]
  }

  lemma HexDigitValue(n: nat)
    requires n < 16
    ensures HexValue(HexDigit(n)) == n
  {
  }

  lemma HexByteValue(b: Byte)
    ensures 16 * HexValue(HexByte(b)[0]) + HexValue(HexByte(b)[1]) == b as nat
  {
    var n := b as nat;
    HexDigitValue(n / 16);
    HexDigitValue(n % 16);
  }

  lemma FromHexEmpty()
    ensures FromHex("") == []
  {
  }

  lemma {:induction false} FromHexSnoc(t: string, b: Byte)
    ensures FromHex(t + HexByte(b)) == FromHex(t) + [b as nat]
  {
    HexByteValue(b);
    hide HexByte, HexValue;
    assert (t + HexByte(b))[..|t|] == t;
  }

  /** The text determines the digest: reading it back gives the value of every byte. */
  lemma {:induction false} HexRoundTrip(s: seq<Byte>)
    ensures FromHex(Hex(s)) == Values(s)
  {
    hide HexByte, FromHex;
    if s == [] {
      FromHexEmpty();
    } else {
      HexRoundTrip(s[..|s| - 1]);
      FromHexSnoc(Hex(s[..|s| - 1]), s[|s| - 1]);
    }
  }

  /** hash_md5_binary_to_string. Every "%02x" also stores a NUL, which the next one overwrites. */
  method BinaryToString(binary: seq<Byte>, output: array<char>) returns (code: int)
    requires |binary| == 16
    modifies output
    ensures code == if output.Length < 33 then -1 else 0
    ensures code == 0 ==> output[..33] == Hex(binary) + ['\0'] && output[33..] == old(output[33..])
    ensures code != 0 ==> output[..] == old(output[..])
  {
    if output.Length < 33 {
      return -1;
    }
    for i := 0 to 16
      invariant output[..2 * i] == Hex(binary[..i])
      invariant output[33..] == old(output[33..])
    {
      ghost var before := output[..2 * i];
      var text := HexByte(binary[i]);
      output[2 * i] := text[0];
      output[2 * i + 1] := text[1];
      output[2 * i + 2] := '\0';
      assert output[..2 * (i + 1)] == before + text;
      assert binary[..i + 1][..i] == binary[..i];
    }
    output[32] := '\0';
    assert binary[..16] == binary;
    return 0;
  }
}
