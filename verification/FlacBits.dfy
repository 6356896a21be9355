/**
 The bit reader of source/audio/flac_dec.c, against a buffer read as one sequence of bits, most
 significant bit of each byte first.
 */
module FlacBits {
  import opened Basics

  type bit = x: int | 0 <= x < 2

  function Pow2(n: nat): (p: nat)
    ensures p >= 1
  {
    if n == 0 then 1 else 2 * Pow2(n - 1)
  }

  function ByteBits(b: byte): (s: seq<bit>)
    ensures |s| == 8
  {
    [b / 128, b / 64 % 2, b / 32 % 2, b / 16 % 2, b / 8 % 2, b / 4 % 2, b / 2 % 2, b % 2]
  }

  /** A buffer as one sequence of bits. */
  function Unpack(s: seq<byte>): (bits: seq<bit>)
    ensures |bits| == 8 * |s|
  {
    if s == [] then [] else ByteBits(s[0]) + Unpack(s[1..])
  }

  /** The number a sequence of bits stands for. */
  function ToNat(bits: seq<bit>): nat {
    if bits == [] then 0 else 2 * ToNat(bits[..|bits| - 1]) + bits[|bits| - 1]
  }

  /** The zeros from `pos` up to the next one, or to the end of the bits. */
  function ZeroRun(bits: seq<bit>, pos: nat): (z: nat)
    ensures pos <= |bits| ==> pos + z <= |bits|
    ensures forall i :: pos <= i < pos + z && i < |bits| ==> bits[i] == 0
    ensures pos + z < |bits| ==> bits[pos + z] == 1
    ensures pos >= |bits| ==> z == 0
    decreases |bits| - pos
  {
    if pos >= |bits| || bits[pos] == 1 then 0 else 1 + ZeroRun(bits, pos + 1)
  }

  // ---- parse results ------------------------------------------------------------------------

  /** What reading at a position gives: a damaged stream, too few bits to tell, or a value and where it ends. */
  datatype Parse<+T> = Invalid | Short | Got(val: T, pos: nat)

  function ReadNat(bits: seq<bit>, pos: nat, n: nat): (r: Parse<nat>)
    ensures r.Got? ==> r.pos == pos + n <= |bits| && r.val < Pow2(n)
    ensures !r.Invalid?
  {
    if pos + n > |bits| then Short
    else
      ToNatBound(bits[pos..pos + n]);
      Got(ToNat(bits[pos..pos + n]), pos + n)
  }

  /** n bits as a two's-complement number. */
  function SignExtend(v: int, n: nat): int
    requires n > 0
  {
    if v >= Pow2(n - 1) then v - Pow2(n) else v
  }

  function ReadInt(bits: seq<bit>, pos: nat, n: nat): (r: Parse<int>)
    requires n > 0
    ensures r.Got? ==> r.pos == pos + n <= |bits| && -(Pow2(n - 1) as int) <= r.val < Pow2(n - 1)
    ensures !r.Invalid?
  {
    match ReadNat(bits, pos, n)
    case Got(v, p) => Got(SignExtend(v, n), p)
    case _ => Short
  }

  // ---- lemmas about numbers and bits --------------------------------------------------------

  lemma {:induction false} Pow2Sum(a: nat, b: nat)
    ensures Pow2(a + b) == Pow2(a) * Pow2(b)
  {
    if a > 0 {
      Pow2Sum(a - 1, b);
      assert Pow2(a + b) == 2 * Pow2(a - 1 + b);
      assert 2 * (Pow2(a - 1) * Pow2(b)) == (2 * Pow2(a - 1)) * Pow2(b);
    }
  }

  lemma {:induction false} Pow2Mono(a: nat, b: nat)
    requires a <= b
    ensures Pow2(a) <= Pow2(b)
  {
    if a < b {
      Pow2Mono(a, b - 1);
    }
  }

  lemma {:induction false} ToNatBound(s: seq<bit>)
    ensures ToNat(s) < Pow2(|s|)
  {
    if s != [] {
      ToNatBound(s[..|s| - 1]);
    }
  }

  lemma {:induction false} ToNatConcat(x: seq<bit>, y: seq<bit>)
    ensures ToNat(x + y) == ToNat(x) * Pow2(|y|) + ToNat(y)
  {
    if y == [] {
      assert x + y == x;
    } else {
      var y' := y[..|y| - 1];
      assert (x + y)[..|x + y| - 1] == x + y';
      ToNatConcat(x, y');
      assert 2 * (ToNat(x) * Pow2(|y'|)) == ToNat(x) * Pow2(|y|) by {
        MulAssoc(ToNat(x), Pow2(|y'|));
      }
    }
  }

  lemma MulAssoc(a: int, b: int)
    ensures 2 * (a * b) == a * (2 * b)
  {
  }

  lemma ToNatByte(b: byte)
    ensures ToNat(ByteBits(b)) == b
  {
    hide ToNat;
    var s := ByteBits(b);
    ToNatOfNone(s[..0]);
    ToNatDrops(s, 1, b / 128);
    ToNatDrops(s, 2, b / 64);
    ToNatDrops(s, 3, b / 32);
    ToNatDrops(s, 4, b / 16);
    ToNatDrops(s, 5, b / 8);
    ToNatDrops(s, 6, b / 4);
    ToNatDrops(s, 7, b / 2);
    ToNatDrops(s, 8, b);
    assert s[..8] == s;
  }

  /** One more bit at the end of a number. */
  lemma ToNatOfNone(s: seq<bit>)
    requires s == []
    ensures ToNat(s) == 0
  {
  }

  lemma ToNatDrops(s: seq<bit>, n: nat, v: nat)
    requires 0 < n <= |s|
    requires ToNat(s[..n - 1]) == v / 2 && s[n - 1] == v % 2
    ensures ToNat(s[..n]) == v
  {
    assert s[..n][..n - 1] == s[..n - 1];
  }

  lemma {:induction false} UnpackConcat(s: seq<byte>, t: seq<byte>)
    ensures Unpack(s + t) == Unpack(s) + Unpack(t)
  {
    hide ByteBits;
    if s == [] {
      assert s + t == t;
    } else {
      assert (s + t)[1..] == s[1..] + t;
      UnpackConcat(s[1..], t);
    }
  }

  /** One more byte of a number read most significant byte first. */
  lemma ToNatAppendByte(x: seq<bit>, b: byte)
    ensures ToNat(x + ByteBits(b)) == 256 * ToNat(x) + b
  {
    ToNatConcat(x, ByteBits(b));
    ToNatByte(b);
    assert Pow2(8) == 256;
  }

  lemma {:induction false} ToNatZeros(z: seq<bit>)
    requires forall i :: 0 <= i < |z| ==> z[i] == 0
    ensures ToNat(z) == 0
  {
    if z != [] {
      ToNatZeros(z[..|z| - 1]);
    }
  }

  /** Shifting right drops bits at the end; masking keeps bits at the end. */
  lemma ShiftAndMask(a: seq<bit>, b: seq<bit>, c: seq<bit>)
    ensures ToNat(a + b + c) / Pow2(|c|) % Pow2(|b|) == ToNat(b)
  {
    ToNatConcat(a + b, c);
    ToNatConcat(a, b);
    ToNatBound(b);
    ToNatBound(c);
    DivMod(ToNat(a + b), Pow2(|c|), ToNat(c));
    DivMod(ToNat(a), Pow2(|b|), ToNat(b));
  }

  lemma {:induction false} ToNatInjective(x: seq<bit>, y: seq<bit>)
    requires |x| == |y| && ToNat(x) == ToNat(y)
    ensures x == y
  {
    if x != [] {
      ToNatInjective(x[..|x| - 1], y[..|y| - 1]);
    }
  }

  /** A byte-sized word and the byte it is. */
  lemma WordOfByte(x: seq<bit>)
    requires |x| == 8
    ensures 0 <= ToNat(x) < 256 && ByteBits(ToNat(x)) == x
  {
    ToNatBound(x);
    SmallPowers();
    ToNatByte(ToNat(x));
    ToNatInjective(ByteBits(ToNat(x)), x);
  }

  // ---- the reader ----------------------------------------------------------------------------

  /** Runs of zeros longer than this are given up on, at the byte boundary where it shows. */
  const RUNAWAY: nat := 0x400_0000

  /** How far from `pos` the reader is when it gives up a run of zeros. */
  function RunawayAt(pos: nat): (n: nat)
    ensures RUNAWAY < n && 0x400_0000 < n <= 0x400_0008 && (pos + n) % 8 == 0
  {
    (pos + RUNAWAY + 8) / 8 * 8 - pos
  }

  lemma SmallPowers()
    ensures Pow2(0) == 1 && Pow2(1) == 2 && Pow2(2) == 4 && Pow2(3) == 8 && Pow2(4) == 16
    ensures Pow2(5) == 32 && Pow2(6) == 64 && Pow2(7) == 128 && Pow2(8) == 256
  {
  }

  /** How many leading zeros an 8-bit number that is not zero has. */
  function Clz8(x: byte): (z: nat)
    requires x > 0
    ensures z < 8 && Pow2(7 - z) <= x < Pow2(8 - z)
  {
    SmallPowers();
    if x >= 128 then 0 else if x >= 64 then 1 else if x >= 32 then 2 else if x >= 16 then 3
    else if x >= 8 then 4 else if x >= 4 then 5 else if x >= 2 then 6 else 7
  }

  lemma ZerosThen(zeros: seq<bit>, rest: seq<bit>)
    requires forall i :: 0 <= i < |zeros| ==> zeros[i] == 0
    ensures ToNat(zeros + rest) == ToNat(rest)
  {
    ToNatConcat(zeros, rest);
    ToNatZeros(zeros);
  }

  lemma ToNatOneThen(rest: seq<bit>)
    ensures Pow2(|rest|) <= ToNat([1] + rest) < Pow2(|rest| + 1)
  {
    var n := Pow2(|rest|);
    assert ToNat([1]) == 1 by { assert [1][..0] == []; }
    assert ToNat([1] + rest) == 1 * n + ToNat(rest) by { ToNatConcat([1], rest); }
    assert ToNat(rest) < n by { ToNatBound(rest); }
    assert Pow2(|rest| + 1) == 2 * n;
  }

  /** The first one among some bits shows in the size of their number. */
  lemma FirstOneShows(y: seq<bit>)
    ensures var z := ZeroRun(y, 0);
            if z == |y| then ToNat(y) == 0
            else Pow2(|y| - 1 - z) <= ToNat(y) < Pow2(|y| - z)
  {
    hide ToNat, Pow2;
    var z := ZeroRun(y, 0);
    if z < |y| {
      var rest := y[z + 1..];
      SplitAt(y, z);
      ZerosThen(y[..z], [1] + rest);
      ToNatOneThen(rest);
    } else {
      ToNatZeros(y);
    }
  }

  /** The last bits of a byte are its remainder. */
  lemma ToNatSuffix(b: byte, off: nat)
    requires off < 8
    ensures ToNat(ByteBits(b)[off..]) == b % Pow2(8 - off)
  {
    var x, y := ByteBits(b)[..off], ByteBits(b)[off..];
    assert ByteBits(b) == x + y;
    ToNatByte(b);
    ToNatConcat(x, y);
    ToNatBound(y);
    DivMod(ToNat(x), Pow2(8 - off), ToNat(y));
  }

  lemma ShiftedByte(b: byte, off: nat)
    requires off < 8
    ensures b * Pow2(off) % 256 == b % Pow2(8 - off) * Pow2(off)
  {
    var k, m := Pow2(off), Pow2(8 - off);
    assert m * k == 256 by { Pow2Sum(8 - off, off); SmallPowers(); }
    ShiftWithin(b, k, m);
  }

  lemma ShiftWithin(b: nat, k: nat, m: nat)
    requires m > 0 && k > 0 && m * k == 256
    ensures b * k % 256 == b % m * k
  {
    var q, r := b / m, b % m;
    assert b == m * q + r;
    assert b * k == q * (m * k) + r * k by { Distribute(m, q, r, k); }
    MulMono(k, r + 1, m);
    DivMod(q, 256, r * k);
  }

  lemma Distribute(m: int, q: int, r: int, k: int)
    ensures (m * q + r) * k == q * (m * k) + r * k
  {
  }

  lemma Scaled(n: nat, lo: nat, hi: nat, off: nat)
    requires Pow2(lo) <= n < Pow2(hi)
    ensures Pow2(lo + off) <= n * Pow2(off) < Pow2(hi + off)
  {
    assert Pow2(lo + off) == Pow2(lo) * Pow2(off) by { Pow2Sum(lo, off); }
    assert Pow2(hi + off) == Pow2(hi) * Pow2(off) by { Pow2Sum(hi, off); }
    ScaledBy(n, Pow2(lo), Pow2(hi), Pow2(off));
  }

  lemma ScaledBy(n: nat, a: nat, b: nat, p: nat)
    requires a <= n < b && p > 0
    ensures a * p <= n * p < b * p
  {
    MulMono(p, a, n);
    MulMono(p, n + 1, b);
  }

  lemma Clz8Unique(x: byte, z: nat)
    requires z < 8 && Pow2(7 - z) <= x < Pow2(8 - z)
    ensures x > 0 && Clz8(x) == z
  {
    if z < Clz8(x) {
      Pow2Mono(8 - Clz8(x), 7 - z);
    } else if Clz8(x) < z {
      Pow2Mono(8 - z, 7 - Clz8(x));
    }
  }

  /** What is left of a byte after `off` bits, moved to the top of the byte. */
  function LeftAlign(b: byte, off: nat): byte {
    b * Pow2(off) % 256
  }

  /** What is left of a byte shows where its next one is. */
  lemma NextOneInByte(b: byte, off: nat)
    requires off < 8
    ensures var cur := LeftAlign(b, off);
            var z := ZeroRun(ByteBits(b)[off..], 0);
            if cur > 0 then z == Clz8(cur) < 8 - off else z == 8 - off
  {
    var y := ByteBits(b)[off..];
    LeftAlignIs(b, off);
    hide *;
    FirstOneScaled(y, off, LeftAlign(b, off));
  }

  lemma LeftAlignIs(b: byte, off: nat)
    requires off < 8
    ensures LeftAlign(b, off) == ToNat(ByteBits(b)[off..]) * Pow2(off)
  {
    hide ToNat, ByteBits, Pow2;
    ToNatSuffix(b, off);
    ShiftedByte(b, off);
  }

  lemma FirstOneScaled(y: seq<bit>, off: nat, cur: byte)
    requires |y| + off == 8 && cur == ToNat(y) * Pow2(off)
    ensures var z := ZeroRun(y, 0);
            if cur > 0 then z == Clz8(cur) < 8 - off else z == 8 - off
  {
    hide *;
    var z := ZeroRun(y, 0);
    FirstOneShows(y);
    if z < |y| {
      Scaled(ToNat(y), 7 - off - z, 8 - off - z, off);
      Clz8Unique(cur, z);
    }
  }

  // ---- the reader over a buffer ----------------------------------------------------------------

  lemma UnpackFirst(b: byte, s: seq<byte>)
    ensures Unpack([b] + s) == ByteBits(b) + Unpack(s)
  {
    TailOf(b, s);
  }

  lemma UnpackSplit(s: seq<byte>, i: nat)
    requires i < |s|
    ensures Unpack(s) == Unpack(s[..i]) + (ByteBits(s[i]) + Unpack(s[i + 1..]))
  {
    hide ByteBits, Unpack;
    SplitAt(s, i);
    UnpackConcat(s[..i], [s[i]] + s[i + 1..]);
    UnpackFirst(s[i], s[i + 1..]);
  }

  lemma UnpackAt(s: seq<byte>, i: nat)
    requires i < |s|
    ensures Unpack(s)[8 * i..8 * i + 8] == ByteBits(s[i])
  {
    hide ByteBits, Unpack;
    var x, y, z := Unpack(s[..i]), ByteBits(s[i]), Unpack(s[i + 1..]);
    UnpackSplit(s, i);
    MiddleOf(x, y, z);
  }

  /** A run of zeros seen through a window of the bits. */
  lemma {:induction false} ZeroRunInWindow(bits: seq<bit>, pos: nat, m: nat)
    requires pos + m <= |bits|
    ensures var z := ZeroRun(bits[pos..pos + m], 0);
            ZeroRun(bits, pos) == if z < m then z else m + ZeroRun(bits, pos + m)
  {
    var w := bits[pos..pos + m];
    var z := ZeroRun(w, 0);
    forall i | pos <= i < pos + z
      ensures bits[i] == 0
    {
      assert w[i - pos] == 0;
    }
    ZeroRunSkips(bits, pos, z);
    if z < m {
      assert w[z] == bits[pos + z];
    }
  }

  lemma {:induction false} ZeroRunSkips(bits: seq<bit>, pos: nat, k: nat)
    requires pos + k <= |bits|
    requires forall i :: pos <= i < pos + k ==> bits[i] == 0
    ensures ZeroRun(bits, pos) == k + ZeroRun(bits, pos + k)
    decreases k
  {
    if k > 0 {
      ZeroRunSkips(bits, pos + 1, k - 1);
    }
  }

  lemma RestOfByte(buf: seq<byte>, first: nat, off: nat)
    requires first < |buf| && off < 8
    ensures Unpack(buf)[8 * first + off..8 * first + 8] == ByteBits(buf[first])[off..]
  {
    hide Unpack, ByteBits;
    var bits := Unpack(buf);
    UnpackAt(buf, first);
    assert bits[8 * first..8 * first + 8][off..] == bits[8 * first + off..8 * first + 8];
  }

  lemma ZerosInByte(buf: seq<byte>, first: nat, off: nat, w: seq<bit>)
    requires first < |buf| && off < 8
    requires w == ByteBits(buf[first])[off..]
    ensures var z := ZeroRun(w, 0);
            ZeroRun(Unpack(buf), 8 * first + off) ==
            if z < 8 - off then z else 8 - off + ZeroRun(Unpack(buf), 8 * first + 8)
  {
    hide Unpack, ByteBits;
    RestOfByte(buf, first, off);
    ZeroRunInWindow(Unpack(buf), 8 * first + off, 8 - off);
  }

  lemma NextByte(buf: seq<byte>, first: nat, i: nat)
    requires first + i < |buf|
    ensures var bits := Unpack(buf);
            ToNat(bits[8 * first..8 * (first + i + 1)])
            == 256 * ToNat(bits[8 * first..8 * (first + i)]) + buf[first + i]
  {
    hide Unpack, ByteBits, ToNat;
    var bits, j := Unpack(buf), first + i;
    UnpackAt(buf, j);
    assert 8 * (j + 1) == 8 * j + 8;
    Adjoin(bits, 8 * first, 8 * j, 8 * j + 8);
    ToNatAppendByte(bits[8 * first..8 * j], buf[j]);
  }

  /** v without its last `drop` bits, and of that the last n. */
  function Extract(v: nat, drop: nat, n: nat): nat {
    v / Pow2(drop) % Pow2(n)
  }

  lemma InThree<T>(s: seq<T>, i: nat, j: nat)
    requires i <= j <= |s|
    ensures s == s[..i] + s[i..j] + s[j..]
  {
  }

  /** The bytes that n bits lie in, taken as one number, shifted and masked, are those bits. */
  lemma BitsOfBytes(bits: seq<bit>, first: nat, off: nat, n: nat, need: nat)
    requires off < 8 && 1 <= n <= 32 && 8 * need - 8 < off + n <= 8 * need
    requires 8 * (first + need) <= |bits|
    ensures var v := ToNat(bits[8 * first..8 * (first + need)]);
            var pos := 8 * first + off;
            v < 0x1_0000_0000_0000_0000 && Extract(v, need * 8 - off - n, n) == ToNat(bits[pos..pos + n])
  {
    hide ToNat, Pow2;
    var w := bits[8 * first..8 * (first + need)];
    FitsWord(w);
    InThree(w, off, off + n);
    SliceOfSlice(bits, 8 * first, 8 * (first + need), off, off + n);
    ShiftAndMask(w[..off], w[off..off + n], w[off + n..]);
  }

  lemma FitsWord(w: seq<bit>)
    requires |w| <= 40
    ensures ToNat(w) < 0x1_0000_0000_0000_0000
  {
    ToNatBound(w);
    Pow2Mono(|w|, 40);
    FiveBytes();
  }

  /** What one look at a byte tells about the zeros from `pos` on. */
  lemma LookAtByte(buf: seq<byte>, pos: nat)
    requires pos < 8 * |buf|
    ensures var cur := LeftAlign(buf[pos / 8], pos % 8);
            var z := ZeroRun(Unpack(buf), pos);
            if cur > 0 then z == Clz8(cur) && pos + z < 8 * |buf|
            else z == (8 - pos % 8) + ZeroRun(Unpack(buf), pos + (8 - pos % 8))
  {
    hide Unpack, Pow2, ByteBits, LeftAlign, Clz8, ZeroRun;
    var first, off := pos / 8, pos % 8;
    assert pos == 8 * first + off;
    ZerosInByte(buf, first, off, ByteBits(buf[first])[off..]);
    NextOneInByte(buf[first], off);
  }

  lemma RunawayUnique(pos: nat, count: nat)
    requires RUNAWAY < count <= RUNAWAY + 8 && (pos + count) % 8 == 0
    ensures count == RunawayAt(pos)
  {
  }

  lemma FoundInTime(pos: nat, count: nat, z: nat)
    requires count <= RUNAWAY && (count > 0 ==> (pos + count) % 8 == 0) && z < 8
    ensures count + z < RunawayAt(pos)
  {
  }

  class BitReader {
    const buf: seq<byte>
    var pos: nat       // in bits
    var over: bool     // a read went past the end, or a run of zeros was given up on

    constructor (buf: seq<byte>, pos: nat)
      ensures this.buf == buf && this.pos == pos && !over
    {
      this.buf := buf;
      this.pos := pos;
      over := false;
    }

    /** `need` whole bytes as one number. */
    method BytesAt(first: nat, need: nat) returns (v: nat)
      requires first + need <= |buf|
      ensures v == ToNat(Unpack(buf)[8 * first..8 * (first + need)])
    {
      ghost var bits := Unpack(buf);
      hide Unpack, ByteBits;
      v := 0;
      for i := 0 to need
        invariant v == ToNat(bits[8 * first..8 * (first + i)])
      {
        NextByte(buf, first, i);
        v := v * 256 + buf[first + i];
      }
    }

    /** n bits as an unsigned number; zero, with `over` set, when they are not all there. */
    method Get(n: int) returns (v: nat)
      requires n <= 32
      modifies this
      ensures n <= 0 ==> v == 0 && pos == old(pos) && over == old(over)
      ensures n > 0 ==>
                match ReadNat(Unpack(buf), old(pos), n)
                case Got(val, end) => v == val && pos == end && over == old(over)
                case _ => v == 0 && pos == old(pos) + n && over
    {
      hide Unpack, Pow2, Extract, ToNat;
      if n <= 0 {
        return 0;
      }
      if pos + n > 8 * |buf| {
        over := true;
        pos := pos + n;
        return 0;
      }
      var first := pos / 8;
      var off := pos % 8;
      var need := (off + n + 7) / 8;
      v := BytesAt(first, need);
      BitsOfBytes(Unpack(buf), first, off, n, need);
      assert v < 0x1_0000_0000_0000_0000;    // the 64-bit accumulator holds the bytes it takes
      v := Extract(v, need * 8 - off - n, n);
      pos := pos + n;
    }

    /** n bits as a two's-complement number. */
    method GetSigned(n: int) returns (v: int)
      requires n <= 32
      modifies this
      ensures n <= 0 ==> v == 0 && pos == old(pos) && over == old(over)
      ensures n > 0 ==>
                match ReadInt(Unpack(buf), old(pos), n)
                case Got(val, end) => v == val && pos == end && over == old(over)
                case _ => v == 0 && pos == old(pos) + n && over
    {
      if n <= 0 {
        return 0;
      }
      var u := Get(n);
      // left to the top of a 32-bit word, then back with the sign
      ShiftedSign(u, n);
      v := ToInt32(u * Pow2(32 - n)) / Pow2(32 - n);
    }

    /** Up to the next one bit of the byte at hand, past it, or up to the byte's end. */
    method NextInByte() returns (found: bool, z: nat)
      requires pos < 8 * |buf|
      modifies this`pos
      ensures found ==> z == ZeroRun(Unpack(buf), old(pos)) && z < 8 && pos == old(pos) + z + 1 <= 8 * |buf|
      ensures !found ==> 0 < z <= 8 && pos == old(pos) + z && pos % 8 == 0
                         && ZeroRun(Unpack(buf), old(pos)) == z + ZeroRun(Unpack(buf), pos)
    {
      hide Unpack, Pow2, ByteBits, LeftAlign, Clz8, ZeroRun;
      var first := pos / 8;
      var off := pos % 8;
      LookAtByte(buf, pos);
      var cur := LeftAlign(buf[first], off);
      if cur > 0 {
        z := Clz8(cur);
        pos := pos + z + 1;
        return true, z;
      }
      pos := pos + (8 - off);
      return false, 8 - off;
    }

    /** The zeros before the next one bit, which is consumed. */
    method Unary() returns (count: nat)
      modifies this
      ensures var z, lim := ZeroRun(Unpack(buf), old(pos)), RunawayAt(old(pos));
              if z >= lim then count == lim && pos == old(pos) + lim && over
              else if old(pos) + z >= 8 * |buf| then count == z && pos == old(pos) + z && over
              else count == z && pos == old(pos) + z + 1 && over == old(over)
    {
      hide *;
      ghost var bits := Unpack(buf);
      count := 0;
      while true
        invariant pos == old(pos) + count && over == old(over)
        invariant count <= RUNAWAY && (count > 0 ==> pos % 8 == 0)
        invariant ZeroRun(bits, old(pos)) == count + ZeroRun(bits, pos)
        decreases RUNAWAY - count
      {
        if pos >= 8 * |buf| {
          over := true;
          return;
        }
        var found, z := NextInByte();
        if found {
          FoundInTime(old(pos), count, z);
          count := count + z;
          return;
        }
        count := count + z;
        if count > RUNAWAY {
          RunawayUnique(old(pos), count);
          over := true;
          return;
        }
      }
    }
  }

  type int32 = x: int | -0x8000_0000 <= x < 0x8000_0000

  /** A number modulo 2^32 as the 32-bit signed number with the same bits. */
  function ToInt32(x: int): (r: int32)
    ensures -0x8000_0000 <= x < 0x8000_0000 ==> r == x
    ensures (r - x) % 0x1_0000_0000 == 0
  {
    var m := x % 0x1_0000_0000;
    if m >= 0x8000_0000 then m - 0x1_0000_0000 else m
  }

  lemma FiveBytes()
    ensures Pow2(40) < 0x1_0000_0000_0000_0000
    ensures Pow2(32) == 0x1_0000_0000 && Pow2(31) == 0x8000_0000
  {
    SmallPowers();
    Pow2Sum(8, 8);
    Pow2Sum(16, 16);
    Pow2Sum(8, 32);
  }

  lemma ShiftedSign(u: nat, n: nat)
    requires 1 <= n <= 32 && u < Pow2(n)
    ensures ToInt32(u * Pow2(32 - n)) / Pow2(32 - n) == SignExtend(u, n)
  {
    hide Pow2;
    FiveBytes();
    Pow2Sum(n, 32 - n);
    Pow2Sum(n - 1, 32 - n);
    ShiftedUp(u, Pow2(n), Pow2(n - 1), Pow2(32 - n));
  }

  /** Half of d, times k, is the sign bit of a word. */
  lemma ShiftedUp(u: nat, d: nat, half: nat, k: nat)
    requires u < d && k > 0 && d * k == 0x1_0000_0000 && half * k == 0x8000_0000
    ensures ToInt32(u * k) / k == if u >= half then u - d else u
  {
    ScaledBy(u, 0, d, k);
    if u >= half {
      MulMono(k, half, u);
      DistributeSub(u, d, k);
      DivMod(u - d, k, 0);
    } else {
      ScaledBy(u, 0, half, k);
      DivMod(u, k, 0);
    }
  }

  lemma DistributeSub(a: int, b: int, k: int)
    ensures (a - b) * k == a * k - b * k
  {
  }
}
