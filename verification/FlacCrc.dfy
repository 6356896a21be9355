/**
 The two checksums of a FLAC frame.  The definition divides the message, one bit at a time, by the generator
 polynomial (x^8+x^2+x+1 or x^16+x^15+x^2+1).  The program looks a byte at a time up in tables.

 A machine word is its bits here, most significant first.
 */
module FlacCrc {
  import opened Basics
  import opened FlacBits

  type Word = seq<bit>

  function Xor(a: Word, b: Word): (c: Word)
    requires |a| == |b|
    ensures |c| == |a|
  {
    seq(|a|, i requires 0 <= i < |a| => if a[i] == b[i] then 0 else 1)
  }

  function Zeros(n: nat): (z: Word)
    ensures |z| == n
  {
    seq(n, _ => 0)
  }

  /** x^8 + x^2 + x + 1 and x^16 + x^15 + x^2 + 1, without the leading term. */
  const POLY8: Word := [0, 0, 0, 0, 0, 1, 1, 1]
  const POLY16: Word := [1, 0, 0, 0, 0, 0, 0, 0, 0, 0, 0, 0, 0, 1, 0, 1]

  // ---- the definition ---------------------------------------------------------------------------

  /** The message's next bit into the division whose remainder so far is r. */
  function TakeBit(poly: Word, r: Word, b: bit): (c: Word)
    requires |r| == |poly| > 0
    ensures |c| == |poly|
  {
    Xor(r[1..] + [0], if r[0] != b then poly else Zeros(|poly|))
  }

  function TakeBits(poly: Word, r: Word, bits: seq<bit>): (c: Word)
    requires |r| == |poly| > 0
    ensures |c| == |poly|
    decreases |bits|
  {
    if bits == [] then r else TakeBits(poly, TakeBit(poly, r, bits[0]), bits[1..])
  }

  /** The remainder of a message. */
  function Remainder(poly: Word, s: seq<byte>): (r: Word)
    requires |poly| > 0
    ensures |r| == |poly|
  {
    if s == [] then Zeros(|poly|)
    else TakeBits(poly, Remainder(poly, s[..|s| - 1]), ByteBits(s[|s| - 1]))
  }

  function Crc8(s: seq<byte>): (c: byte) {
    ToNatBound(Remainder(POLY8, s));
    SmallPowers();
    ToNat(Remainder(POLY8, s))
  }

  function Crc16(s: seq<byte>): (c: nat)
    ensures c < 0x1_0000
  {
    ToNatBound(Remainder(POLY16, s));
    SixteenBits();
    ToNat(Remainder(POLY16, s))
  }

  lemma SixteenBits()
    ensures Pow2(16) == 0x1_0000
  {
    SmallPowers();
    Pow2Sum(8, 8);
  }

  // ---- the steps of the division without the message ---------------------------------------------

  function Shifts(poly: Word, c: Word, n: nat): (r: Word)
    requires |c| == |poly| > 0
    ensures |r| == |poly|
    decreases n
  {
    if n == 0 then c else Shifts(poly, TakeBit(poly, c, 0), n - 1)
  }

  lemma TakeBitLinear(poly: Word, x: Word, y: Word, b: bit, d: bit)
    requires |x| == |y| == |poly| > 0
    ensures TakeBit(poly, Xor(x, y), if b == d then 0 else 1) == Xor(TakeBit(poly, x, b), TakeBit(poly, y, d))
  {
  }

  /** The steps are linear. */
  lemma {:induction false} ShiftsLinear(poly: Word, x: Word, y: Word, n: nat)
    requires |x| == |y| == |poly| > 0
    ensures Shifts(poly, Xor(x, y), n) == Xor(Shifts(poly, x, n), Shifts(poly, y, n))
    decreases n
  {
    if n > 0 {
      TakeBitLinear(poly, x, y, 0, 0);
      ShiftsLinear(poly, TakeBit(poly, x, 0), TakeBit(poly, y, 0), n - 1);
    }
  }

  /** A word whose first n bits are zero only moves up by n steps. */
  lemma {:induction false} ShiftsMoveUp(poly: Word, x: Word, n: nat)
    requires |x| == |poly| > 0 && n <= |poly|
    requires forall i :: 0 <= i < n ==> x[i] == 0
    ensures Shifts(poly, x, n) == x[n..] + Zeros(n)
    decreases n
  {
    if n > 0 {
      var y := x[1..] + [0];
      assert TakeBit(poly, x, 0) == y;
      ShiftsMoveUp(poly, y, n - 1);
      assert y[n - 1..] + Zeros(n - 1) == x[n..] + Zeros(n);
    }
  }

  /** The message's bits may be added to the remainder all at once, ahead of the division's steps. */
  lemma {:induction false} BitsAtOnce(poly: Word, r: Word, bits: seq<bit>)
    requires |r| == |poly| > 0 && |bits| <= |poly|
    ensures TakeBits(poly, r, bits) == Shifts(poly, Xor(r, bits + Zeros(|poly| - |bits|)), |bits|)
    decreases |bits|
  {
    var w := |poly|;
    if bits == [] {
      XorZeros(r);
      assert bits + Zeros(w) == Zeros(w);
    } else {
      var pad := bits + Zeros(w - |bits|);
      var pad' := bits[1..] + Zeros(w - |bits| + 1);
      var r' := TakeBit(poly, r, bits[0]);
      BitsAtOnce(poly, r', bits[1..]);
      TakeBitAhead(poly, r, pad);
      assert pad[1..] + [0] == pad';
    }
  }

  /** A message bit may be added to the top of the remainder ahead of its step. */
  lemma TakeBitAhead(poly: Word, r: Word, pad: Word)
    requires |r| == |pad| == |poly| > 0
    ensures TakeBit(poly, Xor(r, pad), 0) == Xor(TakeBit(poly, r, pad[0]), pad[1..] + [0])
  {
  }

  lemma XorZeros(r: Word)
    ensures Xor(r, Zeros(|r|)) == r
  {
  }

  // ---- what the checksums are for ------------------------------------------------------------------

  lemma {:induction false} ShiftsOfZeros(poly: Word, n: nat)
    requires |poly| > 0
    ensures Shifts(poly, Zeros(|poly|), n) == Zeros(|poly|)
  {
    if n > 0 {
      ShiftsOfZeros(poly, n - 1);
      var z := Zeros(|poly|);
      assert TakeBit(poly, z, 0) == z;
    }
  }

  /** Its own bits take a remainder to zero. */
  lemma TakesItselfAway(poly: Word, r: Word)
    requires |r| == |poly| > 0
    ensures TakeBits(poly, r, r) == Zeros(|poly|)
  {
    BitsAtOnce(poly, r, r);
    assert Xor(r, r + Zeros(0)) == Zeros(|poly|);
    ShiftsOfZeros(poly, |r|);
  }

  lemma {:induction false} TakeBitsInTwo(poly: Word, r: Word, x: seq<bit>, y: seq<bit>)
    requires |r| == |poly| > 0
    ensures TakeBits(poly, r, x + y) == TakeBits(poly, TakeBits(poly, r, x), y)
    decreases |x|
  {
    if x == [] {
      assert x + y == y;
    } else {
      assert (x + y)[1..] == x[1..] + y;
      TakeBitsInTwo(poly, TakeBit(poly, r, x[0]), x[1..], y);
    }
  }

  lemma RemainderOfOneMore(poly: Word, s: seq<byte>, b: byte)
    requires |poly| > 0
    ensures Remainder(poly, s + [b]) == TakeBits(poly, Remainder(poly, s), ByteBits(b))
  {
    assert (s + [b])[..|s|] == s;
  }

  /** A message with its CRC-8 behind it divides without remainder. */
  lemma WithItsCrc8(s: seq<byte>)
    ensures Remainder(POLY8, s + [Crc8(s)]) == Zeros(8)
  {
    hide TakeBits, ByteBits, Remainder, ToNat;
    var r := Remainder(POLY8, s);
    RemainderOfOneMore(POLY8, s, Crc8(s));
    WordOfByte(r);
    TakesItselfAway(POLY8, r);
  }

  /** A message with its CRC-16 behind it, most significant byte first, divides without remainder. */
  lemma WithItsCrc16(s: seq<byte>)
    ensures Remainder(POLY16, s + [Crc16(s) / 256] + [Crc16(s) % 256]) == Zeros(16)
  {
    hide TakeBits, ByteBits, Remainder, ToNat;
    var r := Remainder(POLY16, s);
    var hi, lo: byte := Crc16(s) / 256, Crc16(s) % 256;
    RemainderOfOneMore(POLY16, s, hi);
    RemainderOfOneMore(POLY16, s + [hi], lo);
    HalvesOf(r);
    TakeBitsInTwo(POLY16, r, ByteBits(hi), ByteBits(lo));
    TakesItselfAway(POLY16, r);
  }

  lemma HalvesOf(r: Word)
    requires |r| == 16
    ensures ToNat(r) < 0x1_0000
    ensures ByteBits(ToNat(r) / 256) + ByteBits(ToNat(r) % 256) == r
  {
    hide ToNat, ByteBits;
    var x, y := r[..8], r[8..];
    assert r == x + y;
    ToNatConcat(x, y);
    WordOfByte(x);
    WordOfByte(y);
    SmallPowers();
    DivMod(ToNat(x), 256, ToNat(y));
  }

  /** q times g, as polynomials over the two-element field. */
  function Times(q: seq<bit>, g: seq<bit>): (p: seq<bit>)
    requires g != []
    ensures |p| == |q| + |g| - 1
  {
    if q == [] then Zeros(|g| - 1)
    else
      var n := |q| - 1;
      Xor(Times(q[..n], g) + [0], Zeros(n) + (if q[n] == 1 then g else Zeros(|g|)))
  }

  /** The steps divide: moved up by the generator's degree, the message is a multiple of the generator and the rest. */
  lemma {:induction false} StepsDivide(poly: Word, bits: seq<bit>) returns (q: seq<bit>)
    requires |poly| > 0
    ensures |q| == |bits|
    ensures bits + Zeros(|poly|)
         == Xor(Times(q, [1] + poly), Zeros(|bits|) + TakeBits(poly, Zeros(|poly|), bits))
  {
    var w, n := |poly|, |bits|;
    if bits == [] {
      q := [];
      XorZeros(Zeros(w));
    } else {
      var front, b := bits[..n - 1], bits[n - 1];
      var q' := StepsDivide(poly, front);
      var r := TakeBits(poly, Zeros(w), front);
      assert bits == front + [b];
      TakeBitsInTwo(poly, Zeros(w), front, [b]);
      q := q' + [if r[0] != b then 1 else 0];
      assert q[..n - 1] == q';
      OneMoreStep(poly, front, b, r, Times(q', [1] + poly));
    }
  }

  lemma OneMoreStep(poly: Word, front: seq<bit>, b: bit, r: Word, p: seq<bit>)
    requires |r| == |poly| > 0 && |p| == |front| + |poly|
    requires front + Zeros(|poly|) == Xor(p, Zeros(|front|) + r)
    ensures var g, n := [1] + poly, |front|;
            var p' := Xor(p + [0], Zeros(n) + (if r[0] != b then g else Zeros(|g|)));
            front + [b] + Zeros(|poly|) == Xor(p', Zeros(n + 1) + TakeBits(poly, r, [b]))
  {
    hide TakeBit, TakeBits;
    var w, n := |poly|, |front|;
    var g, t := [1] + poly, TakeBit(poly, r, b);
    OneBit(poly, r, b);
    var x, y := Zeros(n) + (if r[0] != b then g else Zeros(w + 1)), Zeros(n + 1) + t;
    var all := front + [b] + Zeros(w);
    forall i | 0 <= i < n + w + 1
      ensures all[i] == Xor(Xor(p + [0], x), y)[i]
    {
      hide Xor;
      XorAt(Xor(p + [0], x), y, i);
      XorAt(p + [0], x, i);
      if i < n + w {
        assert (front + Zeros(w))[i] == Xor(p, Zeros(n) + r)[i];
        XorAt(p, Zeros(n) + r, i);
      }
      if i >= n {
        BitOfStep(poly, r, b, i - n);
      }
    }
  }

  lemma XorAt(a: Word, b: Word, i: nat)
    requires |a| == |b| && i < |a|
    ensures Xor(a, b)[i] == if a[i] == b[i] then 0 else 1
  {
  }

  lemma OneBit(poly: Word, r: Word, b: bit)
    requires |r| == |poly| > 0
    ensures TakeBits(poly, r, [b]) == TakeBit(poly, r, b)
  {
  }

  lemma BitOfStep(poly: Word, r: Word, b: bit, i: int)
    requires |r| == |poly| > 0 && i <= |poly|
    ensures 0 < i ==>
              var up := if i < |poly| then r[i] else 0;
              TakeBit(poly, r, b)[i - 1] == if r[0] != b && poly[i - 1] == 1 then 1 - up else up
  {
  }

  /** The remainder is the message's, as one row of bits. */
  lemma {:induction false} RemainderOfBits(poly: Word, s: seq<byte>)
    requires |poly| > 0
    ensures Remainder(poly, s) == TakeBits(poly, Zeros(|poly|), Unpack(s))
  {
    hide ByteBits;
    if s != [] {
      var front, b := s[..|s| - 1], s[|s| - 1];
      RemainderOfBits(poly, front);
      assert s == front + [b];
      UnpackConcat(front, [b]);
      assert Unpack([b]) == ByteBits(b);
      TakeBitsInTwo(poly, Zeros(|poly|), Unpack(front), ByteBits(b));
    }
  }

  /** The CRC-8 is what division by x^8 + x^2 + x + 1 leaves of the message. */
  lemma Crc8Divides(s: seq<byte>) returns (q: seq<bit>)
    ensures |q| == 8 * |s|
    ensures Unpack(s) + Zeros(8) == Xor(Times(q, [1, 0, 0, 0, 0, 0, 1, 1, 1]), Zeros(8 * |s|) + ByteBits(Crc8(s)))
  {
    hide TakeBits, ByteBits, Unpack, Remainder, ToNat, Times;
    RemainderOfBits(POLY8, s);
    WordOfByte(Remainder(POLY8, s));
    q := StepsDivide(POLY8, Unpack(s));
    assert [1] + POLY8 == [1, 0, 0, 0, 0, 0, 1, 1, 1];
  }

  /** The CRC-16 is what division by x^16 + x^15 + x^2 + 1 leaves of the message. */
  lemma Crc16Divides(s: seq<byte>) returns (q: seq<bit>)
    ensures |q| == 8 * |s|
    ensures Unpack(s) + Zeros(16)
         == Xor(Times(q, [1, 1, 0, 0, 0, 0, 0, 0, 0, 0, 0, 0, 0, 0, 1, 0, 1]),
                Zeros(8 * |s|) + (ByteBits(Crc16(s) / 256) + ByteBits(Crc16(s) % 256)))
  {
    hide TakeBits, ByteBits, Unpack, Remainder, ToNat, Times;
    RemainderOfBits(POLY16, s);
    HalvesOf(Remainder(POLY16, s));
    q := StepsDivide(POLY16, Unpack(s));
    assert [1] + POLY16 == [1, 1, 0, 0, 0, 0, 0, 0, 0, 0, 0, 0, 0, 0, 1, 0, 1];
  }

  // ---- a byte by a table entry ---------------------------------------------------------------------

  lemma ByteByTable8(r: Word, b: byte)
    requires |r| == 8
    ensures TakeBits(POLY8, r, ByteBits(b)) == Shifts(POLY8, Xor(r, ByteBits(b)) + Zeros(0), 8)
  {
    hide TakeBits, Shifts, ByteBits, Xor;
    BitsAtOnce(POLY8, r, ByteBits(b));
    assert ByteBits(b) + Zeros(0) == ByteBits(b);
    assert Xor(r, ByteBits(b)) + Zeros(0) == Xor(r, ByteBits(b));
  }

  lemma XorInHalves(r: Word, b: Word)
    requires |r| == 16 && |b| == 8
    ensures Xor(r, b + Zeros(8)) == Xor(Zeros(8) + r[8..], Xor(r[..8], b) + Zeros(8))
  {
  }

  lemma ByteByTable16(r: Word, b: byte)
    requires |r| == 16
    ensures TakeBits(POLY16, r, ByteBits(b)) ==
            Xor(r[8..] + Zeros(8), Shifts(POLY16, Xor(r[..8], ByteBits(b)) + Zeros(8), 8))
  {
    hide TakeBits, Shifts, ByteBits, TakeBit;
    BitsAtOnce(POLY16, r, ByteBits(b));
    var high, low := Xor(r[..8], ByteBits(b)) + Zeros(8), Zeros(8) + r[8..];
    XorInHalves(r, ByteBits(b));
    ShiftsLinear(POLY16, low, high, 8);
    ShiftsMoveUp(POLY16, low, 8);
    assert low[8..] == r[8..];
  }

  // ---- the program's form ------------------------------------------------------------------------

  /** Entry i is eight steps of the division from i, above `pad` zeros. */
  ghost predicate IsTable(t: array<Word>, poly: Word, pad: nat)
    requires |poly| == 8 + pad
    reads t
  {
    t.Length == 256 && forall i: byte :: t[i] == Shifts(poly, ByteBits(i) + Zeros(pad), 8)
  }

  method MakeTable(poly: Word, pad: nat) returns (t: array<Word>)
    requires |poly| == 8 + pad
    ensures fresh(t) && IsTable(t, poly, pad)
  {
    hide Shifts, ByteBits, Zeros;
    t := new Word[256];
    for i := 0 to 256
      invariant forall j: byte :: j < i ==> t[j] == Shifts(poly, ByteBits(j) + Zeros(pad), 8)
    {
      var c := EightSteps(poly, ByteBits(i) + Zeros(pad));
      t[i] := c;
    }
  }

  method EightSteps(poly: Word, start: Word) returns (c: Word)
    requires |start| == |poly| > 0
    ensures c == Shifts(poly, start, 8)
  {
    c := start;
    for step := 0 to 8
      invariant |c| == |poly|
      invariant Shifts(poly, start, 8) == Shifts(poly, c, 8 - step)
    {
      hide Xor, Zeros;
      XorZeros(c[1..] + [0]);
      c := if c[0] == 1 then Xor(c[1..] + [0], poly) else c[1..] + [0];
    }
  }

  class Tables {
    const table8: array<Word>
    const table16: array<Word>

    ghost predicate Valid()
      reads this, table8, table16
    {
      IsTable(table8, POLY8, 0) && IsTable(table16, POLY16, 8)
    }

    constructor ()
      ensures Valid() && fresh(table8) && fresh(table16)
    {
      var t8 := MakeTable(POLY8, 0);
      var t16 := MakeTable(POLY16, 8);
      table8, table16 := t8, t16;
    }

    /** The table-driven CRC-8 of the first n bytes is the remainder of the division. */
    method Crc8(p: seq<byte>, n: nat) returns (c: Word)
      requires Valid() && n <= |p|
      ensures c == Remainder(POLY8, p[..n])
    {
      hide Xor, TakeBits, Shifts, ByteBits;
      c := Zeros(8);
      for i := 0 to n
        invariant c == Remainder(POLY8, p[..i])
      {
        ByteByTable8(c, p[i]);
        assert p[..i + 1][..i] == p[..i];
        WordOfByte(Xor(c, ByteBits(p[i])));
        c := table8[ToNat(Xor(c, ByteBits(p[i])))];
      }
    }

    /** The table-driven CRC-16 of the first n bytes is the remainder of the division. */
    method Crc16(p: seq<byte>, n: nat) returns (c: Word)
      requires Valid() && n <= |p|
      ensures c == Remainder(POLY16, p[..n])
    {
      hide Xor, TakeBits, Shifts, ByteBits;
      c := Zeros(16);
      for i := 0 to n
        invariant c == Remainder(POLY16, p[..i])
      {
        ByteByTable16(c, p[i]);
        assert p[..i + 1][..i] == p[..i];
        WordOfByte(Xor(c[..8], ByteBits(p[i])));
        c := Xor(c[8..] + Zeros(8), table16[ToNat(Xor(c[..8], ByteBits(p[i])))]);
      }
    }
  }
}
