/** Numbers written as bits and bits as bytes, most significant first: what the bit readers are measured against. */
module BitWriter {
  import opened Basics
  import opened FlacBits

  /** The n low bits of v. */
  function Bits(v: nat, n: nat): (b: seq<bit>)
    ensures |b| == n
  {
    if n == 0 then [] else Bits(v / 2, n - 1) + [v % 2]
  }

  function SignedBits(v: int, n: nat): (b: seq<bit>)
    ensures |b| == n
  {
    Bits(v % Pow2(n), n)
  }

  lemma {:induction false} BitsNumber(v: nat, n: nat)
    requires v < Pow2(n)
    ensures ToNat(Bits(v, n)) == v
  {
    if n > 0 {
      BitsNumber(v / 2, n - 1);
      assert Bits(v, n)[..n - 1] == Bits(v / 2, n - 1);
    }
  }

  lemma ReadsNat(bits: seq<bit>, pos: nat, v: nat, n: nat)
    requires HasAt(bits, pos, Bits(v, n)) && v < Pow2(n)
    ensures ReadNat(bits, pos, n) == Got(v, pos + n)
  {
    hide Bits, ToNat, Pow2;
    BitsNumber(v, n);
  }

  /** Whole bytes from their bits. */
  function Pack(bits: seq<bit>): (s: seq<byte>)
    requires |bits| % 8 == 0
    ensures 8 * |s| == |bits|
  {
    if bits == [] then []
    else
      EightBits(bits[..8]);
      [ToNat(bits[..8])] + Pack(bits[8..])
  }

  lemma {:induction false} UnpackPack(bits: seq<bit>)
    requires |bits| % 8 == 0
    ensures Unpack(Pack(bits)) == bits
  {
    if bits == [] {
      assert Pack(bits) == [];
    } else {
      hide *;
      PackFirst(bits);
      UnpackPack(bits[8..]);
      UnpackWord(bits[..8], Pack(bits[8..]));
      CutAt(bits, 8);
    }
  }

  lemma UnpackWord(w: seq<bit>, rest: seq<byte>)
    requires |w| == 8
    ensures 0 <= ToNat(w) < 256 && Unpack([ToNat(w)] + rest) == w + Unpack(rest)
  {
    hide *;
    WordOfByte(w);
    UnpackFirst(ToNat(w), rest);
  }

  lemma CutAt<T>(s: seq<T>, i: nat)
    requires i <= |s|
    ensures s[..i] + s[i..] == s
  {
  }

  lemma PackFirst(bits: seq<bit>)
    requires bits != [] && |bits| % 8 == 0
    ensures 0 <= ToNat(bits[..8]) < 256
    ensures Pack(bits) == [ToNat(bits[..8])] + Pack(bits[8..])
  {
    hide ToNat;
    EightBits(bits[..8]);
  }

  lemma EightBits(s: seq<bit>)
    requires |s| == 8
    ensures ToNat(s) < 256
  {
    hide ToNat, Pow2;
    ToNatBound(s);
    SmallPowers();
  }

  // ---- bytes and bits at a position -----------------------------------------------------------------------

  /** Bits [i, j) as a number. */
  function Num(bits: seq<bit>, i: nat, j: nat): nat
    requires i <= j <= |bits|
  {
    ToNat(bits[i..j])
  }

  lemma UnpackSlice(s: seq<byte>, i: nat, j: nat)
    requires i <= j <= |s|
    ensures Unpack(s[i..j]) == Unpack(s)[8 * i..8 * j]
  {
    hide *;
    UnpackInThree(s, i, j);
    MiddlePart(Unpack(s[..i]), Unpack(s[i..j]), Unpack(s[j..]), 8 * i, 8 * j);
  }

  lemma MiddlePart<T>(x: seq<T>, y: seq<T>, z: seq<T>, i: nat, j: nat)
    requires |x| == i && |x| + |y| == j
    ensures (x + (y + z))[i..j] == y
  {
  }

  lemma UnpackInThree(s: seq<byte>, i: nat, j: nat)
    requires i <= j <= |s|
    ensures Unpack(s) == Unpack(s[..i]) + (Unpack(s[i..j]) + Unpack(s[j..]))
  {
    hide *;
    InTwo(s, i, j);
    UnpackConcat(s[..i], s[i..j] + s[j..]);
    UnpackConcat(s[i..j], s[j..]);
  }

  lemma InTwo<T>(s: seq<T>, i: nat, j: nat)
    requires i <= j <= |s|
    ensures s == s[..i] + (s[i..j] + s[j..])
  {
  }

  lemma HasBits(s: seq<byte>, pos: nat, x: seq<byte>)
    requires HasAt(s, pos, x)
    ensures HasAt(Unpack(s), 8 * pos, Unpack(x))
  {
    hide Unpack;
    UnpackSlice(s, pos, pos + |x|);
  }

  lemma NumOfByte(s: seq<byte>, i: nat)
    requires i < |s|
    ensures s[i] == Num(Unpack(s), 8 * i, 8 * i + 8)
  {
    hide Unpack, ToNat, ByteBits;
    UnpackAt(s, i);
    ToNatByte(s[i]);
  }

  lemma NumInTwo(bits: seq<bit>, i: nat, j: nat, k: nat)
    requires i <= j <= k <= |bits|
    ensures Num(bits, i, k) == Num(bits, i, j) * Pow2(k - j) + Num(bits, j, k) && Num(bits, j, k) < Pow2(k - j)
  {
    hide ToNat, Pow2;
    Adjoin(bits, i, j, k);
    ToNatConcat(bits[i..j], bits[j..k]);
    ToNatBound(bits[j..k]);
  }

  lemma NumIs(bits: seq<bit>, pos: nat, v: nat, n: nat)
    requires HasAt(bits, pos, Bits(v, n)) && v < Pow2(n)
    ensures pos + n <= |bits| && Num(bits, pos, pos + n) == v
  {
    hide Bits, ToNat, Pow2;
    BitsNumber(v, n);
  }
}
