/**
 UTF-8 as RFC 3629 section 3 defines it, by the bits of its bytes, and that the decoder's encoding of a code point is
 that and nothing else.
 */
module Utf8Format {
  import opened Basics
  import opened FlacBits
  import opened JsonUnescape

  /** What the first byte of a sequence of n bytes starts with. */
  function Marker(n: nat): (m: seq<bit>)
    requires 1 <= n <= 4
  {
    match n
    case 1 => [0]
    case 2 => [1, 1, 0]
    case 3 => [1, 1, 1, 0]
    case 4 => [1, 1, 1, 1, 0]
  }

  /** The first byte tells the length, and each of the others that it is not a first one. */
  predicate Marked(s: seq<byte>) {
    && 1 <= |s| <= 4 && Marker(|s|) <= ByteBits(s[0])
    && forall i :: 1 <= i < |s| ==> [1, 0] <= ByteBits(s[i])
  }

  /** The bits behind the marks. */
  function Payload(s: seq<byte>): seq<bit>
    requires Marked(s)
  {
    ByteBits(s[0])[|Marker(|s|)|..] + Continued(s[1..])
  }

  function Continued(s: seq<byte>): seq<bit> {
    if s == [] then [] else ByteBits(s[0])[2..] + Continued(s[1..])
  }

  /** The least code point that needs so many bytes. */
  const LEAST: seq<nat> := [0, 0x80, 0x800, 0x1_0000]

  /** The bytes are a code point's: its bits, most significant first, in the fewest bytes that hold them. */
  predicate IsUtf8(s: seq<byte>, cp: nat) {
    Marked(s) && ToNat(Payload(s)) == cp && LEAST[|s| - 1] <= cp
  }

  // ---- in numbers ------------------------------------------------------------------------------------------

  lemma MarksInNumbers(b: byte)
    ensures Marker(1) <= ByteBits(b) <==> b < 0x80
    ensures Marker(2) <= ByteBits(b) <==> 0xC0 <= b < 0xE0
    ensures Marker(3) <= ByteBits(b) <==> 0xE0 <= b < 0xF0
    ensures Marker(4) <= ByteBits(b) <==> 0xF0 <= b < 0xF8
    ensures [1, 0] <= ByteBits(b) <==> 0x80 <= b < 0xC0
  {
    LeadOf(ByteBits(b), b);
    hide ByteBits;
  }

  lemma LeadOf(s: seq<bit>, b: byte)
    requires s == ByteBits(b)
    ensures s[0] == b / 128 && s[1] == b / 64 % 2 && s[2] == b / 32 % 2 && s[3] == b / 16 % 2 && s[4] == b / 8 % 2
  {
  }

  /** What the marks leave of a first byte. */
  function LeadPart(b: byte, n: nat): nat
    requires 1 <= n <= 4
  {
    match n
    case 1 => b % 128
    case 2 => b % 32
    case 3 => b % 16
    case 4 => b % 8
  }

  /** Six more bits. */
  function Six(high: nat, b: byte): nat { high * 64 + b % 64 }

  function Joins(high: nat, s: seq<byte>): nat
    decreases |s|
  {
    if s == [] then high else Joins(Six(high, s[0]), s[1..])
  }

  lemma LeadValue(b: byte, n: nat)
    requires 1 <= n <= 4
    ensures ToNat(ByteBits(b)[|Marker(n)|..]) == LeadPart(b, n)
  {
    hide ToNat, ByteBits;
    SmallPowers();
    ToNatSuffix(b, |Marker(n)|);
  }

  lemma {:induction false} ContinuedValue(front: seq<bit>, s: seq<byte>)
    ensures ToNat(front + Continued(s)) == Joins(ToNat(front), s)
    decreases |s|
  {
    hide ToNat, ByteBits;
    if s == [] {
      assert front + Continued(s) == front;
    } else {
      var six := ByteBits(s[0])[2..];
      SmallPowers();
      ToNatSuffix(s[0], 2);
      ToNatConcat(front, six);
      ContinuedValue(front + six, s[1..]);
      assert front + Continued(s) == front + six + Continued(s[1..]);
    }
  }

  lemma PayloadValue(s: seq<byte>)
    requires Marked(s)
    ensures ToNat(Payload(s)) == Joins(LeadPart(s[0], |s|), s[1..])
  {
    hide ToNat, ByteBits, LeadPart;
    LeadValue(s[0], |s|);
    ContinuedValue(ByteBits(s[0])[|Marker(|s|)|..], s[1..]);
  }

  /** What the bytes say, in numbers. */
  predicate Says(s: seq<byte>, cp: nat) {
    match |s|
    case 1 => s[0] < 0x80 && cp == s[0]
    case 2 => 0xC0 <= s[0] < 0xE0 && Cont(s[1]) && cp == Six(s[0] % 32, s[1])
    case 3 => 0xE0 <= s[0] < 0xF0 && Cont(s[1]) && Cont(s[2]) && cp == Six(Six(s[0] % 16, s[1]), s[2])
    case 4 =>
      && 0xF0 <= s[0] < 0xF8 && Cont(s[1]) && Cont(s[2]) && Cont(s[3])
      && cp == Six(Six(Six(s[0] % 8, s[1]), s[2]), s[3])
    case _ => false
  }

  predicate Cont(b: byte) { 0x80 <= b < 0xC0 }

  lemma MarkedInNumbers(s: seq<byte>)
    requires 1 <= |s| <= 4
    ensures Marked(s) <==> && (match |s|
                               case 1 => s[0] < 0x80
                               case 2 => 0xC0 <= s[0] < 0xE0
                               case 3 => 0xE0 <= s[0] < 0xF0
                               case 4 => 0xF0 <= s[0] < 0xF8)
                           && forall i :: 1 <= i < |s| ==> Cont(s[i])
  {
    hide ByteBits, Marker;
    forall i | 0 <= i < |s|
      ensures Marker(1) <= ByteBits(s[i]) <==> s[i] < 0x80
      ensures Marker(2) <= ByteBits(s[i]) <==> 0xC0 <= s[i] < 0xE0
      ensures Marker(3) <= ByteBits(s[i]) <==> 0xE0 <= s[i] < 0xF0
      ensures Marker(4) <= ByteBits(s[i]) <==> 0xF0 <= s[i] < 0xF8
      ensures [1, 0] <= ByteBits(s[i]) <==> Cont(s[i])
    {
      MarksInNumbers(s[i]);
    }
  }

  lemma JoinsInNumbers(high: nat, s: seq<byte>)
    requires |s| <= 3
    ensures Joins(high, s) ==
            match |s|
            case 0 => high
            case 1 => Six(high, s[0])
            case 2 => Six(Six(high, s[0]), s[1])
            case 3 => Six(Six(Six(high, s[0]), s[1]), s[2])
    decreases |s|
  {
    hide Six;
    if |s| > 0 {
      JoinsInNumbers(Six(high, s[0]), s[1..]);
    }
  }

  lemma InNumbers(s: seq<byte>, cp: nat)
    ensures IsUtf8(s, cp) <==> Says(s, cp) && LEAST[|s| - 1] <= cp
  {
    hide Marked, Payload, ToNat;
    if 1 <= |s| <= 4 {
      MarkedInNumbers(s);
      JoinsInNumbers(LeadPart(s[0], |s|), s[1..]);
      if Marked(s) {
        PayloadValue(s);
      }
    } else {
      NoLength(s);
    }
  }

  lemma NoLength(s: seq<byte>)
    requires !(1 <= |s| <= 4)
    ensures !Marked(s)
  {
  }

  /** The bytes written for a code point are its UTF-8, and no others are. */
  lemma Utf8Exactly(s: seq<byte>, cp: nat)
    requires cp < 0x11_0000
    ensures IsUtf8(s, cp) <==> s == Utf8(cp)
  {
    InNumbers(s, cp);
    hide IsUtf8;
    if Says(s, cp) && LEAST[|s| - 1] <= cp {
      SaidOnce(s, cp);
    } else if s == Utf8(cp) {
      IsSaid(cp);
    }
  }

  lemma IsSaid(cp: nat)
    requires cp < 0x11_0000
    ensures Says(Utf8(cp), cp) && LEAST[|Utf8(cp)| - 1] <= cp
  {
    if cp < 0x80 {
    } else if cp < 0x800 {
      InTwo(cp, cp / 64, cp % 64);
    } else if cp < 0x1_0000 {
      InThree(cp, cp / 4096, cp / 64 % 64, cp % 64);
    } else {
      InFour(cp, cp / 0x4_0000, cp / 4096 % 64, cp / 64 % 64, cp % 64);
    }
  }

  lemma InTwo(cp: nat, high: nat, a: nat)
    requires high < 32 && a < 64 && cp / 64 == high && cp % 64 == a
    ensures Says([0xC0 + high, 0x80 + a], cp)
  {
    TwoDigits(cp, high, 0x80 + a);
  }

  lemma InThree(cp: nat, high: nat, a: nat, b: nat)
    requires high < 16 && a < 64 && b < 64 && cp / 4096 == high && cp / 64 % 64 == a && cp % 64 == b
    ensures Says([0xE0 + high, 0x80 + a, 0x80 + b], cp)
  {
    ThreeDigits(cp, high, 0x80 + a, 0x80 + b);
    hide Six;
  }

  lemma InFour(cp: nat, high: nat, a: nat, b: nat, c: nat)
    requires high < 8 && a < 64 && b < 64 && c < 64
    requires cp / 0x4_0000 == high && cp / 4096 % 64 == a && cp / 64 % 64 == b && cp % 64 == c
    ensures Says([0xF0 + high, 0x80 + a, 0x80 + b, 0x80 + c], cp)
  {
    hide Six;
    LowSix(a);
    LowSix(b);
    LowSix(c);
    LowThree(high);
    FourDigits(cp, high, 0x80 + a, 0x80 + b, 0x80 + c);
  }

  lemma LowSix(a: nat)
    requires a < 64
    ensures (0x80 + a) % 64 == a && Cont(0x80 + a)
  {
  }

  lemma LowThree(high: nat)
    requires high < 8
    ensures 0xF0 <= 0xF0 + high < 0xF8 && (0xF0 + high) % 8 == high
  {
  }

  lemma SaidOnce(s: seq<byte>, cp: nat)
    requires cp < 0x11_0000 && Says(s, cp) && LEAST[|s| - 1] <= cp
    ensures s == Utf8(cp)
  {
    hide Six;
    match |s|
    case 1 => assert s == [s[0]];
    case 2 => TwoDigits(cp, s[0] % 32, s[1]); TwoMarked(s);
    case 3 => ThreeDigits(cp, s[0] % 16, s[1], s[2]); ThreeMarked(s);
    case 4 => FourDigits(cp, s[0] % 8, s[1], s[2], s[3]); FourMarked(s);
  }

  lemma TwoMarked(s: seq<byte>)
    requires |s| == 2 && 0xC0 <= s[0] < 0xE0 && Cont(s[1])
    ensures s == [0xC0 + s[0] % 32, 0x80 + s[1] % 64]
  {
  }

  lemma ThreeMarked(s: seq<byte>)
    requires |s| == 3 && 0xE0 <= s[0] < 0xF0 && Cont(s[1]) && Cont(s[2])
    ensures s == [0xE0 + s[0] % 16, 0x80 + s[1] % 64, 0x80 + s[2] % 64]
  {
  }

  lemma FourMarked(s: seq<byte>)
    requires |s| == 4 && 0xF0 <= s[0] < 0xF8 && Cont(s[1]) && Cont(s[2]) && Cont(s[3])
    ensures s == [0xF0 + s[0] % 8, 0x80 + s[1] % 64, 0x80 + s[2] % 64, 0x80 + s[3] % 64]
  {
  }

  lemma TwoDigits(cp: nat, high: nat, a: byte)
    ensures Six(high, a) == cp <==> cp / 64 == high && cp % 64 == a % 64
  {
  }

  lemma ThreeDigits(cp: nat, high: nat, a: byte, b: byte)
    ensures Six(Six(high, a), b) == cp <==> cp / 4096 == high && cp / 64 % 64 == a % 64 && cp % 64 == b % 64
  {
    TwoDigits(cp, Six(high, a), b);
    TwoDigits(cp / 64, high, a);
    assert cp / 64 / 64 == cp / 4096;
  }

  lemma FourDigits(cp: nat, high: nat, a: byte, b: byte, c: byte)
    ensures Six(Six(Six(high, a), b), c) == cp <==>
            && cp / 0x4_0000 == high && cp / 4096 % 64 == a % 64 && cp / 64 % 64 == b % 64 && cp % 64 == c % 64
  {
    TwoDigits(cp, Six(Six(high, a), b), c);
    ThreeDigits(cp / 64, high, a, b);
    assert cp / 64 / 64 == cp / 4096 && cp / 64 / 4096 == cp / 0x4_0000;
  }

  /** The bytes are in the order of the code points: the first byte that differs is the smaller one's. */
  lemma OrderIsKept(a: nat, b: nat) returns (k: nat)
    requires a < b < 0x11_0000
    ensures k < |Utf8(a)| && k < |Utf8(b)| && Utf8(a)[..k] == Utf8(b)[..k] && Utf8(a)[k] < Utf8(b)[k]
  {
    var x, y := Utf8(a), Utf8(b);
    k := 0;
    if |x| == |y| {
      DifferSomewhere(a, b);
      k :| 0 <= k < |x| && FirstDifference(x, y, k);
      hide Utf8;
      assert x[..k] == y[..k];
    }
  }

  lemma DifferSomewhere(a: nat, b: nat)
    requires a < b < 0x11_0000 && |Utf8(a)| == |Utf8(b)|
    ensures var x, y := Utf8(a), Utf8(b);
            exists k :: 0 <= k < |x| && FirstDifference(x, y, k)
  {
    DigitsDiffer(a, b);
    var x, y := Utf8(a), Utf8(b);
    if a < 0x80 {
      assert FirstDifference(x, y, 0);
    } else if a < 0x800 {
      assert FirstDifference(x, y, if a / 64 < b / 64 then 0 else 1);
    } else if a < 0x1_0000 {
      assert FirstDifference(x, y, if a / 4096 < b / 4096 then 0 else if a / 64 < b / 64 then 1 else 2);
    } else {
      DifferInFour(a, b);
    }
  }

  lemma DifferInFour(a: nat, b: nat)
    requires 0x1_0000 <= a < b < 0x11_0000
    ensures var k := if a / 0x4_0000 < b / 0x4_0000 then 0 else if a / 4096 < b / 4096 then 1
                     else if a / 64 < b / 64 then 2 else 3;
            FirstDifference(Utf8(a), Utf8(b), k)
  {
    DigitsDiffer(a, b);
  }

  /** Of two numbers the smaller one has the smaller first digit that differs. */
  lemma DigitsDiffer(a: nat, b: nat)
    requires a < b
    ensures a / 0x4_0000 <= b / 0x4_0000 && a / 4096 <= b / 4096 && a / 64 <= b / 64
    ensures a / 0x4_0000 == b / 0x4_0000 && a / 4096 < b / 4096 ==> a / 4096 % 64 < b / 4096 % 64
    ensures a / 4096 == b / 4096 ==> a / 0x4_0000 == b / 0x4_0000
    ensures a / 4096 == b / 4096 && a / 64 < b / 64 ==> a / 64 % 64 < b / 64 % 64
    ensures a / 64 == b / 64 ==> a / 4096 == b / 4096 && a % 64 < b % 64
  {
    DigitsOf(a);
    DigitsOf(b);
  }

  lemma DigitsOf(n: nat)
    ensures n == n / 64 * 64 + n % 64
    ensures n / 64 == n / 4096 * 64 + n / 64 % 64
    ensures n / 4096 == n / 0x4_0000 * 64 + n / 4096 % 64
  {
    assert n / 64 / 64 == n / 4096;
    assert n / 4096 / 64 == n / 0x4_0000;
  }

  predicate FirstDifference(x: seq<byte>, y: seq<byte>, k: nat)
    requires |x| == |y| && k < |x|
  {
    x[k] < y[k] && forall i :: 0 <= i < k ==> x[i] == y[i]
  }
}
