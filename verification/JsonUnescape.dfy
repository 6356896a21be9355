/**
 The string decoder of source/api/json_unescape.h, over bytes: what it gives for any bytes, and that for a well-formed
 string body it gives the UTF-8 of the longest run of the body's characters, from its first on, that fits.
 */
module JsonUnescape {
  import opened Basics

  const QUOTE: byte := 0x22
  const BACKSLASH: byte := 0x5C
  const LETTER_U: byte := 0x75

  // ---- characters and their bytes ----------------------------------------------------------------------------

  predicate IsChar(cp: nat) { cp < 0xD800 || 0xE000 <= cp < 0x11_0000 }

  /** A code point's bytes (RFC 3629 section 3). */
  function Utf8(cp: nat): (s: seq<byte>)
    requires cp < 0x11_0000
    ensures 1 <= |s| <= 4
  {
    if cp < 0x80 then [cp]
    else if cp < 0x800 then [0xC0 + cp / 64, 0x80 + cp % 64]
    else if cp < 0x1_0000 then [0xE0 + cp / 4096, 0x80 + cp / 64 % 64, 0x80 + cp % 64]
    else [0xF0 + cp / 0x4_0000, 0x80 + cp / 4096 % 64, 0x80 + cp / 64 % 64, 0x80 + cp % 64]
  }

  /** How many bytes a first byte announces. */
  function LeadLength(c: byte): (n: nat)
    ensures 1 <= n <= 4
  {
    if c < 0x80 then 1 else if c >= 0xF0 then 4 else if c >= 0xE0 then 3 else if c >= 0xC0 then 2 else 1
  }

  /** As many of the characters, from the first on, as fit. */
  function Fit(cps: seq<nat>, room: nat): (s: seq<byte>)
    requires forall i :: 0 <= i < |cps| ==> cps[i] < 0x11_0000
    ensures |s| <= room
  {
    if cps == [] || |Utf8(cps[0])| > room then []
    else Utf8(cps[0]) + Fit(cps[1..], room - |Utf8(cps[0])|)
  }

  function Utf8All(cps: seq<nat>): seq<byte>
    requires forall i :: 0 <= i < |cps| ==> cps[i] < 0x11_0000
  {
    if cps == [] then [] else Utf8(cps[0]) + Utf8All(cps[1..])
  }

  /** It is the longest such run: all of them, or the next one would not have fitted. */
  lemma {:induction false} FitIsLongest(cps: seq<nat>, room: nat)
    requires forall i :: 0 <= i < |cps| ==> cps[i] < 0x11_0000
    ensures exists k: nat :: k <= |cps| && Fit(cps, room) == Utf8All(cps[..k])
                             && (k == |cps| || |Fit(cps, room)| + |Utf8(cps[k])| > room)
    decreases |cps|
  {
    hide Utf8;
    if cps == [] || |Utf8(cps[0])| > room {
      assert Fit(cps, room) == Utf8All(cps[..0]);
    } else {
      var n := |Utf8(cps[0])|;
      FitIsLongest(cps[1..], room - n);
      var k: nat :| k <= |cps| - 1 && Fit(cps[1..], room - n) == Utf8All(cps[1..][..k])
                    && (k == |cps| - 1 || |Fit(cps[1..], room - n)| + |Utf8(cps[1..][k])| > room - n);
      OneMoreCharacter(cps, k);
      assert Fit(cps, room) == Utf8All(cps[..k + 1]);
    }
  }

  lemma OneMoreCharacter(cps: seq<nat>, k: nat)
    requires k < |cps| && forall i :: 0 <= i < |cps| ==> cps[i] < 0x11_0000
    ensures Utf8All(cps[..k + 1]) == Utf8(cps[0]) + Utf8All(cps[1..][..k])
    ensures k + 1 < |cps| ==> cps[1..][k] == cps[k + 1]
  {
    hide Utf8;
    assert cps[..k + 1][1..] == cps[1..][..k] && cps[..k + 1][0] == cps[0];
  }

  // ---- the decoder on any bytes ---------------------------------------------------------------------------------

  function HexValue(c: byte): Option<nat> {
    if 0x30 <= c <= 0x39 then Some(c - 0x30)
    else if 0x61 <= c <= 0x66 then Some(c - 0x61 + 10)
    else if 0x41 <= c <= 0x46 then Some(c - 0x41 + 10)
    else None
  }

  /** n hexadecimal digits at p. */
  function HexRun(s: seq<byte>, p: nat, n: nat): Option<nat>
    requires p + n <= |s|
  {
    if n == 0 then Some(0)
    else
      match (HexRun(s, p, n - 1), HexValue(s[p + (n - 1)]))
      case (Some(v), Some(d)) => Some(v * 16 + d)
      case _ => None
  }

  function Hex4(s: seq<byte>, p: nat): (r: Option<nat>)
    ensures r.Some? ==> p + 4 <= |s| && r.value < 0x1_0000
  {
    if p + 4 > |s| then None
    else
      HexRunBound(s, p);
      HexRun(s, p, 4)
  }

  lemma HexRunBound(s: seq<byte>, p: nat)
    requires p + 4 <= |s|
    ensures HexRun(s, p, 4).Some? ==> HexRun(s, p, 4).value < 0x1_0000
  {
    assert HexRun(s, p, 1).Some? ==> HexRun(s, p, 1).value < 16;
    assert HexRun(s, p, 2).Some? ==> HexRun(s, p, 2).value < 256;
    assert HexRun(s, p, 3).Some? ==> HexRun(s, p, 3).value < 4096;
  }

  lemma {:induction false} HexRunFails(s: seq<byte>, p: nat, i: nat, n: nat)
    requires p + n <= |s| && i <= n && HexRun(s, p, i).None?
    ensures HexRun(s, p, n).None?
    decreases n
  {
    if i < n {
      HexRunFails(s, p, i, n - 1);
    }
  }

  predicate IsHigh(u: nat) { 0xD800 <= u <= 0xDBFF }

  predicate IsLow(u: nat) { 0xDC00 <= u <= 0xDFFF }

  function Joined(hi: nat, lo: nat): (cp: nat)
    requires IsHigh(hi) && IsLow(lo)
    ensures 0x1_0000 <= cp < 0x11_0000
  {
    0x1_0000 + (hi - 0xD800) * 1024 + (lo - 0xDC00)
  }

  /** The second half of a pair at p. */
  function LowAt(s: seq<byte>, p: nat): (r: Option<nat>)
    ensures r.Some? ==> p + 6 <= |s| && IsLow(r.value)
  {
    if p + 6 <= |s| && s[p] == BACKSLASH && s[p + 1] == LETTER_U && Hex4(s, p + 2).Some? && IsLow(Hex4(s, p + 2).value)
    then Hex4(s, p + 2)
    else None
  }

  /** The character the escape at p stands for, and where it ends. */
  function Escape(s: seq<byte>, p: nat): (r: (nat, nat))
    requires p + 1 < |s|
    ensures r.0 < 0x11_0000 && p + 2 <= r.1 <= |s|
  {
    var e := s[p + 1];
    if e == 0x6E then (0x0A, p + 2)
    else if e == 0x74 then (0x09, p + 2)
    else if e == 0x72 then (0x0D, p + 2)
    else if e == 0x62 then (0x08, p + 2)
    else if e == 0x66 then (0x0C, p + 2)
    else if e == LETTER_U then
      match Hex4(s, p + 2)
      case None => (0x3F, p + 2)
      case Some(u) =>
        if IsHigh(u) then
          match LowAt(s, p + 6)
          case Some(lo) => (Joined(u, lo), p + 12)
          case None => (0xFFFD, p + 6)
        else (if IsLow(u) then 0xFFFD else u, p + 6)
    else (e, p + 2)
  }

  datatype Decoded = Decoded(out: seq<byte>, next: nat)

  function Then(x: seq<byte>, d: Decoded): Decoded { Decoded(x + d.out, d.next) }

  /** Up to n bytes at p, but for a quote. */
  function RawBytes(s: seq<byte>, p: nat, n: nat): (r: seq<byte>)
    ensures |r| <= n
    decreases n
  {
    if n == 0 || p >= |s| || s[p] == QUOTE then [] else [s[p]] + RawBytes(s, p + 1, n - 1)
  }

  /**
   The bytes written from p on, with so much room left (none once a character did not fit), and where the string ends.
   */
  function Decode(s: seq<byte>, p: nat, room: Option<nat>): (d: Decoded)
    ensures room.None? ==> d.out == []
    ensures room.Some? ==> |d.out| <= room.value
    ensures d.next <= |s|
    decreases |s| - p
  {
    if p >= |s| then Decoded([], |s|)
    else if s[p] == QUOTE then Decoded([], p + 1)
    else if s[p] == BACKSLASH then
      if p + 1 >= |s| then Decoded([], |s|)
      else
        var (cp, q) := Escape(s, p);
        if room.Some? && |Utf8(cp)| <= room.value then
          Then(Utf8(cp), Decode(s, q, Some(room.value - |Utf8(cp)|)))
        else Decode(s, q, None)
    else
      var n := LeadLength(s[p]);
      if room.Some? && n <= room.value then
        var x := RawBytes(s, p, n);
        Then(x, Decode(s, p + n, Some(room.value - |x|)))
      else Decode(s, p + 1, None)
  }

  // ---- the decoder in place ----------------------------------------------------------------------------------------

  /** out[i..] gets x, if it fits whole below the last byte. */
  method PutUtf8(out: array<byte>, i: nat, cap: nat, cp: nat) returns (ni: Option<nat>)
    requires cap <= out.Length && cp < 0x11_0000 && i < cap
    modifies out
    ensures out[..i] == old(out[..i])
    ensures ni.Some? <==> |Utf8(cp)| <= cap - 1 - i
    ensures ni.Some? ==> ni.value == i + |Utf8(cp)| && out[..ni.value] == old(out[..i]) + Utf8(cp)
  {
    var b := Utf8(cp);
    if i + |b| > cap - 1 {
      return None;
    }
    for k := 0 to |b|
      invariant out[..i] == old(out[..i])
      invariant out[i..i + k] == b[..k]
    {
      out[i + k] := b[k];
    }
    assert out[..i + |b|] == out[..i] + out[i..i + |b|];
    return Some(i + |b|);
  }

  /** Copies the bytes of a raw character; returns where the output is then. */
  method PutRaw(s: seq<byte>, p: nat, n: nat, out: array<byte>, i: nat) returns (j: nat)
    requires p <= |s| && i + n <= out.Length
    modifies out
    ensures j == i + |RawBytes(s, p, n)| && out[..j] == old(out[..i]) + RawBytes(s, p, n)
  {
    var k := 0;
    j := i;
    while k < n && p + k < |s| && s[p + k] != QUOTE
      invariant k <= n && p + k <= |s| && j == i + k
      invariant out[..i] == old(out[..i])
      invariant RawBytes(s, p, n) == out[i..j] + RawBytes(s, p + k, n - k)
    {
      ghost var was := out[i..j];
      out[j] := s[p + k];
      assert out[i..j + 1] == was + [s[p + k]];
      j, k := j + 1, k + 1;
    }
    assert out[..j] == out[..i] + out[i..j];
  }

  /** How much is left below the last byte; none once the output is full or there is none. */
  function RoomAt(i: nat, cap: nat, full: bool): Option<nat> {
    if full || i >= cap then None else Some(cap - 1 - i)
  }

  /** Decodes the body at p into out, whose last byte is for the terminator; no output when cap is 0. */
  method Unescape(s: seq<byte>, p0: nat, out: array<byte>, cap: nat) returns (next: nat, length: nat)
    requires p0 <= |s| && cap <= out.Length
    modifies out
    ensures var d := Decode(s, p0, RoomAt(0, cap, false));
            && next == d.next && (cap > 0 ==> length < cap && out[..length] == d.out && out[length] == 0)
  {
    var i: nat := 0;
    var full := cap == 0;
    var p := p0;
    ghost var all := Decode(s, p0, RoomAt(0, cap, false));
    ThenNothing(all);
    while p < |s| && s[p] != QUOTE
      invariant if cap > 0 then i < cap else full && i == 0
      invariant all == Then(out[..i], Decode(s, p, RoomAt(i, cap, full)))
      decreases |s| - p
    {
      hide Decode;
      if s[p] == BACKSLASH && p + 1 >= |s| {
        CutEscape(s, p, RoomAt(i, cap, full));
        p := |s|;
        break;
      }
      ghost var was, x := out[..i], [];
      if s[p] == BACKSLASH {
        p, i, full, x := OneEscape(s, p, out, i, cap, full);
      } else {
        p, i, full, x := OneRaw(s, p, out, i, cap, full);
      }
      ThenTwice(was, x, Decode(s, p, RoomAt(i, cap, full)));
    }
    next, length := if p < |s| then p + 1 else |s|, i;
    assert all == Then(out[..i], Decoded([], next));
    assert out[..i] + [] == out[..i];
    if cap > 0 {
      ghost var was := out[..i];
      out[i] := 0;
      assert out[..i] == was;
    }
  }

  method OneEscape(s: seq<byte>, p: nat, out: array<byte>, i: nat, cap: nat, full: bool)
    returns (q: nat, j: nat, filled: bool, ghost x: seq<byte>)
    requires p + 1 < |s| && s[p] == BACKSLASH && cap <= out.Length && (if cap > 0 then i < cap else full && i == 0)
    modifies out
    ensures p < q && (if cap > 0 then j < cap else filled && j == 0) && out[..j] == old(out[..i]) + x
    ensures Decode(s, p, RoomAt(i, cap, full)) == Then(x, Decode(s, q, RoomAt(j, cap, filled)))
  {
    hide Decode, Escape, Utf8;
    EscapeStep(s, p, RoomAt(i, cap, full));
    var cp;
    cp, q := ReadEscape(s, p);
    j, filled, x := i, full, [];
    ThenNothing(Decode(s, q, None));
    if !full {
      var ni := PutUtf8(out, i, cap, cp);
      if ni.None? {
        filled := true;
      } else {
        j, x := ni.value, Utf8(cp);
      }
    }
  }

  method OneRaw(s: seq<byte>, p: nat, out: array<byte>, i: nat, cap: nat, full: bool)
    returns (q: nat, j: nat, filled: bool, ghost x: seq<byte>)
    requires p < |s| && s[p] != BACKSLASH && s[p] != QUOTE
    requires cap <= out.Length && (if cap > 0 then i < cap else full && i == 0)
    modifies out
    ensures p < q && (if cap > 0 then j < cap else filled && j == 0) && out[..j] == old(out[..i]) + x
    ensures Decode(s, p, RoomAt(i, cap, full)) == Then(x, Decode(s, q, RoomAt(j, cap, filled)))
  {
    hide Decode, RawBytes, LeadLength;
    RawStep(s, p, RoomAt(i, cap, full));
    j, filled, x := i, full, [];
    ThenNothing(Decode(s, p + 1, None));
    var n := LeadLength(s[p]);
    if !full {
      if i + n > cap - 1 {
        filled := true;
      } else {
        j := PutRaw(s, p, n, out, i);
        x := RawBytes(s, p, n);
        q := p + n;
        return;
      }
    }
    q := p + 1;
  }

  /** Four digits, one after the other. */
  method ReadHex4(s: seq<byte>, p: nat) returns (r: Option<nat>)
    ensures r == Hex4(s, p)
  {
    if p + 4 > |s| {
      return None;
    }
    var v := 0;
    for i := 0 to 4
      invariant HexRun(s, p, i) == Some(v)
    {
      var d := HexValue(s[p + i]);
      if d.None? {
        HexRunFails(s, p, i + 1, 4);
        return None;
      }
      v := v * 16 + d.value;
    }
    return Some(v);
  }

  /** The escape at p: its character, and where it ends. */
  method ReadEscape(s: seq<byte>, p: nat) returns (cp: nat, q: nat)
    requires p + 1 < |s|
    ensures (cp, q) == Escape(s, p)
  {
    hide Hex4;
    var e := s[p + 1];
    q := p + 2;
    if e == 0x6E {
      cp := 0x0A;
    } else if e == 0x74 {
      cp := 0x09;
    } else if e == 0x72 {
      cp := 0x0D;
    } else if e == 0x62 {
      cp := 0x08;
    } else if e == 0x66 {
      cp := 0x0C;
    } else if e == LETTER_U {
      var u := ReadHex4(s, q);
      if u.None? {
        return 0x3F, q;
      }
      q := q + 4;
      cp := u.value;
      if 0xD800 <= cp <= 0xDBFF {
        if |s| - q >= 6 && s[q] == BACKSLASH && s[q + 1] == LETTER_U {
          var lo := ReadHex4(s, q + 2);
          if lo.Some? && 0xDC00 <= lo.value <= 0xDFFF {
            return 0x1_0000 + (cp - 0xD800) * 1024 + (lo.value - 0xDC00), q + 6;
          }
        }
        cp := 0xFFFD;
      } else if 0xDC00 <= cp <= 0xDFFF {
        cp := 0xFFFD;
      }
    } else {
      cp := e;
    }
  }

  lemma ThenNothing(d: Decoded)
    ensures Then([], d) == d
  {
    assert [] + d.out == d.out;
  }

  lemma ThenTwice(x: seq<byte>, y: seq<byte>, d: Decoded)
    ensures Then(x, Then(y, d)) == Then(x + y, d)
  {
    assert x + (y + d.out) == x + y + d.out;
  }

  lemma CutEscape(s: seq<byte>, p: nat, room: Option<nat>)
    requires p + 1 == |s| && s[p] == BACKSLASH
    ensures Decode(s, p, room) == Decoded([], |s|) == Decode(s, |s|, room)
  {
  }

  lemma EscapeStep(s: seq<byte>, p: nat, room: Option<nat>)
    requires p + 1 < |s| && s[p] == BACKSLASH
    ensures var (cp, q) := Escape(s, p);
            Decode(s, p, room) == if room.Some? && |Utf8(cp)| <= room.value then
                                    Then(Utf8(cp), Decode(s, q, Some(room.value - |Utf8(cp)|)))
                                  else Decode(s, q, None)
  {
    hide Escape, Utf8;
  }

  lemma RawStep(s: seq<byte>, p: nat, room: Option<nat>)
    requires p < |s| && s[p] != BACKSLASH && s[p] != QUOTE
    ensures var n := LeadLength(s[p]);
            Decode(s, p, room) == if room.Some? && n <= room.value then
                                    Then(RawBytes(s, p, n), Decode(s, p + n, Some(room.value - |RawBytes(s, p, n)|)))
                                  else Decode(s, p + 1, None)
  {
    hide LeadLength, RawBytes;
  }

  // ---- well-formed bodies -----------------------------------------------------------------------------------------

  /**
   A piece of a string body: a character as it is, a short escape, a \u escape of one UTF-16 unit, or two of them that
   are one character.
   */
  datatype Piece =
    | Raw(cp: nat)
    | Short(letter: byte)
    | Unit(u: nat, digits: seq<byte>)
    | Pair(cp: nat, hiDigits: seq<byte>, loDigits: seq<byte>)

  const SHORTS: set<byte> := {0x22, 0x5C, 0x2F, 0x62, 0x66, 0x6E, 0x72, 0x74}

  const LOWER := "0123456789abcdef"
  const UPPER := "0123456789ABCDEF"

  /** The hexadecimal digit of that value, in either case. */
  predicate IsDigit(d: byte, v: nat) {
    v < 16 && (d == LOWER[v] as int || d == UPPER[v] as int)
  }

  /** The four digits of a 16-bit number. */
  predicate AreDigits(digits: seq<byte>, u: nat) {
    && |digits| == 4 && u < 0x1_0000
    && IsDigit(digits[0], u / 4096) && IsDigit(digits[1], u / 256 % 16)
    && IsDigit(digits[2], u / 16 % 16) && IsDigit(digits[3], u % 16)
  }

  /** What stands for a code point above 0xFFFF in UTF-16: RFC 2781, section 2.1. */
  function HighHalf(cp: nat): (u: nat)
    requires 0x1_0000 <= cp < 0x11_0000
    ensures IsHigh(u)
  {
    0xD800 + (cp - 0x1_0000) / 1024
  }

  function LowHalf(cp: nat): (u: nat)
    requires 0x1_0000 <= cp < 0x11_0000
    ensures IsLow(u)
  {
    0xDC00 + (cp - 0x1_0000) % 1024
  }

  /** The halves of a code point, and those of no other, are joined to it. */
  lemma HalvesAreJoined(hi: nat, lo: nat, cp: nat)
    requires IsHigh(hi) && IsLow(lo) && 0x1_0000 <= cp < 0x11_0000
    ensures Joined(hi, lo) == cp <==> hi == HighHalf(cp) && lo == LowHalf(cp)
  {
  }

  lemma DigitIsRead(d: byte, v: nat)
    requires v < 16
    ensures IsDigit(d, v) <==> HexValue(d) == Some(v)
  {
  }

  /** Four digits are read as the number they are the digits of, and nothing else is read as a number. */
  lemma DigitsAreRead(digits: seq<byte>, u: nat)
    requires |digits| == 4
    ensures AreDigits(digits, u) <==> HexRun(digits, 0, 4) == Some(u)
  {
    hide HexValue, IsDigit, HexRun;
    HexRunOfFour(digits);
    var a, b, c, d := HexValue(digits[0]), HexValue(digits[1]), HexValue(digits[2]), HexValue(digits[3]);
    HexValueBound(digits[0]);
    HexValueBound(digits[1]);
    HexValueBound(digits[2]);
    HexValueBound(digits[3]);
    if u < 0x1_0000 {
      DigitIsRead(digits[0], u / 4096);
      DigitIsRead(digits[1], u / 256 % 16);
      DigitIsRead(digits[2], u / 16 % 16);
      DigitIsRead(digits[3], u % 16);
    }
    if a.Some? && b.Some? && c.Some? && d.Some? {
      FourNibbles(u, a.value, b.value, c.value, d.value);
    }
  }

  lemma FourNibbles(u: nat, a: nat, b: nat, c: nat, d: nat)
    requires a < 16 && b < 16 && c < 16 && d < 16
    ensures u == ((a * 16 + b) * 16 + c) * 16 + d <==>
            u < 0x1_0000 && u / 4096 == a && u / 256 % 16 == b && u / 16 % 16 == c && u % 16 == d
  {
    Nibbles(u, (a * 16 + b) * 16 + c, d);
    Nibbles(u / 16, a * 16 + b, c);
    Nibbles(u / 256, a, b);
    assert u / 16 / 16 == u / 256 && u / 256 / 16 == u / 4096;
  }

  lemma Nibbles(u: nat, high: nat, low: nat)
    requires low < 16
    ensures u == high * 16 + low <==> u / 16 == high && u % 16 == low
  {
  }

  lemma HexValueBound(c: byte)
    ensures HexValue(c).Some? ==> HexValue(c).value < 16
  {
  }

  lemma HexRunOfFour(s: seq<byte>)
    requires |s| == 4
    ensures var a, b, c, d := HexValue(s[0]), HexValue(s[1]), HexValue(s[2]), HexValue(s[3]);
            HexRun(s, 0, 4) ==
            if a.Some? && b.Some? && c.Some? && d.Some? then
              Some(((a.value * 16 + b.value) * 16 + c.value) * 16 + d.value)
            else None
  {
    hide HexValue, HexRun;
    NoDigits(s);
    HexRunStep(s, 0);
    HexRunStep(s, 1);
    HexRunStep(s, 2);
    HexRunStep(s, 3);
  }

  lemma NoDigits(s: seq<byte>)
    ensures HexRun(s, 0, 0) == Some(0)
  {
  }

  lemma HexRunStep(s: seq<byte>, n: nat)
    requires n < |s|
    ensures var v, d := HexRun(s, 0, n), HexValue(s[n]);
            HexRun(s, 0, n + 1) == if v.Some? && d.Some? then Some(v.value * 16 + d.value) else None
  {
    hide HexValue;
  }

  predicate ValidPiece(x: Piece) {
    match x
    case Raw(cp) => IsChar(cp) && cp != 0x22 && cp != 0x5C
    case Short(letter) => letter in SHORTS
    case Unit(u, digits) => AreDigits(digits, u)
    case Pair(cp, hd, ld) => 0x1_0000 <= cp < 0x11_0000 && AreDigits(hd, HighHalf(cp)) && AreDigits(ld, LowHalf(cp))
  }

  /** Two units that would be a pair are written as one. */
  predicate WellFormed(pieces: seq<Piece>) {
    && (forall i :: 0 <= i < |pieces| ==> ValidPiece(pieces[i]))
    && (forall i :: 0 <= i < |pieces| - 1 ==> !MakePair(pieces[i], pieces[i + 1]))
  }

  predicate MakePair(x: Piece, y: Piece) { x.Unit? && IsHigh(x.u) && y.Unit? && IsLow(y.u) }

  function Text(x: Piece): (s: seq<byte>)
    requires ValidPiece(x)
    ensures s != []
  {
    match x
    case Raw(cp) => Utf8(cp)
    case Short(letter) => [BACKSLASH, letter]
    case Unit(_, digits) => [BACKSLASH, LETTER_U] + digits
    case Pair(_, hd, ld) => ([BACKSLASH, LETTER_U] + hd) + ([BACKSLASH, LETTER_U] + ld)
  }

  /** The character a piece stands for; half a pair alone is replaced. */
  function CharOf(x: Piece): (cp: nat)
    requires ValidPiece(x)
    ensures cp < 0x11_0000
  {
    match x
    case Raw(cp) => cp
    case Short(letter) =>
      if letter == 0x62 then 0x08 else if letter == 0x66 then 0x0C else if letter == 0x6E then 0x0A
      else if letter == 0x72 then 0x0D else if letter == 0x74 then 0x09 else letter
    case Unit(u, _) => if IsHigh(u) || IsLow(u) then 0xFFFD else u
    case Pair(cp, _, _) => cp
  }

  function Body(pieces: seq<Piece>): seq<byte>
    requires forall i :: 0 <= i < |pieces| ==> ValidPiece(pieces[i])
  {
    if pieces == [] then [] else Text(pieces[0]) + Body(pieces[1..])
  }

  function CharsOf(pieces: seq<Piece>): (cps: seq<nat>)
    requires forall i :: 0 <= i < |pieces| ==> ValidPiece(pieces[i])
    ensures |cps| == |pieces| && forall i :: 0 <= i < |cps| ==> cps[i] < 0x11_0000
  {
    if pieces == [] then [] else [CharOf(pieces[0])] + CharsOf(pieces[1..])
  }

  // ---- one piece ---------------------------------------------------------------------------------------------------

  lemma {:induction false} HexRunAt(s: seq<byte>, p: nat, d: seq<byte>, n: nat)
    requires HasAt(s, p, d) && n <= |d|
    ensures HexRun(s, p, n) == HexRun(d, 0, n)
  {
    if n > 0 {
      HexRunAt(s, p, d, n - 1);
      assert s[p + (n - 1)] == s[p..p + |d|][n - 1];
    }
  }

  lemma UnitAt(s: seq<byte>, p: nat, digits: seq<byte>, u: nat)
    requires AreDigits(digits, u) && HasAt(s, p, [BACKSLASH, LETTER_U] + digits)
    ensures p + 6 <= |s| && s[p] == BACKSLASH && s[p + 1] == LETTER_U && Hex4(s, p + 2) == Some(u)
  {
    HasParts(s, p, [BACKSLASH, LETTER_U], digits);
    var w := s[p..p + 2];
    assert w[0] == s[p] && w[1] == s[p + 1];
    HexRunAt(s, p + 2, digits, 4);
    DigitsAreRead(digits, u);
  }

  /** What a raw character's bytes are. */
  lemma Utf8Bytes(cp: nat)
    requires IsChar(cp) && cp != 0x22 && cp != 0x5C
    ensures LeadLength(Utf8(cp)[0]) == |Utf8(cp)|
    ensures forall i :: 0 <= i < |Utf8(cp)| ==> Utf8(cp)[i] != QUOTE && Utf8(cp)[i] != BACKSLASH
  {
  }

  lemma {:induction false} RawBytesAt(s: seq<byte>, p: nat, x: seq<byte>)
    requires HasAt(s, p, x) && forall i :: 0 <= i < |x| ==> x[i] != QUOTE
    ensures RawBytes(s, p, |x|) == x
    decreases |x|
  {
    if x != [] {
      HasFirst(s, p, x);
      assert x == [x[0]] + x[1..];
      HasParts(s, p, [x[0]], x[1..]);
      RawBytesAt(s, p + 1, x[1..]);
    }
  }

  /** Bytes that are only passed over, once the output is full. */
  lemma {:induction false} PassesBytes(s: seq<byte>, p: nat, x: seq<byte>)
    requires HasAt(s, p, x) && forall i :: 0 <= i < |x| ==> x[i] != QUOTE && x[i] != BACKSLASH
    ensures Decode(s, p, None) == Decode(s, p + |x|, None)
    decreases |x|
  {
    if x != [] {
      hide Decode;
      HasFirst(s, p, x);
      assert x == [x[0]] + x[1..];
      HasParts(s, p, [x[0]], x[1..]);
      RawStep(s, p, None);
      PassesBytes(s, p + 1, x[1..]);
    }
  }

  /** A piece written whole, or not at all. */
  ghost predicate Passes(s: seq<byte>, p: nat, q: nat, cp: nat, room: Option<nat>)
    requires cp < 0x11_0000
  {
    Decode(s, p, room) == if room.Some? && |Utf8(cp)| <= room.value then
                            Then(Utf8(cp), Decode(s, q, Some(room.value - |Utf8(cp)|)))
                          else Decode(s, q, None)
  }

  lemma PassesRaw(s: seq<byte>, p: nat, cp: nat, room: Option<nat>)
    requires IsChar(cp) && cp != 0x22 && cp != 0x5C && HasAt(s, p, Utf8(cp))
    ensures Passes(s, p, p + |Utf8(cp)|, cp, room)
  {
    assert cp < 0x11_0000;
    Utf8Bytes(cp);
    Utf8NotEmpty(cp);
    hide *;
    PassesItsBytes(s, p, cp, Utf8(cp), room);
  }

  /** A raw character's bytes are copied whole, or passed over. */
  lemma Utf8NotEmpty(cp: nat)
    requires cp < 0x11_0000
    ensures Utf8(cp) != []
  {
  }

  lemma PassesItsBytes(s: seq<byte>, p: nat, cp: nat, x: seq<byte>, room: Option<nat>)
    requires cp < 0x11_0000 && x == Utf8(cp) && x != [] && HasAt(s, p, x) && LeadLength(x[0]) == |x|
    requires forall i :: 0 <= i < |x| ==> x[i] != QUOTE && x[i] != BACKSLASH
    ensures Passes(s, p, p + |x|, cp, room)
  {
    hide *;
    RawIs(s, p, x, room);
    PassesIs(s, p, cp, room);
  }

  lemma RawIs(s: seq<byte>, p: nat, x: seq<byte>, room: Option<nat>)
    requires x != [] && HasAt(s, p, x) && LeadLength(x[0]) == |x|
    requires forall i :: 0 <= i < |x| ==> x[i] != QUOTE && x[i] != BACKSLASH
    ensures Decode(s, p, room) == if room.Some? && |x| <= room.value then
                                    Then(x, Decode(s, p + |x|, Some(room.value - |x|)))
                                  else Decode(s, p + |x|, None)
  {
    hide *;
    HasFirst(s, p, x);
    RawStep(s, p, room);
    RawBytesAt(s, p, x);
    RestOfBytes(s, p, x);
    PassesBytes(s, p + 1, x[1..]);
  }

  lemma RestOfBytes(s: seq<byte>, p: nat, x: seq<byte>)
    requires HasAt(s, p, x) && x != [] && forall i :: 0 <= i < |x| ==> x[i] != QUOTE && x[i] != BACKSLASH
    ensures HasAt(s, p + 1, x[1..]) && forall i :: 0 <= i < |x[1..]| ==> x[1..][i] != QUOTE && x[1..][i] != BACKSLASH
  {
    assert x == [x[0]] + x[1..];
    HasParts(s, p, [x[0]], x[1..]);
  }

  lemma PassesIs(s: seq<byte>, p: nat, cp: nat, room: Option<nat>)
    requires cp < 0x11_0000
    requires var n := |Utf8(cp)|;
             Decode(s, p, room) == if room.Some? && n <= room.value then
                                     Then(Utf8(cp), Decode(s, p + n, Some(room.value - n)))
                                   else Decode(s, p + n, None)
    ensures Passes(s, p, p + |Utf8(cp)|, cp, room)
  {
    hide Decode, Utf8;
  }

  /** A backslash and a u without four digits behind them give a question mark, and reading goes on right there. */
  lemma BadUnitsAreMarked(s: seq<byte>, p: nat, room: Option<nat>)
    requires p + 1 < |s| && s[p] == BACKSLASH && s[p + 1] == LETTER_U
    requires p + 6 > |s| || exists i :: p + 2 <= i < p + 6 && !IsHex(s[i])
    ensures Passes(s, p, p + 2, '?' as int, room)
  {
    hide Decode, HexRun, Passes, IsDigit, HexValue;
    PassesEscape(s, p, room);
    if p + 6 <= |s| {
      var i :| p + 2 <= i < p + 6 && !IsHex(s[i]);
      NoDigit(s[i]);
      FailsAt(s, p + 2, i - p - 2);
      HexRunFails(s, p + 2, i - p - 1, 4);
    }
  }

  predicate IsHex(c: byte) { exists v: nat :: v < 16 && IsDigit(c, v) }

  lemma NoDigit(c: byte)
    requires !IsHex(c)
    ensures HexValue(c).None?
  {
    if HexValue(c).Some? {
      DigitIsRead(c, HexValue(c).value);
    }
  }

  lemma FailsAt(s: seq<byte>, p: nat, i: nat)
    requires p + i < |s| && HexValue(s[p + i]).None?
    ensures HexRun(s, p, i + 1).None?
  {
  }

  /** A backslash with any other byte behind it gives that byte. */
  lemma OtherLettersStand(s: seq<byte>, p: nat, room: Option<nat>)
    requires p + 1 < |s| && s[p] == BACKSLASH && s[p + 1] !in SHORTS && s[p + 1] != LETTER_U
    ensures Passes(s, p, p + 2, s[p + 1], room)
  {
    hide Decode, Passes;
    PassesEscape(s, p, room);
  }

  /** No second half of a pair is at p. */
  predicate NoLow(s: seq<byte>, p: nat) { LowAt(s, p).None? }

  lemma EscapeOf(s: seq<byte>, p: nat, x: Piece)
    requires ValidPiece(x) && !x.Raw? && HasAt(s, p, Text(x))
    requires x.Unit? && IsHigh(x.u) ==> NoLow(s, p + |Text(x)|)
    ensures p + 1 < |s| && s[p] == BACKSLASH && Escape(s, p) == (CharOf(x), p + |Text(x)|)
  {
    hide *;
    match x
    case Short(letter) => ShortAt(s, p, x);
    case Unit(u, digits) => UnitEscape(s, p, x);
    case Pair(_, _, _) => PairEscape(s, p, x);
  }

  lemma ShortAt(s: seq<byte>, p: nat, x: Piece)
    requires ValidPiece(x) && x.Short? && HasAt(s, p, Text(x))
    ensures p + 1 < |s| && s[p] == BACKSLASH && Escape(s, p) == (CharOf(x), p + |Text(x)|)
  {
    hide Hex4, HexRun;
    HasFirst(s, p, Text(x));
    assert s[p + 1] == s[p..p + 2][1];
  }

  lemma UnitEscape(s: seq<byte>, p: nat, x: Piece)
    requires ValidPiece(x) && x.Unit? && HasAt(s, p, Text(x)) && (IsHigh(x.u) ==> NoLow(s, p + |Text(x)|))
    ensures p + 1 < |s| && s[p] == BACKSLASH && Escape(s, p) == (CharOf(x), p + |Text(x)|)
  {
    hide Hex4, HexRun, HasAt, LowAt;
    UnitAt(s, p, x.digits, x.u);
    FourDigits(x.digits, x.u);
  }

  lemma PairEscape(s: seq<byte>, p: nat, x: Piece)
    requires ValidPiece(x) && x.Pair? && HasAt(s, p, Text(x))
    ensures p + 1 < |s| && s[p] == BACKSLASH && Escape(s, p) == (CharOf(x), p + |Text(x)|)
  {
    hide Hex4, HexRun, HasAt;
    var hi, lo := HighHalf(x.cp), LowHalf(x.cp);
    FourDigits(x.hiDigits, hi);
    FourDigits(x.loDigits, lo);
    HalvesAreJoined(hi, lo, x.cp);
    HasParts(s, p, [BACKSLASH, LETTER_U] + x.hiDigits, [BACKSLASH, LETTER_U] + x.loDigits);
    UnitAt(s, p, x.hiDigits, hi);
    UnitAt(s, p + 6, x.loDigits, lo);
  }

  lemma FourDigits(digits: seq<byte>, u: nat)
    requires AreDigits(digits, u)
    ensures |digits| == 4
  {
  }

  lemma PassesPiece(s: seq<byte>, p: nat, x: Piece, room: Option<nat>)
    requires ValidPiece(x) && HasAt(s, p, Text(x))
    requires x.Unit? && IsHigh(x.u) ==> NoLow(s, p + |Text(x)|)
    ensures Passes(s, p, p + |Text(x)|, CharOf(x), room)
  {
    hide *;
    if x.Raw? {
      RawPiece(x);
      PassesRaw(s, p, x.cp, room);
    } else {
      EscapeOf(s, p, x);
      PassesEscape(s, p, room);
    }
  }

  lemma RawPiece(x: Piece)
    requires ValidPiece(x) && x.Raw?
    ensures IsChar(x.cp) && x.cp != 0x22 && x.cp != 0x5C && Text(x) == Utf8(x.cp) && CharOf(x) == x.cp
  {
    hide Utf8, IsChar;
  }

  lemma PassesEscape(s: seq<byte>, p: nat, room: Option<nat>)
    requires p + 1 < |s| && s[p] == BACKSLASH
    ensures var (cp, q) := Escape(s, p); Passes(s, p, q, cp, room)
  {
    hide Decode, Escape, Utf8;
    EscapeStep(s, p, room);
  }

  lemma PieceIsNoLow(s: seq<byte>, p: nat, y: Piece)
    requires ValidPiece(y) && HasAt(s, p, Text(y)) && (y.Unit? ==> !IsLow(y.u))
    ensures NoLow(s, p)
  {
    hide Hex4, HexRun, HasAt, Utf8;
    HasFirst(s, p, Text(y));
    match y
    case Raw(cp) => Utf8Bytes(cp);
    case Short(letter) => SecondAt(s, p, Text(y));
    case Unit(u, digits) => UnitAt(s, p, digits, u);
    case Pair(cp, hd, ld) =>
      HasParts(s, p, [BACKSLASH, LETTER_U] + hd, [BACKSLASH, LETTER_U] + ld);
      UnitAt(s, p, hd, HighHalf(cp));
  }

  lemma SecondAt(s: seq<byte>, p: nat, x: seq<byte>)
    requires HasAt(s, p, x) && |x| >= 2
    ensures p + 1 < |s| && s[p + 1] == x[1]
  {
    assert s[p..p + |x|][1] == x[1];
  }

  /** Neither the closing quote nor a piece that may follow looks like the second half of a pair. */
  lemma NextIsNoLow(s: seq<byte>, p: nat, x: Piece, rest: seq<Piece>)
    requires ValidPiece(x) && x.Unit? && IsHigh(x.u)
    requires forall i :: 0 <= i < |rest| ==> ValidPiece(rest[i])
    requires rest != [] ==> !MakePair(x, rest[0])
    requires HasAt(s, p, Body(rest) + [QUOTE])
    ensures NoLow(s, p)
  {
    if rest == [] {
      hide ValidPiece, HexRun;
      HasFirst(s, p, [] + [QUOTE]);
    } else {
      hide HasAt, Text, Body, ValidPiece, NoLow;
      BodyParts(s, p, rest);
      PieceIsNoLow(s, p, rest[0]);
    }
  }

  /**
   Decoding is exact: for every well-formed body the bytes written are the UTF-8 of the longest run of its characters,
   from the first on, that fits whole, and the string ends just past the closing quote.
   */
  lemma {:induction false} DecodingIsExact(s: seq<byte>, p: nat, pieces: seq<Piece>, room: Option<nat>)
    requires WellFormed(pieces) && HasAt(s, p, Body(pieces) + [QUOTE])
    ensures Decode(s, p, room)
         == Decoded(if room.Some? then Fit(CharsOf(pieces), room.value) else [], p + |Body(pieces)| + 1)
    decreases |pieces|
  {
    hide *;
    if pieces == [] {
      NoPieces(s, p, pieces, room);
    } else {
      var x, rest := pieces[0], pieces[1..];
      RestIsWellFormed(pieces);
      BodyParts(s, p, pieces);
      if x.Unit? && IsHigh(x.u) {
        NextIsNoLow(s, p + |Text(x)|, x, rest);
      }
      PassesPiece(s, p, x, room);
      var left := RoomAfter(CharOf(x), room);
      DecodingIsExact(s, p + |Text(x)|, rest, left);
      WithPiece(s, p, pieces, room);
    }
  }

  lemma NoPieces(s: seq<byte>, p: nat, pieces: seq<Piece>, room: Option<nat>)
    requires pieces == [] && HasAt(s, p, Body(pieces) + [QUOTE])
    ensures Decode(s, p, room)
         == Decoded(if room.Some? then Fit(CharsOf(pieces), room.value) else [], p + |Body(pieces)| + 1)
  {
    HasFirst(s, p, [] + [QUOTE]);
  }

  function RoomAfter(cp: nat, room: Option<nat>): Option<nat>
    requires cp < 0x11_0000
  {
    if room.Some? && |Utf8(cp)| <= room.value then Some(room.value - |Utf8(cp)|) else None
  }

  lemma BodyParts(s: seq<byte>, p: nat, pieces: seq<Piece>)
    requires pieces != [] && forall i :: 0 <= i < |pieces| ==> ValidPiece(pieces[i])
    requires HasAt(s, p, Body(pieces) + [QUOTE])
    ensures HasAt(s, p, Text(pieces[0])) && HasAt(s, p + |Text(pieces[0])|, Body(pieces[1..]) + [QUOTE])
    ensures |Body(pieces)| == |Text(pieces[0])| + |Body(pieces[1..])|
  {
    hide HasAt, Text, ValidPiece;
    var x, rest := Text(pieces[0]), Body(pieces[1..]);
    assert Body(pieces) + [QUOTE] == x + (rest + [QUOTE]);
    HasParts(s, p, x, rest + [QUOTE]);
  }

  /** What the first piece gives, and what the rest gives in the room that is left, is what the body gives. */
  lemma WithPiece(s: seq<byte>, p: nat, pieces: seq<Piece>, room: Option<nat>)
    requires pieces != [] && forall i :: 0 <= i < |pieces| ==> ValidPiece(pieces[i])
    requires |Body(pieces)| == |Text(pieces[0])| + |Body(pieces[1..])|
    requires Passes(s, p, p + |Text(pieces[0])|, CharOf(pieces[0]), room)
    requires var left, q := RoomAfter(CharOf(pieces[0]), room), p + |Text(pieces[0])|;
             Decode(s, q, left)
             == Decoded(if left.Some? then Fit(CharsOf(pieces[1..]), left.value) else [], q + |Body(pieces[1..])| + 1)
    ensures Decode(s, p, room)
         == Decoded(if room.Some? then Fit(CharsOf(pieces), room.value) else [], p + |Body(pieces)| + 1)
  {
    FitFirst(pieces, room);
    hide Decode, Utf8, Text, CharOf, ValidPiece, Fit, CharsOf, Body;
  }

  lemma RestIsWellFormed(pieces: seq<Piece>)
    requires WellFormed(pieces) && pieces != []
    ensures WellFormed(pieces[1..]) && ValidPiece(pieces[0])
    ensures forall i :: 0 <= i < |pieces| ==> ValidPiece(pieces[i])
    ensures |pieces| > 1 ==> !MakePair(pieces[0], pieces[1..][0])
  {
    hide ValidPiece, MakePair;
    var rest := pieces[1..];
    assert forall i :: 0 <= i < |rest| ==> rest[i] == pieces[i + 1];
    forall i | 0 <= i < |rest| - 1
      ensures !MakePair(rest[i], rest[i + 1])
    {
      assert !MakePair(pieces[i + 1], pieces[i + 1 + 1]);
    }
    assert |pieces| > 1 ==> !MakePair(pieces[0], pieces[0 + 1]);
  }

  lemma FitFirst(pieces: seq<Piece>, room: Option<nat>)
    requires pieces != [] && forall i :: 0 <= i < |pieces| ==> ValidPiece(pieces[i])
    ensures var c := CharOf(pieces[0]);
            room.Some? ==>
              Fit(CharsOf(pieces), room.value) ==
              (if |Utf8(c)| <= room.value then Utf8(c) + Fit(CharsOf(pieces[1..]), room.value - |Utf8(c)|) else [])
  {
    hide Utf8, CharOf, ValidPiece;
    TailOf(CharOf(pieces[0]), CharsOf(pieces[1..]));
  }
}
