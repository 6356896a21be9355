/**
 The string reader of source/api/json_lite.h, over bytes: what it gives for any bytes and any buffer, and when a
 buffer that is too small for a string still gets whole characters only, which the other reader (JsonUnescape) always
 gives.
 */
module JsonString {
  import opened Basics
  import opened JsonUnescape
  import JsonTree

  // ---- the reader on any bytes ------------------------------------------------------------------------------

  predicate IsBlank(c: byte) { c == 0x20 || c == 0x09 || c == 0x0D || c == 0x0A }

  function SkipBlanks(s: seq<byte>, p: nat): (q: nat)
    requires p <= |s|
    ensures p <= q <= |s|
    decreases |s| - p
  {
    if p < |s| && IsBlank(s[p]) then SkipBlanks(s, p + 1) else p
  }

  /** JSON's whitespace is passed over, and nothing else. */
  lemma {:induction false} BlanksArePassed(s: seq<byte>, p: nat, ws: seq<byte>)
    requires HasAt(s, p, ws) && forall i :: 0 <= i < |ws| ==> JsonTree.IsWs(ws[i] as char)
    requires p + |ws| < |s| ==> !JsonTree.IsWs(s[p + |ws|] as char)
    ensures SkipBlanks(s, p) == p + |ws|
    decreases |ws|
  {
    if ws != [] {
      HasFirst(s, p, ws);
      assert ws == [ws[0]] + ws[1..];
      HasParts(s, p, [ws[0]], ws[1..]);
      BlanksArePassed(s, p + 1, ws[1..]);
    }
  }

  /**
   What the escape at p stands for, and where it ends: nothing for a unit that is cut off or has other than digits.
   */
  function LiteEscape(s: seq<byte>, p: nat): (r: (seq<byte>, nat))
    requires p + 1 < |s|
    ensures |r.0| <= 3 && p + 2 <= r.1 <= |s|
  {
    var e := s[p + 1];
    if e == LETTER_U then
      match Hex4(s, p + 2)
      case None => ([], p + 2)
      case Some(u) => (Utf8(u), p + 6)
    else
      var c := Plain(e);
      (if c == 0 then [] else [c], p + 2)
  }

  /** The byte that an escape other than a unit stands for. */
  function Plain(e: byte): byte {
    if e == 0x62 then 0x08 else if e == 0x66 then 0x0C else if e == 0x6E then 0x0A
    else if e == 0x72 then 0x0D else if e == 0x74 then 0x09 else e
  }

  /** The bytes written from p on, with so much room left: whatever fits, also behind what did not. */
  function Lite(s: seq<byte>, p: nat, room: nat): (x: seq<byte>)
    ensures |x| <= room
    decreases |s| - p
  {
    if p >= |s| || s[p] == QUOTE then []
    else if s[p] != BACKSLASH then Put([s[p]], room) + Lite(s, p + 1, room - |Put([s[p]], room)|)
    else if p + 1 >= |s| then []
    else
      var (x, q) := LiteEscape(s, p);
      Put(x, room) + Lite(s, q, room - |Put(x, room)|)
  }

  function Put(x: seq<byte>, room: nat): (y: seq<byte>)
    ensures |y| <= room
  {
    if |x| <= room then x else []
  }

  // ---- the reader in place ----------------------------------------------------------------------------------

  /**
   Reads the string at p0 into out, whose last byte is for the terminator: false, and an empty text, if there is none;
   false and no text at all when there is no room.
   */
  method ReadString(s: seq<byte>, p0: nat, out: array<byte>, cap: nat) returns (ok: bool, length: nat)
    requires p0 <= |s| && cap <= out.Length
    modifies out
    ensures ok <==> cap > 0 && SkipBlanks(s, p0) < |s| && s[SkipBlanks(s, p0)] == QUOTE
    ensures cap == 0 ==> out[..] == old(out[..])
    ensures cap > 0 ==> length < cap && out[length] == 0
                        && out[..length] == if ok then Lite(s, SkipBlanks(s, p0) + 1, cap - 1) else []
  {
    ok, length := false, 0;
    if cap == 0 {
      return;
    }
    out[0] := 0;
    var p := p0;
    while p < |s| && IsBlank(s[p])
      invariant p <= |s| && SkipBlanks(s, p0) == SkipBlanks(s, p)
    {
      p := p + 1;
    }
    if p >= |s| || s[p] != QUOTE {
      assert out[..0] == [];
      return;
    }
    length := ReadBody(s, p + 1, out, cap);
    ok := true;
  }

  /** The string's body, behind the opening quote. */
  method ReadBody(s: seq<byte>, p0: nat, out: array<byte>, cap: nat) returns (length: nat)
    requires p0 <= |s| && 0 < cap <= out.Length
    modifies out
    ensures length < cap && out[length] == 0 && out[..length] == Lite(s, p0, cap - 1)
  {
    hide Lite, LiteEscape;
    ghost var all := Lite(s, p0, cap - 1);
    length := 0;
    var p := p0;
    assert out[..0] + all == all;
    while p < |s| && s[p] != QUOTE
      invariant p <= |s| && length < cap
      invariant all == out[..length] + Lite(s, p, cap - 1 - length)
      decreases |s| - p
    {
      if s[p] == BACKSLASH && p + 1 >= |s| {
        LiteStep(s, p, cap - 1 - length);
        LiteEnds(s, |s|, cap - 1 - length);
        p := |s|;
        break;
      }
      ghost var was, x := out[..length], [];
      p, length, x := OneCharacter(s, p, out, length, cap);
      Regroup(was, x, Lite(s, p, cap - 1 - length));
    }
    LiteEnds(s, p, cap - 1 - length);
    Terminates(out[..length]);
    ghost var was := out[..length];
    out[length] := 0;
    assert out[..length] == was;
  }

  lemma Terminates(x: seq<byte>)
    ensures x + [] == x
  {
  }

  /** The next byte or escape. */
  method OneCharacter(s: seq<byte>, p: nat, out: array<byte>, i: nat, cap: nat)
    returns (q: nat, j: nat, ghost x: seq<byte>)
    requires p < |s| && s[p] != QUOTE && (s[p] == BACKSLASH ==> p + 1 < |s|) && i < cap <= out.Length
    modifies out
    ensures p < q <= |s| && i <= j < cap && out[..j] == old(out[..i]) + x
    ensures Lite(s, p, cap - 1 - i) == x + Lite(s, q, cap - 1 - j)
  {
    hide Lite, LiteEscape;
    LiteStep(s, p, cap - 1 - i);
    if s[p] == BACKSLASH {
      x := Put(LiteEscape(s, p).0, cap - 1 - i);
      q, j := OneEscape(s, p, out, i, cap);
      return;
    }
    x := Put([s[p]], cap - 1 - i);
    q, j := p + 1, i;
    if i + 1 < cap {
      ghost var was := out[..i];
      out[i] := s[p];
      j := i + 1;
      assert out[..j] == was + [s[p]];
    }
  }

  method OneEscape(s: seq<byte>, p: nat, out: array<byte>, i: nat, cap: nat) returns (q: nat, j: nat)
    requires p + 1 < |s| && i < cap <= out.Length
    modifies out
    ensures var (x, e) := LiteEscape(s, p);
            && q == e && j == i + |Put(x, cap - 1 - i)| && out[..j] == old(out[..i]) + Put(x, cap - 1 - i)
  {
    hide Hex4, Utf8;
    var e := s[p + 1];
    q, j := p + 2, i;
    if e == LETTER_U {
      if q + 4 > |s| {
        NoRoomForDigits(s, q);
        return;
      }
      var u := ReadHex4(s, q);
      if u.Some? {
        var ni := PutUtf8(out, i, cap, u.value);
        if ni.Some? {
          j := ni.value;
        }
        q := q + 4;
      }
      return;
    }
    var c := Plain(e);
    if c != 0 && i + 1 < cap {
      out[i] := c;
      j := i + 1;
    }
  }

  lemma NoRoomForDigits(s: seq<byte>, p: nat)
    requires p + 4 > |s|
    ensures Hex4(s, p).None?
  {
  }

  lemma LiteStep(s: seq<byte>, p: nat, room: nat)
    requires p < |s| && s[p] != QUOTE
    ensures s[p] != BACKSLASH ==>
              Lite(s, p, room) == Put([s[p]], room) + Lite(s, p + 1, room - |Put([s[p]], room)|)
    ensures s[p] == BACKSLASH && p + 1 < |s| ==>
              var (x, q) := LiteEscape(s, p);
              Lite(s, p, room) == Put(x, room) + Lite(s, q, room - |Put(x, room)|)
    ensures s[p] == BACKSLASH && p + 1 >= |s| ==> Lite(s, p, room) == []
  {
    hide LiteEscape;
  }

  lemma LiteEnds(s: seq<byte>, p: nat, room: nat)
    requires p >= |s| || s[p] == QUOTE
    ensures Lite(s, p, room) == []
  {
  }

  lemma Regroup(a: seq<byte>, x: seq<byte>, b: seq<byte>)
    ensures a + (x + b) == a + x + b
  {
  }

  // ---- what becomes of a string's characters ----------------------------------------------------------------

  /** A character of a body as this reader takes it, halves of pairs by themselves; a raw one goes byte by byte. */
  datatype Letter = Letter(cp: nat, raw: bool)

  predicate ValidLetters(ls: seq<Letter>) { forall i :: 0 <= i < |ls| ==> ls[i].cp < 0x11_0000 }

  function LettersOf(x: Piece): (ls: seq<Letter>)
    requires ValidPiece(x)
    ensures ValidLetters(ls)
  {
    match x
    case Raw(cp) => [Letter(cp, true)]
    case Short(_) => [Letter(CharOf(x), false)]
    case Unit(u, _) => [Letter(u, false)]
    case Pair(cp, _, _) => [Letter(HighHalf(cp), false), Letter(LowHalf(cp), false)]
  }

  predicate ValidPieces(pieces: seq<Piece>) { forall i :: 0 <= i < |pieces| ==> ValidPiece(pieces[i]) }

  function Letters(pieces: seq<Piece>): (ls: seq<Letter>)
    requires ValidPieces(pieces)
    ensures ValidLetters(ls)
  {
    if pieces == [] then [] else LettersOf(pieces[0]) + Letters(pieces[1..])
  }

  /** As many of the bytes as there is room for. */
  function Cut(x: seq<byte>, room: nat): (y: seq<byte>)
    ensures |y| <= room && |y| <= |x| && (|x| <= room ==> y == x)
  {
    if |x| <= room then x else x[..room]
  }

  /** What is written of a letter. */
  function PutLetter(l: Letter, room: nat): (y: seq<byte>)
    requires l.cp < 0x11_0000
    ensures |y| <= room && (|Utf8(l.cp)| <= room ==> y == Utf8(l.cp))
  {
    if l.raw then Cut(Utf8(l.cp), room) else Put(Utf8(l.cp), room)
  }

  function PutAll(ls: seq<Letter>, room: nat): (y: seq<byte>)
    requires ValidLetters(ls)
    ensures |y| <= room
  {
    if ls == [] then []
    else
      var x := PutLetter(ls[0], room);
      x + PutAll(ls[1..], room - |x|)
  }

  lemma {:induction false} PutAllConcat(a: seq<Letter>, b: seq<Letter>, room: nat)
    requires ValidLetters(a) && ValidLetters(b)
    ensures PutAll(a + b, room) == PutAll(a, room) + PutAll(b, room - |PutAll(a, room)|)
    decreases |a|
  {
    hide PutLetter;
    if a == [] {
      assert a + b == b;
    } else {
      var x := PutLetter(a[0], room);
      assert (a + b)[1..] == a[1..] + b;
      PutAllConcat(a[1..], b, room - |x|);
      Regroup(x, PutAll(a[1..], room - |x|), PutAll(b, room - |PutAll(a, room)|));
    }
  }

  /** The bytes of a raw character go in one by one. */
  lemma {:induction false} ReadsRaw(s: seq<byte>, p: nat, x: seq<byte>, room: nat)
    requires HasAt(s, p, x) && forall i :: 0 <= i < |x| ==> x[i] != QUOTE && x[i] != BACKSLASH
    ensures Lite(s, p, room) == Cut(x, room) + Lite(s, p + |x|, room - |Cut(x, room)|)
    decreases |x|
  {
    hide *;
    if x == [] {
      CutNothing(x, room, Lite(s, p, room));
    } else {
      var y, b := x[1..], Put([x[0]], room);
      RawByte(s, p, x, room);
      ReadsRaw(s, p + 1, y, room - |b|);
      CutFirst(x, room);
      Regroup(b, Cut(y, room - |b|), Lite(s, p + |x|, room - |Cut(x, room)|));
    }
  }

  lemma CutNothing(x: seq<byte>, room: nat, rest: seq<byte>)
    requires x == []
    ensures Cut(x, room) == [] && [] + rest == rest
  {
  }

  lemma RawByte(s: seq<byte>, p: nat, x: seq<byte>, room: nat)
    requires x != [] && HasAt(s, p, x) && forall i :: 0 <= i < |x| ==> x[i] != QUOTE && x[i] != BACKSLASH
    ensures HasAt(s, p + 1, x[1..]) && forall i :: 0 <= i < |x| - 1 ==> x[1..][i] != QUOTE && x[1..][i] != BACKSLASH
    ensures var b := Put([x[0]], room); Lite(s, p, room) == b + Lite(s, p + 1, room - |b|)
  {
    HasFirst(s, p, x);
    assert x == [x[0]] + x[1..];
    HasParts(s, p, [x[0]], x[1..]);
    hide Lite, HasAt;
    LiteStep(s, p, room);
  }

  lemma CutFirst(x: seq<byte>, room: nat)
    requires x != []
    ensures var b := Put([x[0]], room); Cut(x, room) == b + Cut(x[1..], room - |b|)
  {
    if room > 0 {
      assert Cut(x, room) == [x[0]] + Cut(x[1..], room - 1);
    }
  }

  lemma ReadsUnit(s: seq<byte>, p: nat, digits: seq<byte>, u: nat, room: nat)
    requires AreDigits(digits, u) && HasAt(s, p, [BACKSLASH, LETTER_U] + digits)
    ensures u < 0x1_0000
    ensures var x := Put(Utf8(u), room); Lite(s, p, room) == x + Lite(s, p + 6, room - |x|)
  {
    UnitAt(s, p, digits, u);
    LiteStep(s, p, room);
  }

  lemma ReadsShort(s: seq<byte>, p: nat, x: Piece, room: nat)
    requires ValidPiece(x) && x.Short? && HasAt(s, p, Text(x))
    ensures var y := Put(Utf8(CharOf(x)), room); Lite(s, p, room) == y + Lite(s, p + 2, room - |y|)
  {
    hide Lite;
    HasFirst(s, p, Text(x));
    assert s[p + 1] == s[p..p + 2][1];
    LiteStep(s, p, room);
  }

  /** One piece of a body. */
  lemma ReadsPiece(s: seq<byte>, p: nat, x: Piece, room: nat)
    requires ValidPiece(x) && HasAt(s, p, Text(x))
    ensures var y := PutAll(LettersOf(x), room); Lite(s, p, room) == y + Lite(s, p + |Text(x)|, room - |y|)
  {
    hide *;
    PieceIs(x);
    match x
    case Raw(cp) =>
      ReadsRaw(s, p, Utf8(cp), room);
      OneLetter(Letter(cp, true), room);
      LetterIs(Letter(cp, true), room);
    case Short(letter) =>
      ReadsShort(s, p, x, room);
      OneLetter(Letter(CharOf(x), false), room);
      LetterIs(Letter(CharOf(x), false), room);
    case Unit(u, digits) =>
      ReadsUnit(s, p, digits, u, room);
      OneLetter(Letter(u, false), room);
      LetterIs(Letter(u, false), room);
    case Pair(cp, hd, ld) =>
      var hi, lo := HighHalf(cp), LowHalf(cp);
      HalvesAreUnits(cp);
      var y := Put(Utf8(hi), room);
      HasParts(s, p, [BACKSLASH, LETTER_U] + hd, [BACKSLASH, LETTER_U] + ld);
      ReadsUnit(s, p, hd, hi, room);
      ReadsUnit(s, p + 6, ld, lo, room - |y|);
      TwoLetters(Letter(hi, false), Letter(lo, false), room);
      LetterIs(Letter(hi, false), room);
      LetterIs(Letter(lo, false), room - |y|);
      Regroup(y, Put(Utf8(lo), room - |y|), Lite(s, p + 12, room - |PutAll(LettersOf(x), room)|));
  }

  lemma HalvesAreUnits(cp: nat)
    requires 0x1_0000 <= cp < 0x11_0000
    ensures HighHalf(cp) < 0x1_0000 && LowHalf(cp) < 0x1_0000
  {
  }

  lemma LetterIs(l: Letter, room: nat)
    requires l.cp < 0x11_0000
    ensures PutLetter(l, room) == if l.raw then Cut(Utf8(l.cp), room) else Put(Utf8(l.cp), room)
  {
    hide Utf8;
  }

  /** How a piece is written, and its letters. */
  lemma PieceIs(x: Piece)
    requires ValidPiece(x)
    ensures x.Raw? ==>
              && x.cp < 0x11_0000 && Text(x) == Utf8(x.cp) && LettersOf(x) == [Letter(x.cp, true)]
              && forall i :: 0 <= i < |Utf8(x.cp)| ==> Utf8(x.cp)[i] != QUOTE && Utf8(x.cp)[i] != BACKSLASH
    ensures x.Short? ==> |Text(x)| == 2 && LettersOf(x) == [Letter(CharOf(x), false)]
    ensures x.Unit? ==>
              && AreDigits(x.digits, x.u) && Text(x) == [BACKSLASH, LETTER_U] + x.digits && |Text(x)| == 6
              && LettersOf(x) == [Letter(x.u, false)]
    ensures x.Pair? ==>
              0x1_0000 <= x.cp < 0x11_0000 &&
              var hi, lo := HighHalf(x.cp), LowHalf(x.cp);
              && AreDigits(x.hiDigits, hi) && AreDigits(x.loDigits, lo) && |x.hiDigits| == 4 && |Text(x)| == 12
              && Text(x) == ([BACKSLASH, LETTER_U] + x.hiDigits) + ([BACKSLASH, LETTER_U] + x.loDigits)
              && LettersOf(x) == [Letter(hi, false), Letter(lo, false)]
  {
    if x.Raw? {
      Utf8Bytes(x.cp);
    }
    hide Utf8, HexRun;
  }

  lemma OneLetter(l: Letter, room: nat)
    requires l.cp < 0x11_0000
    ensures PutAll([l], room) == PutLetter(l, room)
  {
    hide PutLetter;
    assert PutAll([l][1..], room - |PutLetter(l, room)|) == [];
  }

  lemma TwoLetters(l: Letter, k: Letter, room: nat)
    requires l.cp < 0x11_0000 && k.cp < 0x11_0000
    ensures var x := PutLetter(l, room); PutAll([l, k], room) == x + PutLetter(k, room - |x|)
  {
    hide PutLetter;
    assert [l, k][1..] == [k];
    OneLetter(k, room - |PutLetter(l, room)|);
  }

  /**
   For every well-formed body and any room: each letter is written as far as it fits, also behind one that did not.
   */
  lemma {:induction false} BodiesAreRead(s: seq<byte>, p: nat, pieces: seq<Piece>, room: nat)
    requires ValidPieces(pieces) && HasAt(s, p, Body(pieces) + [QUOTE])
    ensures Lite(s, p, room) == PutAll(Letters(pieces), room)
    decreases |pieces|
  {
    hide *;
    if pieces == [] {
      NothingToRead(s, p, pieces, room);
    } else {
      LettersFirst(pieces);
      BodyParts(s, p, pieces);
      var x, rest := pieces[0], pieces[1..];
      ReadsPiece(s, p, x, room);
      var y := PutAll(LettersOf(x), room);
      BodiesAreRead(s, p + |Text(x)|, rest, room - |y|);
      PutAllConcat(LettersOf(x), Letters(rest), room);
    }
  }

  lemma NothingToRead(s: seq<byte>, p: nat, pieces: seq<Piece>, room: nat)
    requires pieces == [] && ValidPieces(pieces) && HasAt(s, p, Body(pieces) + [QUOTE])
    ensures Lite(s, p, room) == PutAll(Letters(pieces), room)
  {
    HasFirst(s, p, [] + [QUOTE]);
    LiteEnds(s, p, room);
  }

  lemma LettersFirst(pieces: seq<Piece>)
    requires ValidPieces(pieces) && pieces != []
    ensures (forall i :: 0 <= i < |pieces| ==> ValidPiece(pieces[i])) && ValidPieces(pieces[1..])
    ensures Letters(pieces) == LettersOf(pieces[0]) + Letters(pieces[1..])
  {
    hide LettersOf, ValidPiece;
  }

  // ---- when only whole characters are written, and none behind one that did not fit ---------------------------

  function Codes(ls: seq<Letter>): (cps: seq<nat>)
    requires ValidLetters(ls)
    ensures |cps| == |ls| && forall i :: 0 <= i < |cps| ==> cps[i] < 0x11_0000 && cps[i] == ls[i].cp
  {
    if ls == [] then [] else [ls[0].cp] + Codes(ls[1..])
  }

  /** Nothing is written of these: no room is left for a byte of a raw character, nor for any other as a whole. */
  predicate NothingFits(ls: seq<Letter>, room: nat)
    requires ValidLetters(ls)
  {
    forall i :: 0 <= i < |ls| ==> if ls[i].raw then room == 0 else room < |Utf8(ls[i].cp)|
  }

  /** From the first character on that does not fit as a whole, nothing is written any more. */
  predicate EndsCleanly(ls: seq<Letter>, room: nat)
    requires ValidLetters(ls)
  {
    if ls == [] then true
    else if |Utf8(ls[0].cp)| <= room then EndsCleanly(ls[1..], room - |Utf8(ls[0].cp)|)
    else NothingFits(ls, room)
  }

  lemma {:induction false} NothingIsWritten(ls: seq<Letter>, room: nat)
    requires ValidLetters(ls)
    ensures PutAll(ls, room) == [] <==> NothingFits(ls, room)
    decreases |ls|
  {
    if ls != [] {
      var x := PutLetter(ls[0], room);
      LetterIsWritten(ls[0], room);
      hide PutLetter, Utf8;
      NothingIsWritten(ls[1..], room - |x|);
      NothingFitsFirst(ls, room);
    }
  }

  lemma LetterIsWritten(l: Letter, room: nat)
    requires l.cp < 0x11_0000
    ensures PutLetter(l, room) == [] <==> if l.raw then room == 0 else room < |Utf8(l.cp)|
  {
    hide Utf8;
  }

  lemma NothingFitsFirst(ls: seq<Letter>, room: nat)
    requires ls != [] && ValidLetters(ls)
    ensures NothingFits(ls, room) <==>
            (if ls[0].raw then room == 0 else room < |Utf8(ls[0].cp)|) && NothingFits(ls[1..], room)
  {
    hide Utf8;
    assert forall i :: 0 <= i < |ls| - 1 ==> ls[1..][i] == ls[i + 1];
    assert forall i :: 0 < i < |ls| ==> ls[i] == ls[1..][i - 1];
  }

  /** What is written are the whole characters that fit, from the first one on, exactly if the string ends cleanly. */
  lemma {:induction false} WholeCharactersExactly(ls: seq<Letter>, room: nat)
    requires ValidLetters(ls)
    ensures PutAll(ls, room) == Fit(Codes(ls), room) <==> EndsCleanly(ls, room)
    decreases |ls|
  {
    if ls != [] {
      var n := |Utf8(ls[0].cp)|;
      assert ValidLetters(ls[1..]);
      hide *;
      FitsFirst(ls, room);
      CleanFirst(ls, room);
      if n <= room {
        WholeCharactersExactly(ls[1..], room - n);
        SameTail(Utf8(ls[0].cp), PutAll(ls[1..], room - n), Fit(Codes(ls[1..]), room - n));
      } else {
        NothingIsWritten(ls, room);
      }
    }
  }

  lemma CleanFirst(ls: seq<Letter>, room: nat)
    requires ls != [] && ValidLetters(ls)
    ensures ls[0].cp < 0x11_0000 && ValidLetters(ls[1..])
    ensures var x := Utf8(ls[0].cp);
            if |x| <= room then
              && PutAll(ls, room) == x + PutAll(ls[1..], room - |x|)
              && (EndsCleanly(ls, room) <==> EndsCleanly(ls[1..], room - |x|))
            else EndsCleanly(ls, room) <==> NothingFits(ls, room)
  {
    hide Utf8, NothingFits;
  }

  lemma FitsFirst(ls: seq<Letter>, room: nat)
    requires ls != [] && ValidLetters(ls)
    ensures var x := Utf8(ls[0].cp);
            Fit(Codes(ls), room) == if |x| <= room then x + Fit(Codes(ls[1..]), room - |x|) else []
  {
    hide Utf8;
    TailOf(ls[0].cp, Codes(ls[1..]));
  }

  lemma SameTail(x: seq<byte>, a: seq<byte>, b: seq<byte>)
    ensures x + a == x + b <==> a == b
  {
    assert (x + a)[|x|..] == a && (x + b)[|x|..] == b;
  }

  /** No half of a pair is written as an escape. */
  predicate NoHalves(pieces: seq<Piece>) {
    forall i :: 0 <= i < |pieces| ==>
      !pieces[i].Pair? && (pieces[i].Unit? ==> !IsHigh(pieces[i].u) && !IsLow(pieces[i].u))
  }

  lemma {:induction false} SameCharacters(pieces: seq<Piece>)
    requires ValidPieces(pieces) && NoHalves(pieces)
    ensures Codes(Letters(pieces)) == CharsOf(pieces)
    decreases |pieces|
  {
    if pieces != [] {
      hide Utf8;
      var l, rest := LettersOf(pieces[0]), pieces[1..];
      SameCharacters(rest);
      assert l == [Letter(CharOf(pieces[0]), l[0].raw)];
      TailOf(l[0], Letters(rest));
    }
  }

  /**
   The two readers of strings agree on a well-formed body without halves of pairs exactly if it ends cleanly in the room
   there is: then it is cut between characters, and nothing is missing in front of the cut.
   */
  lemma ReadersAgreeExactly(s: seq<byte>, p: nat, pieces: seq<Piece>, room: nat)
    requires WellFormed(pieces) && NoHalves(pieces) && HasAt(s, p, Body(pieces) + [QUOTE])
    ensures Lite(s, p, room) == Decode(s, p, Some(room)).out <==> EndsCleanly(Letters(pieces), room)
  {
    hide Lite, Decode, HasAt, Body, Letters, EndsCleanly, Codes, PutAll, Fit;
    BodiesAreRead(s, p, pieces, room);
    DecodingIsExact(s, p, pieces, Some(room));
    SameCharacters(pieces);
    WholeCharactersExactly(Letters(pieces), room);
  }

  /** A buffer that is large enough always ends cleanly. */
  lemma {:induction false} RoomyEndsCleanly(ls: seq<Letter>, room: nat)
    requires ValidLetters(ls) && 4 * |ls| <= room
    ensures EndsCleanly(ls, room)
    decreases |ls|
  {
    if ls != [] {
      hide Utf8;
      RoomyEndsCleanly(ls[1..], room - |Utf8(ls[0].cp)|);
    }
  }

  /** A raw character of two bytes is cut in half. */
  lemma SmallBuffersCutCharacters()
    ensures var pieces := [Raw(0xE9)];
            ValidPieces(pieces) && PutAll(Letters(pieces), 1) == [0xC3]
  {
    var raw := [Raw(0xE9)];
    LettersFirst(raw);
    assert Letters(raw[1..]) == [];
    assert Letters(raw) == [Letter(0xE9, true)];
    OneLetter(Letter(0xE9, true), 1);
  }

  /** One that is written as an escape is left out, and the next one is not. */
  lemma SmallBuffersSkipEscapes()
    ensures var pieces := [Unit(0xE9, [0x30, 0x30, 0x65, 0x39]), Raw(0x61)];
            ValidPieces(pieces) && PutAll(Letters(pieces), 1) == [0x61]
  {
    var d: seq<byte> := [0x30, 0x30, 0x65, 0x39];
    DigitsOfE9(d);
    var two := [Unit(0xE9, d), Raw(0x61)];
    LettersFirst(two);
    assert two[1..] == [Raw(0x61)];
    LettersFirst(two[1..]);
    assert Letters(two[1..][1..]) == [];
    assert Letters(two) == [Letter(0xE9, false), Letter(0x61, true)];
    hide Letters, HexRun;
    TwoLetters(Letter(0xE9, false), Letter(0x61, true), 1);
  }

  lemma DigitsOfE9(d: seq<byte>)
    requires d == [0x30, 0x30, 0x65, 0x39]
    ensures AreDigits(d, 0xE9)
  {
  }

  /** The halves of a pair come out by themselves, three bytes each, where the other reader joins them. */
  lemma HalvesStayApart(x: Piece, room: nat)
    requires ValidPiece(x) && x.Pair? && room >= 6
    ensures var hi, lo := Utf8(HighHalf(x.cp)), Utf8(LowHalf(x.cp));
            PutAll(LettersOf(x), room) == hi + lo && |hi + lo| == 6
    ensures |Utf8(CharOf(x))| == 4
  {
    TwoLetters(Letter(HighHalf(x.cp), false), Letter(LowHalf(x.cp), false), room);
  }
}
