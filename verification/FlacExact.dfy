/**
 Which frame headers are read: exactly those that an encoder may write, with the header and the length that were
 written.
 */
module FlacExact {
  import opened Basics
  import opened FlacBits
  import opened FlacCrc
  import opened FlacFormat
  import opened FlacStable
  import opened FlacEncoder

  // ---- the coded number -----------------------------------------------------------------------------------

  lemma LeadBack(lead: byte)
    requires ExtraBytes(lead) <= 6
    ensures var e := ExtraBytes(lead);
            var high := LeadDigits(lead, e);
            LEADS[e] + high == lead && high < Pow2(if e == 0 then 7 else 6 - e)
  {
    SmallPowers();
  }

  lemma ContinuationBack(b: byte, high: nat)
    requires IsContinuation(b)
    ensures 0x80 + b % 64 == b && (high * 64 + b % 64) / 64 == high && (high * 64 + b % 64) % 64 == b % 64
  {
  }

  /** The continuation bytes are those of the number that they were read as. */
  lemma {:induction false} ContsBack(s: seq<byte>, high: nat)
    requires forall i :: 0 <= i < |s| ==> IsContinuation(s[i])
    ensures Conts(Digits(s, high), |s|) == s
    decreases |s|
  {
    if s != [] {
      hide Digits, Conts;
      var front, b := s[..|s| - 1], s[|s| - 1];
      ContsBack(front, high);
      assert s == front + [b];
      DigitsAppend(front, b, high);
      ContinuationBack(b, Digits(front, high));
      OneMoreCont(Digits(s, high), |s|);
    }
  }

  lemma NumberBack(buf: seq<byte>, pos: nat)
    requires ReadNumber(buf, pos).Got?
    ensures var n, p := ReadNumber(buf, pos).val, ReadNumber(buf, pos).pos;
            pos + 1 <= p <= |buf| && NumberFits(n, p - pos - 1) && buf[pos..p] == NumberBytes(n, p - pos - 1)
  {
    hide Pow2, Conts, Digits, LeadDigits, IsContinuation, ExtraBytes, ReadNumber;
    NumberPieces(buf, pos);
    var e := ExtraBytes(buf[pos]);
    var rest := buf[pos + 1..pos + 1 + e];
    var high := LeadDigits(buf[pos], e);
    var n := Digits(rest, high);
    LeadBack(buf[pos]);
    ContsBack(rest, high);
    DigitsOfConts(n, e, high);
    DivMod(high, Pow2(6 * e), n % Pow2(6 * e));
    assert buf[pos..pos + 1 + e] == [buf[pos]] + rest;
  }

  lemma NumberPieces(buf: seq<byte>, pos: nat)
    requires ReadNumber(buf, pos).Got?
    ensures pos < |buf| && ExtraBytes(buf[pos]) <= 6 && pos + 1 + ExtraBytes(buf[pos]) <= |buf|
    ensures var e := ExtraBytes(buf[pos]);
            var rest := buf[pos + 1..pos + 1 + e];
            && ReadNumber(buf, pos) == Got(Digits(rest, LeadDigits(buf[pos], e)), pos + 1 + e)
            && forall i :: 0 <= i < |rest| ==> IsContinuation(rest[i])
  {
    hide Digits, LeadDigits, IsContinuation, ExtraBytes;
  }

  // ---- numbers of one or two bytes ---------------------------------------------------------------------------

  lemma BytesWritten(buf: seq<byte>, pos: nat, n: nat)
    requires n <= 2 && pos + n <= |buf|
    ensures var v := BigEndian(buf[pos..pos + n]); InBytes(v, n) && ToBytes(v, n) == buf[pos..pos + n]
  {
    hide BigEndian;
    var s := buf[pos..pos + n];
    if n == 0 {
      assert s == [];
      NoBytes();
    } else if n == 1 {
      OneByte(s[0]);
      assert s == [s[0]];
    } else {
      TwoBytes(s[0], s[1]);
      assert s == [s[0], s[1]];
      DivMod(s[0], 256, s[1]);
    }
  }

  // ---- the header ----------------------------------------------------------------------------------------------

  /** What a header that was read says, piece by piece. */
  lemma HeaderPieces(buf: seq<byte>, info: Option<StreamInfo>)
    requires ReadHeader(buf, info).Got?
    ensures |buf| >= 4 && ReadNumber(buf, 4).Got?
    ensures var h, p1 := ReadHeader(buf, info).val, ReadNumber(buf, 4).pos;
            var p2 := p1 + BlockBytes(buf[2] / 16);
            var p3 := p2 + RateBytes(buf[2] % 16);
            && p3 + 1 == ReadHeader(buf, info).pos <= |buf|
            && buf[0] == 0xFF && buf[1] / 2 == 0x7C && (h.variable <==> buf[1] % 2 == 1)
            && buf[3] % 2 == 0 && buf[3] / 16 == h.chCode <= 10 && h.number == ReadNumber(buf, 4).val
            && 1 <= buf[2] / 16 && h.blocksize == BlockSize(buf[2] / 16, BigEndian(buf[p1..p2]))
            && SampleRate(buf[2] % 16, BigEndian(buf[p2..p3]), info) == Some(h.rate)
            && SampleBits(buf[3] / 2 % 8, info) == Some(h.bps) && Crc8(buf[..p3]) == buf[p3]
  {
    hide ReadNumber, Crc8, BigEndian, BlockSize, SampleRate, SampleBits, BlockBytes, RateBytes;
  }

  /** The codes that are in the header's bytes. */
  lemma CodesWritten(buf: seq<byte>, k: HeaderChoice, h: Header)
    requires |buf| >= 4 && buf[0] == 0xFF && buf[1] / 2 == 0x7C && (h.variable <==> buf[1] % 2 == 1)
    requires buf[3] % 2 == 0 && buf[3] / 16 == h.chCode <= 10
    requires k.bsCode == buf[2] / 16 >= 1 && k.srCode == buf[2] % 16 && k.ssCode == buf[3] / 2 % 8
    ensures k.bsCode <= 15 && k.srCode <= 15 && k.ssCode <= 7 && Codes(k, h) == buf[..4]
  {
    assert buf[..4] == [buf[0], buf[1], buf[2], buf[3]];
  }

  /** The choices that a header was written with. */
  function ChoiceOf(buf: seq<byte>): HeaderChoice
    requires |buf| >= 4 && ReadNumber(buf, 4).Got?
    requires ReadNumber(buf, 4).pos + BlockBytes(buf[2] / 16) + RateBytes(buf[2] % 16) <= |buf|
  {
    var p1 := ReadNumber(buf, 4).pos;
    var p2 := p1 + BlockBytes(buf[2] / 16);
    var p3 := p2 + RateBytes(buf[2] % 16);
    HeaderChoice(buf[2] / 16, BigEndian(buf[p1..p2]), buf[2] % 16, BigEndian(buf[p2..p3]), buf[3] / 2 % 8,
                 if p1 >= 5 then p1 - 5 else 0)
  }

  /** A header that is read was written so. */
  lemma HeadersAreWritten(buf: seq<byte>, info: Option<StreamInfo>) returns (k: HeaderChoice)
    requires ReadHeader(buf, info).Got?
    ensures var h, p := ReadHeader(buf, info).val, ReadHeader(buf, info).pos;
            p <= |buf| && Describes(k, h, info) && buf[..p] == EncodeHeader(k, h, info)
  {
    hide ReadHeader, ReadNumber, Crc8, BigEndian, BlockSize, SampleRate, SampleBits, BlockBytes, RateBytes, Codes,
         NumberBytes, NumberFits, ToBytes, InBytes, SaysSize, SaysRate, SaysBits, HeaderFields;
    HeaderPieces(buf, info);
    var h, p1 := ReadHeader(buf, info).val, ReadNumber(buf, 4).pos;
    var p2 := p1 + BlockBytes(buf[2] / 16);
    var p3 := p2 + RateBytes(buf[2] % 16);
    k := ChoiceOf(buf);
    CodesWritten(buf, k, h);
    NumberBack(buf, 4);
    BytesWritten(buf, p1, BlockBytes(k.bsCode));
    BytesWritten(buf, p2, RateBytes(k.srCode));
    SizesAgree(k.bsCode, k.blockValue, h.blocksize);
    RatesAgree(k.srCode, k.rateValue, h.rate, info);
    DepthsAgree(k.ssCode, h.bps, info);
    FieldsAre(k, h, info);
    InFour(buf, 4, p1, p2, p3);
    assert buf[..p3 + 1] == buf[..p3] + [buf[p3]];
  }

  lemma InFour<T>(s: seq<T>, a: nat, b: nat, c: nat, d: nat)
    requires a <= b <= c <= d <= |s|
    ensures s[..d] == s[..a] + (s[a..b] + (s[b..c] + s[c..d]))
  {
  }

  /** A buffer starts with a header, with that content and of that length, exactly if an encoder may write it so. */
  lemma HeadersExactly(buf: seq<byte>, info: Option<StreamInfo>, h: Header, p: nat)
    ensures ReadHeader(buf, info) == Got(h, p) <==>
            p <= |buf| && exists k :: Describes(k, h, info) && EncodeHeader(k, h, info) == buf[..p]
  {
    hide ReadHeader, Describes, EncodeHeader;
    if ReadHeader(buf, info) == Got(h, p) {
      var k := HeadersAreWritten(buf, info);
      assert Describes(k, h, info) && EncodeHeader(k, h, info) == buf[..p];
    }
    if p <= |buf| && exists k :: Describes(k, h, info) && EncodeHeader(k, h, info) == buf[..p] {
      var k :| Describes(k, h, info) && EncodeHeader(k, h, info) == buf[..p];
      ReadsHeader(k, h, info);
      ReadHeaderAgrees(EncodeHeader(k, h, info), buf, info);
    }
  }
}
