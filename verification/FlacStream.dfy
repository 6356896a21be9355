/**
 Whole FLAC streams as RFC 9639 section 8 lets an encoder write them, and what the reader of AdecFlac makes of them:
 every frame in order, however the stream is cut into payloads.
 */
module FlacStream {
  import opened Basics
  import opened CarryLoop
  import opened FlacBits
  import opened FlacCrc
  import opened BitWriter
  import opened FlacFormat
  import opened FlacStable
  import opened FlacEncoder
  import opened AdecFlac

  // ---- the stream header, written ---------------------------------------------------------------------------

  /** A STREAMINFO block's fields, those that the reader has no use for included. */
  datatype InfoBlock = InfoBlock(info: StreamInfo, minFrame: nat, maxFrame: nat, md5: nat)

  /** A metadata block: a STREAMINFO or one of another type. */
  datatype Meta = Info(block: InfoBlock) | Other(kind: nat, body: seq<byte>)

  /** The fields fit their widths; there are one to eight channels, of one to 32 bits a sample. */
  predicate LegalInfo(b: InfoBlock) {
    var si := b.info;
    && si.minBlock < Pow2(16) && si.maxBlock < Pow2(16) && b.minFrame < Pow2(24) && b.maxFrame < Pow2(24)
    && si.sampleRate < Pow2(20) && 1 <= si.channels <= 8 && 1 <= si.bps <= 32
    && si.totalSamples < Pow2(36) && b.md5 < Pow2(128)
  }

  predicate LegalMeta(m: Meta) {
    match m
    case Info(b) => LegalInfo(b)
    case Other(kind, body) => 1 <= kind <= 127 && |body| < Pow2(24)
  }

  predicate LegalMetas(ms: seq<Meta>) {
    forall i :: 0 <= i < |ms| ==> LegalMeta(ms[i])
  }

  /** STREAMINFO as one row of bits: section 8.2. */
  function InfoBits(b: InfoBlock): (bits: seq<bit>)
    requires LegalInfo(b)
    ensures |bits| == 272
  {
    var si := b.info;
    Bits(si.minBlock, 16) + (Bits(si.maxBlock, 16) + (Bits(b.minFrame, 24) + (Bits(b.maxFrame, 24) +
      (Bits(si.sampleRate, 20) + (Bits(si.channels - 1, 3) + (Bits(si.bps - 1, 5) +
        (Bits(si.totalSamples, 36) + Bits(b.md5, 128))))))))
  }

  function Kind(m: Meta): nat { if m.Info? then 0 else m.kind }

  function Contents(m: Meta): (s: seq<byte>)
    requires LegalMeta(m)
    ensures m.Info? ==> |s| == 34
  {
    match m
    case Info(b) => Pack(InfoBits(b))
    case Other(_, body) => body
  }

  /** A block's header, section 8.1: whether it is the last, its type and its length. */
  function MetaHeader(m: Meta, last: bool): (bits: seq<bit>)
    requires LegalMeta(m)
    ensures |bits| == 32
  {
    Bits(if last then 1 else 0, 1) + (Bits(Kind(m), 7) + Bits(|Contents(m)|, 24))
  }

  function MetaBytes(m: Meta, last: bool): seq<byte>
    requires LegalMeta(m)
  {
    Pack(MetaHeader(m, last)) + Contents(m)
  }

  function MetaRow(ms: seq<Meta>): seq<byte>
    requires LegalMetas(ms)
  {
    if ms == [] then [] else MetaBytes(ms[0], |ms| == 1) + MetaRow(ms[1..])
  }

  function Ascii(s: string): (b: seq<byte>)
    requires forall i :: 0 <= i < |s| ==> s[i] < 128 as char
    ensures |b| == |s|
  {
    seq(|s|, i requires 0 <= i < |s| => s[i] as int)
  }

  function StreamHeader(ms: seq<Meta>): seq<byte>
    requires LegalMetas(ms)
  {
    Ascii("fLaC") + MetaRow(ms)
  }

  /** The first STREAMINFO counts. */
  function FirstInfo(ms: seq<Meta>): Option<StreamInfo> {
    if ms == [] then None else if ms[0].Info? then Some(ms[0].block.info) else FirstInfo(ms[1..])
  }

  // ---- bytes and bits at a position -----------------------------------------------------------------------

  lemma {:induction false} BytesAsBits(s: seq<byte>)
    ensures BigEndian(s) == ToNat(Unpack(s))
  {
    if s != [] {
      var front, b := s[..|s| - 1], s[|s| - 1];
      BytesAsBits(front);
      assert s == front + [b];
      hide ToNat, ByteBits;
      UnpackConcat(front, [b]);
      assert Unpack([b]) == ByteBits(b);
      ToNatAppendByte(Unpack(front), b);
    }
  }

  lemma NumOfBytes(s: seq<byte>, i: nat, j: nat)
    requires i <= j <= |s|
    ensures BigEndian(s[i..j]) == Num(Unpack(s), 8 * i, 8 * j)
  {
    hide Unpack, BigEndian, ToNat;
    BytesAsBits(s[i..j]);
    UnpackSlice(s, i, j);
  }

  // ---- the stream header is read back ----------------------------------------------------------------------

  /** Where the fields of a STREAMINFO are. */
  lemma InfoParts(bits: seq<bit>, b: InfoBlock)
    requires LegalInfo(b) && HasAt(bits, 0, InfoBits(b))
    ensures |bits| >= 272
    ensures Num(bits, 0, 16) == b.info.minBlock && Num(bits, 16, 32) == b.info.maxBlock
    ensures Num(bits, 80, 100) == b.info.sampleRate && Num(bits, 100, 103) == b.info.channels - 1
    ensures Num(bits, 103, 108) == b.info.bps - 1 && Num(bits, 108, 144) == b.info.totalSamples
  {
    var si := b.info;
    SmallPowers();
    hide HasAt, Bits, Pow2, Num;
    assert |InfoBits(b)| == 272;
    var t8 := Bits(b.md5, 128);
    var t7 := Bits(si.totalSamples, 36) + t8;
    var t6 := Bits(si.bps - 1, 5) + t7;
    var t5 := Bits(si.channels - 1, 3) + t6;
    var t4 := Bits(si.sampleRate, 20) + t5;
    var t3 := Bits(b.maxFrame, 24) + t4;
    var t2 := Bits(b.minFrame, 24) + t3;
    var t1 := Bits(si.maxBlock, 16) + t2;
    HasParts(bits, 0, Bits(si.minBlock, 16), t1);
    HasParts(bits, 16, Bits(si.maxBlock, 16), t2);
    HasParts(bits, 32, Bits(b.minFrame, 24), t3);
    HasParts(bits, 56, Bits(b.maxFrame, 24), t4);
    HasParts(bits, 80, Bits(si.sampleRate, 20), t5);
    HasParts(bits, 100, Bits(si.channels - 1, 3), t6);
    HasParts(bits, 103, Bits(si.bps - 1, 5), t7);
    HasParts(bits, 108, Bits(si.totalSamples, 36), t8);
    HasSlice(bits, 0, InfoBits(b));
    NumIs(bits, 0, si.minBlock, 16);
    NumIs(bits, 16, si.maxBlock, 16);
    NumIs(bits, 80, si.sampleRate, 20);
    NumIs(bits, 100, si.channels - 1, 3);
    NumIs(bits, 103, si.bps - 1, 5);
    NumIs(bits, 108, si.totalSamples, 36);
  }

  /** The fields that do not end with a byte, put together from bytes. */
  lemma SplitFields(bits: seq<bit>, b12: byte, b13: byte)
    requires |bits| >= 144 && b12 == Num(bits, 96, 104) && b13 == Num(bits, 104, 112)
    ensures Num(bits, 80, 96) * 16 + b12 / 16 == Num(bits, 80, 100)
    ensures b12 / 2 % 8 == Num(bits, 100, 103)
    ensures b12 % 2 * 16 + b13 / 16 == Num(bits, 103, 108)
    ensures b13 % 16 * 0x1_0000_0000 + Num(bits, 112, 144) == Num(bits, 108, 144)
  {
    hide Num, Pow2;
    SmallPowers();
    FiveBytes();
    NumInTwo(bits, 96, 100, 104);
    NumInTwo(bits, 96, 103, 104);
    NumInTwo(bits, 96, 100, 103);
    NumInTwo(bits, 104, 108, 112);
    NumInTwo(bits, 80, 96, 100);
    NumInTwo(bits, 103, 104, 108);
    NumInTwo(bits, 108, 112, 144);
    DivMod(Num(bits, 96, 100), 16, Num(bits, 100, 104));
    DivMod(Num(bits, 96, 103), 2, Num(bits, 103, 104));
    DivMod(Num(bits, 96, 100), 8, Num(bits, 100, 103));
    DivMod(Num(bits, 104, 108), 16, Num(bits, 108, 112));
  }

  /** Every field of a STREAMINFO is read back. */
  lemma ReadsInfo(b: InfoBlock)
    requires LegalInfo(b)
    ensures |Pack(InfoBits(b))| == 34 && InfoOf(Pack(InfoBits(b))) == b.info
  {
    hide InfoBits, LegalInfo, Unpack, Pack, Num, BigEndian;
    var s := Pack(InfoBits(b));
    var bits := Unpack(s);
    UnpackPack(InfoBits(b));
    assert bits[0..|InfoBits(b)|] == bits;
    InfoParts(bits, b);
    NumOfBytes(s, 0, 2);
    NumOfBytes(s, 2, 4);
    NumOfBytes(s, 10, 12);
    NumOfByte(s, 12);
    NumOfByte(s, 13);
    NumOfBytes(s, 14, 18);
    SplitFields(bits, s[12], s[13]);
  }

  lemma LengthFits(m: Meta)
    requires LegalMeta(m)
    ensures |Contents(m)| < Pow2(24) && Kind(m) < Pow2(7)
  {
    SmallPowers();
    Pow2Mono(8, 24);
    hide Pow2, LegalInfo;
  }

  lemma MetaHeaderIs(m: Meta, last: bool)
    requires LegalMeta(m)
    ensures MetaHeader(m, last)
         == Bits(if last then 1 else 0, 1) + (Bits(Kind(m), 7) + Bits(|Contents(m)|, 24))
  {
  }

  lemma MetaHeaderParts(bits: seq<bit>, p: nat, m: Meta, last: bool)
    requires LegalMeta(m) && HasAt(bits, p, MetaHeader(m, last))
    ensures p + 32 <= |bits|
    ensures Num(bits, p, p + 8) == (if last then 128 else 0) + Kind(m) && Kind(m) <= 127
    ensures Num(bits, p + 8, p + 32) == |Contents(m)|
  {
    hide *;
    LengthFits(m);
    MetaHeaderIs(m, last);
    var l, k, n := Bits(if last then 1 else 0, 1), Bits(Kind(m), 7), Bits(|Contents(m)|, 24);
    HasParts(bits, p, l, k + n);
    HasParts(bits, p + 1, k, n);
    HasSlice(bits, p + 8, n);
    SmallPowers();
    NumIs(bits, p, if last then 1 else 0, 1);
    NumIs(bits, p + 1, Kind(m), 7);
    NumIs(bits, p + 8, |Contents(m)|, 24);
    NumInTwo(bits, p, p + 1, p + 8);
  }

  lemma MetaParts(buf: seq<byte>, pos: nat, m: Meta, last: bool)
    requires LegalMeta(m) && HasAt(buf, pos, MetaBytes(m, last))
    ensures |MetaBytes(m, last)| == 4 + |Contents(m)| && pos + 4 + |Contents(m)| <= |buf|
    ensures buf[pos] == (if last then 128 else 0) + Kind(m) && Kind(m) <= 127
    ensures BigEndian(buf[pos + 1..pos + 4]) == |Contents(m)|
    ensures buf[pos + 4..pos + 4 + |Contents(m)|] == Contents(m)
  {
    hide Pack, Unpack, Contents, MetaHeader, BigEndian, Num, LegalInfo, Kind;
    var head := Pack(MetaHeader(m, last));
    HasParts(buf, pos, head, Contents(m));
    HasSlice(buf, pos + 4, Contents(m));
    HasBits(buf, pos, head);
    UnpackPack(MetaHeader(m, last));
    MetaHeaderParts(Unpack(buf), 8 * pos, m, last);
    NumOfByte(buf, pos);
    NumOfBytes(buf, pos + 1, pos + 4);
  }

  /** What a row of metadata blocks tells, when `info` is known before it. */
  function Told(info: Option<StreamInfo>, ms: seq<Meta>): Option<StreamInfo> {
    if info.Some? then info else FirstInfo(ms)
  }

  lemma MetaRowIs(ms: seq<Meta>, info: Option<StreamInfo>)
    requires ms != [] && LegalMetas(ms)
    ensures LegalMeta(ms[0]) && LegalMetas(ms[1..])
    ensures MetaRow(ms) == MetaBytes(ms[0], |ms| == 1) + MetaRow(ms[1..]) && (|ms| == 1 ==> MetaRow(ms[1..]) == [])
    ensures Told(info, ms) == if |ms| == 1 then After(info, ms[0]) else Told(After(info, ms[0]), ms[1..])
  {
    hide MetaBytes;
    if |ms| == 1 {
      assert ms[1..] == [];
      assert FirstInfo(ms[1..]) == None;
    }
  }

  function After(info: Option<StreamInfo>, m: Meta): Option<StreamInfo> {
    if info.None? && m.Info? then Some(m.block.info) else info
  }

  lemma {:induction false} ReadsMetaRow(buf: seq<byte>, pos: nat, ms: seq<Meta>, info: Option<StreamInfo>)
    requires ms != [] && LegalMetas(ms) && HasAt(buf, pos, MetaRow(ms))
    ensures ReadBlocks(buf, pos, info)
         == match Told(info, ms)
            case Some(si) => Got(si, pos + |MetaRow(ms)|)
            case None => Invalid
    decreases |ms|
  {
    hide *;
    MetaRowIs(ms, info);
    var m, last := ms[0], |ms| == 1;
    HasParts(buf, pos, MetaBytes(m, last), MetaRow(ms[1..]));
    ReadsMeta(buf, pos, m, last, info);
    if !last {
      ReadsMetaRow(buf, pos + |MetaBytes(m, last)|, ms[1..], After(info, m));
    }
  }

  lemma ReadsMeta(buf: seq<byte>, pos: nat, m: Meta, last: bool, info: Option<StreamInfo>)
    requires LegalMeta(m) && HasAt(buf, pos, MetaBytes(m, last))
    ensures var next, info' := pos + |MetaBytes(m, last)|, After(info, m);
            ReadBlocks(buf, pos, info) ==
            if !last then ReadBlocks(buf, next, info') else if info'.Some? then Got(info'.value, next) else Invalid
  {
    hide MetaBytes, InfoOf, Contents, LegalInfo, BigEndian;
    MetaParts(buf, pos, m, last);
    if m.Info? {
      InfoContents(m);
    }
  }

  lemma InfoContents(m: Meta)
    requires m.Info? && LegalMeta(m)
    ensures |Contents(m)| == 34 && InfoOf(Contents(m)) == m.block.info
  {
    hide InfoOf, LegalInfo;
    ReadsInfo(m.block);
  }

  /**
   A stream header of any metadata blocks is read to its end, whatever follows, and the first STREAMINFO in it with
   every field; without one it is refused.
   */
  lemma ReadsStreamHeader(ms: seq<Meta>, rest: seq<byte>)
    requires ms != [] && LegalMetas(ms)
    ensures ReadStreamHeader(StreamHeader(ms) + rest)
         == match FirstInfo(ms)
            case Some(si) => Got(si, |StreamHeader(ms)|)
            case None => Invalid
  {
    hide ReadBlocks, MetaRow, LegalMeta;
    var s := StreamHeader(ms) + rest;
    assert s[..4] == Ascii("fLaC") == MAGIC;
    assert s[4..4 + |MetaRow(ms)|] == MetaRow(ms);
    ReadsMetaRow(s, 4, ms, None);
  }

  // ---- whole streams --------------------------------------------------------------------------------------------

  /** A block of audio as an encoder writes it: its choices, the header and the samples. */
  datatype Block = Block(k: FrameChoice, h: Header, planes: seq<seq<int32>>)

  /** The block is of the stream: no longer than its longest, and with no more channels. */
  predicate BelongsTo(b: Block, si: StreamInfo) {
    && LegalFrame(b.k, b.h, Some(si), b.planes)
    && b.h.blocksize <= (if si.maxBlock > 0 then si.maxBlock else 4608) && |b.planes| <= si.channels
  }

  predicate AllBelong(blocks: seq<Block>, si: StreamInfo) {
    forall i :: 0 <= i < |blocks| ==> BelongsTo(blocks[i], si)
  }

  function BlockBytes(b: Block, si: StreamInfo): seq<byte>
    requires BelongsTo(b, si)
  {
    EncodeFrame(b.k, b.h, Some(si), b.planes)
  }

  function Frames(blocks: seq<Block>, si: StreamInfo): (s: seq<seq<byte>>)
    requires AllBelong(blocks, si)
    ensures |s| == |blocks|
  {
    seq(|blocks|, i requires 0 <= i < |blocks| => BlockBytes(blocks[i], si))
  }

  /** What is to come out of a block. */
  function Heard(b: Block, si: StreamInfo): Frame {
    Frame(FrameInfo(b.h.blocksize, SamplePos(b.h, Some(si)), |b.planes|, b.h.bps, b.h.rate), b.planes)
  }

  function AllHeard(blocks: seq<Block>, si: StreamInfo): (f: seq<Frame>)
    ensures |f| == |blocks|
  {
    seq(|blocks|, i requires 0 <= i < |blocks| => Heard(blocks[i], si))
  }

  lemma FrameStartsWithSync(b: Block, si: StreamInfo)
    requires BelongsTo(b, si)
    ensures var s := BlockBytes(b, si); |s| >= 2 && IsSync(s[0], s[1])
  {
    hide LegalFrame, EncodeFrame;
    StartsWithSync(b, si);
  }

  lemma StartsWithSync(b: Block, si: StreamInfo)
    requires LegalFrame(b.k, b.h, Some(si), b.planes)
    ensures var s := EncodeFrame(b.k, b.h, Some(si), b.planes); |s| >= 2 && IsSync(s[0], s[1])
  {
    hide Describes, AllEncodable, Pack, Padded, EncodeSubframes, ToBytes, NumberBytes, SizeSuffix, RateSuffix, Crc8,
         Crc16, NumberFits, Correlate;
    var head := HeaderFields(b.k.header, b.h, Some(si));
    CodesSay(b.k.header, b.h, Some(si));
    assert Codes(b.k.header, b.h) <= head <= EncodeFrame(b.k, b.h, Some(si), b.planes);
  }

  /** A block's frame is taken whole. */
  lemma TakesFrame(c: Control, b: Block, si: StreamInfo)
    requires BelongsTo(b, si) && c.info == Some(si) && BlockCap(si) <= c.cap
    ensures var s := BlockBytes(b, si); s != [] && Step(c, s) == Take(|s|, c, [Heard(b, si)])
  {
    var s := BlockBytes(b, si);
    FrameStartsWithSync(b, si);
    BlockIsFrame(b, si, c.cap);
    hide *;
    FramesAreLossless(b.k, b.h, Some(si), b.planes, c.cap, []);
    assert s + [] == s;
    TakesWhatIsRead(c, s, Heard(b, si), |s|);
  }

  lemma BlockIsFrame(b: Block, si: StreamInfo, cap: nat)
    requires BelongsTo(b, si) && BlockCap(si) <= cap
    ensures LegalFrame(b.k, b.h, Some(si), b.planes) && b.h.blocksize <= cap
    ensures BlockBytes(b, si) == EncodeFrame(b.k, b.h, Some(si), b.planes)
    ensures Heard(b, si)
         == Frame(FrameInfo(b.h.blocksize, SamplePos(b.h, Some(si)), |b.planes|, b.h.bps, b.h.rate), b.planes)
    ensures Heard(b, si).info.channels <= si.channels
  {
    hide LegalFrame, EncodeFrame, SamplePos;
  }

  lemma TakesWhatIsRead(c: Control, w: seq<byte>, f: Frame, end: nat)
    requires c.info.Some? && |w| >= 2 && IsSync(w[0], w[1]) && ReadFrame(w, c.info, c.cap) == Got(f, end)
    requires f.info.channels <= c.info.value.channels
    ensures Step(c, w) == Take(end, c, [f])
  {
    hide ReadFrame;
  }

  /** A block's frame without its checksum. */
  function Fields(b: Block, si: StreamInfo): seq<byte>
    requires BelongsTo(b, si)
  {
    FrameFields(b.k, b.h, Some(si), b.planes)
  }

  lemma FieldsAreAhead(b: Block, si: StreamInfo)
    requires BelongsTo(b, si)
    ensures var s, f := BlockBytes(b, si), Fields(b, si);
            && |s| == |f| + 2 && f == s[..|f|] && s[|f|..] == ToBytes(Crc16(f), 2)
            && LegalFrame(b.k, b.h, Some(si), b.planes) && b.h.blocksize <= BlockCap(si)
            && |f| >= 2 && IsSync(f[0], f[1])
  {
    FrameStartsWithSync(b, si);
    hide LegalFrame, FrameFields, ToBytes;
    FieldsAreLong(b, si);
  }

  lemma FieldsAreLong(b: Block, si: StreamInfo)
    requires BelongsTo(b, si)
    ensures |Fields(b, si)| >= 4
  {
    hide Describes, AllEncodable, Pack, Padded, EncodeSubframes, ToBytes, NumberBytes, SizeSuffix, RateSuffix,
         NumberFits, Correlate;
    CodesSay(b.k.header, b.h, Some(si));
    assert |HeaderFields(b.k.header, b.h, Some(si))| >= 4;
  }

  /** A frame whose checksum was damaged is not delivered: the search goes on with the byte behind its first. */
  lemma DamagedFramesAreHuntedThrough(c: Control, b: Block, si: StreamInfo, crc: seq<byte>, rest: seq<byte>)
    requires BelongsTo(b, si) && c.info == Some(si) && BlockCap(si) <= c.cap
    requires |crc| == 2 && crc != BlockBytes(b, si)[|BlockBytes(b, si)| - 2..]
    ensures Step(c, Fields(b, si) + crc + rest) == Take(1, c, [])
  {
    FieldsAreAhead(b, si);
    hide ReadFrame, LegalFrame, FrameFields, EncodeFrame, ToBytes;
    DamagedFramesAreRefused(b.k, b.h, Some(si), b.planes, c.cap, crc, rest);
  }

  /** A frame with more channels than the stream header says is passed over whole. */
  lemma ForeignFramesAreDropped(c: Control, b: Block, si: StreamInfo, rest: seq<byte>)
    requires LegalFrame(b.k, b.h, Some(si), b.planes) && b.h.blocksize <= c.cap && c.info == Some(si)
    requires |b.planes| > si.channels
    ensures var s := EncodeFrame(b.k, b.h, Some(si), b.planes); Step(c, s + rest) == Take(|s|, c, [])
  {
    hide *;
    var s := EncodeFrame(b.k, b.h, Some(si), b.planes);
    StartsWithSync(b, si);
    FramesAreLossless(b.k, b.h, Some(si), b.planes, c.cap, rest);
    assert (s + rest)[0] == s[0] && (s + rest)[1] == s[1];
    var f := ReadFrame(s + rest, Some(si), c.cap).val;
    assert f.info.channels == |b.planes|;
    DropsWhatIsRead(c, s + rest, f, |s|);
  }

  lemma DropsWhatIsRead(c: Control, w: seq<byte>, f: Frame, end: nat)
    requires c.info.Some? && |w| >= 2 && IsSync(w[0], w[1]) && ReadFrame(w, c.info, c.cap) == Got(f, end)
    requires f.info.channels > c.info.value.channels
    ensures Step(c, w) == Take(end, c, [])
  {
    hide ReadFrame;
  }

  /** Stream headers that the reader accepts: up to eight channels of 4 to 24 bits. */
  predicate Playable(si: StreamInfo) { 1 <= si.channels <= 8 && 4 <= si.bps <= 24 }

  lemma TakesHeader(c: Control, ms: seq<Meta>, si: StreamInfo)
    requires ms != [] && LegalMetas(ms) && FirstInfo(ms) == Some(si) && Playable(si) && c.info.None?
    ensures var s := StreamHeader(ms); s != [] && Step(c, s) == Take(|s|, WithStream(c, si), [])
  {
    hide ReadStreamHeader, MetaRow, LegalMeta;
    var s := StreamHeader(ms);
    ReadsStreamHeader(ms, []);
    assert s + [] == s;
    assert s[..4] == Ascii("fLaC") == MAGIC;
  }

  /** Any other stream header is no header: the search goes on behind its first four bytes. */
  lemma OtherHeadersAreHuntedThrough(c: Control, ms: seq<Meta>, rest: seq<byte>)
    requires ms != [] && LegalMetas(ms) && c.info.None?
    requires FirstInfo(ms).Some? ==> !Playable(FirstInfo(ms).value)
    ensures Step(c, StreamHeader(ms) + rest) == Take(4, c, [])
  {
    hide ReadStreamHeader, MetaRow, LegalMeta;
    var s := StreamHeader(ms) + rest;
    ReadsStreamHeader(ms, rest);
    assert s[..4] == Ascii("fLaC") == MAGIC;
    InfoIsLegal(ms);
  }

  lemma {:induction false} InfoIsLegal(ms: seq<Meta>)
    requires LegalMetas(ms)
    ensures FirstInfo(ms).Some? ==> 1 <= FirstInfo(ms).value.channels <= 8
  {
    if ms != [] && !ms[0].Info? {
      InfoIsLegal(ms[1..]);
    }
  }

  lemma FeedsWhole(c: Control, s: seq<byte>, next: Control, out: seq<Frame>)
    requires s != [] && |s| <= CARRY_BYTES && Step(c, s) == Take(|s|, next, out)
    ensures Feed(Flac(), State(c, []), s) == Result(State(next, []), out)
  {
    hide Step, Drain, Feed, Lawful, Progresses;
    var m := Flac();
    FeedSplitsWithinSpace(m, State(c, []), s, []);
    assert [] + s == s && s + [] == s && s[|s|..] == [];
    Takes(c, s);
    WaitsOnNothing(next);
    Waits(next, []);
    NothingAfter(out, State(next, []));
    FedAll(m, State(next, []));
  }

  lemma WaitsOnNothing(c: Control)
    ensures Step(c, []).Wait?
  {
  }

  lemma FedNothing(s: State<Control>)
    requires |s.carry| <= CARRY_BYTES
    ensures FeedAll(Flac(), s, []) == Result(s, [])
  {
  }

  lemma FedOne(s: State<Control>, payloads: seq<seq<byte>>)
    requires |s.carry| <= CARRY_BYTES && payloads != []
    ensures var a := Feed(Flac(), s, payloads[0]);
            FeedAll(Flac(), s, payloads) == Before(a.out, FeedAll(Flac(), a.state, payloads[1..]))
  {
    hide Lawful, Progresses, Feed;
  }

  predicate FramesFit(blocks: seq<Block>, si: StreamInfo)
    requires AllBelong(blocks, si)
  {
    forall i :: 0 <= i < |blocks| ==> |BlockBytes(blocks[i], si)| <= 196_608
  }

  lemma RestBelongs(blocks: seq<Block>, si: StreamInfo)
    requires AllBelong(blocks, si) && FramesFit(blocks, si) && blocks != []
    ensures BelongsTo(blocks[0], si) && |BlockBytes(blocks[0], si)| <= 196_608 && AllBelong(blocks[1..], si)
    ensures FramesFit(blocks[1..], si)
    ensures Frames(blocks, si) == [BlockBytes(blocks[0], si)] + Frames(blocks[1..], si)
    ensures AllHeard(blocks, si) == [Heard(blocks[0], si)] + AllHeard(blocks[1..], si)
  {
    hide BelongsTo, BlockBytes, Heard;
  }

  lemma {:induction false} FramesComeOut(c: Control, si: StreamInfo, blocks: seq<Block>)
    requires AllBelong(blocks, si) && FramesFit(blocks, si) && c.info == Some(si) && BlockCap(si) <= c.cap
    ensures FeedAll(Flac(), State(c, []), Frames(blocks, si)) == Result(State(c, []), AllHeard(blocks, si))
    decreases |blocks|
  {
    hide Step, Feed, FeedAll, Lawful, Progresses, AllBelong, FramesFit, BelongsTo, BlockBytes, Heard;
    if blocks == [] {
      assert Frames(blocks, si) == [] && AllHeard(blocks, si) == [];
      FedNothing(State(c, []));
    } else {
      RestBelongs(blocks, si);
      TakesFrame(c, blocks[0], si);
      FeedsWhole(c, BlockBytes(blocks[0], si), c, [Heard(blocks[0], si)]);
      FramesComeOut(c, si, blocks[1..]);
      FedOne(State(c, []), Frames(blocks, si));
      TailOf(BlockBytes(blocks[0], si), Frames(blocks[1..], si));
    }
  }

  /** A stream: its header, then its frames. */
  function Pieces(ms: seq<Meta>, blocks: seq<Block>, si: StreamInfo): seq<seq<byte>>
    requires LegalMetas(ms) && AllBelong(blocks, si)
  {
    [StreamHeader(ms)] + Frames(blocks, si)
  }

  lemma RoomForStream(c: Control, si: StreamInfo)
    ensures WithStream(c, si).info == Some(si) && BlockCap(si) <= WithStream(c, si).cap
  {
  }

  /**
   Lossless from end to end: whatever metadata a stream's header holds, whatever the encoder chose for each frame, and
   however the stream is cut into payloads, out come exactly the blocks that went in, in order, and nothing is left
   over.  The carry buffer's size bounds the header and each frame.
   */
  lemma StreamsAreLossless(c: Control, ms: seq<Meta>, si: StreamInfo, blocks: seq<Block>, payloads: seq<seq<byte>>)
    requires ms != [] && LegalMetas(ms) && FirstInfo(ms) == Some(si) && Playable(si) && AllBelong(blocks, si)
    requires |StreamHeader(ms)| <= 196_608 && FramesFit(blocks, si)
    requires c.info.None? && Flatten(payloads) == Flatten(Pieces(ms, blocks, si))
    ensures FeedAll(Flac(), State(c, []), payloads) == Result(State(WithStream(c, si), []), AllHeard(blocks, si))
  {
    hide Step, Feed, FeedAll, Lawful, Progresses, LegalMetas, AllBelong, FramesFit, WithStream, Playable, StreamHeader,
         Flatten;
    var next := WithStream(c, si);
    FlacFeedIndependence(State(c, []), payloads);
    FlacFeedIndependence(State(c, []), Pieces(ms, blocks, si));
    TakesHeader(c, ms, si);
    FeedsWhole(c, StreamHeader(ms), next, []);
    RoomForStream(c, si);
    FramesComeOut(next, si, blocks);
    FedOne(State(c, []), Pieces(ms, blocks, si));
    TailOf(StreamHeader(ms), Frames(blocks, si));
    NothingBefore(Result(State(next, []), AllHeard(blocks, si)));
  }

  /** A frame that is longer than the carry buffer loses its first 192 KiB; what is behind them is hunted through. */
  lemma LongFramesAreCutOff(c: Control, b: Block, si: StreamInfo, rest: seq<byte>)
    requires BelongsTo(b, si) && c.info == Some(si) && BlockCap(si) <= c.cap && |BlockBytes(b, si)| > 196_608
    ensures var s := BlockBytes(b, si) + rest;
            Feed(Flac(), State(c, []), s) == Feed(Flac(), State(c, []), s[196_608..])
  {
    hide Step, Feed, Lawful, Progresses, BelongsTo, BlockBytes;
    TakesFrame(c, b, si);
    FullCarryIsLost(Flac(), c, BlockBytes(b, si), rest);
  }

  /** So does a stream header, and what is behind them is hunted through for another. */
  lemma LongHeadersAreCutOff(c: Control, ms: seq<Meta>, si: StreamInfo, rest: seq<byte>)
    requires ms != [] && LegalMetas(ms) && FirstInfo(ms) == Some(si) && Playable(si) && c.info.None?
    requires |StreamHeader(ms)| > 196_608
    ensures var s := StreamHeader(ms) + rest;
            Feed(Flac(), State(c, []), s) == Feed(Flac(), State(c, []), s[196_608..])
  {
    hide Step, Feed, Lawful, Progresses, LegalMetas, StreamHeader, Playable, WithStream;
    TakesHeader(c, ms, si);
    FullCarryIsLost(Flac(), c, StreamHeader(ms), rest);
  }

  // ---- where a frame's samples are in the stream -----------------------------------------------------------------

  function SamplesBefore(blocks: seq<Block>, n: nat): nat
    requires n <= |blocks|
  {
    if n == 0 then 0 else SamplesBefore(blocks, n - 1) + blocks[n - 1].h.blocksize
  }

  /**
   Frames numbered as section 9.1.5 asks: in a stream of fixed block size each counts the frames before it, and all
   but the last are of that size; in one of variable block size each counts the samples before it.
   */
  predicate Numbered(blocks: seq<Block>, si: StreamInfo, variable: bool) {
    && (forall i :: 0 <= i < |blocks| ==>
          && blocks[i].h.variable == variable
          && blocks[i].h.number == if variable then SamplesBefore(blocks, i) else i)
    && (!variable ==> si.maxBlock > 0 && forall i :: 0 <= i < |blocks| - 1 ==> blocks[i].h.blocksize == si.maxBlock)
  }

  lemma {:induction false} FixedBlocksBefore(blocks: seq<Block>, n: nat, size: nat)
    requires n <= |blocks| && forall i :: 0 <= i < n ==> blocks[i].h.blocksize == size
    ensures SamplesBefore(blocks, n) == n * size
  {
    if n > 0 {
      FixedBlocksBefore(blocks, n - 1, size);
      assert n * size == (n - 1) * size + size;
    }
  }

  /** The position a frame is delivered with is the number of samples before it. */
  lemma PositionsAreCounted(blocks: seq<Block>, si: StreamInfo, variable: bool, i: nat)
    requires Numbered(blocks, si, variable) && i < |blocks|
    ensures AllHeard(blocks, si)[i].info.samplePos == SamplesBefore(blocks, i)
  {
    if !variable {
      FixedBlocksBefore(blocks, i, si.maxBlock);
    }
  }
}
