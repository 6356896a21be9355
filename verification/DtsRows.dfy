/**
 DTS streams as they are written, rows of core frames and extension substreams, and what the reader of DtsStream makes
 of them.
 */
module DtsRows {
  import opened Basics
  import opened CarryLoop
  import opened FlacBits
  import opened BitWriter
  import opened DtsStream

  // ---- the extension header, written -------------------------------------------------------------------------

  /** The fields up to the size; a wide header has more bits for its own size and the substream's. */
  datatype ExtHeader = ExtHeader(user: nat, index: nat, wide: bool, header: nat, size: nat)

  predicate Writable(e: ExtHeader) {
    && e.user < Pow2(8) && e.index < Pow2(2)
    && 1 <= e.header <= Pow2(if e.wide then 12 else 8) && 1 <= e.size <= Pow2(if e.wide then 20 else 16)
  }

  function SyncBits(): (b: seq<bit>)
    ensures |b| == 32
  {
    Bits(0x64, 8) + (Bits(0x58, 8) + (Bits(0x20, 8) + Bits(0x25, 8)))
  }

  /** The substream's size, by its own bits. */
  function SizeBits(e: ExtHeader): (b: seq<bit>)
    requires Writable(e)
    ensures |b| == if e.wide then 32 else 24
  {
    if e.wide then Bits(e.header - 1, 12) + Bits(e.size - 1, 20) else Bits(e.header - 1, 8) + Bits(e.size - 1, 16)
  }

  /** A header as one row of bits: ETSI TS 102 114, the extension substream header. */
  function ExtBits(e: ExtHeader): (b: seq<bit>)
    requires Writable(e)
    ensures |b| == if e.wide then 75 else 67
  {
    SyncBits() + (Bits(e.user, 8) + (Bits(e.index, 2) + (Bits(if e.wide then 1 else 0, 1) + SizeBits(e))))
  }

  lemma SyncIsRead(s: seq<byte>)
    requires |s| >= MIN_HEADER && HasAt(Unpack(s), 0, SyncBits())
    ensures s[..4] == EXSS_SYNC
  {
    hide Unpack, Bits, HasAt;
    SyncBytes(s, Bits(0x64, 8), Bits(0x58, 8), Bits(0x20, 8), Bits(0x25, 8));
    hide SyncBits;
    ByteIsRead(s, 0, 0x64);
    ByteIsRead(s, 1, 0x58);
    ByteIsRead(s, 2, 0x20);
    ByteIsRead(s, 3, 0x25);
    FourBytes(s);
  }

  lemma SyncBytes(s: seq<byte>, a: seq<bit>, b: seq<bit>, c: seq<bit>, d: seq<bit>)
    requires |a| == |b| == |c| == |d| == 8 && HasAt(Unpack(s), 0, a + (b + (c + d)))
    ensures HasAt(Unpack(s), 8 * 0, a) && HasAt(Unpack(s), 8 * 1, b)
    ensures HasAt(Unpack(s), 8 * 2, c) && HasAt(Unpack(s), 8 * 3, d)
  {
    hide *;
    var bits := Unpack(s);
    HasParts(bits, 0, a, b + (c + d));
    HasParts(bits, 8, b, c + d);
    HasParts(bits, 16, c, d);
  }

  lemma FourBytes(s: seq<byte>)
    requires |s| >= 4 && s[0] == 0x64 && s[1] == 0x58 && s[2] == 0x20 && s[3] == 0x25
    ensures s[..4] == EXSS_SYNC
  {
  }

  lemma ByteIsRead(s: seq<byte>, i: nat, v: byte)
    requires i < |s| && HasAt(Unpack(s), 8 * i, Bits(v, 8))
    ensures s[i] == v
  {
    hide Unpack, HasAt, Bits, Num, Pow2;
    SmallPowers();
    NumIs(Unpack(s), 8 * i, v, 8);
    NumOfByte(s, i);
  }

  /** Where the fields are. */
  lemma ExtParts(bits: seq<bit>, e: ExtHeader)
    requires Writable(e) && HasAt(bits, 0, ExtBits(e))
    ensures HasAt(bits, 0, SyncBits())
    ensures |bits| >= if e.wide then 75 else 67
    ensures bits[42] == if e.wide then 1 else 0
    ensures e.wide ==> Num(bits, 43, 55) == e.header - 1 && Num(bits, 55, 75) == e.size - 1
    ensures !e.wide ==> Num(bits, 43, 51) == e.header - 1 && Num(bits, 51, 67) == e.size - 1
  {
    hide HasAt, Bits, Num, Pow2;
    var user, index, flag := Bits(e.user, 8), Bits(e.index, 2), Bits(if e.wide then 1 else 0, 1);
    HasSlice(bits, 0, ExtBits(e));
    HasParts(bits, 0, SyncBits(), user + (index + (flag + SizeBits(e))));
    HasParts(bits, 32, user, index + (flag + SizeBits(e)));
    HasParts(bits, 40, index, flag + SizeBits(e));
    HasParts(bits, 42, flag, SizeBits(e));
    SmallPowers();
    NumIs(bits, 42, if e.wide then 1 else 0, 1);
    NumOfBit(bits, 42);
    if e.wide {
      HasParts(bits, 43, Bits(e.header - 1, 12), Bits(e.size - 1, 20));
      NumIs(bits, 43, e.header - 1, 12);
      NumIs(bits, 55, e.size - 1, 20);
    } else {
      HasParts(bits, 43, Bits(e.header - 1, 8), Bits(e.size - 1, 16));
      NumIs(bits, 43, e.header - 1, 8);
      NumIs(bits, 51, e.size - 1, 16);
    }
  }

  /** The size is read from a header as it was written, exactly when the header can hold its fields and itself. */
  lemma SizesAreRead(head: seq<byte>, e: ExtHeader)
    requires |head| == 10 && Writable(e) && HasAt(Unpack(head), 0, ExtBits(e))
    ensures head[..4] == EXSS_SYNC
    ensures ExssSize(head) == if 10 <= e.header <= e.size then Some(e.size) else None
  {
    hide Unpack, Num, HasAt, ExtBits, SyncBits, Writable;
    ExtParts(Unpack(head), e);
    SyncIsRead(head);
  }

  /** A substream: its header, and bits that the reader does not look at. */
  function ExtBytes(e: ExtHeader, more: seq<bit>): (x: seq<byte>)
    requires Writable(e) && |ExtBits(e)| + |more| == 8 * e.size
    ensures |x| == e.size
  {
    Pack(ExtBits(e) + more)
  }

  lemma FirstTen(x: seq<byte>, bits: seq<bit>)
    requires |x| >= 10 && |bits| <= 80 && HasAt(Unpack(x), 0, bits)
    ensures HasAt(Unpack(x[..10]), 0, bits)
  {
    hide Unpack;
    UnpackSlice(x, 0, 10);
    assert x[0..10] == x[..10];
    InPrefix(Unpack(x), bits, 80);
  }

  lemma InPrefix<T>(s: seq<T>, x: seq<T>, n: nat)
    requires HasAt(s, 0, x) && |x| <= n <= |s|
    ensures HasAt(s[0..n], 0, x)
  {
    assert s[0..n][0..|x|] == s[0..|x|];
  }

  lemma HeadIsRead(e: ExtHeader, more: seq<bit>, rest: seq<byte>)
    requires Writable(e) && |ExtBits(e)| + |more| == 8 * e.size && |ExtBytes(e, more)| + |rest| >= 10
    ensures var s := ExtBytes(e, more) + rest;
            s[..4] == EXSS_SYNC && ExssSize(s[..10]) == if 10 <= e.header <= e.size then Some(e.size) else None
  {
    hide *;
    BitsComeFirst(e, more, rest);
    var s := ExtBytes(e, more) + rest;
    FirstTen(s, ExtBits(e));
    SizesAreRead(s[..10], e);
    assert s[..10][..4] == s[..4];
  }

  lemma BitsComeFirst(e: ExtHeader, more: seq<bit>, rest: seq<byte>)
    requires Writable(e) && |ExtBits(e)| + |more| == 8 * e.size
    ensures HasAt(Unpack(ExtBytes(e, more) + rest), 0, ExtBits(e))
    ensures |ExtBits(e)| <= 80
  {
    hide Unpack, Pack, Writable;
    UnpackConcat(ExtBytes(e, more), rest);
    UnpackPack(ExtBits(e) + more);
    hide ExtBits;
    StandsFirst(ExtBits(e), more, Unpack(rest));
  }

  lemma StandsFirst<T>(x: seq<T>, y: seq<T>, z: seq<T>)
    ensures HasAt(x + y + z, 0, x)
  {
    assert (x + y + z)[0..|x|] == x;
  }

  /**
   An extension substream, however long, is passed over to its last byte: what follows it is read as if it had not been
   there, with its two counters moved on.
   */
  lemma ExtensionsAreSkippedExactly<S(!new), B>(k: Codec<S, B>, c: Control<S>, e: ExtHeader, more: seq<bit>,
                                                rest: seq<byte>)
    requires Writable(e) && 10 <= e.header <= e.size && |ExtBits(e)| + |more| == 8 * e.size
    requires c.skip == 0 && e.size + |rest| >= 16
    ensures var next := c.(extCount := (c.extCount + 1) % 0x1_0000_0000,
                           extBytes := (c.extBytes + e.size) % 0x1_0000_0000);
            Feed(Dts(k), State(c, []), ExtBytes(e, more) + rest) == Feed(Dts(k), State(next, []), rest)
  {
    hide Lawful, Progresses, Feed, ExssSize, Dts, ExtBytes, ExtBits, Writable;
    var x := ExtBytes(e, more);
    HeadIsRead(e, more, []);
    assert x + [] == x;
    SkipsExtension(k, c, x, rest);
  }

  /** An implausible header is a false sync: the search goes on with the byte behind its first. */
  lemma FalseSyncsAreRescanned<S(!new), B>(k: Codec<S, B>, c: Control<S>, e: ExtHeader, more: seq<bit>,
                                           rest: seq<byte>)
    requires Writable(e) && !(10 <= e.header <= e.size) && |ExtBits(e)| + |more| == 8 * e.size
    requires c.skip == 0 && e.size + |rest| >= 16
    ensures var s := ExtBytes(e, more) + rest;
            Feed(Dts(k), State(c, []), s) == Feed(Dts(k), State(c, []), s[1..])
  {
    hide Lawful, Progresses, Feed, ExssSize, ExtBytes, ExtBits, Writable, Drain;
    var s := ExtBytes(e, more) + rest;
    HeadIsRead(e, more, rest);
    var m := Dts(k);
    var w, tail := s[..16], s[16..];
    assert s == w + tail && s[1..] == w[1..] + tail && [] + w == w;
    FeedSplitsWithinSpace(m, State(c, []), w, tail);
    assert w[..4] == s[..4] && w[..10] == s[..10];
    DrainsExtension(k, c, w);
    TooLittle(k, c, w[1..]);
    DrainsStep(k, c, w[1..]);
    NothingBefore(Feed(m, State(c, w[1..]), tail));
    KeepsShort(k, c, w[1..], tail);
  }

  // ---- rows of frames and extensions -----------------------------------------------------------------------------

  datatype Part = Core(frame: seq<byte>) | Ext(e: ExtHeader, more: seq<bit>)

  /** A decoder's state, and what came out of it. */
  datatype Played<S, B> = Played(dec: S, blocks: seq<B>)

  /** n blocks, if the decoder accepts them all. */
  function AllBlocks<S, B>(k: Codec<S, B>, dec: S, n: nat): Option<Played<S, B>> {
    if n == 0 then Some(Played(dec, []))
    else
      var (d, b) := k.block(dec);
      match b
      case None => None
      case Some(block) =>
        match AllBlocks(k, d, n - 1)
        case None => None
        case Some(p) => Some(Played(p.dec, [block] + p.blocks))
  }

  /** A core frame that is taken whole: one to sixteen blocks. */
  function FrameBlocks<S, B>(k: Codec<S, B>, dec: S, frame: seq<byte>): Option<Played<S, B>> {
    var (d, n) := k.frame(dec, frame);
    match n
    case None => None
    case Some(n) => if 1 <= n <= 16 then AllBlocks(k, d, n) else None
  }

  predicate LegalPart<S, B>(k: Codec<S, B>, p: Part) {
    match p
    case Core(f) => 16 <= |f| <= 65_536 && f[..4] != EXSS_SYNC && k.size(f[..16]) == |f|
    case Ext(e, more) => Writable(e) && 10 <= e.header <= e.size && |ExtBits(e)| + |more| == 8 * e.size
  }

  predicate LegalParts<S, B>(k: Codec<S, B>, parts: seq<Part>) {
    forall i :: 0 <= i < |parts| ==> LegalPart(k, parts[i])
  }

  function PartBytes<S, B>(k: Codec<S, B>, p: Part): (s: seq<byte>)
    requires LegalPart(k, p)
    ensures |s| >= 10
  {
    match p
    case Core(f) => f
    case Ext(e, more) => ExtBytes(e, more)
  }

  function RowBytes<S, B>(k: Codec<S, B>, parts: seq<Part>): (s: seq<byte>)
    requires LegalParts(k, parts)
    ensures parts != [] ==> |s| >= 10
  {
    if parts == [] then [] else PartBytes(k, parts[0]) + RowBytes(k, parts[1..])
  }

  /** What a row is to come out as, if every core frame in it is accepted: the frames' blocks, in order. */
  function RowBlocks<S, B>(k: Codec<S, B>, dec: S, parts: seq<Part>): Option<Played<S, B>> {
    if parts == [] then Some(Played(dec, []))
    else
      match parts[0]
      case Ext(_, _) => RowBlocks(k, dec, parts[1..])
      case Core(f) =>
        match FrameBlocks(k, dec, f)
        case None => None
        case Some(p) =>
          match RowBlocks(k, p.dec, parts[1..])
          case None => None
          case Some(q) => Some(Played(q.dec, p.blocks + q.blocks))
  }

  function Cores(parts: seq<Part>): nat {
    if parts == [] then 0 else Cores(parts[1..]) + if parts[0].Core? then 1 else 0
  }

  function Exts(parts: seq<Part>): nat {
    if parts == [] then 0 else Exts(parts[1..]) + if parts[0].Ext? then 1 else 0
  }

  function ExtTotal(parts: seq<Part>): nat {
    if parts == [] then 0 else ExtTotal(parts[1..]) + if parts[0].Ext? then parts[0].e.size else 0
  }

  /** What is noted of the first core frame. */
  function FirstNote<S, B>(k: Codec<S, B>, dec: S, parts: seq<Part>): Option<First> {
    if parts == [] then None
    else
      match parts[0]
      case Ext(_, _) => FirstNote(k, dec, parts[1..])
      case Core(f) => if k.frame(dec, f).1.None? then None else Some(First(|f|, k.frame(dec, f).1.value))
  }

  /** The control state behind a row. */
  function RowEnd<S, B>(k: Codec<S, B>, c: Control<S>, parts: seq<Part>, dec: S): Control<S> {
    c.(dec := dec,
       coreFrames := (c.coreFrames + Cores(parts)) % 0x1_0000_0000,
       extCount := (c.extCount + Exts(parts)) % 0x1_0000_0000,
       extBytes := (c.extBytes + ExtTotal(parts)) % 0x1_0000_0000,
       first := if c.first.Some? then c.first else FirstNote(k, c.dec, parts))
  }

  predicate CountersFit<S>(c: Control<S>) {
    c.coreFrames < 0x1_0000_0000 && c.extCount < 0x1_0000_0000 && c.extBytes < 0x1_0000_0000
  }

  lemma {:induction false} BlocksAccepted<S, B>(k: Codec<S, B>, c: Control<S>, n: nat)
    requires AllBlocks(k, c.dec, n).Some?
    ensures var p := AllBlocks(k, c.dec, n).value;
            Blocks(k, c, n) == Decoded(WithDecoder(c, p.dec), p.blocks)
    decreases n
  {
    if n > 0 {
      BlocksAccepted(k, WithDecoder(c, k.block(c.dec).0), n - 1);
    }
  }

  lemma FrameAccepted<S, B>(k: Codec<S, B>, c: Control<S>, f: seq<byte>)
    requires FrameBlocks(k, c.dec, f).Some?
    ensures k.frame(c.dec, f).1.Some?
    ensures var p, n := FrameBlocks(k, c.dec, f).value, k.frame(c.dec, f).1.value;
            CoreFrame(k, c, f) == Decoded(OneMoreFrame(WithDecoder(Noted(c, First(|f|, n)), p.dec)), p.blocks)
  {
    hide Blocks, AllBlocks;
    var (d, n) := k.frame(c.dec, f);
    BlocksAccepted(k, Noted(WithDecoder(c, d), First(|f|, n.value)), n.value);
  }

  /** A core frame is taken whole. */
  lemma TakesCore<S(!new), B>(k: Codec<S, B>, c: Control<S>, f: seq<byte>, rest: seq<byte>)
    requires c.skip == 0 && LegalPart(k, Core(f))
    ensures var d := CoreFrame(k, c, f);
            Feed(Dts(k), State(c, []), f + rest) == Before(d.blocks, Feed(Dts(k), State(d.ctl, []), rest))
  {
    hide Drain, Lawful, Progresses, Feed, CoreFrame;
    var d := CoreFrame(k, c, f);
    FeedSplitsWithinSpace(Dts(k), State(c, []), f, rest);
    assert [] + f == f && f[..|f|] == f && f[|f|..] == [];
    DrainsCore(k, c, f);
    TooLittle(k, d.ctl, []);
    DrainsStep(k, d.ctl, []);
    NothingAfter(d.blocks, State(d.ctl, []));
  }

  lemma CountOn(n: nat, a: nat, b: nat)
    ensures ((n + a) % 0x1_0000_0000 + b) % 0x1_0000_0000 == (n + (b + a)) % 0x1_0000_0000
  {
  }

  /** One part's mark on the control state, and then that of the others. */
  function PartEnd<S, B>(k: Codec<S, B>, c: Control<S>, p: Part, dec: S): Control<S> {
    RowEnd(k, c, [p], dec)
  }

  lemma RowOfOne<S, B>(k: Codec<S, B>, dec: S, p: Part)
    ensures Cores([p]) == (if p.Core? then 1 else 0)
    ensures Exts([p]) == (if p.Ext? then 1 else 0)
    ensures ExtTotal([p]) == if p.Ext? then p.e.size else 0
    ensures FirstNote(k, dec, [p]) ==
            if p.Ext? || k.frame(dec, p.frame).1.None? then None
            else Some(First(|p.frame|, k.frame(dec, p.frame).1.value))
  {
    var rest := [p][1..];
    assert rest == [];
    assert Cores(rest) == 0;
    assert Exts(rest) == 0;
    assert ExtTotal(rest) == 0;
    assert FirstNote(k, dec, rest) == None;
  }

  lemma EndsInTurn<S, B>(k: Codec<S, B>, c: Control<S>, parts: seq<Part>, mid: S, dec: S)
    requires parts != [] && (parts[0].Core? ==> k.frame(c.dec, parts[0].frame).1.Some?)
    requires parts[0].Ext? ==> mid == c.dec
    ensures RowEnd(k, PartEnd(k, c, parts[0], mid), parts[1..], dec) == RowEnd(k, c, parts, dec)
  {
    var one, rest := [parts[0]], parts[1..];
    RowOfOne(k, c.dec, parts[0]);
    CountOn(c.coreFrames, Cores(one), Cores(rest));
    CountOn(c.extCount, Exts(one), Exts(rest));
    CountOn(c.extBytes, ExtTotal(one), ExtTotal(rest));
  }

  lemma OnePart<S, B>(k: Codec<S, B>, c: Control<S>, p: Part)
    requires CountersFit(c)
    ensures p.Ext? ==>
              PartEnd(k, c, p, c.dec) == c.(extCount := (c.extCount + 1) % 0x1_0000_0000,
                                            extBytes := (c.extBytes + p.e.size) % 0x1_0000_0000)
    ensures p.Core? && k.frame(c.dec, p.frame).1.Some? ==>
              forall dec :: PartEnd(k, c, p, dec) ==
                OneMoreFrame(WithDecoder(Noted(c, First(|p.frame|, k.frame(c.dec, p.frame).1.value)), dec))
  {
    RowOfOne(k, c.dec, p);
  }

  /** The last part is long enough for the reader to decide what it is. */
  predicate EndsDecidably<S, B>(k: Codec<S, B>, parts: seq<Part>)
    requires LegalParts(k, parts)
  {
    parts != [] ==> |PartBytes(k, parts[|parts| - 1])| >= 16
  }

  lemma {:induction false} RowIsLong<S, B>(k: Codec<S, B>, parts: seq<Part>)
    requires LegalParts(k, parts) && EndsDecidably(k, parts) && parts != []
    ensures |RowBytes(k, parts)| >= 16
    decreases |parts|
  {
    hide LegalPart, PartBytes;
    if |parts| > 1 {
      assert LegalParts(k, parts[1..]);
      RowIsLong(k, parts[1..]);
    }
  }

  lemma {:induction false} RowIsPlayed<S(!new), B>(k: Codec<S, B>, c: Control<S>, parts: seq<Part>)
    requires c.skip == 0 && CountersFit(c) && LegalParts(k, parts) && EndsDecidably(k, parts)
    requires RowBlocks(k, c.dec, parts).Some?
    ensures var p := RowBlocks(k, c.dec, parts).value;
            Feed(Dts(k), State(c, []), RowBytes(k, parts)) == Result(State(RowEnd(k, c, parts, p.dec), []), p.blocks)
    decreases |parts|
  {
    hide Lawful, Progresses, Feed, Dts, LegalPart, PartBytes, CoreFrame, FrameBlocks;
    if parts == [] {
      FedAll(Dts(k), State(c, []));
    } else {
      var p, rest := parts[0], parts[1..];
      assert LegalPart(k, p) && LegalParts(k, rest);
      RowIsLong(k, parts);
      FirstIsPlayed(k, c, p, RowBytes(k, rest));
      var mid := if p.Core? then FrameBlocks(k, c.dec, p.frame).value else Played(c.dec, []);
      var c' := PartEnd(k, c, p, mid.dec);
      RowIsPlayed(k, c', rest);
      var q := RowBlocks(k, mid.dec, rest).value;
      EndsInTurn(k, c, parts, mid.dec, q.dec);
    }
  }

  lemma FirstIsPlayed<S(!new), B>(k: Codec<S, B>, c: Control<S>, p: Part, rest: seq<byte>)
    requires c.skip == 0 && CountersFit(c) && LegalPart(k, p) && |PartBytes(k, p)| + |rest| >= 16
    requires p.Core? ==> FrameBlocks(k, c.dec, p.frame).Some?
    ensures p.Core? ==> k.frame(c.dec, p.frame).1.Some?
    ensures var mid := if p.Core? then FrameBlocks(k, c.dec, p.frame).value else Played(c.dec, []);
            var behind := Feed(Dts(k), State(PartEnd(k, c, p, mid.dec), []), rest);
            Feed(Dts(k), State(c, []), PartBytes(k, p) + rest) == Before(mid.blocks, behind)
  {
    hide Lawful, Progresses, Feed, Dts, CoreFrame, PartEnd, LegalPart, PartBytes, FrameBlocks, CountersFit, ExtBytes,
         ExtBits, Writable, OneMoreFrame, WithDecoder, Noted, Before;
    OnePart(k, c, p);
    PartIs(k, p);
    if p.Core? {
      FrameAccepted(k, c, p.frame);
      TakesCore(k, c, p.frame, rest);
    } else {
      ExtensionsAreSkippedExactly(k, c, p.e, p.more, rest);
      DtsCap(k);
      NothingBefore(Feed(Dts(k), State(PartEnd(k, c, p, c.dec), []), rest));
    }
  }

  lemma PartIs<S, B>(k: Codec<S, B>, p: Part)
    requires LegalPart(k, p)
    ensures p.Ext? ==> && Writable(p.e) && 10 <= p.e.header <= p.e.size && |ExtBits(p.e)| + |p.more| == 8 * p.e.size
                       && PartBytes(k, p) == ExtBytes(p.e, p.more) && |PartBytes(k, p)| == p.e.size
    ensures p.Core? ==> PartBytes(k, p) == p.frame
  {
    hide Writable, ExtBits, ExtBytes;
  }

  /**
   A row of core frames and extension substreams, the frames accepted by the decoder, comes out as the frames' blocks in
   order, however it is cut into payloads; every extension is counted and passed over, and nothing is called bad.
   */
  lemma RowsArePlayed<S(!new), B>(k: Codec<S, B>, c: Control<S>, parts: seq<Part>, payloads: seq<seq<byte>>)
    requires c.skip == 0 && CountersFit(c) && LegalParts(k, parts) && EndsDecidably(k, parts)
    requires RowBlocks(k, c.dec, parts).Some? && Flatten(payloads) == RowBytes(k, parts)
    ensures var p := RowBlocks(k, c.dec, parts).value;
            FeedAll(Dts(k), State(c, []), payloads) == Result(State(RowEnd(k, c, parts, p.dec), []), p.blocks)
  {
    hide Lawful, Progresses, Feed, FeedAll, RowEnd, RowBlocks, RowBytes, LegalParts, EndsDecidably;
    DtsFeedIndependence(k, State(c, []), payloads);
    RowIsPlayed(k, c, parts);
  }
}
