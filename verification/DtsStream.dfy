/**
 The DTS reader of source/audio/dts_stream.c in core mode, with the extension header of source/audio/dts_exss.c: core
 frames go to a decoder, extension substreams are skipped by a byte count that outlives a feed.
 */
module DtsStream {
  import opened Basics
  import opened CarryLoop
  import opened FlacBits
  import opened BitWriter

  const CARRY_BYTES := 65536
  const MIN_SCAN := 16
  const MAX_FRAME := 16384
  const MIN_HEADER := 10
  const EXSS_SYNC: seq<byte> := [0x64, 0x58, 0x20, 0x25]

  // ---- the extension header ---------------------------------------------------------------------------

  /** An extension substream's size from its first ten bytes; none when its header is implausible. */
  function ExssSize(head: seq<byte>): (size: Option<nat>)
    requires |head| == MIN_HEADER
    ensures size.Some? ==> MIN_HEADER <= size.value
  {
    var bits := Unpack(head);
    var more := if bits[42] == 1 then 4 else 0;
    var header := Num(bits, 43, 51 + more) + 1;
    var size := Num(bits, 51 + more, 67 + 2 * more) + 1;
    if header < MIN_HEADER || size < header then None else Some(size)
  }

  // ---- the decoder, which is not modelled ---------------------------------------------------------------

  /**
   A core decoder: a frame's size from sixteen bytes (none unless positive); what a frame does to the decoder's state
   and how many blocks it says it has; and its blocks, one at a time.
   */
  datatype Codec<!S, !B> = Codec(
    size: seq<byte> -> int,
    frame: (S, seq<byte>) -> (S, Option<int>),
    block: S -> (S, Option<B>))

  ghost predicate Sized<S(!new), B>(k: Codec<S, B>) {
    forall head :: k.size(head) <= MAX_FRAME
  }

  /** What is noted of the first frame that decodes. */
  datatype First = First(size: nat, blocks: int)

  datatype Control<S> = Control(
    dec: S, skip: nat, coreFrames: nat, badFrames: nat, extCount: nat, extBytes: nat, first: Option<First>)

  /** The counters are 32 bits wide. */
  function Counted(n: nat, more: nat): nat { (n + more) % 0x1_0000_0000 }

  datatype Decoded<S, B> = Decoded(ctl: Control<S>, blocks: seq<B>)

  function Bad<S>(c: Control<S>): Control<S> { c.(badFrames := Counted(c.badFrames, 1)) }

  function WithDecoder<S>(c: Control<S>, dec: S): Control<S> { c.(dec := dec) }

  function OneMoreFrame<S>(c: Control<S>): Control<S> { c.(coreFrames := Counted(c.coreFrames, 1)) }

  function Noted<S>(c: Control<S>, f: First): Control<S> { if c.first.None? then c.(first := Some(f)) else c }

  /** n blocks, up to the first the decoder rejects. */
  function Blocks<S, B>(k: Codec<S, B>, c: Control<S>, n: nat): Decoded<S, B>
    decreases n
  {
    if n == 0 then Decoded(c, [])
    else
      var (dec, b) := k.block(c.dec);
      match b
      case None => Decoded(Bad(WithDecoder(c, dec)), [])
      case Some(block) =>
        var rest := Blocks(k, WithDecoder(c, dec), n - 1);
        Decoded(rest.ctl, [block] + rest.blocks)
  }

  function CoreFrame<S, B>(k: Codec<S, B>, c: Control<S>, frame: seq<byte>): Decoded<S, B> {
    var (dec, n) := k.frame(c.dec, frame);
    if n.None? || n.value < 1 || n.value > 16 then
      Decoded(Bad(WithDecoder(c, dec)), [])
    else
      var d := Blocks(k, Noted(WithDecoder(c, dec), First(|frame|, n.value)), n.value);
      Decoded(OneMoreFrame(d.ctl), d.blocks)
  }

  // ---- the reader as a step at the front of the carry -------------------------------------------------------

  /** An extension substream is counted when its header is seen, and its bytes are then passed over one by one. */
  function Step<S, B>(k: Codec<S, B>, c: Control<S>, w: seq<byte>): Verdict<Control<S>, B> {
    if c.skip > 0 then
      if w == [] then Wait else Take(1, c.(skip := c.skip - 1), [])
    else if |w| < MIN_SCAN then Wait
    else if w[..4] == EXSS_SYNC then
      match ExssSize(w[..MIN_HEADER])
      case None => Take(1, c, [])
      case Some(size) =>
        Take(1, c.(skip := size - 1, extCount := Counted(c.extCount, 1), extBytes := Counted(c.extBytes, size)), [])
    else
      var size := k.size(w[..MIN_SCAN]);
      if size <= 0 then Take(1, c, [])
      else if size > |w| then Wait
      else
        var d := CoreFrame(k, c, w[..size]);
        Take(size, d.ctl, d.blocks)
  }

  lemma StepProgresses<S, B>(k: Codec<S, B>, c: Control<S>, w: seq<byte>)
    requires Step(k, c, w).Take?
    ensures 0 < Step(k, c, w).n <= |w|
  {
    hide ExssSize, CoreFrame;
  }

  lemma StepIsStable<S, B>(k: Codec<S, B>, c: Control<S>, w: seq<byte>, v: seq<byte>)
    requires w <= v && Step(k, c, w).Take?
    ensures Step(k, c, v) == Step(k, c, w)
  {
    hide ExssSize, CoreFrame;
    if c.skip == 0 {
      SamePrefix(w, v, 4);
      SamePrefix(w, v, MIN_HEADER);
      SamePrefix(w, v, MIN_SCAN);
      var size := k.size(w[..MIN_SCAN]);
      if 0 < size <= |w| {
        SamePrefix(w, v, size);
      }
    }
  }

  lemma SamePrefix(w: seq<byte>, v: seq<byte>, n: nat)
    requires w <= v && n <= |w|
    ensures v[..n] == w[..n]
  {
  }

  ghost predicate IsDts<S(!new), B>(m: Reader<Control<S>, B>, k: Codec<S, B>) {
    && m.cap == CARRY_BYTES
    && (forall c, w :: m.step(c, w) == Step(k, c, w))
    && (forall c :: m.overflow(c) == Bad(c))
  }

  ghost function Dts<S(!new), B>(k: Codec<S, B>): (m: Reader<Control<S>, B>)
    ensures Lawful(m) && Progresses(m) && IsDts(m, k)
  {
    var m := Reader((c, w) => Step(k, c, w), c => 0, CARRY_BYTES, c => Bad(c));
    DtsLawful(m, k);
    m
  }

  lemma DtsLawful<S(!new), B>(m: Reader<Control<S>, B>, k: Codec<S, B>)
    requires m.cap > 0 && forall c, w :: m.step(c, w) == Step(k, c, w)
    ensures Lawful(m)
  {
    hide Step;
    forall c, w | m.step(c, w).Take?
      ensures 0 < m.step(c, w).n <= |w|
    {
      StepProgresses(k, c, w);
    }
    forall c, w, v | w <= v && m.step(c, w).Take?
      ensures m.step(c, v) == m.step(c, w)
    {
      StepIsStable(k, c, w, v);
    }
  }

  /**
   Feed independence in core mode: the blocks out of the decoder, the bytes still to skip, the carry and every counter
   are those of the whole stream in one feed, for every way of cutting it.
   */
  lemma DtsFeedIndependence<S(!new), B>(k: Codec<S, B>, s: State<Control<S>>, payloads: seq<seq<byte>>)
    requires |s.carry| <= CARRY_BYTES
    ensures FeedAll(Dts(k), s, payloads) == Feed(Dts(k), s, Flatten(payloads))
  {
    hide *;
    assert Dts(k).cap == CARRY_BYTES by { DtsCap(k); }
    FeedIndependence(Dts(k), s, payloads);
  }

  lemma DtsCap<S(!new), B>(k: Codec<S, B>)
    ensures Dts(k).cap == CARRY_BYTES
  {
  }

  /** With frames of at most 16384 bytes, the branch that drops a full carry is never taken. */
  lemma DtsCarryNeverFills<S(!new), B>(k: Codec<S, B>, s: State<Control<S>>, payloads: seq<seq<byte>>)
    requires Sized(k) && |s.carry| < MAX_FRAME
    ensures |FeedAll(Dts(k), s, payloads).state.carry| < MAX_FRAME
  {
    var m := Dts(k);
    forall c, w | |w| >= MAX_FRAME
      ensures m.step(c, w).Take?
    {
      hide ExssSize, CoreFrame, Lawful;
      assert m.step(c, w) == Step(k, c, w);
    }
    CarryStaysBelow(m, s, payloads, MAX_FRAME);
  }

  // ---- the drain and the feed, in the strides the program takes ------------------------------------------------

  function SkipBy<S>(c: Control<S>, n: nat): Control<S>
    requires n <= c.skip
  {
    c.(skip := c.skip - n)
  }

  lemma DrainsStep<S(!new), B>(k: Codec<S, B>, c: Control<S>, w: seq<byte>)
    ensures Step(k, c, w).Wait? ==> Drain(Dts(k), c, w) == Result(State(c, w), [])
    ensures Step(k, c, w).Take? ==>
              && Step(k, c, w).n <= |w|
              && Drain(Dts(k), c, w)
              == Before(Step(k, c, w).out, Drain(Dts(k), Step(k, c, w).next, w[Step(k, c, w).n..]))
  {
    hide Step, Lawful, Progresses;
    var m := Dts(k);
    assert m.step(c, w) == Step(k, c, w);
    if m.step(c, w).Take? {
      DrainStep(m, c, w);
    }
  }

  /** Bytes to skip are gone at once. */
  lemma {:induction false} DrainSkips<S(!new), B>(k: Codec<S, B>, c: Control<S>, w: seq<byte>, n: nat)
    requires n <= c.skip && n <= |w|
    ensures Drain(Dts(k), c, w) == Drain(Dts(k), SkipBy(c, n), w[n..])
    decreases n
  {
    if n == 0 {
      assert w[0..] == w && SkipBy(c, 0) == c;
    } else {
      SkipsOne(k, c, w);
      hide *;
      DrainSkips(k, SkipBy(c, 1), w[1..], n - 1);
      assert w[1..][n - 1..] == w[n..];
      SkipTwice(c, 1, n - 1);
    }
  }

  lemma SkipTwice<S>(c: Control<S>, a: nat, b: nat)
    requires a + b <= c.skip
    ensures SkipBy(c, a).skip == c.skip - a && SkipBy(SkipBy(c, a), b) == SkipBy(c, a + b)
  {
  }

  lemma SkipsOne<S(!new), B>(k: Codec<S, B>, c: Control<S>, w: seq<byte>)
    requires 0 < c.skip && w != []
    ensures SkipBy(c, 1).skip == c.skip - 1
    ensures Drain(Dts(k), c, w) == Drain(Dts(k), SkipBy(c, 1), w[1..])
  {
    hide Drain, Lawful, Progresses;
    DrainsStep(k, c, w);
    NothingBefore(Drain(Dts(k), SkipBy(c, 1), w[1..]));
  }

  /** A skip takes its bytes from the payload without ever putting them in the carry. */
  lemma {:induction false} FeedSkips<S(!new), B>(k: Codec<S, B>, c: Control<S>, es: seq<byte>, n: nat)
    requires n <= c.skip && n <= |es|
    ensures Feed(Dts(k), State(c, []), es) == Feed(Dts(k), State(SkipBy(c, n), []), es[n..])
    decreases n
  {
    if n == 0 {
      assert es[0..] == es && SkipBy(c, 0) == c;
    } else {
      SkipTwice(c, 1, n - 1);
      hide *;
      FeedSkipsOne(k, c, es);
      FeedSkips(k, SkipBy(c, 1), es[1..], n - 1);
      TailOfTail(es, n);
    }
  }

  lemma TailOfTail(es: seq<byte>, n: nat)
    requires 0 < n <= |es|
    ensures es[1..][n - 1..] == es[n..]
  {
  }

  lemma FeedSkipsOne<S(!new), B>(k: Codec<S, B>, c: Control<S>, es: seq<byte>)
    requires 0 < c.skip && es != []
    ensures Feed(Dts(k), State(c, []), es) == Feed(Dts(k), State(SkipBy(c, 1), []), es[1..])
  {
    hide Drain, Lawful, Progresses, Feed;
    var m := Dts(k);
    FeedSplitsWithinSpace(m, State(c, []), es[..1], es[1..]);
    assert es[..1] + es[1..] == es && [] + es[..1] == es[..1] && es[..1][1..] == [];
    SkipsOne(k, c, es[..1]);
    DrainsStep(k, SkipBy(c, 1), []);
    NothingBefore(Feed(m, State(SkipBy(c, 1), []), es[1..]));
  }

  /** What arrives when too little is there to be decided is only kept. */
  lemma KeepsShort<S(!new), B>(k: Codec<S, B>, c: Control<S>, p: seq<byte>, q: seq<byte>)
    requires c.skip == 0 && |p| < MIN_SCAN
    ensures Feed(Dts(k), State(c, p), q) == Feed(Dts(k), State(c, []), p + q)
  {
    hide Drain, Lawful, Progresses, Feed;
    var m := Dts(k);
    if p == [] {
      assert p + q == q;
    } else {
      FeedSplitsWithinSpace(m, State(c, []), p, q);
      assert [] + p == p;
      TooLittle(k, c, p);
      DrainsStep(k, c, p);
      NothingBefore(Feed(m, State(c, p), q));
    }
  }

  /** The first sixteen bytes of an extension and what follows it. */
  lemma DrainsWindow<S(!new), B>(k: Codec<S, B>, c: Control<S>, w: seq<byte>, size: nat)
    requires c.skip == 0 && |w| == MIN_SCAN && w[..4] == EXSS_SYNC
    requires ExssSize(w[..MIN_HEADER]) == Some(size) && size > 0
    ensures var n := if size < MIN_SCAN then size else MIN_SCAN;
            && Extension(c, size).skip == size - 1
            && Drain(Dts(k), c, w) == Result(State(SkipBy(Extension(c, size), n - 1), w[n..]), [])
  {
    hide Drain, Lawful, Progresses, ExssSize, Step;
    var e, n := Extension(c, size), Min(size, MIN_SCAN);
    DrainsExtension(k, c, w);
    DrainSkips(k, e, w[1..], n - 1);
    assert w[1..][n - 1..] == w[n..];
    TooLittle(k, SkipBy(e, n - 1), w[n..]);
    DrainsStep(k, SkipBy(e, n - 1), w[n..]);
  }

  lemma AllSkipped<S>(c: Control<S>, size: nat)
    requires size > 0
    ensures Extension(c, size).skip == size - 1
    ensures SkipBy(Extension(c, size), size - 1) == Counted1(c, size)
  {
  }

  /** The counters after one extension. */
  function Counted1<S>(c: Control<S>, size: nat): Control<S> {
    c.(skip := 0, extCount := Counted(c.extCount, 1), extBytes := Counted(c.extBytes, size))
  }

  lemma SkipsLong<S(!new), B>(k: Codec<S, B>, c: Control<S>, w: seq<byte>, tail: seq<byte>, size: nat)
    requires c.skip == 0 && |w| == MIN_SCAN && w[..4] == EXSS_SYNC
    requires ExssSize(w[..MIN_HEADER]) == Some(size) && MIN_SCAN <= size <= MIN_SCAN + |tail|
    ensures Feed(Dts(k), State(c, []), w + tail) == Feed(Dts(k), State(Counted1(c, size), []), tail[size - MIN_SCAN..])
  {
    hide Drain, Lawful, Progresses, Feed, ExssSize, Step, Extension, SkipBy, Counted1, Dts;
    SkipsWindow(k, c, w, tail, size);
    AllSkipped(c, size);
    var e := Extension(c, size);
    SkipTwice(e, MIN_SCAN - 1, size - MIN_SCAN);
    FeedSkips(k, SkipBy(e, MIN_SCAN - 1), tail, size - MIN_SCAN);
  }

  lemma SkipsWindow<S(!new), B>(k: Codec<S, B>, c: Control<S>, w: seq<byte>, tail: seq<byte>, size: nat)
    requires c.skip == 0 && |w| == MIN_SCAN && w[..4] == EXSS_SYNC
    requires ExssSize(w[..MIN_HEADER]) == Some(size) && MIN_SCAN <= size
    ensures Extension(c, size).skip == size - 1
    ensures Feed(Dts(k), State(c, []), w + tail)
         == Feed(Dts(k), State(SkipBy(Extension(c, size), MIN_SCAN - 1), []), tail)
  {
    hide Drain, Lawful, Progresses, Feed, ExssSize, Step, SkipBy;
    assert [] + w == w && w[MIN_SCAN..] == [];
    FeedSplitsWithinSpace(Dts(k), State(c, []), w, tail);
    DrainsWindow(k, c, w, size);
    NothingBefore(Feed(Dts(k), State(SkipBy(Extension(c, size), MIN_SCAN - 1), []), tail));
  }

  lemma SkipsShort<S(!new), B>(k: Codec<S, B>, c: Control<S>, w: seq<byte>, tail: seq<byte>, size: nat)
    requires c.skip == 0 && |w| == MIN_SCAN && w[..4] == EXSS_SYNC
    requires ExssSize(w[..MIN_HEADER]) == Some(size) && 0 < size < MIN_SCAN
    ensures Feed(Dts(k), State(c, []), w + tail) == Feed(Dts(k), State(Counted1(c, size), []), w[size..] + tail)
  {
    hide Drain, Lawful, Progresses, Feed, ExssSize, Step, Extension, SkipBy, Counted1;
    var m := Dts(k);
    assert [] + w == w;
    FeedSplitsWithinSpace(m, State(c, []), w, tail);
    DrainsWindow(k, c, w, size);
    AllSkipped(c, size);
    AllSkippedIsOver(c, size);
    NothingBefore(Feed(m, State(Counted1(c, size), w[size..]), tail));
    KeepsShort(k, Counted1(c, size), w[size..], tail);
  }

  /** What a header gives as the extension's size is passed over. */
  lemma SkipsExtension<S(!new), B>(k: Codec<S, B>, c: Control<S>, x: seq<byte>, rest: seq<byte>)
    requires c.skip == 0 && |x| >= MIN_HEADER && |x| + |rest| >= MIN_SCAN
    requires x[..4] == EXSS_SYNC && ExssSize(x[..MIN_HEADER]) == Some(|x|)
    ensures Feed(Dts(k), State(c, []), x + rest) == Feed(Dts(k), State(Counted1(c, |x|), []), rest)
  {
    hide Drain, Lawful, Progresses, Feed, ExssSize, Counted1, Dts;
    var all := x + rest;
    var w, tail := all[..MIN_SCAN], all[MIN_SCAN..];
    InWindow(x, rest, MIN_SCAN);
    if |x| < MIN_SCAN {
      SkipsShort(k, c, w, tail, |x|);
    } else {
      SkipsLong(k, c, w, tail, |x|);
    }
  }

  /** The first n bytes of an extension and what follows it. */
  lemma InWindow(x: seq<byte>, rest: seq<byte>, n: nat)
    requires MIN_HEADER <= |x| && MIN_HEADER <= n <= |x| + |rest|
    ensures var w, tail := (x + rest)[..n], (x + rest)[n..];
            && w + tail == x + rest && w[..4] == x[..4] && w[..MIN_HEADER] == x[..MIN_HEADER]
            && (if |x| < n then w[|x|..] + tail == rest else tail[|x| - n..] == rest)
  {
  }

  lemma AllSkippedIsOver<S>(c: Control<S>, size: nat)
    ensures Counted1(c, size).skip == 0
  {
  }

  // ---- the program's reader ----------------------------------------------------------------------------------

  lemma BitOfByte(s: seq<byte>, pos: nat)
    requires pos < 8 * |s|
    ensures s[pos / 8] / Pow2(7 - pos % 8) % 2 == Unpack(s)[pos]
  {
    hide Unpack, ByteBits, Pow2;
    var i, j := pos / 8, pos % 8;
    UnpackAt(s, i);
    BitIn(s[i], j);
    assert Unpack(s)[8 * i..8 * i + 8][j] == Unpack(s)[pos];
  }

  lemma BitIn(b: byte, j: nat)
    requires j < 8
    ensures b / Pow2(7 - j) % 2 == ByteBits(b)[j]
  {
    SmallPowers();
  }

  lemma NumStep(bits: seq<bit>, from: nat, n: nat)
    requires from + n < |bits|
    ensures Num(bits, from, from + n + 1) == 2 * Num(bits, from, from + n) + bits[from + n]
  {
    assert bits[from..from + n + 1][..n] == bits[from..from + n];
  }

  class ExssBits {
    const buf: seq<byte>
    var bitpos: nat

    constructor (buf: seq<byte>, bitpos: nat)
      ensures this.buf == buf && this.bitpos == bitpos
    {
      this.buf, this.bitpos := buf, bitpos;
    }

    /** The next n bits, most significant first. */
    method Get(n: nat) returns (v: nat)
      requires bitpos + n <= 8 * |buf|
      modifies this
      ensures bitpos == old(bitpos) + n && v == Num(Unpack(buf), old(bitpos), old(bitpos) + n)
    {
      hide Unpack;
      v := 0;
      for i := 0 to n
        invariant bitpos == old(bitpos) + i && v == Num(Unpack(buf), old(bitpos), old(bitpos) + i)
      {
        BitOfByte(buf, bitpos);
        NumStep(Unpack(buf), old(bitpos), i);
        v := 2 * v + buf[bitpos / 8] / Pow2(7 - bitpos % 8) % 2;
        bitpos := bitpos + 1;
      }
    }
  }

  /** The extension substream's size at the front of p, whose sync word was seen; none when this is a false sync. */
  method FindExssSize(p: seq<byte>) returns (size: Option<nat>)
    requires |p| >= MIN_HEADER
    ensures size == ExssSize(p[..MIN_HEADER])
  {
    hide Unpack, Num;
    ghost var bits := Unpack(p[..MIN_HEADER]);
    var b := new ExssBits(p[..MIN_HEADER], 32);
    var _ := b.Get(8);
    var _ := b.Get(2);
    var wide := b.Get(1);
    NumOfBit(bits, 42);
    var more := 4 * wide;
    var header := b.Get(8 + more);
    var exss := b.Get(16 + more);
    return if header + 1 < MIN_HEADER || exss < header then None else Some(exss + 1);
  }

  lemma NumOfBit(bits: seq<bit>, i: nat)
    requires i < |bits|
    ensures Num(bits, i, i + 1) == bits[i]
  {
    var s := [bits[i]];
    assert bits[i..i + 1] == s && s[..0] == [];
    assert ToNat(s) == 2 * ToNat(s[..0]) + s[0];
  }

  class DtsReader<S(!new), B(!new)> {
    const codec: Codec<S, B>
    const carry: array<byte>
    var carryLen: nat
    var skip: nat
    var dec: S
    var coreFrames: nat
    var badFrames: nat
    var extCount: nat
    var extBytes: nat
    var first: Option<First>
    var emitted: seq<B>

    ghost predicate Valid()
      reads this
    {
      carry.Length == CARRY_BYTES && carryLen <= CARRY_BYTES && (skip > 0 ==> carryLen == 0)
    }

    ghost function Ctl(): Control<S>
      reads this
    {
      Control(dec, skip, coreFrames, badFrames, extCount, extBytes, first)
    }

    ghost function Left(off: nat): seq<byte>
      requires off <= carryLen <= carry.Length
      reads this, carry
    {
      carry[off..carryLen]
    }

    ghost function Abs(): State<Control<S>>
      requires carryLen <= carry.Length
      reads this, carry
    {
      State(Ctl(), Left(0))
    }

    constructor (codec: Codec<S, B>, dec: S)
      ensures Valid() && fresh(carry) && emitted == [] && this.codec == codec
      ensures Abs() == State(Control(dec, 0, 0, 0, 0, 0, None), [])
    {
      this.codec, this.dec := codec, dec;
      carry := new byte[CARRY_BYTES];
      carryLen, skip, coreFrames, badFrames, extCount, extBytes, first, emitted := 0, 0, 0, 0, 0, 0, None, [];
    }

    /** A seek drops the carry and what was left to skip. */
    method Reset()
      requires Valid()
      modifies this
      ensures Valid() && Abs() == State(old(Ctl()).(skip := 0), []) && emitted == old(emitted)
    {
      carryLen, skip := 0, 0;
    }

    /** The frame's blocks, until the decoder rejects one. */
    method DecodeBlocks(n: nat)
      modifies this`dec, this`badFrames, this`emitted
      ensures var d := Blocks(codec, old(Ctl()), n); Ctl() == d.ctl && emitted == old(emitted) + d.blocks
    {
      var i := 0;
      ghost var all := Blocks(codec, Ctl(), n);
      while i < n
        invariant i <= n && Ctl() == old(Ctl()).(dec := dec, badFrames := badFrames)
        invariant var d := Blocks(codec, Ctl(), n - i);
                  all.ctl == d.ctl && old(emitted) + all.blocks == emitted + d.blocks
      {
        BlocksStep(codec, Ctl(), n - i);
        var (d, b) := codec.block(dec);
        dec := d;
        if b.None? {
          badFrames := Counted(badFrames, 1);
          return;
        }
        assert forall rest :: emitted + ([b.value] + rest) == emitted + [b.value] + rest;
        emitted := emitted + [b.value];
        i := i + 1;
      }
    }

    /** One whole core frame. */
    method DecodeCoreFrame(frame: seq<byte>)
      modifies this`dec, this`badFrames, this`coreFrames, this`first, this`emitted
      ensures var d := CoreFrame(codec, old(Ctl()), frame); Ctl() == d.ctl && emitted == old(emitted) + d.blocks
    {
      hide Blocks;
      var (d, n) := codec.frame(dec, frame);
      dec := d;
      if n.None? || n.value < 1 || n.value > 16 {
        badFrames := Counted(badFrames, 1);
        return;
      }
      if first.None? {
        first := Some(First(|frame|, n.value));
      }
      DecodeBlocks(n.value);
      coreFrames := Counted(coreFrames, 1);
    }

    /** An extension substream at `off`: what of it is in the carry is passed over, the rest is left to skip. */
    method PassExtension(off: nat) returns (end: nat)
      requires Valid() && skip == 0 && off + MIN_SCAN <= carryLen && Left(off)[..4] == EXSS_SYNC
      modifies this`extCount, this`extBytes, this`skip
      ensures off < end <= carryLen && (skip > 0 ==> end == carryLen)
      ensures Drain(Dts(codec), old(Ctl()), Left(off)) == Drain(Dts(codec), Ctl(), Left(end))
    {
      hide Drain, Lawful, Progresses, Before, ExssSize, Step;
      ghost var w := Left(off);
      DrainsExtension(codec, Ctl(), w);
      assert w[1..] == Left(off + 1) && w[..MIN_HEADER] == carry[off..carryLen][..MIN_HEADER];
      var size := FindExssSize(carry[off..carryLen]);
      if size.None? {
        return off + 1;
      }
      extCount, extBytes := Counted(extCount, 1), Counted(extBytes, size.value);
      var avail := carryLen - off;
      end := if size.value <= avail then off + size.value else carryLen;
      skip := size.value - (end - off);
      ghost var c := Extension(old(Ctl()), size.value);
      DrainSkips(codec, c, Left(off + 1), end - off - 1);
      assert Left(off + 1)[end - off - 1..] == Left(end);
    }

    /** A core frame at `off`, if one starts there and is whole. */
    method TakeCore(off: nat) returns (end: nat, stop: bool, ghost blocks: seq<B>)
      requires Valid() && skip == 0 && off + MIN_SCAN <= carryLen && Left(off)[..4] != EXSS_SYNC
      modifies this`dec, this`badFrames, this`coreFrames, this`first, this`emitted
      ensures off <= end <= carryLen && (stop || off < end) && emitted == old(emitted) + blocks
      ensures Drain(Dts(codec), old(Ctl()), Left(off)) == Before(blocks, Drain(Dts(codec), Ctl(), Left(end)))
      ensures stop ==> Step(codec, Ctl(), Left(end)).Wait?
    {
      hide Drain, Lawful, Progresses, Before, CoreFrame, Step;
      ghost var w := Left(off);
      DrainsCore(codec, Ctl(), w);
      blocks := [];
      var size := codec.size(carry[off..carryLen][..MIN_SCAN]);
      if size <= 0 {
        assert w[1..] == Left(off + 1);
        return off + 1, false, blocks;
      }
      if carryLen - off < size {
        NothingBefore(Drain(Dts(codec), Ctl(), w));
        return off, true, blocks;
      }
      assert w[size..] == Left(off + size);
      blocks := CoreFrame(codec, Ctl(), w[..size]).blocks;
      DecodeCoreFrame(carry[off..carryLen][..size]);
      return off + size, false, blocks;
    }

    /** Consumes everything decidable in the carry and keeps the tail. */
    method DecodeCarry() returns (ghost blocks: seq<B>)
      requires Valid() && skip == 0
      modifies this, carry
      ensures Valid() && emitted == old(emitted) + blocks
      ensures Result(Abs(), blocks) == Drain(Dts(codec), old(Ctl()), old(Left(0)))
    {
      hide Drain, Lawful, Progresses, Before, Step;
      ghost var all := Drain(Dts(codec), Ctl(), Left(0));
      blocks := [];
      NothingBefore(all);
      var off, stop := 0, false;
      while carryLen - off >= MIN_SCAN && !stop
        invariant off <= carryLen == old(carryLen) && carry.Length == CARRY_BYTES && carryLen <= CARRY_BYTES
        invariant carry[..] == old(carry[..]) && emitted == old(emitted) + blocks
        invariant skip > 0 ==> off == carryLen
        invariant all == Before(blocks, Drain(Dts(codec), Ctl(), Left(off)))
        invariant stop ==> Step(codec, Ctl(), Left(off)).Wait?
        decreases carryLen - off, !stop
      {
        if carry[off..carryLen][..4] == EXSS_SYNC {
          off := PassExtension(off);
        } else {
          ghost var more;
          off, stop, more := TakeCore(off);
          BeforeBefore(blocks, more, Drain(Dts(codec), Ctl(), Left(off)));
          blocks := blocks + more;
        }
      }
      if !stop {
        TooLittle(codec, Ctl(), Left(off));
      }
      DrainsStep(codec, Ctl(), Left(off));
      NothingAfter(blocks, State(Ctl(), Left(off)));
      KeepTail(off);
    }

    method KeepTail(off: nat)
      requires carry.Length == CARRY_BYTES && off <= carryLen <= CARRY_BYTES && (skip > 0 ==> off == carryLen)
      modifies this`carryLen, carry
      ensures Valid() && carryLen == old(carryLen) - off && Left(0) == old(Left(off))
    {
      if off > 0 {
        var n := carryLen - off;
        forall i | 0 <= i < n {
          carry[i] := carry[off + i];
        }
        carryLen := n;
      }
    }

    /** The payload's next bytes, behind what the carry holds. */
    method Append(es: seq<byte>, from: nat, take: nat)
      requires Valid() && skip == 0 && carryLen + take <= CARRY_BYTES && from + take <= |es|
      modifies this`carryLen, carry
      ensures Valid() && Left(0) == old(Left(0)) + es[from..from + take]
    {
      forall i | 0 <= i < take {
        carry[carryLen + i] := es[from + i];
      }
      carryLen := carryLen + take;
    }

    /** As much of the payload as fits, after dropping a carry that is full. */
    method Round(es: seq<byte>, at: nat) returns (end: nat, ghost blocks: seq<B>)
      requires Valid() && skip == 0 && at < |es|
      modifies this, carry
      ensures Valid() && at < end <= |es| && emitted == old(emitted) + blocks
      ensures Feed(Dts(codec), old(Abs()), es[at..]) == Before(blocks, Feed(Dts(codec), Abs(), es[end..]))
    {
      hide Drain, Lawful, Progresses, Before, Step, Feed;
      FeedStep(Dts(codec), Abs(), es, at);
      var space := CARRY_BYTES - carryLen;
      if space == 0 {
        carryLen := 0;
        badFrames := Counted(badFrames, 1);
        space := CARRY_BYTES;
      }
      assert Abs() == MakeRoom(Dts(codec), old(Abs()));
      var take := Min(|es| - at, space);
      Append(es, at, take);
      blocks := DecodeCarry();
      end := at + take;
    }

    /** A payload of any size. */
    method FeedBytes(es: seq<byte>) returns (ghost blocks: seq<B>)
      requires Valid()
      modifies this, carry
      ensures Valid() && emitted == old(emitted) + blocks
      ensures Result(Abs(), blocks) == Feed(Dts(codec), old(Abs()), es)
    {
      hide Drain, Lawful, Progresses, Before, Step, Feed;
      ghost var all := Feed(Dts(codec), Abs(), es);
      blocks := [];
      NothingBefore(all);
      var at := 0;
      assert es[0..] == es;
      while at < |es|
        invariant Valid() && at <= |es| && emitted == old(emitted) + blocks
        invariant all == Before(blocks, Feed(Dts(codec), Abs(), es[at..]))
      {
        if skip > 0 {
          var take := Min(skip, |es| - at);
          FeedSkips(codec, Ctl(), es[at..], take);
          assert es[at..][take..] == es[at + take..];
          assert Left(0) == [];
          skip := skip - take;
          at := at + take;
        } else {
          ghost var more;
          at, more := Round(es, at);
          BeforeBefore(blocks, more, Feed(Dts(codec), Abs(), es[at..]));
          blocks := blocks + more;
        }
      }
      assert es[at..] == [];
      FedAll(Dts(codec), Abs());
      NothingAfter(blocks, Abs());
    }
  }

  function Extension<S>(c: Control<S>, size: nat): Control<S>
    requires size > 0
  {
    c.(skip := size - 1, extCount := Counted(c.extCount, 1), extBytes := Counted(c.extBytes, size))
  }

  lemma DrainsExtension<S(!new), B>(k: Codec<S, B>, c: Control<S>, w: seq<byte>)
    requires c.skip == 0 && |w| >= MIN_SCAN && w[..4] == EXSS_SYNC
    ensures var size := ExssSize(w[..MIN_HEADER]);
            Drain(Dts(k), c, w)
            == Drain(Dts(k), if size.None? then c else Extension(c, size.value), w[1..])
  {
    hide Drain, Lawful, Progresses, ExssSize;
    var size := ExssSize(w[..MIN_HEADER]);
    DrainsStep(k, c, w);
    NothingBefore(Drain(Dts(k), if size.None? then c else Extension(c, size.value), w[1..]));
  }

  lemma DrainsCore<S(!new), B>(k: Codec<S, B>, c: Control<S>, w: seq<byte>)
    requires c.skip == 0 && |w| >= MIN_SCAN && w[..4] != EXSS_SYNC
    ensures var size := k.size(w[..MIN_SCAN]);
            && (size <= 0 ==> Drain(Dts(k), c, w) == Before([], Drain(Dts(k), c, w[1..])))
            && (size > |w| ==> Step(k, c, w).Wait?)
            && (0 < size <= |w| ==>
                  var d := CoreFrame(k, c, w[..size]);
                  Drain(Dts(k), c, w) == Before(d.blocks, Drain(Dts(k), d.ctl, w[size..])))
  {
    hide Drain, Lawful, Progresses, CoreFrame;
    DrainsStep(k, c, w);
  }

  lemma TooLittle<S, B>(k: Codec<S, B>, c: Control<S>, w: seq<byte>)
    requires |w| < MIN_SCAN && (c.skip > 0 ==> w == [])
    ensures Step(k, c, w).Wait?
  {
  }

  lemma BlocksStep<S, B>(k: Codec<S, B>, c: Control<S>, n: nat)
    requires n > 0
    ensures var (dec, b) := k.block(c.dec);
            && (b.None? ==> Blocks(k, c, n) == Decoded(Bad(WithDecoder(c, dec)), []))
            && (b.Some? ==> var rest := Blocks(k, WithDecoder(c, dec), n - 1);
                            Blocks(k, c, n) == Decoded(rest.ctl, [b.value] + rest.blocks))
  {
  }
}
