/**
 The FLAC reader of source/audio/adec_flac.cpp: payloads of any size in, whole frames out, through a carry buffer that
 is hunted for the stream header first and for sync codes afterwards.
 */
module AdecFlac {
  import opened Basics
  import opened CarryLoop
  import opened FlacBits
  import opened FlacCrc
  import opened FlacFormat
  import opened FlacDecoder
  import opened FlacStable

  const CARRY_BYTES := 192 * 1024
  const DEFAULT_BLOCK := 4608

  // ---- the reader as a step at the front of the carry -------------------------------------------

  /** The stream's info once its header was read, and the planes' size: samples each, and channels. */
  datatype Control = Control(info: Option<StreamInfo>, cap: nat, channels: nat)

  predicate Acceptable(si: StreamInfo) {
    si.channels <= MAX_CHANNELS && 4 <= si.bps <= 24
  }

  function BlockCap(si: StreamInfo): nat {
    if si.maxBlock > 0 then si.maxBlock else DEFAULT_BLOCK
  }

  /** Planes grow when a stream needs more than there is. */
  function WithStream(c: Control, si: StreamInfo): Control {
    var cap := BlockCap(si);
    if cap > c.cap || si.channels > c.channels then Control(Some(si), cap, si.channels)
    else Control(Some(si), c.cap, c.channels)
  }

  function HuntHeader(c: Control, w: seq<byte>): Verdict<Control, Frame> {
    if |w| < 4 then Wait
    else if w[..4] != MAGIC then Take(1, c, [])
    else
      match ReadStreamHeader(w)
      case Short => Wait
      case Invalid => Take(4, c, [])
      case Got(si, end) => if Acceptable(si) then Take(end, WithStream(c, si), []) else Take(4, c, [])
  }

  function HuntFrame(c: Control, w: seq<byte>): Verdict<Control, Frame>
    requires c.info.Some?
  {
    if w == [] then Wait
    else if |w| == 1 then (if w[0] == 0xFF then Wait else Take(1, c, []))   // half a sync code
    else if !IsSync(w[0], w[1]) then Take(1, c, [])
    else
      match ReadFrame(w, c.info, c.cap)
      case Short => Wait
      case Invalid => Take(1, c, [])
      case Got(f, end) => Take(end, c, if f.info.channels > c.info.value.channels then [] else [f])
  }

  function Step(c: Control, w: seq<byte>): Verdict<Control, Frame> {
    if c.info.None? then HuntHeader(c, w) else HuntFrame(c, w)
  }

  lemma FrameIsNotEmpty(w: seq<byte>, info: Option<StreamInfo>, cap: nat)
    requires ReadFrame(w, info, cap).Got?
    ensures 0 < ReadFrame(w, info, cap).pos <= |w|
  {
    hide Unpack, ReadHeader, ReadSubframes, Decorrelate;
  }

  lemma StepProgresses(c: Control, w: seq<byte>)
    requires Step(c, w).Take?
    ensures 0 < Step(c, w).n <= |w|
  {
    hide ReadFrame, ReadStreamHeader;
    if c.info.Some? && ReadFrame(w, c.info, c.cap).Got? {
      FrameIsNotEmpty(w, c.info, c.cap);
    }
  }

  lemma StepIsStable(c: Control, w: seq<byte>, v: seq<byte>)
    requires w <= v && Step(c, w).Take?
    ensures Step(c, v) == Step(c, w)
  {
    hide ReadFrame, ReadStreamHeader;
    var s := v[|w|..];
    assert v == w + s;
    if c.info.None? {
      assert w[..4] == v[..4];
      if w[..4] == MAGIC {
        StreamHeaderIsPrefixStable(w, s);
      }
    } else if |w| == 1 {
      assert v[0] == w[0];
    } else if IsSync(w[0], w[1]) {
      FrameIsPrefixStable(w, s, c.info, c.cap);
    }
  }

  ghost predicate IsFlac(m: Reader<Control, Frame>) {
    && (forall c, w :: m.step(c, w) == Step(c, w))
    && (forall c :: m.overflow(c) == c)
  }

  ghost function Flac(): (m: Reader<Control, Frame>)
    ensures Lawful(m) && Progresses(m) && m.cap == CARRY_BYTES && IsFlac(m)
  {
    var m := Reader((c, w) => Step(c, w), c => 0, CARRY_BYTES, c => c);
    FlacLawful(m);
    m
  }

  lemma FlacLawful(m: Reader<Control, Frame>)
    requires m.cap > 0 && forall c, w :: m.step(c, w) == Step(c, w)
    ensures Lawful(m)
  {
    hide Step;
    forall c, w | m.step(c, w).Take?
      ensures 0 < m.step(c, w).n <= |w|
    {
      StepProgresses(c, w);
    }
    forall c, w, v | w <= v && m.step(c, w).Take?
      ensures m.step(c, v) == m.step(c, w)
    {
      StepIsStable(c, w, v);
    }
  }

  /**
   Feed independence: the frames delivered, the stream info, the planes' size and the carry left over are those of the
   whole stream in one payload, for every way of cutting it.
   */
  lemma FlacFeedIndependence(s: State<Control>, payloads: seq<seq<byte>>)
    requires |s.carry| <= CARRY_BYTES
    ensures FeedAll(Flac(), s, payloads) == Feed(Flac(), s, Flatten(payloads))
  {
    hide *;
    FeedIndependence(Flac(), s, payloads);
  }

  // ---- the drain, in the strides the program takes ------------------------------------------------

  /** Steps that deliver nothing and only skip may be taken together. */
  lemma {:induction false} SkipTogether(m: Reader<Control, Frame>, c: Control, w: seq<byte>, n: nat)
    requires Lawful(m) && n <= |w|
    requires forall i :: 0 <= i < n ==> m.step(c, w[i..]) == Take(1, c, [])
    ensures Drain(m, c, w) == Drain(m, c, w[n..])
    decreases n
  {
    if n == 0 {
      assert w[0..] == w;
    } else {
      hide Lawful;
      assert w[0..] == w;
      assert m.step(c, w) == Take(1, c, []);
      assert Drain(m, c, w) == Drain(m, c, w[1..]) by {
        assert Lawful(m);
        DrainStep(m, c, w);
        NothingBefore(Drain(m, c, w[1..]));
      }
      forall i | 0 <= i < n - 1
        ensures m.step(c, w[1..][i..]) == Take(1, c, [])
      {
        assert w[1..][i..] == w[i + 1..];
      }
      SkipTogether(m, c, w[1..], n - 1);
      assert w[1..][n - 1..] == w[n..];
    }
  }

  predicate MagicAt(w: seq<byte>, i: nat)
    requires i + 4 <= |w|
  {
    w[i..i + 4] == MAGIC
  }

  /** No header starts in the first n bytes: all but what could be the beginning of one is dropped. */
  lemma NoHeaderBefore(c: Control, w: seq<byte>, n: nat)
    requires c.info.None? && (n == 0 || n + 3 <= |w|)
    requires forall i :: 0 <= i < n ==> !MagicAt(w, i)
    ensures Drain(Flac(), c, w) == Drain(Flac(), c, w[n..])
  {
    hide Step, Drain, Lawful, ReadStreamHeader;
    if n > 0 {
      forall i | 0 <= i < n
        ensures Step(c, w[i..]) == Take(1, c, [])
      {
        assert !MagicAt(w, i);
        NoHeaderAt(c, w, i);
      }
      SkipTogether(Flac(), c, w, n);
    } else {
      assert w[n..] == w;
    }
  }

  lemma NoHeaderFrom(c: Control, w: seq<byte>, off: nat, end: nat)
    requires c.info.None? && off <= end <= |w| && (end == off || end + 3 <= |w|)
    requires forall i :: off <= i < end ==> !MagicAt(w, i)
    ensures Drain(Flac(), c, w[off..]) == Drain(Flac(), c, w[end..])
  {
    hide Drain, Lawful;
    forall i | 0 <= i < end - off
      ensures !MagicAt(w[off..], i)
    {
      assert w[off..][i..i + 4] == w[off + i..off + i + 4];
      assert !MagicAt(w, off + i);
    }
    NoHeaderBefore(c, w[off..], end - off);
    assert w[off..][end - off..] == w[end..];
  }

  lemma NoHeaderAt(c: Control, w: seq<byte>, i: nat)
    requires c.info.None? && i + 4 <= |w| && !MagicAt(w, i)
    ensures Step(c, w[i..]) == Take(1, c, [])
  {
    hide ReadStreamHeader;
    assert w[i..][..4] == w[i..i + 4];
  }

  /** No sync code starts in the first n bytes. */
  lemma NoSyncBefore(c: Control, w: seq<byte>, n: nat)
    requires c.info.Some? && n <= |w|
    requires forall i :: 0 <= i < n ==> !MayBeSync(w, i)
    ensures Drain(Flac(), c, w) == Drain(Flac(), c, w[n..])
  {
    hide Step, Drain, Lawful;
    forall i | 0 <= i < n
      ensures Step(c, w[i..]) == Take(1, c, [])
    {
      assert !MayBeSync(w, i);
      NoSyncAt(c, w, i);
    }
    SkipTogether(Flac(), c, w, n);
  }

  /** A sync code is at i, or its first half is the last byte. */
  predicate MayBeSync(w: seq<byte>, i: nat)
    requires i < |w|
  {
    if i + 1 < |w| then IsSync(w[i], w[i + 1]) else w[i] == 0xFF
  }

  lemma SyncInTail(w: seq<byte>, i: nat)
    requires i < |w| && MayBeSync(w, i)
    ensures MayBeSync(w[i..], 0)
  {
  }

  lemma NoSyncFrom(c: Control, w: seq<byte>, off: nat, end: nat)
    requires c.info.Some? && off <= end <= |w|
    requires forall i :: off <= i < end ==> !MayBeSync(w, i)
    ensures Drain(Flac(), c, w[off..]) == Drain(Flac(), c, w[end..])
  {
    hide Drain, Lawful;
    forall i | 0 <= i < end - off
      ensures !MayBeSync(w[off..], i)
    {
      assert !MayBeSync(w, off + i);
    }
    NoSyncBefore(c, w[off..], end - off);
    assert w[off..][end - off..] == w[end..];
  }

  lemma NoSyncAt(c: Control, w: seq<byte>, i: nat)
    requires c.info.Some? && i < |w| && !MayBeSync(w, i)
    ensures Step(c, w[i..]) == Take(1, c, [])
  {
    hide ReadFrame;
    var v := w[i..];
    assert v[0] == w[i] && (i + 1 < |w| ==> v[1] == w[i + 1]);
  }

  lemma Waits(c: Control, w: seq<byte>)
    requires Step(c, w).Wait?
    ensures Drain(Flac(), c, w) == Result(State(c, w), [])
  {
    hide Step;
    var m := Flac();
    assert m.step(c, w).Wait?;
  }

  /** What a header at the front of the carry does. */
  lemma DrainHeader(c: Control, w: seq<byte>)
    requires c.info.None? && |w| >= 4 && w[..4] == MAGIC
    ensures var h := ReadStreamHeader(w);
            && (h.Short? ==> Step(c, w).Wait?)
            && (h.Invalid? || (h.Got? && !Acceptable(h.val)) ==> Drain(Flac(), c, w) == Drain(Flac(), c, w[4..]))
            && (h.Got? && Acceptable(h.val) ==>
                  Drain(Flac(), c, w) == Drain(Flac(), WithStream(c, h.val), w[h.pos..]))
  {
    hide Drain, Acceptable, ReadStreamHeader, Lawful;
    if Step(c, w).Take? {
      Takes(c, w);
      NothingBefore(Drain(Flac(), Step(c, w).next, w[Step(c, w).n..]));
    }
  }

  lemma TooShortForHeader(c: Control, w: seq<byte>)
    requires c.info.None? && |w| < 4
    ensures Step(c, w).Wait?
  {
  }

  lemma HalfASync(c: Control, w: seq<byte>)
    requires c.info.Some? && |w| <= 1 && (|w| == 1 ==> MayBeSync(w, 0))
    ensures Step(c, w).Wait?
  {
  }

  /** What a sync code at the front of the carry does. */
  lemma DrainFrame(c: Control, w: seq<byte>)
    requires c.info.Some? && |w| >= 2 && MayBeSync(w, 0)
    ensures var r := ReadFrame(w, c.info, c.cap);
            && (r.Short? ==> Step(c, w).Wait?)
            && (r.Invalid? ==> Drain(Flac(), c, w) == Before([], Drain(Flac(), c, w[1..])))
            && (r.Got? ==> Drain(Flac(), c, w) ==
                           Before(if r.val.info.channels > c.info.value.channels then [] else [r.val],
                                  Drain(Flac(), c, w[r.pos..])))
  {
    hide Drain, ReadFrame, Lawful;
    if Step(c, w).Take? {
      Takes(c, w);
    }
  }

  lemma Takes(c: Control, w: seq<byte>)
    requires Step(c, w).Take?
    ensures Step(c, w).n <= |w|
    ensures Drain(Flac(), c, w) == Before(Step(c, w).out, Drain(Flac(), Step(c, w).next, w[Step(c, w).n..]))
  {
    hide Step;
    var m := Flac();
    assert m.step(c, w).Take?;
    DrainStep(m, c, w);
  }

  // ---- delivery -----------------------------------------------------------------------------------

  const SLICE := 1024

  /** Samples handed to the output stage: n interleaved rows, with the format they are in. */
  datatype Slice = Slice(stage: seq<int32>, n: nat, channels: nat, bps: nat, rate: nat)

  predicate Shaped(f: Frame) {
    |f.planes| == f.info.channels <= MAX_CHANNELS && forall p :: p in f.planes ==> |p| == f.info.blocksize
  }

  function Row(planes: seq<seq<int32>>, k: nat): (r: seq<int32>)
    requires forall p :: p in planes ==> k < |p|
    ensures |r| == |planes|
  {
    seq(|planes|, c requires 0 <= c < |planes| => planes[c][k])
  }

  /** Rows at .. at + n of the planes, one after the other. */
  function Interleaved(planes: seq<seq<int32>>, at: nat, n: nat): (r: seq<int32>)
    requires forall p :: p in planes ==> at + n <= |p|
    ensures |r| == n * |planes|
  {
    if n == 0 then []
    else
      OneMoreTimes(n - 1, |planes|);
      Interleaved(planes, at, n - 1) + Row(planes, at + n - 1)
  }

  lemma OneMoreTimes(n: nat, m: nat)
    ensures (n + 1) * m == n * m + m
  {
  }

  function SlicesFrom(f: Frame, at: nat): seq<Slice>
    requires Shaped(f)
    decreases f.info.blocksize - at
  {
    if at >= f.info.blocksize then []
    else
      var n := Min(SLICE, f.info.blocksize - at);
      [Slice(Interleaved(f.planes, at, n), n, f.info.channels, f.info.bps, f.info.rate)] + SlicesFrom(f, at + SLICE)
  }

  predicate AllShaped(frames: seq<Frame>) {
    forall f :: f in frames ==> Shaped(f)
  }

  function Slices(frames: seq<Frame>): seq<Slice>
    requires AllShaped(frames)
  {
    if frames == [] then [] else SlicesFrom(frames[0], 0) + Slices(frames[1..])
  }

  function Samples(slices: seq<Slice>): seq<int32> {
    if slices == [] then [] else slices[0].stage + Samples(slices[1..])
  }

  lemma {:induction false} InterleavedInTwo(planes: seq<seq<int32>>, at: nat, n: nat, m: nat)
    requires forall p :: p in planes ==> at + n + m <= |p|
    ensures Interleaved(planes, at, n + m) == Interleaved(planes, at, n) + Interleaved(planes, at + n, m)
    decreases m
  {
    if m > 0 {
      InterleavedInTwo(planes, at, n, m - 1);
    }
  }

  /** The slices of a frame together are the frame's samples, row by row. */
  lemma {:induction false} SlicesAreTheFrame(f: Frame, at: nat)
    requires Shaped(f) && at <= f.info.blocksize
    ensures Samples(SlicesFrom(f, at)) == Interleaved(f.planes, at, f.info.blocksize - at)
    decreases f.info.blocksize - at
  {
    hide *;
    FirstSlice(f, at);
    if at < f.info.blocksize {
      var n := if f.info.blocksize - at < SLICE then f.info.blocksize - at else SLICE;
      InterleavedInTwo(f.planes, at, n, f.info.blocksize - at - n);
      SamplesOf(Slice(Interleaved(f.planes, at, n), n, f.info.channels, f.info.bps, f.info.rate),
                SlicesFrom(f, at + SLICE));
      if at + SLICE <= f.info.blocksize {
        SlicesAreTheFrame(f, at + n);
      } else {
        FirstSlice(f, at + SLICE);
        NoRows(f, at + n);
        assert Samples([]) == [] by { NoSamples(); }
      }
    } else {
      NoRows(f, at);
      NoSamples();
    }
  }

  /** Channel after channel within a row, row after row. */
  lemma {:induction false} SamplesAreInterleaved(planes: seq<seq<int32>>, at: nat, n: nat, k: nat, c: nat)
    requires (forall p :: p in planes ==> at + n <= |p|) && k < n && c < |planes|
    ensures planes[c] in planes && k * |planes| + c < n * |planes|
    ensures Interleaved(planes, at, n)[k * |planes| + c] == planes[c][at + k]
    decreases n
  {
    OneMoreTimes(n - 1, |planes|);
    OneMoreTimes(k, |planes|);
    if k < n - 1 {
      SamplesAreInterleaved(planes, at, n - 1, k, c);
    }
  }

  lemma FirstSlice(f: Frame, at: nat)
    requires Shaped(f)
    ensures SLICE == 1024
    ensures forall p :: p in f.planes ==> |p| == f.info.blocksize
    ensures at >= f.info.blocksize ==> SlicesFrom(f, at) == []
    ensures at < f.info.blocksize ==>
              var n := if f.info.blocksize - at < SLICE then f.info.blocksize - at else SLICE;
              SlicesFrom(f, at) ==
              [Slice(Interleaved(f.planes, at, n), n, f.info.channels, f.info.bps, f.info.rate)]
              + SlicesFrom(f, at + SLICE)
  {
    hide Interleaved;
  }

  lemma SamplesOf(x: Slice, rest: seq<Slice>)
    ensures Samples([x] + rest) == x.stage + Samples(rest)
  {
    TailOf(x, rest);
  }

  lemma NoRows(f: Frame, at: nat)
    requires Shaped(f) && at <= f.info.blocksize
    ensures Interleaved(f.planes, at, 0) == []
  {
  }

  lemma NoSamples()
    ensures Samples([]) == []
  {
  }

  lemma {:induction false} SlicesConcat(a: seq<Frame>, b: seq<Frame>)
    requires AllShaped(a) && AllShaped(b)
    ensures AllShaped(a + b)
    ensures Slices(a + b) == Slices(a) + Slices(b)
  {
    hide SlicesFrom, Shaped;
    if a == [] {
      assert a + b == b;
    } else {
      assert (a + b)[1..] == a[1..] + b;
      SlicesConcat(a[1..], b);
    }
  }

  // ---- the program's reader -----------------------------------------------------------------------

  /** A row into the stage, from sample `base` on. */
  method StageRow(stage: array<int32>, planes: seq<array<int32>>, base: nat, k: nat, ch: nat, ghost f: Frame)
    requires Shaped(f) && ch == f.info.channels && k < f.info.blocksize && |planes| >= f.info.channels
    requires base + f.info.channels <= stage.Length && stage !in planes
    requires PlanesHold(planes, f.planes)
    modifies stage
    ensures stage[..][..base] == old(stage[..])[..base]
    ensures stage[..][base..base + ch] == Row(f.planes, k)
  {
    var c := 0;
    ghost var row := Row(f.planes, k);
    while c < ch
      invariant c <= ch
      invariant forall j :: 0 <= j < c ==> stage[base + j] == row[j]
      invariant OnlyWithin(stage, base, base + ch)
    {
      assert Holds(planes[c], 0, f.planes[c]) && f.planes[c] in f.planes;
      stage[base + c] := planes[c][k];
      c := c + 1;
    }
  }

  /** A frame with no more channels than the stream has its planes to itself. */
  lemma ShownDistinct(mem: seq<array<int32>>, cap: nat, planes: seq<array<int32>>, channels: nat, n: nat)
    requires AreDistinct(mem, cap) && n <= channels < |mem| && channels <= MAX_CHANNELS
    requires planes == PlanesFor(mem, channels)
    ensures Distinct(planes, n)
  {
  }

  lemma Regroup<T>(a: seq<T>, x: T, b: seq<T>)
    ensures a + ([x] + b) == (a + [x]) + b
  {
  }

  lemma NoSlices()
    ensures AllShaped([]) && Slices([]) == []
  {
  }

  lemma StageFits(n: nat, ch: nat)
    requires n <= SLICE && ch <= MAX_CHANNELS
    ensures n * ch <= SLICE * MAX_CHANNELS
  {
    MulMono(ch, n, SLICE);
    MulMono(SLICE, ch, MAX_CHANNELS);
  }

  /** The stage holds n rows of the frame. */
  ghost predicate Staged(s: seq<int32>, f: Frame, at: nat, n: nat)
    requires Shaped(f) && at + n <= f.info.blocksize
  {
    n * f.info.channels <= |s| && s[..n * f.info.channels] == Interleaved(f.planes, at, n)
  }

  lemma OneMoreRow(was: seq<int32>, s: seq<int32>, f: Frame, at: nat, n: nat)
    requires Shaped(f) && at + n < f.info.blocksize && Staged(was, f, at, n)
    requires var ch := f.info.channels;
             && n * ch + ch <= |s|
             && s[..n * ch] == was[..n * ch] && s[n * ch..n * ch + ch] == Row(f.planes, at + n)
    ensures Staged(s, f, at, n + 1)
  {
    hide Shaped, Row;
    var ch := f.info.channels;
    var k := n * ch;
    OneMoreTimes(n, ch);
    Adjoin(s, 0, k, k + ch);
  }

  lemma NothingStaged(f: Frame, at: nat)
    requires Shaped(f) && at <= f.info.blocksize
    ensures Interleaved(f.planes, at, 0) == []
  {
  }

  class FlacReader {
    const tables: Tables
    const carry: array<byte>
    const stage: array<int32>
    var carryLen: nat
    var si: Option<StreamInfo>
    var have: bool
    var mem: seq<array<int32>>
    var planes: seq<array<int32>>
    var cap: nat
    var planesN: nat
    var output: seq<Slice>

    ghost predicate Valid()
      reads this, tables, tables.table8, tables.table16
    {
      && tables.Valid()
      && carry.Length == CARRY_BYTES && carryLen <= CARRY_BYTES
      && stage.Length == SLICE * MAX_CHANNELS
      && (if mem == [] then cap == 0 && planesN == 0 else |mem| == planesN + 1)
      && AreDistinct(mem, cap) && stage !in mem
      && (have ==> si.Some? && Acceptable(si.value) && si.value.channels <= planesN && mem != []
                   && planes == PlanesFor(mem, si.value.channels))
    }

    /** Planes may have been replaced by new ones. */
    twostate predicate Grown()
      reads this
    {
      forall i :: 0 <= i < |mem| ==> mem[i] in old(mem) || fresh(mem[i])
    }

    ghost function Ctl(): Control
      reads this
    {
      Control(if have then si else None, cap, planesN)
    }

    ghost function Left(off: nat): seq<byte>
      requires off <= carryLen <= carry.Length
      reads this, carry
    {
      carry[off..carryLen]
    }

    ghost function Abs(): State<Control>
      requires carryLen <= carry.Length
      reads this, carry
    {
      State(Ctl(), carry[..carryLen])
    }

    constructor ()
      ensures Valid() && fresh(carry) && fresh(stage) && forall i :: 0 <= i < |mem| ==> fresh(mem[i])
      ensures Abs() == State(Control(None, 0, 0), []) && output == []
    {
      tables := new Tables();
      carry := new byte[CARRY_BYTES];
      stage := new int32[SLICE * MAX_CHANNELS];
      carryLen, si, have, mem, planes, cap, planesN, output := 0, None, false, [], [], 0, 0, [];
    }

    method Reset()
      requires Valid()
      modifies this
      ensures Valid() && Abs() == State(old(Ctl()).(info := None), []) && output == old(output)
    {
      carryLen := 0;
      have := false;
    }

    method Allocate(samples: nat, n: nat)
      requires Valid() && !have && samples > 0
      modifies this
      ensures Valid() && !have && mem != [] && cap == samples && planesN == n
      ensures carryLen == old(carryLen) && output == old(output) && forall i :: 0 <= i < |mem| ==> fresh(mem[i])
    {
      mem, cap, planesN := [], 0, 0;
      var grown: seq<array<int32>> := [];
      for c := 0 to n + 1
        invariant |grown| == c && AreDistinct(grown, samples) && stage !in grown
        invariant forall i :: 0 <= i < |grown| ==> fresh(grown[i])
        invariant Valid() && !have && carryLen == old(carryLen) && output == old(output) && mem == []
      {
        var m := new int32[samples];
        grown := grown + [m];
      }
      mem, cap, planesN := grown, samples, n;
    }

    /** Takes a stream on: its info, and planes large enough for it. */
    method Adopt(info: StreamInfo)
      requires Valid() && !have && Acceptable(info)
      modifies this
      ensures Valid() && Ctl() == WithStream(old(Ctl()), info)
      ensures carryLen == old(carryLen) && output == old(output) && Grown()
    {
      var samples := if info.maxBlock > 0 then info.maxBlock else DEFAULT_BLOCK;
      if samples > cap || info.channels > planesN {
        Allocate(samples, info.channels);
      }
      planes := PlanesFor(mem, info.channels);
      si, have := Some(info), true;
    }

    /** The first place from `off` on where a stream header may start. */
    method FindMagic(off: nat) returns (at: int)
      requires Valid() && off <= carryLen
      ensures at == -1 || off <= at <= carryLen - 4
      ensures at >= 0 ==> MagicAt(carry[..carryLen], at)
      ensures forall i :: off <= i && i + 4 <= carryLen && (at < 0 || i < at) ==> !MagicAt(carry[..carryLen], i)
    {
      ghost var w := carry[..carryLen];
      var i := off;
      while i + 4 <= carryLen
        invariant off <= i
        invariant forall j :: off <= j < i && j + 4 <= carryLen ==> !MagicAt(w, j)
      {
        assert carry[i..i + 4] == w[i..i + 4];
        if carry[i..i + 4] == MAGIC {
          return i;
        }
        i := i + 1;
      }
      return -1;
    }

    /** Looks for a stream header from `off` on; `stop` when more bytes are needed. */
    method HuntForHeader(off: nat) returns (end: nat, stop: bool)
      requires Valid() && !have && off <= carryLen
      modifies this
      ensures Valid() && carryLen == old(carryLen) && output == old(output) && Grown()
      ensures off <= end <= carryLen && (stop || off < end)
      ensures Drain(Flac(), old(Ctl()), old(Left(off))) == Drain(Flac(), Ctl(), Left(end))
      ensures stop ==> Step(Ctl(), Left(end)).Wait?
    {
      hide Drain, Lawful, Acceptable, ReadStreamHeader, Step;
      ghost var w := carry[..carryLen];
      var at := FindMagic(off);
      assert w == carry[..carryLen];
      if at < 0 {
        end := if carryLen > off + 3 then carryLen - 3 else off;
        NoHeaderFrom(Ctl(), w, off, end);
        TooShortForHeader(Ctl(), Left(end));
        return end, true;
      }
      NoHeaderFrom(Ctl(), w, off, at);
      end := at;
      assert Left(end)[..4] == w[at..at + 4];
      DrainHeader(Ctl(), Left(end));
      var r, info := ParseStreamHeader(carry[end..carryLen]);
      if r == 0 {
        return end, true;
      }
      if r < 0 || !Acceptable(info.value) {
        assert Left(end)[4..] == Left(end + 4);
        return end + 4, false;
      }
      assert Left(end)[r..] == Left(end + r);
      Adopt(info.value);
      return end + r, false;
    }

    /** n rows from `at` on into the stage. */
    method FillStage(at: nat, n: nat, ch: nat, ghost f: Frame)
      requires Valid() && have && Shaped(f) && ch == f.info.channels && PlanesHold(planes, f.planes)
      requires n <= SLICE && at + n <= f.info.blocksize
      modifies stage
      ensures Staged(stage[..], f, at, n)
    {
      hide Interleaved, Row, Holds, PlanesHold, Acceptable;
      StageFits(n, ch);
      NothingStaged(f, at);
      for i := 0 to n
        invariant PlanesHold(planes, f.planes)
        invariant Staged(stage[..], f, at, i)
      {
        StageFits(i + 1, ch);
        OneMoreTimes(i, ch);
        StageOneRow(at, i, ch, f);
      }
    }

    /** Row at + i, behind the i rows before it. */
    method StageOneRow(at: nat, i: nat, ch: nat, ghost f: Frame)
      requires Valid() && have && Shaped(f) && ch == f.info.channels && PlanesHold(planes, f.planes)
      requires at + i < f.info.blocksize && i * ch + ch <= stage.Length && Staged(stage[..], f, at, i)
      modifies stage
      ensures PlanesHold(planes, f.planes) && Staged(stage[..], f, at, i + 1)
    {
      hide Interleaved, Row, Holds, Acceptable, Staged;
      assert stage !in planes;
      ghost var was := stage[..];
      StageRow(stage, planes, i * ch, at + i, ch, f);
      OneMoreRow(was, stage[..], f, at, i);
    }

    /** The rows from `at` on, up to a slice of them. */
    method DeliverSlice(fi: FrameInfo, at: nat, ghost f: Frame)
      requires Valid() && have && Shaped(f) && fi == f.info && PlanesHold(planes, f.planes) && at < f.info.blocksize
      modifies this`output, stage
      ensures Valid() && PlanesHold(planes, f.planes)
      ensures output + SlicesFrom(f, at + SLICE) == old(output) + SlicesFrom(f, at)
    {
      hide Interleaved, Holds, PlanesHold, SlicesFrom;
      FirstSlice(f, at);
      var n := if fi.blocksize - at < SLICE then fi.blocksize - at else SLICE;
      FillStage(at, n, fi.channels, f);
      var s := Slice(stage[..n * fi.channels], n, fi.channels, fi.bps, fi.rate);
      Regroup(output, s, SlicesFrom(f, at + SLICE));
      output := output + [s];
    }

    /** A decoded frame, on to the output stage. */
    method Deliver(fi: FrameInfo, ghost f: Frame)
      requires Valid() && have && Shaped(f) && fi == f.info && PlanesHold(planes, f.planes)
      modifies this`output, stage
      ensures Valid() && output == old(output) + SlicesFrom(f, 0)
    {
      hide SlicesFrom, Holds, AreDistinct, PlanesFor;
      var at := 0;
      while at < fi.blocksize
        invariant Valid() && PlanesHold(planes, f.planes)
        invariant output + SlicesFrom(f, at) == old(output) + SlicesFrom(f, 0)
      {
        DeliverSlice(fi, at, f);
        at := at + SLICE;
      }
      FirstSlice(f, at);
    }

    /** The first place from `off` on where a sync code is, or may begin. */
    method FindSync(off: nat) returns (at: nat)
      requires Valid() && off <= carryLen
      ensures off <= at <= carryLen
      ensures forall i :: off <= i < at ==> !MayBeSync(carry[..carryLen], i)
      ensures at < carryLen ==> MayBeSync(carry[..carryLen], at)
    {
      at := off;
      while at + 1 < carryLen && !IsSync(carry[at], carry[at + 1])
        invariant off <= at <= carryLen
        invariant forall i :: off <= i < at ==> !MayBeSync(carry[..carryLen], i)
      {
        at := at + 1;
      }
      if at + 1 >= carryLen && at < carryLen && carry[at] != 0xFF {
        at := carryLen;
      }
    }

    /** Looks for a frame from `off` on and delivers it; `stop` when more bytes are needed. */
    method HuntForFrame(off: nat) returns (end: nat, stop: bool, ghost frames: seq<Frame>)
      requires Valid() && have && off <= carryLen
      modifies this`output, stage, mem
      ensures Valid() && AllShaped(frames) && output == old(output) + Slices(frames)
      ensures off <= end <= carryLen && (stop || off < end)
      ensures Drain(Flac(), Ctl(), Left(off)) == Before(frames, Drain(Flac(), Ctl(), Left(end)))
      ensures stop ==> Step(Ctl(), Left(end)).Wait?
    {
      hide Drain, Lawful, Progresses, Step, Before, MayBeSync, SlicesFrom;
      ghost var w := carry[..carryLen];
      end := FindSync(off);
      assert w == carry[..carryLen];
      NoSyncFrom(Ctl(), w, off, end);
      if end < carryLen {
        SyncInTail(w, end);
      }
      if end + 1 >= carryLen {
        HalfASync(Ctl(), Left(end));
        NothingBefore(Drain(Flac(), Ctl(), Left(end)));
        return end, true, [];
      }
      end, stop, frames := TakeFrame(end);
    }

    /** Decodes the frame at `off` into the planes. */
    method DecodeAt(off: nat) returns (r: int, fi: Option<FrameInfo>)
      requires Valid() && have && off <= carryLen
      modifies mem
      ensures Valid()
      ensures var p := ReadFrame(Left(off), si, cap);
              && (r == 0 ==> p.Short?) && (r < 0 ==> p.Invalid?)
              && (r > 0 ==> p.Got? && r == p.pos && fi == Some(p.val.info) && Shaped(p.val)
                            && (fi.value.channels <= si.value.channels ==> PlanesHold(planes, p.val.planes)))
    {
      hide ReadFrame, Holds;
      r, fi := DecodeFrame(tables, carry[off..carryLen], si, planes, cap);
      if r > 0 && fi.value.channels <= si.value.channels {
        ShownDistinct(mem, cap, planes, si.value.channels, fi.value.channels);
      }
    }

    /** Takes what starts with the sync code at `off`. */
    method TakeFrame(off: nat) returns (end: nat, stop: bool, ghost frames: seq<Frame>)
      requires Valid() && have && off + 1 < carryLen && MayBeSync(Left(off), 0)
      modifies this`output, stage, mem
      ensures Valid() && AllShaped(frames) && output == old(output) + Slices(frames)
      ensures off <= end <= carryLen && (stop || off < end)
      ensures Drain(Flac(), Ctl(), Left(off)) == Before(frames, Drain(Flac(), Ctl(), Left(end)))
      ensures stop ==> Step(Ctl(), Left(end)).Wait?
    {
      hide Drain, Lawful, Progresses, ReadFrame, Step, Holds, PlanesHold, SlicesFrom, Before, MayBeSync, Shaped;
      frames := [];
      DrainFrame(Ctl(), Left(off));
      var r, fi := DecodeAt(off);
      if r == 0 {
        NothingBefore(Drain(Flac(), Ctl(), Left(off)));
        return off, true, frames;
      }
      if r < 0 {
        assert Left(off)[1..] == Left(off + 1);
        return off + 1, false, frames;
      }
      assert Left(off)[r..] == Left(off + r);
      if fi.value.channels <= si.value.channels {
        ghost var f := ReadFrame(Left(off), si, cap).val;
        Deliver(fi.value, f);
        frames := [f];
      }
      return off + r, false, frames;
    }

    /** Takes everything that can be decided off the front of the carry and keeps the tail. */
    method DecodeCarry() returns (ghost frames: seq<Frame>)
      requires Valid()
      modifies this, carry, stage, mem
      ensures Valid() && AllShaped(frames) && output == old(output) + Slices(frames)
      ensures Result(Abs(), frames) == Drain(Flac(), old(Ctl()), old(Left(0)))
      ensures Grown()
    {
      hide Drain, Lawful, Progresses, Step, Before, Slices;
      ghost var all := Drain(Flac(), Ctl(), Left(0));
      frames := [];
      NothingBefore(all);
      NoSlices();
      var off, stop := 0, false;
      while !stop
        invariant Valid() && off <= carryLen == old(carryLen) && carry[..] == old(carry[..])
        invariant AllShaped(frames) && output == old(output) + Slices(frames)
        invariant all == Before(frames, Drain(Flac(), Ctl(), Left(off)))
        invariant stop ==> Step(Ctl(), Left(off)).Wait?
        invariant Grown()
        decreases carryLen - off, !stop
      {
        ghost var more := [];
        if !have {
          off, stop := HuntForHeader(off);
        } else {
          off, stop, more := HuntForFrame(off);
          BeforeBefore(frames, more, Drain(Flac(), Ctl(), Left(off)));
          SlicesConcat(frames, more);
          frames := frames + more;
        }
      }
      Waits(Ctl(), Left(off));
      NothingAfter(frames, State(Ctl(), Left(off)));
      KeepTail(off);
    }

    /** The payload's next bytes, behind what the carry holds. */
    method Append(es: seq<byte>, from: nat, take: nat)
      requires Valid() && carryLen + take <= CARRY_BYTES && from + take <= |es|
      modifies this`carryLen, carry
      ensures Valid() && carryLen == old(carryLen) + take
      ensures carry[..carryLen] == old(carry[..carryLen]) + es[from..from + take]
    {
      forall i | 0 <= i < take {
        carry[carryLen + i] := es[from + i];
      }
      carryLen := carryLen + take;
    }

    /** As much of the payload as fits, after dropping a carry that filled up without completing a frame. */
    method TakeIn(es: seq<byte>, at: nat) returns (end: nat)
      requires Valid() && at < |es|
      modifies this`carryLen, carry
      ensures Valid()
      ensures var room := MakeRoom(Flac(), old(Abs()));
              && end == at + Min(|es| - at, CARRY_BYTES - |room.carry|)
              && Ctl() == room.ctl && Left(0) == room.carry + es[at..end]
    {
      hide Lawful, Progresses;
      var space := CARRY_BYTES - carryLen;
      if space == 0 {
        carryLen := 0;
        space := CARRY_BYTES;
      }
      var take := Min(|es| - at, space);
      Append(es, at, take);
      end := at + take;
    }

    /** One round of the payload loop. */
    method Round(es: seq<byte>, at: nat) returns (end: nat, ghost frames: seq<Frame>)
      requires Valid() && at < |es|
      modifies this, carry, stage, mem
      ensures Valid() && Grown() && AllShaped(frames) && output == old(output) + Slices(frames)
      ensures var room := MakeRoom(Flac(), old(Abs()));
              && end == at + Min(|es| - at, CARRY_BYTES - |room.carry|)
              && Result(Abs(), frames) == Drain(Flac(), room.ctl, room.carry + es[at..end])
    {
      hide Drain, Lawful, Slices, Progresses, AllShaped, MakeRoom;
      end := TakeIn(es, at);
      frames := DecodeCarry();
    }

    lemma CarryFits()
      requires Valid()
      ensures carryLen <= CARRY_BYTES == carry.Length
    {
    }

    /** A payload of any size: the frames it completes go to the output stage, what is left stays in the carry. */
    method DecodePayload(es: seq<byte>) returns (ghost frames: seq<Frame>)
      requires Valid()
      modifies this, carry, stage, mem
      ensures Valid() && Grown() && AllShaped(frames) && output == old(output) + Slices(frames)
      ensures Result(Abs(), frames) == Feed(Flac(), old(Abs()), es)
    {
      hide Drain, Lawful, Before, Slices, Feed, MakeRoom, AllShaped, Valid;
      CarryFits();
      ghost var all := Feed(Flac(), Abs(), es);
      frames := [];
      NothingBefore(all);
      NoSlices();
      var at := 0;
      while at < |es|
        invariant Valid() && at <= |es| && Grown() && carryLen <= CARRY_BYTES == carry.Length
        invariant AllShaped(frames) && output == old(output) + Slices(frames)
        invariant all == Before(frames, Feed(Flac(), Abs(), es[at..]))
      {
        FeedStep(Flac(), Abs(), es, at);
        ghost var more;
        at, more := Round(es, at);
        CarryFits();
        BeforeBefore(frames, more, Feed(Flac(), Abs(), es[at..]));
        SlicesConcat(frames, more);
        frames := frames + more;
      }
      assert es[at..] == [];
      FedAll(Flac(), Abs());
      NothingAfter(frames, Abs());
    }

    method KeepTail(off: nat)
      requires Valid() && off <= carryLen
      modifies this`carryLen, carry
      ensures Valid() && carryLen == old(carryLen) - off && carry[..carryLen] == old(Left(off))
    {
      if off > 0 {
        var n := carryLen - off;
        forall i | 0 <= i < n {
          carry[i] := carry[off + i];
        }
        carryLen := n;
      }
    }
  }

  predicate AreDistinct(mem: seq<array<int32>>, cap: nat) {
    && (forall c :: 0 <= c < |mem| ==> mem[c].Length == cap)
    && (forall c, d :: 0 <= c < d < |mem| ==> mem[c] != mem[d])
  }

  /** A plane for each of the stream's channels; the others share the scratch plane, the last one. */
  function PlanesFor(mem: seq<array<int32>>, channels: nat): (planes: seq<array<int32>>)
    requires channels < |mem|
    ensures |planes| == MAX_CHANNELS
    ensures forall c :: 0 <= c < MAX_CHANNELS ==> planes[c] in mem
  {
    seq(MAX_CHANNELS, c requires 0 <= c => if c < channels then mem[c] else mem[|mem| - 1])
  }
}
