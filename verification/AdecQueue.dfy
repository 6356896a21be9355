/**
 The two buffers of source/audio/adec.cpp: the queue of compressed packets, which drops its oldest when it is full, and
 the ring of decoded frames, which drops what does not fit.  Both are circular arrays, proved against sequences.
 */
module AdecQueue {
  import opened Basics

  const SLOTS := 2048
  const SLOT_BYTES := 3072
  const RING_FRAMES := 0x1_0000

  // ---- a circular array as a sequence ---------------------------------------------------------------------

  function Wrap(i: nat, cap: nat): nat { if i >= cap then i - cap else i }

  function Circle<T>(a: seq<T>, rd: nat, n: nat): (s: seq<T>)
    requires rd < |a| && n <= |a|
    ensures |s| == n
  {
    seq(n, i requires 0 <= i < n => a[Wrap(rd + i, |a|)])
  }

  lemma WrapIsMod(i: nat, cap: nat)
    requires 0 < cap && i < 2 * cap
    ensures i % cap == Wrap(i, cap) < cap
  {
  }

  /** Writing behind the last element appends. */
  lemma CircleAppends<T>(a: seq<T>, b: seq<T>, rd: nat, n: nat, x: T)
    requires rd < |a| == |b| && n < |a|
    requires b == a[Wrap(rd + n, |a|) := x]
    ensures Circle(b, rd, n + 1) == Circle(a, rd, n) + [x]
  {
    var s, t := Circle(b, rd, n + 1), Circle(a, rd, n) + [x];
    forall i | 0 <= i < n + 1
      ensures s[i] == t[i]
    {
      assert s[i] == b[Wrap(rd + i, |a|)];
      assert i < n ==> t[i] == a[Wrap(rd + i, |a|)] && Wrap(rd + i, |a|) != Wrap(rd + n, |a|);
    }
    assert s == t;
  }

  /** Moving the front on removes the first. */
  lemma CircleDrops<T>(a: seq<T>, rd: nat, n: nat)
    requires rd < |a| && 0 < n <= |a|
    ensures Circle(a, rd, n)[0] == a[rd] && Wrap(rd + 1, |a|) < |a|
    ensures Circle(a, Wrap(rd + 1, |a|), n - 1) == Circle(a, rd, n)[1..]
  {
    var q := Circle(a, rd, n);
    var s, t := Circle(a, Wrap(rd + 1, |a|), n - 1), q[1..];
    assert q[0] == a[Wrap(rd + 0, |a|)];
    forall i | 0 <= i < n - 1
      ensures s[i] == t[i]
    {
      assert s[i] == a[Wrap(Wrap(rd + 1, |a|) + i, |a|)];
      assert t[i] == q[i + 1] == a[Wrap(rd + (i + 1), |a|)];
    }
    assert s == t;
  }

  // ---- the packet queue ---------------------------------------------------------------------------------------

  /** A packet that does not fit a slot is split; all but its first part are continuations. */
  datatype Chunk = Chunk(data: seq<byte>, cont: bool)

  function Enqueue<T>(q: seq<T>, x: T): (r: seq<T>)
    ensures |q| <= SLOTS ==> |r| <= SLOTS
  {
    (if |q| >= SLOTS then q[1..] else q) + [x]
  }

  function EnqueueAll<T>(q: seq<T>, xs: seq<T>): (r: seq<T>)
    ensures |q| <= SLOTS ==> |r| <= SLOTS
    decreases |xs|
  {
    if xs == [] then q else EnqueueAll(Enqueue(q, xs[0]), xs[1..])
  }

  function Split(pes: seq<byte>, cont: bool): seq<Chunk>
    decreases |pes|
  {
    if pes == [] then []
    else
      var take := Min(|pes|, SLOT_BYTES);
      [Chunk(pes[..take], cont)] + Split(pes[take..], true)
  }

  class PesQueue {
    const slot: array<seq<byte>>
    const slotCont: array<bool>
    var rd: nat
    var wr: nat
    var n: nat

    ghost predicate Valid()
      reads this
    {
      && slot.Length == slotCont.Length == SLOTS
      && rd < SLOTS && n <= SLOTS && wr == Wrap(rd + n, SLOTS)
    }

    ghost function Contents(): (q: seq<Chunk>)
      requires Valid()
      reads this, slot, slotCont
      ensures |q| == n
    {
      Chunks(Circle(slot[..], rd, n), Circle(slotCont[..], rd, n))
    }

    constructor ()
      ensures Valid() && Contents() == [] && fresh(slot) && fresh(slotCont)
    {
      slot, slotCont := new seq<byte>[SLOTS], new bool[SLOTS];
      rd, wr, n := 0, 0, 0;
    }

    /** One chunk; the oldest goes when there is no free slot. */
    method EnqueueChunk(buf: seq<byte>, cont: bool)
      requires Valid()
      modifies this, slot, slotCont
      ensures Valid() && Contents() == Enqueue(old(Contents()), Chunk(buf, cont))
    {
      ghost var q := Contents();
      if n >= SLOTS {
        DropFirst();
      }
      CircleAppends(slot[..], slot[..][wr := buf], rd, n, buf);
      CircleAppends(slotCont[..], slotCont[..][wr := cont], rd, n, cont);
      ChunksAppend(Circle(slot[..], rd, n), Circle(slotCont[..], rd, n), buf, cont);
      slot[wr], slotCont[wr] := buf, cont;
      WrapIsMod(wr + 1, SLOTS);
      wr := (wr + 1) % SLOTS;
      n := n + 1;
    }

    method DropFirst()
      requires Valid() && n > 0
      modifies this`rd, this`n
      ensures Valid() && n == old(n) - 1 && Contents() == old(Contents())[1..]
    {
      CircleDrops(slot[..], rd, n);
      CircleDrops(slotCont[..], rd, n);
      ChunksDrop(Circle(slot[..], rd, n), Circle(slotCont[..], rd, n));
      WrapIsMod(rd + 1, SLOTS);
      rd := (rd + 1) % SLOTS;
      n := n - 1;
    }

    /** A packet, in as many chunks as it takes. */
    method PushPes(pes: seq<byte>)
      requires Valid()
      modifies this, slot, slotCont
      ensures Valid() && Contents() == EnqueueAll(old(Contents()), Split(pes, false))
    {
      var at, cont := 0, false;
      ghost var all := EnqueueAll(Contents(), Split(pes, false));
      assert pes[0..] == pes;
      while at < |pes|
        invariant Valid() && at <= |pes|
        invariant all == EnqueueAll(Contents(), Split(pes[at..], cont))
      {
        var take := Min(|pes| - at, SLOT_BYTES);
        assert pes[at..][..take] == pes[at..at + take] && pes[at..][take..] == pes[at + take..];
        EnqueueChunk(pes[at..at + take], cont);
        at, cont := at + take, true;
      }
      assert pes[at..] == [];
    }

    /** The oldest chunk, for the decode thread. */
    method Pop() returns (c: Option<Chunk>)
      requires Valid()
      modifies this
      ensures Valid()
      ensures var q := old(Contents());
              if q == [] then c == None && Contents() == [] else c == Some(q[0]) && Contents() == q[1..]
    {
      if n == 0 {
        return None;
      }
      CircleDrops(slot[..], rd, n);
      CircleDrops(slotCont[..], rd, n);
      c := Some(Chunk(slot[rd], slotCont[rd]));
      DropFirst();
    }

    /** The part of a flush that concerns the queue. */
    method Clear()
      requires Valid()
      modifies this, slotCont
      ensures Valid() && Contents() == []
    {
      rd, wr, n := 0, 0, 0;
      forall i | 0 <= i < slotCont.Length {
        slotCont[i] := false;
      }
    }
  }

  function Chunks(data: seq<seq<byte>>, cont: seq<bool>): (q: seq<Chunk>)
    requires |data| == |cont|
    ensures |q| == |data|
  {
    seq(|data|, i requires 0 <= i < |data| => Chunk(data[i], cont[i]))
  }

  lemma ChunksAppend(data: seq<seq<byte>>, cont: seq<bool>, x: seq<byte>, c: bool)
    requires |data| == |cont|
    ensures Chunks(data + [x], cont + [c]) == Chunks(data, cont) + [Chunk(x, c)]
  {
  }

  lemma ChunksDrop(data: seq<seq<byte>>, cont: seq<bool>)
    requires |data| == |cont| > 0
    ensures Chunks(data[1..], cont[1..]) == Chunks(data, cont)[1..]
    ensures Chunks(data, cont)[0] == Chunk(data[0], cont[0])
  {
  }

  // ---- the queue over a run --------------------------------------------------------------------------------------

  datatype Op<+T> = Put(x: T) | Get

  /** What happened: all that was put in and taken out, and for each that has left the queue, whether it was taken. */
  datatype Run<+T> = Run(queue: seq<T>, put: seq<T>, got: seq<T>, taken: seq<bool>)

  function Next<T>(r: Run<T>, op: Op<T>): Run<T> {
    match op
    case Put(x) =>
      Run(Enqueue(r.queue, x), r.put + [x], r.got, if |r.queue| >= SLOTS then r.taken + [false] else r.taken)
    case Get =>
      if r.queue == [] then r else Run(r.queue[1..], r.put, r.got + [r.queue[0]], r.taken + [true])
  }

  function Ran<T>(ops: seq<Op<T>>): Run<T> {
    if ops == [] then Run([], [], [], []) else Next(Ran(ops[..|ops| - 1]), ops[|ops| - 1])
  }

  /** The elements that were taken. */
  function Taken<T>(xs: seq<T>, taken: seq<bool>): seq<T>
    requires |taken| <= |xs|
  {
    if taken == [] then []
    else
      var k := |taken| - 1;
      Taken(xs, taken[..k]) + if taken[k] then [xs[k]] else []
  }

  lemma {:induction false} TakenOfLonger<T>(xs: seq<T>, x: T, taken: seq<bool>)
    requires |taken| <= |xs|
    ensures Taken(xs + [x], taken) == Taken(xs, taken)
    decreases |taken|
  {
    if taken != [] {
      TakenOfLonger(xs, x, taken[..|taken| - 1]);
    }
  }

  lemma {:induction false} TakenOneMore<T>(xs: seq<T>, taken: seq<bool>, t: bool)
    requires |taken| < |xs|
    ensures Taken(xs, taken + [t]) == Taken(xs, taken) + if t then [xs[|taken|]] else []
  {
    assert (taken + [t])[..|taken|] == taken;
  }

  /**
   Over every run the queue is what was put in last, without a gap; whatever left it, left in order, the oldest first,
   either taken or lost; and what was taken came out in the order it went in.
   */
  lemma {:induction false} QueueHoldsASuffix<T>(ops: seq<Op<T>>)
    ensures HoldsASuffix(Ran(ops))
    decreases |ops|
  {
    if ops != [] {
      hide Next, HoldsASuffix;
      QueueHoldsASuffix(ops[..|ops| - 1]);
      NextHoldsASuffix(Ran(ops[..|ops| - 1]), ops[|ops| - 1]);
    }
  }

  /** What is queued are the last elements put, and what came out are those that were taken of the ones before. */
  predicate HoldsASuffix<T(==)>(r: Run<T>) {
    && |r.taken| <= |r.put| && |r.queue| <= SLOTS
    && r.queue == r.put[|r.taken|..]
    && r.got == Taken(r.put, r.taken)
  }

  lemma NextHoldsASuffix<T>(prev: Run<T>, op: Op<T>)
    requires HoldsASuffix(prev)
    ensures HoldsASuffix(Next(prev, op))
  {
    hide Taken;
    match op
    case Put(x) =>
      TakenOfLonger(prev.put, x, prev.taken);
      if |prev.queue| >= SLOTS {
        TakenOneMore(prev.put + [x], prev.taken, false);
      }
    case Get =>
      if prev.queue != [] {
        TakenOneMore(prev.put, prev.taken, true);
      }
  }

  /** An element is lost only when another is put into a full queue, and then it is the oldest one. */
  lemma LossIsOldestFirst<T>(ops: seq<Op<T>>, op: Op<T>)
    ensures var r, s := Ran(ops), Ran(ops + [op]);
            |s.taken| > |r.taken| && !s.taken[|r.taken|] ==>
              op.Put? && |r.queue| == 2048 && |r.taken| < |r.put| && s.queue == r.queue[1..] + [op.x]
              && r.queue[0] == r.put[|r.taken|]
  {
    QueueHoldsASuffix(ops);
    assert (ops + [op])[..|ops|] == ops;
  }

  /** What was not lost in between comes out together. */
  lemma {:induction false} TakenTogether<T>(xs: seq<T>, taken: seq<bool>, i: nat, j: nat)
    requires i <= j <= |taken| <= |xs|
    requires forall k :: i <= k < j ==> taken[k]
    ensures Taken(xs, taken[..j]) == Taken(xs, taken[..i]) + xs[i..j]
    decreases j
  {
    if i < j {
      TakenTogether(xs, taken, i, j - 1);
      assert taken[..j][..j - 1] == taken[..j - 1];
      assert xs[i..j] == xs[i..j - 1] + [xs[j - 1]];
    }
  }

  // ---- packets and their chunks -------------------------------------------------------------------------------------

  function Bytes(chunks: seq<Chunk>): seq<byte> {
    if chunks == [] then [] else chunks[0].data + Bytes(chunks[1..])
  }

  /** The chunks of a packet together are the packet; each fits a slot; only the first is not a continuation. */
  lemma {:induction false} ChunksAreThePacket(pes: seq<byte>, cont: bool)
    ensures var cs := Split(pes, cont);
            && Bytes(cs) == pes
            && (forall i :: 0 <= i < |cs| ==> 0 < |cs[i].data| <= 3072 && cs[i].cont == (cont || i > 0))
            && |cs| == (|pes| + 3071) / 3072
    decreases |pes|
  {
    if pes != [] {
      var take := Min(|pes|, SLOT_BYTES);
      var rest := Split(pes[take..], true);
      ChunksAreThePacket(pes[take..], true);
      TailOf(Chunk(pes[..take], cont), rest);
      assert pes[..take] + pes[take..] == pes;
    }
  }

  function AllChunks(packets: seq<seq<byte>>): seq<Chunk> {
    if packets == [] then [] else AllChunks(packets[..|packets| - 1]) + Split(packets[|packets| - 1], false)
  }

  /** Packets put together again from a row of chunks: a continuation belongs to the packet before it. */
  function Joined(chunks: seq<Chunk>): seq<seq<byte>> {
    if chunks == [] then []
    else
      var c, rest := chunks[|chunks| - 1], Joined(chunks[..|chunks| - 1]);
      if c.cont && rest != [] then rest[..|rest| - 1] + [rest[|rest| - 1] + c.data] else rest + [c.data]
  }

  lemma {:induction false} JoinedContinues(before: seq<Chunk>, cs: seq<Chunk>)
    requires Joined(before) != [] && forall i :: 0 <= i < |cs| ==> cs[i].cont
    ensures var b := Joined(before);
            Joined(before + cs) == b[..|b| - 1] + [b[|b| - 1] + Bytes(cs)]
    decreases |cs|
  {
    var b := Joined(before);
    if cs == [] {
      assert before + cs == before;
      assert b[|b| - 1] + [] == b[|b| - 1];
    } else {
      var mid := before + [cs[0]];
      assert mid[..|mid| - 1] == before;
      var m := Joined(mid);
      assert m[..|m| - 1] == b[..|b| - 1];
      JoinedContinues(mid, cs[1..]);
      assert before + cs == mid + cs[1..];
      assert b[|b| - 1] + cs[0].data + Bytes(cs[1..]) == b[|b| - 1] + (cs[0].data + Bytes(cs[1..]));
    }
  }

  lemma JoinedStarts(before: seq<Chunk>, c: Chunk)
    requires !c.cont
    ensures Joined(before + [c]) == Joined(before) + [c.data]
  {
    assert (before + [c])[..|before|] == before;
  }

  lemma BytesOf(cs: seq<Chunk>)
    requires cs != []
    ensures Bytes(cs) == cs[0].data + Bytes(cs[1..])
  {
  }

  lemma SplitSome(pes: seq<byte>)
    requires pes != []
    ensures Split(pes, false) != []
  {
  }

  lemma FirstApart<T>(a: seq<T>, b: seq<T>)
    requires b != []
    ensures a + b == (a + [b[0]]) + b[1..]
  {
  }

  lemma JoinedNext(before: seq<Chunk>, pes: seq<byte>)
    requires pes != []
    ensures Joined(before + Split(pes, false)) == Joined(before) + [pes]
  {
    hide *;
    var cs, j := Split(pes, false), Joined(before);
    ChunksAreThePacket(pes, false);
    SplitSome(pes);
    FirstApart(before, cs);
    JoinedStarts(before, cs[0]);
    BytesOf(cs);
    JoinedContinues(before + [cs[0]], cs[1..]);
    assert (j + [cs[0].data])[..|j|] == j;
  }

  /** A row of packets without a loss is put together again packet by packet, whatever their sizes. */
  lemma {:induction false} PacketsComeBack(packets: seq<seq<byte>>)
    requires forall i :: 0 <= i < |packets| ==> packets[i] != []
    ensures Joined(AllChunks(packets)) == packets
    decreases |packets|
  {
    if packets != [] {
      var k := |packets| - 1;
      PacketsComeBack(packets[..k]);
      JoinedNext(AllChunks(packets[..k]), packets[k]);
      assert packets[..k] + [packets[k]] == packets;
    }
  }

  lemma {:induction false} AllTaken<T>(xs: seq<T>, taken: seq<bool>)
    requires |taken| <= |xs| && forall k :: 0 <= k < |taken| ==> taken[k]
    ensures Taken(xs, taken) == xs[..|taken|]
  {
    TakenTogether(xs, taken, 0, |taken|);
    assert taken[..|taken|] == taken && taken[..0] == [];
  }

  /** Packets of any size, over a run that lost nothing: what was taken and what waits are those packets. */
  lemma NothingLostIsWhole(ops: seq<Op<Chunk>>, packets: seq<seq<byte>>)
    requires forall i :: 0 <= i < |packets| ==> packets[i] != []
    requires Ran(ops).put == AllChunks(packets)
    requires forall k :: 0 <= k < |Ran(ops).taken| ==> Ran(ops).taken[k]
    ensures Joined(Ran(ops).got + Ran(ops).queue) == packets
  {
    hide Ran, Joined, AllChunks;
    var r := Ran(ops);
    QueueHoldsASuffix(ops);
    AllTaken(r.put, r.taken);
    assert r.put[..|r.taken|] + r.put[|r.taken|..] == r.put;
    PacketsComeBack(packets);
  }

  // ---- the ring of decoded frames --------------------------------------------------------------------------------

  /** What a push accepts: as many frames as there is room for. */
  function Accepted<F>(ring: seq<F>, frames: seq<F>): (a: seq<F>)
    requires |ring| <= 65536
    ensures a <= frames && |ring + a| <= 65536
    ensures a == frames || |ring + a| == 65536
  {
    frames[..Min(|frames|, 65536 - |ring|)]
  }

  /** How long n frames last at 48 kHz, in microseconds. */
  function Micros(n: nat): nat { n * 1_000_000 / 48_000 }

  /** A position in microseconds, so many frames on. */
  function Later(pts: nat, frames: nat): nat { (pts + Micros(frames)) % 0x1_0000_0000_0000_0000 }

  /** The position after batches of so many frames each. */
  function Advanced(pts: nat, batches: seq<nat>): nat {
    if batches == [] then pts else Later(Advanced(pts, batches[..|batches| - 1]), batches[|batches| - 1])
  }

  function Total(batches: seq<nat>): nat {
    if batches == [] then 0 else Total(batches[..|batches| - 1]) + batches[|batches| - 1]
  }

  /**
   A position is that of the frames at 48 kHz, but that every batch is rounded down: it is never ahead, and behind by
   less than a microsecond for each batch.
   */
  lemma {:induction false} DriftIsBounded(pts: nat, batches: seq<nat>) returns (us: nat)
    requires pts < 0x1_0000_0000_0000_0000
    ensures Advanced(pts, batches) == (pts + us) % 0x1_0000_0000_0000_0000
    ensures 48_000 * us <= 1_000_000 * Total(batches) <= 48_000 * us + 47_999 * |batches|
    decreases |batches|
  {
    if batches == [] {
      us := 0;
    } else {
      var n := batches[|batches| - 1];
      hide Later;
      us := DriftIsBounded(pts, batches[..|batches| - 1]);
      RoundsOneDown(n);
      LaterOn(pts, us, n);
      us := us + Micros(n);
    }
  }

  lemma RoundsOneDown(n: nat)
    ensures 48_000 * Micros(n) <= 1_000_000 * n <= 48_000 * Micros(n) + 47_999
  {
  }

  lemma LaterOn(pts: nat, us: nat, n: nat)
    ensures Later((pts + us) % 0x1_0000_0000_0000_0000, n) == (pts + (us + Micros(n))) % 0x1_0000_0000_0000_0000
  {
    WrapsTwice(pts + us, Micros(n));
  }

  lemma WrapsTwice(a: nat, b: nat)
    ensures (a % 0x1_0000_0000_0000_0000 + b) % 0x1_0000_0000_0000_0000 == (a + b) % 0x1_0000_0000_0000_0000
  {
  }

  lemma OneMovesOver<T>(a: seq<T>, b: seq<T>)
    requires b != []
    ensures a + b == (a + [b[0]]) + b[1..]
  {
  }

  class PcmRing<F(0)> {
    const ring: array<F>
    var rd: nat
    var wr: nat
    var n: nat
    var writePts: nat
    var readPts: nat

    ghost predicate Valid()
      reads this
    {
      ring.Length == RING_FRAMES && rd < RING_FRAMES && n <= RING_FRAMES && wr == Wrap(rd + n, RING_FRAMES)
    }

    ghost function Contents(): (q: seq<F>)
      requires Valid()
      reads this, ring
      ensures |q| == n
    {
      Circle(ring[..], rd, n)
    }

    constructor ()
      ensures Valid() && Contents() == [] && fresh(ring) && writePts == 0 && readPts == 0
    {
      ring := new F[RING_FRAMES];
      rd, wr, n, writePts, readPts := 0, 0, 0, 0, 0;
    }

    /**
     Decoded frames, unless they belong to a position that was left; what does not fit is dropped, and counts for the
     position all the same.
     */
    method Push(frames: seq<F>, current: bool)
      requires Valid()
      modifies this`wr, this`n, this`writePts, ring
      ensures Valid() && writePts == if current then Later(old(writePts), |frames|) else old(writePts)
      ensures Contents() == old(Contents()) + if current then Accepted(old(Contents()), frames) else []
    {
      if !current {
        assert Contents() + [] == Contents();
        return;
      }
      ghost var was := Contents();
      var i := 0;
      assert was + frames[..0] == was;
      while i < |frames| && n < RING_FRAMES
        invariant Valid() && i <= |frames| && n == |was| + i
        invariant Contents() == was + frames[..i] && writePts == old(writePts)
      {
        CircleAppends(ring[..], ring[..][wr := frames[i]], rd, n, frames[i]);
        ring[wr] := frames[i];
        WrapIsMod(wr + 1, RING_FRAMES);
        wr := (wr + 1) % RING_FRAMES;
        n := n + 1;
        assert was + frames[..i] + [frames[i]] == was + frames[..i + 1];
        i := i + 1;
      }
      writePts := Later(writePts, |frames|);
    }

    /** Up to k frames, the oldest first. */
    method Read(k: nat) returns (frames: seq<F>)
      requires Valid()
      modifies this`rd, this`n, this`readPts
      ensures Valid() && readPts == if frames != [] then Later(old(readPts), |frames|) else old(readPts)
      ensures |frames| == Min(k, |old(Contents())|) && frames + Contents() == old(Contents())
    {
      frames := [];
      assert [] + Contents() == Contents();
      while |frames| < k && n > 0
        invariant Valid() && |frames| <= k && frames + Contents() == old(Contents()) && readPts == old(readPts)
        decreases n
      {
        ghost var q := Contents();
        var f := PopFrame();
        OneMovesOver(frames, q);
        frames := frames + [f];
      }
      if frames != [] {
        readPts := Later(readPts, |frames|);
      }
    }

    method PopFrame() returns (f: F)
      requires Valid() && n > 0
      modifies this`rd, this`n
      ensures Valid() && n == old(n) - 1 && f == old(Contents())[0] && Contents() == old(Contents())[1..]
    {
      CircleDrops(ring[..], rd, n);
      f := ring[rd];
      WrapIsMod(rd + 1, RING_FRAMES);
      rd := (rd + 1) % RING_FRAMES;
      n := n - 1;
    }

    /** The part of a flush that concerns the ring. */
    method Clear()
      requires Valid()
      modifies this
      ensures Valid() && Contents() == [] && writePts == 0 && readPts == 0
    {
      rd, wr, n, writePts, readPts := 0, 0, 0, 0, 0;
    }
  }

  datatype RingOp<+F> = Push(frames: seq<F>) | Read(k: nat)

  /** Over a run: the ring, all frames accepted, all frames read, and how many were offered and dropped. */
  datatype RingRun<+F> = RingRun(ring: seq<F>, accepted: seq<F>, read: seq<F>, offered: nat, dropped: nat)

  function RingNext<F>(r: RingRun<F>, op: RingOp<F>): RingRun<F>
    requires |r.ring| <= RING_FRAMES
  {
    match op
    case Push(frames) =>
      var a := Accepted(r.ring, frames);
      RingRun(r.ring + a, r.accepted + a, r.read, r.offered + |frames|, r.dropped + (|frames| - |a|))
    case Read(k) =>
      var m := Min(k, |r.ring|);
      RingRun(r.ring[m..], r.accepted, r.read + r.ring[..m], r.offered, r.dropped)
  }

  function RingRan<F>(ops: seq<RingOp<F>>): (r: RingRun<F>)
    ensures |r.ring| <= RING_FRAMES
  {
    if ops == [] then RingRun([], [], [], 0, 0) else RingNext(RingRan(ops[..|ops| - 1]), ops[|ops| - 1])
  }

  /** Frames are read in the order they were accepted, and every frame offered was read, is held, or did not fit. */
  lemma {:induction false} RingKeepsOrderAndCount<F>(ops: seq<RingOp<F>>)
    ensures var r := RingRan(ops);
            r.accepted == r.read + r.ring && r.offered == |r.read| + |r.ring| + r.dropped && |r.ring| <= 65536
    decreases |ops|
  {
    if ops != [] {
      RingKeepsOrderAndCount(ops[..|ops| - 1]);
      var r, op := RingRan(ops[..|ops| - 1]), ops[|ops| - 1];
      if op.Push? {
        var a := Accepted(r.ring, op.frames);
        assert r.read + (r.ring + a) == r.read + r.ring + a;
      } else {
        var m := Min(op.k, |r.ring|);
        assert r.read + r.ring[..m] + r.ring[m..] == r.read + r.ring;
      }
    }
  }
}
