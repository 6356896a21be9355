/**
 The seek barrier of source/audio/adec.cpp, as the steps that its threads interleave: the demux thread queues packets,
 the decode thread pops one, stamps it, waits, decodes and pushes frames, a reader takes frames, and a flush empties
 the queue under one lock and the ring under another.  A flush generation of 32 bits tells what to drop.

 What runs under a lock is one step, but for the decode thread's push, during which a flush can begin.
 */
module AdecFlush {
  import opened Basics
  import opened AdecQueue

  const WORD := 0x1_0000_0000

  /** A packet, with the number of flushes begun when it was queued. */
  datatype Packet<+P> = Packet(data: P, epoch: nat)

  /** A frame, with the number of flushes begun when the packet it was decoded from was popped. */
  datatype Tagged<+F> = Tagged(frame: F, epoch: nat)

  /** Where the decode thread is, with the packet it holds. */
  datatype Pc<+P, +F> =
    | Idle
    | Holding(packet: Packet<P>, popped: nat)                        // popped, perhaps waiting for the ring to drain
    | Decoding(packet: Packet<P>, popped: nat)
    | Locked(packet: Packet<P>, popped: nat, frames: seq<F>)         // in a push: has the ring's lock
    | Writing(packet: Packet<P>, popped: nat, frames: seq<F>)        // found its generation current

  /**
   `flushGen` and `decodeGen` are the program's words.  The rest of what is not the program's is for the statements
   only: `epoch` counts the flushes begun, `pending` those that have not emptied the ring yet, `cleared` is the epoch in
   which the ring was last emptied, `read` all that was read.
   */
  datatype State<+P, +F> = State(
    flushGen: nat, decodeGen: nat, queue: seq<Packet<P>>, ring: seq<Tagged<F>>, pc: Pc<P, F>,
    epoch: nat, pending: nat, cleared: nat, read: seq<Tagged<F>>)

  datatype Action<+P, +F> =
    | PushPes(chunks: seq<P>)        // the demux thread queues a packet, in chunks
    | Pop                            // the decode thread takes the oldest and stamps it
    | GiveUp                         // it finds that a flush has begun since
    | Decode                         // it finds none
    | LockRing(frames: seq<F>)       // it has decoded frames to push
    | FindStale                      // a flush has begun since: they are dropped
    | FindCurrent
    | Write                          // one frame into the ring, if there is room
    | Unlock
    | Finish
    | Read(k: nat)
    | FlushQueue                     // a flush's first section
    | FlushRing                      // and its second

  function Start<P, F>(): State<P, F> { State(0, 0, [], [], Idle, 0, 0, 0, []) }

  predicate RingFree<P, F>(s: State<P, F>) { !s.pc.Locked? && !s.pc.Writing? }

  predicate Current<P, F>(s: State<P, F>) { s.decodeGen == s.flushGen }

  function QueueUp<P>(q: seq<Packet<P>>, chunks: seq<P>, epoch: nat): seq<Packet<P>> {
    EnqueueAll(q, seq(|chunks|, i requires 0 <= i < |chunks| => Packet(chunks[i], epoch)))
  }

  /** What an action does where it is possible. */
  function Do<P, F>(s: State<P, F>, a: Action<P, F>): Option<State<P, F>> {
    match a
    case PushPes(chunks) => Some(s.(queue := QueueUp(s.queue, chunks, s.epoch)))
    case Pop =>
      if s.pc.Idle? && s.queue != [] then
        Some(s.(pc := Holding(s.queue[0], s.epoch), queue := s.queue[1..], decodeGen := s.flushGen))
      else None
    case GiveUp => if s.pc.Holding? && !Current(s) then Some(s.(pc := Idle)) else None
    case Decode => if s.pc.Holding? && Current(s) then Some(s.(pc := Decoding(s.pc.packet, s.pc.popped))) else None
    case LockRing(frames) =>
      if s.pc.Decoding? then Some(s.(pc := Locked(s.pc.packet, s.pc.popped, frames))) else None
    case FindStale =>
      if s.pc.Locked? && !Current(s) then Some(s.(pc := Decoding(s.pc.packet, s.pc.popped))) else None
    case FindCurrent =>
      if s.pc.Locked? && Current(s) then Some(s.(pc := Writing(s.pc.packet, s.pc.popped, s.pc.frames))) else None
    case Write =>
      if s.pc.Writing? && s.pc.frames != [] && |s.ring| < RING_FRAMES then
        Some(s.(ring := s.ring + [Tagged(s.pc.frames[0], s.pc.popped)],
                pc := Writing(s.pc.packet, s.pc.popped, s.pc.frames[1..])))
      else None
    case Unlock =>
      if s.pc.Writing? && (s.pc.frames == [] || |s.ring| >= RING_FRAMES) then
        Some(s.(pc := Decoding(s.pc.packet, s.pc.popped)))
      else None
    case Finish => if s.pc.Decoding? then Some(s.(pc := Idle)) else None
    case Read(k) =>
      if RingFree(s) then
        var n := if k < |s.ring| then k else |s.ring|;
        Some(s.(ring := s.ring[n..], read := s.read + s.ring[..n]))
      else None
    case FlushQueue =>
      Some(s.(flushGen := (s.flushGen + 1) % WORD, queue := [], epoch := s.epoch + 1, pending := s.pending + 1))
    case FlushRing =>
      if s.pending > 0 && RingFree(s) then Some(s.(ring := [], pending := s.pending - 1, cleared := s.epoch)) else None
  }

  /** A run from one state to another; none when an action is not possible where it stands. */
  ghost predicate Runs<P, F>(s: State<P, F>, acts: seq<Action<P, F>>, t: State<P, F>)
    decreases |acts|
  {
    if acts == [] then s == t
    else Do(s, acts[0]).Some? && Runs(Do(s, acts[0]).value, acts[1..], t)
  }

  /**
   The check finds the packet current although the ring has been emptied for a flush since it was popped: the number of
   flushes begun since is a multiple of 2^32.
   */
  predicate Wraps<P, F>(s: State<P, F>) {
    s.pc.Locked? && s.pc.popped < s.cleared && (s.epoch - s.pc.popped) % WORD == 0
  }

  /** No check on the way does. */
  predicate NeverWraps<P, F>(s: State<P, F>, acts: seq<Action<P, F>>)
    decreases |acts|
  {
    acts != [] ==>
      && (acts[0].FindCurrent? ==> !Wraps(s))
      && (Do(s, acts[0]).Some? ==> NeverWraps(Do(s, acts[0]).value, acts[1..]))
  }

  // ---- what every step keeps -----------------------------------------------------------------------------------

  /** The words say what the counts say, modulo 2^32; queued packets are of the current epoch. */
  predicate Stamped<P, F>(s: State<P, F>) {
    && s.flushGen == s.epoch % WORD
    && (forall i :: 0 <= i < |s.queue| ==> s.queue[i].epoch == s.epoch)
    && (!s.pc.Idle? ==>
          s.pc.popped <= s.epoch && s.decodeGen == s.pc.popped % WORD && s.pc.packet.epoch == s.pc.popped)
    && s.cleared <= s.epoch && (s.pending == 0 ==> s.cleared == s.epoch)
    && |s.ring| <= RING_FRAMES
  }

  /** Nothing in the ring, or about to be written to it, is older than the flush that last emptied the ring. */
  predicate Fresh<P, F>(s: State<P, F>) {
    && (forall i :: 0 <= i < |s.ring| ==> s.cleared <= s.ring[i].epoch <= s.epoch)
    && (s.pc.Writing? ==> s.cleared <= s.pc.popped)
  }

  /** Whether a packet counts as current is decided modulo 2^32, and that is all that is lost. */
  lemma CurrentExactly<P, F>(s: State<P, F>)
    requires Stamped(s) && !s.pc.Idle?
    ensures Current(s) <==> (s.epoch - s.pc.popped) % 0x1_0000_0000 == 0
    ensures s.epoch < s.pc.popped + 0x1_0000_0000 ==> (Current(s) <==> s.pc.popped == s.epoch)
  {
  }

  lemma {:induction false} QueuedNow<P>(q: seq<Packet<P>>, xs: seq<Packet<P>>, epoch: nat)
    requires forall i :: 0 <= i < |q| ==> q[i].epoch == epoch
    requires forall i :: 0 <= i < |xs| ==> xs[i].epoch == epoch
    ensures forall i :: 0 <= i < |EnqueueAll(q, xs)| ==> EnqueueAll(q, xs)[i].epoch == epoch
    decreases |xs|
  {
    if xs != [] {
      QueuedNow(Enqueue(q, xs[0]), xs[1..], epoch);
    }
  }

  lemma KeepsStamped<P, F>(s: State<P, F>, a: Action<P, F>)
    requires Stamped(s) && Do(s, a).Some?
    ensures Stamped(Do(s, a).value)
  {
    if a.PushPes? {
      var xs := seq(|a.chunks|, i requires 0 <= i < |a.chunks| => Packet(a.chunks[i], s.epoch));
      QueuedNow(s.queue, xs, s.epoch);
    }
  }

  /** Only a check that wraps lets an old frame through, and it always does. */
  lemma KeepsFresh<P, F>(s: State<P, F>, a: Action<P, F>)
    requires Stamped(s) && Fresh(s) && Do(s, a).Some?
    ensures Fresh(Do(s, a).value) <==> !(a.FindCurrent? && Wraps(s))
  {
    hide QueueUp;
    if a.FindCurrent? {
      CurrentExactly(s);
    }
  }

  /**
   Behind such a check the next write puts a frame into the ring that is older than the flush that last emptied it.
   */
  lemma WritesBehindAWrap<P, F>(s: State<P, F>)
    requires Stamped(s) && Wraps(s) && s.pc.frames != [] && |s.ring| < RING_FRAMES
    ensures var u := Do(s, FindCurrent);
            u.Some? && Do(u.value, Write).Some? &&
            var r := Do(u.value, Write).value.ring;
            r == s.ring + [Tagged(s.pc.frames[0], s.pc.popped)] && s.pc.popped < Do(u.value, Write).value.cleared
  {
    CurrentExactly(s);
  }

  /** What is read is not older than the last flush that was over by then. */
  lemma ReadsAreFresh<P, F>(s: State<P, F>, a: Action<P, F>)
    requires Stamped(s) && Fresh(s) && Do(s, a).Some?
    ensures var t := Do(s, a).value;
            && s.cleared <= t.cleared && s.epoch <= t.epoch && s.read <= t.read
            && forall i :: |s.read| <= i < |t.read| ==> s.cleared <= t.read[i].epoch
  {
    hide QueueUp;
  }

  // ---- whole runs --------------------------------------------------------------------------------------------------

  predicate Sound<P, F>(s: State<P, F>) { Stamped(s) && Fresh(s) }

  /** From a sound state every interleaving stays sound, and reads nothing older than the last flush that was over. */
  lemma {:induction false} RunsStaySound<P, F>(s: State<P, F>, acts: seq<Action<P, F>>, t: State<P, F>)
    requires Sound(s) && Runs(s, acts, t) && NeverWraps(s, acts)
    ensures Sound(t) && s.cleared <= t.cleared && s.epoch <= t.epoch && s.read <= t.read
    ensures forall i :: |s.read| <= i < |t.read| ==> s.cleared <= t.read[i].epoch
    decreases |acts|
  {
    if acts != [] {
      var u := Do(s, acts[0]).value;
      KeepsStamped(s, acts[0]);
      KeepsFresh(s, acts[0]);
      ReadsAreFresh(s, acts[0]);
      hide Do, Stamped, Fresh;
      RunsStaySound(u, acts[1..], t);
      forall i | |s.read| <= i < |t.read|
        ensures s.cleared <= t.read[i].epoch
      {
        assert i < |u.read| ==> t.read[i] == u.read[i];
      }
    }
  }

  /** Nothing old at any state of the run. */
  predicate AlwaysFresh<P, F>(s: State<P, F>, acts: seq<Action<P, F>>)
    decreases |acts|
  {
    Fresh(s) && (acts != [] && Do(s, acts[0]).Some? ==> AlwaysFresh(Do(s, acts[0]).value, acts[1..]))
  }

  /** In every interleaving, nothing old is ever in the ring or about to be written exactly if no check wraps. */
  lemma {:induction false} FreshExactly<P, F>(s: State<P, F>, acts: seq<Action<P, F>>, t: State<P, F>)
    requires Sound(s) && Runs(s, acts, t)
    ensures AlwaysFresh(s, acts) <==> NeverWraps(s, acts)
    decreases |acts|
  {
    if acts != [] {
      var u := Do(s, acts[0]).value;
      KeepsStamped(s, acts[0]);
      KeepsFresh(s, acts[0]);
      hide Do, Stamped, Fresh, Wraps;
      if Fresh(u) {
        FreshExactly(u, acts[1..], t);
      }
    }
  }

  /**
   No stale audio: in every interleaving, unless a flush is between its two sections, every frame in the ring was
   decoded from a packet that was both queued and popped in the current generation.
   */
  lemma NoStaleAudio<P, F>(acts: seq<Action<P, F>>, t: State<P, F>)
    requires Runs(Start(), acts, t) && NeverWraps(Start(), acts)
    ensures t.pending == 0 ==> forall i :: 0 <= i < |t.ring| ==> t.ring[i].epoch == t.epoch
    ensures forall i :: 0 <= i < |t.queue| ==> t.queue[i].epoch == t.epoch
    ensures !t.pc.Idle? ==> t.pc.packet.epoch == t.pc.popped
  {
    RunsStaySound(Start(), acts, t);
  }

  /**
   A flush is a barrier: whatever the threads, and other flushes, do while it runs and after it, nothing that was popped
   before it began is in the ring, or read, once it has returned.
   */
  lemma FlushIsABarrier<P, F>(before: seq<Action<P, F>>, s: State<P, F>, during: seq<Action<P, F>>, u: State<P, F>,
                              after: seq<Action<P, F>>, t: State<P, F>)
    requires Runs(Start(), before, s) && NeverWraps(Start(), before)
    requires var s1 := Do(s, FlushQueue).value; Runs(s1, during, u) && NeverWraps(s1, during)
    requires var u1 := Do(u, FlushRing); u1.Some? && Runs(u1.value, after, t) && NeverWraps(u1.value, after)
    ensures forall i :: 0 <= i < |t.ring| ==> t.ring[i].epoch > s.epoch
    ensures |u.read| <= |t.read| && forall i :: |u.read| <= i < |t.read| ==> t.read[i].epoch > s.epoch
  {
    hide *;
    StartIsSound<P, F>();
    RunsStaySound(Start(), before, s);
    FlushSections(s, u);
    var s1, u1 := Do(s, FlushQueue).value, Do(u, FlushRing).value;
    RunsStaySound(s1, during, u);
    FlushSections(u, u);
    RunsStaySound(u1, after, t);
    SoundRing(t);
  }

  lemma StartIsSound<P, F>()
    ensures Sound(Start<P, F>())
  {
  }

  lemma SoundRing<P, F>(t: State<P, F>)
    requires Sound(t)
    ensures forall i :: 0 <= i < |t.ring| ==> t.cleared <= t.ring[i].epoch
  {
  }

  /** What a flush's two sections do. */
  lemma FlushSections<P, F>(s: State<P, F>, u: State<P, F>)
    requires Sound(s)
    ensures var s1 := Do(s, FlushQueue); s1.Some? && Sound(s1.value) && s1.value.epoch == s.epoch + 1
    ensures Sound(u) && Do(u, FlushRing).Some? ==>
              var u1 := Do(u, FlushRing).value; Sound(u1) && u1.cleared == u.epoch && u1.read == u.read
  {
  }

  // ---- a run in which a check wraps -------------------------------------------------------------------------------

  /** n whole flushes. */
  function Flushes<P, F>(n: nat): seq<Action<P, F>> {
    if n == 0 then [] else [FlushQueue, FlushRing] + Flushes(n - 1)
  }

  lemma {:induction false} FlushesRun<P, F>(s: State<P, F>, n: nat, rest: seq<Action<P, F>>, t: State<P, F>)
    requires RingFree(s) && s.flushGen == s.epoch % WORD && s.pending == 0 && s.cleared == s.epoch
    requires s.queue == [] && s.ring == []
    requires Runs(s.(flushGen := (s.epoch + n) % WORD, epoch := s.epoch + n, cleared := s.epoch + n), rest, t)
    ensures Runs(s, Flushes(n) + rest, t)
    decreases n
  {
    hide Do, Runs;
    if n == 0 {
      assert Flushes<P, F>(0) + rest == rest;
    } else {
      var all := Flushes<P, F>(n) + rest;
      var s2 := s.(flushGen := (s.epoch + 1) % WORD, epoch := s.epoch + 1, cleared := s.epoch + 1);
      FlushesRun(s2, n - 1, rest, t);
      assert all[0] == FlushQueue && all[1..][0] == FlushRing && all[1..][1..] == Flushes<P, F>(n - 1) + rest;
      OneFlush(s, all, t);
    }
  }

  lemma OneFlush<P, F>(s: State<P, F>, acts: seq<Action<P, F>>, t: State<P, F>)
    requires RingFree(s) && s.flushGen == s.epoch % WORD && s.pending == 0 && s.queue == [] && s.ring == []
    requires |acts| >= 2 && acts[0] == FlushQueue && acts[1] == FlushRing
    requires Runs(s.(flushGen := (s.epoch + 1) % WORD, epoch := s.epoch + 1, cleared := s.epoch + 1), acts[2..], t)
    ensures Runs(s, acts, t)
  {
    var s1 := s.(flushGen := (s.epoch + 1) % WORD, epoch := s.epoch + 1, pending := 1);
    var s2 := s1.(pending := 0, cleared := s.epoch + 1);
    FlushOnce(s, s1, s2);
    assert acts[1..][1..] == acts[2..];
    hide Do;
    RunsStep(s1, acts[1..], s2, t);
    RunsStep(s, acts, s1, t);
  }

  lemma RunsStep<P, F>(s: State<P, F>, acts: seq<Action<P, F>>, u: State<P, F>, t: State<P, F>)
    requires acts != [] && Do(s, acts[0]) == Some(u) && Runs(u, acts[1..], t)
    ensures Runs(s, acts, t)
  {
    hide Do;
  }

  lemma FlushOnce<P, F>(s: State<P, F>, s1: State<P, F>, s2: State<P, F>)
    requires RingFree(s) && s.flushGen == s.epoch % WORD && s.pending == 0 && s.queue == [] && s.ring == []
    requires s1 == s.(flushGen := (s.epoch + 1) % WORD, epoch := s.epoch + 1, pending := 1)
    requires s2 == s1.(pending := 0, cleared := s.epoch + 1)
    ensures Do(s, FlushQueue) == Some(s1) && Do(s1, FlushRing) == Some(s2)
  {
    assert (s.epoch % WORD + 1) % WORD == (s.epoch + 1) % WORD;
  }

  /** With exactly 2^32 flushes while a packet is in flight, its audio is taken for current. */
  lemma StaleAfterAllGenerations<P, F>(x: P, f: F)
    ensures exists acts: seq<Action<P, F>>, t: State<P, F> ::
              Runs(Start(), acts, t) && t.pending == 0 && t.epoch == 0x1_0000_0000 && t.ring == [Tagged(f, 0)]
  {
    var held := Start<P, F>().(pc := Holding(Packet(x, 0), 0));
    var late := held.(epoch := WORD, cleared := WORD);
    var tail: seq<Action<P, F>> := [Decode, LockRing([f]), FindCurrent, Write];
    var d := late.(pc := Decoding(Packet(x, 0), 0));
    var l := late.(pc := Locked(Packet(x, 0), 0, [f]));
    var w := late.(pc := Writing(Packet(x, 0), 0, [f]));
    var t := late.(pc := Writing(Packet(x, 0), 0, []), ring := [Tagged(f, 0)]);
    assert Do(late, tail[0]) == Some(d) && Do(d, tail[1]) == Some(l) && Do(l, tail[2]) == Some(w);
    assert [f][1..] == [] && [] + [Tagged(f, 0)] == [Tagged(f, 0)];
    assert Do(w, tail[3]) == Some(t);
    RunsFour(late, tail, d, l, w, t);
    FlushesRun(held, WORD, tail, t);
    var acts: seq<Action<P, F>> := [PushPes([x]), Pop] + (Flushes(WORD) + tail);
    var s1 := Start<P, F>().(queue := [Packet(x, 0)]);
    QueuesOne(x);
    assert s1.queue[1..] == [];
    assert Do(Start(), acts[0]) == Some(s1) && Do(s1, acts[1]) == Some(held);
    assert acts[1..][1..] == Flushes(WORD) + tail;
    assert Runs(Start(), acts, t);
  }

  lemma QueuesOne<P>(x: P)
    ensures QueueUp([], [x], 0) == [Packet(x, 0)]
  {
    var xs := seq(1, i requires 0 <= i < 1 => Packet([x][i], 0));
    assert xs == [Packet(x, 0)];
    assert EnqueueAll<Packet<P>>([], xs) == EnqueueAll([xs[0]], xs[1..]);
  }

  lemma RunsFour<P, F>(s: State<P, F>, acts: seq<Action<P, F>>, a: State<P, F>, b: State<P, F>, c: State<P, F>,
                       t: State<P, F>)
    requires |acts| == 4 && Do(s, acts[0]) == Some(a) && Do(a, acts[1]) == Some(b)
    requires Do(b, acts[2]) == Some(c) && Do(c, acts[3]) == Some(t)
    ensures Runs(s, acts, t)
  {
    assert acts == [acts[0], acts[1], acts[2], acts[3]];
    hide Do, Runs;
    NoSteps(t);
    RunsFirst(c, acts[3], [], t, t);
    RunsFirst(b, acts[2], [acts[3]], c, t);
    RunsFirst(a, acts[1], [acts[2], acts[3]], b, t);
    RunsFirst(s, acts[0], [acts[1], acts[2], acts[3]], a, t);
  }

  lemma NoSteps<P, F>(t: State<P, F>)
    ensures Runs(t, [], t)
  {
  }

  lemma RunsFirst<P, F>(s: State<P, F>, act: Action<P, F>, rest: seq<Action<P, F>>, u: State<P, F>, t: State<P, F>)
    requires Do(s, act) == Some(u) && Runs(u, rest, t)
    ensures Runs(s, [act] + rest, t)
  {
    hide Do;
    assert ([act] + rest)[1..] == rest;
  }
}
