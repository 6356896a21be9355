/**
 The TrueHD reader of source/audio/truehd_stream.c: it hunts for a major sync, then goes from unit to unit by their
 length.  Four units in a row that the decoder rejects send it hunting again, but the count starts afresh whenever the
 carry is read, so only four within the 16384 bytes of one carry can count.  What is read depends on how the stream
 was cut exactly when the stream holds such four.
 */
module TruehdStream {
  import opened Basics
  import opened CarryLoop

  const CARRY_BYTES := 16384
  const MIN_UNIT := 8
  const MAX_UNIT := 8190
  const MAX_BAD_RUN := 4

  // ---- framing ------------------------------------------------------------------------------------------

  /** A major sync at offset 4; the word's last bit tells MLP from TrueHD and is not looked at. */
  predicate HasMajorSync(w: seq<byte>)
    requires |w| >= MIN_UNIT
  {
    w[4] == 0xF8 && w[5] == 0x72 && w[6] == 0x6F && w[7] / 2 == 0x5D
  }

  /** A unit's length: twelve bits, in words of two bytes. */
  function UnitLength(w: seq<byte>): (n: nat)
    requires |w| >= 2
    ensures n <= MAX_UNIT
  {
    var high: int, low: int := w[0], w[1];
    (high % 16 * 256 + low) * 2
  }

  // ---- the decoder, which is not modelled ---------------------------------------------------------------------

  datatype Format = Format(channels: int, rate: int, mask: nat)

  /** What a unit decodes to: so many samples, possibly none. */
  datatype Unit<+P> = Unit(samples: nat, format: Format, pcm: P)

  datatype Codec<!S, !P> = Codec(decode: (S, seq<byte>) -> (S, Option<Unit<P>>))

  /**
   `marks` tells, for each unit rejected since one was accepted, how many bytes ago it began, the earliest first.
   `tripped` is set once four of them in a row have sent the reader hunting.
   */
  datatype Control<S> = Control(
    dec: S, synced: bool, units: nat, badUnits: nat, resyncs: nat, first: Option<Format>,
    marks: seq<nat>, tripped: bool)

  function Aged(marks: seq<nat>, n: nat): seq<nat> { seq(|marks|, i requires 0 <= i < |marks| => marks[i] + n) }

  /** The last four began within what a carry can hold. */
  predicate FourInACarry(marks: seq<nat>) {
    |marks| >= 4 && marks[|marks| - 4] <= 16384
  }

  function Counted(n: nat): nat { (n + 1) % 0x1_0000_0000 }

  function Hunting<S>(c: Control<S>): Control<S> {
    c.(synced := false, resyncs := Counted(c.resyncs), marks := Aged(c.marks, 1))
  }

  function Skipped<S>(c: Control<S>): Control<S> { c.(resyncs := Counted(c.resyncs), marks := Aged(c.marks, 1)) }

  /** A carry that is full is dropped. */
  function Dropped<S>(c: Control<S>): Control<S> {
    c.(synced := false, resyncs := Counted(c.resyncs), marks := Aged(c.marks, CARRY_BYTES))
  }

  function Synced<S>(c: Control<S>): Control<S> { c.(synced := true) }

  function Rejected<S>(c: Control<S>, dec: S, n: nat): Control<S> {
    var bad := c.(dec := dec, badUnits := Counted(c.badUnits), marks := Aged(c.marks, n) + [n]);
    if FourInACarry(bad.marks) then bad.(synced := false, marks := [], tripped := true) else bad
  }

  function Accepted<S, P>(c: Control<S>, dec: S, u: Unit<P>): Control<S> {
    c.(dec := dec, units := Counted(c.units), marks := [],
       first := if u.samples > 0 && c.first.None? then Some(u.format) else c.first)
  }

  function Step<S, P>(k: Codec<S, P>, c: Control<S>, w: seq<byte>): Verdict<Control<S>, Unit<P>> {
    if |w| < MIN_UNIT then Wait
    else if !c.synced then
      if HasMajorSync(w) then Take(0, Synced(c), []) else Take(1, Skipped(c), [])
    else
      var n := UnitLength(w);
      if n < MIN_UNIT then Take(1, Hunting(c), [])
      else if |w| < n then Wait
      else
        var (dec, u) := k.decode(c.dec, w[..n]);
        if u.None? then Take(n, Rejected(c, dec, n), [])
        else Take(n, Accepted(c, dec, u.value), if u.value.samples > 0 then [u.value] else [])
  }

  function Rank<S>(c: Control<S>): nat { if c.synced then 0 else 1 }

  lemma StepProgresses<S, P>(k: Codec<S, P>, c: Control<S>, w: seq<byte>)
    requires Step(k, c, w).Take?
    ensures var t := Step(k, c, w); t.n <= |w| && (t.n == 0 ==> Rank(t.next) < Rank(c))
  {
  }

  lemma StepIsStable<S, P>(k: Codec<S, P>, c: Control<S>, w: seq<byte>, v: seq<byte>)
    requires w <= v && Step(k, c, w).Take?
    ensures Step(k, c, v) == Step(k, c, w)
  {
    if c.synced {
      var n := UnitLength(w);
      if n <= |w| {
        assert v[..n] == w[..n];
      }
    }
  }

  ghost predicate IsTruehd<S(!new), P>(m: Reader<Control<S>, Unit<P>>, k: Codec<S, P>) {
    && m.cap == CARRY_BYTES
    && (forall c, w :: m.step(c, w) == Step(k, c, w))
    && (forall c :: m.overflow(c) == Dropped(c))
  }

  /** The reader that remembers rejected units across calls. */
  ghost function Truehd<S(!new), P>(k: Codec<S, P>): (m: Reader<Control<S>, Unit<P>>)
    ensures Lawful(m) && Progresses(m) && IsTruehd(m, k)
  {
    var m := Reader((c, w) => Step(k, c, w), c => Rank(c), CARRY_BYTES, c => Dropped(c));
    TruehdLawful(m, k);
    m
  }

  lemma TruehdLawful<S(!new), P>(m: Reader<Control<S>, Unit<P>>, k: Codec<S, P>)
    requires m.cap > 0 && (forall c, w :: m.step(c, w) == Step(k, c, w)) && forall c :: m.rank(c) == Rank(c)
    ensures Lawful(m)
  {
    hide Step, Rank;
    forall c, w | m.step(c, w).Take?
      ensures m.step(c, w).n <= |w| && (m.step(c, w).n == 0 ==> m.rank(m.step(c, w).next) < m.rank(c))
    {
      StepProgresses(k, c, w);
    }
    forall c, w, v | w <= v && m.step(c, w).Take?
      ensures m.step(c, v) == m.step(c, w)
    {
      StepIsStable(k, c, w, v);
    }
  }

  // ---- the program counts rejected units within a call ------------------------------------------------------------

  /** What is left of the state when a call returns. */
  function Forget<S>(c: Control<S>): Control<S> { c.(marks := [], tripped := false) }

  function ForgetIn<S>(s: State<Control<S>>): State<Control<S>> { State(Forget(s.ctl), s.carry) }

  /** A payload, as the program takes it. */
  ghost function LocalFeed<S(!new), P>(k: Codec<S, P>, s: State<Control<S>>, payload: seq<byte>)
    : (r: Result<Control<S>, Unit<P>>)
    requires |s.carry| <= CARRY_BYTES
    ensures |r.state.carry| <= CARRY_BYTES
    decreases |payload|
  {
    if payload == [] then Result(s, [])
    else
      var m := Truehd(k);
      var s1 := MakeRoom(m, s);
      var take := Min(|payload|, CARRY_BYTES - |s1.carry|);
      var d := Drain(m, s1.ctl, s1.carry + payload[..take]);
      Before(d.out, LocalFeed(k, ForgetIn(d.state), payload[take..]))
  }

  ghost function LocalFeedAll<S(!new), P>(k: Codec<S, P>, s: State<Control<S>>, payloads: seq<seq<byte>>)
    : (r: Result<Control<S>, Unit<P>>)
    requires |s.carry| <= CARRY_BYTES
    ensures |r.state.carry| <= CARRY_BYTES
    decreases |payloads|
  {
    if payloads == [] then Result(s, [])
    else
      var a := LocalFeed(k, s, payloads[0]);
      Before(a.out, LocalFeedAll(k, a.state, payloads[1..]))
  }

  predicate IsSuffix<T(==)>(t: seq<T>, s: seq<T>) { |t| <= |s| && s[|s| - |t|..] == t }

  /** The same but for what is remembered of rejected units, where `d` may have forgotten the earlier ones. */
  predicate Alike<S(==)>(c: Control<S>, d: Control<S>) {
    Forget(c) == Forget(d) && IsSuffix(d.marks, c.marks)
  }

  lemma AgedSuffix(t: seq<nat>, s: seq<nat>, n: nat)
    requires IsSuffix(t, s)
    ensures IsSuffix(Aged(t, n), Aged(s, n)) && IsSuffix(Aged(t, n) + [n], Aged(s, n) + [n])
    ensures FourInACarry(Aged(t, n) + [n]) ==> FourInACarry(Aged(s, n) + [n])
  {
    assert forall i | 0 <= i < |t| :: s[|s| - |t|..][i] == t[i];
    assert Aged(s, n)[|s| - |t|..] == Aged(t, n);
    assert (Aged(s, n) + [n])[|s| - |t|..] == Aged(t, n) + [n];
  }

  lemma HuntsAlike<S>(c: Control<S>, d: Control<S>)
    requires Alike(c, d)
    ensures c.dec == d.dec && c.synced == d.synced
    ensures Alike(Hunting(c), Hunting(d)) && Alike(Skipped(c), Skipped(d)) && Alike(Synced(c), Synced(d))
    ensures Alike(Dropped(c), Dropped(d))
    ensures Hunting(c).tripped == Skipped(c).tripped == Synced(c).tripped == c.tripped
  {
    hide IsSuffix, Aged;
    assert d.dec == Forget(d).dec && c.dec == Forget(c).dec;
    AgedSuffix(d.marks, c.marks, 1);
    AgedSuffix(d.marks, c.marks, CARRY_BYTES);
  }

  lemma AcceptsAlike<S, P>(c: Control<S>, d: Control<S>, dec: S, u: Unit<P>)
    requires Alike(c, d)
    ensures Alike(Accepted(c, dec, u), Accepted(d, dec, u)) && Accepted(c, dec, u).tripped == c.tripped
  {
    assert d.first == Forget(d).first && c.first == Forget(c).first;
    assert d.units == Forget(d).units && c.units == Forget(c).units;
  }

  lemma RejectsAlike<S>(c: Control<S>, d: Control<S>, dec: S, n: nat)
    requires Alike(c, d)
    ensures Rejected(c, dec, n).tripped || Alike(Rejected(c, dec, n), Rejected(d, dec, n))
    ensures c.tripped ==> Rejected(c, dec, n).tripped
  {
    hide Aged, FourInACarry;
    assert d.badUnits == Forget(d).badUnits && c.badUnits == Forget(c).badUnits;
    AgedSuffix(d.marks, c.marks, n);
    IsSuffixOfAll(c.marks);
  }

  lemma StepsAlike<S, P>(k: Codec<S, P>, c: Control<S>, d: Control<S>, w: seq<byte>)
    requires Alike(c, d)
    ensures Step(k, c, w).Wait? <==> Step(k, d, w).Wait?
    ensures var t, u := Step(k, c, w), Step(k, d, w);
            t.Take? ==> t.n == u.n && t.out == u.out && (t.next.tripped || Alike(t.next, u.next))
    ensures Step(k, c, w).Take? && c.tripped ==> Step(k, c, w).next.tripped
  {
    hide Alike, Hunting, Skipped, Synced, Rejected, Accepted;
    HuntsAlike(c, d);
    if |w| >= MIN_UNIT && UnitLength(w) <= |w| {
      var n := UnitLength(w);
      var (dec, u) := k.decode(c.dec, w[..n]);
      RejectsAlike(c, d, dec, n);
      if u.Some? {
        AcceptsAlike(c, d, dec, u.value);
      }
    }
  }

  lemma IsSuffixOfAll(s: seq<nat>)
    ensures IsSuffix(s, s) && IsSuffix([], s)
  {
  }

  lemma {:induction false} DrainsAlike<S(!new), P>(k: Codec<S, P>, c: Control<S>, d: Control<S>, w: seq<byte>)
    requires Alike(c, d)
    ensures c.tripped ==> Drain(Truehd(k), c, w).state.ctl.tripped
    ensures !Drain(Truehd(k), c, w).state.ctl.tripped ==>
              var a, b := Drain(Truehd(k), c, w), Drain(Truehd(k), d, w);
              a.out == b.out && a.state.carry == b.state.carry && Alike(a.state.ctl, b.state.ctl)
    decreases |w|, Rank(c)
  {
    hide Step, Lawful, Progresses, Alike;
    StepsAlike(k, c, d, w);
    DrainsStep(k, c, w);
    DrainsStep(k, d, w);
    var t, u := Step(k, c, w), Step(k, d, w);
    if t.Take? {
      StepProgresses(k, c, w);
      if t.next.tripped {
        AlikeItself(t.next);
        DrainsAlike(k, t.next, t.next, w[t.n..]);
      } else {
        DrainsAlike(k, t.next, u.next, w[t.n..]);
      }
    }
  }

  lemma AlikeItself<S>(c: Control<S>)
    ensures Alike(c, c) && Alike(c, Forget(c))
  {
  }

  lemma DrainsStep<S(!new), P>(k: Codec<S, P>, c: Control<S>, w: seq<byte>)
    ensures Step(k, c, w).Wait? ==> Drain(Truehd(k), c, w) == Result(State(c, w), [])
    ensures Step(k, c, w).Take? ==>
              && Step(k, c, w).n <= |w|
              && Drain(Truehd(k), c, w)
              == Before(Step(k, c, w).out, Drain(Truehd(k), Step(k, c, w).next, w[Step(k, c, w).n..]))
  {
    hide Step, Lawful, Progresses;
    var m := Truehd(k);
    assert m.step(c, w) == Step(k, c, w);
    if m.step(c, w).Take? {
      DrainStep(m, c, w);
    }
  }

  /** What a call's result says, but for the count. */
  ghost predicate AlikeStates<S(!new)>(s: State<Control<S>>, t: State<Control<S>>) {
    s.carry == t.carry && Alike(s.ctl, t.ctl)
  }

  lemma RoomAlike<S(!new), P>(k: Codec<S, P>, s: State<Control<S>>, t: State<Control<S>>)
    requires AlikeStates(s, t) && |s.carry| <= CARRY_BYTES
    ensures AlikeStates(MakeRoom(Truehd(k), s), MakeRoom(Truehd(k), t))
    ensures |MakeRoom(Truehd(k), s).carry| < CARRY_BYTES
    ensures s.ctl.tripped ==> MakeRoom(Truehd(k), s).ctl.tripped
  {
    hide Lawful, Progresses;
    assert s.ctl.dec == Forget(s.ctl).dec && t.ctl.dec == Forget(t.ctl).dec;
    AgedSuffix(t.ctl.marks, s.ctl.marks, CARRY_BYTES);
  }

  lemma {:induction false} FeedsAlike<S(!new), P>(k: Codec<S, P>, s: State<Control<S>>, t: State<Control<S>>,
                                                  payload: seq<byte>)
    requires |s.carry| <= CARRY_BYTES && AlikeStates(s, t)
    ensures s.ctl.tripped ==> Feed(Truehd(k), s, payload).state.ctl.tripped
    ensures !Feed(Truehd(k), s, payload).state.ctl.tripped ==>
              var a, b := Feed(Truehd(k), s, payload), LocalFeed(k, t, payload);
              a.out == b.out && AlikeStates(a.state, b.state)
    decreases |payload|
  {
    hide Lawful, Progresses, Alike, Drain, MakeRoom, Feed, LocalFeed;
    if payload == [] {
      FedAll(Truehd(k), s);
      NothingToFeed(k, t);
    } else {
      var m := Truehd(k);
      RoomAlike(k, s, t);
      FeedUnfolds(m, s, payload);
      LocalFeedUnfolds(k, t, payload);
      var s1, t1 := MakeRoom(m, s), MakeRoom(m, t);
      var take := Min(|payload|, CARRY_BYTES - |s1.carry|);
      var w := s1.carry + payload[..take];
      DrainsAlike(k, s1.ctl, t1.ctl, w);
      var a, b := Drain(m, s1.ctl, w), Drain(m, t1.ctl, w);
      if a.state.ctl.tripped {
        AlikeItself(a.state.ctl);
        FeedsAlike(k, a.state, a.state, payload[take..]);
      } else {
        ForgettingIsAlike(a.state, b.state);
        FeedsAlike(k, a.state, ForgetIn(b.state), payload[take..]);
      }
    }
  }

  lemma ForgettingIsAlike<S(!new)>(s: State<Control<S>>, t: State<Control<S>>)
    requires AlikeStates(s, t)
    ensures AlikeStates(s, ForgetIn(t))
  {
  }

  lemma {:induction false} FeedAllsAlike<S(!new), P>(k: Codec<S, P>, s: State<Control<S>>, t: State<Control<S>>,
                                                     payloads: seq<seq<byte>>)
    requires |s.carry| <= CARRY_BYTES && AlikeStates(s, t)
    ensures s.ctl.tripped ==> FeedAll(Truehd(k), s, payloads).state.ctl.tripped
    ensures !FeedAll(Truehd(k), s, payloads).state.ctl.tripped ==>
              var a, b := FeedAll(Truehd(k), s, payloads), LocalFeedAll(k, t, payloads);
              a.out == b.out && AlikeStates(a.state, b.state)
    decreases |payloads|
  {
    hide Lawful, Progresses, Alike, Feed;
    if payloads != [] {
      FeedsAlike(k, s, t, payloads[0]);
      var a, b := Feed(Truehd(k), s, payloads[0]), LocalFeed(k, t, payloads[0]);
      if a.state.ctl.tripped {
        AlikeItself(a.state.ctl);
        FeedAllsAlike(k, a.state, a.state, payloads[1..]);
      } else {
        FeedAllsAlike(k, a.state, b.state, payloads[1..]);
      }
    }
  }

  /**
   Somewhere in the stream, read as one, four units are rejected with none accepted between them, and from the first
   byte of the first to the last of the fourth they take no more than a carry holds.
   */
  ghost predicate RejectsFour<S(!new), P>(k: Codec<S, P>, s: State<Control<S>>, stream: seq<byte>)
    requires |s.carry| <= CARRY_BYTES
  {
    Feed(Truehd(k), s, stream).state.ctl.tripped
  }

  /**
   Feed independence: on a stream that has no four rejected units in a row within one carry, the units decoded, the
   sync state, the carry and the counters are the same however it is cut.
   */
  lemma TruehdFeedIndependence<S(!new), P>(k: Codec<S, P>, s: State<Control<S>>, payloads: seq<seq<byte>>)
    requires |s.carry| <= CARRY_BYTES && !RejectsFour(k, s, Flatten(payloads))
    ensures var a, b := LocalFeedAll(k, s, payloads), LocalFeed(k, s, Flatten(payloads));
            a.out == b.out && a.state.carry == b.state.carry && Forget(a.state.ctl) == Forget(b.state.ctl)
  {
    hide Lawful, Progresses, Feed, FeedAll, LocalFeed, LocalFeedAll;
    FeedIndependence(Truehd(k), s, payloads);
    AlikeItself(s.ctl);
    FeedAllsAlike(k, s, s, payloads);
    FeedsAlike(k, s, s, Flatten(payloads));
  }

  /** A unit has at most 8190 bytes, so the branch that drops a full carry is never taken. */
  lemma {:induction false} TruehdCarryNeverFills<S(!new), P>(k: Codec<S, P>, s: State<Control<S>>, payload: seq<byte>)
    requires |s.carry| < MAX_UNIT
    ensures |LocalFeed(k, s, payload).state.carry| < MAX_UNIT
    decreases |payload|
  {
    hide Lawful, Progresses, Drain, LocalFeed;
    if payload == [] {
      NothingToFeed(k, s);
    } else {
      LocalFeedUnfolds(k, s, payload);
      var take := Min(|payload|, CARRY_BYTES - |s.carry|);
      var d := Drain(Truehd(k), s.ctl, s.carry + payload[..take]);
      TailIsShort(k, d.state.ctl, d.state.carry);
      TruehdCarryNeverFills(k, ForgetIn(d.state), payload[take..]);
    }
  }

  lemma TailIsShort<S(!new), P>(k: Codec<S, P>, c: Control<S>, w: seq<byte>)
    requires Truehd(k).step(c, w).Wait?
    ensures |w| < MAX_UNIT
  {
    hide Lawful, Progresses;
    assert Truehd(k).step(c, w) == Step(k, c, w);
  }

  // ---- when the cut matters, exactly ------------------------------------------------------------------------------

  /** The stream read as one from a state with nothing in the carry. */
  ghost function Read<S(!new), P>(k: Codec<S, P>, c: Control<S>, w: seq<byte>): State<Control<S>> {
    Drain(Truehd(k), c, w).state
  }

  lemma ReadMore<S(!new), P>(k: Codec<S, P>, c: Control<S>, w: seq<byte>, more: seq<byte>)
    ensures Read(k, c, w + more) == Read(k, Read(k, c, w).ctl, Read(k, c, w).carry + more)
  {
    hide Drain, Progresses, PrefixStable;
    DrainInTwo(Truehd(k), c, w, more);
  }

  lemma ReadStep<S(!new), P>(k: Codec<S, P>, c: Control<S>, w: seq<byte>)
    ensures Step(k, c, w).Wait? ==> Read(k, c, w) == State(c, w)
    ensures Step(k, c, w).Take? ==>
              Step(k, c, w).n <= |w| && Read(k, c, w) == Read(k, Step(k, c, w).next, w[Step(k, c, w).n..])
  {
    hide Drain, Lawful, Progresses, Step;
    DrainsStep(k, c, w);
  }

  lemma ReadWaits<S(!new), P>(k: Codec<S, P>, c: Control<S>, w: seq<byte>)
    ensures Step(k, Read(k, c, w).ctl, Read(k, c, w).carry).Wait?
  {
    hide Lawful, Progresses, Step;
    assert Truehd(k).step(Read(k, c, w).ctl, Read(k, c, w).carry) == Step(k, Read(k, c, w).ctl, Read(k, c, w).carry);
  }

  lemma StaysTripped<S(!new), P>(k: Codec<S, P>, c: Control<S>, w: seq<byte>, more: seq<byte>)
    ensures Read(k, c, w).ctl.tripped ==> Read(k, c, w + more).ctl.tripped
  {
    hide Drain, Lawful, Progresses;
    ReadMore(k, c, w, more);
    var s := Read(k, c, w);
    AlikeItself(s.ctl);
    DrainsAlike(k, s.ctl, s.ctl, s.carry + more);
  }

  /** The carry is the end of what was read. */
  lemma {:induction false} CarryIsTheEnd<S(!new), P>(k: Codec<S, P>, c: Control<S>, w: seq<byte>)
    ensures |Read(k, c, w).carry| <= |w| && Read(k, c, w).carry == w[|w| - |Read(k, c, w).carry|..]
    decreases |w|, Rank(c)
  {
    hide Step, Read;
    ReadStep(k, c, w);
    if Step(k, c, w).Take? {
      StepProgresses(k, c, w);
      CarryIsTheEnd(k, Step(k, c, w).next, w[Step(k, c, w).n..]);
    }
  }

  /** The same, with the first `i` rejected units forgotten. */
  function Since<S>(c: Control<S>, i: nat): Control<S>
    requires i <= |c.marks|
  {
    c.(marks := c.marks[i..])
  }

  /** How many bytes ago the `i`th remembered unit began, the one still to be read being the last. */
  function Ago(marks: seq<nat>, i: nat): nat { if i < |marks| then marks[i] else 0 }

  /** From state `c` the bytes `w` lead to `r`, and what `c` remembers is remembered there. */
  predicate GoesOn<S(!new)>(c: Control<S>, w: seq<byte>, r: State<Control<S>>) {
    && |r.carry| <= |w|
    && |c.marks| <= |r.ctl.marks| <= |c.marks| + 1
    && (|r.ctl.marks| == |c.marks| + 1 ==> |w| >= MIN_UNIT && r.carry == [])
    && (|r.carry| < |w| ==> |r.carry| < MIN_UNIT)
    && forall j | 0 <= j < |r.ctl.marks| :: r.ctl.marks[j] == Ago(c.marks, j) + (|w| - |r.carry|)
  }
  /** Where one byte more leads from a state that waits. */
  function OneMore<S, P>(k: Codec<S, P>, c: Control<S>, w: seq<byte>): State<Control<S>> {
    if |w| < MIN_UNIT then State(c, w)
    else if !c.synced && !HasMajorSync(w) then State(Skipped(c), w[1..])
    else OneMoreOfUnit(k, Synced(c), w)
  }

  function OneMoreOfUnit<S, P>(k: Codec<S, P>, c: Control<S>, w: seq<byte>): State<Control<S>>
    requires |w| >= MIN_UNIT
  {
    var n := UnitLength(w);
    if n < MIN_UNIT then State(Hunting(c), w[1..])
    else if |w| < n then State(c, w)
    else
      var (dec, u) := k.decode(c.dec, w);
      State(if u.None? then Rejected(c, dec, n) else Accepted(c, dec, u.value), [])
  }

  lemma LastByteDecides<S, P>(k: Codec<S, P>, c: Control<S>, w: seq<byte>)
    requires w != [] && Step(k, c, w[..|w| - 1]).Wait?
    ensures |w| > MIN_UNIT ==> c.synced && |w| <= UnitLength(w)
    ensures |w| >= MIN_UNIT ==> UnitLength(w) < MIN_UNIT || |w| <= UnitLength(w)
  {
  }

  lemma ReadsOneMore<S(!new), P>(k: Codec<S, P>, c: Control<S>, w: seq<byte>)
    requires w != [] && Step(k, c, w[..|w| - 1]).Wait?
    ensures Read(k, c, w) == OneMore(k, c, w)
  {
    hide Read, Step, HasMajorSync, UnitLength, OneMoreOfUnit;
    LastByteDecides(k, c, w);
    if |w| < MIN_UNIT {
      TooLittle(k, c, w);
      ReadStep(k, c, w);
    } else if !c.synced {
      ReadsSync(k, c, w);
      if HasMajorSync(w) {
        ReadsUnit(k, Synced(c), w);
      }
    } else {
      assert Synced(c) == c;
      ReadsUnit(k, c, w);
    }
  }

  lemma ReadsSync<S(!new), P>(k: Codec<S, P>, c: Control<S>, w: seq<byte>)
    requires !c.synced && |w| == MIN_UNIT
    ensures Read(k, c, w) == if HasMajorSync(w) then Read(k, Synced(c), w) else State(Skipped(c), w[1..])
  {
    hide Read, HasMajorSync;
    ReadStep(k, c, w);
    assert w[0..] == w;
    ReadStep(k, Skipped(c), w[1..]);
  }

  lemma ReadsUnit<S(!new), P>(k: Codec<S, P>, c: Control<S>, w: seq<byte>)
    requires c.synced && |w| >= MIN_UNIT
    requires if UnitLength(w) < MIN_UNIT then |w| == MIN_UNIT else |w| <= UnitLength(w)
    ensures Read(k, c, w) == OneMoreOfUnit(k, c, w)
  {
    hide Read, UnitLength, Hunting, Rejected, Accepted;
    ReadStep(k, c, w);
    var n := UnitLength(w);
    assert n == |w| ==> w[..n] == w && w[n..] == [];
    if n <= |w| {
      var t := Step(k, c, w);
      ReadStep(k, t.next, w[t.n..]);
    }
  }

  lemma WaitsSince<S, P>(k: Codec<S, P>, c: Control<S>, w: seq<byte>, i: nat)
    requires i <= |c.marks| && Step(k, c, w).Wait?
    ensures Step(k, Since(c, i), w).Wait?
  {
  }

  lemma AgedSince(marks: seq<nat>, i: nat, n: nat)
    requires i <= |marks|
    ensures Aged(marks[i..], n) == Aged(marks, n)[i..]
    ensures Aged(marks[i..], n) + [n] == (Aged(marks, n) + [n])[i..]
    ensures FourInACarry(Aged(marks[i..], n) + [n]) ==> FourInACarry(Aged(marks, n) + [n])
  {
    assert Aged(marks[i..], n) + [n] == (Aged(marks, n) + [n])[i..];
  }

  lemma OneMoreSince<S, P>(k: Codec<S, P>, c: Control<S>, w: seq<byte>, i: nat)
    requires i <= |c.marks| && (|w| >= MIN_UNIT ==> UnitLength(w) < MIN_UNIT || |w| <= UnitLength(w))
    ensures var r, t := OneMore(k, c, w), OneMore(k, Since(c, i), w);
            r.ctl.tripped || (r.ctl.marks == [] && r.carry == []) || t == State(Since(r.ctl, i), r.carry)
  {
    hide Aged, FourInACarry, HasMajorSync, UnitLength;
    AgedSince(c.marks, i, 1);
    if |w| >= MIN_UNIT {
      AgedSince(c.marks, i, UnitLength(w));
    }
  }
  lemma OneMoreGoesOn<S(!new), P>(k: Codec<S, P>, c: Control<S>, w: seq<byte>)
    requires |w| >= MIN_UNIT ==> UnitLength(w) < MIN_UNIT || |w| <= UnitLength(w)
    requires |w| > MIN_UNIT ==> c.synced && |w| <= UnitLength(w)
    ensures var r := OneMore(k, c, w);
            r.ctl.tripped || (r.ctl.marks == [] && r.carry == []) || GoesOn(c, w, r)
  {
    hide FourInACarry, HasMajorSync, UnitLength;
  }

  /** The byte that makes the fourth rejection of a carry. */
  lemma OneMoreTrips<S, P>(k: Codec<S, P>, c: Control<S>, w: seq<byte>)
    requires |w| >= MIN_UNIT ==> UnitLength(w) < MIN_UNIT || |w| <= UnitLength(w)
    requires !c.tripped && OneMore(k, c, w).ctl.tripped
    ensures |w| >= MIN_UNIT && |c.marks| >= 3
    ensures var i := |c.marks| - 3;
            && c.marks[i] + |w| <= CARRY_BYTES
            && !OneMore(k, Since(c, i), w).ctl.synced && OneMore(k, Since(c, |c.marks|), w).ctl.synced
  {
    hide HasMajorSync, UnitLength;
  }

  /**
   What a call would read that had nothing but the seven bytes at `a` in its carry: there the stream read as one has
   these bytes in its carry too, and from there it comes to the same state but for the first `i` marks.
   */
  ghost predicate FromThere<S(!new), P>(k: Codec<S, P>, c: Control<S>, w: seq<byte>, i: nat, a: nat) {
    && a + 7 <= |w| && i <= |Read(k, c, w).ctl.marks|
    && Read(k, c, w[..a + 7]).carry == w[a..a + 7]
    && Read(k, Forget(Read(k, c, w[..a + 7]).ctl), w[a..])
       == State(Since(Read(k, c, w).ctl, i), Read(k, c, w).carry)
  }

  ghost function Front<S(!new), P>(k: Codec<S, P>, c: Control<S>, w: seq<byte>): int {
    |w| - |Read(k, c, w).carry|
  }

  /** That is so for every remembered unit's start, and for the front of the carry once it has seven bytes. */
  ghost predicate Grounded<S(!new), P>(k: Codec<S, P>, c: Control<S>, w: seq<byte>) {
    var r := Read(k, c, w);
    && (forall i | 0 <= i < |r.ctl.marks| ::
          r.ctl.marks[i] <= Front(k, c, w) && FromThere(k, c, w, i, Front(k, c, w) - r.ctl.marks[i]))
    && (|r.carry| >= 7 ==> 0 <= Front(k, c, w) && FromThere(k, c, w, |r.ctl.marks|, Front(k, c, w)))
  }

  lemma FrontOfSeven<S(!new), P>(k: Codec<S, P>, c: Control<S>, w: seq<byte>)
    requires |Read(k, c, w).carry| == 7 && !Read(k, c, w).ctl.tripped
    ensures 0 <= Front(k, c, w) && FromThere(k, c, w, |Read(k, c, w).ctl.marks|, Front(k, c, w))
  {
    hide Read, Step;
    CarryIsTheEnd(k, c, w);
    var r := Read(k, c, w);
    assert w[..Front(k, c, w) + 7] == w && w[Front(k, c, w)..Front(k, c, w) + 7] == w[Front(k, c, w)..];
    ReadWaits(k, c, w);
    TooLittle(k, Forget(r.ctl), r.carry);
    ReadStep(k, Forget(r.ctl), r.carry);
    assert Since(r.ctl, |r.ctl.marks|) == Forget(r.ctl);
  }

  lemma FromThereOn<S(!new), P>(k: Codec<S, P>, c: Control<S>, w: seq<byte>, x: byte, i: nat, a: nat)
    requires FromThere(k, c, w, i, a) && !Read(k, c, w + [x]).ctl.tripped
    requires var r := Read(k, c, w); var v := r.carry + [x];
             GoesOn(r.ctl, v, Read(k, r.ctl, v))
    ensures FromThere(k, c, w + [x], i, a)
  {
    hide Read, Step, OneMore;
    var r := Read(k, c, w);
    var v := r.carry + [x];
    var e := Forget(Read(k, c, w[..a + 7]).ctl);
    ReadMore(k, c, w, [x]);
    ReadMore(k, e, w[a..], [x]);
    assert (w + [x])[..a + 7] == w[..a + 7] && (w + [x])[a..a + 7] == w[a..a + 7] && (w + [x])[a..] == w[a..] + [x];
    ReadWaits(k, c, w);
    assert v[..|v| - 1] == r.carry;
    WaitsSince(k, r.ctl, r.carry, i);
    ReadsOneMore(k, r.ctl, v);
    ReadsOneMore(k, Since(r.ctl, i), v);
    LastByteDecides(k, r.ctl, v);
    OneMoreSince(k, r.ctl, v, i);
    assert Since(r.ctl, 0) == r.ctl && Since(Read(k, r.ctl, v).ctl, 0) == Read(k, r.ctl, v).ctl;
  }
  lemma GroundedOn<S(!new), P>(k: Codec<S, P>, c: Control<S>, w: seq<byte>, x: byte)
    requires Grounded(k, c, w) && !Read(k, c, w + [x]).ctl.tripped
    ensures Grounded(k, c, w + [x])
  {
    hide Read, Step, OneMore, FromThere;
    var r, s := Read(k, c, w), Read(k, c, w + [x]);
    var v := r.carry + [x];
    ReadMore(k, c, w, [x]);
    ReadWaits(k, c, w);
    assert v[..|v| - 1] == r.carry;
    ReadsOneMore(k, r.ctl, v);
    LastByteDecides(k, r.ctl, v);
    OneMoreGoesOn(k, r.ctl, v);
    if GoesOn(r.ctl, v, s) {
      forall i | 0 <= i < |s.ctl.marks|
        ensures s.ctl.marks[i] <= Front(k, c, w + [x])
             && FromThere(k, c, w + [x], i, Front(k, c, w + [x]) - s.ctl.marks[i])
      {
        FromThereOn(k, c, w, x, i, Front(k, c, w) - Ago(r.ctl.marks, i));
      }
      if |s.carry| == 7 {
        FrontOfSeven(k, c, w + [x]);
      } else if |s.carry| > 7 {
        FromThereOn(k, c, w, x, |r.ctl.marks|, Front(k, c, w));
      }
    }
  }

  lemma {:induction false} UntilItTrips<S(!new), P>(k: Codec<S, P>, c: Control<S>, w: seq<byte>, n: nat)
    requires Forget(c) == c && n <= |w| && !Read(k, c, w[..n]).ctl.tripped
    ensures Grounded(k, c, w[..n])
  {
    if n == 0 {
      hide Step;
      ReadStep(k, c, []);
      TooLittle(k, c, []);
    } else {
      hide *;
      assert w[..n] == w[..n - 1] + [w[n - 1]];
      StaysTripped(k, c, w[..n - 1], [w[n - 1]]);
      UntilItTrips(k, c, w, n - 1);
      GroundedOn(k, c, w[..n - 1], w[n - 1]);
    }
  }

  lemma {:induction false} FirstTrip<S(!new), P>(k: Codec<S, P>, c: Control<S>, w: seq<byte>, n: nat) returns (b: nat)
    requires Forget(c) == c && n <= |w| && Read(k, c, w[..n]).ctl.tripped
    ensures b < n && !Read(k, c, w[..b]).ctl.tripped && Read(k, c, w[..b + 1]).ctl.tripped
  {
    hide Read, Step;
    if n == 0 {
      TooLittle(k, c, []);
      ReadStep(k, c, []);
    } else if Read(k, c, w[..n - 1]).ctl.tripped {
      b := FirstTrip(k, c, w, n - 1);
    } else {
      b := n - 1;
    }
  }

  // ---- what the program makes of a cut seven bytes behind a unit's start -----------------------------------

  lemma ReadIsFeed<S(!new), P>(k: Codec<S, P>, c: Control<S>, w: seq<byte>)
    ensures Feed(Truehd(k), State(c, []), w).state == Read(k, c, w)
  {
    hide Drain, Feed, Progresses, PrefixStable;
    var m := Truehd(k);
    forall d, v | |v| >= MAX_UNIT
      ensures m.step(d, v).Take?
    {
      assert m.step(d, v) == Step(k, d, v);
    }
    TooLittle(k, c, []);
    assert m.step(c, []) == Step(k, c, []);
    FeedIsDrain(m, State(c, []), w, MAX_UNIT);
    assert [] + w == w;
  }

  lemma {:induction false} LocalForgets<S(!new), P>(k: Codec<S, P>, s: State<Control<S>>, payload: seq<byte>)
    requires |s.carry| <= CARRY_BYTES && Forget(s.ctl) == s.ctl
    ensures var t := LocalFeed(k, s, payload).state; Forget(t.ctl) == t.ctl
    decreases |payload|
  {
    hide Drain, Lawful, Progresses, LocalFeed, MakeRoom;
    if payload == [] {
      NothingToFeed(k, s);
    } else {
      LocalFeedUnfolds(k, s, payload);
      var s1 := MakeRoom(Truehd(k), s);
      var take := Min(|payload|, CARRY_BYTES - |s1.carry|);
      var d := Drain(Truehd(k), s1.ctl, s1.carry + payload[..take]);
      LocalForgets(k, ForgetIn(d.state), payload[take..]);
    }
  }

  /** As long as nothing trips, a call ends as the stream read as one, but for what it forgets. */
  lemma LocalReads<S(!new), P>(k: Codec<S, P>, c: Control<S>, w: seq<byte>)
    requires Forget(c) == c && !Read(k, c, w).ctl.tripped
    ensures LocalFeed(k, State(c, []), w).state == ForgetIn(Read(k, c, w))
  {
    hide Drain, Feed, LocalFeed, Lawful, Progresses, Read;
    var s := State(c, []);
    ReadIsFeed(k, c, w);
    AlikeItself(c);
    FeedsAlike(k, s, s, w);
    LocalForgets(k, s, w);
  }

  /** The stream up to the byte that trips, in two calls, the first of which ends seven bytes behind a unit's start. */
  lemma CutBehind<S(!new), P>(k: Codec<S, P>, c: Control<S>, w: seq<byte>, x: byte, i: nat, a: nat)
    requires Forget(c) == c && !Read(k, c, w).ctl.tripped
    requires FromThere(k, c, w, i, a) && |w| + 1 - a <= CARRY_BYTES
    ensures var r := Read(k, c, w);
            LocalFeedAll(k, State(c, []), [w[..a + 7], w[a + 7..] + [x]]).state
            == ForgetIn(Read(k, Since(r.ctl, i), r.carry + [x]))
  {
    hide Drain, LocalFeed, LocalFeedAll, Lawful, Progresses;
    var p, q := w[..a + 7], w[a + 7..] + [x];
    assert p + w[a + 7..] == w;
    StaysTripped(k, c, p, w[a + 7..]);
    LocalReads(k, c, p);
    var e := Forget(Read(k, c, p).ctl);
    OneCall(k, State(e, w[a..a + 7]), q);
    assert w[a..a + 7] + q == w[a..] + [x];
    ReadMore(k, e, w[a..], [x]);
    TwoCalls(k, State(c, []), p, q);
  }

  /** The stream's every beginning comes out the same in one call and cut in any way. */
  ghost predicate CutsAgree<S(!new), P>(k: Codec<S, P>, c: Control<S>, stream: seq<byte>) {
    forall payloads :: Flatten(payloads) <= stream ==> SameWhenCut(k, State(c, []), payloads)
  }

  ghost predicate SameWhenCut<S(!new), P>(k: Codec<S, P>, s: State<Control<S>>, payloads: seq<seq<byte>>)
    requires |s.carry| <= CARRY_BYTES
  {
    var a, b := LocalFeedAll(k, s, payloads), LocalFeed(k, s, Flatten(payloads));
    a.out == b.out && a.state.carry == b.state.carry && Forget(a.state.ctl) == Forget(b.state.ctl)
  }

  lemma SameOnPrefix<S(!new), P>(k: Codec<S, P>, c: Control<S>, stream: seq<byte>, payloads: seq<seq<byte>>)
    requires Flatten(payloads) <= stream
    ensures CutsAgree(k, c, stream) ==> SameWhenCut(k, State(c, []), payloads)
  {
  }

  lemma CutIsOf(w: seq<byte>, x: byte, n: nat)
    requires n <= |w|
    ensures Flatten([w[..n], w[n..] + [x]]) == w + [x]
  {
    var last: seq<seq<byte>> := [w[n..] + [x]];
    assert [w[..n], w[n..] + [x]][1..] == last && last[1..] == [];
    assert Flatten(last) == w[n..] + [x] + [];
  }

  lemma CutsDiffer<S(!new), P>(k: Codec<S, P>, c: Control<S>, w: seq<byte>, x: byte)
    requires Forget(c) == c && !Read(k, c, w).ctl.tripped && Read(k, c, w + [x]).ctl.tripped
    requires Grounded(k, c, w)
    ensures !CutsAgree(k, c, w + [x])
  {
    hide Step, LocalFeed, LocalFeedAll, Read, FromThere, OneMore;
    var r := Read(k, c, w);
    var v := r.carry + [x];
    ReadMore(k, c, w, [x]);
    ReadWaits(k, c, w);
    assert v[..|v| - 1] == r.carry;
    ReadsOneMore(k, r.ctl, v);
    LastByteDecides(k, r.ctl, v);
    OneMoreTrips(k, r.ctl, v);
    var i, q := |r.ctl.marks| - 3, Front(k, c, w);
    var a := q - r.ctl.marks[i];
    WaitsSince(k, r.ctl, r.carry, i);
    WaitsSince(k, r.ctl, r.carry, |r.ctl.marks|);
    ReadsOneMore(k, Since(r.ctl, i), v);
    ReadsOneMore(k, Since(r.ctl, |r.ctl.marks|), v);
    CutIsOf(w, x, a + 7);
    CutIsOf(w, x, q + 7);
    CutBehind(k, c, w, x, i, a);
    CutBehind(k, c, w, x, |r.ctl.marks|, q);
    SameOnPrefix(k, c, w + [x], [w[..a + 7], w[a + 7..] + [x]]);
    SameOnPrefix(k, c, w + [x], [w[..q + 7], w[q + 7..] + [x]]);
  }
  lemma AgreeOnPrefix<S(!new), P>(k: Codec<S, P>, c: Control<S>, stream: seq<byte>, w: seq<byte>)
    requires w <= stream
    ensures CutsAgree(k, c, stream) ==> CutsAgree(k, c, w)
  {
    hide SameWhenCut;
  }

  /**
   From an empty carry: the decoded units, the sync state, the carry and the counters of every beginning of the stream
   are the same however it is cut, exactly when no four units in a row within the bytes of one carry are rejected.
   */
  lemma CutsAgreeExactly<S(!new), P>(k: Codec<S, P>, c: Control<S>, stream: seq<byte>)
    requires Forget(c) == c
    ensures CutsAgree(k, c, stream) <==> !RejectsFour(k, State(c, []), stream)
  {
    hide Read, Feed, LocalFeed, LocalFeedAll;
    ReadIsFeed(k, c, stream);
    if RejectsFour(k, State(c, []), stream) {
      assert stream[..|stream|] == stream;
      var b := FirstTrip(k, c, stream, |stream|);
      UntilItTrips(k, c, stream, b);
      assert stream[..b + 1] == stream[..b] + [stream[b]];
      AgreeOnPrefix(k, c, stream, stream[..b + 1]);
      CutsDiffer(k, c, stream[..b], stream[b]);
    } else {
      forall payloads | Flatten(payloads) <= stream
        ensures SameWhenCut(k, State(c, []), payloads)
      {
        var w := Flatten(payloads);
        assert stream == w + stream[|w|..];
        StaysTripped(k, c, w, stream[|w|..]);
        ReadIsFeed(k, c, w);
        TruehdFeedIndependence(k, State(c, []), payloads);
      }
    }
  }

  /** Units of which four are more than a carry holds. */
  ghost predicate RejectsOnlyLong<S(!new), P>(k: Codec<S, P>) {
    forall dec, unit :: k.decode(dec, unit).1.None? ==> |unit| * MAX_BAD_RUN > CARRY_BYTES
  }

  predicate FarApart(marks: seq<nat>) {
    forall j | 0 <= j < |marks| :: marks[j] * MAX_BAD_RUN > CARRY_BYTES * (|marks| - j)
  }

  lemma StepKeepsApart<S(!new), P>(k: Codec<S, P>, c: Control<S>, w: seq<byte>)
    requires RejectsOnlyLong(k) && FarApart(c.marks) && !c.tripped && Step(k, c, w).Take?
    ensures FarApart(Step(k, c, w).next.marks) && !Step(k, c, w).next.tripped
  {
    hide HasMajorSync;
    if c.synced && UnitLength(w) <= |w| {
      var n := UnitLength(w);
      var (dec, u) := k.decode(c.dec, w[..n]);
      assert u.None? ==> n * MAX_BAD_RUN > CARRY_BYTES && FarApart(Aged(c.marks, n) + [n]);
    }
  }

  lemma {:induction false} LongOnesNeverTrip<S(!new), P>(k: Codec<S, P>, c: Control<S>, w: seq<byte>)
    requires RejectsOnlyLong(k) && FarApart(c.marks) && !c.tripped
    ensures !Read(k, c, w).ctl.tripped
    decreases |w|, Rank(c)
  {
    hide Step, Read, FarApart, RejectsOnlyLong;
    ReadStep(k, c, w);
    if Step(k, c, w).Take? {
      StepProgresses(k, c, w);
      StepKeepsApart(k, c, w);
      LongOnesNeverTrip(k, Step(k, c, w).next, w[Step(k, c, w).n..]);
    }
  }

  /** Long rejected units, however many in a row, never make the cut matter. */
  lemma LongRejectionsAgree<S(!new), P>(k: Codec<S, P>, c: Control<S>, stream: seq<byte>)
    requires Forget(c) == c && RejectsOnlyLong(k)
    ensures CutsAgree(k, c, stream)
  {
    hide Read, Feed, CutsAgree, RejectsOnlyLong;
    LongOnesNeverTrip(k, c, stream);
    ReadIsFeed(k, c, stream);
    CutsAgreeExactly(k, c, stream);
  }

  const MAJOR: seq<byte> := [0, 4, 0, 0, 0xF8, 0x72, 0x6F, 0xBA]
  const MINOR: seq<byte> := [0, 4, 0, 0, 0, 0, 0, 0]

  function Refusal(): Codec<int, int> {
    Codec((dec, unit) => (dec, None))
  }

  /** What one refused unit of eight bytes adds to `bad` refused ones, of which `marks` are remembered. */
  lemma RefusesUnit(bad: nat, marks: seq<nat>, next: seq<nat>, unit: seq<byte>, rest: seq<byte>)
    requires bad < 100 && |unit| == 8 && UnitLength(unit) == 8 && next == Aged(marks, 8) + [8]
    ensures Drain(Truehd(Refusal()), Began(bad, marks), unit + rest)
         == Drain(Truehd(Refusal()),
                  if FourInACarry(next) then Began(bad + 1, []).(synced := false, tripped := true)
                  else Began(bad + 1, next), rest)
  {
    hide Drain, Lawful, Progresses;
    DrainsUnit(Refusal(), Began(bad, marks), unit + rest);
    assert (unit + rest)[8..] == rest;
    NothingBefore(Drain(Truehd(Refusal()), Rejected(Began(bad, marks), 0, 8), rest));
  }

  lemma FindsSync(c: Control<int>, rest: seq<byte>)
    requires !c.synced
    ensures Drain(Truehd(Refusal()), c, MAJOR + rest) == Drain(Truehd(Refusal()), Synced(c), MAJOR + rest)
  {
    hide Drain, Lawful, Progresses;
    DrainsHunt(Refusal(), c, MAJOR + rest);
  }

  function Began(bad: nat, marks: seq<nat>): Control<int> { Control(0, true, 0, bad, 0, None, marks, false) }

  lemma RefusesTwo()
    ensures LocalFeed(Refusal(), State(Began(0, []).(synced := false), []), MAJOR + MAJOR)
            == Result(State(Began(2, []), []), [])
  {
    hide Drain, Lawful, Progresses, LocalFeed;
    var c0 := Began(0, []).(synced := false);
    FindsSync(c0, MAJOR);
    RefusesUnit(0, [], [8], MAJOR, MAJOR);
    RefusesUnit(1, [8], [16, 8], MAJOR, []);
    assert MAJOR + [] == MAJOR;
    DrainsStep(Refusal(), Began(2, [16, 8]), []);
    assert [] + (MAJOR + MAJOR) == MAJOR + MAJOR;
    OneCall(Refusal(), State(c0, []), MAJOR + MAJOR);
  }

  lemma RefusesThree()
    ensures LocalFeed(Refusal(), State(Began(2, []), []), MAJOR + (MAJOR + MINOR))
            == Result(State(Began(5, []), []), [])
  {
    hide Drain, Lawful, Progresses, LocalFeed;
    RefusesUnit(2, [], [8], MAJOR, MAJOR + MINOR);
    RefusesUnit(3, [8], [16, 8], MAJOR, MINOR);
    RefusesUnit(4, [16, 8], [24, 16, 8], MINOR, []);
    assert MINOR + [] == MINOR;
    DrainsStep(Refusal(), Began(5, [24, 16, 8]), []);
    assert [] + (MAJOR + (MAJOR + MINOR)) == MAJOR + (MAJOR + MINOR);
    OneCall(Refusal(), State(Began(2, []), []), MAJOR + (MAJOR + MINOR));
  }

  lemma TwoCalls<S(!new), P>(k: Codec<S, P>, s: State<Control<S>>, p: seq<byte>, q: seq<byte>)
    requires |s.carry| <= CARRY_BYTES
    ensures var a := LocalFeed(k, s, p);
            LocalFeedAll(k, s, [p, q]) == Before(a.out, LocalFeed(k, a.state, q))
  {
    hide LocalFeed;
    var last: seq<seq<byte>> := [q];
    assert [p, q][1..] == last && last[1..] == [];
    var a := LocalFeed(k, s, p);
    var b := LocalFeed(k, a.state, q);
    assert LocalFeedAll(k, b.state, last[1..]) == Result(b.state, []);
    NothingAfter(b.out, b.state);
    assert LocalFeedAll(k, a.state, last) == b;
  }

  /** Two rejected units, then two more and one without a sync: in two calls no framing is lost. */
  lemma RefusedInTwo()
    ensures var s0 := State(Began(0, []).(synced := false), []);
            LocalFeedAll(Refusal(), s0, [MAJOR + MAJOR, MAJOR + (MAJOR + MINOR)])
            == Result(State(Began(5, []), []), [])
  {
    hide LocalFeed, LocalFeedAll, Refusal;
    RefusesTwo();
    RefusesThree();
    TwoCalls(Refusal(), State(Began(0, []).(synced := false), []), MAJOR + MAJOR, MAJOR + (MAJOR + MINOR));
  }

  /** A payload that fits is one drain. */
  lemma OneCall<S(!new), P>(k: Codec<S, P>, s: State<Control<S>>, payload: seq<byte>)
    requires payload != [] && |s.carry| + |payload| <= CARRY_BYTES
    ensures var d := Drain(Truehd(k), s.ctl, s.carry + payload);
            LocalFeed(k, s, payload) == Result(ForgetIn(d.state), d.out)
  {
    hide Drain, Lawful, Progresses;
    assert payload[..|payload|] == payload && payload[|payload|..] == [];
    var d := Drain(Truehd(k), s.ctl, s.carry + payload);
    NothingAfter(d.out, ForgetIn(d.state));
  }

  /** In one call the fourth rejection sends the reader hunting, and it walks over the unit that has no sync. */
  lemma RefusedAtOnce()
    ensures var s0 := State(Began(0, []).(synced := false), []);
            LocalFeed(Refusal(), s0, MAJOR + (MAJOR + (MAJOR + (MAJOR + MINOR))))
            == Result(State(Began(4, []).(synced := false, resyncs := 1), MINOR[1..]), [])
  {
    hide Drain, Lawful, Progresses;
    var k, m := Refusal(), Truehd(Refusal());
    var c0 := Began(0, []).(synced := false);
    FindsSync(c0, MAJOR + (MAJOR + (MAJOR + MINOR)));
    RefusesUnit(0, [], [8], MAJOR, MAJOR + (MAJOR + (MAJOR + MINOR)));
    RefusesUnit(1, [8], [16, 8], MAJOR, MAJOR + (MAJOR + MINOR));
    RefusesUnit(2, [16, 8], [24, 16, 8], MAJOR, MAJOR + MINOR);
    RefusesUnit(3, [24, 16, 8], [32, 24, 16, 8], MAJOR, MINOR);
    var c4 := Began(4, []).(synced := false, tripped := true);
    DrainsHunt(k, c4, MINOR);
    DrainsStep(k, Skipped(c4), MINOR[1..]);
    var all := MAJOR + (MAJOR + (MAJOR + (MAJOR + MINOR)));
    assert [] + all == all;
    OneCall(k, State(c0, []), all);
  }

  /** Without the premise the claim is false: one stream, two cuts, different framing, counters and carry. */
  lemma FourRejectionsDependOnTheCut()
    ensures var k, s0 := Refusal(), State(Began(0, []).(synced := false), []);
            var cut := [MAJOR + MAJOR, MAJOR + (MAJOR + MINOR)];
            var a, b := LocalFeedAll(k, s0, cut), LocalFeed(k, s0, Flatten(cut));
            a.state.ctl.synced != b.state.ctl.synced && a.state.ctl.badUnits != b.state.ctl.badUnits
            && a.state.carry != b.state.carry
  {
    hide LocalFeed, LocalFeedAll, Refusal;
    RefusedInTwo();
    RefusedAtOnce();
    var p, q := MAJOR + MAJOR, MAJOR + (MAJOR + MINOR);
    var last: seq<seq<byte>> := [q];
    assert [p, q][1..] == last && last[1..] == [];
    assert Flatten([q]) == q + [];
    assert p + (q + []) == MAJOR + (MAJOR + (MAJOR + (MAJOR + MINOR)));
  }

  // ---- the program's reader --------------------------------------------------------------------------------------

  /** The units rejected in this call, of which `off` bytes have been read: their count is what the program keeps. */
  predicate Marks(marks: seq<nat>, badRun: nat, off: nat) {
    badRun == |marks| < MAX_BAD_RUN && (marks != [] ==> marks[0] <= off)
  }

  class TruehdReader<S(!new), P(!new)> {
    const codec: Codec<S, P>
    const carry: array<byte>
    var carryLen: nat
    var synced: bool
    var dec: S
    var units: nat
    var badUnits: nat
    var resyncs: nat
    var first: Option<Format>
    var fedBytes: nat
    var emitted: seq<Unit<P>>

    ghost predicate Valid()
      reads this
    {
      carry.Length == CARRY_BYTES && carryLen <= CARRY_BYTES
    }

    /** The fields, and what a call in progress remembers. */
    ghost function Ctl(marks: seq<nat>, tripped: bool): Control<S>
      reads this
    {
      Control(dec, synced, units, badUnits, resyncs, first, marks, tripped)
    }

    ghost function Left(off: nat): seq<byte>
      requires off <= carryLen <= carry.Length
      reads this, carry
    {
      carry[off..carryLen]
    }

    ghost function Abs(): State<Control<S>>
      requires carryLen <= carry.Length
      reads this, carry
    {
      State(Ctl([], false), Left(0))
    }

    constructor (codec: Codec<S, P>, dec: S)
      ensures Valid() && fresh(carry) && fedBytes == 0 && emitted == [] && this.codec == codec
      ensures Abs() == State(Control(dec, false, 0, 0, 0, None, [], false), [])
    {
      this.codec, this.dec := codec, dec;
      carry := new byte[CARRY_BYTES];
      carryLen, synced, units, badUnits, resyncs, first, fedBytes, emitted := 0, false, 0, 0, 0, None, 0, [];
    }

    /** A seek drops the carry and asks for a new major sync. */
    method Reset()
      requires Valid()
      modifies this`carryLen, this`synced
      ensures Valid() && Abs() == State(old(Ctl([], false)).(synced := false), []) && emitted == old(emitted)
    {
      carryLen, synced := 0, false;
    }

    /** One whole unit; the count of rejected ones goes on or starts again. */
    method DecodeUnit(unit: seq<byte>, badRun: nat) returns (run: nat)
      modifies this`dec, this`units, this`badUnits, this`first, this`emitted
      ensures var (d, u) := codec.decode(old(dec), unit);
              if u.None? then
                run == badRun + 1 && emitted == old(emitted)
                && Ctl([], false) == old(Ctl([], false)).(dec := d, badUnits := Counted(old(badUnits)))
              else
                && run == 0 && emitted == old(emitted) + (if u.value.samples > 0 then [u.value] else [])
                && Ctl([], false) == Accepted(old(Ctl([], false)), d, u.value)
    {
      var (d, u) := codec.decode(dec, unit);
      dec := d;
      if u.None? {
        badUnits := Counted(badUnits);
        return badRun + 1;
      }
      units := Counted(units);
      if u.value.samples > 0 {
        if first.None? {
          first := Some(u.value.format);
        }
        emitted := emitted + [u.value];
      }
      return 0;
    }

    /** The unit at `off`, by its length. */
    method TakeUnit(off: nat, badRun: nat, ghost bad: seq<nat>, ghost trip: bool)
      returns (end: nat, run: nat, stop: bool, ghost marks: seq<nat>, ghost tripped: bool, ghost out: seq<Unit<P>>)
      requires Valid() && synced && off + MIN_UNIT <= carryLen && Marks(bad, badRun, off)
      modifies this`dec, this`synced, this`units, this`badUnits, this`resyncs, this`first, this`emitted
      ensures off <= end <= carryLen && Marks(marks, run, end)
      ensures emitted == old(emitted) + out && (stop || off < end)
      ensures Drain(Truehd(codec), old(Ctl(bad, trip)), Left(off))
           == Before(out, Drain(Truehd(codec), Ctl(marks, tripped), Left(end)))
      ensures stop ==> Step(codec, Ctl(marks, tripped), Left(end)).Wait?
    {
      hide Drain, Lawful, Progresses, Before, Step;
      ghost var w := Left(off);
      end, run, stop, marks, tripped, out := off, badRun, false, bad, trip, [];
      DrainsUnit(codec, Ctl(marks, tripped), w);
      var n := UnitLength(carry[off..carryLen]);
      if n < MIN_UNIT {
        synced, resyncs, end, marks := false, Counted(resyncs), off + 1, Aged(bad, 1);
        assert w[1..] == Left(end);
        return;
      }
      if carryLen - off < n {
        NothingBefore(Drain(Truehd(codec), Ctl(marks, tripped), w));
        stop := true;
        return;
      }
      assert w[n..] == Left(off + n);
      ghost var (d, u) := codec.decode(dec, w[..n]);
      out := if u.Some? && u.value.samples > 0 then [u.value] else [];
      run := DecodeUnit(carry[off..carryLen][..n], badRun);
      end := off + n;
      marks := if u.None? then Aged(bad, n) + [n] else [];
      if run >= MAX_BAD_RUN {
        synced, run, marks, tripped := false, 0, [], true;
      }
    }

    /** What the bytes at `off` do once there are enough of them to look at. */
    method TakeOne(off: nat, badRun: nat, ghost bad: seq<nat>, ghost trip: bool)
      returns (end: nat, run: nat, stop: bool, ghost marks: seq<nat>, ghost tripped: bool, ghost out: seq<Unit<P>>)
      requires Valid() && off + MIN_UNIT <= carryLen && Marks(bad, badRun, off)
      modifies this`dec, this`synced, this`units, this`badUnits, this`resyncs, this`first, this`emitted
      ensures off <= end <= carryLen && Marks(marks, run, end)
      ensures emitted == old(emitted) + out && (stop || off < end)
      ensures Drain(Truehd(codec), old(Ctl(bad, trip)), Left(off))
           == Before(out, Drain(Truehd(codec), Ctl(marks, tripped), Left(end)))
      ensures stop ==> Step(codec, Ctl(marks, tripped), Left(end)).Wait?
    {
      hide Drain, Lawful, Progresses, Before, Step;
      if !synced {
        DrainsHunt(codec, Ctl(bad, trip), Left(off));
        if !HasMajorSync(carry[off..carryLen]) {
          resyncs := Counted(resyncs);
          assert Left(off)[1..] == Left(off + 1);
          return off + 1, badRun, false, Aged(bad, 1), trip, [];
        }
        synced := true;
      }
      end, run, stop, marks, tripped, out := TakeUnit(off, badRun, bad, trip);
    }

    /** Consumes everything decidable in the carry and keeps the tail. */
    method DecodeCarry() returns (ghost out: seq<Unit<P>>)
      requires Valid()
      modifies this, carry
      ensures Valid() && emitted == old(emitted) + out && fedBytes == old(fedBytes)
      ensures var d := Drain(Truehd(codec), old(Ctl([], false)), old(Left(0)));
              Abs() == ForgetIn(d.state) && out == d.out
    {
      hide Drain, Lawful, Progresses, Before, Step;
      ghost var all := Drain(Truehd(codec), Ctl([], false), Left(0));
      out := [];
      NothingBefore(all);
      var off, stop := 0, false;
      var badRun: nat := 0;
      ghost var marks: seq<nat>, tripped := [], false;
      while carryLen - off >= MIN_UNIT && !stop
        invariant Valid() && off <= carryLen == old(carryLen) && Marks(marks, badRun, off)
        invariant carry[..] == old(carry[..]) && emitted == old(emitted) + out && fedBytes == old(fedBytes)
        invariant all == Before(out, Drain(Truehd(codec), Ctl(marks, tripped), Left(off)))
        invariant stop ==> Step(codec, Ctl(marks, tripped), Left(off)).Wait?
        decreases carryLen - off, !stop
      {
        ghost var more;
        off, badRun, stop, marks, tripped, more := TakeOne(off, badRun, marks, tripped);
        BeforeBefore(out, more, Drain(Truehd(codec), Ctl(marks, tripped), Left(off)));
        out := out + more;
      }
      if !stop {
        TooLittle(codec, Ctl(marks, tripped), Left(off));
      }
      DrainsStep(codec, Ctl(marks, tripped), Left(off));
      NothingAfter(out, State(Ctl(marks, tripped), Left(off)));
      KeepTail(off);
    }

    method KeepTail(off: nat)
      requires Valid() && off <= carryLen
      modifies this`carryLen, carry
      ensures Valid() && carryLen == old(carryLen) - off && Left(0) == old(Left(off))
    {
      if off > 0 {
        var n := carryLen - off;
        forall i | 0 <= i < n {
          carry[i] := carry[off + i];
        }
        carryLen := n;
      }
    }

    /** The payload's next bytes, behind what the carry holds. */
    method Append(es: seq<byte>, from: nat, take: nat)
      requires Valid() && carryLen + take <= CARRY_BYTES && from + take <= |es|
      modifies this`carryLen, carry
      ensures Valid() && Left(0) == old(Left(0)) + es[from..from + take]
    {
      forall i | 0 <= i < take {
        carry[carryLen + i] := es[from + i];
      }
      carryLen := carryLen + take;
    }

    /** As much of the payload as fits, after dropping a carry that is full. */
    method Round(es: seq<byte>, at: nat) returns (end: nat, ghost out: seq<Unit<P>>)
      requires Valid() && at < |es|
      modifies this, carry
      ensures Valid() && at < end <= |es| && emitted == old(emitted) + out && fedBytes == old(fedBytes)
      ensures LocalFeed(codec, old(Abs()), es[at..]) == Before(out, LocalFeed(codec, Abs(), es[end..]))
    {
      hide Drain, Lawful, Progresses, Before, Step, LocalFeed;
      LocalFeedStep(codec, Abs(), es, at);
      var space := CARRY_BYTES - carryLen;
      if space == 0 {
        carryLen := 0;
        synced := false;
        resyncs := Counted(resyncs);
        space := CARRY_BYTES;
      }
      assert Aged([], CARRY_BYTES) == [];
      assert Abs() == MakeRoom(Truehd(codec), old(Abs()));
      var take := Min(|es| - at, space);
      Append(es, at, take);
      out := DecodeCarry();
      end := at + take;
    }

    /** A payload of any size. */
    method FeedBytes(es: seq<byte>) returns (ghost out: seq<Unit<P>>)
      requires Valid()
      modifies this, carry
      ensures Valid() && emitted == old(emitted) + out
      ensures Result(Abs(), out) == LocalFeed(codec, old(Abs()), es)
      ensures fedBytes == (old(fedBytes) + |es|) % 0x1_0000_0000
    {
      hide Drain, Lawful, Progresses, Before, Step, LocalFeed;
      ghost var all := LocalFeed(codec, Abs(), es);
      fedBytes := (fedBytes + |es|) % 0x1_0000_0000;
      out := [];
      NothingBefore(all);
      var at := 0;
      assert es[0..] == es;
      while at < |es|
        invariant Valid() && at <= |es| && emitted == old(emitted) + out
        invariant fedBytes == (old(fedBytes) + |es|) % 0x1_0000_0000
        invariant all == Before(out, LocalFeed(codec, Abs(), es[at..]))
      {
        ghost var more;
        at, more := Round(es, at);
        BeforeBefore(out, more, LocalFeed(codec, Abs(), es[at..]));
        out := out + more;
      }
      assert es[at..] == [];
      NothingToFeed(codec, Abs());
      NothingAfter(out, Abs());
    }
  }

  lemma DrainsHunt<S(!new), P>(k: Codec<S, P>, c: Control<S>, w: seq<byte>)
    requires !c.synced && |w| >= MIN_UNIT
    ensures if HasMajorSync(w) then Drain(Truehd(k), c, w) == Drain(Truehd(k), Synced(c), w)
            else Drain(Truehd(k), c, w) == Before([], Drain(Truehd(k), Skipped(c), w[1..]))
  {
    hide Drain, Lawful, Progresses;
    DrainsStep(k, c, w);
    assert w[0..] == w;
    NothingBefore(Drain(Truehd(k), Synced(c), w));
  }

  lemma DrainsUnit<S(!new), P>(k: Codec<S, P>, c: Control<S>, w: seq<byte>)
    requires c.synced && |w| >= MIN_UNIT
    ensures var n := UnitLength(w);
            if n < MIN_UNIT then Drain(Truehd(k), c, w) == Before([], Drain(Truehd(k), Hunting(c), w[1..]))
            else if |w| < n then Step(k, c, w).Wait?
            else
              var (dec, u) := k.decode(c.dec, w[..n]);
              if u.None? then Drain(Truehd(k), c, w) == Before([], Drain(Truehd(k), Rejected(c, dec, n), w[n..]))
              else Drain(Truehd(k), c, w) == Before(if u.value.samples > 0 then [u.value] else [],
                                                    Drain(Truehd(k), Accepted(c, dec, u.value), w[n..]))
  {
    hide Drain, Lawful, Progresses;
    DrainsStep(k, c, w);
  }

  lemma TooLittle<S, P>(k: Codec<S, P>, c: Control<S>, w: seq<byte>)
    requires |w| < MIN_UNIT
    ensures Step(k, c, w).Wait?
  {
  }

  lemma NothingToFeed<S(!new), P>(k: Codec<S, P>, s: State<Control<S>>)
    requires |s.carry| <= CARRY_BYTES
    ensures LocalFeed(k, s, []) == Result(s, [])
  {
  }

  lemma LocalFeedStep<S(!new), P>(k: Codec<S, P>, s: State<Control<S>>, es: seq<byte>, at: nat)
    requires |s.carry| <= CARRY_BYTES && at < |es|
    ensures var room := MakeRoom(Truehd(k), s);
            var take := Min(|es| - at, CARRY_BYTES - |room.carry|);
            var d := Drain(Truehd(k), room.ctl, room.carry + es[at..at + take]);
            && 0 < take <= |es| - at
            && LocalFeed(k, s, es[at..]) == Before(d.out, LocalFeed(k, ForgetIn(d.state), es[at + take..]))
  {
    hide Drain, Lawful, Progresses, LocalFeed;
    LocalFeedUnfolds(k, s, es[at..]);
    TailInTwo(es, at, Min(|es| - at, CARRY_BYTES - |MakeRoom(Truehd(k), s).carry|));
  }

  lemma LocalFeedUnfolds<S(!new), P>(k: Codec<S, P>, s: State<Control<S>>, payload: seq<byte>)
    requires |s.carry| <= CARRY_BYTES && payload != []
    ensures var room := MakeRoom(Truehd(k), s);
            var take := Min(|payload|, CARRY_BYTES - |room.carry|);
            var d := Drain(Truehd(k), room.ctl, room.carry + payload[..take]);
            && 0 < take <= |payload|
            && LocalFeed(k, s, payload) == Before(d.out, LocalFeed(k, ForgetIn(d.state), payload[take..]))
  {
    hide Drain, Lawful, Progresses;
  }
}
