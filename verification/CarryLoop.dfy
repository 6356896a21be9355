/**
 The loop that the FLAC, DTS and TrueHD readers share: append what arrived to a carry buffer, take
 everything decidable off its front, keep the tail.  A reader is given by what it does at the front
 of the carry (`step`).  A step either needs more bytes or consumes some of them.  When no step
 changes its mind once it has more bytes than it needed, the reader is a function of the byte stream
 alone, however the stream was cut.
 */
module CarryLoop {
  import opened Basics

  datatype Verdict<+C, +O> = Wait | Take(n: nat, next: C, out: seq<O>)

  /**
   `cap` is the carry buffer's size, `overflow` what a carry that filled up without a verdict does to
   the control state; `rank` bounds the steps that consume nothing.
   */
  datatype Reader<!C, !O> = Reader(
    step: (C, seq<byte>) -> Verdict<C, O>,
    rank: C -> nat,
    cap: nat,
    overflow: C -> C)

  datatype State<+C> = State(ctl: C, carry: seq<byte>)

  datatype Result<+C, +O> = Result(state: State<C>, out: seq<O>)

  ghost predicate Progresses<C(!new), O>(m: Reader<C, O>) {
    forall c, w :: m.step(c, w).Take? ==>
      m.step(c, w).n <= |w| && (m.step(c, w).n == 0 ==> m.rank(m.step(c, w).next) < m.rank(c))
  }

  /** A step that is taken on the bytes at hand is taken, and is the same, with more bytes behind them. */
  ghost predicate PrefixStable<C(!new), O>(m: Reader<C, O>) {
    forall c, w, v :: w <= v && m.step(c, w).Take? ==> m.step(c, v) == m.step(c, w)
  }

  ghost predicate Lawful<C(!new), O>(m: Reader<C, O>) {
    m.cap > 0 && Progresses(m) && PrefixStable(m)
  }

  /** Takes steps until one has to wait. */
  ghost function Drain<C(!new), O>(m: Reader<C, O>, c: C, w: seq<byte>): (r: Result<C, O>)
    requires Progresses(m)
    ensures |r.state.carry| <= |w|
    ensures m.step(r.state.ctl, r.state.carry).Wait?
    decreases |w|, m.rank(c)
  {
    match m.step(c, w)
    case Wait => Result(State(c, w), [])
    case Take(n, next, out) => Before(out, Drain(m, next, w[n..]))
  }

  function Before<C, O>(out: seq<O>, r: Result<C, O>): Result<C, O> {
    Result(r.state, out + r.out)
  }

  /** A payload, as the readers take it: as much as fits, then the drain, then the rest. */
  ghost function Feed<C(!new), O>(m: Reader<C, O>, s: State<C>, payload: seq<byte>): (r: Result<C, O>)
    requires Progresses(m) && m.cap > 0
    requires |s.carry| <= m.cap
    ensures |r.state.carry| <= m.cap
    decreases |payload|
  {
    if payload == [] then Result(s, [])
    else
      var s1 := MakeRoom(m, s);
      var take := Min(|payload|, m.cap - |s1.carry|);
      var d := Drain(m, s1.ctl, s1.carry + payload[..take]);
      Before(d.out, Feed(m, d.state, payload[take..]))
  }

  function MakeRoom<C, O>(m: Reader<C, O>, s: State<C>): State<C> {
    if |s.carry| == m.cap then State(m.overflow(s.ctl), []) else s
  }

  /** The payloads of one stream, in order. */
  ghost function FeedAll<C(!new), O>(m: Reader<C, O>, s: State<C>, payloads: seq<seq<byte>>): (r: Result<C, O>)
    requires Progresses(m) && m.cap > 0
    requires |s.carry| <= m.cap
    ensures |r.state.carry| <= m.cap
    decreases |payloads|
  {
    if payloads == [] then Result(s, [])
    else
      var a := Feed(m, s, payloads[0]);
      Before(a.out, FeedAll(m, a.state, payloads[1..]))
  }

  function Flatten(payloads: seq<seq<byte>>): seq<byte> {
    if payloads == [] then [] else payloads[0] + Flatten(payloads[1..])
  }

  lemma StableStep<C(!new), O>(m: Reader<C, O>, c: C, w: seq<byte>, more: seq<byte>)
    requires PrefixStable(m)
    requires m.step(c, w).Take? && m.step(c, w).n <= |w|
    ensures m.step(c, w + more) == m.step(c, w)
    ensures var n := m.step(c, w).n; (w + more)[n..] == w[n..] + more
  {
    assert w <= w + more;
  }

  /** One step of a drain. */
  lemma DrainStep<C(!new), O>(m: Reader<C, O>, c: C, w: seq<byte>)
    requires Progresses(m)
    requires m.step(c, w).Take?
    ensures var t := m.step(c, w);
            && t.n <= |w| && (t.n == 0 ==> m.rank(t.next) < m.rank(c))
            && Drain(m, c, w) == Before(t.out, Drain(m, t.next, w[t.n..]))
  {
  }

  /** Draining early loses nothing: what a drain kept, with more bytes behind it, drains to the same end. */
  lemma {:induction false} DrainInTwo<C(!new), O>(m: Reader<C, O>, c: C, w: seq<byte>, more: seq<byte>)
    requires Progresses(m) && PrefixStable(m)
    ensures var a := Drain(m, c, w);
            Drain(m, c, w + more) == Before(a.out, Drain(m, a.state.ctl, a.state.carry + more))
    decreases |w|, m.rank(c)
  {
    if m.step(c, w).Wait? {
      assert Drain(m, c, w) == Result(State(c, w), []);
      assert Before([], Drain(m, c, w + more)) == Drain(m, c, w + more);
    } else {
      hide Progresses, PrefixStable, Drain;
      var Take(n, next, out) := m.step(c, w);
      DrainStep(m, c, w);
      StableStep(m, c, w, more);
      DrainStep(m, c, w + more);
      DrainInTwo(m, next, w[n..], more);
      var a := Drain(m, next, w[n..]);
      BeforeBefore(out, a.out, Drain(m, a.state.ctl, a.state.carry + more));
    }
  }

  lemma BeforeBefore<C, O>(a: seq<O>, b: seq<O>, r: Result<C, O>)
    ensures Before(a, Before(b, r)) == Before(a + b, r)
  {
    assert a + (b + r.out) == a + b + r.out;
  }

  lemma NothingBefore<C, O>(r: Result<C, O>)
    ensures Before([], r) == r
  {
    assert [] + r.out == r.out;
  }

  lemma NothingAfter<C, O>(out: seq<O>, s: State<C>)
    ensures Before(out, Result(s, [])) == Result(s, out)
  {
  }

  /** One round of the payload loop, from byte `at` on. */
  lemma FeedStep<C(!new), O>(m: Reader<C, O>, s: State<C>, es: seq<byte>, at: nat)
    requires Progresses(m) && m.cap > 0 && |s.carry| <= m.cap && at < |es|
    ensures var room := MakeRoom(m, s);
            var take := Min(|es| - at, m.cap - |room.carry|);
            var d := Drain(m, room.ctl, room.carry + es[at..at + take]);
            0 < take <= |es| - at
            && Feed(m, s, es[at..]) == Before(d.out, Feed(m, d.state, es[at + take..]))
  {
    hide *;
    FeedUnfolds(m, s, es[at..]);
    TailInTwo(es, at, Min(|es| - at, m.cap - |MakeRoom(m, s).carry|));
  }

  lemma FeedUnfolds<C(!new), O>(m: Reader<C, O>, s: State<C>, payload: seq<byte>)
    requires Progresses(m) && m.cap > 0 && |s.carry| <= m.cap && payload != []
    ensures var room := MakeRoom(m, s);
            var take := Min(|payload|, m.cap - |room.carry|);
            var d := Drain(m, room.ctl, room.carry + payload[..take]);
            0 < take <= |payload| && |room.carry| + take <= m.cap && |d.state.carry| <= m.cap
            && Feed(m, s, payload) == Before(d.out, Feed(m, d.state, payload[take..]))
  {
    hide Drain, Progresses;
  }

  lemma FedAll<C(!new), O>(m: Reader<C, O>, s: State<C>)
    requires Progresses(m) && m.cap > 0 && |s.carry| <= m.cap
    ensures Feed(m, s, []) == Result(s, [])
  {
  }

  lemma TailInTwo<T>(s: seq<T>, at: nat, n: nat)
    requires at + n <= |s|
    ensures s[at..][..n] == s[at..at + n] && s[at..][n..] == s[at + n..]
  {
  }

  /** One round of the feed loop: `first` is what fits of a payload. */
  lemma FeedRound<C(!new), O>(m: Reader<C, O>, s: State<C>, first: seq<byte>, rest: seq<byte>)
    requires Progresses(m) && |s.carry| < m.cap
    requires first != [] && |first| <= m.cap - |s.carry|
    requires rest == [] || |first| == m.cap - |s.carry|
    ensures var d := Drain(m, s.ctl, s.carry + first);
            Feed(m, s, first + rest) == Before(d.out, Feed(m, d.state, rest))
  {
    assert (first + rest)[..|first|] == first && (first + rest)[|first|..] == rest;
  }

  /** The first part of a payload may be drained on its own if it fits. */
  lemma {:induction false} FeedSplitsWithinSpace<C(!new), O>(m: Reader<C, O>, s: State<C>, p: seq<byte>, q: seq<byte>)
    requires Lawful(m)
    requires |s.carry| + |p| <= m.cap && p != []
    ensures var b := Drain(m, s.ctl, s.carry + p);
            Feed(m, s, p + q) == Before(b.out, Feed(m, b.state, q))
    decreases |q|
  {
    hide Progresses, PrefixStable, Drain, Feed;
    var k := Min(|q|, m.cap - |s.carry| - |p|);
    var q1, q2 := q[..k], q[k..];
    CutAndJoin(s.carry, p, q, k);
    FeedRound(m, s, p + q1, q2);
    DrainInTwo(m, s.ctl, s.carry + p, q1);
    var b := Drain(m, s.ctl, s.carry + p);
    if k > 0 {
      var d := Drain(m, b.state.ctl, b.state.carry + q1);
      BeforeBefore(b.out, d.out, Feed(m, d.state, q2));
      FeedSplitsWithinSpace(m, b.state, q1, q2);
    } else {
      assert b.state.carry + q1 == b.state.carry;
      DrainOfRest(m, b.state);
      NothingAfter(b.out, b.state);
    }
  }

  lemma CutAndJoin<T>(c: seq<T>, p: seq<T>, q: seq<T>, k: nat)
    requires k <= |q|
    ensures q[..k] + q[k..] == q && p + q == (p + q[..k]) + q[k..] && c + (p + q[..k]) == (c + p) + q[..k]
    ensures k == 0 ==> q[..k] == [] && q[k..] == q
  {
  }

  lemma DrainOfRest<C(!new), O>(m: Reader<C, O>, s: State<C>)
    requires Progresses(m) && m.step(s.ctl, s.carry).Wait?
    ensures Drain(m, s.ctl, s.carry) == Result(s, [])
  {
  }

  /** The case of a payload cut inside what still fits. */
  lemma FeedInTwoWithinSpace<C(!new), O>(m: Reader<C, O>, s: State<C>, p: seq<byte>, q: seq<byte>)
    requires Lawful(m)
    requires |s.carry| + |p| <= m.cap && p != []
    ensures var a := Feed(m, s, p);
            Feed(m, s, p + q) == Before(a.out, Feed(m, a.state, q))
  {
    FeedSplitsWithinSpace(m, s, p, q);
    FeedSplitsWithinSpace(m, s, p, []);
    assert p + [] == p;
    var b := Drain(m, s.ctl, s.carry + p);
    assert Feed(m, b.state, []) == Result(b.state, []);
    assert b.out + [] == b.out;
  }

  /** A payload cut in two is the payload. */
  lemma {:induction false} FeedInTwo<C(!new), O>(m: Reader<C, O>, s: State<C>, p: seq<byte>, q: seq<byte>)
    requires Lawful(m)
    requires |s.carry| <= m.cap
    ensures var a := Feed(m, s, p);
            Feed(m, s, p + q) == Before(a.out, Feed(m, a.state, q))
    decreases |p|, 1
  {
    if p == [] {
      assert p + q == q;
      var r := Feed(m, s, q);
      assert [] + r.out == r.out;
    } else {
      var s1 := MakeRoom(m, s);
      FullCarryIsDropped(m, s, p);
      FullCarryIsDropped(m, s, p + q);
      if |s1.carry| + |p| <= m.cap {
        FeedInTwoWithinSpace(m, s1, p, q);
      } else {
        FeedInTwoOverflowing(m, s1, p, q);
      }
    }
  }

  lemma {:induction false} FeedInTwoOverflowing<C(!new), O>(m: Reader<C, O>, s: State<C>, p: seq<byte>, q: seq<byte>)
    requires Lawful(m)
    requires |s.carry| < m.cap < |s.carry| + |p|
    ensures var a := Feed(m, s, p);
            Feed(m, s, p + q) == Before(a.out, Feed(m, a.state, q))
    decreases |p|, 0
  {
    var space := m.cap - |s.carry|;
    var p1, p2 := p[..space], p[space..];
    assert p + q == p1 + (p2 + q) && p == p1 + p2;
    FeedRound(m, s, p1, p2);
    FeedRound(m, s, p1, p2 + q);
    var d := Drain(m, s.ctl, s.carry + p1);
    FeedInTwo(m, d.state, p2, q);
    var a := Feed(m, d.state, p2);
    BeforeBefore(d.out, a.out, Feed(m, a.state, q));
  }

  lemma FullCarryIsDropped<C(!new), O>(m: Reader<C, O>, s: State<C>, p: seq<byte>)
    requires Lawful(m)
    requires |s.carry| <= m.cap && p != []
    ensures Feed(m, s, p) == Feed(m, MakeRoom(m, s), p)
  {
  }

  /**
   Feed independence: the reader's outputs and its final state are those of the whole stream fed at
   once, for every way of cutting it, full carries included.
   */
  lemma {:induction false} FeedIndependence<C(!new), O>(m: Reader<C, O>, s: State<C>, payloads: seq<seq<byte>>)
    requires Lawful(m)
    requires |s.carry| <= m.cap
    ensures FeedAll(m, s, payloads) == Feed(m, s, Flatten(payloads))
    decreases |payloads|
  {
    if payloads != [] {
      var a := Feed(m, s, payloads[0]);
      FeedIndependence(m, a.state, payloads[1..]);
      FeedInTwo(m, s, payloads[0], Flatten(payloads[1..]));
    }
  }

  /** What is longer than the carry and would be taken whole is lost up to where the carry was full. */
  lemma FullCarryIsLost<C(!new), O>(m: Reader<C, O>, c: C, u: seq<byte>, rest: seq<byte>)
    requires Lawful(m) && m.step(c, u).Take? && m.step(c, u).n == |u| > m.cap
    ensures Feed(m, State(c, []), u + rest) == Feed(m, State(m.overflow(c), []), (u + rest)[m.cap..])
  {
    var w, more := u[..m.cap], u[m.cap..] + rest;
    assert u + rest == w + more && (u + rest)[m.cap..] == more;
    assert w <= u;
    assert m.step(c, w).Wait?;
    hide Drain, Feed;
    assert [] + w == w;
    FeedRound(m, State(c, []), w, more);
    DrainOfRest(m, State(c, w));
    NothingBefore(Feed(m, State(c, w), more));
    FullCarryIsDropped(m, State(c, w), more);
  }

  /**
   A reader that never waits on `bound` bytes or more never has a carry of `bound` bytes after a drain, so the
   branch for a full carry is not reached when `bound` is within the buffer.
   */
  lemma {:induction false} CarryStaysBelow<C(!new), O>(m: Reader<C, O>, s: State<C>, payloads: seq<seq<byte>>,
                                                         bound: nat)
    requires Lawful(m)
    requires forall c, w :: |w| >= bound ==> m.step(c, w).Take?
    requires |s.carry| < bound <= m.cap
    ensures |FeedAll(m, s, payloads).state.carry| < bound
    decreases |payloads|
  {
    if payloads != [] {
      FeedStaysBelow(m, s, payloads[0], bound);
      CarryStaysBelow(m, Feed(m, s, payloads[0]).state, payloads[1..], bound);
    }
  }

  /** What such a reader keeps between payloads is what a drain of all it was fed keeps. */
  lemma {:induction false} FeedIsDrain<C(!new), O>(m: Reader<C, O>, s: State<C>, payload: seq<byte>, bound: nat)
    requires Lawful(m) && m.step(s.ctl, s.carry).Wait?
    requires forall c, w :: |w| >= bound ==> m.step(c, w).Take?
    requires |s.carry| < bound <= m.cap
    ensures Feed(m, s, payload) == Drain(m, s.ctl, s.carry + payload)
    decreases |payload|
  {
    hide Progresses, PrefixStable, Drain, Feed;
    if payload == [] {
      FedAll(m, s);
      assert s.carry + payload == s.carry;
      DrainOfRest(m, s);
    } else {
      FeedUnfolds(m, s, payload);
      var take := Min(|payload|, m.cap - |s.carry|);
      var p, q := payload[..take], payload[take..];
      var d := Drain(m, s.ctl, s.carry + p);
      DrainInTwo(m, s.ctl, s.carry + p, q);
      assert s.carry + payload == s.carry + p + q;
      FeedIsDrain(m, d.state, q, bound);
    }
  }

  lemma {:induction false} FeedStaysBelow<C(!new), O>(m: Reader<C, O>, s: State<C>, payload: seq<byte>, bound: nat)
    requires Lawful(m)
    requires forall c, w :: |w| >= bound ==> m.step(c, w).Take?
    requires |s.carry| < bound <= m.cap
    ensures |Feed(m, s, payload).state.carry| < bound
    decreases |payload|
  {
    hide Progresses, PrefixStable, Drain, Feed;
    if payload == [] {
      FedAll(m, s);
    } else {
      FeedUnfolds(m, s, payload);
      var take := Min(|payload|, m.cap - |s.carry|);
      var d := Drain(m, s.ctl, s.carry + payload[..take]);
      FeedStaysBelow(m, d.state, payload[take..], bound);
    }
  }
}
