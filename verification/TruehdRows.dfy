/**
 TrueHD streams as they are written, a row of access units that starts with a major sync, and what the reader of
 TruehdStream makes of them.
 */
module TruehdRows {
  import opened Basics
  import opened CarryLoop
  import opened TruehdStream

  // ---- access units, written -----------------------------------------------------------------------------------

  /** An access unit: the nibble that checks its head, and what follows the two bytes of nibble and length. */
  datatype Access = Access(check: nat, body: seq<byte>)

  /** A unit's first two bytes: the check nibble, then its length in words of two bytes as twelve bits. */
  function UnitHead(check: nat, n: nat): (s: seq<byte>)
    requires check < 16 && n <= 8190
    ensures |s| == 2
  {
    [check * 16 + n / 512, n / 2 % 256]
  }

  predicate Writable(a: Access) {
    a.check < 16 && |a.body| % 2 == 0 && 6 <= |a.body| <= 8188
  }

  function UnitBytes(a: Access): (s: seq<byte>)
    requires Writable(a)
    ensures |s| == |a.body| + 2
  {
    UnitHead(a.check, |a.body| + 2) + a.body
  }

  /** Two bytes of timing stand ahead of the sync word, whose last bit tells MLP from TrueHD. */
  predicate StartsMajor(a: Access) {
    |a.body| >= 6 && (a.body[2..6] == [0xF8, 0x72, 0x6F, 0xBA] || a.body[2..6] == [0xF8, 0x72, 0x6F, 0xBB])
  }

  /** Every length is read back, whatever the check nibble and whatever follows. */
  lemma LengthsAreRead(check: nat, n: nat, rest: seq<byte>)
    requires check < 16 && n <= 8190 && n % 2 == 0
    ensures UnitLength(UnitHead(check, n) + rest) == n
  {
    var high: int := check * 16 + n / 512;
    assert high % 16 == n / 512;
    assert n / 512 * 256 + n / 2 % 256 == n / 2;
  }

  /** The major sync that the reader looks for is one of the two words behind the first four bytes, and nothing else. */
  lemma MajorSyncExactly(w: seq<byte>)
    requires |w| >= 8
    ensures HasMajorSync(w) <==> w[4..8] == [0xF8, 0x72, 0x6F, 0xBA] || w[4..8] == [0xF8, 0x72, 0x6F, 0xBB]
  {
    var s := w[4..8];
    assert s == [w[4], w[5], w[6], w[7]];
  }

  lemma MajorIsFound(a: Access, rest: seq<byte>)
    requires Writable(a) && StartsMajor(a)
    ensures HasMajorSync(UnitBytes(a) + rest)
  {
    var w := UnitBytes(a) + rest;
    assert w[4..8] == a.body[2..6];
    MajorSyncExactly(w);
  }

  /** A unit that says it has fewer than eight bytes is none: the reader hunts on from its second byte. */
  lemma ShortUnitsAreNone<S(!new), P>(k: Codec<S, P>, c: Control<S>, check: nat, n: nat, rest: seq<byte>)
    requires check < 16 && n < 8 && n % 2 == 0 && |rest| >= 6 && c.synced
    ensures var s := UnitHead(check, n) + rest;
            var d := Drain(Truehd(k), Hunting(c), s[1..]);
            Drain(Truehd(k), c, s) == d && !Hunting(c).synced && Hunting(c).resyncs == (c.resyncs + 1) % 0x1_0000_0000
  {
    hide Drain, Lawful, Progresses, UnitLength;
    var s := UnitHead(check, n) + rest;
    LengthsAreRead(check, n, rest);
    DrainsUnit(k, c, s);
    NothingBefore(Drain(Truehd(k), Hunting(c), s[1..]));
  }

  // ---- rows of units ----------------------------------------------------------------------------------------------

  predicate AllWritable(units: seq<Access>) {
    forall i :: 0 <= i < |units| ==> Writable(units[i])
  }

  function RowBytes(units: seq<Access>): seq<byte>
    requires AllWritable(units)
  {
    if units == [] then [] else UnitBytes(units[0]) + RowBytes(units[1..])
  }

  /** What becomes of a row: the decoder's state, the units that hold samples, and how many were taken or refused. */
  datatype Chained<S, P> = Chained(dec: S, out: seq<Unit<P>>, accepted: nat, refused: nat)

  /** The decoder gets each unit's own bytes, one unit after the other. */
  function Chain<S, P>(k: Codec<S, P>, dec: S, units: seq<Access>): Chained<S, P>
    requires AllWritable(units)
    decreases |units|
  {
    if units == [] then Chained(dec, [], 0, 0)
    else
      var (d, u) := k.decode(dec, UnitBytes(units[0]));
      var r := Chain(k, d, units[1..]);
      if u.None? then Chained(r.dec, r.out, r.accepted, r.refused + 1)
      else Chained(r.dec, (if u.value.samples > 0 then [u.value] else []) + r.out, r.accepted + 1, r.refused)
  }

  /** `run` units were refused just before; the decoder never refuses four in a row. */
  predicate NeverFour<S, P>(k: Codec<S, P>, dec: S, units: seq<Access>, run: nat)
    requires AllWritable(units)
    decreases |units|
  {
    units == [] ||
    var (d, u) := k.decode(dec, UnitBytes(units[0]));
    if u.None? then run + 1 < 4 && NeverFour(k, d, units[1..], run + 1) else NeverFour(k, d, units[1..], 0)
  }

  /** The fields behind a row: synced and without one more resync. */
  function RowEnd<S, P>(c: Control<S>, r: Chained<S, P>): Control<S> {
    Control(
      r.dec, true, (c.units + r.accepted) % 0x1_0000_0000, (c.badUnits + r.refused) % 0x1_0000_0000, c.resyncs,
      if c.first.None? && r.out != [] then Some(r.out[0].format) else c.first, [], false)
  }

  predicate CountersFit<S>(c: Control<S>) {
    c.units < 0x1_0000_0000 && c.badUnits < 0x1_0000_0000
  }

  /** Fewer than four units refused so far, and the framing not given up. */
  predicate Trusting<S>(c: Control<S>) {
    c.synced && !c.tripped && |c.marks| < 4
  }

  /** The control state behind one unit. */
  function UnitEnd<S, P>(k: Codec<S, P>, c: Control<S>, a: Access): Control<S>
    requires Writable(a)
  {
    var (d, u) := k.decode(c.dec, UnitBytes(a));
    match u
    case None => Rejected(c, d, |UnitBytes(a)|)
    case Some(unit) => Accepted(c, d, unit)
  }

  function UnitOut<S, P>(k: Codec<S, P>, c: Control<S>, a: Access): seq<Unit<P>>
    requires Writable(a)
  {
    var (_, u) := k.decode(c.dec, UnitBytes(a));
    if u.Some? && u.value.samples > 0 then [u.value] else []
  }

  lemma DrainsOne<S(!new), P>(k: Codec<S, P>, c: Control<S>, a: Access, rest: seq<byte>)
    requires Writable(a) && c.synced
    ensures Drain(Truehd(k), c, UnitBytes(a) + rest)
         == Before(UnitOut(k, c, a), Drain(Truehd(k), UnitEnd(k, c, a), rest))
  {
    hide Drain, Lawful, Progresses, Rejected, Accepted;
    var s := UnitBytes(a);
    var w := s + rest;
    LengthIsRead(a, rest);
    DrainsUnit(k, c, w);
    var n := UnitLength(w);
    assert w[..n] == s && w[n..] == rest;
    var (dec, u) := k.decode(c.dec, s);
    assert UnitEnd(k, c, a) == if u.None? then Rejected(c, dec, n) else Accepted(c, dec, u.value);
  }

  lemma LengthIsRead(a: Access, rest: seq<byte>)
    requires Writable(a)
    ensures UnitLength(UnitBytes(a) + rest) == |UnitBytes(a)| >= 8
  {
    hide UnitLength;
    LengthsAreRead(a.check, |a.body| + 2, a.body + rest);
    assert UnitBytes(a) + rest == UnitHead(a.check, |a.body| + 2) + (a.body + rest);
  }

  lemma StaysTrusting<S, P>(k: Codec<S, P>, c: Control<S>, a: Access)
    requires Writable(a) && Trusting(c) && NeverFour(k, c.dec, [a], |c.marks|)
    ensures var e := UnitEnd(k, c, a);
            && Trusting(e) && e.dec == k.decode(c.dec, UnitBytes(a)).0 && e.resyncs == c.resyncs
            && (k.decode(c.dec, UnitBytes(a)).1.None? ==>
                  && |e.marks| == |c.marks| + 1 && e.units == c.units && e.badUnits == Counted(c.badUnits)
                  && e.first == c.first)
            && (k.decode(c.dec, UnitBytes(a)).1.Some? ==>
                  && e.marks == [] && e.units == Counted(c.units) && e.badUnits == c.badUnits
                  && e.first == if c.first.None? && UnitOut(k, c, a) != [] then Some(UnitOut(k, c, a)[0].format)
                                else c.first)
  {
    hide Counted;
  }

  lemma CountOn(n: nat, a: nat)
    ensures (Counted(n) + a) % 0x1_0000_0000 == (n + (a + 1)) % 0x1_0000_0000
  {
  }

  lemma NeverFourAtOnce<S, P>(k: Codec<S, P>, dec: S, units: seq<Access>, run: nat)
    requires units != [] && AllWritable(units) && NeverFour(k, dec, units, run)
    ensures AllWritable([units[0]]) && NeverFour(k, dec, [units[0]], run)
    ensures Writable(units[0]) && AllWritable(units[1..])
  {
    hide Writable, UnitBytes;
    assert [units[0]][1..] == [];
  }

  lemma CountersStayFit<S>(c: Control<S>)
    requires CountersFit(c)
    ensures Counted(c.units) < 0x1_0000_0000 && Counted(c.badUnits) < 0x1_0000_0000
  {
  }

  /** A row from a synced state. */
  lemma {:induction false} DrainsRow<S(!new), P>(k: Codec<S, P>, c: Control<S>, units: seq<Access>)
    requires AllWritable(units) && Trusting(c) && CountersFit(c) && NeverFour(k, c.dec, units, |c.marks|)
    ensures var r, d := Chain(k, c.dec, units), Drain(Truehd(k), c, RowBytes(units));
            && d.out == r.out && d.state.carry == [] && Forget(d.state.ctl) == RowEnd(c, r) && !d.state.ctl.tripped
    decreases |units|
  {
    hide Drain, Lawful, Progresses, Writable, UnitBytes, UnitEnd, UnitOut;
    if units == [] {
      TooLittle(k, c, []);
      DrainsStep(k, c, []);
      EndOfRow(k, c);
    } else {
      NeverFourAtOnce(k, c.dec, units, |c.marks|);
      var a, rest := units[0], units[1..];
      DrainsOne(k, c, a, RowBytes(rest));
      StaysTrusting(k, c, a);
      var e := UnitEnd(k, c, a);
      DrainsRow(k, e, rest);
      EndsInTurn(k, c, units);
    }
  }

  lemma EndOfRow<S, P>(k: Codec<S, P>, c: Control<S>)
    requires Trusting(c) && CountersFit(c)
    ensures Forget(c) == RowEnd(c, Chain(k, c.dec, [])) && !c.tripped
  {
  }

  lemma EndsInTurn<S, P>(k: Codec<S, P>, c: Control<S>, units: seq<Access>)
    requires units != [] && AllWritable(units) && Trusting(c) && CountersFit(c)
    requires NeverFour(k, c.dec, units, |c.marks|)
    ensures Writable(units[0]) && AllWritable(units[1..])
    ensures var e := UnitEnd(k, c, units[0]);
            var r, q := Chain(k, c.dec, units), Chain(k, e.dec, units[1..]);
            r.out == UnitOut(k, c, units[0]) + q.out && RowEnd(e, q) == RowEnd(c, r) && CountersFit(e)
  {
    NeverFourAtOnce(k, c.dec, units, |c.marks|);
    hide Writable, AllWritable, UnitBytes, UnitEnd, UnitOut, Trusting, NeverFour, Counted, Chain;
    StaysTrusting(k, c, units[0]);
    CountersStayFit(c);
    var q := Chain(k, UnitEnd(k, c, units[0]).dec, units[1..]);
    OutOf(k, c, units[0]);
    ChainIs(k, c.dec, units);
    hide RowEnd;
    var (_, u) := k.decode(c.dec, UnitBytes(units[0]));
    EndFields(c, UnitEnd(k, c, units[0]), Chain(k, c.dec, units), q, UnitOut(k, c, units[0]), u.Some?);
  }

  /** The fields behind a row are those behind its first unit and then the others. */
  lemma EndFields<S, P>(c: Control<S>, e: Control<S>, r: Chained<S, P>, q: Chained<S, P>, out: seq<Unit<P>>, ok: bool)
    requires e.resyncs == c.resyncs && r.dec == q.dec && r.out == out + q.out && (!ok ==> out == [])
    requires e.units == (if ok then Counted(c.units) else c.units)
    requires e.badUnits == (if ok then c.badUnits else Counted(c.badUnits))
    requires e.first == if c.first.None? && out != [] then Some(out[0].format) else c.first
    requires r.accepted == q.accepted + (if ok then 1 else 0) && r.refused == q.refused + (if ok then 0 else 1)
    ensures RowEnd(e, q) == RowEnd(c, r)
  {
    hide Counted;
    CountOn(c.units, q.accepted);
    CountOn(c.badUnits, q.refused);
  }

  lemma ChainIs<S, P>(k: Codec<S, P>, dec: S, units: seq<Access>)
    requires AllWritable(units) && units != []
    ensures var (d, u) := k.decode(dec, UnitBytes(units[0]));
            var r, q := Chain(k, dec, units), Chain(k, d, units[1..]);
            && r.dec == q.dec
            && r.out == (if u.Some? && u.value.samples > 0 then [u.value] else []) + q.out
            && r.accepted == q.accepted + (if u.Some? then 1 else 0)
            && r.refused == q.refused + (if u.None? then 1 else 0)
  {
    hide UnitBytes, Writable;
    var q := Chain(k, k.decode(dec, UnitBytes(units[0])).0, units[1..]);
    assert [] + q.out == q.out;
  }

  lemma OutOf<S, P>(k: Codec<S, P>, c: Control<S>, a: Access)
    requires Writable(a)
    ensures var u := k.decode(c.dec, UnitBytes(a)).1;
            UnitOut(k, c, a) == if u.Some? && u.value.samples > 0 then [u.value] else []
  {
    hide UnitBytes;
  }

  /** A reader that is not synced finds the first unit's sync word. */
  lemma SyncsAtOnce<S(!new), P>(k: Codec<S, P>, c: Control<S>, units: seq<Access>)
    requires AllWritable(units) && units != [] && StartsMajor(units[0]) && !c.synced
    ensures Drain(Truehd(k), c, RowBytes(units)) == Drain(Truehd(k), Synced(c), RowBytes(units))
  {
    hide Drain, Lawful, Progresses, UnitBytes, HasMajorSync, StartsMajor;
    assert Writable(units[0]);
    MajorIsFound(units[0], RowBytes(units[1..]));
    LengthIsRead(units[0], RowBytes(units[1..]));
    DrainsHunt(k, c, RowBytes(units));
  }

  lemma FeedDrains<S(!new), P>(k: Codec<S, P>, c: Control<S>, w: seq<byte>)
    ensures Feed(Truehd(k), State(c, []), w) == Drain(Truehd(k), c, w)
  {
    hide Drain, Feed, Progresses, PrefixStable;
    var m := Truehd(k);
    forall d, v | |v| >= MAX_UNIT
      ensures m.step(d, v).Take?
    {
      assert m.step(d, v) == Step(k, d, v);
    }
    TooLittle(k, c, []);
    assert m.step(c, []) == Step(k, c, []);
    FeedIsDrain(m, State(c, []), w, MAX_UNIT);
    assert [] + w == w;
  }

  /**
   A row of units that starts with a major sync, or behind a unit already in sync, is decoded unit by unit, each from
   exactly its own bytes, in order and without a resync, however it is cut into payloads, as long as the decoder does
   not refuse four in a row; refused units are counted and nothing comes out of them.
   */
  lemma RowsAreDecoded<S(!new), P>(k: Codec<S, P>, c: Control<S>, units: seq<Access>, payloads: seq<seq<byte>>)
    requires AllWritable(units) && units != [] && (c.synced || StartsMajor(units[0]))
    requires c.marks == [] && !c.tripped && CountersFit(c) && NeverFour(k, c.dec, units, 0)
    requires Flatten(payloads) == RowBytes(units)
    ensures var r, a := Chain(k, c.dec, units), LocalFeedAll(k, State(c, []), payloads);
            a.out == r.out && a.state.carry == [] && Forget(a.state.ctl) == RowEnd(c, r)
  {
    hide Drain, Lawful, Progresses, Feed, FeedAll, LocalFeedAll, RowBytes, NeverFour, Chain, Writable, StartsMajor,
         Flatten, Forget, RowEnd, AllWritable;
    var s := State(c, []);
    FeedIndependence(Truehd(k), s, payloads);
    RowIsFed(k, c, units);
    AlikeItself(c);
    FeedAllsAlike(k, s, s, payloads);
  }

  /** Fed as one, and with what was refused remembered. */
  lemma RowIsFed<S(!new), P>(k: Codec<S, P>, c: Control<S>, units: seq<Access>)
    requires AllWritable(units) && units != [] && (c.synced || StartsMajor(units[0]))
    requires c.marks == [] && !c.tripped && CountersFit(c) && NeverFour(k, c.dec, units, 0)
    ensures var r, a := Chain(k, c.dec, units), Feed(Truehd(k), State(c, []), RowBytes(units));
            && a.out == r.out && a.state.carry == [] && Forget(a.state.ctl) == RowEnd(c, r) && !a.state.ctl.tripped
  {
    hide Drain, Lawful, Progresses, Feed, RowBytes, NeverFour, Chain, Writable, StartsMajor, Forget;
    FeedDrains(k, c, RowBytes(units));
    if !c.synced {
      SyncsAtOnce(k, c, units);
    }
    DrainsRow(k, Synced(c), units);
    assert c.synced ==> Synced(c) == c;
  }
}
