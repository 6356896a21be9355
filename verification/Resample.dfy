/**
 The streaming rate converter of source/audio/resample.c, against the formula its header gives: output k is made at
 input time k * M / L, from the T input frames around it, with silence before the first.  Samples are reals; weights
 are any.
 */
module Resample {
  import opened Basics

  const CHUNK := 4096
  const OUT_RATE := 48000

  /** One sample for each channel. */
  type Frame = seq<real>

  // ---- the formula ------------------------------------------------------------------------------------------

  /** L outputs for M inputs; T weights for each of L phases. */
  datatype Filter = Filter(L: nat, M: nat, T: nat, tab: seq<seq<real>>, ch: nat) {
    ghost predicate Valid() {
      && L > 0 && M > 0 && T >= 2 && T % 2 == 0 && |tab| == L
      && forall p :: 0 <= p < L ==> |tab[p]| == T
    }
  }

  function Silence(ch: nat): Frame { seq(ch, _ => 0.0) }

  predicate Framed(x: seq<Frame>, ch: nat) { forall i :: 0 <= i < |x| ==> |x[i]| == ch }

  /** Input frame i, with silence before the first. */
  function At(x: seq<Frame>, ch: nat, i: int): (f: Frame)
    requires i < |x| && Framed(x, ch)
    ensures |f| == ch
  {
    if i < 0 then Silence(ch) else x[i]
  }

  /** Where output k is made: a whole number of input frames, and a phase. */
  function Time(f: Filter, k: nat): nat requires f.L > 0 { k * f.M / f.L }

  function Phase(f: Filter, k: nat): (p: nat) requires f.L > 0 ensures p < f.L { k * f.M % f.L }

  /** The first n terms of channel c's weighted sum. */
  function Sum(g: seq<real>, x: seq<Frame>, ch: nat, from: int, c: nat, n: nat): real
    requires n <= |g| && from + n <= |x| && Framed(x, ch) && c < ch
  {
    if n == 0 then 0.0 else Sum(g, x, ch, from, c, n - 1) + g[n - 1] * At(x, ch, from + (n - 1))[c]
  }

  /** Output k can be made once its last input frame is there. */
  predicate Ready(f: Filter, k: nat, n: nat) requires f.L > 0 { Time(f, k) + f.T / 2 < n }

  function Output(f: Filter, x: seq<Frame>, k: nat): (o: Frame)
    requires f.Valid() && Framed(x, f.ch) && Ready(f, k, |x|)
    ensures |o| == f.ch
  {
    seq(f.ch, c requires 0 <= c < f.ch =>
      Sum(f.tab[Phase(f, k)], x, f.ch, Time(f, k) - (f.T / 2 - 1), c, f.T))
  }

  /** k outputs have been made of n inputs: all that can be. */
  predicate Made(f: Filter, k: nat, n: nat)
    requires f.L > 0
  {
    !Ready(f, k, n) && forall j :: 0 <= j < k ==> Ready(f, j, n)
  }

  // ---- arithmetic ----------------------------------------------------------------------------------------------

  lemma Parts(x: nat, d: nat)
    requires d > 0
    ensures x == d * (x / d) + x % d
  {
  }

  /** The next output's time and phase from this one's. */
  lemma TimeAdvances(f: Filter, k: nat)
    requires f.L > 0
    ensures Time(f, k + 1) == Time(f, k) + (Phase(f, k) + f.M) / f.L
    ensures Phase(f, k + 1) == (Phase(f, k) + f.M) % f.L
  {
    NextQuotient(k, f.M, f.L);
  }

  lemma NextQuotient(k: nat, m: nat, l: nat)
    requires l > 0
    ensures (k + 1) * m / l == k * m / l + (k * m % l + m) / l
    ensures (k + 1) * m % l == (k * m % l + m) % l
  {
    OneMore(k, m);
    QuotientOfSum(k * m, m, l);
  }

  lemma QuotientOfSum(x: nat, m: nat, l: nat)
    requires l > 0
    ensures (x + m) / l == x / l + (x % l + m) / l && (x + m) % l == (x % l + m) % l
  {
    var q, r := x / l, x % l;
    var q', r' := (r + m) / l, (r + m) % l;
    Parts(x, l);
    Parts(r + m, l);
    RegroupSum(l, q, q');
    DivMod(q + q', l, r');
  }

  lemma OneMore(k: nat, m: nat)
    ensures (k + 1) * m == k * m + m
  {
  }

  lemma RegroupSum(l: nat, q: nat, q': nat)
    ensures (q + q') * l == l * q + l * q'
  {
  }

  lemma {:induction false} TimeIsMonotone(f: Filter, j: nat, k: nat)
    requires f.L > 0 && j <= k
    ensures Time(f, j) <= Time(f, k)
    decreases k
  {
    hide Time, Phase;
    if j < k {
      TimeIsMonotone(f, j, k - 1);
      TimeGrows(f, k - 1);
    }
  }

  lemma TimeGrows(f: Filter, k: nat)
    requires f.L > 0
    ensures Time(f, k) <= Time(f, k + 1)
  {
    hide Time, Phase;
    TimeAdvances(f, k);
    IsNotNegative(Phase(f, k) + f.M, f.L);
  }

  lemma IsNotNegative(x: nat, d: nat)
    requires d > 0
    ensures x / d >= 0
  {
  }

  /** Outputs become ready in order, and only one count fits. */
  lemma MadeIsUnique(f: Filter, j: nat, k: nat, n: nat)
    requires f.L > 0 && Made(f, j, n) && Made(f, k, n)
    ensures j == k
  {
  }

  /** n inputs make at most n * L / M outputs, and one more. */
  lemma FewOutputs(f: Filter, k0: nat, k: nat, n0: nat, n: nat)
    requires f.L > 0 && f.M > 0 && k0 <= k && n0 <= n
    requires !Ready(f, k0, n0) && Ready(f, k, n)
    ensures k - k0 <= (n - n0) * f.L / f.M
  {
    var a, b := k * f.M, k0 * f.M;
    Parts(a, f.L);
    Parts(b, f.L);
    var d := n - n0;
    assert a / f.L + 1 <= b / f.L + d;
    MulMono(f.L, a / f.L + 1, b / f.L + d);
    Bound(f.L, a / f.L, b / f.L, d);
    assert a < b + d * f.L;
    Difference(k, k0, f.M);
    AtMost(k - k0, f.M, d * f.L);
  }

  lemma Bound(l: nat, x: nat, y: nat, d: nat)
    ensures l * (x + 1) == l * x + l && l * (y + d) == l * y + d * l
  {
  }

  lemma Difference(k: nat, k0: nat, m: nat)
    requires k0 <= k
    ensures k * m - k0 * m == (k - k0) * m
  {
  }

  lemma AtMost(a: nat, m: nat, x: nat)
    requires m > 0 && a * m < x
    ensures a <= x / m
  {
    Parts(x, m);
    if a > x / m {
      MulMono(m, x / m + 1, a);
    }
  }

  // ---- outputs of a longer input ------------------------------------------------------------------------------------

  lemma {:induction false} SumOfLonger(g: seq<real>, x: seq<Frame>, y: seq<Frame>, ch: nat, from: int, c: nat, n: nat)
    requires n <= |g| && from + n <= |x| && Framed(x, ch) && Framed(y, ch) && c < ch && x <= y
    ensures Sum(g, x, ch, from, c, n) == Sum(g, y, ch, from, c, n)
  {
    if n > 0 {
      SumOfLonger(g, x, y, ch, from, c, n - 1);
    }
  }

  /** Later input does not change an output. */
  lemma OutputOfLonger(f: Filter, x: seq<Frame>, y: seq<Frame>, k: nat)
    requires f.Valid() && Framed(x, f.ch) && Framed(y, f.ch) && x <= y && Ready(f, k, |x|)
    ensures Ready(f, k, |y|) && Output(f, x, k) == Output(f, y, k)
  {
    hide Sum, At, Time, Phase;
    forall c | 0 <= c < f.ch
      ensures Output(f, x, k)[c] == Output(f, y, k)[c]
    {
      SumOfLonger(f.tab[Phase(f, k)], x, y, f.ch, Time(f, k) - (f.T / 2 - 1), c, f.T);
    }
  }

  /** These are outputs k, k + 1, ... of the input. */
  ghost predicate AreOutputs(out: seq<Frame>, f: Filter, x: seq<Frame>, k: nat)
    requires f.Valid() && Framed(x, f.ch)
  {
    forall i :: 0 <= i < |out| ==> IsOutput(out[i], f, x, k + i)
  }

  ghost predicate IsOutput(o: Frame, f: Filter, x: seq<Frame>, k: nat)
    requires f.Valid() && Framed(x, f.ch)
  {
    Ready(f, k, |x|) && o == Output(f, x, k)
  }

  lemma OutputsOfLonger(out: seq<Frame>, f: Filter, x: seq<Frame>, y: seq<Frame>, k: nat)
    requires f.Valid() && Framed(x, f.ch) && Framed(y, f.ch) && x <= y && AreOutputs(out, f, x, k)
    ensures AreOutputs(out, f, y, k)
  {
    hide Output, Ready;
    forall i | 0 <= i < |out|
      ensures IsOutput(out[i], f, y, k + i)
    {
      assert IsOutput(out[i], f, x, k + i);
      OutputOfLonger(f, x, y, k + i);
    }
  }

  lemma OneMoreOutput(out: seq<Frame>, f: Filter, x: seq<Frame>, k: nat, o: Frame)
    requires f.Valid() && Framed(x, f.ch) && AreOutputs(out, f, x, k)
    requires Ready(f, k + |out|, |x|) && o == Output(f, x, k + |out|)
    ensures AreOutputs(out + [o], f, x, k)
  {
    hide Output, Ready;
    forall i | 0 <= i < |out + [o]|
      ensures IsOutput((out + [o])[i], f, x, k + i)
    {
      assert i < |out| ==> IsOutput(out[i], f, x, k + i);
    }
  }

  // ---- the window -------------------------------------------------------------------------------------------------

  /** b holds input frames base, base + 1, ... */
  ghost predicate Window(b: seq<Frame>, x: seq<Frame>, ch: nat, base: int)
    requires Framed(x, ch)
  {
    base + |b| == |x| && forall i :: 0 <= i < |b| ==> b[i] == At(x, ch, base + i)
  }

  lemma WindowGrows(b: seq<Frame>, x: seq<Frame>, ch: nat, base: int, more: seq<Frame>)
    requires Framed(x, ch) && Window(b, x, ch, base) && Framed(more, ch)
    ensures Framed(x + more, ch) && Window(b + more, x + more, ch, base)
  {
    var y, d := x + more, b + more;
    forall i | 0 <= i < |d|
      ensures d[i] == At(y, ch, base + i)
    {
      if i < |b| {
        assert b[i] == At(x, ch, base + i);
        assert base + i >= 0 ==> y[base + i] == x[base + i];
      } else {
        assert d[i] == more[i - |b|] && y[base + i] == more[base + i - |x|];
      }
    }
  }

  lemma WindowShrinks(b: seq<Frame>, x: seq<Frame>, ch: nat, base: int, drop: nat)
    requires Framed(x, ch) && Window(b, x, ch, base) && drop <= |b|
    ensures Window(b[drop..], x, ch, base + drop)
  {
    forall i | 0 <= i < |b| - drop
      ensures b[drop..][i] == At(x, ch, base + drop + i)
    {
      assert b[i + drop] == At(x, ch, base + (i + drop));
    }
  }

  lemma ReadyOfMore(f: Filter, k: nat, n: nat, m: nat)
    requires f.L > 0 && n <= m && forall j :: 0 <= j < k ==> Ready(f, j, n)
    ensures forall j :: 0 <= j < k ==> Ready(f, j, m)
  {
    hide Time;
    forall j | 0 <= j < k
      ensures Ready(f, j, m)
    {
      assert Ready(f, j, n);
    }
  }

  // ---- the converter ------------------------------------------------------------------------------------------------

  class Converter {
    const filter: Filter
    const buf: array<Frame>
    var have: nat
    var base: int
    var i0: nat
    var ph: nat

    ghost var input: seq<Frame>   // all input since the last reset
    ghost var made: nat           // how many outputs were made of it

    /** The buffer is a window of the input that holds what the next output needs first. */
    ghost predicate Windowed()
      reads this, buf
    {
      var f := filter;
      && f.Valid() && Framed(input, f.ch) && buf.Length == f.T + CHUNK + 2 && have <= buf.Length
      && Window(buf[..have], input, f.ch, base) && base + have == |input|
      && i0 == Time(f, made) && ph == Phase(f, made) && base <= i0 - (f.T / 2 - 1)
      && forall j :: 0 <= j < made ==> Ready(f, j, |input|)
    }

    /** Between calls all that can be made has been, and the window is short. */
    ghost predicate Valid()
      reads this, buf
    {
      Windowed() && Made(filter, made, |input|) && have < filter.T
    }

    constructor (f: Filter)
      requires f.Valid()
      ensures Valid() && fresh(buf) && filter == f && input == [] && made == 0
    {
      filter := f;
      buf := new Frame[f.T + CHUNK + 2](_ => Silence(f.ch));
      have, base, i0, ph, input, made := f.T / 2 - 1, -(f.T / 2 - 1), 0, 0, [], 0;
    }

    /** Forgets the signal: silence is what comes before the next frame. */
    method Reset()
      requires Valid()
      modifies this, buf
      ensures Valid() && input == [] && made == 0
    {
      var lead := filter.T / 2 - 1;
      forall i | 0 <= i < lead {
        buf[i] := Silence(filter.ch);
      }
      have, base, i0, ph, input, made := lead, -lead, 0, 0, [], 0;
    }

    /** A chunk of input behind the window. */
    method Take(x: seq<Frame>, at: nat, n: nat)
      requires Valid() && Framed(x, filter.ch) && at + n <= |x| && n <= CHUNK
      modifies this`have, this`input, buf
      ensures Windowed() && input == old(input) + x[at..at + n] && have == old(have) + n
    {
      hide At, Ready, Time, Phase;
      WindowGrows(buf[..have], input, filter.ch, base, x[at..at + n]);
      ReadyOfMore(filter, made, |input|, |input| + n);
      forall i | 0 <= i < n {
        buf[have + i] := x[at + i];
      }
      assert buf[..have + n] == old(buf[..have]) + x[at..at + n];
      have := have + n;
      input := input + x[at..at + n];
    }

    /** One channel's weighted sum. */
    method Weigh(c: nat) returns (acc: real)
      requires Windowed() && Ready(filter, made, |input|) && c < filter.ch
      ensures acc == Sum(filter.tab[ph], input, filter.ch, i0 - (filter.T / 2 - 1), c, filter.T)
    {
      var src := i0 - (filter.T / 2 - 1) - base;
      acc := 0.0;
      for j := 0 to filter.T
        invariant acc == Sum(filter.tab[ph], input, filter.ch, i0 - (filter.T / 2 - 1), c, j)
      {
        hide Time, Phase;
        assert buf[..have][src + j] == At(input, filter.ch, base + (src + j));
        acc := acc + filter.tab[ph][j] * buf[src + j][c];
      }
    }

    /** All channels' weighted sums. */
    method WeighAll() returns (o: Frame)
      requires Windowed() && Ready(filter, made, |input|)
      ensures o == Output(filter, input, made)
    {
      hide Sum, At, Time, Phase;
      o := [];
      ghost var want := Output(filter, input, made);
      for c := 0 to filter.ch
        invariant |o| == c && o == want[..c]
      {
        var acc := Weigh(c);
        o := o + [acc];
      }
    }

    /** The next output, and on to the one after it. */
    method MakeOne() returns (o: Frame)
      requires Windowed() && Ready(filter, made, |input|)
      modifies this`i0, this`ph, this`made
      ensures Windowed() && made == old(made) + 1 && o == Output(filter, input, old(made))
    {
      o := WeighAll();
      hide Sum, At, Output, Window;
      TimeAdvances(filter, made);
      TimeIsMonotone(filter, made, made + 1);
      ph := ph + filter.M;
      i0 := i0 + ph / filter.L;
      ph := ph % filter.L;
      made := made + 1;
    }

    /** Keeps what the next output still needs. */
    method Trim()
      requires Windowed() && !Ready(filter, made, |input|)
      modifies this`have, this`base, buf
      ensures Valid()
    {
      hide At, Window, Phase;
      var keepFrom := i0 - (filter.T / 2 - 1) - base;
      if keepFrom > 0 {
        var drop := if keepFrom < have then keepFrom else have;
        WindowShrinks(buf[..have], input, filter.ch, base, drop);
        forall i | 0 <= i < have - drop {
          buf[i] := buf[i + drop];
        }
        assert buf[..have - drop] == old(buf[..have])[drop..];
        have := have - drop;
        base := base + drop;
      }
    }

    /**
     Converts all of x, given room for `MaxOut` of it: the outputs are the next ones of the whole input, all that can be
     made, and the window never outgrows its buffer.
     */
    method Process(x: seq<Frame>, outCap: nat) returns (out: seq<Frame>)
      requires Valid() && Framed(x, filter.ch) && outCap >= MaxOut(filter, |x|)
      modifies this, buf
      ensures Valid() && input == old(input) + x && made == old(made) + |out|
      ensures AreOutputs(out, filter, input, old(made)) && |out| <= Bounded(filter, |x|)
    {
      hide *;
      out := [];
      BetweenCalls();
      NoOutputs(filter, input, made);
      ghost var k0, n0 := made, |input|;
      var at := 0;
      assert input + x[..0] == input;
      while at < |x|
        invariant at <= |x| && Valid() && input == old(input) + x[..at] && made == k0 + |out|
        invariant Framed(input, filter.ch) && AreOutputs(out, filter, input, k0)
        invariant |out| <= Bounded(filter, |x|)
      {
        var take := Min(|x| - at, CHUNK);
        ghost var was := input;
        TakeIsSome(|x| - at);
        Take(x, at, take);
        assert was + x[at..at + take] == old(input) + x[..at + take];
        InsideTheLoop();
        OutputsOfLonger(out, filter, was, input, k0);
        at := at + take;
        out := MakeReady(out, outCap, k0, n0, |x|);
        InsideTheLoop();
        if |out| >= outCap && i0 + filter.T / 2 - base < have {
          break;
        }
        Trim();
        BetweenCalls();
      }
      assert x[..|x|] == x;
    }

    /** A row of calls. */
    method ProcessEach(xs: seq<seq<Frame>>) returns (outs: seq<seq<Frame>>)
      requires Valid() && forall i :: 0 <= i < |xs| ==> Framed(xs[i], filter.ch)
      modifies this, buf
      ensures Valid() && input == old(input) + Joined(xs)
      ensures filter.Valid() && Calls(filter, old(input), old(made), xs, outs)
      decreases |xs|
    {
      hide Windowed, AreOutputs, Framed;
      BetweenCalls();
      if xs == [] {
        assert input + [] == input;
        return [];
      }
      var out := Process(xs[0], MaxOut(filter, |xs[0]|));
      BetweenCalls();
      assert Call(filter, old(input), old(made), xs[0], out);
      var rest := ProcessEach(xs[1..]);
      assert old(input) + xs[0] + Joined(xs[1..]) == old(input) + Joined(xs);
      outs := [out] + rest;
    }

    /** All that can be made of what has arrived, while there is room. */
    method MakeReady(before: seq<Frame>, outCap: nat, ghost k0: nat, ghost n0: nat, ghost more: nat)
      returns (out: seq<Frame>)
      requires Windowed() && made == k0 + |before| && AreOutputs(before, filter, input, k0)
      requires !Ready(filter, k0, n0) && n0 <= |input| <= n0 + more && outCap >= MaxOut(filter, more)
      requires |before| <= Bounded(filter, more)
      modifies this`i0, this`ph, this`made
      ensures Windowed() && !Ready(filter, made, |input|) && made == k0 + |out| && AreOutputs(out, filter, input, k0)
      ensures |out| <= Bounded(filter, more)
      ensures !(i0 + filter.T / 2 - base < have)
    {
      hide Output, Ready, Time, Phase, Window, AreOutputs, MaxOut, Bounded;
      out := before;
      while |out| < outCap && i0 + filter.T / 2 - base < have
        invariant Windowed() && made == k0 + |out| && AreOutputs(out, filter, input, k0)
        invariant |out| <= Bounded(filter, more)
        decreases outCap - |out|
      {
        IsReady(filter, made, |input|, i0, base, have);
        RoomLeft(filter, k0, made, n0, |input|, more);
        var o := MakeOne();
        OneMoreOutput(out, filter, input, k0, o);
        out := out + [o];
      }
      IsReady(filter, made, |input|, i0, base, have);
      if i0 + filter.T / 2 - base < have {
        RoomLeft(filter, k0, made, n0, |input|, more);
      }
    }

    lemma BetweenCalls()
      requires Valid()
      ensures Windowed() && filter.Valid() && Framed(input, filter.ch) && !Ready(filter, made, |input|)
      ensures have < filter.T && filter.L > 0 && filter.M > 0
    {
    }

    lemma InsideTheLoop()
      requires Windowed()
      ensures filter.Valid() && Framed(input, filter.ch) && filter.L > 0 && filter.M > 0
    {
    }
  }

  lemma TakeIsSome(n: nat)
    requires n > 0
    ensures 0 < Min(n, CHUNK) <= n && Min(n, CHUNK) <= CHUNK
  {
  }

  /** What n frames can make at most. */
  function Bounded(f: Filter, n: nat): nat
    requires f.M > 0
  {
    n * f.L / f.M + 1
  }

  /** The program's bound on what a call makes of n frames. */
  function MaxOut(f: Filter, n: nat): nat
    requires f.M > 0
  {
    n * f.L / f.M + f.T + 2
  }

  lemma NoOutputs(f: Filter, x: seq<Frame>, k: nat)
    requires f.Valid() && Framed(x, f.ch)
    ensures AreOutputs([], f, x, k)
  {
  }

  /** The loop's condition is that the next output can be made. */
  lemma IsReady(f: Filter, k: nat, n: nat, i0: nat, base: int, have: nat)
    requires f.L > 0 && i0 == Time(f, k) && base + have == n
    ensures Ready(f, k, n) <==> i0 + f.T / 2 - base < have
  {
  }

  /** While an output can be made there is room for it. */
  lemma RoomLeft(f: Filter, k0: nat, k: nat, n0: nat, n: nat, more: nat)
    requires f.L > 0 && f.M > 0 && k0 <= k && n0 <= n <= n0 + more
    requires !Ready(f, k0, n0) && Ready(f, k, n)
    ensures k - k0 < Bounded(f, more) && k - k0 < MaxOut(f, more)
  {
    FewOutputs(f, k0, k, n0, n);
    MulMono(f.L, n - n0, more);
    QuotientMono((n - n0) * f.L, more * f.L, f.M);
  }

  lemma QuotientMono(a: nat, b: nat, m: nat)
    requires a <= b && m > 0
    ensures a / m <= b / m
  {
    Parts(a, m);
    Parts(b, m);
    if a / m > b / m {
      MulMono(m, b / m + 1, a / m);
    }
  }

  // ---- what a reader of the output may rely on --------------------------------------------------------------------

  /** Outputs of consecutive calls are the outputs of one. */
  lemma OutputsInTwo(a: seq<Frame>, b: seq<Frame>, f: Filter, x: seq<Frame>, y: seq<Frame>, k: nat)
    requires f.Valid() && Framed(x, f.ch) && Framed(y, f.ch) && x <= y
    requires AreOutputs(a, f, x, k) && AreOutputs(b, f, y, k + |a|)
    ensures AreOutputs(a + b, f, y, k)
  {
    hide IsOutput;
    OutputsOfLonger(a, f, x, y, k);
    forall i | 0 <= i < |a + b|
      ensures IsOutput((a + b)[i], f, y, k + i)
    {
      assert i >= |a| ==> IsOutput(b[i - |a|], f, y, k + |a| + (i - |a|));
    }
  }

  /** What a call for `x` gives behind `before`, of which k outputs were made: the next ones, all that can be made. */
  ghost predicate Call(f: Filter, before: seq<Frame>, k: nat, x: seq<Frame>, out: seq<Frame>)
    requires f.Valid()
  {
    Framed(before + x, f.ch) && AreOutputs(out, f, before + x, k) && Made(f, k + |out|, |before + x|)
  }

  ghost predicate Calls(f: Filter, before: seq<Frame>, k: nat, xs: seq<seq<Frame>>, outs: seq<seq<Frame>>)
    requires f.Valid()
    decreases |xs|
  {
    if xs == [] then outs == []
    else
      outs != [] && Call(f, before, k, xs[0], outs[0])
      && Calls(f, before + xs[0], k + |outs[0]|, xs[1..], outs[1..])
  }

  function Joined<T>(parts: seq<seq<T>>): seq<T> {
    if parts == [] then [] else parts[0] + Joined(parts[1..])
  }

  /** The outputs of a row of calls are together what one call gives for all their input. */
  lemma {:induction false} CallsAreOneCall(f: Filter, before: seq<Frame>, k: nat, xs: seq<seq<Frame>>,
                                           outs: seq<seq<Frame>>)
    requires f.Valid() && Framed(before, f.ch) && Made(f, k, |before|) && Calls(f, before, k, xs, outs)
    ensures Call(f, before, k, Joined(xs), Joined(outs))
    decreases |xs|
  {
    hide Made, AreOutputs;
    if xs == [] {
      assert before + [] == before;
      NoOutputs(f, before, k);
    } else {
      var x, rest := xs[0], Joined(xs[1..]);
      assert before + x + rest == before + (x + rest);
      CallsAreOneCall(f, before + x, k + |outs[0]|, xs[1..], outs[1..]);
      OutputsInTwo(outs[0], Joined(outs[1..]), f, before + x, before + x + rest, k);
    }
  }

  /** A call's outputs are determined by what went in. */
  lemma CallIsDetermined(f: Filter, before: seq<Frame>, k: nat, x: seq<Frame>, a: seq<Frame>, b: seq<Frame>)
    requires f.Valid() && Call(f, before, k, x, a) && Call(f, before, k, x, b)
    ensures a == b
  {
    MadeIsUnique(f, k + |a|, k + |b|, |before + x|);
    hide Output, Ready, Made;
    forall i | 0 <= i < |a|
      ensures a[i] == b[i]
    {
      assert IsOutput(a[i], f, before + x, k + i) && IsOutput(b[i], f, before + x, k + i);
    }
  }

  /** Two rows of calls that bring the same input, cut anywhere, give the same output. */
  lemma CallBoundariesDoNotMatter(f: Filter, before: seq<Frame>, k: nat, xs: seq<seq<Frame>>, outs: seq<seq<Frame>>,
                                  ys: seq<seq<Frame>>, others: seq<seq<Frame>>)
    requires f.Valid() && Framed(before, f.ch) && Made(f, k, |before|)
    requires Calls(f, before, k, xs, outs) && Calls(f, before, k, ys, others) && Joined(xs) == Joined(ys)
    ensures Joined(outs) == Joined(others)
  {
    hide Made, Call, Calls;
    CallsAreOneCall(f, before, k, xs, outs);
    CallsAreOneCall(f, before, k, ys, others);
    CallIsDetermined(f, before, k, Joined(xs), Joined(outs), Joined(others));
  }

  predicate Common(d: nat, a: nat, b: nat) { d > 0 && a % d == 0 && b % d == 0 }

  /** The greatest common divisor. */
  method Gcd(a0: nat, b0: nat) returns (g: nat)
    requires a0 > 0 && b0 > 0
    ensures Common(g, a0, b0) && forall d: nat :: Common(d, a0, b0) ==> d <= g
  {
    hide Common;
    var a: nat, b: nat := a0, b0;
    while b != 0
      invariant a > 0
      invariant forall d: nat :: Common(d, a, b) <==> Common(d, a0, b0)
      decreases b
    {
      forall d: nat
        ensures Common(d, b, a % b) <==> Common(d, a, b)
      {
        CommonOfRemainder(d, a, b);
      }
      a, b := b, a % b;
    }
    DividesItself(a);
    return a;
  }

  lemma DividesItself(a: nat)
    requires a > 0
    ensures Common(a, a, 0) && forall d: nat :: Common(d, a, 0) ==> d <= a
  {
    forall d: nat | Common(d, a, 0)
      ensures d <= a
    {
      if d > a {
        UniqueQuotient(a, d, 0, a);
      }
    }
    UniqueQuotient(a, a, 1, 0);
    UniqueQuotient(0, a, 0, 0);
  }

  lemma CommonOfRemainder(d: nat, a: nat, b: nat)
    requires b > 0
    ensures Common(d, b, a % b) <==> Common(d, a, b)
  {
    if d > 0 && b % d == 0 {
      var q, r := a / b, a % b;
      Parts(a, b);
      if r % d == 0 {
        DividesSum(b, r, q, d);
      }
      if a % d == 0 {
        DividesDifference(b, r, q, d);
      }
    }
  }

  lemma DividesSum(b: nat, r: nat, q: nat, d: nat)
    requires d > 0 && b % d == 0 && r % d == 0
    ensures (b * q + r) % d == 0
  {
    Parts(b, d);
    Parts(r, d);
    var u, v := b / d, r / d;
    assert b * q + r == (u * q + v) * d by { Collect(d, u, q, v); }
    DivMod(u * q + v, d, 0);
  }

  lemma DividesDifference(b: nat, r: nat, q: nat, d: nat)
    requires d > 0 && b % d == 0 && (b * q + r) % d == 0
    ensures r % d == 0
  {
    var u, v := b / d, r / d;
    Parts(b, d);
    Parts(r, d);
    assert b * q + r == (u * q + v) * d + r % d by { Collect(d, u, q, v); }
    DivMod(u * q + v, d, r % d);
  }

  lemma Collect(d: nat, u: nat, q: nat, v: nat)
    ensures d * u * q + d * v == (u * q + v) * d
  {
  }

  /** Reducing the ratio of the rates does not move an output: it is made at k * rate / 48000 input frames. */
  lemma OutputsAreAtTheirTime(f: Filter, rate: nat, g: nat, k: nat)
    requires g > 0 && f.L > 0 && 48_000 == f.L * g && rate == f.M * g
    ensures Time(f, k) == k * rate / 48_000
  {
    var q, r := Time(f, k), Phase(f, k);
    Parts(k * f.M, f.L);
    Expand(k, f.M, g, f.L, q, r);
    ScaleBound(g, r, f.L);
    DivMod(q, OUT_RATE, r * g);
  }

  lemma Expand(k: nat, m: nat, g: nat, l: nat, q: nat, r: nat)
    requires k * m == l * q + r
    ensures k * (m * g) == q * (l * g) + r * g
  {
    assert k * (m * g) == k * m * g;
    assert (l * q + r) * g == l * q * g + r * g;
    assert l * q * g == q * (l * g);
  }

  lemma ScaleBound(g: nat, r: nat, l: nat)
    requires r < l && g > 0
    ensures 0 <= r * g < l * g
  {
  }
}
