/**
 Rate conversion as it is defined, without phases: the input is put on a grid L times as fine, with zeros in between,
 one filter is run over the grid, and every M-th value is kept.  The formula of Resample, which only computes what is
 kept and skips the zeros, gives the same.
 */
module ResampleDirect {
  import opened Basics
  import opened Resample

  /** The value on the fine grid: an input frame at every L-th place. */
  function Stuffed(f: Filter, x: seq<Frame>, m: int): (v: Frame)
    requires f.Valid() && Framed(x, f.ch) && m / f.L < |x|
    ensures |v| == f.ch
  {
    if m % f.L == 0 then At(x, f.ch, m / f.L) else Silence(f.ch)
  }

  /** The one filter's weight at so many fine steps from its centre: all phases' weights, interleaved. */
  function Response(f: Filter, o: int): real
    requires f.Valid()
  {
    var p := (-o) % f.L;
    var j := (o + p) / f.L + f.T / 2 - 1;
    if 0 <= j < f.T then f.tab[p][j] else 0.0
  }

  /** The filter reaches T / 2 input frames to both sides of output k's place on the grid, which is k * M. */
  function Place(f: Filter, k: nat, i: nat): int { k * f.M + Offset(f, i) }

  function Offset(f: Filter, i: nat): int { i - f.T / 2 * f.L }

  /** Channel c of the filter's value, over the first n places it reaches. */
  function Filtered(f: Filter, x: seq<Frame>, k: nat, c: nat, n: nat): real
    requires f.Valid() && Framed(x, f.ch) && c < f.ch && forall i :: 1 <= i <= n ==> Place(f, k, i) / f.L < |x|
  {
    if n == 0 then 0.0
    else Filtered(f, x, k, c, n - 1) + Response(f, Offset(f, n)) * Stuffed(f, x, Place(f, k, n))[c]
  }

  // ---- places -------------------------------------------------------------------------------------------------

  /** Places in rows of L: place r of row b. */
  lemma PlaceIs(f: Filter, k: nat, b: nat, r: nat)
    requires f.Valid() && b < f.T && 1 <= r <= f.L
    ensures var p, t, m := Phase(f, k), Time(f, k), Place(f, k, b * f.L + r);
            && m / f.L == t + b - f.T / 2 + (if p + r >= f.L then 1 else 0)
            && (m % f.L == 0 <==> p + r == f.L)
  {
    var p, t, h := Phase(f, k), Time(f, k), f.T / 2;
    var m := Place(f, k, b * f.L + r);
    assert k * f.M == f.L * t + p by { Parts(k * f.M, f.L); }
    assert m == f.L * (t + b - h) + (p + r) by { Gather(f.L, t, b, h); }
    if p + r < f.L {
      UniqueQuotient(m, f.L, t + b - h, p + r);
    } else {
      assert m == f.L * (t + b - h + 1) + (p + r - f.L) by { OneMoreRow(f.L, t + b - h); }
      UniqueQuotient(m, f.L, t + b - h + 1, p + r - f.L);
    }
  }

  lemma Gather(l: int, t: int, b: int, h: int)
    ensures l * (t + b - h) == l * t + b * l - h * l
  {
  }

  lemma OneMoreRow(l: int, q: int)
    ensures l * (q + 1) == l * q + l
  {
  }

  /** The weight where a row meets an input frame. */
  lemma WeightIs(f: Filter, p: nat, b: nat)
    requires f.Valid() && p < f.L && b < f.T
    ensures Response(f, Offset(f, b * f.L + (f.L - p))) == f.tab[p][b]
  {
    var h := f.T / 2;
    var o := Offset(f, b * f.L + (f.L - p));
    Gather(f.L, 0, b, h);
    assert o == f.L * (b - h) + (f.L - p);
    assert -o == f.L * (h - b - 1) + p by { OneMoreRow(f.L, h - b - 1); Negate(f.L, h - b); }
    UniqueQuotient(-o, f.L, h - b - 1, p);
    assert o + p == f.L * (b - h + 1) + 0 by { OneMoreRow(f.L, b - h); }
    UniqueQuotient(o + p, f.L, b - h + 1, 0);
  }

  lemma Negate(l: int, q: int)
    ensures l * -q == -(l * q)
  {
  }

  lemma InRows(l: nat, i: nat, n: nat) returns (b: nat, r: nat)
    requires l > 0 && 1 <= i <= n * l
    ensures b < n && 1 <= r <= l && i == b * l + r
  {
    b, r := (i - 1) / l, (i - 1) % l + 1;
    Parts(i - 1, l);
    if b >= n {
      MulMono(l, n, b);
    }
  }

  /** An output can be made exactly when every place of the filter's reach is before the end of the input. */
  lemma ReadyExactly(f: Filter, k: nat, n: nat)
    requires f.Valid()
    ensures Ready(f, k, n) <==> forall i :: 1 <= i <= f.T * f.L ==> Place(f, k, i) / f.L < n
  {
    hide Place, Time, Phase;
    forall i | 1 <= i <= f.T * f.L
      ensures Place(f, k, i) / f.L <= Time(f, k) + f.T / 2
    {
      var b, r := InRows(f.L, i, f.T);
      PlaceIs(f, k, b, r);
    }
    PlaceIs(f, k, f.T - 1, f.L);
    RowsEnd(f, f.T - 1, f.L);
    assert Place(f, k, f.T * f.L) / f.L == Time(f, k) + f.T / 2;
  }

  lemma AllInReach(f: Filter, k: nat, n: nat, len: nat)
    requires f.Valid() && Ready(f, k, len) && n <= f.T * f.L
    ensures forall i :: 1 <= i <= n ==> Place(f, k, i) / f.L < len
  {
    hide Place, Ready;
    ReadyExactly(f, k, len);
  }

  // ---- sums ----------------------------------------------------------------------------------------------------

  lemma TimesZero(w: real)
    ensures w * 0.0 == 0.0
  {
  }

  lemma RowsEnd(f: Filter, b: nat, r: nat)
    requires f.Valid() && b < f.T && r <= f.L
    ensures b * f.L + r <= f.T * f.L && (b + 1) * f.L == b * f.L + f.L
  {
    MulMono(f.L, b + 1, f.T);
  }

  /** One place more of a row: only where it meets an input frame does it count. */
  lemma PlaceCounts(f: Filter, x: seq<Frame>, k: nat, c: nat, b: nat, r: nat)
    requires f.Valid() && Framed(x, f.ch) && c < f.ch && Ready(f, k, |x|) && b < f.T && 1 <= r <= f.L
    ensures Place(f, k, b * f.L + r) / f.L < |x|
    ensures Response(f, Offset(f, b * f.L + r)) * Stuffed(f, x, Place(f, k, b * f.L + r))[c]
         == if Phase(f, k) + r == f.L then
              f.tab[Phase(f, k)][b] * At(x, f.ch, Time(f, k) - (f.T / 2 - 1) + b)[c]
            else 0.0
  {
    hide Place, Offset, Response, Time, Phase;
    PlaceIs(f, k, b, r);
    WeightIs(f, Phase(f, k), b);
    TimesZero(Response(f, Offset(f, b * f.L + r)));
  }

  /** The places of one row, behind the rows before it. */
  lemma {:induction false} RowSum(f: Filter, x: seq<Frame>, k: nat, c: nat, b: nat, r: nat)
    requires f.Valid() && Framed(x, f.ch) && c < f.ch && Ready(f, k, |x|) && b < f.T && r <= f.L
    ensures forall i :: 1 <= i <= b * f.L + r ==> Place(f, k, i) / f.L < |x|
    ensures Filtered(f, x, k, c, b * f.L + r) == Filtered(f, x, k, c, b * f.L) +
            (if Phase(f, k) + r >= f.L then f.tab[Phase(f, k)][b] * At(x, f.ch, Time(f, k) - (f.T / 2 - 1) + b)[c]
             else 0.0)
    decreases r
  {
    hide Place, Offset, Response, Stuffed, Time, Phase, Ready;
    RowsEnd(f, b, r);
    AllInReach(f, k, b * f.L + r, |x|);
    if r > 0 {
      RowSum(f, x, k, c, b, r - 1);
      PlaceCounts(f, x, k, c, b, r);
      assert b * f.L + r - 1 == b * f.L + (r - 1);
    }
  }

  lemma {:induction false} RowsSum(f: Filter, x: seq<Frame>, k: nat, c: nat, b: nat)
    requires f.Valid() && Framed(x, f.ch) && c < f.ch && Ready(f, k, |x|) && b <= f.T
    ensures forall i :: 1 <= i <= b * f.L ==> Place(f, k, i) / f.L < |x|
    ensures Time(f, k) - (f.T / 2 - 1) + b <= |x|
    ensures Filtered(f, x, k, c, b * f.L)
         == Sum(f.tab[Phase(f, k)], x, f.ch, Time(f, k) - (f.T / 2 - 1), c, b)
    decreases b
  {
    hide Place, Offset, Response, Stuffed, Time, Phase, Filtered, Sum, Ready, At;
    LastFrame(f, k, |x|);
    if b > 0 {
      RowsEnd(f, b - 1, f.L);
      RowsSum(f, x, k, c, b - 1);
      RowSum(f, x, k, c, b - 1, f.L);
      OneMoreTerm(f.tab[Phase(f, k)], x, f.ch, Time(f, k) - (f.T / 2 - 1), c, b);
    } else {
      NoTerms(f, x, k, c);
    }
  }

  lemma LastFrame(f: Filter, k: nat, n: nat)
    requires f.Valid() && Ready(f, k, n)
    ensures Time(f, k) - (f.T / 2 - 1) + f.T <= n
  {
    hide Time;
  }

  lemma OneMoreTerm(g: seq<real>, x: seq<Frame>, ch: nat, from: int, c: nat, n: nat)
    requires 0 < n <= |g| && from + n <= |x| && Framed(x, ch) && c < ch
    ensures Sum(g, x, ch, from, c, n) == Sum(g, x, ch, from, c, n - 1) + g[n - 1] * At(x, ch, from + (n - 1))[c]
  {
    hide At;
  }

  lemma NoTerms(f: Filter, x: seq<Frame>, k: nat, c: nat)
    requires f.Valid() && Framed(x, f.ch) && c < f.ch && Time(f, k) - (f.T / 2 - 1) <= |x|
    ensures 0 * f.L == 0 && Filtered(f, x, k, c, 0 * f.L) == 0.0
    ensures Sum(f.tab[Phase(f, k)], x, f.ch, Time(f, k) - (f.T / 2 - 1), c, 0) == 0.0
  {
    hide Time, Phase;
  }

  /** Every output is the one filter's value at its place on the fine grid. */
  lemma OutputsAreFiltered(f: Filter, x: seq<Frame>, k: nat, c: nat)
    requires f.Valid() && Framed(x, f.ch) && c < f.ch && Ready(f, k, |x|)
    ensures forall i :: 1 <= i <= f.T * f.L ==> Place(f, k, i) / f.L < |x|
    ensures Output(f, x, k)[c] == Filtered(f, x, k, c, f.T * f.L)
  {
    hide Place, Offset, Response, Stuffed, Time, Phase, Sum, Filtered;
    RowsSum(f, x, k, c, f.T);
  }
}
