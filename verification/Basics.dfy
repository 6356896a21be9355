/** Elementary types shared by every model in this project. */
module Basics {
  type byte = x: int | 0 <= x < 256

  datatype Option<+T> = None | Some(value: T)

  function Min(a: int, b: int): int { if a < b then a else b }

  // ---- facts about sequences, each on its own so that a proof takes in no more than it needs ----

  lemma SplitAt<T>(s: seq<T>, i: nat)
    requires i < |s|
    ensures s == s[..i] + ([s[i]] + s[i + 1..])
  {
  }

  lemma MiddleOf<T>(x: seq<T>, y: seq<T>, z: seq<T>)
    ensures (x + (y + z))[|x|..|x| + |y|] == y
  {
  }

  lemma TailOf<T>(x: T, s: seq<T>)
    ensures ([x] + s)[1..] == s
  {
  }

  lemma Adjoin<T>(s: seq<T>, i: nat, j: nat, k: nat)
    requires i <= j <= k <= |s|
    ensures s[i..k] == s[i..j] + s[j..k]
  {
  }

  /** x stands in s at p. */
  predicate HasAt<T(==)>(s: seq<T>, p: nat, x: seq<T>) {
    p + |x| <= |s| && s[p..p + |x|] == x
  }

  lemma HasParts<T>(s: seq<T>, p: nat, x: seq<T>, y: seq<T>)
    requires HasAt(s, p, x + y)
    ensures HasAt(s, p, x) && HasAt(s, p + |x|, y)
  {
    var m := s[p..p + |x + y|];
    assert m[..|x|] == x && m[|x|..] == y;
  }

  lemma HasFirst<T>(s: seq<T>, p: nat, x: seq<T>)
    requires HasAt(s, p, x) && x != []
    ensures p < |s| && s[p] == x[0]
  {
    assert s[p..p + |x|][0] == x[0];
  }

  lemma SliceOfSlice<T>(s: seq<T>, lo: nat, hi: nat, i: nat, j: nat)
    requires i <= j <= hi - lo && hi <= |s|
    ensures s[lo..hi][i..j] == s[lo + i..lo + j]
  {
    forall k | 0 <= k < j - i
      ensures s[lo..hi][i..j][k] == s[lo + i..lo + j][k]
    {
    }
  }

  lemma HasSlice<T>(s: seq<T>, p: nat, x: seq<T>)
    requires HasAt(s, p, x)
    ensures p + |x| <= |s| && s[p..p + |x|] == x
  {
  }

  // ---- facts about numbers ---------------------------------------------------------------------

  lemma MulMono(d: nat, a: int, b: int)
    requires a <= b
    ensures d * a <= d * b
  {
  }

  lemma UniqueQuotient(x: int, n: int, q: int, r: int)
    requires n > 0 && x == n * q + r && 0 <= r < n
    ensures x / n == q && x % n == r
  {
    var k := x / n - q;
    assert x == n * (x / n) + x % n;
    assert n * (x / n) == n * q + n * k;
    if k > 0 {
      MulMono(n, 1, k);
    } else if k < 0 {
      MulMono(n, k, -1);
    }
  }

  lemma DivMod(q: int, d: nat, r: nat)
    requires r < d
    ensures (q * d + r) / d == q && (q * d + r) % d == r
  {
    UniqueQuotient(q * d + r, d, q, r);
  }
}
