/**
 The decoder of source/audio/flac_dec.c, in place over output planes, with a reader whose `over` flag is looked at
 now and then only.  Every method is proved to give what the parser of FlacFormat gives: in particular a read past
 the end, which yields zeros, is never taken for a damaged stream.
 */
module FlacDecoder {
  import opened Basics
  import opened FlacBits
  import opened FlacCrc
  import opened FlacFormat

  /** A reader that went past the end stays past it. */
  ghost predicate Settled(b: BitReader)
    reads b
  {
    b.over ==> b.pos >= 8 * |b.buf|
  }

  /** What a parser gives to a reader that may be past the end already. */
  ghost function Sticky<T>(over: bool, r: Parse<T>): Parse<T> {
    if over then Short else r
  }

  /** Where the reader is after what `r` says was read. */
  ghost predicate Follows<T>(b: BitReader, r: Parse<T>)
    reads b
  {
    match r
    case Got(_, e) => !b.over && b.pos == e
    case Short => b.over && b.pos >= 8 * |b.buf|
    case Invalid => true
  }

  /** The verdict the decoder's functions return: 1 done, 0 more bytes, -1 not a stream. */
  ghost predicate IsVerdict<T>(v: int, r: Parse<T>) {
    v == match r case Got(_, _) => 1 case Short => 0 case Invalid => -1
  }

  method GetBits(b: BitReader, n: nat) returns (v: nat)
    requires 0 < n <= 32 && Settled(b)
    modifies b
    ensures var r := Sticky(old(b.over), ReadNat(Unpack(b.buf), old(b.pos), n));
            Follows(b, r) && v == if r.Got? then r.val else 0
  {
    v := b.Get(n);
  }

  method GetInt(b: BitReader, n: nat) returns (v: int32)
    requires 0 < n <= 32 && Settled(b)
    modifies b
    ensures var r := Sticky(old(b.over), ReadInt(Unpack(b.buf), old(b.pos), n));
            Follows(b, r) && v == if r.Got? then r.val else 0
  {
    WordRange(n);
    v := b.GetSigned(n);
  }

  /** One number of a run, then the others. */
  lemma RunStep(bits: seq<bit>, done: seq<int32>, pos: nat, c: Coding, n: nat)
    requires c.Plain? ==> c.bits <= 32
    requires n > 0
    ensures var all := Prepend(done, ReadMany(bits, pos, c, n));
            match ReadOne(bits, pos, c)
            case Got(v, p) => all == Prepend(done + [v], ReadMany(bits, p, c, n - 1))
            case Short => all.Short?
            case Invalid => all.Invalid?
  {
    match ReadOne(bits, pos, c)
    case Got(v, p) =>
      match ReadMany(bits, p, c, n - 1) {
        case Got(vs, e) => assert done + ([v] + vs) == done + [v] + vs;
        case _ =>
      }
    case _ =>
  }

  lemma RunDone(bits: seq<bit>, done: seq<int32>, pos: nat, c: Coding)
    requires c.Plain? ==> c.bits <= 32
    ensures Prepend(done, ReadMany(bits, pos, c, 0)) == Got(done, pos)
  {
    assert done + [] == done;
  }

  lemma PrependNothing<T>(r: Parse<seq<T>>)
    ensures Prepend([], r) == r
  {
    if r.Got? {
      assert [] + r.val == r.val;
    }
  }

  lemma PrependTwice<T>(xs: seq<T>, ys: seq<T>, r: Parse<seq<T>>)
    ensures Prepend(xs, Prepend(ys, r)) == Prepend(xs + ys, r)
  {
    if r.Got? {
      assert xs + (ys + r.val) == xs + ys + r.val;
    }
  }

  /** One number, plainly coded; zero when the width is zero. */
  method PlainOne(b: BitReader, width: nat) returns (v: int32)
    requires width <= 32 && Settled(b)
    modifies b
    ensures var r := Sticky(old(b.over), ReadOne(Unpack(b.buf), old(b.pos), Plain(width)));
            !r.Invalid? && Follows(b, r) && (r.Got? ==> v == r.val)
  {
    v := 0;
    if width > 0 {
      v := GetInt(b, width);
    }
  }

  /** One Rice-coded number; false when its quotient is too large to be one. */
  method RiceOne(b: BitReader, k: nat) returns (ok: bool, v: int32)
    requires k <= 30 && Settled(b)
    modifies b
    ensures var r := Sticky(old(b.over), ReadOne(Unpack(b.buf), old(b.pos), Rice(k)));
            ok == !r.Invalid? && Follows(b, r) && (r.Got? ==> v == r.val)
  {
    hide Unpack, ZeroRun, Pow2;
    v := 0;
    var q := b.Unary();
    if q > MAX_QUOTIENT {
      return false, v;
    }
    var low := 0;
    if k > 0 {
      low := GetBits(b, k);
    }
    return true, Unzigzag((q * Pow2(k) + low) % 0x1_0000_0000);
  }

  /** Everything outside out[lo..hi] is as it was. */
  twostate predicate OnlyWithin(out: array<int32>, lo: nat, hi: nat)
    reads out
  {
    forall j :: 0 <= j < out.Length && !(lo <= j < hi) ==> out[j] == old(out[j])
  }

  ghost predicate Holds(out: array<int32>, from: nat, vs: seq<int32>)
    reads out
  {
    from + |vs| <= out.Length && forall j :: 0 <= j < |vs| ==> out[from + j] == vs[j]
  }

  /** n plainly coded numbers into out[from..]. */
  method PlainRun(b: BitReader, out: array<int32>, from: nat, width: nat, n: nat)
    requires width <= 32 && from + n <= out.Length && Settled(b)
    modifies b, out
    ensures OnlyWithin(out, from, from + n)
    ensures var r := Sticky(old(b.over), ReadMany(Unpack(b.buf), old(b.pos), Plain(width), n));
            !r.Invalid? && Follows(b, r) && (r.Got? ==> Holds(out, from, r.val))
  {
    hide Unpack, ReadMany, ReadOne, Prepend;
    ghost var bits := Unpack(b.buf);
    ghost var r := Sticky(b.over, ReadMany(bits, b.pos, Plain(width), n));
    ghost var done: seq<int32> := [];
    PrependNothing(ReadMany(bits, b.pos, Plain(width), n));
    for i := 0 to n
      invariant Settled(b) && (old(b.over) ==> b.over)
      invariant OnlyWithin(out, from, from + n) && |done| == i && Holds(out, from, done)
      invariant r == Sticky(b.over, Prepend(done, ReadMany(bits, b.pos, Plain(width), n - i)))
    {
      RunStep(bits, done, b.pos, Plain(width), n - i);
      var v := PlainOne(b, width);
      out[from + i] := v;
      done := done + [v];
    }
    RunDone(bits, done, b.pos, Plain(width));
  }

  /** n Rice-coded numbers into out[from..]; false when a quotient is too large to be one. */
  method RiceRun(b: BitReader, out: array<int32>, from: nat, k: nat, n: nat) returns (ok: bool)
    requires k <= 30 && from + n <= out.Length && Settled(b)
    modifies b, out
    ensures OnlyWithin(out, from, from + n)
    ensures var r := Sticky(old(b.over), ReadMany(Unpack(b.buf), old(b.pos), Rice(k), n));
            ok == !r.Invalid? && Follows(b, r) && (r.Got? ==> Holds(out, from, r.val))
  {
    hide Unpack, ReadMany, ReadOne, Prepend;
    ghost var bits := Unpack(b.buf);
    ghost var r := Sticky(b.over, ReadMany(bits, b.pos, Rice(k), n));
    ghost var done: seq<int32> := [];
    PrependNothing(ReadMany(bits, b.pos, Rice(k), n));
    for i := 0 to n
      invariant Settled(b) && (old(b.over) ==> b.over)
      invariant OnlyWithin(out, from, from + n) && |done| == i && Holds(out, from, done)
      invariant r == Sticky(b.over, Prepend(done, ReadMany(bits, b.pos, Rice(k), n - i)))
    {
      RunStep(bits, done, b.pos, Rice(k), n - i);
      var fine, v := RiceOne(b, k);
      if !fine {
        return false;
      }
      out[from + i] := v;
      done := done + [v];
    }
    RunDone(bits, done, b.pos, Rice(k));
    return true;
  }

  // ---- the residual ---------------------------------------------------------------------------

  /** One partition into out[from..]. */
  method Partition(b: BitReader, out: array<int32>, from: nat, coding: nat, n: nat) returns (r: int)
    requires from + n <= out.Length && Settled(b)
    modifies b, out
    ensures OnlyWithin(out, from, from + n)
    ensures var p := Sticky(old(b.over), ReadPartition(Unpack(b.buf), old(b.pos), coding, n));
            IsVerdict(r, p) && Follows(b, p) && (p.Got? ==> Holds(out, from, p.val))
  {
    hide Unpack, ReadMany, ReadNat;
    SmallPowers();
    var k := GetBits(b, ParamBits(coding));
    if b.over {
      return 0;
    }
    ParamFits(coding, k);
    if k == EscapeParam(coding) {
      var width := GetBits(b, 5);
      PlainRun(b, out, from, width, n);
    } else {
      var ok := RiceRun(b, out, from, k, n);
      if !ok {
        return -1;
      }
    }
    return if b.over then 0 else 1;
  }

  lemma ParamFits(coding: nat, k: nat)
    requires k < Pow2(ParamBits(coding))
    ensures k != EscapeParam(coding) ==> k <= 30
  {
    SmallPowers();
  }

  lemma PartStep(bits: seq<bit>, done: seq<int32>, pos: nat, coding: nat, size: nat, skip: nat, count: nat)
    requires skip <= size && count > 0
    ensures var all := Prepend(done, ReadPartitions(bits, pos, coding, size, skip, count));
            match ReadPartition(bits, pos, coding, size - skip)
            case Got(vs, p) => all == Prepend(done + vs, ReadPartitions(bits, p, coding, size, 0, count - 1))
            case Short => all.Short?
            case Invalid => all.Invalid?
  {
    match ReadPartition(bits, pos, coding, size - skip)
    case Got(vs, p) => PrependTwice(done, vs, ReadPartitions(bits, p, coding, size, 0, count - 1));
    case _ =>
  }

  lemma PartsDone(bits: seq<bit>, done: seq<int32>, pos: nat, coding: nat, size: nat, skip: nat)
    requires skip <= size
    ensures Prepend(done, ReadPartitions(bits, pos, coding, size, skip, 0)) == Got(done, pos)
  {
    assert done + [] == done;
  }

  /** The partitions of a block into out[order..order + size * count - order]. */
  method Partitions(b: BitReader, out: array<int32>, coding: nat, size: nat, order: nat, count: nat) returns (r: int)
    requires order <= size && size * count <= out.Length && count > 0 && Settled(b)
    modifies b, out
    ensures OnlyWithin(out, order, size * count)
    ensures var p := Sticky(old(b.over), ReadPartitions(Unpack(b.buf), old(b.pos), coding, size, order, count));
            IsVerdict(r, p) && Follows(b, p) && (p.Got? ==> Holds(out, order, p.val) && order + |p.val| == size * count)
  {
    hide Unpack, ReadPartition, ReadPartitions, Prepend;
    ghost var bits := Unpack(b.buf);
    ghost var all := Sticky(b.over, ReadPartitions(bits, b.pos, coding, size, order, count));
    PrependNothing(ReadPartitions(bits, b.pos, coding, size, order, count));
    ghost var done: seq<int32> := [];
    var idx := order;
    for p := 0 to count
      invariant Settled(b) && (old(b.over) ==> b.over) && (p > 0 ==> !b.over)
      invariant idx == (if p == 0 then order else size * p) == order + |done|
      invariant OnlyWithin(out, order, size * count) && Holds(out, order, done)
      invariant var skip := if p == 0 then order else 0;
                all == Sticky(b.over, Prepend(done, ReadPartitions(bits, b.pos, coding, size, skip, count - p)))
    {
      var n := size - if p == 0 then order else 0;
      PartStep(bits, done, b.pos, coding, size, if p == 0 then order else 0, count - p);
      assert idx + n == size * (p + 1) <= size * count by { MulMono(size, p + 1, count); }
      ghost var part := Sticky(b.over, ReadPartition(bits, b.pos, coding, n));
      r := Partition(b, out, idx, coding, n);
      if r <= 0 {
        return;
      }
      idx := idx + n;
      done := done + part.val;
    }
    PartsDone(bits, done, b.pos, coding, size, 0);
    return 1;
  }

  /** The residual of a predicted subframe, into out[order..blocksize]. */
  method Residual(b: BitReader, out: array<int32>, blocksize: nat, order: nat) returns (r: int)
    requires order <= blocksize <= out.Length && Settled(b)
    modifies b, out
    ensures OnlyWithin(out, order, blocksize)
    ensures var p := Sticky(old(b.over), ReadResidual(Unpack(b.buf), old(b.pos), blocksize, order));
            IsVerdict(r, p) && Follows(b, p) && (p.Got? ==> Holds(out, order, p.val) && order + |p.val| == blocksize)
  {
    hide Unpack, ReadPartitions, ReadNat;
    var coding := GetBits(b, 2);
    if coding > 1 {
      return -1;
    }
    var porder := GetBits(b, 4);
    var parts := Pow2(porder);
    if porder > 0 && blocksize % parts != 0 {
      return -1;
    }
    var size := blocksize / parts;
    if size < order {
      return -1;
    }
    assert size * parts == blocksize;
    r := Partitions(b, out, coding, size, order, parts);
  }

  // ---- prediction -------------------------------------------------------------------------------

  /** One more sample of a prediction. */
  lemma RestoreStep(p: Predictor, hist: seq<int32>, rest: seq<int32>, v: int32)
    requires p.Order() <= |hist| && (p.Fixed? ==> p.order <= 4) && rest != []
    requires v == ToInt32(Predict(p, hist) + rest[0])
    ensures Restore(p, hist, rest) == Restore(p, hist + [v], rest[1..])
  {
  }

  /** The value at i of the polynomial of that order through the samples before it. */
  method Polynomial(out: array<int32>, order: nat, i: nat, ghost hist: seq<int32>) returns (pred: int)
    requires order <= 4 && order <= i == |hist| && Holds(out, 0, hist)
    ensures pred == Predict(Fixed(order), hist)
  {
    pred := 0;
    if order >= 1 {
      assert out[i - 1] == hist[i - 1];
    }
    if order >= 2 {
      assert out[i - 2] == hist[i - 2];
    }
    if order >= 3 {
      assert out[i - 3] == hist[i - 3];
    }
    if order >= 4 {
      assert out[i - 4] == hist[i - 4];
    }
    match order {
      case 1 =>
        pred := out[i - 1];
      case 2 =>
        var s1: int, s2: int := out[i - 1], out[i - 2];
        pred := 2 * s1 - s2;
      case 3 =>
        var s1: int, s2: int, s3: int := out[i - 1], out[i - 2], out[i - 3];
        pred := 3 * s1 - 3 * s2 + s3;
      case 4 =>
        var s1: int, s2: int, s3: int, s4: int := out[i - 1], out[i - 2], out[i - 3], out[i - 4];
        pred := 4 * s1 - 6 * s2 + 4 * s3 - s4;
      case _ =>
    }
  }

  lemma FirstHeld(out: array<int32>, i: nat, rest: seq<int32>)
    requires rest != [] && Holds(out, i, rest)
    ensures i < out.Length && out[i] == rest[0]
  {
  }

  /** A restored sample in place of its residual. */
  method PutRestored(out: array<int32>, i: nat, v: int32, ghost hist: seq<int32>, ghost rest: seq<int32>)
    requires |hist| == i < out.Length && rest != [] && Holds(out, 0, hist) && Holds(out, i, rest)
    modifies out
    ensures OnlyWithin(out, i, i + 1)
    ensures Holds(out, 0, hist + [v]) && Holds(out, i + 1, rest[1..])
  {
    out[i] := v;
  }

  /** Turns the residual in out[order..blocksize] into samples, by the polynomial of that order. */
  method RestoreFixed(out: array<int32>, order: nat, blocksize: nat, ghost warm: seq<int32>,
                      ghost residuals: seq<int32>)
    requires order <= 4 && |warm| == order && order + |residuals| == blocksize <= out.Length
    requires Holds(out, 0, warm) && Holds(out, order, residuals)
    modifies out
    ensures OnlyWithin(out, 0, blocksize)
    ensures Holds(out, 0, Restore(Fixed(order), warm, residuals))
  {
    ghost var hist, rest := warm, residuals;
    for i := order to blocksize
      invariant |hist| == i && i + |rest| == blocksize
      invariant OnlyWithin(out, 0, blocksize) && Holds(out, 0, hist) && Holds(out, i, rest)
      invariant Restore(Fixed(order), warm, residuals) == Restore(Fixed(order), hist, rest)
    {
      hide Restore, Predict, ToInt32, Holds;
      FirstHeld(out, i, rest);
      var pred := Polynomial(out, order, i, hist);
      var v := ToInt32(pred + out[i]);
      RestoreStep(Fixed(order), hist, rest, v);
      PutRestored(out, i, v, hist, rest);
      hist, rest := hist + [v], rest[1..];
    }
  }

  /** Coefficients of at most 15 bits. */
  ghost predicate SmallCoefs(coefs: seq<int32>) {
    forall j :: 0 <= j < |coefs| ==> -0x4000 <= coefs[j] <= 0x4000
  }

  lemma ProductFits(c: int, v: int)
    requires -0x4000 <= c <= 0x4000 && -0x8000_0000 <= v < 0x8000_0000
    ensures -0x2000_0000_0000 <= c * v <= 0x2000_0000_0000
  {
    if v >= 0 {
      MulMono(v, c, 0x4000);
      MulMono(v, -0x4000, c);
    } else {
      MulMono(-v, c, 0x4000);
      MulMono(-v, -0x4000, c);
      assert (-v) * c == -(v * c);
    }
  }

  /** Turns the residual in out[order..blocksize] into samples, by linear prediction. */
  method RestoreLinear(out: array<int32>, coefs: seq<int32>, shift: nat, blocksize: nat,
                       ghost warm: seq<int32>, ghost residuals: seq<int32>)
    requires |warm| == |coefs| <= 32 && |coefs| + |residuals| == blocksize <= out.Length && SmallCoefs(coefs)
    requires Holds(out, 0, warm) && Holds(out, |coefs|, residuals)
    modifies out
    ensures OnlyWithin(out, 0, blocksize)
    ensures Holds(out, 0, Restore(Linear(coefs, shift), warm, residuals))
  {
    hide Restore;
    var order := |coefs|;
    ghost var hist, rest := warm, residuals;
    for i := order to blocksize
      invariant |hist| == i && i + |rest| == blocksize
      invariant OnlyWithin(out, 0, blocksize) && Holds(out, 0, hist) && Holds(out, i, rest)
      invariant Restore(Linear(coefs, shift), warm, residuals) == Restore(Linear(coefs, shift), hist, rest)
    {
      ghost var v := RestoreOne(out, coefs, shift, i, hist, rest);
      hist, rest := hist + [v], rest[1..];
    }
    NothingLeft(Linear(coefs, shift), hist, rest);
  }

  lemma NothingLeft(p: Predictor, hist: seq<int32>, rest: seq<int32>)
    requires rest == [] && p.Order() <= |hist| && (p.Fixed? ==> p.order <= 4)
    ensures Restore(p, hist, rest) == hist
  {
  }

  /** The next sample in place of its residual. */
  method RestoreOne(out: array<int32>, coefs: seq<int32>, shift: nat, i: nat,
                    ghost hist: seq<int32>, ghost rest: seq<int32>)
    returns (ghost v: int32)
    requires |coefs| <= 32 && |coefs| <= i == |hist| && i + |rest| <= out.Length && rest != [] && SmallCoefs(coefs)
    requires Holds(out, 0, hist) && Holds(out, i, rest)
    modifies out
    ensures OnlyWithin(out, i, i + 1) && Holds(out, 0, hist + [v]) && Holds(out, i + 1, rest[1..])
    ensures Restore(Linear(coefs, shift), hist, rest) == Restore(Linear(coefs, shift), hist + [v], rest[1..])
  {
    hide Restore, Dot, Pow2, ToInt32;
    var sum := WeightedSum(out, coefs, i, hist);
    assert out[i] == rest[0];
    var sample := ToInt32(sum / Pow2(shift) + out[i]);
    RestoreStep(Linear(coefs, shift), hist, rest, sample);
    out[i] := sample;
    v := sample;
  }

  /** The prediction's sum, whose 64 bits are never short. */
  method WeightedSum(out: array<int32>, coefs: seq<int32>, i: nat, ghost hist: seq<int32>) returns (sum: int)
    requires |coefs| <= i == |hist| && |coefs| <= 32 && SmallCoefs(coefs) && Holds(out, 0, hist)
    ensures sum == Dot(coefs, hist, |coefs|)
    ensures -0x8000_0000_0000_0000 <= sum < 0x8000_0000_0000_0000
  {
    sum := 0;
    for j := 0 to |coefs|
      invariant sum == Dot(coefs, hist, j)
      invariant -0x2000_0000_0000 * j <= sum <= 0x2000_0000_0000 * j
    {
      assert out[i - 1 - j] == hist[i - 1 - j];
      ProductFits(coefs[j], out[i - 1 - j]);
      var c: int, v: int := coefs[j], out[i - 1 - j];
      sum := sum + c * v;
    }
  }

  // ---- subframes --------------------------------------------------------------------------------

  /** Numbers of so many bits are that small. */
  lemma {:induction false} PlainRange(bits: seq<bit>, pos: nat, width: nat, n: nat)
    requires 0 < width <= 15
    ensures var r := ReadMany(bits, pos, Plain(width), n);
            r.Got? ==> SmallCoefs(r.val)
    decreases n
  {
    if n > 0 {
      var r := ReadOne(bits, pos, Plain(width));
      if r.Got? {
        Pow2Mono(width - 1, 14);
        assert Pow2(14) == 0x4000 by { SmallPowers(); Pow2Sum(7, 7); }
        PlainRange(bits, r.pos, width, n - 1);
      }
    }
  }

  method FixedSubframe(b: BitReader, out: array<int32>, blocksize: nat, order: nat, width: nat) returns (r: int)
    requires order <= 7 && 0 < width <= 25 && blocksize <= out.Length && !b.over
    modifies b, out
    ensures OnlyWithin(out, 0, blocksize)
    ensures var p := ReadFixed(Unpack(b.buf), old(b.pos), order, width, blocksize);
            IsVerdict(r, p) && Follows(b, p) && (p.Got? ==> |p.val| == blocksize && Holds(out, 0, p.val))
  {
    hide Unpack, ReadMany, ReadResidual, Restore;
    if order > 4 || order > blocksize {
      return -1;
    }
    ghost var warm := ReadMany(Unpack(b.buf), b.pos, Plain(width), order);
    PlainRun(b, out, 0, width, order);
    ghost var res := Sticky(b.over, ReadResidual(Unpack(b.buf), b.pos, blocksize, order));
    r := Residual(b, out, blocksize, order);
    if r <= 0 {
      return;
    }
    RestoreFixed(out, order, blocksize, warm.val, res.val);
  }

  method LinearSubframe(b: BitReader, out: array<int32>, blocksize: nat, order: nat, width: nat) returns (r: int)
    requires 0 < order <= 32 && 0 < width <= 25 && blocksize <= out.Length && !b.over
    modifies b, out
    ensures OnlyWithin(out, 0, blocksize)
    ensures var p := ReadLinear(Unpack(b.buf), old(b.pos), order, width, blocksize);
            IsVerdict(r, p) && Follows(b, p) && (p.Got? ==> |p.val| == blocksize && Holds(out, 0, p.val))
  {
    hide Unpack, ReadMany, ReadResidual, Restore, ReadNat, ReadInt;
    if order > blocksize {
      return -1;
    }
    SmallPowers();
    ghost var warm := ReadMany(Unpack(b.buf), b.pos, Plain(width), order);
    PlainRun(b, out, 0, width, order);
    var prec := GetBits(b, 4);
    prec := prec + 1;
    if prec == 16 {
      return -1;
    }
    var shift := GetInt(b, 5);
    if shift < 0 {
      return -1;
    }
    var coef := new int32[32];
    PlainRange(Unpack(b.buf), b.pos, prec, order);
    ghost var cs := Sticky(b.over, ReadMany(Unpack(b.buf), b.pos, Plain(prec), order));
    PlainRun(b, coef, 0, prec, order);
    if b.over {
      return 0;
    }
    assert coef[..order] == cs.val;
    ghost var res := ReadResidual(Unpack(b.buf), b.pos, blocksize, order);
    r := Residual(b, out, blocksize, order);
    if r <= 0 {
      return;
    }
    RestoreLinear(out, coef[..order], shift, blocksize, warm.val, res.val);
  }

  method ConstantSubframe(b: BitReader, out: array<int32>, blocksize: nat, width: nat)
    requires 0 < width <= 25 && blocksize <= out.Length && !b.over
    modifies b, out
    ensures OnlyWithin(out, 0, blocksize)
    ensures var p := ReadOne(Unpack(b.buf), old(b.pos), Plain(width));
            !p.Invalid? && Follows(b, p) && (p.Got? ==> Holds(out, 0, seq(blocksize, _ => p.val)))
  {
    var v := PlainOne(b, width);
    for i := 0 to blocksize
      invariant OnlyWithin(out, 0, blocksize)
      invariant forall j :: 0 <= j < i ==> out[j] == v
      invariant Follows(b, ReadOne(Unpack(b.buf), old(b.pos), Plain(width)))
    {
      out[i] := v;
    }
  }

  method Body(b: BitReader, out: array<int32>, blocksize: nat, kind: nat, width: nat) returns (r: int)
    requires kind < 64 && 0 < width <= 25 && blocksize <= out.Length && !b.over
    modifies b, out
    ensures OnlyWithin(out, 0, blocksize)
    ensures var p := ReadBody(Unpack(b.buf), old(b.pos), kind, width, blocksize);
            IsVerdict(r, p) && Follows(b, p) && (p.Got? ==> |p.val| == blocksize && Holds(out, 0, p.val))
  {
    hide Unpack, ReadMany, ReadOne, ReadFixed, ReadLinear;
    if kind == 0 {
      ConstantSubframe(b, out, blocksize, width);
    } else if kind == 1 {
      PlainRun(b, out, 0, width, blocksize);
    } else if 8 <= kind <= 15 {
      r := FixedSubframe(b, out, blocksize, kind % 8, width);
      return;
    } else if kind >= 32 {
      r := LinearSubframe(b, out, blocksize, kind % 32 + 1, width);
      return;
    } else {
      return -1;
    }
    return if b.over then 0 else 1;
  }

  method ShiftLeft(out: array<int32>, blocksize: nat, wasted: nat, ghost s: seq<int32>)
    requires blocksize == |s| && Holds(out, 0, s)
    modifies out
    ensures OnlyWithin(out, 0, blocksize) && Holds(out, 0, ShiftUp(s, wasted))
  {
    ghost var up := ShiftUp(s, wasted);
    for i := 0 to blocksize
      invariant OnlyWithin(out, 0, blocksize)
      invariant forall j :: 0 <= j < i ==> out[j] == up[j]
      invariant forall j :: i <= j < blocksize ==> out[j] == s[j]
    {
      out[i] := ToInt32(out[i] * Pow2(wasted));
    }
  }

  lemma ShiftByNone(s: seq<int32>)
    ensures ShiftUp(s, 0) == s
  {
  }

  /** A subframe into out[..blocksize]. */
  method Subframe(b: BitReader, out: array<int32>, blocksize: nat, bps: nat) returns (r: int)
    requires blocksize <= out.Length && !b.over
    modifies b, out
    ensures OnlyWithin(out, 0, blocksize)
    ensures var p := ReadSubframe(Unpack(b.buf), old(b.pos), blocksize, bps);
            IsVerdict(r, p) && (p.Got? ==> Follows(b, p) && |p.val| == blocksize && Holds(out, 0, p.val))
  {
    hide Unpack, ReadBody, ReadNat, ZeroRun, RunawayAt;
    SmallPowers();
    var padding := GetBits(b, 1);
    if padding != 0 {
      return -1;
    }
    var kind := GetBits(b, 6);
    var wasted := 0;
    var flag := GetBits(b, 1);
    if flag != 0 {
      wasted := b.Unary();
      wasted := wasted + 1;
    }
    if b.over {
      return 0;
    }
    var width := bps - wasted;
    if width <= 0 || width > 25 {
      return -1;
    }
    ghost var body := ReadBody(Unpack(b.buf), b.pos, kind, width, blocksize);
    r := Body(b, out, blocksize, kind, width);
    if r <= 0 {
      return;
    }
    ShiftByNone(body.val);
    if wasted > 0 {
      ShiftLeft(out, blocksize, wasted, body.val);
    }
  }

  // ---- headers ----------------------------------------------------------------------------------

  lemma BigEndianOne(a: byte)
    ensures BigEndian([a]) == a
  {
    assert [a][..0] == [];
  }

  lemma BigEndianTwo(a: byte, b: byte)
    ensures BigEndian([a, b]) == a * 256 + (b as int)
  {
    BigEndianOne(a);
    assert [a, b][..1] == [a];
  }

  lemma BigEndianThree(a: byte, b: byte, c: byte)
    ensures BigEndian([a, b, c]) == a * 0x1_0000 + b * 256 + (c as int)
  {
    BigEndianTwo(a, b);
    assert [a, b, c][..2] == [a, b];
  }

  /** The stream header.  The verdict is its length, 0 for more bytes, -1 for not a stream. */
  method ParseStreamHeader(buf: seq<byte>) returns (r: int, info: Option<StreamInfo>)
    ensures match ReadStreamHeader(buf)
            case Got(v, e) => r == e && info == Some(v)
            case Short => r == 0
            case Invalid => r == -1
  {
    info := None;
    if |buf| < 4 {
      return if |buf| > 0 && buf != MAGIC[..|buf|] then -1 else 0, info;
    }
    if buf[..4] != MAGIC {
      return -1, info;
    }
    r, info := ParseBlocks(buf, 4);
  }

  /** The metadata blocks, up to the one that is marked as the last. */
  method ParseBlocks(buf: seq<byte>, from: nat) returns (r: int, info: Option<StreamInfo>)
    requires from <= |buf|
    ensures match ReadBlocks(buf, from, None)
            case Got(v, e) => r == e && info == Some(v)
            case Short => r == 0
            case Invalid => r == -1
  {
    hide InfoOf, ReadBlocks, BigEndian;
    info := None;
    var pos := from;
    while true
      invariant pos <= |buf|
      invariant ReadBlocks(buf, from, None) == ReadBlocks(buf, pos, info)
      decreases |buf| - pos
    {
      BlockUnfolds(buf, pos, info);
      if pos + 4 > |buf| {
        return 0, info;
      }
      var last, kind := buf[pos] / 128, buf[pos] % 128;
      var blen: int := buf[pos + 1] * 0x1_0000 + buf[pos + 2] * 256 + (buf[pos + 3] as int);
      if pos + 4 + blen > |buf| {
        return 0, info;
      }
      if kind == 0 && blen >= 34 && info.None? {
        info := Some(InfoOf(buf[pos + 4..pos + 4 + blen]));
      }
      pos := pos + 4 + blen;
      if last == 1 {
        return if info.Some? then pos else -1, info;
      }
    }
  }

  /** One metadata block: its length is in the three bytes behind the first. */
  lemma BlockUnfolds(buf: seq<byte>, pos: nat, info: Option<StreamInfo>)
    ensures pos + 4 > |buf| ==> ReadBlocks(buf, pos, info) == Short
    ensures pos + 4 <= |buf| ==>
              var next := pos + 4 + (buf[pos + 1] * 0x1_0000 + buf[pos + 2] * 256 + (buf[pos + 3] as int));
              && (next > |buf| ==> ReadBlocks(buf, pos, info) == Short)
              && (next <= |buf| ==>
                    var more := BlockInfo(buf[pos] % 128, buf[pos + 4..next], info);
                    ReadBlocks(buf, pos, info)
                    == if buf[pos] / 128 != 1 then ReadBlocks(buf, next, more)
                       else if more.Some? then Got(more.value, next) else Invalid)
  {
    hide InfoOf, BigEndian;
    if pos + 4 <= |buf| {
      BigEndianThree(buf[pos + 1], buf[pos + 2], buf[pos + 3]);
      assert buf[pos + 1..pos + 4] == [buf[pos + 1], buf[pos + 2], buf[pos + 3]];
    }
  }

  /** The stream's info after a block, of which the first STREAMINFO counts. */
  function BlockInfo(kind: nat, block: seq<byte>, info: Option<StreamInfo>): Option<StreamInfo> {
    if kind == 0 && |block| >= 34 && info.None? then Some(InfoOf(block)) else info
  }

  /** How many bytes follow a lead byte; 7 when it is not one. */
  method CountExtra(lead: byte) returns (extra: nat)
    ensures extra == ExtraBytes(lead)
  {
    if lead / 128 == 0 {
      return 0;
    } else if lead / 32 == 6 {
      return 1;
    } else if lead / 16 == 14 {
      return 2;
    } else if lead / 8 == 30 {
      return 3;
    } else if lead / 4 == 62 {
      return 4;
    } else if lead / 2 == 126 {
      return 5;
    } else if lead == 254 {
      return 6;
    } else {
      return 7;
    }
  }

  /** The coded frame or sample number. */
  method ParseNumber(buf: seq<byte>, at: nat) returns (r: int, number: nat, pos: nat)
    ensures var p := ReadNumber(buf, at);
            IsVerdict(r, p) && (p.Got? ==> number == p.val && pos == p.pos)
  {
    hide ExtraBytes, IsContinuation, LeadDigits, Digits;
    number, pos := 0, at;
    if |buf| <= at {
      return 0, number, pos;
    }
    var lead := buf[at];
    var extra := CountExtra(lead);
    if extra == 7 {
      return -1, number, pos;
    }
    if at + 1 + extra > |buf| {
      return 0, number, pos;
    }
    ghost var rest := buf[at + 1..at + 1 + extra];
    for i := 1 to extra + 1
      invariant forall j :: 0 <= j < i - 1 ==> IsContinuation(rest[j])
    {
      assert rest[i - 1] == buf[at + i];
      if !IsContinuation(buf[at + i]) {
        return -1, number, pos;
      }
    }
    number := AllDigits(buf, at + 1, extra, LeadDigits(lead, extra));
    pos := at + 1 + extra;
    return 1, number, pos;
  }

  /** Adds the six-bit digits of buf[from..from + n] to a number. */
  method AllDigits(buf: seq<byte>, from: nat, n: nat, start: nat) returns (number: nat)
    requires from + n <= |buf|
    ensures number == Digits(buf[from..from + n], start)
  {
    ghost var rest := buf[from..from + n];
    number := start;
    assert rest[0..] == rest;
    for i := 0 to n
      invariant Digits(rest, start) == Digits(rest[i..], number)
    {
      assert rest[i..][1..] == rest[i + 1..];
      number := number * 64 + buf[from + i] % 64;
    }
  }

  /** One or two bytes of a header field, none when the code has none. */
  method Field(buf: seq<byte>, at: nat, n: nat) returns (v: nat)
    requires n <= 2 && at + n <= |buf|
    ensures v == BigEndian(buf[at..at + n])
  {
    if n == 0 {
      assert buf[at..at] == [];
      return 0;
    }
    if n == 1 {
      assert buf[at..at + 1] == [buf[at]];
      BigEndianOne(buf[at]);
      return buf[at];
    }
    assert buf[at..at + 2] == [buf[at], buf[at + 1]];
    BigEndianTwo(buf[at], buf[at + 1]);
    return buf[at] * 256 + (buf[at + 1] as int);
  }

  /** The fields that follow the frame number: block size, rate, sample size, channels, and the CRC-8 of it all. */
  method ParseHeaderCodes(t: Tables, buf: seq<byte>, at: nat, number: nat, info: Option<StreamInfo>)
    returns (r: int, h: Option<Header>, pos: nat)
    requires t.Valid() && |buf| >= 4 && at <= |buf|
    ensures var p := ReadHeaderCodes(buf, at, number, info);
            IsVerdict(r, p) && (p.Got? ==> h == Some(p.val) && pos == p.pos)
  {
    hide Remainder, BlockSize, SampleRate, SampleBits, BigEndian;
    h, pos := None, at;
    var bsCode, srCode, chCode, ssCode := buf[2] / 16, buf[2] % 16, buf[3] / 16, buf[3] / 2 % 8;
    if bsCode == 0 {
      return -1, h, pos;
    }
    var n := BlockBytes(bsCode);
    if pos + n > |buf| {
      return 0, h, pos;
    }
    var bv := Field(buf, pos, n);
    pos := pos + n;
    n := RateBytes(srCode);
    if pos + n > |buf| {
      return 0, h, pos;
    }
    var sv := Field(buf, pos, n);
    pos := pos + n;
    var rate, bps := SampleRate(srCode, sv, info), SampleBits(ssCode, info);
    if rate.None? || bps.None? || chCode > 10 {
      return -1, h, pos;
    }
    if pos + 1 > |buf| {
      return 0, h, pos;
    }
    var c := t.Crc8(buf, pos);
    if ToNat(c) != buf[pos] {
      return -1, h, pos;
    }
    h := Some(Header(buf[1] % 2 == 1, number, BlockSize(bsCode, bv), rate.value, chCode, bps.value));
    return 1, h, pos + 1;
  }

  method ParseHeader(t: Tables, buf: seq<byte>, info: Option<StreamInfo>) returns (r: int, h: Option<Header>, pos: nat)
    requires t.Valid()
    ensures var p := ReadHeader(buf, info);
            IsVerdict(r, p) && (p.Got? ==> h == Some(p.val) && pos == p.pos)
  {
    h, pos := None, 0;
    if |buf| < 1 {
      return 0, h, pos;
    }
    if buf[0] != 0xFF {
      return -1, h, pos;
    }
    if |buf| < 2 {
      return 0, h, pos;
    }
    if buf[1] / 2 != 0x7C {
      return -1, h, pos;
    }
    if |buf| < 4 {
      return 0, h, pos;
    }
    if buf[3] % 2 == 1 {
      return -1, h, pos;
    }
    var number;
    r, number, pos := ParseNumber(buf, 4);
    if r <= 0 {
      return;
    }
    r, h, pos := ParseHeaderCodes(t, buf, pos, number, info);
  }

  // ---- frames -------------------------------------------------------------------------------------

  /** The planes a frame is decoded into; a plane may stand for several channels the stream does not have. */
  ghost predicate Planes(out: seq<array<int32>>, cap: nat) {
    |out| == MAX_CHANNELS && forall c :: 0 <= c < MAX_CHANNELS ==> out[c].Length >= cap
  }

  ghost predicate Distinct(out: seq<array<int32>>, n: nat)
    requires n <= |out|
  {
    forall c, d :: 0 <= c < d < n ==> out[c] != out[d]
  }

  ghost predicate PlanesHold(out: seq<array<int32>>, planes: seq<seq<int32>>)
    requires |planes| <= |out|
    reads out
  {
    forall c :: 0 <= c < |planes| ==> Holds(out[c], 0, planes[c])
  }

  lemma SubframesStep(bits: seq<bit>, done: seq<seq<int32>>, pos: nat, h: Header, c: nat)
    requires c < h.Channels()
    ensures var all := Prepend(done, ReadSubframes(bits, pos, h, c));
            match ReadSubframe(bits, pos, h.blocksize, h.bps + if h.IsSide(c) then 1 else 0)
            case Got(s, p) => all == Prepend(done + [s], ReadSubframes(bits, p, h, c + 1))
            case Short => all.Short?
            case Invalid => all.Invalid?
  {
    hide ReadSubframe;
    match ReadSubframe(bits, pos, h.blocksize, h.bps + if h.IsSide(c) then 1 else 0)
    case Got(s, p) =>
      match ReadSubframes(bits, p, h, c + 1) {
        case Got(ss, e) => assert done + ([s] + ss) == done + [s] + ss;
        case _ =>
      }
    case _ =>
  }

  /** The subframes of all channels. */
  method Subframes(b: BitReader, out: seq<array<int32>>, h: Header) returns (r: int)
    requires Planes(out, h.blocksize) && h.chCode <= 10 && !b.over
    modifies b, out
    ensures var p := ReadSubframes(Unpack(b.buf), old(b.pos), h, 0);
            && IsVerdict(r, p)
            && (p.Got? ==> Follows(b, p))
            && (p.Got? && Distinct(out, h.Channels()) ==> PlanesHold(out, p.val))
            && (p.Got? ==> forall s :: s in p.val ==> |s| == h.blocksize)
  {
    hide Unpack, ReadSubframe, ReadSubframes, Prepend, Holds;
    ghost var bits := Unpack(b.buf);
    ghost var all := ReadSubframes(bits, b.pos, h, 0);
    PrependNothing(all);
    ghost var done: seq<seq<int32>> := [];
    var c := 0;
    while c < h.Channels()
      invariant !b.over && |done| == c <= h.Channels()
      invariant all == Prepend(done, ReadSubframes(bits, b.pos, h, c))
      invariant forall s :: s in done ==> |s| == h.blocksize
      invariant Distinct(out, h.Channels()) ==> PlanesHold(out, done)
    {
      SubframesStep(bits, done, b.pos, h, c);
      var side := if h.IsSide(c) then 1 else 0;
      ghost var sub := ReadSubframe(bits, b.pos, h.blocksize, h.bps + side);
      r := Subframe(b, out[c], h.blocksize, h.bps + side);
      if r <= 0 {
        return;
      }
      done := done + [sub.val];
      c := c + 1;
    }
    SubframesDone(bits, done, b.pos, h);
    return 1;
  }

  lemma SubframesDone(bits: seq<bit>, done: seq<seq<int32>>, pos: nat, h: Header)
    ensures Prepend(done, ReadSubframes(bits, pos, h, h.Channels())) == Got(done, pos)
  {
    assert done + [] == done;
  }

  /** Left and right in place of what was sent. */
  method UndoStereo(a: array<int32>, b: array<int32>, chCode: nat, blocksize: nat, ghost planes: seq<seq<int32>>)
    requires 8 <= chCode <= 10 && blocksize <= a.Length && blocksize <= b.Length
    requires |planes| == 2 && |planes[0]| == |planes[1]| == blocksize
    modifies a, b
    ensures a != b && old(Holds(a, 0, planes[0])) && old(Holds(b, 0, planes[1])) ==>
              Holds(a, 0, Decorrelate(chCode, planes)[0]) && Holds(b, 0, Decorrelate(chCode, planes)[1])
  {
    ghost var ok := a != b && Holds(a, 0, planes[0]) && Holds(b, 0, planes[1]);
    ghost var p, q, u, v := planes[0], planes[1], Decorrelate(chCode, planes)[0], Decorrelate(chCode, planes)[1];
    for i := 0 to blocksize
      invariant ok ==> forall j :: 0 <= j < i ==> a[j] == u[j] && b[j] == v[j]
      invariant ok ==> forall j :: i <= j < blocksize ==> a[j] == p[j] && b[j] == q[j]
    {
      hide ToInt32;
      if chCode == 8 {
        b[i] := RightOf(a[i], b[i]);
      } else if chCode == 9 {
        a[i] := LeftOf(a[i], b[i]);
      } else {
        var mid, side := a[i], b[i];
        a[i] := MidLeft(mid, side);
        b[i] := MidRight(mid, side);
      }
    }
  }

  /** The CRC-16 that follows a frame that ends at `end`. */
  method CheckEnd(t: Tables, buf: seq<byte>, end: nat, ghost f: Frame) returns (r: int)
    requires t.Valid()
    ensures match CheckFrame(buf, end, f)
            case Got(g, e) => r == e == end + 2 && g == f
            case Short => r == 0
            case Invalid => r == -1
  {
    hide Remainder, BigEndian;
    if end + 2 > |buf| {
      return 0;
    }
    var c := t.Crc16(buf, end);
    var sent := Field(buf, end, 2);
    return if ToNat(c) != sent then -1 else end + 2;
  }

  method UndoChannelCode(out: seq<array<int32>>, h: Header, ghost planes: seq<seq<int32>>)
    requires Planes(out, h.blocksize) && h.chCode <= 10 && |planes| == h.Channels()
    requires forall s :: s in planes ==> |s| == h.blocksize
    requires Distinct(out, h.Channels()) ==> PlanesHold(out, planes)
    modifies out
    ensures Distinct(out, h.Channels()) ==> PlanesHold(out, Decorrelate(h.chCode, planes))
    ensures forall s :: s in Decorrelate(h.chCode, planes) ==> |s| == h.blocksize
  {
    if h.chCode >= 8 {
      assert planes[0] in planes && planes[1] in planes;
      UndoStereo(out[0], out[1], h.chCode, h.blocksize, planes);
    }
  }

  /**
   Decodes the frame at the start of `buf` into the planes.  The verdict is the frame's length in bytes, 0 when the
   bytes end inside it, -1 when no frame starts here.
   */
  method DecodeFrame(t: Tables, buf: seq<byte>, info: Option<StreamInfo>, out: seq<array<int32>>, cap: nat)
    returns (r: int, fi: Option<FrameInfo>)
    requires t.Valid() && Planes(out, cap) && forall o: object :: o in out ==> o != t.table8 && o != t.table16
    modifies out
    ensures match ReadFrame(buf, info, cap)
            case Got(f, e) =>
              && r == e > 0 && fi == Some(f.info)
              && |f.planes| == f.info.channels <= MAX_CHANNELS
              && (forall p :: p in f.planes ==> |p| == f.info.blocksize)
              && (Distinct(out, f.info.channels) ==> PlanesHold(out, f.planes))
            case Short => r == 0
            case Invalid => r == -1
  {
    hide Unpack, ReadHeader, FrameBehind, Holds;
    fi := None;
    var h, pos;
    r, h, pos := ParseHeader(t, buf, info);
    if r <= 0 {
      return;
    }
    var hd := h.value;
    if hd.blocksize > cap || hd.blocksize > MAX_BLOCK {
      return -1, fi;
    }
    FrameIsBehindHeader(buf, info, cap);
    r := DecodeBehind(t, buf, info, out, hd, pos);
    if r > 0 {
      fi := Some(FrameOf(hd, info, []).info);
    }
  }

  /** What is behind a frame's header. */
  ghost function FrameBehind(buf: seq<byte>, info: Option<StreamInfo>, h: Header, pos: nat): Parse<Frame>
    requires h.chCode <= 10
  {
    match ReadSubframes(Unpack(buf), 8 * pos, h, 0)
    case Invalid => Invalid
    case Short => Short
    case Got(planes, q) => CheckFrame(buf, (q + 7) / 8, FrameOf(h, info, Decorrelate(h.chCode, planes)))
  }

  lemma FrameIsBehindHeader(buf: seq<byte>, info: Option<StreamInfo>, cap: nat)
    ensures var h := ReadHeader(buf, info);
            h.Got? && h.val.blocksize <= cap && h.val.blocksize <= MAX_BLOCK ==>
              ReadFrame(buf, info, cap) == FrameBehind(buf, info, h.val, h.pos)
  {
    hide Unpack, ReadHeader, ReadSubframes, CheckFrame, Decorrelate;
  }

  lemma BehindIs(buf: seq<byte>, info: Option<StreamInfo>, hd: Header, pos: nat)
    requires hd.chCode <= 10
    ensures match ReadSubframes(Unpack(buf), 8 * pos, hd, 0)
            case Invalid => FrameBehind(buf, info, hd, pos) == Invalid
            case Short => FrameBehind(buf, info, hd, pos) == Short
            case Got(planes, q) =>
              var f := FrameOf(hd, info, Decorrelate(hd.chCode, planes));
              && FrameBehind(buf, info, hd, pos) == CheckFrame(buf, (q + 7) / 8, f)
              && f.planes == Decorrelate(hd.chCode, planes) && f.info == FrameOf(hd, info, []).info
              && f.info.channels == hd.Channels() <= MAX_CHANNELS && f.info.blocksize == hd.blocksize
  {
    hide Unpack, ReadSubframes, CheckFrame, Decorrelate;
  }

  /** The subframes, the checksum, and the channels in place of what was sent. */
  method DecodeBehind(t: Tables, buf: seq<byte>, info: Option<StreamInfo>, out: seq<array<int32>>, hd: Header, pos: nat)
    returns (r: int)
    requires t.Valid() && Planes(out, hd.blocksize) && hd.chCode <= 10 && pos <= |buf|
    requires forall o: object :: o in out ==> o != t.table8 && o != t.table16
    modifies out
    ensures match FrameBehind(buf, info, hd, pos)
            case Got(f, e) =>
              && r == e > 0 && f.info == FrameOf(hd, info, []).info
              && |f.planes| == f.info.channels <= MAX_CHANNELS
              && (forall p :: p in f.planes ==> |p| == f.info.blocksize)
              && (Distinct(out, f.info.channels) ==> PlanesHold(out, f.planes))
            case Short => r == 0
            case Invalid => r == -1
  {
    hide Unpack, ReadSubframes, CheckFrame, Decorrelate, PlanesHold, Distinct, FrameOf, FrameBehind;
    BehindIs(buf, info, hd, pos);
    var b := new BitReader(buf, 8 * pos);
    ghost var subs := ReadSubframes(Unpack(buf), 8 * pos, hd, 0);
    r := Subframes(b, out, hd);
    if r <= 0 {
      return;
    }
    r := FinishFrame(t, buf, (b.pos + 7) / 8, out, hd, subs.val, FrameOf(hd, info, Decorrelate(hd.chCode, subs.val)));
  }

  /** The checksum behind the subframes, and the channels in place of what was sent. */
  method FinishFrame(t: Tables, buf: seq<byte>, end: nat, out: seq<array<int32>>, hd: Header,
                     ghost planes: seq<seq<int32>>, ghost f: Frame)
    returns (r: int)
    requires t.Valid() && Planes(out, hd.blocksize) && hd.chCode <= 10
    requires forall o: object :: o in out ==> o != t.table8 && o != t.table16
    requires |planes| == hd.Channels() && forall s :: s in planes ==> |s| == hd.blocksize
    requires Distinct(out, hd.Channels()) ==> PlanesHold(out, planes)
    modifies out
    ensures match CheckFrame(buf, end, f)
            case Got(g, e) =>
              && r == e == end + 2 && g == f
              && (forall s :: s in Decorrelate(hd.chCode, planes) ==> |s| == hd.blocksize)
              && (Distinct(out, hd.Channels()) ==> PlanesHold(out, Decorrelate(hd.chCode, planes)))
            case Short => r == 0
            case Invalid => r == -1
  {
    hide CheckFrame, Decorrelate, PlanesHold, Distinct;
    r := CheckEnd(t, buf, end, f);
    if r <= 0 {
      return;
    }
    UndoChannelCode(out, hd, planes);
  }
}
