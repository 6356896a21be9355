/**
 Frames as RFC 9639 section 9 lets an encoder write them, and the law the decoder is for: whatever the encoder's
 choices, the parser of FlacFormat gives back the samples that went in.
 */
module FlacEncoder {
  import opened Basics
  import opened FlacBits
  import opened BitWriter
  import opened FlacCrc
  import opened FlacFormat
  import opened FlacPrediction
  import opened FlacStable

  // ---- numbers ------------------------------------------------------------------------------------

  function Zigzag(v: int32): nat {
    if v >= 0 then 2 * v else -2 * v - 1
  }

  function Quotient(u: nat, k: nat): nat {
    var d := Pow2(k);
    QuotientOf(u, d);
    u / d
  }

  function LowPart(u: nat, k: nat): nat {
    var d := Pow2(k);
    QuotientOf(u, d);
    u % d
  }

  lemma QuotientAndLow(u: nat, k: nat)
    ensures Quotient(u, k) * Pow2(k) + LowPart(u, k) == u && LowPart(u, k) < Pow2(k)
  {
    QuotientOf(u, Pow2(k));
  }

  lemma QuotientOf(u: nat, d: nat)
    requires d > 0
    ensures u / d * d + u % d == u && 0 <= u / d && 0 <= u % d < d
  {
  }

  /** v fits n bits in two's complement. */
  predicate Fits(v: int, n: nat) {
    n > 0 && -(Pow2(n - 1) as int) <= v < Pow2(n - 1)
  }

  function EncodeOne(v: int32, c: Coding): seq<bit> {
    match c
    case Rice(k) => Zeros(Quotient(Zigzag(v), k)) + ([1] + Bits(LowPart(Zigzag(v), k), k))
    case Plain(n) => SignedBits(v, n)
  }

  /** A number fits its coding: the quotient is within the format's limit, or the bits suffice. */
  predicate Codable(v: int32, c: Coding) {
    match c
    case Rice(k) => Quotient(Zigzag(v), k) <= 0xFF_FFFF
    case Plain(n) => if n == 0 then v == 0 else Fits(v, n)
  }

  predicate AllCodable(vs: seq<int32>, c: Coding) {
    (c.Plain? ==> c.bits <= 32) && forall i :: 0 <= i < |vs| ==> Codable(vs[i], c)
  }

  function EncodeMany(vs: seq<int32>, c: Coding): seq<bit> {
    if vs == [] then [] else EncodeOne(vs[0], c) + EncodeMany(vs[1..], c)
  }

  // ---- numbers at a position ------------------------------------------------------------------------

  lemma ModPow(v: int, n: nat)
    requires Fits(v, n)
    ensures v % Pow2(n) == if v < 0 then v + Pow2(n) else v
    ensures SignExtend(v % Pow2(n), n) == v
  {
    assert Pow2(n) == 2 * Pow2(n - 1);
    ModOf(v, Pow2(n));
  }

  lemma ModOf(v: int, d: int)
    requires d > 0 && -d <= v < d
    ensures v % d == if v < 0 then v + d else v
  {
    if v < 0 {
      DivMod(-1, d, v + d);
    } else {
      DivMod(0, d, v);
    }
  }

  lemma ReadsInt(bits: seq<bit>, pos: nat, v: int, n: nat)
    requires Fits(v, n)
    requires HasAt(bits, pos, SignedBits(v, n))
    ensures ReadInt(bits, pos, n) == Got(v, pos + n)
  {
    hide HasAt, Pow2, Bits;
    ModPow(v, n);
    ReadsNat(bits, pos, v % Pow2(n), n);
  }

  lemma {:induction false} ZerosRun(bits: seq<bit>, pos: nat, z: nat)
    requires HasAt(bits, pos, Zeros(z)) && HasAt(bits, pos + z, [1])
    ensures ZeroRun(bits, pos) == z
  {
    var w := bits[pos..pos + z];
    forall i | pos <= i < pos + z
      ensures bits[i] == 0
    {
      assert w[i - pos] == 0;
    }
    assert bits[pos + z] == bits[pos + z..pos + z + 1][0];
    ZeroRunSkips(bits, pos, z);
  }

  lemma ZigzagBack(v: int32)
    ensures Zigzag(v) < 0x1_0000_0000 && Unzigzag(Zigzag(v)) == v
  {
  }

  lemma ReadsOne(bits: seq<bit>, pos: nat, v: int32, c: Coding)
    requires AllCodable([v], c) && HasAt(bits, pos, EncodeOne(v, c))
    ensures ReadOne(bits, pos, c) == Got(v, pos + |EncodeOne(v, c)|)
  {
    hide HasAt, Fits, SignedBits;
    assert Codable([v][0], c);
    match c
    case Rice(k) => ReadsRice(bits, pos, v, k);
    case Plain(n) =>
      if n > 0 {
        ReadsInt(bits, pos, v, n);
      }
  }

  lemma ReadsRice(bits: seq<bit>, pos: nat, v: int32, k: nat)
    requires Quotient(Zigzag(v), k) <= MAX_QUOTIENT && HasAt(bits, pos, EncodeOne(v, Rice(k)))
    ensures ReadRice(bits, pos, k) == Got(v, pos + |EncodeOne(v, Rice(k))|)
  {
    hide *;
    var u := Zigzag(v);
    QuotientAndLow(u, k);
    RiceParts(bits, pos, v, k);
    ReadsQuotient(bits, pos, Quotient(u, k));
    ReadsNat(bits, pos + Quotient(u, k) + 1, LowPart(u, k), k);
    ZigzagBack(v);
    RiceIs(bits, pos, v, k);
  }

  /** The zeros, the one and the low bits. */
  lemma RiceParts(bits: seq<bit>, pos: nat, v: int32, k: nat)
    requires HasAt(bits, pos, EncodeOne(v, Rice(k)))
    ensures var q, low := Quotient(Zigzag(v), k), LowPart(Zigzag(v), k);
            && HasAt(bits, pos, Zeros(q)) && HasAt(bits, pos + q, [1]) && HasAt(bits, pos + q + 1, Bits(low, k))
            && |EncodeOne(v, Rice(k))| == q + 1 + k
  {
    hide HasAt, Zigzag, Quotient, LowPart, Bits, Zeros;
    var q, low := Quotient(Zigzag(v), k), LowPart(Zigzag(v), k);
    HasParts(bits, pos, Zeros(q), [1] + Bits(low, k));
    HasParts(bits, pos + q, [1], Bits(low, k));
  }

  lemma RiceIs(bits: seq<bit>, pos: nat, v: int32, k: nat)
    requires var q, low := Quotient(Zigzag(v), k), LowPart(Zigzag(v), k);
             && ReadQuotient(bits, pos) == Got(q, pos + q + 1)
             && ReadNat(bits, pos + q + 1, k) == Got(low, pos + q + 1 + k)
             && q * Pow2(k) + low == Zigzag(v)
    requires Zigzag(v) < 0x1_0000_0000 && Unzigzag(Zigzag(v)) == v
    ensures ReadRice(bits, pos, k) == Got(v, pos + Quotient(Zigzag(v), k) + 1 + k)
  {
    hide Zigzag, Unzigzag, Quotient, LowPart, Pow2, ReadQuotient, ReadNat;
  }

  lemma ReadsQuotient(bits: seq<bit>, pos: nat, q: nat)
    requires HasAt(bits, pos, Zeros(q)) && HasAt(bits, pos + q, [1]) && q <= MAX_QUOTIENT
    ensures ReadQuotient(bits, pos) == Got(q, pos + q + 1)
  {
    ZerosRun(bits, pos, q);
  }

  /** A quotient beyond the decoder's limit is refused. */
  lemma RefusesQuotient(bits: seq<bit>, pos: nat, q: nat, k: nat)
    requires HasAt(bits, pos, Zeros(q)) && HasAt(bits, pos + q, [1]) && q > 0xFF_FFFF
    ensures ReadRice(bits, pos, k) == Invalid
  {
    ZerosRun(bits, pos, q);
  }

  lemma {:induction false} ReadsMany(bits: seq<bit>, pos: nat, vs: seq<int32>, c: Coding)
    requires c.Plain? ==> c.bits <= 32
    requires AllCodable(vs, c) && HasAt(bits, pos, EncodeMany(vs, c))
    ensures ReadMany(bits, pos, c, |vs|) == Got(vs, pos + |EncodeMany(vs, c)|)
    decreases |vs|
  {
    hide *;
    if vs == [] {
      NoneToRead(bits, pos, c);
    } else {
      var x, rest := EncodeOne(vs[0], c), EncodeMany(vs[1..], c);
      OneThenRest(vs, c);
      HasParts(bits, pos, x, rest);
      CodableParts(vs, c);
      ReadsOne(bits, pos, vs[0], c);
      ReadsMany(bits, pos + |x|, vs[1..], c);
      OneThenMany(bits, pos, c, vs, pos + |x|, pos + |x + rest|);
    }
  }

  lemma NoneToRead(bits: seq<bit>, pos: nat, c: Coding)
    requires c.Plain? ==> c.bits <= 32
    ensures ReadMany(bits, pos, c, 0) == Got([], pos) && EncodeMany([], c) == []
  {
  }

  lemma OneThenRest(vs: seq<int32>, c: Coding)
    requires vs != []
    ensures EncodeMany(vs, c) == EncodeOne(vs[0], c) + EncodeMany(vs[1..], c)
  {
  }

  lemma CodableParts(vs: seq<int32>, c: Coding)
    requires AllCodable(vs, c) && vs != []
    ensures AllCodable([vs[0]], c) && AllCodable(vs[1..], c)
  {
    hide Codable;
    assert Codable(vs[0], c);
  }

  lemma OneThenMany(bits: seq<bit>, pos: nat, c: Coding, vs: seq<int32>, p: nat, e: nat)
    requires c.Plain? ==> c.bits <= 32
    requires vs != [] && ReadOne(bits, pos, c) == Got(vs[0], p) && ReadMany(bits, p, c, |vs| - 1) == Got(vs[1..], e)
    ensures ReadMany(bits, pos, c, |vs|) == Got(vs, e)
  {
    assert [vs[0]] + vs[1..] == vs;
  }

  // ---- the residual ---------------------------------------------------------------------------------

  /** An encoder's choices for a residual: how partitions are marked, how many there are, and each one's coding. */
  datatype Layout = Layout(method_: nat, porder: nat, codings: seq<Coding>)

  /** A partition's coding has a mark of its own: Rice parameters below the escape, plain widths up to 31. */
  predicate Markable(m: nat, c: Coding) {
    match c
    case Rice(k) => k < Pow2(4 + m) - 1
    case Plain(w) => w <= 31
  }

  /** A parameter has four bits under the first method and five under the second; all ones mark a plain run. */
  function Mark(m: nat, c: Coding): seq<bit> {
    match c
    case Rice(k) => Bits(k, 4 + m)
    case Plain(w) => Bits(Pow2(4 + m) - 1, 4 + m) + Bits(w, 5)
  }

  function EncodePartition(m: nat, c: Coding, vs: seq<int32>): seq<bit> {
    Mark(m, c) + EncodeMany(vs, c)
  }

  /** The first partition has `skip` samples fewer than `size`; the others have `size`. */
  predicate Partitioned(m: nat, cs: seq<Coding>, size: nat, skip: nat, vs: seq<int32>)
    requires skip <= size
    decreases |cs|
  {
    if cs == [] then vs == []
    else
      && |vs| >= size - skip && Markable(m, cs[0]) && AllCodable(vs[..size - skip], cs[0])
      && Partitioned(m, cs[1..], size, 0, vs[size - skip..])
  }

  function EncodePartitions(m: nat, cs: seq<Coding>, size: nat, skip: nat, vs: seq<int32>): seq<bit>
    requires skip <= size && Partitioned(m, cs, size, skip, vs)
    decreases |cs|
  {
    if cs == [] then []
    else
      EncodePartition(m, cs[0], vs[..size - skip]) + EncodePartitions(m, cs[1..], size, 0, vs[size - skip..])
  }

  /** The layout is legal for these residuals of a block. */
  predicate Fitting(l: Layout, blocksize: nat, order: nat, res: seq<int32>) {
    && l.method_ <= 1 && l.porder < 16 && order <= blocksize
    && blocksize % Pow2(l.porder) == 0 && order <= blocksize / Pow2(l.porder)
    && |l.codings| == Pow2(l.porder)
    && Partitioned(l.method_, l.codings, blocksize / Pow2(l.porder), order, res)
  }

  function EncodeResidual(l: Layout, blocksize: nat, order: nat, res: seq<int32>): seq<bit>
    requires Fitting(l, blocksize, order, res)
  {
    Bits(l.method_, 2) + (Bits(l.porder, 4) +
      EncodePartitions(l.method_, l.codings, blocksize / Pow2(l.porder), order, res))
  }

  lemma ReadsMark(bits: seq<bit>, pos: nat, m: nat, c: Coding, n: nat)
    requires m <= 1 && Markable(m, c) && HasAt(bits, pos, Mark(m, c))
    ensures c.Plain? ==> c.bits <= 32
    ensures ReadPartition(bits, pos, m, n) == ReadMany(bits, pos + |Mark(m, c)|, c, n)
  {
    hide HasAt, Bits, ReadMany, ReadNat;
    SmallPowers();
    match c
    case Rice(k) =>
      ReadsNat(bits, pos, k, 4 + m);
    case Plain(w) =>
      HasParts(bits, pos, Bits(Pow2(4 + m) - 1, 4 + m), Bits(w, 5));
      ReadsNat(bits, pos, Pow2(4 + m) - 1, 4 + m);
      ReadsNat(bits, pos + 4 + m, w, 5);
  }

  lemma ReadsPartition(bits: seq<bit>, pos: nat, m: nat, c: Coding, vs: seq<int32>)
    requires m <= 1 && Markable(m, c) && AllCodable(vs, c) && HasAt(bits, pos, EncodePartition(m, c, vs))
    ensures ReadPartition(bits, pos, m, |vs|) == Got(vs, pos + |EncodePartition(m, c, vs)|)
  {
    hide HasAt, Mark, EncodeMany, AllCodable, Markable, ReadPartition, ReadMany;
    HasParts(bits, pos, Mark(m, c), EncodeMany(vs, c));
    ReadsMark(bits, pos, m, c, |vs|);
    ReadsMany(bits, pos + |Mark(m, c)|, vs, c);
  }

  lemma {:induction false} ReadsPartitions(bits: seq<bit>, pos: nat, m: nat, cs: seq<Coding>, size: nat, skip: nat,
                                           vs: seq<int32>)
    requires m <= 1 && skip <= size && Partitioned(m, cs, size, skip, vs)
    requires HasAt(bits, pos, EncodePartitions(m, cs, size, skip, vs))
    ensures ReadPartitions(bits, pos, m, size, skip, |cs|)
         == Got(vs, pos + |EncodePartitions(m, cs, size, skip, vs)|)
    decreases |cs|
  {
    hide HasAt, EncodePartition, AllCodable, Markable, ReadPartition;
    if cs != [] {
      var first, rest := vs[..size - skip], vs[size - skip..];
      var x, y := EncodePartition(m, cs[0], first), EncodePartitions(m, cs[1..], size, 0, rest);
      HasParts(bits, pos, x, y);
      ReadsPartition(bits, pos, m, cs[0], first);
      ReadsPartitions(bits, pos + |x|, m, cs[1..], size, 0, rest);
      assert first + rest == vs;
    }
  }

  lemma ReadsResidual(bits: seq<bit>, pos: nat, l: Layout, blocksize: nat, order: nat, res: seq<int32>)
    requires Fitting(l, blocksize, order, res) && HasAt(bits, pos, EncodeResidual(l, blocksize, order, res))
    ensures ReadResidual(bits, pos, blocksize, order)
         == Got(res, pos + |EncodeResidual(l, blocksize, order, res)|)
  {
    hide HasAt, Bits, EncodePartitions, ReadPartitions, Partitioned, ReadNat;
    SmallPowers();
    var x := EncodePartitions(l.method_, l.codings, blocksize / Pow2(l.porder), order, res);
    HasParts(bits, pos, Bits(l.method_, 2), Bits(l.porder, 4) + x);
    HasParts(bits, pos + 2, Bits(l.porder, 4), x);
    ReadsNat(bits, pos, l.method_, 2);
    ReadsNat(bits, pos + 2, l.porder, 4);
    ReadsPartitions(bits, pos + 6, l.method_, l.codings, blocksize / Pow2(l.porder), order, res);
  }

  // ---- subframes --------------------------------------------------------------------------------------

  datatype Body =
    | Constant
    | Verbatim
    | Predicted(p: Predictor, precision: nat, layout: Layout)   // the precision is a linear predictor's

  /** An encoder's choices for a subframe: its body, and how many zero bits all samples are known to end in. */
  datatype Choice = Choice(body: Body, wasted: nat)

  function Kind(b: Body): nat {
    match b
    case Constant => 0
    case Verbatim => 1
    case Predicted(Fixed(order), _, _) => 8 + order
    case Predicted(Linear(coefs, _), _, _) => 31 + |coefs|
  }

  predicate AllFit(vs: seq<int>, n: nat) {
    forall i :: 0 <= i < |vs| ==> Fits(vs[i], n)
  }

  predicate Predictable(p: Predictor, precision: nat, blocksize: nat) {
    && p.Order() <= blocksize
    && match p
       case Fixed(order) => order <= 4
       case Linear(coefs, shift) =>
         1 <= |coefs| <= 32 && 1 <= precision <= 15 && shift <= 15 && AllFit(coefs, precision)
  }

  /** The body's choices can carry these samples, which are `width` bits wide. */
  predicate Carries(b: Body, vs: seq<int32>, width: nat) {
    && 0 < width <= 25 && vs != [] && AllFit(vs, width)
    && match b
       case Constant => forall i :: 0 <= i < |vs| ==> vs[i] == vs[0]
       case Verbatim => true
       case Predicted(p, precision, layout) =>
         && Predictable(p, precision, |vs|)
         && Fitting(layout, |vs|, p.Order(), Residuals(p, vs))
  }

  function Parameters(p: Predictor, precision: nat): seq<bit> {
    match p
    case Fixed(_) => []
    case Linear(coefs, shift) =>
      Bits(if precision > 0 then precision - 1 else 0, 4) + (SignedBits(shift, 5) + EncodeCoefs(coefs, precision))
  }

  /** Signed numbers, n bits each. */
  function EncodeCoefs(vs: seq<int>, n: nat): seq<bit> {
    if vs == [] then [] else SignedBits(vs[0], n) + EncodeCoefs(vs[1..], n)
  }

  function EncodeBody(b: Body, vs: seq<int32>, width: nat): seq<bit>
    requires Carries(b, vs, width)
  {
    match b
    case Constant => SignedBits(vs[0], width)
    case Verbatim => EncodeMany(vs, Plain(width))
    case Predicted(p, precision, layout) =>
      var n := p.Order();
      EncodeMany(vs[..n], Plain(width)) +
      (Parameters(p, precision) + EncodeResidual(layout, |vs|, n, Residuals(p, vs)))
  }

  /** Samples without the zero bits they end in. */
  function ShiftDown(vs: seq<int32>, wasted: nat): (r: seq<int32>)
    ensures |r| == |vs|
  {
    seq(|vs|, i requires 0 <= i < |vs| => DownBy(vs[i], wasted))
  }

  function DownBy(v: int32, wasted: nat): int32 {
    QuotientSmall(v, Pow2(wasted));
    v / Pow2(wasted)
  }

  lemma QuotientSmall(v: int32, d: nat)
    requires d > 0
    ensures -0x8000_0000 <= v / d < 0x8000_0000
  {
  }

  predicate Encodable(c: Choice, vs: seq<int32>, bps: nat) {
    && c.wasted < bps <= 33
    && (forall i :: 0 <= i < |vs| ==> vs[i] % Pow2(c.wasted) == 0)
    && Carries(c.body, ShiftDown(vs, c.wasted), bps - c.wasted)
  }

  function WastedMark(wasted: nat): seq<bit> {
    if wasted == 0 then [0] else [1] + (Zeros(wasted - 1) + [1])
  }

  function EncodeSubframe(c: Choice, vs: seq<int32>, bps: nat): seq<bit>
    requires Encodable(c, vs, bps)
  {
    [0] + (Bits(Kind(c.body), 6) + (WastedMark(c.wasted) +
      EncodeBody(c.body, ShiftDown(vs, c.wasted), bps - c.wasted)))
  }

  // ---- a subframe is read back ----------------------------------------------------------------------------

  lemma KindRange(b: Body, vs: seq<int32>, width: nat)
    requires Carries(b, vs, width)
    ensures Kind(b) < 64
  {
    hide Fitting, AllFit;
  }

  lemma FitIsCodable(vs: seq<int32>, width: nat)
    requires AllFit(vs, width) && 0 < width <= 32
    ensures AllCodable(vs, Plain(width))
  {
    hide Fits;
  }

  lemma CoefsAreNumbers(vs: seq<int>, n: nat)
    requires AllFit(vs, n) && 0 < n <= 32
    ensures forall i :: 0 <= i < |vs| ==> -0x8000_0000 <= vs[i] < 0x8000_0000
  {
    WordRange(n);
    forall i | 0 <= i < |vs|
      ensures -0x8000_0000 <= vs[i] < 0x8000_0000
    {
      assert Fits(vs[i], n);
    }
  }

  lemma {:induction false} CoefsAsMany(vs: seq<int>, ws: seq<int32>, n: nat)
    requires vs == ws
    ensures EncodeCoefs(vs, n) == EncodeMany(ws, Plain(n))
  {
    hide SignedBits;
    if vs != [] {
      CoefsAsMany(vs[1..], ws[1..], n);
    }
  }

  lemma ReadsCoefs(bits: seq<bit>, pos: nat, vs: seq<int>, n: nat)
    requires AllFit(vs, n) && 0 < n <= 32 && HasAt(bits, pos, EncodeCoefs(vs, n))
    ensures ReadMany(bits, pos, Plain(n), |vs|).Got?
    ensures ReadMany(bits, pos, Plain(n), |vs|).val == vs
    ensures ReadMany(bits, pos, Plain(n), |vs|).pos == pos + |EncodeCoefs(vs, n)|
  {
    CoefsAreNumbers(vs, n);
    var ws: seq<int32> := seq(|vs|, i requires 0 <= i < |vs| => vs[i]);
    hide *;
    assert vs == ws;
    assert AllFit(ws, n);
    FitIsCodable(ws, n);
    CoefsAsMany(vs, ws, n);
    ReadsMany(bits, pos, ws, Plain(n));
  }

  lemma ReadsWarmUp(bits: seq<bit>, pos: nat, vs: seq<int32>, n: nat, width: nat)
    requires AllFit(vs, width) && 0 < width <= 25 && n <= |vs|
    requires HasAt(bits, pos, EncodeMany(vs[..n], Plain(width)))
    ensures ReadMany(bits, pos, Plain(width), n) == Got(vs[..n], pos + |EncodeMany(vs[..n], Plain(width))|)
  {
    assert AllFit(vs[..n], width);
    hide *;
    assert |vs[..n]| == n;
    FitIsCodable(vs[..n], width);
    ReadsMany(bits, pos, vs[..n], Plain(width));
  }

  lemma ReadsPredicted(bits: seq<bit>, pos: nat, p: Predictor, layout: Layout, vs: seq<int32>)
    requires p.Order() <= |vs| && (p.Fixed? ==> p.order <= 4)
    requires Fitting(layout, |vs|, p.Order(), Residuals(p, vs))
    requires HasAt(bits, pos, EncodeResidual(layout, |vs|, p.Order(), Residuals(p, vs)))
    ensures ReadPredicted(bits, pos, p, vs[..p.Order()], |vs|)
         == Got(vs, pos + |EncodeResidual(layout, |vs|, p.Order(), Residuals(p, vs))|)
  {
    hide HasAt, Fitting, EncodeResidual, ReadResidual, Restore, Residuals;
    var n := p.Order();
    var res := Residuals(p, vs);
    ReadsResidual(bits, pos, layout, |vs|, n, res);
    RestoreResiduals(p, vs);
  }

  lemma ReadsFixed(bits: seq<bit>, pos: nat, b: Body, vs: seq<int32>, width: nat)
    requires b.Predicted? && b.p.Fixed? && Carries(b, vs, width) && HasAt(bits, pos, EncodeBody(b, vs, width))
    ensures ReadFixed(bits, pos, b.p.order, width, |vs|) == Got(vs, pos + |EncodeBody(b, vs, width)|)
  {
    hide HasAt, Fitting, EncodeResidual, ReadPredicted, Residuals, EncodeMany, ReadMany, AllFit;
    var n := b.p.order;
    var warm := EncodeMany(vs[..n], Plain(width));
    var tail := EncodeResidual(b.layout, |vs|, n, Residuals(b.p, vs));
    assert [] + tail == tail;
    HasParts(bits, pos, warm, tail);
    ReadsWarmUp(bits, pos, vs, n, width);
    ReadsPredicted(bits, pos + |warm|, b.p, b.layout, vs);
  }

  lemma ReadsShift(bits: seq<bit>, pos: nat, shift: nat)
    requires shift <= 15 && HasAt(bits, pos, SignedBits(shift, 5))
    ensures ReadInt(bits, pos, 5) == Got(shift, pos + 5)
  {
    hide HasAt, SignedBits;
    SmallPowers();
    ReadsInt(bits, pos, shift, 5);
  }

  lemma ReadsPrecision(bits: seq<bit>, pos: nat, precision: nat)
    requires 1 <= precision <= 15 && HasAt(bits, pos, Bits(precision - 1, 4))
    ensures ReadNat(bits, pos, 4) == Got(precision - 1, pos + 4)
  {
    hide HasAt, Bits;
    SmallPowers();
    ReadsNat(bits, pos, precision - 1, 4);
  }

  /** The warm-up samples, the parameters and the residual. */
  lemma LinearParts(bits: seq<bit>, pos: nat, b: Body, vs: seq<int32>, width: nat)
    requires b.Predicted? && b.p.Linear? && Carries(b, vs, width) && HasAt(bits, pos, EncodeBody(b, vs, width))
    ensures var n := |b.p.coefs|;
            var warm, z := EncodeMany(vs[..n], Plain(width)), EncodeCoefs(b.p.coefs, b.precision);
            var tail := EncodeResidual(b.layout, |vs|, n, Residuals(b.p, vs));
            var p := pos + |warm|;
            && HasAt(bits, pos, warm) && HasAt(bits, p, Bits(b.precision - 1, 4))
            && HasAt(bits, p + 4, SignedBits(b.p.shift, 5)) && HasAt(bits, p + 9, z)
            && HasAt(bits, p + 9 + |z|, tail) && |EncodeBody(b, vs, width)| == |warm| + 9 + |z| + |tail|
  {
    hide HasAt, Fitting, EncodeResidual, Residuals, EncodeMany, AllFit, Bits, SignedBits, EncodeCoefs;
    var n := |b.p.coefs|;
    var warm := EncodeMany(vs[..n], Plain(width));
    var x, y, z := Bits(b.precision - 1, 4), SignedBits(b.p.shift, 5), EncodeCoefs(b.p.coefs, b.precision);
    var tail := EncodeResidual(b.layout, |vs|, n, Residuals(b.p, vs));
    assert x + (y + z) == Parameters(b.p, b.precision);
    HasParts(bits, pos, warm, (x + (y + z)) + tail);
    HasParts(bits, pos + |warm|, x + (y + z), tail);
    HasParts(bits, pos + |warm|, x, y + z);
    HasParts(bits, pos + |warm| + 4, y, z);
  }

  lemma ReadsLinear(bits: seq<bit>, pos: nat, b: Body, vs: seq<int32>, width: nat)
    requires b.Predicted? && b.p.Linear? && Carries(b, vs, width) && HasAt(bits, pos, EncodeBody(b, vs, width))
    ensures ReadLinear(bits, pos, |b.p.coefs|, width, |vs|) == Got(vs, pos + |EncodeBody(b, vs, width)|)
  {
    hide HasAt, Fitting, EncodeResidual, ReadPredicted, Residuals, EncodeMany, ReadMany, AllFit, ReadNat, ReadInt, Bits,
         SignedBits, EncodeCoefs, EncodeBody;
    var n := |b.p.coefs|;
    var warm := EncodeMany(vs[..n], Plain(width));
    var z := EncodeCoefs(b.p.coefs, b.precision);
    LinearParts(bits, pos, b, vs, width);
    ReadsWarmUp(bits, pos, vs, n, width);
    ReadsPrecision(bits, pos + |warm|, b.precision);
    ReadsShift(bits, pos + |warm| + 4, b.p.shift);
    ReadsCoefs(bits, pos + |warm| + 9, b.p.coefs, b.precision);
    ReadsPredicted(bits, pos + |warm| + 9 + |z|, b.p, b.layout, vs);
  }

  lemma ReadsConstant(bits: seq<bit>, pos: nat, vs: seq<int32>, width: nat)
    requires Carries(Constant, vs, width) && HasAt(bits, pos, SignedBits(vs[0], width))
    ensures ReadBody(bits, pos, 0, width, |vs|) == Got(vs, pos + width)
  {
    hide HasAt, SignedBits, ReadInt;
    ReadsInt(bits, pos, vs[0], width);
    assert seq(|vs|, _ => vs[0]) == vs;
  }

  lemma ReadsVerbatim(bits: seq<bit>, pos: nat, vs: seq<int32>, width: nat)
    requires Carries(Verbatim, vs, width) && HasAt(bits, pos, EncodeMany(vs, Plain(width)))
    ensures ReadBody(bits, pos, 1, width, |vs|) == Got(vs, pos + |EncodeMany(vs, Plain(width))|)
  {
    hide HasAt, EncodeMany, ReadMany, AllFit;
    FitIsCodable(vs, width);
    ReadsMany(bits, pos, vs, Plain(width));
  }

  lemma DispatchFixed(bits: seq<bit>, pos: nat, order: nat, width: nat, blocksize: nat)
    requires order <= 4 && 0 < width <= 25
    ensures ReadBody(bits, pos, 8 + order, width, blocksize) == ReadFixed(bits, pos, order, width, blocksize)
  {
    hide ReadFixed, ReadLinear;
  }

  lemma DispatchLinear(bits: seq<bit>, pos: nat, order: nat, width: nat, blocksize: nat)
    requires 1 <= order <= 32 && 0 < width <= 25
    ensures ReadBody(bits, pos, 31 + order, width, blocksize) == ReadLinear(bits, pos, order, width, blocksize)
  {
    hide ReadFixed, ReadLinear;
  }

  lemma ReadsPredictedBody(bits: seq<bit>, pos: nat, b: Body, vs: seq<int32>, width: nat)
    requires b.Predicted? && Carries(b, vs, width) && HasAt(bits, pos, EncodeBody(b, vs, width))
    ensures Kind(b) < 64
    ensures ReadBody(bits, pos, Kind(b), width, |vs|) == Got(vs, pos + |EncodeBody(b, vs, width)|)
  {
    hide HasAt, Fitting, EncodeBody, ReadFixed, ReadLinear, AllFit, ReadBody;
    if b.p.Fixed? {
      DispatchFixed(bits, pos, b.p.order, width, |vs|);
      ReadsFixed(bits, pos, b, vs, width);
    } else {
      DispatchLinear(bits, pos, |b.p.coefs|, width, |vs|);
      ReadsLinear(bits, pos, b, vs, width);
    }
  }

  lemma PlainBodies(b: Body, vs: seq<int32>, width: nat)
    requires !b.Predicted? && Carries(b, vs, width)
    ensures Kind(b) == (if b.Constant? then 0 else 1) && vs != [] && 0 < width
    ensures EncodeBody(b, vs, width) == if b.Constant? then SignedBits(vs[0], width) else EncodeMany(vs, Plain(width))
  {
    hide SignedBits, EncodeMany;
  }

  lemma ReadsBody(bits: seq<bit>, pos: nat, b: Body, vs: seq<int32>, width: nat)
    requires Carries(b, vs, width) && HasAt(bits, pos, EncodeBody(b, vs, width))
    ensures Kind(b) < 64
    ensures ReadBody(bits, pos, Kind(b), width, |vs|) == Got(vs, pos + |EncodeBody(b, vs, width)|)
  {
    hide *;
    if b.Predicted? {
      ReadsPredictedBody(bits, pos, b, vs, width);
    } else {
      PlainBodies(b, vs, width);
      if b.Constant? {
        ReadsConstant(bits, pos, vs, width);
      } else {
        ReadsVerbatim(bits, pos, vs, width);
      }
    }
  }

  lemma UpAndDown(v: int32, d: nat)
    requires d > 0 && v % d == 0
    ensures v / d * d == v
  {
  }

  lemma ShiftsBack(vs: seq<int32>, wasted: nat)
    requires forall i :: 0 <= i < |vs| ==> vs[i] % Pow2(wasted) == 0
    ensures ShiftUp(ShiftDown(vs, wasted), wasted) == vs
  {
    hide Pow2;
    forall i | 0 <= i < |vs|
      ensures ShiftUp(ShiftDown(vs, wasted), wasted)[i] == vs[i]
    {
      UpAndDown(vs[i], Pow2(wasted));
    }
  }

  lemma ReadsWastedMark(bits: seq<bit>, pos: nat, wasted: nat)
    requires wasted <= RUNAWAY && HasAt(bits, pos, WastedMark(wasted))
    ensures ReadNat(bits, pos, 1) == Got(if wasted > 0 then 1 else 0, pos + 1)
    ensures wasted > 0 ==> ReadWasted(bits, pos + 1) == Got(wasted, pos + |WastedMark(wasted)|)
  {
    SmallPowers();
    if wasted == 0 {
      assert Bits(0, 1) == [0];
      ReadsNat(bits, pos, 0, 1);
    } else {
      assert Bits(1, 1) == [1];
      var z := Zeros(wasted - 1);
      HasParts(bits, pos, [1], z + [1]);
      HasParts(bits, pos + 1, z, [1]);
      ReadsNat(bits, pos, 1, 1);
      ZerosRun(bits, pos + 1, wasted - 1);
    }
  }

  lemma ReadsShifted(bits: seq<bit>, pos: nat, c: Choice, vs: seq<int32>, bps: nat)
    requires Encodable(c, vs, bps) && HasAt(bits, pos, EncodeBody(c.body, ShiftDown(vs, c.wasted), bps - c.wasted))
    ensures Kind(c.body) < 64
    ensures ReadWithWasted(bits, pos, Kind(c.body), c.wasted, |vs|, bps)
         == Got(vs, pos + |EncodeBody(c.body, ShiftDown(vs, c.wasted), bps - c.wasted)|)
  {
    hide *;
    EncodableFacts(c, vs, bps);
    var down, width := ShiftDown(vs, c.wasted), bps - c.wasted;
    ReadsBody(bits, pos, c.body, down, width);
    ShiftsBack(vs, c.wasted);
    WithWastedOfParts(bits, pos, Kind(c.body), c.wasted, |vs|, bps, down, pos + |EncodeBody(c.body, down, width)|);
  }

  lemma WithWastedOfParts(bits: seq<bit>, pos: nat, kind: nat, wasted: nat, blocksize: nat, bps: nat, down: seq<int32>,
                          e: nat)
    requires kind < 64 && wasted < bps <= wasted + 25
    requires ReadBody(bits, pos, kind, bps - wasted, blocksize) == Got(down, e)
    ensures ReadWithWasted(bits, pos, kind, wasted, blocksize, bps) == Got(ShiftUp(down, wasted), e)
  {
    hide ReadBody, ShiftUp;
  }

  lemma ReadsSubframe(bits: seq<bit>, pos: nat, c: Choice, vs: seq<int32>, bps: nat)
    requires Encodable(c, vs, bps) && HasAt(bits, pos, EncodeSubframe(c, vs, bps))
    ensures ReadSubframe(bits, pos, |vs|, bps) == Got(vs, pos + |EncodeSubframe(c, vs, bps)|)
  {
    hide *;
    EncodableFacts(c, vs, bps);
    var body := EncodeBody(c.body, ShiftDown(vs, c.wasted), bps - c.wasted);
    var kind, mark := Bits(Kind(c.body), 6), WastedMark(c.wasted);
    SmallPowers();
    ZeroBit();
    HasParts(bits, pos, [0], kind + (mark + body));
    HasParts(bits, pos + 1, kind, mark + body);
    HasParts(bits, pos + 7, mark, body);
    ReadsNat(bits, pos, 0, 1);
    ReadsNat(bits, pos + 1, Kind(c.body), 6);
    ReadsWastedMark(bits, pos + 7, c.wasted);
    ReadsShifted(bits, pos + 7 + |mark|, c, vs, bps);
    MarkLength(c.wasted);
    SubframeOfParts(bits, pos, Kind(c.body), c.wasted, pos + 7 + |mark|, |vs|, bps);
  }

  lemma EncodableFacts(c: Choice, vs: seq<int32>, bps: nat)
    requires Encodable(c, vs, bps)
    ensures c.wasted <= RUNAWAY && c.wasted < bps && Carries(c.body, ShiftDown(vs, c.wasted), bps - c.wasted)
    ensures Kind(c.body) < 64 && bps <= c.wasted + 25 && |ShiftDown(vs, c.wasted)| == |vs|
    ensures forall i :: 0 <= i < |vs| ==> vs[i] % Pow2(c.wasted) == 0
    ensures EncodeSubframe(c, vs, bps) ==
            [0] + (Bits(Kind(c.body), 6) + (WastedMark(c.wasted) +
              EncodeBody(c.body, ShiftDown(vs, c.wasted), bps - c.wasted)))
  {
    hide EncodeBody, ShiftDown, Bits, Kind, WastedMark, AllFit, Fitting;
    KindRange(c.body, ShiftDown(vs, c.wasted), bps - c.wasted);
  }

  lemma SubframeOfParts(bits: seq<bit>, pos: nat, kind: nat, wasted: nat, p: nat, blocksize: nat, bps: nat)
    requires kind < 64
    requires ReadNat(bits, pos, 1) == Got(0, pos + 1) && ReadNat(bits, pos + 1, 6) == Got(kind, pos + 7)
    requires ReadNat(bits, pos + 7, 1) == Got(if wasted > 0 then 1 else 0, pos + 8)
    requires if wasted == 0 then p == pos + 8 else ReadWasted(bits, pos + 8) == Got(wasted, p)
    ensures ReadSubframe(bits, pos, blocksize, bps) == ReadWithWasted(bits, p, kind, wasted, blocksize, bps)
  {
    hide ReadNat, ReadWasted, ReadWithWasted;
  }

  lemma ZeroBit()
    ensures Bits(0, 1) == [0]
  {
  }

  lemma MarkLength(wasted: nat)
    ensures |WastedMark(wasted)| == wasted + 1
  {
  }

  // ---- channels -----------------------------------------------------------------------------------------

  /** A difference takes one bit more: the second of left and side and of mid and side, the first of side and right. */
  function WidthOf(h: Header, c: nat): nat {
    match h.chCode
    case 8 | 10 => if c == 1 then h.bps + 1 else h.bps
    case 9 => if c == 0 then h.bps + 1 else h.bps
    case _ => h.bps
  }

  predicate AllEncodable(cs: seq<Choice>, h: Header, planes: seq<seq<int32>>) {
    && |cs| == |planes| == h.Channels()
    && forall c :: 0 <= c < |cs| ==> |planes[c]| == h.blocksize && Encodable(cs[c], planes[c], WidthOf(h, c))
  }

  /** The subframes from channel c on. */
  function EncodeSubframes(cs: seq<Choice>, h: Header, planes: seq<seq<int32>>, c: nat): seq<bit>
    requires AllEncodable(cs, h, planes) && c <= |cs|
    decreases |cs| - c
  {
    if c == |cs| then [] else EncodeSubframe(cs[c], planes[c], WidthOf(h, c)) + EncodeSubframes(cs, h, planes, c + 1)
  }

  lemma {:induction false} ReadsSubframes(bits: seq<bit>, pos: nat, cs: seq<Choice>, h: Header,
                                          planes: seq<seq<int32>>, c: nat)
    requires AllEncodable(cs, h, planes) && c <= |cs| == |planes| == h.Channels()
    requires HasAt(bits, pos, EncodeSubframes(cs, h, planes, c))
    ensures ReadSubframes(bits, pos, h, c) == Got(planes[c..], pos + |EncodeSubframes(cs, h, planes, c)|)
    decreases |cs| - c
  {
    hide *;
    SubframesOf(cs, h, planes, c);
    if c == |cs| {
      NoSubframes(bits, pos, h);
      assert planes[c..] == [];
    } else {
      var x := EncodeSubframe(cs[c], planes[c], WidthOf(h, c));
      var rest := EncodeSubframes(cs, h, planes, c + 1);
      HasParts(bits, pos, x, rest);
      ReadsSubframe(bits, pos, cs[c], planes[c], WidthOf(h, c));
      ReadsSubframes(bits, pos + |x|, cs, h, planes, c + 1);
      OneSubframe(bits, pos, h, c, planes[c..], pos + |x|, pos + |x + rest|);
    }
  }

  lemma SubframesOf(cs: seq<Choice>, h: Header, planes: seq<seq<int32>>, c: nat)
    requires AllEncodable(cs, h, planes) && c <= |cs|
    ensures |cs| == |planes| == h.Channels()
    ensures c == |cs| ==> EncodeSubframes(cs, h, planes, c) == []
    ensures c < |cs| ==>
      && Encodable(cs[c], planes[c], WidthOf(h, c)) && |planes[c]| == h.blocksize
      && EncodeSubframes(cs, h, planes, c) ==
         EncodeSubframe(cs[c], planes[c], WidthOf(h, c)) + EncodeSubframes(cs, h, planes, c + 1)
  {
    hide Encodable, EncodeSubframe, WidthOf;
  }

  lemma NoSubframes(bits: seq<bit>, pos: nat, h: Header)
    ensures ReadSubframes(bits, pos, h, h.Channels()) == Got([], pos)
  {
  }

  lemma OneSubframe(bits: seq<bit>, pos: nat, h: Header, c: nat, planes: seq<seq<int32>>, p: nat, e: nat)
    requires c < h.Channels() && planes != []
    requires ReadSubframe(bits, pos, h.blocksize, WidthOf(h, c)) == Got(planes[0], p)
    requires ReadSubframes(bits, p, h, c + 1) == Got(planes[1..], e)
    ensures ReadSubframes(bits, pos, h, c) == Got(planes, e)
  {
    hide ReadSubframe;
    assert [planes[0]] + planes[1..] == planes;
  }

  function SideOf(l: int32, r: int32): int32 { ToInt32(l - r) }

  function MidOf(l: int32, r: int32): int32 { (l + r) / 2 }

  /** What the channel code has sent instead of left and right. */
  function Correlate(chCode: nat, p: seq<seq<int32>>): (r: seq<seq<int32>>)
    requires chCode > 7 ==> |p| == 2
    ensures |r| == |p|
  {
    if chCode == 8 then [p[0], Zip(SideOf, p[0], p[1])]
    else if chCode == 9 then [Zip(SideOf, p[0], p[1]), p[1]]
    else if chCode == 10 then [Zip(MidOf, p[0], p[1]), Zip(SideOf, p[0], p[1])]
    else p
  }

  lemma StereoBack(l: int32, r: int32)
    ensures RightOf(l, SideOf(l, r)) == r
    ensures LeftOf(SideOf(l, r), r) == l
    ensures -0x8000_0000 <= l - r < 0x8000_0000 ==>
              MidLeft(MidOf(l, r), SideOf(l, r)) == l && MidRight(MidOf(l, r), SideOf(l, r)) == r
  {
    hide ToInt32;
    WrapsDown(l, r);
    WrapsBack(l, r);
    assert r + ToInt32(l - r) == ToInt32(l - r) + r;
    if -0x8000_0000 <= l - r < 0x8000_0000 {
      MidAndSide(l, r);
    }
  }

  lemma WrapsDown(l: int32, r: int32)
    ensures ToInt32(l - ToInt32(l - r)) == r
  {
  }

  lemma MidAndSide(l: int, r: int)
    ensures (2 * ((l + r) / 2) + (l - r) % 2 + (l - r)) / 2 == l
    ensures (2 * ((l + r) / 2) + (l - r) % 2 - (l - r)) / 2 == r
  {
    assert 2 * ((l + r) / 2) + (l - r) % 2 == l + r;
  }

  /** Stereo comes back whatever was sent, when the difference of mid and side stereo fits 32 bits. */
  lemma DecorrelateCorrelated(chCode: nat, p: seq<seq<int32>>)
    requires 8 <= chCode <= 10 && |p| == 2 && |p[0]| == |p[1]|
    requires chCode == 10 ==> forall i :: 0 <= i < |p[0]| ==> -0x8000_0000 <= p[0][i] - p[1][i] < 0x8000_0000
    ensures Decorrelate(chCode, Correlate(chCode, p)) == p
  {
    hide SideOf, MidOf, MidLeft, MidRight, LeftOf, RightOf;
    var q := Correlate(chCode, p);
    var d := Decorrelate(chCode, q);
    forall i | 0 <= i < |p[0]|
      ensures d[0][i] == p[0][i] && d[1][i] == p[1][i]
    {
      StereoBack(p[0][i], p[1][i]);
    }
    assert d[0] == p[0] && d[1] == p[1];
  }

  // ---- the frame header ------------------------------------------------------------------------------------

  /** The continuation bytes of a number: its last 6 * e bits. */
  function Conts(n: nat, e: nat): (s: seq<byte>)
    ensures |s| == e
    ensures forall i :: 0 <= i < e ==> IsContinuation(s[i])
  {
    if e == 0 then [] else Conts(n / 64, e - 1) + [0x80 + n % 64]
  }

  const LEADS: seq<byte> := [0, 0xC0, 0xE0, 0xF0, 0xF8, 0xFC, 0xFE]

  predicate NumberFits(n: nat, e: nat) {
    e <= 6 && Quotient(n, 6 * e) < Pow2(if e == 0 then 7 else 6 - e)
  }

  lemma LeadRange(e: nat, high: nat)
    requires e <= 6 && high < Pow2(if e == 0 then 7 else 6 - e)
    ensures LEADS[e] + high < 256
    ensures var lead: int := LEADS[e] + high; ExtraBytes(lead) == e && LeadDigits(lead, e) == high
  {
    SmallPowers();
  }

  function NumberBytes(n: nat, e: nat): (s: seq<byte>)
    requires NumberFits(n, e)
    ensures |s| == 1 + e
  {
    LeadRange(e, Quotient(n, 6 * e));
    [LEADS[e] + Quotient(n, 6 * e)] + Conts(n, e)
  }

  lemma {:induction false} DigitsAppend(s: seq<byte>, b: byte, high: nat)
    ensures Digits(s + [b], high) == Digits(s, high) * 64 + b % 64
    decreases |s|
  {
    if s == [] {
      assert ([b])[1..] == [];
    } else {
      assert (s + [b])[1..] == s[1..] + [b];
      DigitsAppend(s[1..], b, high * 64 + s[0] % 64);
    }
  }

  lemma ModSplit(n: nat, p: nat)
    requires p > 0
    ensures n % (64 * p) == n / 64 % p * 64 + n % 64
  {
    var q, r := n / 64, n % 64;
    var a, b := q / p, q % p;
    assert q == p * a + b;
    assert 64 * (p * a + b) == a * (64 * p) + 64 * b;
    DivMod(a, 64 * p, 64 * b + r);
  }

  lemma {:induction false} DigitsOfConts(n: nat, e: nat, high: nat)
    ensures Digits(Conts(n, e), high) == high * Pow2(6 * e) + n % Pow2(6 * e)
  {
    hide *;
    SixMore(e);
    if e > 0 {
      var p := Pow2(6 * (e - 1));
      OneMoreCont(n, e);
      DigitsOfConts(n / 64, e - 1, high);
      DigitsAppend(Conts(n / 64, e - 1), 0x80 + n % 64, high);
      OneMoreDigit(n, p, high);
      assert (0x80 + n % 64) % 64 == n % 64;
    } else {
      NoDigits(n, high);
    }
  }

  lemma SixMore(e: nat)
    ensures e > 0 ==> Pow2(6 * e) == 64 * Pow2(6 * (e - 1))
    ensures e == 0 ==> Pow2(6 * e) == 1
  {
    if e > 0 {
      SixMoreThan(e, 6 * (e - 1));
    }
  }

  lemma SixMoreThan(e: nat, k: nat)
    requires 6 * e == k + 6
    ensures Pow2(6 * e) == 64 * Pow2(k)
  {
    hide Pow2;
    SixtyFourTimes(k);
  }

  lemma SixtyFourTimes(k: nat)
    ensures Pow2(6 + k) == 64 * Pow2(k)
  {
    Pow2Sum(6, k);
    SmallPowers();
    hide Pow2;
  }

  lemma OneMoreCont(n: nat, e: nat)
    requires e > 0
    ensures Conts(n, e) == Conts(n / 64, e - 1) + [0x80 + n % 64]
  {
  }

  lemma NoDigits(n: nat, high: nat)
    ensures Digits(Conts(n, 0), high) == high
  {
  }

  lemma OneMoreDigit(n: nat, p: nat, high: nat)
    requires p > 0
    ensures (high * p + n / 64 % p) * 64 + n % 64 == high * (64 * p) + n % (64 * p)
  {
    ModSplit(n, p);
  }

  lemma ReadsNumber(buf: seq<byte>, pos: nat, n: nat, e: nat)
    requires NumberFits(n, e) && HasAt(buf, pos, NumberBytes(n, e))
    ensures ReadNumber(buf, pos) == Got(n, pos + 1 + e)
  {
    hide Pow2, Conts, LeadDigits, ExtraBytes, Digits;
    var high := Quotient(n, 6 * e);
    LeadRange(e, high);
    var lead: byte := LEADS[e] + high;
    HasParts(buf, pos, [lead], Conts(n, e));
    assert buf[pos] == buf[pos..pos + 1][0];
    assert buf[pos + 1..pos + 1 + e] == Conts(n, e);
    DigitsOfConts(n, e, high);
    QuotientOf(n, Pow2(6 * e));
  }

  predicate InBytes(v: nat, n: nat) {
    v < (if n == 0 then 1 else if n == 1 then 256 else 0x1_0000)
  }

  function ToBytes(v: nat, n: nat): (s: seq<byte>)
    requires n <= 2
    ensures |s| == n
  {
    if n == 0 then [] else if n == 1 then [v % 256] else [v / 256 % 256, v % 256]
  }

  lemma BytesBack(v: nat, n: nat)
    requires n <= 2 && InBytes(v, n)
    ensures BigEndian(ToBytes(v, n)) == v
  {
    hide BigEndian;
    if n == 0 {
      NoBytes();
    } else if n == 1 {
      OneByte(v % 256);
    } else {
      TwoBytes(v / 256 % 256, v % 256);
    }
  }

  lemma NoBytes()
    ensures BigEndian([]) == 0
  {
  }

  lemma OneByte(a: byte)
    ensures BigEndian([a]) == a
  {
    assert [a][..0] == [];
  }

  lemma TwoBytes(a: byte, b: byte)
    ensures BigEndian([a, b]) == a * 256 + (b as int)
  {
    hide BigEndian;
    OneByte(a);
    assert [a] + [b] == [a, b];
    OneMoreByte([a], b);
  }

  lemma OneMoreByte(s: seq<byte>, b: byte)
    ensures BigEndian(s + [b]) == BigEndian(s) * 256 + (b as int)
  {
    assert (s + [b])[..|s|] == s;
  }

  lemma ReadsBytes(buf: seq<byte>, pos: nat, v: nat, n: nat)
    requires n <= 2 && InBytes(v, n)
    requires HasAt(buf, pos, ToBytes(v, n))
    ensures ReadBytes(buf, pos, n) == Got(v, pos + n)
  {
    hide BigEndian, ToBytes;
    BytesBack(v, n);
  }

  /** An encoder's choices for a frame header: its codes, their values and how many bytes the number has. */
  datatype HeaderChoice = HeaderChoice(
    bsCode: nat, blockValue: nat, srCode: nat, rateValue: nat, ssCode: nat, extra: nat)

  /** What a block size code says, `v` being the number behind the codes, if one is there: RFC 9639, section 9.1.1. */
  predicate SaysSize(code: nat, v: nat, size: nat) {
    if code == 6 then v < 0x100 && size == v + 1
    else if code == 7 then v < 0x1_0000 && size == v + 1
    else
      v == 0 && match code
                case 1 => size == 192
                case 2 | 3 | 4 | 5 => size == 144 * Pow2(code)
                case 8 | 9 | 10 | 11 | 12 | 13 | 14 | 15 => size == Pow2(code)
                case _ => false
  }

  /** What a sample rate code says: section 9.1.2. */
  predicate SaysRate(code: nat, v: nat, rate: nat, info: Option<StreamInfo>) {
    match code
    case 12 => v < 0x100 && rate == 1000 * v
    case 13 => v < 0x1_0000 && rate == v
    case 14 => v < 0x1_0000 && rate == 10 * v
    case _ =>
      v == 0 && match code
                case 0 => info.Some? && 0 < rate == info.value.sampleRate
                case 1 => rate == 88_200
                case 2 => rate == 176_400
                case 3 => rate == 192_000
                case 4 => rate == 8_000
                case 5 => rate == 16_000
                case 6 => rate == 22_050
                case 7 => rate == 24_000
                case 8 => rate == 32_000
                case 9 => rate == 44_100
                case 10 => rate == 48_000
                case 11 => rate == 96_000
                case _ => false
  }

  /** What a bit depth code says: section 9.1.4, without the code for 32 bits, which is not read. */
  predicate SaysBits(code: nat, bits: nat, info: Option<StreamInfo>) {
    match code
    case 0 => info.Some? && 0 < bits == info.value.bps
    case 1 => bits == 8
    case 2 => bits == 12
    case 4 => bits == 16
    case 5 => bits == 20
    case 6 => bits == 24
    case _ => false
  }

  /** The codes stand for what the header says, given the stream's info. */
  predicate Describes(k: HeaderChoice, h: Header, info: Option<StreamInfo>) {
    && SaysSize(k.bsCode, k.blockValue, h.blocksize) && SaysRate(k.srCode, k.rateValue, h.rate, info)
    && SaysBits(k.ssCode, h.bps, info) && h.chCode <= 10 && NumberFits(h.number, k.extra)
  }

  /** The parser's block sizes are the format's, for every code. */
  lemma SizesAgree(code: nat, v: nat, size: nat)
    requires code <= 15
    ensures SaysSize(code, v, size) <==>
            1 <= code && InBytes(v, BlockBytes(code)) && BlockSize(code, v) == size
  {
    SmallPowers();
    Pow2Sum(8, if code >= 8 then code - 8 else 0);
  }

  /** The parser's sample rates are the format's, for every code. */
  lemma RatesAgree(code: nat, v: nat, rate: nat, info: Option<StreamInfo>)
    requires code <= 15
    ensures SaysRate(code, v, rate, info) <==>
            InBytes(v, RateBytes(code)) && SampleRate(code, v, info) == Some(rate)
  {
  }

  /** The parser's bit depths are the format's, for every code but that for 32 bits. */
  lemma DepthsAgree(code: nat, bits: nat, info: Option<StreamInfo>)
    ensures SaysBits(code, bits, info) <==> SampleBits(code, info) == Some(bits)
  {
  }

  /** What the parser makes of the codes. */
  lemma CodesSay(k: HeaderChoice, h: Header, info: Option<StreamInfo>)
    requires Describes(k, h, info)
    ensures 1 <= k.bsCode <= 15 && k.srCode <= 15 && k.ssCode <= 7 && h.chCode <= 10
    ensures InBytes(k.blockValue, BlockBytes(k.bsCode)) && InBytes(k.rateValue, RateBytes(k.srCode))
    ensures NumberFits(h.number, k.extra) && h.blocksize == BlockSize(k.bsCode, k.blockValue)
    ensures SampleRate(k.srCode, k.rateValue, info) == Some(h.rate) && SampleBits(k.ssCode, info) == Some(h.bps)
  {
    CodesInRange(k, h, info);
    hide SaysSize, SaysRate, SaysBits, BlockSize, SampleRate, SampleBits, InBytes, BlockBytes, RateBytes, NumberFits;
    SizesAgree(k.bsCode, k.blockValue, h.blocksize);
    RatesAgree(k.srCode, k.rateValue, h.rate, info);
    DepthsAgree(k.ssCode, h.bps, info);
  }

  lemma CodesInRange(k: HeaderChoice, h: Header, info: Option<StreamInfo>)
    requires Describes(k, h, info)
    ensures 1 <= k.bsCode <= 15 && k.srCode <= 15 && k.ssCode <= 7
  {
    hide NumberFits, Pow2;
  }

  function Codes(k: HeaderChoice, h: Header): (s: seq<byte>)
    requires 1 <= k.bsCode <= 15 && k.srCode <= 15 && k.ssCode <= 7 && h.chCode <= 10
    ensures |s| == 4
  {
    [0xFF, 0xF8 + (if h.variable then 1 else 0), k.bsCode * 16 + k.srCode, h.chCode * 16 + k.ssCode * 2]
  }

  /** The number that some codes have behind them, in one byte or two. */
  function SizeSuffix(code: nat, v: nat): seq<byte> {
    match code
    case 6 => [v % 256]
    case 7 => [v / 256 % 256, v % 256]
    case _ => []
  }

  function RateSuffix(code: nat, v: nat): seq<byte> {
    match code
    case 12 => [v % 256]
    case 13 | 14 => [v / 256 % 256, v % 256]
    case _ => []
  }

  /** The header without its checksum. */
  function HeaderFields(k: HeaderChoice, h: Header, info: Option<StreamInfo>): seq<byte>
    requires Describes(k, h, info)
  {
    CodesInRange(k, h, info);
    Codes(k, h) + (NumberBytes(h.number, k.extra) +
      (SizeSuffix(k.bsCode, k.blockValue) + RateSuffix(k.srCode, k.rateValue)))
  }

  lemma FieldsAre(k: HeaderChoice, h: Header, info: Option<StreamInfo>)
    requires Describes(k, h, info)
    ensures 1 <= k.bsCode <= 15 && k.srCode <= 15 && k.ssCode <= 7
    ensures HeaderFields(k, h, info) == Codes(k, h) + (NumberBytes(h.number, k.extra) +
      (ToBytes(k.blockValue, BlockBytes(k.bsCode)) + ToBytes(k.rateValue, RateBytes(k.srCode))))
  {
    CodesInRange(k, h, info);
    hide Codes, NumberBytes, NumberFits, SaysSize, SaysRate, SaysBits;
  }

  function EncodeHeader(k: HeaderChoice, h: Header, info: Option<StreamInfo>): seq<byte>
    requires Describes(k, h, info)
  {
    var s := HeaderFields(k, h, info);
    s + [Crc8(s)]
  }

  lemma CodesBack(k: HeaderChoice, h: Header, buf: seq<byte>)
    requires 1 <= k.bsCode <= 15 && k.srCode <= 15 && k.ssCode <= 7 && h.chCode <= 10
    requires Codes(k, h) <= buf
    ensures buf[0] == 0xFF && buf[1] / 2 == 0x7C && (buf[1] % 2 == 1 <==> h.variable)
    ensures buf[2] / 16 == k.bsCode && buf[2] % 16 == k.srCode
    ensures buf[3] % 2 == 0 && buf[3] / 16 == h.chCode && buf[3] / 2 % 8 == k.ssCode
  {
    var c := Codes(k, h);
    assert buf[0] == c[0] && buf[1] == c[1] && buf[2] == c[2] && buf[3] == c[3];
    assert 0xF8 / 2 == 0x7C && 0xF9 / 2 == 0x7C;
    DivMod(k.bsCode, 16, k.srCode);
    DivMod(h.chCode, 16, k.ssCode * 2);
    DivMod(h.chCode * 8 + k.ssCode, 2, 0);
    DivMod(h.chCode, 8, k.ssCode);
  }

  lemma HeaderParts(k: HeaderChoice, h: Header, info: Option<StreamInfo>, s: seq<byte>)
    requires Describes(k, h, info) && HasAt(s, 0, HeaderFields(k, h, info))
    ensures Codes(k, h) <= s
    ensures var p1 := 5 + k.extra;
            var p2 := p1 + BlockBytes(k.bsCode);
            var p3 := p2 + RateBytes(k.srCode);
            && ReadNumber(s, 4) == Got(h.number, p1)
            && ReadBytes(s, p1, BlockBytes(k.bsCode)) == Got(k.blockValue, p2)
            && ReadBytes(s, p2, RateBytes(k.srCode)) == Got(k.rateValue, p3)
            && |HeaderFields(k, h, info)| == p3
  {
    hide *;
    DescribesFields(k, h, info);
    var b := ToBytes(k.blockValue, BlockBytes(k.bsCode));
    FieldsAt(k, h, info, s);
    ReadsNumber(s, 4, h.number, k.extra);
    ReadsBytes(s, 5 + k.extra, k.blockValue, BlockBytes(k.bsCode));
    ReadsBytes(s, 5 + k.extra + |b|, k.rateValue, RateBytes(k.srCode));
  }

  lemma DescribesFields(k: HeaderChoice, h: Header, info: Option<StreamInfo>)
    requires Describes(k, h, info)
    ensures InBytes(k.blockValue, BlockBytes(k.bsCode)) && InBytes(k.rateValue, RateBytes(k.srCode))
    ensures NumberFits(h.number, k.extra) && BlockBytes(k.bsCode) <= 2 && RateBytes(k.srCode) <= 2
    ensures |ToBytes(k.blockValue, BlockBytes(k.bsCode))| == BlockBytes(k.bsCode)
    ensures |ToBytes(k.rateValue, RateBytes(k.srCode))| == RateBytes(k.srCode)
  {
    CodesSay(k, h, info);
    hide NumberFits, SaysSize, SaysRate, SaysBits, BlockSize, SampleRate, SampleBits, InBytes;
  }

  lemma FieldsAt(k: HeaderChoice, h: Header, info: Option<StreamInfo>, s: seq<byte>)
    requires Describes(k, h, info) && HasAt(s, 0, HeaderFields(k, h, info))
    ensures var n := NumberBytes(h.number, k.extra);
            var b, r := ToBytes(k.blockValue, BlockBytes(k.bsCode)), ToBytes(k.rateValue, RateBytes(k.srCode));
            && Codes(k, h) <= s && HasAt(s, 4, n) && HasAt(s, 4 + |n|, b) && HasAt(s, 4 + |n| + |b|, r)
            && |HeaderFields(k, h, info)| == 4 + |n| + |b| + |r| && |n| == 1 + k.extra
  {
    var c, n := Codes(k, h), NumberBytes(h.number, k.extra);
    var b, r := ToBytes(k.blockValue, BlockBytes(k.bsCode)), ToBytes(k.rateValue, RateBytes(k.srCode));
    assert HasAt(s, 0, c) ==> c <= s;
    hide Describes, HeaderFields, HasAt, NumberBytes, ToBytes, Codes, BlockSize, SampleRate, SampleBits, BlockBytes,
         RateBytes, NumberFits, InBytes;
    FieldsAre(k, h, info);
    HasParts(s, 0, c, n + (b + r));
    HasParts(s, 4, n, b + r);
    HasParts(s, 4 + |n|, b, r);
  }

  lemma HeaderOfParts(k: HeaderChoice, h: Header, info: Option<StreamInfo>, s: seq<byte>)
    requires Describes(k, h, info) && Codes(k, h) <= s
    requires var p1 := 5 + k.extra;
             var p2 := p1 + BlockBytes(k.bsCode);
             var p3 := p2 + RateBytes(k.srCode);
             && ReadNumber(s, 4) == Got(h.number, p1)
             && ReadBytes(s, p1, BlockBytes(k.bsCode)) == Got(k.blockValue, p2)
             && ReadBytes(s, p2, RateBytes(k.srCode)) == Got(k.rateValue, p3)
             && |s| == p3 + 1 && s[p3] == Crc8(s[..p3])
    ensures ReadHeader(s, info) == Got(h, |s|)
  {
    hide Describes, Codes, Crc8, ReadNumber, ReadBytes, BlockSize, SampleRate, SampleBits, BlockBytes, RateBytes,
         NumberFits, InBytes;
    CodesSay(k, h, info);
    CodesBack(k, h, s);
  }

  lemma ReadsHeader(k: HeaderChoice, h: Header, info: Option<StreamInfo>)
    requires Describes(k, h, info)
    ensures var s := EncodeHeader(k, h, info); ReadHeader(s, info) == Got(h, |s|)
  {
    hide Describes, HeaderFields, Crc8, Codes, ReadNumber, ReadBytes, ReadHeader;
    var f, s := HeaderFields(k, h, info), EncodeHeader(k, h, info);
    assert s[..|f|] == f && s[|f|] == Crc8(f);
    HeaderParts(k, h, info, s);
    HeaderOfParts(k, h, info, s);
  }

  // ---- frames ----------------------------------------------------------------------------------------------

  function Padded(bits: seq<bit>): (p: seq<bit>)
    ensures |p| % 8 == 0 && |p| / 8 == (|bits| + 7) / 8
  {
    bits + Zeros((8 - |bits| % 8) % 8)
  }

  /** Everything an encoder decides about a frame. */
  datatype FrameChoice = FrameChoice(header: HeaderChoice, subframes: seq<Choice>)

  /** The choices are legal for these planes: header codes, subframe codings, and samples of the header's width. */
  predicate LegalFrame(k: FrameChoice, h: Header, info: Option<StreamInfo>, planes: seq<seq<int32>>) {
    && Describes(k.header, h, info) && h.blocksize <= 65535
    && |planes| == (if h.chCode < 8 then h.chCode + 1 else 2) && (forall p :: p in planes ==> |p| == h.blocksize)
    && (h.chCode == 10 ==>
          forall i :: 0 <= i < h.blocksize ==> -0x8000_0000 <= planes[0][i] - planes[1][i] < 0x8000_0000)
    && AllEncodable(k.subframes, h, Correlate(h.chCode, planes))
  }

  /** The frame without its last checksum. */
  function FrameFields(k: FrameChoice, h: Header, info: Option<StreamInfo>, planes: seq<seq<int32>>): seq<byte>
    requires LegalFrame(k, h, info, planes)
  {
    EncodeHeader(k.header, h, info) + Pack(Padded(EncodeSubframes(k.subframes, h, Correlate(h.chCode, planes), 0)))
  }

  function EncodeFrame(k: FrameChoice, h: Header, info: Option<StreamInfo>, planes: seq<seq<int32>>): seq<byte>
    requires LegalFrame(k, h, info, planes)
  {
    var s := FrameFields(k, h, info, planes);
    s + ToBytes(Crc16(s), 2)
  }

  /** Packed bits are found behind what precedes them. */
  lemma PackedBits(head: seq<byte>, bits: seq<bit>, tail: seq<byte>)
    ensures HasAt(Unpack(head + Pack(Padded(bits)) + tail), 8 * |head|, bits)
  {
    hide Unpack, Pack, Padded;
    var body := Pack(Padded(bits));
    UnpackConcat(head + body, tail);
    UnpackConcat(head, body);
    UnpackPack(Padded(bits));
    BitsThenPad(Unpack(head), bits, Unpack(tail));
  }

  lemma BitsThenPad(x: seq<bit>, bits: seq<bit>, z: seq<bit>)
    ensures HasAt(x + Padded(bits) + z, |x|, bits)
  {
    assert (x + Padded(bits) + z)[|x|..|x| + |bits|] == bits;
  }

  lemma ReadsHeaderInFrame(k: FrameChoice, h: Header, info: Option<StreamInfo>, planes: seq<seq<int32>>, s: seq<byte>)
    requires LegalFrame(k, h, info, planes) && EncodeHeader(k.header, h, info) <= s
    ensures ReadHeader(s, info) == Got(h, |EncodeHeader(k.header, h, info)|)
  {
    hide EncodeHeader, ReadHeader, Describes, AllEncodable;
    ReadsHeader(k.header, h, info);
    ReadHeaderAgrees(EncodeHeader(k.header, h, info), s, info);
  }

  lemma ChecksumBack(s: seq<byte>, f: Frame)
    ensures CheckFrame(s + ToBytes(Crc16(s), 2), |s|, f) == Got(f, |s| + 2)
  {
    hide Crc16, BigEndian, ToBytes;
    var l := s + ToBytes(Crc16(s), 2);
    assert l[..|s|] == s && l[|s|..|s| + 2] == ToBytes(Crc16(s), 2);
    BytesBack(Crc16(s), 2);
  }

  lemma CorrelatedBack(h: Header, planes: seq<seq<int32>>)
    requires h.chCode <= 10 && |planes| == h.Channels() && (forall p :: p in planes ==> |p| == h.blocksize)
    requires h.chCode == 10 ==>
               forall i :: 0 <= i < h.blocksize ==> -0x8000_0000 <= planes[0][i] - planes[1][i] < 0x8000_0000
    ensures Decorrelate(h.chCode, Correlate(h.chCode, planes)) == planes
  {
    if h.chCode >= 8 {
      assert planes[0] in planes && planes[1] in planes;
      hide Decorrelate, Correlate;
      DecorrelateCorrelated(h.chCode, planes);
    }
  }

  lemma FrameIs(k: FrameChoice, h: Header, info: Option<StreamInfo>, planes: seq<seq<int32>>)
    requires LegalFrame(k, h, info, planes)
    ensures Describes(k.header, h, info) && h.blocksize <= MAX_BLOCK && h.chCode <= 10 && |planes| == h.Channels()
    ensures h.chCode > 7 ==> |planes| == 2
    ensures AllEncodable(k.subframes, h, Correlate(h.chCode, planes))
    ensures |k.subframes| == |Correlate(h.chCode, planes)| == h.Channels()
    ensures var head := EncodeHeader(k.header, h, info);
            var bits := EncodeSubframes(k.subframes, h, Correlate(h.chCode, planes), 0);
            var fields := FrameFields(k, h, info, planes);
            && fields == head + Pack(Padded(bits)) && |fields| == (8 * |head| + |bits| + 7) / 8
            && EncodeFrame(k, h, info, planes) == fields + ToBytes(Crc16(fields), 2)
    ensures Decorrelate(h.chCode, Correlate(h.chCode, planes)) == planes
  {
    hide EncodeHeader, EncodeSubframes, Pack, Padded, Encodable, Correlate, Decorrelate, ToBytes, Crc16, NumberFits;
    CorrelatedBack(h, planes);
  }

  lemma FrameOfParts(s: seq<byte>, info: Option<StreamInfo>, cap: nat, h: Header, p: nat, planes: seq<seq<int32>>,
                     q: nat, f: Frame)
    requires ReadHeader(s, info) == Got(h, p) && h.blocksize <= cap && h.blocksize <= MAX_BLOCK && h.chCode <= 10
    requires ReadSubframes(Unpack(s), 8 * p, h, 0) == Got(planes, q) && |planes| == h.Channels()
    requires FrameOf(h, info, Decorrelate(h.chCode, planes)) == f
    ensures ReadFrame(s, info, cap) == CheckFrame(s, (q + 7) / 8, f)
  {
    hide Unpack, ReadHeader, ReadSubframes, CheckFrame, Decorrelate;
  }

  /** A frame up to its checksum, with any two bytes there. */
  lemma ReadsFields(k: FrameChoice, h: Header, info: Option<StreamInfo>, planes: seq<seq<int32>>, cap: nat,
                    crc: seq<byte>)
    requires LegalFrame(k, h, info, planes) && h.blocksize <= cap
    ensures var fields := FrameFields(k, h, info, planes);
            ReadFrame(fields + crc, info, cap) == CheckFrame(fields + crc, |fields|, FrameOf(h, info, planes))
  {
    hide *;
    FrameIs(k, h, info, planes);
    var sent := Correlate(h.chCode, planes);
    var head, bits := EncodeHeader(k.header, h, info), EncodeSubframes(k.subframes, h, sent, 0);
    var s := FrameFields(k, h, info, planes) + crc;
    assert s == head + Pack(Padded(bits)) + crc;
    ReadsHeaderInFrame(k, h, info, planes, s);
    PackedBits(head, bits, crc);
    ReadsSubframes(Unpack(s), 8 * |head|, k.subframes, h, sent, 0);
    assert sent[0..] == sent;
    FrameOfParts(s, info, cap, h, |head|, sent, 8 * |head| + |bits|, FrameOf(h, info, planes));
  }

  lemma ReadsFrame(k: FrameChoice, h: Header, info: Option<StreamInfo>, planes: seq<seq<int32>>, cap: nat)
    requires LegalFrame(k, h, info, planes) && h.blocksize <= cap
    ensures ReadFrame(EncodeFrame(k, h, info, planes), info, cap)
         == Got(FrameOf(h, info, planes), |EncodeFrame(k, h, info, planes)|)
  {
    hide *;
    FrameIs(k, h, info, planes);
    var fields := FrameFields(k, h, info, planes);
    ReadsFields(k, h, info, planes, cap, ToBytes(Crc16(fields), 2));
    ChecksumBack(fields, FrameOf(h, info, planes));
  }

  lemma ChecksumFails(s: seq<byte>, crc: seq<byte>, f: Frame)
    requires |crc| == 2 && crc != ToBytes(Crc16(s), 2)
    ensures CheckFrame(s + crc, |s|, f) == Invalid
  {
    hide Crc16, BigEndian;
    var l := s + crc;
    assert l[..|s|] == s && l[|s|..|s| + 2] == crc == [crc[0], crc[1]];
    TwoBytes(crc[0], crc[1]);
    DivMod(crc[0], 256, crc[1]);
  }

  /** A frame with any other checksum is refused, whatever follows it. */
  lemma DamagedFramesAreRefused(k: FrameChoice, h: Header, info: Option<StreamInfo>, planes: seq<seq<int32>>, cap: nat,
                                crc: seq<byte>, rest: seq<byte>)
    requires LegalFrame(k, h, info, planes) && h.blocksize <= cap
    requires |crc| == 2 && crc != ToBytes(Crc16(FrameFields(k, h, info, planes)), 2)
    ensures ReadFrame(FrameFields(k, h, info, planes) + crc + rest, info, cap) == Invalid
  {
    hide *;
    var fields := FrameFields(k, h, info, planes);
    ReadsFields(k, h, info, planes, cap, crc);
    ChecksumFails(fields, crc, FrameOf(h, info, planes));
    FrameIsPrefixStable(fields + crc, rest, info, cap);
  }

  /**
   Lossless: whatever the encoder chose, the frame is read back with the samples that went in and ends where it was
   written to end, whatever follows it.
   */
  lemma FramesAreLossless(k: FrameChoice, h: Header, info: Option<StreamInfo>, planes: seq<seq<int32>>, cap: nat,
                          rest: seq<byte>)
    requires LegalFrame(k, h, info, planes) && h.blocksize <= cap
    ensures ReadFrame(EncodeFrame(k, h, info, planes) + rest, info, cap)
         == Got(Frame(FrameInfo(h.blocksize, SamplePos(h, info), |planes|, h.bps, h.rate), planes),
                |EncodeFrame(k, h, info, planes)|)
  {
    hide *;
    ReadsFrame(k, h, info, planes, cap);
    FrameIsPrefixStable(EncodeFrame(k, h, info, planes), rest, info, cap);
    FrameSays(k, h, info, planes);
  }

  lemma FrameSays(k: FrameChoice, h: Header, info: Option<StreamInfo>, planes: seq<seq<int32>>)
    requires LegalFrame(k, h, info, planes)
    ensures FrameOf(h, info, planes)
         == Frame(FrameInfo(h.blocksize, SamplePos(h, info), |planes|, h.bps, h.rate), planes)
  {
    hide Describes, AllEncodable, SamplePos, Correlate;
  }

  // ---- every block has an encoding ----------------------------------------------------------------------------

  const VERBATIM: Choice := Choice(Verbatim, 0)

  lemma FitOnesDown(vs: seq<int32>)
    ensures ShiftDown(vs, 0) == vs
  {
    SmallPowers();
  }

  lemma VerbatimEncodes(vs: seq<int32>, width: nat)
    requires vs != [] && 0 < width <= 25 && AllFit(vs, width)
    ensures Encodable(VERBATIM, vs, width)
  {
    hide AllFit;
    SmallPowers();
    FitOnesDown(vs);
  }

  lemma StereoFits(l: int32, r: int32, n: nat)
    requires 0 < n <= 24 && Fits(l, n) && Fits(r, n)
    ensures Fits(SideOf(l, r), n + 1) && Fits(MidOf(l, r), n)
  {
    assert Pow2(n) == 2 * Pow2(n - 1);
    WordRange(n);
  }

  lemma AllStereoFits(l: seq<int32>, r: seq<int32>, n: nat)
    requires 0 < n <= 24 && |l| == |r| && AllFit(l, n) && AllFit(r, n)
    ensures AllFit(Zip(SideOf, l, r), n + 1) && AllFit(Zip(MidOf, l, r), n)
  {
    hide Fits, SideOf, MidOf;
    forall i | 0 <= i < |l|
      ensures Fits(Zip(SideOf, l, r)[i], n + 1) && Fits(Zip(MidOf, l, r)[i], n)
    {
      StereoFits(l[i], r[i], n);
    }
  }

  lemma SentFits(h: Header, planes: seq<seq<int32>>, c: nat)
    requires h.chCode <= 10 && 0 < h.bps <= 24 && |planes| == h.Channels() && c < |planes|
    requires forall p :: p in planes ==> |p| == h.blocksize && AllFit(p, h.bps)
    ensures |Correlate(h.chCode, planes)[c]| == h.blocksize
    ensures AllFit(Correlate(h.chCode, planes)[c], WidthOf(h, c))
  {
    assert planes[c] in planes;
    if h.chCode > 7 {
      assert planes[0] in planes && planes[1] in planes;
      hide AllFit;
      AllStereoFits(planes[0], planes[1], h.bps);
    }
  }

  /** Every block of up to 24-bit samples can be sent under every channel code, so the law above is about all audio. */
  lemma EveryBlockHasAnEncoding(k: HeaderChoice, h: Header, info: Option<StreamInfo>, planes: seq<seq<int32>>)
    requires Describes(k, h, info) && 0 < h.blocksize <= MAX_BLOCK && 0 < h.bps <= 24 && |planes| == h.Channels()
    requires forall p :: p in planes ==> |p| == h.blocksize && AllFit(p, h.bps)
    ensures LegalFrame(FrameChoice(k, seq(h.Channels(), _ => VERBATIM)), h, info, planes)
  {
    var cs := seq(h.Channels(), _ => VERBATIM);
    forall c | 0 <= c < |cs|
      ensures |Correlate(h.chCode, planes)[c]| == h.blocksize
      ensures Encodable(cs[c], Correlate(h.chCode, planes)[c], WidthOf(h, c))
    {
      hide Describes, Correlate, Encodable, AllFit;
      assert h.chCode <= 10;
      SentFits(h, planes, c);
      VerbatimEncodes(Correlate(h.chCode, planes)[c], WidthOf(h, c));
    }
    if h.chCode == 10 {
      assert planes[0] in planes && planes[1] in planes;
      DifferencesFit(planes[0], planes[1], h.bps);
    }
  }

  lemma DifferencesFit(l: seq<int32>, r: seq<int32>, n: nat)
    requires 0 < n <= 24 && |l| == |r| && AllFit(l, n) && AllFit(r, n)
    ensures forall i :: 0 <= i < |l| ==> -0x8000_0000 <= l[i] - r[i] < 0x8000_0000
  {
    Pow2Mono(n - 1, 23);
    SmallPowers();
    assert Pow2(23) <= 0x80_0000 by { Pow2Sum(8, 8); Pow2Sum(16, 7); }
    forall i | 0 <= i < |l|
      ensures -0x8000_0000 <= l[i] - r[i] < 0x8000_0000
    {
      assert Fits(l[i], n) && Fits(r[i], n);
    }
  }
}
