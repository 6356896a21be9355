/**
 What a FLAC stream says: stream header, frame header, subframes and residual as one-way parsers over bytes and
 bits (source/audio/flac_dec.c, RFC 9639 section 9).  A parser stops at the first thing it cannot read: `Short`
 when the bytes end too early to tell, `Invalid` when they cannot be part of a stream.
 */
module FlacFormat {
  import opened Basics
  import opened FlacBits
  import opened FlacCrc

  const MAX_CHANNELS := 8
  const MAX_BLOCK := 65535

  /** The residual quotient's largest value. */
  const MAX_QUOTIENT := 0xFFFFFF

  // ---- the residual ---------------------------------------------------------------------------

  /** How a run of numbers is coded: Rice with k low bits, or plainly in so many bits (zero bits: zeros). */
  datatype Coding = Rice(k: nat) | Plain(bits: nat)

  function Unzigzag(u: nat): int {
    if u % 2 == 0 then u / 2 else -(u / 2) - 1
  }

  function ReadQuotient(bits: seq<bit>, pos: nat): Parse<nat> {
    var z := ZeroRun(bits, pos);
    if z > MAX_QUOTIENT then Invalid
    else if pos + z >= |bits| then Short
    else Got(z, pos + z + 1)
  }

  function ReadRice(bits: seq<bit>, pos: nat, k: nat): Parse<int32> {
    match ReadQuotient(bits, pos)
    case Invalid => Invalid
    case Short => Short
    case Got(q, p) =>
      match ReadNat(bits, p, k)
      case Got(low, e) => Got(Unzigzag((q * Pow2(k) + low) % 0x1_0000_0000), e)
      case _ => Short
  }

  function ReadOne(bits: seq<bit>, pos: nat, c: Coding): (r: Parse<int32>)
    requires c.Plain? ==> c.bits <= 32
  {
    match c
    case Rice(k) => ReadRice(bits, pos, k)
    case Plain(n) =>
      if n == 0 then Got(0, pos)
      else
        match ReadInt(bits, pos, n)
        case Got(v, e) => WordRange(n); Got(v, e)
        case _ => Short
  }

  lemma WordRange(n: nat)
    requires 0 < n <= 32
    ensures Pow2(n - 1) <= 0x8000_0000
  {
    Pow2Mono(n - 1, 31);
    FiveBytes();
  }

  function ReadMany(bits: seq<bit>, pos: nat, c: Coding, n: nat): (r: Parse<seq<int32>>)
    requires c.Plain? ==> c.bits <= 32
    ensures r.Got? ==> |r.val| == n
    decreases n
  {
    if n == 0 then Got([], pos)
    else
      match ReadOne(bits, pos, c)
      case Invalid => Invalid
      case Short => Short
      case Got(v, p) => Cons(v, ReadMany(bits, p, c, n - 1))
  }

  function Cons<T>(v: T, r: Parse<seq<T>>): Parse<seq<T>> {
    match r
    case Got(vs, e) => Got([v] + vs, e)
    case other => other
  }

  function Prepend<T>(vs: seq<T>, r: Parse<seq<T>>): Parse<seq<T>> {
    match r
    case Got(ws, e) => Got(vs + ws, e)
    case other => other
  }

  /** A partition: its parameter (4 bits with the first coding method, 5 with the second), then n numbers. */
  function ReadPartition(bits: seq<bit>, pos: nat, coding: nat, n: nat): (r: Parse<seq<int32>>)
    ensures r.Got? ==> |r.val| == n
  {
    match ReadNat(bits, pos, ParamBits(coding))
    case Got(k, p) =>
      if k == EscapeParam(coding) then
        match ReadNat(bits, p, 5)
        case Got(w, e) =>
          SmallPowers();
          ReadMany(bits, e, Plain(w), n)
        case _ => Short
      else
        ReadMany(bits, p, Rice(k), n)
    case _ => Short
  }

  function ParamBits(coding: nat): nat { if coding == 0 then 4 else 5 }

  function EscapeParam(coding: nat): nat { if coding == 0 then 15 else 31 }

  /** `count` partitions of `size` samples each; the first `skip` samples of the first are not coded. */
  function ReadPartitions(bits: seq<bit>, pos: nat, coding: nat, size: nat, skip: nat, count: nat)
    : (r: Parse<seq<int32>>)
    requires skip <= size
    decreases count
  {
    if count == 0 then Got([], pos)
    else
      match ReadPartition(bits, pos, coding, size - skip)
      case Invalid => Invalid
      case Short => Short
      case Got(vs, p) => Prepend(vs, ReadPartitions(bits, p, coding, size, 0, count - 1))
  }

  function ReadResidual(bits: seq<bit>, pos: nat, blocksize: nat, order: nat): Parse<seq<int32>>
    requires order <= blocksize
  {
    match ReadNat(bits, pos, 2)
    case Got(m, p1) =>
      if m > 1 then Invalid
      else
        (match ReadNat(bits, p1, 4)
         case Got(porder, p2) =>
           if blocksize % Pow2(porder) != 0 || blocksize / Pow2(porder) < order then Invalid
           else ReadPartitions(bits, p2, m, blocksize / Pow2(porder), order, Pow2(porder))
         case _ => Short)
    case _ => Short
  }

  // ---- prediction -------------------------------------------------------------------------------

  datatype Predictor = Fixed(order: nat) | Linear(coefs: seq<int>, shift: nat) {
    function Order(): nat { if Fixed? then order else |coefs| }
  }

  /** The weighted sum of the last n samples, the latest by the first coefficient. */
  function Dot(coefs: seq<int>, hist: seq<int32>, n: nat): int
    requires n <= |coefs| && n <= |hist|
  {
    if n == 0 then 0 else Dot(coefs, hist, n - 1) + coefs[n - 1] * hist[|hist| - n]
  }

  function Predict(p: Predictor, hist: seq<int32>): int
    requires p.Order() <= |hist|
    requires p.Fixed? ==> p.order <= 4
  {
    var n := |hist|;
    match p
    case Fixed(0) => 0
    case Fixed(1) => hist[n - 1]
    case Fixed(2) => 2 * hist[n - 1] - hist[n - 2]
    case Fixed(3) => 3 * hist[n - 1] - 3 * hist[n - 2] + hist[n - 3]
    case Fixed(_) => 4 * hist[n - 1] - 6 * hist[n - 2] + 4 * hist[n - 3] - hist[n - 4]
    case Linear(coefs, shift) => Dot(coefs, hist, |coefs|) / Pow2(shift)
  }

  /** The samples that a warm-up followed by residuals stands for. */
  function Restore(p: Predictor, hist: seq<int32>, residuals: seq<int32>): (s: seq<int32>)
    requires p.Order() <= |hist|
    requires p.Fixed? ==> p.order <= 4
    ensures |s| == |hist| + |residuals|
    decreases |residuals|
  {
    if residuals == [] then hist
    else Restore(p, hist + [ToInt32(Predict(p, hist) + residuals[0])], residuals[1..])
  }

  // ---- subframes --------------------------------------------------------------------------------

  /** One more than the zeros before the next one bit. */
  function ReadWasted(bits: seq<bit>, pos: nat): Parse<nat> {
    var z := ZeroRun(bits, pos);
    if z >= RunawayAt(pos) || pos + z >= |bits| then Short else Got(z + 1, pos + z + 1)
  }

  function ReadPredicted(bits: seq<bit>, pos: nat, p: Predictor, warm: seq<int32>, blocksize: nat)
    : (r: Parse<seq<int32>>)
    requires p.Order() == |warm| <= blocksize
    requires p.Fixed? ==> p.order <= 4
  {
    match ReadResidual(bits, pos, blocksize, |warm|)
    case Got(res, e) => Got(Restore(p, warm, res), e)
    case other => other
  }

  function ReadFixed(bits: seq<bit>, pos: nat, order: nat, width: nat, blocksize: nat): Parse<seq<int32>>
    requires order <= 7 && 0 < width <= 25
  {
    if order > 4 || order > blocksize then Invalid
    else
      match ReadMany(bits, pos, Plain(width), order)
      case Got(warm, p) => ReadPredicted(bits, p, Fixed(order), warm, blocksize)
      case other => other
  }

  function ReadLinear(bits: seq<bit>, pos: nat, order: nat, width: nat, blocksize: nat): Parse<seq<int32>>
    requires 0 < order <= 32 && 0 < width <= 25
  {
    if order > blocksize then Invalid
    else
      match ReadMany(bits, pos, Plain(width), order)
      case Got(warm, p1) =>
        (match ReadNat(bits, p1, 4)
         case Got(prec1, p2) =>
           if prec1 + 1 == 16 then Invalid
           else
             (match ReadInt(bits, p2, 5)
              case Got(shift, p3) =>
                SmallPowers();
                if shift < 0 then Invalid
                else
                  (match ReadMany(bits, p3, Plain(prec1 + 1), order)
                   case Got(coefs, p4) => ReadPredicted(bits, p4, Linear(coefs, shift), warm, blocksize)
                   case other => other)
              case _ => Short)
         case _ => Short)
      case other => other
  }

  function ReadBody(bits: seq<bit>, pos: nat, kind: nat, width: nat, blocksize: nat): Parse<seq<int32>>
    requires kind < 64 && 0 < width <= 25
  {
    if kind == 0 then
      match ReadOne(bits, pos, Plain(width))
      case Got(v, e) => Got(seq(blocksize, _ => v), e)
      case Invalid => Invalid
      case Short => Short
    else if kind == 1 then ReadMany(bits, pos, Plain(width), blocksize)
    else if 8 <= kind <= 15 then ReadFixed(bits, pos, kind % 8, width, blocksize)
    else if kind >= 32 then ReadLinear(bits, pos, kind % 32 + 1, width, blocksize)
    else Invalid
  }

  function ShiftUp(s: seq<int32>, wasted: nat): (r: seq<int32>)
    ensures |r| == |s|
  {
    seq(|s|, i requires 0 <= i < |s| => ToInt32(s[i] * Pow2(wasted)))
  }

  function ReadSubframe(bits: seq<bit>, pos: nat, blocksize: nat, bps: nat): Parse<seq<int32>> {
    match ReadNat(bits, pos, 1)
    case Got(pad, p1) =>
      if pad != 0 then Invalid
      else
        (match ReadNat(bits, p1, 6)
         case Got(kind, p2) =>
           (match ReadNat(bits, p2, 1)
            case Got(flag, p3) =>
              SmallPowers();
              if flag == 0 then ReadWithWasted(bits, p3, kind, 0, blocksize, bps)
              else
                (match ReadWasted(bits, p3)
                 case Got(wasted, p4) => ReadWithWasted(bits, p4, kind, wasted, blocksize, bps)
                 case _ => Short)
            case _ => Short)
         case _ => Short)
    case _ => Short
  }

  function ReadWithWasted(bits: seq<bit>, pos: nat, kind: nat, wasted: nat, blocksize: nat, bps: nat): Parse<seq<int32>>
    requires kind < 64
  {
    if bps - wasted <= 0 || bps - wasted > 25 then Invalid
    else
      match ReadBody(bits, pos, kind, bps - wasted, blocksize)
      case Got(s, e) => Got(ShiftUp(s, wasted), e)
      case other => other
  }

  // ---- the stream header --------------------------------------------------------------------------

  datatype StreamInfo = StreamInfo(
    minBlock: nat, maxBlock: nat, sampleRate: nat, channels: nat, bps: nat, totalSamples: nat)

  const MAGIC: seq<byte> := [0x66, 0x4C, 0x61, 0x43]   // "fLaC"

  /** Bytes as one number, most significant first. */
  function BigEndian(s: seq<byte>): nat {
    if s == [] then 0 else BigEndian(s[..|s| - 1]) * 256 + s[|s| - 1]
  }

  /** The fields of a STREAMINFO block's contents: 16, 16, 24, 24, 20, 3, 5 and 36 bits. */
  function InfoOf(s: seq<byte>): StreamInfo
    requires |s| >= 34
  {
    var b12: int, b13: int := s[12], s[13];
    StreamInfo(
      BigEndian(s[0..2]),
      BigEndian(s[2..4]),
      BigEndian(s[10..12]) * 16 + b12 / 16,
      b12 / 2 % 8 + 1,
      b12 % 2 * 16 + b13 / 16 + 1,
      b13 % 16 * 0x1_0000_0000 + BigEndian(s[14..18]))
  }

  function ReadBlocks(buf: seq<byte>, pos: nat, info: Option<StreamInfo>): (r: Parse<StreamInfo>)
    ensures r.Got? ==> pos < r.pos <= |buf|
    decreases |buf| - pos
  {
    if pos + 4 > |buf| then Short
    else
      var blen := BigEndian(buf[pos + 1..pos + 4]);
      var next := pos + 4 + blen;
      if next > |buf| then Short
      else
        var info' := if buf[pos] % 128 == 0 && blen >= 34 && info.None? then Some(InfoOf(buf[pos + 4..next])) else info;
        if buf[pos] >= 128 then (if info'.Some? then Got(info'.value, next) else Invalid)
        else ReadBlocks(buf, next, info')
  }

  /** The stream header: the magic, then metadata blocks up to the last one, a STREAMINFO among them. */
  function ReadStreamHeader(buf: seq<byte>): (r: Parse<StreamInfo>)
    ensures r.Got? ==> 4 < r.pos <= |buf|
  {
    if |buf| < 4 then (if buf <= MAGIC then Short else Invalid)
    else if buf[..4] != MAGIC then Invalid
    else ReadBlocks(buf, 4, None)
  }

  // ---- the frame header ---------------------------------------------------------------------------

  datatype Header = Header(variable: bool, number: nat, blocksize: nat, rate: nat, chCode: nat, bps: nat) {
    function Channels(): nat { if chCode <= 7 then chCode + 1 else 2 }

    /** Whether channel c holds a difference, which takes one more bit. */
    predicate IsSide(c: nat) {
      (chCode == 8 && c == 1) || (chCode == 9 && c == 0) || (chCode == 10 && c == 1)
    }
  }

  /** How many bytes follow the lead byte of a coded number; 7 is not one. */
  function ExtraBytes(lead: byte): (n: nat)
    ensures n <= 7
  {
    if lead < 0x80 then 0 else if lead < 0xC0 then 7 else if lead < 0xE0 then 1 else if lead < 0xF0 then 2
    else if lead < 0xF8 then 3 else if lead < 0xFC then 4 else if lead < 0xFE then 5 else if lead == 0xFE then 6 else 7
  }

  predicate IsContinuation(b: byte) { b / 64 == 2 }

  /** The digits, six bits each, that follow the lead byte. */
  function Digits(buf: seq<byte>, high: nat): nat
    decreases |buf|
  {
    if buf == [] then high else Digits(buf[1..], high * 64 + buf[0] % 64)
  }

  /** What a lead byte holds of the number itself. */
  function LeadDigits(lead: byte, extra: nat): nat {
    if extra == 0 then lead else lead % Pow2(if extra <= 6 then 6 - extra else 0)
  }

  function ReadNumber(buf: seq<byte>, pos: nat): (r: Parse<nat>)
    ensures r.Got? ==> r.pos <= |buf|
  {
    if |buf| <= pos then Short
    else
      var extra := ExtraBytes(buf[pos]);
      if extra == 7 then Invalid
      else if pos + 1 + extra > |buf| then Short
      else
        var rest := buf[pos + 1..pos + 1 + extra];
        if exists i :: 0 <= i < |rest| && !IsContinuation(rest[i]) then Invalid
        else Got(Digits(rest, LeadDigits(buf[pos], extra)), pos + 1 + extra)
  }

  /** n bytes, most significant first. */
  function ReadBytes(buf: seq<byte>, pos: nat, n: nat): (r: Parse<nat>)
    requires n <= 2
    ensures r.Got? ==> r.pos == pos + n <= |buf|
    ensures !r.Invalid?
  {
    if pos + n > |buf| then Short else Got(BigEndian(buf[pos..pos + n]), pos + n)
  }

  /** Bytes a block size code has at the header's end. */
  function BlockBytes(code: nat): (n: nat) ensures n <= 2 { if code == 6 then 1 else if code == 7 then 2 else 0 }

  function BlockSize(code: nat, v: nat): nat
    requires 1 <= code <= 15
  {
    if code == 1 then 192
    else if code <= 5 then 576 * Pow2(code - 2)
    else if code <= 7 then v + 1
    else 256 * Pow2(code - 8)
  }

  function RateBytes(code: nat): (n: nat)
    ensures n <= 2
  {
    if code == 12 then 1 else if code == 13 || code == 14 then 2 else 0
  }

  const RATES: seq<nat> := [0, 88200, 176400, 192000, 8000, 16000, 22050, 24000, 32000, 44100, 48000, 96000]

  function SampleRate(code: nat, v: nat, info: Option<StreamInfo>): Option<nat>
    requires code <= 15
  {
    if code == 0 then (if info.None? || info.value.sampleRate == 0 then None else Some(info.value.sampleRate))
    else if code <= 11 then Some(RATES[code])
    else if code == 12 then Some(v * 1000)
    else if code == 13 then Some(v)
    else if code == 14 then Some(v * 10)
    else None
  }

  function SampleBits(code: nat, info: Option<StreamInfo>): Option<nat> {
    if code == 0 then (if info.None? || info.value.bps == 0 then None else Some(info.value.bps))
    else if code == 1 then Some(8)
    else if code == 2 then Some(12)
    else if code == 4 then Some(16)
    else if code == 5 then Some(20)
    else if code == 6 then Some(24)
    else None
  }

  /** The two bytes every frame starts with: fourteen bits of sync, a zero, and how the stream is blocked. */
  predicate IsSync(b0: byte, b1: byte) { b0 == 0xFF && b1 / 2 == 0x7C }

  function ReadHeader(buf: seq<byte>, info: Option<StreamInfo>): (r: Parse<Header>)
    ensures r.Got? ==> r.pos <= |buf| && r.val.chCode <= 10
  {
    if |buf| < 1 then Short
    else if buf[0] != 0xFF then Invalid
    else if |buf| < 2 then Short
    else if buf[1] / 2 != 0x7C then Invalid
    else if |buf| < 4 then Short
    else if buf[3] % 2 == 1 then Invalid
    else
      match ReadNumber(buf, 4)
      case Invalid => Invalid
      case Short => Short
      case Got(number, p1) => ReadHeaderCodes(buf, p1, number, info)
  }

  function ReadHeaderCodes(buf: seq<byte>, pos: nat, number: nat, info: Option<StreamInfo>): (r: Parse<Header>)
    requires |buf| >= 4
    ensures r.Got? ==> r.pos <= |buf| && r.val.chCode <= 10
  {
    var bsCode, srCode, chCode, ssCode := buf[2] / 16, buf[2] % 16, buf[3] / 16, buf[3] / 2 % 8;
    if bsCode == 0 then Invalid
    else
      match ReadBytes(buf, pos, BlockBytes(bsCode))
      case Got(bv, p2) =>
        (match ReadBytes(buf, p2, RateBytes(srCode))
         case Got(sv, p3) =>
           var rate, bps := SampleRate(srCode, sv, info), SampleBits(ssCode, info);
           if rate.None? || bps.None? || chCode > 10 then Invalid
           else if p3 + 1 > |buf| then Short
           else if Crc8(buf[..p3]) != buf[p3] then Invalid
           else Got(Header(buf[1] % 2 == 1, number, BlockSize(bsCode, bv), rate.value, chCode, bps.value), p3 + 1)
         case _ => Short)
      case _ => Short
  }

  // ---- frames -------------------------------------------------------------------------------------

  datatype FrameInfo = FrameInfo(blocksize: nat, samplePos: nat, channels: nat, bps: nat, rate: nat)

  datatype Frame = Frame(info: FrameInfo, planes: seq<seq<int32>>)

  function ReadSubframes(bits: seq<bit>, pos: nat, h: Header, c: nat): (r: Parse<seq<seq<int32>>>)
    requires c <= h.Channels()
    ensures r.Got? ==> |r.val| == h.Channels() - c
    decreases h.Channels() - c
  {
    if c == h.Channels() then Got([], pos)
    else
      match ReadSubframe(bits, pos, h.blocksize, h.bps + if h.IsSide(c) then 1 else 0)
      case Invalid => Invalid
      case Short => Short
      case Got(s, p) => Cons(s, ReadSubframes(bits, p, h, c + 1))
  }

  function MidLeft(mid: int32, side: int32): int32 { ToInt32((2 * mid + side % 2 + side) / 2) }

  function MidRight(mid: int32, side: int32): int32 { ToInt32((2 * mid + side % 2 - side) / 2) }

  function LeftOf(side: int32, right: int32): int32 { ToInt32(side + right) }

  function RightOf(left: int32, side: int32): int32 { ToInt32(left - side) }

  function Zip(f: (int32, int32) -> int32, a: seq<int32>, b: seq<int32>): (r: seq<int32>)
    ensures |r| == |a|
  {
    seq(|a|, i requires 0 <= i < |a| => if i < |b| then f(a[i], b[i]) else 0)
  }

  /** Left and right from what the channel code says was sent instead. */
  function Decorrelate(chCode: nat, p: seq<seq<int32>>): (r: seq<seq<int32>>)
    requires chCode > 7 ==> |p| == 2
    ensures |r| == |p|
  {
    if chCode == 8 then [p[0], Zip(RightOf, p[0], p[1])]
    else if chCode == 9 then [Zip(LeftOf, p[0], p[1]), p[1]]
    else if chCode == 10 then [Zip(MidLeft, p[0], p[1]), Zip(MidRight, p[0], p[1])]
    else p
  }

  /** A fixed-block stream numbers its frames; a variable one numbers its first samples. */
  function SamplePos(h: Header, info: Option<StreamInfo>): nat {
    if h.variable then h.number
    else h.number * (if info.Some? && info.value.maxBlock > 0 then info.value.maxBlock else h.blocksize)
  }

  function FrameOf(h: Header, info: Option<StreamInfo>, planes: seq<seq<int32>>): Frame {
    Frame(FrameInfo(h.blocksize, SamplePos(h, info), h.Channels(), h.bps, h.rate), planes)
  }

  /** The frame at the start of `buf`, whose blocks may hold up to `cap` samples; `pos` is in bytes. */
  function ReadFrame(buf: seq<byte>, info: Option<StreamInfo>, cap: nat): (r: Parse<Frame>)
    ensures r.Got? ==> r.pos <= |buf|
  {
    match ReadHeader(buf, info)
    case Invalid => Invalid
    case Short => Short
    case Got(h, p) =>
      if h.blocksize > cap || h.blocksize > MAX_BLOCK then Invalid
      else
        match ReadSubframes(Unpack(buf), 8 * p, h, 0)
        case Invalid => Invalid
        case Short => Short
        case Got(planes, q) => CheckFrame(buf, (q + 7) / 8, FrameOf(h, info, Decorrelate(h.chCode, planes)))
  }

  /** A frame that ends at `end` holds if its checksum follows. */
  function CheckFrame(buf: seq<byte>, end: nat, f: Frame): (r: Parse<Frame>)
    ensures r.Got? ==> r.pos <= |buf|
  {
    if end + 2 > |buf| then Short
    else if Crc16(buf[..end]) != BigEndian(buf[end..end + 2]) then Invalid
    else Got(f, end + 2)
  }
}
