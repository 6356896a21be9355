/**
 A verdict on a buffer is a verdict on every buffer that starts with it: more bytes behind a frame, or behind bytes
 that cannot be one, change nothing.  (source/audio/flac_dec.h: "the decoder reports (0) instead of guessing".)
 */
module FlacStable {
  import opened Basics
  import opened FlacBits
  import opened FlacCrc
  import opened FlacFormat

  /** `b` was read with more bytes at hand than `a`. */
  ghost predicate Agrees<T>(a: Parse<T>, b: Parse<T>) {
    a.Short? || a == b
  }

  lemma {:induction false} ZeroRunExtends(x: seq<bit>, y: seq<bit>, pos: nat)
    requires x <= y
    ensures pos + ZeroRun(x, pos) < |x| ==> ZeroRun(y, pos) == ZeroRun(x, pos)
    ensures ZeroRun(x, pos) <= ZeroRun(y, pos)
    decreases |x| - pos
  {
    if pos < |x| && x[pos] == 0 {
      ZeroRunExtends(x, y, pos + 1);
    }
  }

  lemma ReadNatAgrees(x: seq<bit>, y: seq<bit>, pos: nat, n: nat)
    requires x <= y
    ensures Agrees(ReadNat(x, pos, n), ReadNat(y, pos, n))
  {
    if pos + n <= |x| {
      assert x[pos..pos + n] == y[pos..pos + n];
    }
  }

  lemma ReadOneAgrees(x: seq<bit>, y: seq<bit>, pos: nat, c: Coding)
    requires x <= y && (c.Plain? ==> c.bits <= 32)
    ensures Agrees(ReadOne(x, pos, c), ReadOne(y, pos, c))
  {
    hide ReadNat, ZeroRun, Unzigzag;
    match c
    case Plain(n) =>
      ReadNatAgrees(x, y, pos, n);
    case Rice(k) =>
      ZeroRunExtends(x, y, pos);
      var q := ReadQuotient(x, pos);
      if q.Got? {
        ReadNatAgrees(x, y, q.pos, k);
      }
  }

  lemma {:induction false} ReadManyAgrees(x: seq<bit>, y: seq<bit>, pos: nat, c: Coding, n: nat)
    requires x <= y && (c.Plain? ==> c.bits <= 32)
    ensures Agrees(ReadMany(x, pos, c, n), ReadMany(y, pos, c, n))
    decreases n
  {
    hide ReadOne;
    if n > 0 {
      ReadOneAgrees(x, y, pos, c);
      var r := ReadOne(x, pos, c);
      if r.Got? {
        ReadManyAgrees(x, y, r.pos, c, n - 1);
      }
    }
  }

  lemma ReadPartitionAgrees(x: seq<bit>, y: seq<bit>, pos: nat, coding: nat, n: nat)
    requires x <= y
    ensures Agrees(ReadPartition(x, pos, coding, n), ReadPartition(y, pos, coding, n))
  {
    SmallPowers();
    hide ReadMany, ReadNat;
    var w := ParamBits(coding);
    ReadNatAgrees(x, y, pos, w);
    var k := ReadNat(x, pos, w);
    if k.Got? {
      ReadNatAgrees(x, y, k.pos, 5);
      var e := ReadNat(x, k.pos, 5);
      if k.val != EscapeParam(coding) {
        ReadManyAgrees(x, y, k.pos, Rice(k.val), n);
      } else if e.Got? {
        ReadManyAgrees(x, y, e.pos, Plain(e.val), n);
      }
    }
  }

  lemma {:induction false} ReadPartitionsAgrees(x: seq<bit>, y: seq<bit>, pos: nat, coding: nat, size: nat, skip: nat,
                                                count: nat)
    requires x <= y && skip <= size
    ensures Agrees(ReadPartitions(x, pos, coding, size, skip, count), ReadPartitions(y, pos, coding, size, skip, count))
    decreases count
  {
    hide ReadPartition;
    if count > 0 {
      ReadPartitionAgrees(x, y, pos, coding, size - skip);
      var r := ReadPartition(x, pos, coding, size - skip);
      if r.Got? {
        ReadPartitionsAgrees(x, y, r.pos, coding, size, 0, count - 1);
      }
    }
  }

  lemma ReadResidualAgrees(x: seq<bit>, y: seq<bit>, pos: nat, blocksize: nat, order: nat)
    requires x <= y && order <= blocksize
    ensures Agrees(ReadResidual(x, pos, blocksize, order), ReadResidual(y, pos, blocksize, order))
  {
    hide ReadPartitions, ReadNat;
    ReadNatAgrees(x, y, pos, 2);
    var m := ReadNat(x, pos, 2);
    if m.Got? {
      ReadNatAgrees(x, y, m.pos, 4);
      var p := ReadNat(x, m.pos, 4);
      if p.Got? && blocksize / Pow2(p.val) >= order {
        ReadPartitionsAgrees(x, y, p.pos, m.val, blocksize / Pow2(p.val), order, Pow2(p.val));
      }
    }
  }

  lemma ReadPredictedAgrees(x: seq<bit>, y: seq<bit>, pos: nat, p: Predictor, warm: seq<int32>, blocksize: nat)
    requires x <= y && p.Order() == |warm| <= blocksize && (p.Fixed? ==> p.order <= 4)
    ensures Agrees(ReadPredicted(x, pos, p, warm, blocksize), ReadPredicted(y, pos, p, warm, blocksize))
  {
    hide ReadResidual, Restore;
    ReadResidualAgrees(x, y, pos, blocksize, |warm|);
  }

  lemma ReadFixedAgrees(x: seq<bit>, y: seq<bit>, pos: nat, order: nat, width: nat, blocksize: nat)
    requires x <= y && order <= 7 && 0 < width <= 25
    ensures Agrees(ReadFixed(x, pos, order, width, blocksize), ReadFixed(y, pos, order, width, blocksize))
  {
    hide ReadMany, ReadPredicted;
    if order <= 4 && order <= blocksize {
      ReadManyAgrees(x, y, pos, Plain(width), order);
      var w := ReadMany(x, pos, Plain(width), order);
      if w.Got? {
        ReadPredictedAgrees(x, y, w.pos, Fixed(order), w.val, blocksize);
      }
    }
  }

  lemma ReadLinearAgrees(x: seq<bit>, y: seq<bit>, pos: nat, order: nat, width: nat, blocksize: nat)
    requires x <= y && 0 < order <= 32 && 0 < width <= 25
    ensures Agrees(ReadLinear(x, pos, order, width, blocksize), ReadLinear(y, pos, order, width, blocksize))
  {
    SmallPowers();
    hide ReadMany, ReadPredicted, ReadNat;
    if order <= blocksize {
      ReadManyAgrees(x, y, pos, Plain(width), order);
      var w := ReadMany(x, pos, Plain(width), order);
      if w.Got? {
        ReadNatAgrees(x, y, w.pos, 4);
        var prec := ReadNat(x, w.pos, 4);
        if prec.Got? && prec.val + 1 != 16 {
          ReadNatAgrees(x, y, prec.pos, 5);
          var shift := ReadInt(x, prec.pos, 5);
          if shift.Got? && shift.val >= 0 {
            ReadManyAgrees(x, y, shift.pos, Plain(prec.val + 1), order);
            var c := ReadMany(x, shift.pos, Plain(prec.val + 1), order);
            if c.Got? {
              ReadPredictedAgrees(x, y, c.pos, Linear(c.val, shift.val), w.val, blocksize);
            }
          }
        }
      }
    }
  }

  lemma ReadBodyAgrees(x: seq<bit>, y: seq<bit>, pos: nat, kind: nat, width: nat, blocksize: nat)
    requires x <= y && kind < 64 && 0 < width <= 25
    ensures Agrees(ReadBody(x, pos, kind, width, blocksize), ReadBody(y, pos, kind, width, blocksize))
  {
    hide ReadMany, ReadFixed, ReadLinear, ReadOne;
    ReadOneAgrees(x, y, pos, Plain(width));
    ReadManyAgrees(x, y, pos, Plain(width), blocksize);
    if 8 <= kind <= 15 {
      ReadFixedAgrees(x, y, pos, kind % 8, width, blocksize);
    } else if kind >= 32 {
      ReadLinearAgrees(x, y, pos, kind % 32 + 1, width, blocksize);
    }
  }

  lemma ReadWithWastedAgrees(x: seq<bit>, y: seq<bit>, pos: nat, kind: nat, wasted: nat, blocksize: nat, bps: nat)
    requires x <= y && kind < 64
    ensures Agrees(ReadWithWasted(x, pos, kind, wasted, blocksize, bps),
                   ReadWithWasted(y, pos, kind, wasted, blocksize, bps))
  {
    hide ReadBody;
    if 0 < bps - wasted <= 25 {
      ReadBodyAgrees(x, y, pos, kind, bps - wasted, blocksize);
    }
  }

  lemma ReadSubframeAgrees(x: seq<bit>, y: seq<bit>, pos: nat, blocksize: nat, bps: nat)
    requires x <= y
    ensures Agrees(ReadSubframe(x, pos, blocksize, bps), ReadSubframe(y, pos, blocksize, bps))
  {
    SmallPowers();
    hide ReadWithWasted, ReadNat, ZeroRun, RunawayAt;
    ReadNatAgrees(x, y, pos, 1);
    var pad := ReadNat(x, pos, 1);
    if pad.Got? && pad.val == 0 {
      ReadNatAgrees(x, y, pad.pos, 6);
      var kind := ReadNat(x, pad.pos, 6);
      if kind.Got? {
        ReadNatAgrees(x, y, kind.pos, 1);
        var flag := ReadNat(x, kind.pos, 1);
        if flag.Got? {
          ZeroRunExtends(x, y, flag.pos);
          var w := ReadWasted(x, flag.pos);
          if flag.val == 0 {
            ReadWithWastedAgrees(x, y, flag.pos, kind.val, 0, blocksize, bps);
          } else if w.Got? {
            ReadWithWastedAgrees(x, y, w.pos, kind.val, w.val, blocksize, bps);
          }
        }
      }
    }
  }

  lemma {:induction false} ReadSubframesAgrees(x: seq<bit>, y: seq<bit>, pos: nat, h: Header, c: nat)
    requires x <= y && c <= h.Channels()
    ensures Agrees(ReadSubframes(x, pos, h, c), ReadSubframes(y, pos, h, c))
    decreases h.Channels() - c
  {
    hide ReadSubframe;
    if c < h.Channels() {
      var bps := h.bps + if h.IsSide(c) then 1 else 0;
      ReadSubframeAgrees(x, y, pos, h.blocksize, bps);
      var r := ReadSubframe(x, pos, h.blocksize, bps);
      if r.Got? {
        ReadSubframesAgrees(x, y, r.pos, h, c + 1);
      }
    }
  }

  lemma ReadNumberAgrees(a: seq<byte>, b: seq<byte>, pos: nat)
    requires a <= b
    ensures Agrees(ReadNumber(a, pos), ReadNumber(b, pos))
  {
    hide ExtraBytes, IsContinuation, Digits, LeadDigits;
    if pos < |a| {
      var extra := ExtraBytes(a[pos]);
      if pos + 1 + extra <= |a| {
        assert a[pos + 1..pos + 1 + extra] == b[pos + 1..pos + 1 + extra];
      }
    }
  }

  lemma ReadHeaderCodesAgrees(a: seq<byte>, b: seq<byte>, pos: nat, number: nat, info: Option<StreamInfo>)
    requires a <= b && |a| >= 4
    ensures Agrees(ReadHeaderCodes(a, pos, number, info), ReadHeaderCodes(b, pos, number, info))
  {
    hide BigEndian, Remainder, SampleRate, SampleBits, BlockSize;
    var bsCode, srCode := a[2] / 16, a[2] % 16;
    var p2 := pos + BlockBytes(bsCode);
    var p3 := p2 + RateBytes(srCode);
    if p2 <= |a| {
      assert a[pos..p2] == b[pos..p2];
    }
    if p3 <= |a| {
      assert a[p2..p3] == b[p2..p3];
      assert a[..p3] == b[..p3];
    }
  }

  lemma ReadHeaderAgrees(a: seq<byte>, b: seq<byte>, info: Option<StreamInfo>)
    requires a <= b
    ensures Agrees(ReadHeader(a, info), ReadHeader(b, info))
  {
    hide ReadNumber, ReadHeaderCodes;
    if |a| >= 4 {
      ReadNumberAgrees(a, b, 4);
      var n := ReadNumber(a, 4);
      if n.Got? {
        ReadHeaderCodesAgrees(a, b, n.pos, n.val, info);
      }
    }
  }

  lemma CheckFrameAgrees(a: seq<byte>, b: seq<byte>, end: nat, f: Frame)
    requires a <= b
    ensures Agrees(CheckFrame(a, end, f), CheckFrame(b, end, f))
  {
    hide BigEndian, Remainder;
    if end + 2 <= |a| {
      assert a[..end] == b[..end] && a[end..end + 2] == b[end..end + 2];
    }
  }

  lemma UnpackPrefix(a: seq<byte>, b: seq<byte>)
    requires a <= b
    ensures Unpack(a) <= Unpack(b)
  {
    hide Unpack;
    assert b == a + b[|a|..];
    UnpackConcat(a, b[|a|..]);
  }

  /**
   Prefix stability: a frame found in a buffer, with its samples and its length, or the finding that there is none, is
   what the decoder finds in every longer buffer.
   */
  lemma FrameIsPrefixStable(b: seq<byte>, s: seq<byte>, info: Option<StreamInfo>, cap: nat)
    requires !ReadFrame(b, info, cap).Short?
    ensures ReadFrame(b + s, info, cap) == ReadFrame(b, info, cap)
  {
    hide Unpack, ReadHeader, ReadSubframes, CheckFrame, Decorrelate;
    var l := b + s;
    ReadHeaderAgrees(b, l, info);
    var h := ReadHeader(b, info);
    if h.Got? && h.val.blocksize <= cap && h.val.blocksize <= MAX_BLOCK {
      UnpackPrefix(b, l);
      ReadSubframesAgrees(Unpack(b), Unpack(l), 8 * h.pos, h.val, 0);
      var p := ReadSubframes(Unpack(b), 8 * h.pos, h.val, 0);
      if p.Got? {
        CheckFrameAgrees(b, l, (p.pos + 7) / 8, FrameOf(h.val, info, Decorrelate(h.val.chCode, p.val)));
      }
    }
  }

  lemma {:induction false} ReadBlocksAgrees(a: seq<byte>, b: seq<byte>, pos: nat, info: Option<StreamInfo>)
    requires a <= b
    ensures Agrees(ReadBlocks(a, pos, info), ReadBlocks(b, pos, info))
    decreases |a| - pos
  {
    hide InfoOf, BigEndian;
    if pos + 4 <= |a| {
      assert a[pos + 1..pos + 4] == b[pos + 1..pos + 4];
      var blen := BigEndian(a[pos + 1..pos + 4]);
      var next := pos + 4 + blen;
      if next <= |a| {
        assert a[pos + 4..next] == b[pos + 4..next];
        var info' := if a[pos] % 128 == 0 && blen >= 34 && info.None? then Some(InfoOf(a[pos + 4..next])) else info;
        ReadBlocksAgrees(a, b, next, info');
      }
    }
  }

  /** The same for the stream header. */
  lemma StreamHeaderIsPrefixStable(b: seq<byte>, s: seq<byte>)
    requires !ReadStreamHeader(b).Short?
    ensures ReadStreamHeader(b + s) == ReadStreamHeader(b)
  {
    hide ReadBlocks;
    if |b| >= 4 {
      assert (b + s)[..4] == b[..4];
      ReadBlocksAgrees(b, b + s, 4, None);
    } else {
      assert b != MAGIC[..|b|];
      var i :| 0 <= i < |b| && b[i] != MAGIC[i];
      assert (b + s)[i] == b[i];
    }
  }
}
