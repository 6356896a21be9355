/**
 Pixel buffers of source/cache/thumbnail_cache.cpp.  An image takes up the first w * h pixels of a buffer, row behind
 row, and a writer that goes by rows looks up the size of the image again for each of them.
 */
module ThumbnailPixels {
  import opened Basics

  datatype Size = Size(w: nat, h: nat)

  function Area(z: Size): nat { z.w * z.h }

  /** An image as it is asked for: an item's id, its size on the screen, and which of the item's images. */
  datatype Key = Key(id: string, size: Size, img: nat)

  /**
   What a pixel is of: the place it has in the picture that a fetch brought, scaled to a size.  A local picture is
   cropped first, for the size `crop`.
   */
  datatype Part = Part(fetch: nat, id: string, img: nat, crop: Option<Size>, size: Size)

  type Pixels = seq<Option<Part>>

  predicate Fits(p: Option<Part>, key: Key) {
    && p.Some? && p.value.id == key.id && p.value.img == key.img && p.value.size == key.size
    && (p.value.crop.Some? ==> p.value.crop.value == key.size)
  }

  /** The image is in the buffer: every pixel of it, at its size, and all from one fetch. */
  predicate Shows(px: Pixels, key: Key) {
    && 0 < Area(key.size) <= |px| && Fits(px[0], key)
    && forall k :: 0 <= k < Area(key.size) ==> px[k] == px[0]
  }

  function Filled(px: Pixels, from: nat, n: nat, p: Part): (r: Pixels)
    ensures |r| == |px|
    ensures forall k :: 0 <= k < |px| ==> r[k] == if from <= k < from + n then Some(p) else px[k]
  {
    seq(|px|, k requires 0 <= k < |px| => if from <= k < from + n then Some(p) else px[k])
  }

  function Copied(to: Pixels, px: Pixels, from: nat, n: nat): (r: Pixels)
    ensures |r| == |to|
    ensures forall k :: 0 <= k < |to| ==> r[k] == if from <= k < from + n && k < |px| then px[k] else to[k]
  {
    seq(|to|, k requires 0 <= k < |to| => if from <= k < from + n && k < |px| then px[k] else to[k])
  }

  // ---- rows -------------------------------------------------------------------------------------------------

  /** Row y of an image so wide takes up pixel k. */
  predicate RowHolds(y: nat, w: nat, k: nat) { y * w <= k < y * w + w }

  lemma RowEnds(y: nat, z: Size)
    requires y < z.h
    ensures y * z.w + z.w <= Area(z)
  {
    MulMono(z.w, y + 1, z.h);
  }

  lemma RowsBehind(y: nat, z: Size)
    requires z.h <= y
    ensures Area(z) <= y * z.w
  {
    MulMono(z.w, z.h, y);
  }

  lemma RowsCount(y: nat, y': nat, w: nat)
    requires y < y'
    ensures y * w + w <= y' * w
  {
    MulMono(w, y + 1, y');
  }

  lemma AreaIsPositive(z: Size)
    ensures Area(z) > 0 <==> z.w > 0 && z.h > 0
  {
    if z.w > 0 && z.h > 0 {
      MulMono(z.w, 1, z.h);
    }
  }

  /** The row that takes up pixel k. */
  lemma RowOf(k: nat, z: Size) returns (y: nat)
    requires k < Area(z)
    ensures y < z.h && RowHolds(y, z.w, k)
  {
    AreaIsPositive(z);
    y := k / z.w;
    assert k == z.w * y + k % z.w;
    if y >= z.h {
      RowsBehind(y, z);
    }
  }

  lemma OneRowOnly(y: nat, y': nat, w: nat, k: nat)
    requires RowHolds(y, w, k) && RowHolds(y', w, k)
    ensures y == y'
  {
    if y < y' {
      RowsCount(y, y', w);
    } else if y' < y {
      RowsCount(y', y, w);
    }
  }

  // ---- what a writer leaves in a buffer ---------------------------------------------------------------------

  /**
   The size at which pixel k was last written, given the size that each row was written at, if it was written at all.
   */
  function LastSize(rows: seq<Size>, k: nat): Option<Size> {
    if rows == [] then None
    else
      var y := |rows| - 1;
      if RowHolds(y, rows[y].w, k) then Some(rows[y]) else LastSize(rows[..y], k)
  }

  lemma {:induction false} LastSizeAt(rows: seq<Size>, k: nat, y: nat)
    requires y < |rows| && RowHolds(y, rows[y].w, k)
    requires forall i :: y < i < |rows| ==> !RowHolds(i, rows[i].w, k)
    ensures LastSize(rows, k) == Some(rows[y])
    decreases |rows|
  {
    hide RowHolds;
    var last := |rows| - 1;
    if y < last {
      assert !RowHolds(last, rows[last].w, k);
      LastSizeAt(rows[..last], k, y);
    }
  }

  lemma {:induction false} LastSizeFrom(rows: seq<Size>, k: nat) returns (y: nat)
    requires LastSize(rows, k).Some?
    ensures y < |rows| && LastSize(rows, k) == Some(rows[y]) && RowHolds(y, rows[y].w, k)
    ensures forall i :: y < i < |rows| ==> !RowHolds(i, rows[i].w, k)
    decreases |rows|
  {
    hide RowHolds;
    y := |rows| - 1;
    if !RowHolds(y, rows[y].w, k) {
      y := LastSizeFrom(rows[..y], k);
    }
  }

  /**
   All rows of an image of this size were written, each at this size, and no row that was written behind them reached
   back into them.
   */
  predicate AllAtSize(rows: seq<Size>, z: Size) {
    && z.h <= |rows| && (forall y :: 0 <= y < z.h ==> rows[y] == z)
    && forall y :: z.h <= y < |rows| ==> Area(z) <= y * rows[y].w
  }

  /** That is exactly when every pixel of the image was last written at its size. */
  lemma AllAtSizeExactly(rows: seq<Size>, z: Size)
    requires Area(z) > 0 && forall y :: 0 <= y < |rows| ==> rows[y].w > 0
    ensures AllAtSize(rows, z) <==> LastAtSize(rows, z)
  {
    hide LastAtSize;
    if AllAtSize(rows, z) {
      PixelsAtSize(rows, z);
    }
    if LastAtSize(rows, z) {
      AreaIsPositive(z);
      hide Area;
      forall y | 0 <= y < z.h
        ensures y < |rows| && rows[y] == z
      {
        RowWasWritten(rows, z, y);
      }
      RowWasWritten(rows, z, z.h - 1);
      forall y | z.h <= y < |rows|
        ensures Area(z) <= y * rows[y].w
      {
        NothingReachesBack(rows, z, y);
      }
    }
  }

  predicate LastAtSize(rows: seq<Size>, z: Size) {
    forall k :: 0 <= k < Area(z) ==> LastSize(rows, k) == Some(z)
  }

  lemma PixelsAtSize(rows: seq<Size>, z: Size)
    requires AllAtSize(rows, z)
    ensures LastAtSize(rows, z)
  {
    forall k | 0 <= k < Area(z)
      ensures LastSize(rows, k) == Some(z)
    {
      WrittenAtSize(rows, z, k);
    }
  }

  lemma WrittenAtSize(rows: seq<Size>, z: Size, k: nat)
    requires AllAtSize(rows, z) && k < Area(z)
    ensures LastSize(rows, k) == Some(z)
  {
    hide Area, LastSize;
    var y := RowOf(k, z);
    forall i | y < i < |rows|
      ensures !RowHolds(i, rows[i].w, k)
    {
      if i < z.h {
        RowsCount(y, i, z.w);
      }
    }
    LastSizeAt(rows, k, y);
  }

  lemma RowWasWritten(rows: seq<Size>, z: Size, y: nat)
    requires z.w > 0 && y < z.h && LastAtSize(rows, z)
    ensures y < |rows| && rows[y] == z
  {
    hide Area, LastSize;
    RowEnds(y, z);
    var k := y * z.w;
    var i := LastSizeFrom(rows, k);
    OneRowOnly(y, i, z.w, k);
  }

  lemma NothingReachesBack(rows: seq<Size>, z: Size, y: nat)
    requires z.h <= y < |rows| && rows[y].w > 0
    requires LastAtSize(rows, z)
    ensures Area(z) <= y * rows[y].w
  {
    hide Area, LastSize;
    var k := y * rows[y].w;
    if k < Area(z) {
      var i := LastSizeFrom(rows, k);
      assert RowHolds(y, rows[y].w, k);
      assert i >= y;
      RowsBehind(i, z);
    }
  }
}
