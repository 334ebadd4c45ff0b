/**
 * RGBA bitmaps as the canvas API hands them out: a flat byte buffer,
 * row-major, four bytes per pixel (R, G, B, A), so the pixel at column x
 * of row y of a width-w image starts at byte (y * w + x) * 4.
 */
module Bitmap {
  import opened Js

  datatype Pixel = Pixel(r: Byte, g: Byte, b: Byte, a: Byte)

  /** Component c of a pixel: 0 = R, 1 = G, 2 = B, 3 = A. */
  function Component(px: Pixel, c: nat): Byte
    requires c < 4
  {
    if c == 0 then px.r else if c == 1 then px.g else if c == 2 then px.b else px.a
  }

  /** The four bytes of a pixel, in buffer order. */
  function Bytes(px: Pixel): (s: seq<Byte>)
    ensures |s| == 4
  {
    [px.r, px.g, px.b, px.a]
  }

  /** Pixel number p of a buffer. */
  function PixelAt(s: seq<Byte>, p: nat): Pixel
    requires 4 * p + 4 <= |s|
  {
    Pixel(s[4 * p], s[4 * p + 1], s[4 * p + 2], s[4 * p + 3])
  }

  /** A buffer that holds a w-by-h image. */
  predicate IsImage(s: seq<Byte>, w: nat, h: nat) {
    |s| == w * h * 4
  }

  /** The pixel at column x of row y. */
  function PixelXY(s: seq<Byte>, w: nat, h: nat, x: nat, y: nat): Pixel
    requires IsImage(s, w, h) && x < w && y < h
  {
    RowMajorBound(w, h, x, y);
    PixelAt(s, y * w + x)
  }

  /** A gray, opaque pixel. */
  function Gray(v: Byte): Pixel {
    Pixel(v, v, v, 255)
  }

  /**
   * The buffer obtained by applying f to every pixel of s, in place or into
   * a buffer of the same size; the specification of every per-pixel loop.
   */
  function MapPixels(s: seq<Byte>, f: Pixel -> Pixel): (t: seq<Byte>)
    requires |s| % 4 == 0
    ensures |t| == |s|
  {
    MapFirst(s, f, |s| / 4)
  }

  /** f applied to the first n pixels of s: what a per-pixel loop has produced after n steps. */
  function MapFirst(s: seq<Byte>, f: Pixel -> Pixel, n: nat): (t: seq<Byte>)
    requires 4 * n <= |s|
    ensures |t| == 4 * n
  {
    if n == 0 then [] else MapFirst(s, f, n - 1) + Bytes(f(PixelAt(s, n - 1)))
  }

  /** Every pixel of MapFirst(s, f, n) is f of the pixel at the same position. */
  lemma {:induction false} MapFirstAt(s: seq<Byte>, f: Pixel -> Pixel, n: nat, p: nat)
    requires 4 * n <= |s| && p < n
    ensures PixelAt(MapFirst(s, f, n), p) == f(PixelAt(s, p))
  {
    var prefix := MapFirst(s, f, n - 1);
    if p < n - 1 {
      MapFirstAt(s, f, n - 1, p);
      assert PixelAt(prefix + Bytes(f(PixelAt(s, n - 1))), p) == PixelAt(prefix, p);
    }
  }

  /** Every pixel of MapPixels(s, f) is f of the pixel at the same position. */
  lemma MapPixelsAt(s: seq<Byte>, f: Pixel -> Pixel, p: nat)
    requires |s| % 4 == 0 && 4 * p + 4 <= |s|
    ensures PixelAt(MapPixels(s, f), p) == f(PixelAt(s, p))
  {
    MapFirstAt(s, f, |s| / 4, p);
  }

  lemma MapPixelsAll(s: seq<Byte>, f: Pixel -> Pixel)
    requires |s| % 4 == 0
    ensures forall p: nat :: 4 * p + 4 <= |s| ==> PixelAt(MapPixels(s, f), p) == f(PixelAt(s, p))
  {
    forall p: nat | 4 * p + 4 <= |s| ensures PixelAt(MapPixels(s, f), p) == f(PixelAt(s, p)) {
      MapPixelsAt(s, f, p);
    }
  }

  /** Two buffers of equal length that agree on every pixel are equal. */
  lemma PixelwiseEqual(t: seq<Byte>, u: seq<Byte>)
    requires |t| == |u| && |t| % 4 == 0
    requires forall p: nat :: 4 * p + 4 <= |t| ==> PixelAt(t, p) == PixelAt(u, p)
    ensures t == u
  {
    forall i | 0 <= i < |t| ensures t[i] == u[i] {
      var p := i / 4;
      assert PixelAt(t, p) == PixelAt(u, p);
    }
  }

  /**
   * Applying g after f pixel by pixel changes nothing when g leaves every
   * result of f alone; this gives the idempotence of the per-pixel passes.
   */
  lemma MapPixelsAbsorb(s: seq<Byte>, f: Pixel -> Pixel, g: Pixel -> Pixel)
    requires |s| % 4 == 0
    requires forall p: nat :: 4 * p + 4 <= |s| ==> g(f(PixelAt(s, p))) == f(PixelAt(s, p))
    ensures MapPixels(MapPixels(s, f), g) == MapPixels(s, f)
  {
    var t := MapPixels(s, f);
    MapPixelsAll(s, f);
    MapPixelsAll(t, g);
    PixelwiseEqual(MapPixels(t, g), t);
  }

  // Images given pixel by pixel, built row by row as the nested y/x loops fill them.

  /** The first n pixels of row y of the image whose pixel (x, y) is f(x, y). */
  function RowOf(f: (nat, nat) -> Pixel, y: nat, n: nat): (t: seq<Byte>)
    ensures |t| == 4 * n
  {
    if n == 0 then [] else RowOf(f, y, n - 1) + Bytes(f(n - 1, y))
  }

  /** The first `rows` rows, each w pixels wide, of the image whose pixel (x, y) is f(x, y). */
  function ImageOf(f: (nat, nat) -> Pixel, w: nat, rows: nat): (t: seq<Byte>)
    ensures |t| == w * rows * 4
  {
    if rows == 0 then []
    else
      var t := ImageOf(f, w, rows - 1) + RowOf(f, rows - 1, w);
      assert w * rows * 4 == w * (rows - 1) * 4 + 4 * w;
      t
  }

  lemma {:induction false} RowOfAt(f: (nat, nat) -> Pixel, y: nat, n: nat, x: nat)
    requires x < n
    ensures PixelAt(RowOf(f, y, n), x) == f(x, y)
  {
    if x < n - 1 {
      RowOfAt(f, y, n - 1, x);
      var t := RowOf(f, y, n - 1);
      assert PixelAt(t + Bytes(f(n - 1, y)), x) == PixelAt(t, x);
    }
  }

  /** Pixel (x, y) of ImageOf(f, w, rows) is f(x, y). */
  lemma {:induction false} ImageOfAt(f: (nat, nat) -> Pixel, w: nat, rows: nat, x: nat, y: nat)
    requires x < w && y < rows
    ensures PixelXY(ImageOf(f, w, rows), w, rows, x, y) == f(x, y)
  {
    if y < rows - 1 {
      ImageOfAt(f, w, rows - 1, x, y);
      ImageKeepsEarlierRows(f, w, rows, x, y);
    } else {
      ImageLastRow(f, w, y, x);
    }
  }

  lemma ImageKeepsEarlierRows(f: (nat, nat) -> Pixel, w: nat, rows: nat, x: nat, y: nat)
    requires x < w && y + 1 < rows
    ensures PixelXY(ImageOf(f, w, rows), w, rows, x, y) == PixelXY(ImageOf(f, w, rows - 1), w, rows - 1, x, y)
  {
    var prefix := ImageOf(f, w, rows - 1);
    var row := RowOf(f, rows - 1, w);
    RowMajorBound(w, rows - 1, x, y);
    var p := y * w + x;
    assert 4 * p + 3 < |prefix|;
    assert PixelAt(prefix + row, p) == PixelAt(prefix, p);
  }

  lemma ImageLastRow(f: (nat, nat) -> Pixel, w: nat, y: nat, x: nat)
    requires x < w
    ensures PixelXY(ImageOf(f, w, y + 1), w, y + 1, x, y) == f(x, y)
  {
    var prefix := ImageOf(f, w, y);
    var row := RowOf(f, y, w);
    assert ImageOf(f, w, y + 1) == prefix + row;
    RowOfAt(f, y, w, x);
    var p := y * w + x;
    assert |prefix| == 4 * (y * w);
    assert PixelAt(prefix + row, p) == PixelAt(row, x);
  }

  // Row-major index arithmetic.

  lemma MulMonotone(a: nat, b: nat, w: nat)
    requires a <= b
    ensures a * w <= b * w
  {
  }

  /** Pixel (x, y) of a w-by-h image exists: y * w + x < w * h. */
  lemma RowMajorBound(w: nat, h: nat, x: nat, y: nat)
    requires x < w && y < h
    ensures y * w + x < w * h
    ensures 4 * (y * w + x) + 4 <= w * h * 4
  {
    MulMonotone(y + 1, h, w);
    assert (y + 1) * w == y * w + w;
  }

  /** Row y of a w-by-h image ends within the image. */
  lemma RowEnd(w: nat, h: nat, y: nat)
    requires y < h
    ensures y * w + w <= w * h
    ensures (y + 1) * w == y * w + w
  {
    MulMonotone(y + 1, h, w);
  }

  /** The column and row of flat pixel index y * w + x are x and y. */
  lemma RowMajorDecompose(w: nat, x: nat, y: nat)
    requires x < w
    ensures (y * w + x) / w == y && (y * w + x) % w == x
  {
    var p := y * w + x;
    var q, r := p / w, p % w;
    assert p == q * w + r;
    if q > y {
      MulMonotone(y + 1, q, w);
      assert false;
    } else if q < y {
      MulMonotone(q + 1, y, w);
      assert false;
    }
  }
}
