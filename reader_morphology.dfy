/**
 * js/reader.js, the finder-pattern helpers: dilate (a one-pixel dilation
 * of the dark pixels into a copy of the buffer), isFinderPatternCandidate
 * (how much of a 7 by 7 window matches the finder pattern),
 * drawFinderPattern (paint a block black in place) and
 * enhanceFinderPatterns (test candidates on the dilated copy, draw on the
 * original).
 */
module ReaderMorphology {
  import opened Js
  import opened Bitmap

  /** A pixel with R, G and B set to 0 and its alpha kept. */
  function Darkened(px: Pixel): Pixel {
    px.(r := 0, g := 0, b := 0)
  }

  // dilate

  /**
   * data[q * 4] === 0 for pixel number q: a read outside the buffer gives
   * undefined, which is not 0.
   */
  predicate BlackPixel(s: seq<Byte>, q: int) {
    0 <= q && 4 * q < |s| && s[4 * q] == 0
  }

  /** How far row y + dy starts after row y, for dy = -1, 0, 1, in a w-wide image. */
  function RowOffset(w: nat, dy: int): int {
    if dy < 0 then -(w as int) else if dy == 0 then 0 else w
  }

  /**
   * Whether the inner neighbour loop, at pixel p, finds a black pixel
   * among dx = -1 .. dxEnd - 1 of row dy (the centre itself is skipped).
   */
  predicate RowScan(s: seq<Byte>, w: nat, p: int, dy: int, dxEnd: int)
    decreases dxEnd + 1
  {
    if dxEnd <= -1 then false
    else RowScan(s, w, p, dy, dxEnd - 1)
         || (!(dxEnd - 1 == 0 && dy == 0) && BlackPixel(s, p + RowOffset(w, dy) + dxEnd - 1))
  }

  /** Whether the neighbour loops, at pixel p, find a black pixel in rows dy = -1 .. dyEnd - 1. */
  predicate Scan(s: seq<Byte>, w: nat, p: int, dyEnd: int)
    decreases dyEnd + 1
  {
    if dyEnd <= -1 then false else Scan(s, w, p, dyEnd - 1) || RowScan(s, w, p, dyEnd - 1, 2)
  }

  /** One of the eight pixels around pixel p of a w-wide image has a red byte of 0. */
  predicate HasBlackNeighbour(s: seq<Byte>, w: nat, p: int) {
    BlackPixel(s, p - w - 1) || BlackPixel(s, p - w) || BlackPixel(s, p - w + 1)
    || BlackPixel(s, p - 1) || BlackPixel(s, p + 1)
    || BlackPixel(s, p + w - 1) || BlackPixel(s, p + w) || BlackPixel(s, p + w + 1)
  }

  /** A pixel that dilate may change: not in the first or last row or column. */
  predicate Interior(w: nat, h: nat, x: nat, y: nat) {
    1 <= x < w - 1 && 1 <= y < h - 1
  }

  /** The pixel dilate leaves at (x, y) of a w-by-h image s. */
  function DilatedPixel(s: seq<Byte>, w: nat, h: nat, x: nat, y: nat): Pixel {
    if IsImage(s, w, h) && x < w && y < h then
      var px := PixelXY(s, w, h, x, y);
      if Interior(w, h, x, y) && HasBlackNeighbour(s, w, y * w + x) then Darkened(px) else px
    else Gray(0)
  }

  function DilateRule(s: seq<Byte>, w: nat, h: nat): (nat, nat) -> Pixel {
    (x: nat, y: nat) => DilatedPixel(s, w, h, x, y)
  }

  /** The buffer dilate returns. */
  function Dilated(s: seq<Byte>, w: nat, h: nat): (t: seq<Byte>)
    ensures |t| == w * h * 4
  {
    ImageOf(DilateRule(s, w, h), w, h)
  }

  /** The neighbour (x + dx, y + dy) of pixel y * w + x is pixel y * w + x + RowOffset(w, dy) + dx. */
  lemma NeighbourIndex(w: nat, x: int, y: int, dx: int, dy: int)
    requires -1 <= dy <= 1
    ensures (y + dy) * w + (x + dx) == y * w + x + RowOffset(w, dy) + dx
  {
  }

  /**
   * Running both neighbour loops to the end, skipping the centre, finds a
   * black pixel exactly when one of the eight neighbours is black.
   */
  lemma ScanIsNeighbourTest(s: seq<Byte>, w: nat, p: int)
    ensures Scan(s, w, p, 2) <==> HasBlackNeighbour(s, w, p)
  {
    assert !Scan(s, w, p, -1) && !RowScan(s, w, p, -1, -1) && !RowScan(s, w, p, 0, -1) && !RowScan(s, w, p, 1, -1);
    assert Scan(s, w, p, 2) == (RowScan(s, w, p, -1, 2) || RowScan(s, w, p, 0, 2) || RowScan(s, w, p, 1, 2));
  }

  /**
   * For an interior pixel the neighbour test looks at the eight pixels
   * around (x, y), by their coordinates.
   */
  lemma NeighbourTestXY(s: seq<Byte>, w: nat, h: nat, x: nat, y: nat)
    requires IsImage(s, w, h) && Interior(w, h, x, y)
    ensures HasBlackNeighbour(s, w, y * w + x) <==>
      PixelXY(s, w, h, x - 1, y - 1).r == 0 || PixelXY(s, w, h, x, y - 1).r == 0 || PixelXY(s, w, h, x + 1, y - 1).r == 0
      || PixelXY(s, w, h, x - 1, y).r == 0 || PixelXY(s, w, h, x + 1, y).r == 0
      || PixelXY(s, w, h, x - 1, y + 1).r == 0 || PixelXY(s, w, h, x, y + 1).r == 0 || PixelXY(s, w, h, x + 1, y + 1).r == 0
  {
    var p := y * w + x;
    NeighbourIndex(w, x, y, -1, -1);
    NeighbourIndex(w, x, y, 0, -1);
    NeighbourIndex(w, x, y, 1, -1);
    NeighbourIndex(w, x, y, -1, 1);
    NeighbourIndex(w, x, y, 0, 1);
    NeighbourIndex(w, x, y, 1, 1);
    RowMajorBound(w, h, x + 1, y + 1);
    RowMajorBound(w, h, x - 1, y - 1);
  }

  /** The eight neighbours of an interior pixel p = y * w + x lie inside the image. */
  lemma NeighboursInImage(w: nat, h: nat, x: nat, y: nat, p: nat)
    requires Interior(w, h, x, y) && p == y * w + x
    ensures 0 <= p - w - 1 && p + w + 1 < w * h
  {
    MulMonotone(1, y, w);
    RowMajorBound(w, h, x + 1, y + 1);
  }

  /** The two neighbour loops of dilate for the interior pixel (x, y), which is pixel p. */
  method CheckNeighbours(data: array<Byte>, width: nat, height: nat, x: nat, y: nat, ghost p: nat)
    returns (hasBlackNeighbor: bool)
    requires data.Length == width * height * 4 && Interior(width, height, x, y) && p == y * width + x
    ensures hasBlackNeighbor == HasBlackNeighbour(data[..], width, p)
  {
    NeighboursInImage(width, height, x, y, p);
    hasBlackNeighbor := false;
    var dy := -1;
    while dy <= 1
      invariant -1 <= dy <= 2
      invariant !hasBlackNeighbor && !Scan(data[..], width, p, dy)
    {
      hasBlackNeighbor := ScanRow(data, width, x, y, dy, p);
      if hasBlackNeighbor {
        break;
      }
      dy := dy + 1;
    }
    if hasBlackNeighbor {
      ScanFound(data[..], width, p, dy);
    }
    ScanIsNeighbourTest(data[..], width, p);
  }

  /** The inner neighbour loop of dilate: row dy around pixel p = y * width + x. */
  method ScanRow(data: array<Byte>, width: nat, x: nat, y: nat, dy: int, ghost p: nat)
    returns (hasBlackNeighbor: bool)
    requires -1 <= dy <= 1 && p == y * width + x && 1 <= x
    requires 0 <= p - width - 1 && 4 * (p + width + 1) < data.Length
    ensures hasBlackNeighbor == RowScan(data[..], width, p, dy, 2)
  {
    hasBlackNeighbor := false;
    var dx := -1;
    while dx <= 1
      invariant -1 <= dx <= 2
      invariant !hasBlackNeighbor && !RowScan(data[..], width, p, dy, dx)
    {
      if !(dx == 0 && dy == 0) {
        var nx := x + dx;
        var ny := y + dy;
        NeighbourIndex(width, x, y, dx, dy);
        var nidx := (ny * width + nx) * 4;
        if data[nidx] == 0 {
          RowFound(data[..], width, p, dy, dx);
          hasBlackNeighbor := true;
          break;
        }
      }
      dx := dx + 1;
    }
  }

  /** A black pixel at offset dx of row dy makes the whole row scan succeed. */
  lemma RowFound(s: seq<Byte>, w: nat, p: int, dy: int, dx: int)
    requires -1 <= dx <= 1 && !(dx == 0 && dy == 0)
    requires BlackPixel(s, p + RowOffset(w, dy) + dx)
    ensures RowScan(s, w, p, dy, 2)
  {
    assert RowScan(s, w, p, dy, dx + 1);
    if dx == -1 {
      assert RowScan(s, w, p, dy, 1);
    }
  }

  /** A row scan that succeeds makes the whole scan succeed. */
  lemma ScanFound(s: seq<Byte>, w: nat, p: int, dy: int)
    requires -1 <= dy <= 1 && RowScan(s, w, p, dy, 2)
    ensures Scan(s, w, p, 2)
  {
    assert Scan(s, w, p, dy + 1);
    if dy == -1 {
      assert Scan(s, w, p, 1);
    }
  }

  /**
   * Pixel p = y * w + x of the dilated buffer, in terms of pixel p of the
   * input: the form the loops of dilate use.
   */
  lemma DilatedFlat(s: seq<Byte>, w: nat, h: nat, x: nat, y: nat, p: nat)
    requires IsImage(s, w, h) && x < w && y < h && p == y * w + x
    ensures 4 * p + 4 <= |s|
    ensures PixelAt(Dilated(s, w, h), p)
            == if Interior(w, h, x, y) && HasBlackNeighbour(s, w, p) then Darkened(PixelAt(s, p)) else PixelAt(s, p)
  {
    ImageOfAt(DilateRule(s, w, h), w, h, x, y);
    RowMajorBound(w, h, x, y);
  }

  /** The same, byte by byte: R, G and B become 0 when the pixel is darkened, alpha is copied. */
  lemma DilatedBytes(s: seq<Byte>, w: nat, h: nat, x: nat, y: nat, p: nat, darken: bool)
    requires IsImage(s, w, h) && x < w && y < h && p == y * w + x
    requires darken == (Interior(w, h, x, y) && HasBlackNeighbour(s, w, p))
    ensures 4 * p + 4 <= |s|
    ensures var t := Dilated(s, w, h);
      t[4 * p] == (if darken then 0 else s[4 * p])
      && t[4 * p + 1] == (if darken then 0 else s[4 * p + 1])
      && t[4 * p + 2] == (if darken then 0 else s[4 * p + 2])
      && t[4 * p + 3] == s[4 * p + 3]
  {
    DilatedFlat(s, w, h, x, y, p);
  }

  /** Bytes of the first row are copied unchanged. */
  lemma DilatedFirstRow(s: seq<Byte>, w: nat, h: nat, j: nat)
    requires IsImage(s, w, h) && j < 4 * w && j < |s|
    ensures Dilated(s, w, h)[j] == s[j]
  {
    var x := j / 4;
    assert h > 0 && x == 0 * w + x;
    DilatedFlat(s, w, h, x, 0, x);
  }

  /** Bytes of the last row are copied unchanged. */
  lemma DilatedLastRow(s: seq<Byte>, w: nat, h: nat, j: nat)
    requires IsImage(s, w, h) && h >= 1 && 4 * ((h - 1) * w) <= j < |s|
    ensures Dilated(s, w, h)[j] == s[j]
  {
    RowEnd(w, h, h - 1);
    var x := j / 4 - (h - 1) * w;
    assert 0 <= x < w;
    DilatedFlat(s, w, h, x, h - 1, j / 4);
  }

  /**
   * dilate: a copy of data in which every interior pixel with a black
   * neighbour has R, G and B set to 0. data is only read.
   */
  method Dilate(data: array<Byte>, width: nat, height: nat) returns (result: array<Byte>)
    requires data.Length == width * height * 4
    ensures fresh(result)
    ensures result[..] == Dilated(data[..], width, height)
  {
    ghost var s := data[..];
    ghost var t := Dilated(s, width, height);
    result := new Byte[data.Length](i requires 0 <= i < data.Length reads data => data[i]);
    forall j | 0 <= j < 4 * width && j < result.Length
      ensures t[j] == s[j]
    {
      DilatedFirstRow(s, width, height, j);
    }
    var y := 1;
    while y < height - 1
      invariant 1 <= y && (height >= 2 ==> y <= height - 1)
      invariant forall j :: 0 <= j < 4 * (y * width) && j < result.Length ==> result[j] == t[j]
      invariant forall j :: 4 * (y * width) <= j < result.Length ==> result[j] == s[j]
    {
      RowEnd(width, height, y);
      DilateRow(data, result, width, height, y, y * width, t);
      y := y + 1;
    }
    if height >= 2 {
      forall j | 4 * ((height - 1) * width) <= j < result.Length
        ensures t[j] == s[j]
      {
        DilatedLastRow(s, width, height, j);
      }
    } else {
      MulMonotone(height, 1, width);
    }
    assert result[..] == t;
  }

  /** The inner loop of dilate: row y, which starts at pixel rowStart. */
  method DilateRow(data: array<Byte>, result: array<Byte>, width: nat, height: nat, y: nat,
                   ghost rowStart: nat, ghost t: seq<Byte>)
    requires data != result && data.Length == result.Length == width * height * 4
    requires 1 <= y < height - 1 && rowStart == y * width && 4 * (rowStart + width) <= result.Length
    requires t == Dilated(data[..], width, height)
    requires forall j :: 0 <= j < 4 * rowStart ==> result[j] == t[j]
    requires forall j :: 4 * rowStart <= j < result.Length ==> result[j] == data[j]
    modifies result
    ensures forall j :: 0 <= j < 4 * (rowStart + width) ==> result[j] == t[j]
    ensures forall j :: 4 * (rowStart + width) <= j < result.Length ==> result[j] == data[j]
  {
    if width == 0 {
      return;
    }
    DilatedFlat(data[..], width, height, 0, y, rowStart);
    var x := 1;
    while x < width - 1
      invariant 1 <= x <= width && (width >= 2 ==> x <= width - 1)
      invariant forall j :: 0 <= j < 4 * (rowStart + x) ==> result[j] == t[j]
      invariant forall j :: 4 * (rowStart + x) <= j < result.Length ==> result[j] == data[j]
    {
      DilatePixel(data, result, width, height, x, y, rowStart + x, t);
      x := x + 1;
    }
    if width >= 2 {
      DilatedFlat(data[..], width, height, width - 1, y, rowStart + width - 1);
    }
  }

  /** The body of the inner loop of dilate: the interior pixel (x, y), which is pixel p. */
  method DilatePixel(data: array<Byte>, result: array<Byte>, width: nat, height: nat, x: nat, y: nat,
                     ghost p: nat, ghost t: seq<Byte>)
    requires data != result && data.Length == result.Length == width * height * 4
    requires Interior(width, height, x, y) && p == y * width + x
    requires t == Dilated(data[..], width, height)
    requires 4 * p + 4 <= result.Length
    requires result[4 * p] == data[4 * p] && result[4 * p + 1] == data[4 * p + 1] && result[4 * p + 2] == data[4 * p + 2]
    requires result[4 * p + 3] == data[4 * p + 3]
    modifies result
    ensures result[4 * p] == t[4 * p] && result[4 * p + 1] == t[4 * p + 1] && result[4 * p + 2] == t[4 * p + 2]
    ensures result[4 * p + 3] == t[4 * p + 3]
    ensures forall j :: 0 <= j < result.Length && !(4 * p <= j < 4 * p + 4) ==> result[j] == old(result[j])
  {
    var hasBlackNeighbor := CheckNeighbours(data, width, height, x, y, p);
    DilatedBytes(data[..], width, height, x, y, p, hasBlackNeighbor);
    var idx := (y * width + x) * 4;
    if hasBlackNeighbor {
      result[idx] := 0;
      result[idx + 1] := 0;
      result[idx + 2] := 0;
    }
  }

  /**
   * Pixel by pixel, dilate copies the border, blackens (R, G, B := 0) an
   * interior pixel when one of its eight neighbours has red 0, and
   * otherwise copies it.
   */
  lemma DilatedAt(s: seq<Byte>, w: nat, h: nat, x: nat, y: nat)
    requires IsImage(s, w, h) && x < w && y < h
    ensures var px, q := PixelXY(s, w, h, x, y), PixelXY(Dilated(s, w, h), w, h, x, y);
      (!Interior(w, h, x, y) ==> q == px)
      && (Interior(w, h, x, y) && HasBlackNeighbour(s, w, y * w + x) ==> q == Darkened(px))
      && (Interior(w, h, x, y) && !HasBlackNeighbour(s, w, y * w + x) ==> q == px)
  {
    ImageOfAt(DilateRule(s, w, h), w, h, x, y);
  }

  /**
   * Dilation only darkens: no component of any pixel grows, alpha is kept,
   * and a black pixel stays black.
   */
  lemma DilateDarkens(s: seq<Byte>, w: nat, h: nat, x: nat, y: nat)
    requires IsImage(s, w, h) && x < w && y < h
    ensures var px, q := PixelXY(s, w, h, x, y), PixelXY(Dilated(s, w, h), w, h, x, y);
      q.r <= px.r && q.g <= px.g && q.b <= px.b && q.a == px.a
      && (px.r == 0 && px.g == 0 && px.b == 0 ==> q == px)
  {
    ImageOfAt(DilateRule(s, w, h), w, h, x, y);
  }

  // isFinderPatternCandidate

  /** The 7 by 7 template isFinderPatternCandidate compares against, row by row (1 = dark). */
  const FinderPattern: seq<int> := [1, 1, 1, 1, 1, 1, 1,
                                    1, 0, 0, 0, 0, 0, 1,
                                    1, 0, 1, 1, 1, 0, 1,
                                    1, 0, 1, 0, 1, 0, 1,
                                    1, 0, 1, 1, 1, 0, 1,
                                    1, 0, 0, 0, 0, 0, 1,
                                    1, 1, 1, 1, 1, 1, 1]

  /** The counters matches and total of isFinderPatternCandidate. */
  datatype Counts = Counts(matches: nat, total: nat)

  function Add(a: Counts, b: Counts): Counts {
    Counts(a.matches + b.matches, a.total + b.total)
  }

  /**
   * What the window cell at offset (dx, dy) from the centre adds to the
   * counters: nothing when it lies outside the image; otherwise one to
   * total, and one to matches when its darkness (red below 128) agrees
   * with the template. A read past the end of the buffer is undefined,
   * which is not below 128.
   */
  function CellCounts(s: seq<Byte>, w: nat, h: nat, cx: int, cy: int, dx: int, dy: int): (c: Counts)
    requires -3 <= dx <= 3 && -3 <= dy <= 3
    ensures c.matches <= c.total <= 1
  {
    var x := cx + dx;
    var y := cy + dy;
    if x < 0 || y < 0 || x >= w || y >= h then Counts(0, 0)
    else
      var idx := (y * w + x) * 4;
      var pixelValue := if 0 <= idx < |s| && s[idx] < 128 then 1 else 0;
      var patternValue := FinderPattern[(dy + 3) * 7 + (dx + 3)];
      Counts(if pixelValue == patternValue then 1 else 0, 1)
  }

  /** The counts of the cells dx = -3 .. n - 4 of window row dy. */
  function RowCounts(s: seq<Byte>, w: nat, h: nat, cx: int, cy: int, dy: int, n: nat): (c: Counts)
    requires -3 <= dy <= 3 && n <= 7
    ensures c.matches <= c.total <= n
  {
    if n == 0 then Counts(0, 0)
    else Add(RowCounts(s, w, h, cx, cy, dy, n - 1), CellCounts(s, w, h, cx, cy, n - 4, dy))
  }

  /** The counts of the window rows dy = -3 .. m - 4. */
  function WindowCounts(s: seq<Byte>, w: nat, h: nat, cx: int, cy: int, m: nat): (c: Counts)
    requires m <= 7
    ensures c.matches <= c.total <= 7 * m
  {
    if m == 0 then Counts(0, 0)
    else Add(WindowCounts(s, w, h, cx, cy, m - 1), RowCounts(s, w, h, cx, cy, m - 4, 7))
  }

  /**
   * matches / total > 0.7. With total at most 49 the quotient is never
   * within rounding distance of 0.7 unless it equals 7/10, so the
   * comparison is exactly 10 * matches > 7 * total; when total is 0 the
   * quotient is NaN, the comparison is false, and so is 0 > 0.
   */
  predicate IsCandidate(s: seq<Byte>, w: nat, h: nat, cx: int, cy: int) {
    var c := WindowCounts(s, w, h, cx, cy, 7);
    10 * c.matches > 7 * c.total
  }

  /** isFinderPatternCandidate(centerX, centerY, data, width, height). */
  method IsFinderPatternCandidate(centerX: int, centerY: int, data: array<Byte>, width: nat, height: nat)
    returns (r: bool)
    ensures r == IsCandidate(data[..], width, height, centerX, centerY)
  {
    var matches, total := 0, 0;
    var dy := -3;
    while dy <= 3
      invariant -3 <= dy <= 4
      invariant Counts(matches, total) == WindowCounts(data[..], width, height, centerX, centerY, dy + 3)
    {
      matches, total := CountWindowRow(centerX, centerY, data, width, height, dy, matches, total);
      dy := dy + 1;
    }
    r := 10 * matches > 7 * total;
  }

  /** The inner loop of isFinderPatternCandidate: window row dy, added to the counters. */
  method CountWindowRow(centerX: int, centerY: int, data: array<Byte>, width: nat, height: nat, dy: int,
                        matches0: nat, total0: nat)
    returns (matches: nat, total: nat)
    requires -3 <= dy <= 3
    ensures Counts(matches, total)
            == Add(Counts(matches0, total0), RowCounts(data[..], width, height, centerX, centerY, dy, 7))
  {
    matches, total := matches0, total0;
    var dx := -3;
    while dx <= 3
      invariant -3 <= dx <= 4
      invariant Counts(matches, total)
                == Add(Counts(matches0, total0), RowCounts(data[..], width, height, centerX, centerY, dy, dx + 3))
    {
      matches, total := CountCell(centerX, centerY, data, width, height, dx, dy, matches, total);
      dx := dx + 1;
    }
  }

  /** The body of the inner loop of isFinderPatternCandidate: the cell at offset (dx, dy). */
  method CountCell(centerX: int, centerY: int, data: array<Byte>, width: nat, height: nat, dx: int, dy: int,
                   matches0: nat, total0: nat)
    returns (matches: nat, total: nat)
    requires -3 <= dx <= 3 && -3 <= dy <= 3
    ensures Counts(matches, total)
            == Add(Counts(matches0, total0), CellCounts(data[..], width, height, centerX, centerY, dx, dy))
  {
    matches, total := matches0, total0;
    var x := centerX + dx;
    var y := centerY + dy;
    var idx := (y * width + x) * 4;
    if x < 0 || y < 0 || x >= width || y >= height {
      return;
    }
    var pixelValue := if 0 <= idx < data.Length && data[idx] < 128 then 1 else 0;
    var patternValue := FinderPattern[(dy + 3) * 7 + (dx + 3)];
    if pixelValue == patternValue {
      matches := matches + 1;
    }
    total := total + 1;
  }

  /** A cell inside the image counts once in total; it matches when its darkness agrees with the template. */
  lemma CellInImage(s: seq<Byte>, w: nat, h: nat, cx: int, cy: int, dx: int, dy: int)
    requires IsImage(s, w, h) && -3 <= dx <= 3 && -3 <= dy <= 3
    requires 0 <= cx + dx < w && 0 <= cy + dy < h
    ensures var c := CellCounts(s, w, h, cx, cy, dx, dy);
      c.total == 1
      && (c.matches == 1 <==>
            (if PixelXY(s, w, h, cx + dx, cy + dy).r < 128 then 1 else 0) == FinderPattern[(dy + 3) * 7 + (dx + 3)])
  {
    RowMajorBound(w, h, cx + dx, cy + dy);
    var p := (cy + dy) * w + (cx + dx);
    assert p * 4 == 4 * p;
  }

  /** A window row inside the image counts each of its cells once. */
  lemma {:induction false} RowInImage(s: seq<Byte>, w: nat, h: nat, cx: int, cy: int, dy: int, n: nat)
    requires -3 <= dy <= 3 && n <= 7 && 3 <= cx && cx + 3 < w && 0 <= cy + dy < h
    ensures RowCounts(s, w, h, cx, cy, dy, n).total == n
  {
    if n > 0 {
      RowInImage(s, w, h, cx, cy, dy, n - 1);
    }
  }

  /** A window inside the image counts all of its cells. */
  lemma {:induction false} WindowInImage(s: seq<Byte>, w: nat, h: nat, cx: int, cy: int, m: nat)
    requires m <= 7 && 3 <= cx && cx + 3 < w && 3 <= cy && cy + 3 < h
    ensures WindowCounts(s, w, h, cx, cy, m).total == 7 * m
  {
    if m > 0 {
      WindowInImage(s, w, h, cx, cy, m - 1);
      RowInImage(s, w, h, cx, cy, m - 4, 7);
    }
  }

  /**
   * When the whole window lies inside the image, all 49 cells count, so
   * the centre is a candidate exactly when at least 35 of them match.
   */
  lemma FullWindow(s: seq<Byte>, w: nat, h: nat, cx: int, cy: int)
    requires 3 <= cx && cx + 3 < w && 3 <= cy && cy + 3 < h
    ensures WindowCounts(s, w, h, cx, cy, 7).total == 49
    ensures IsCandidate(s, w, h, cx, cy) <==> WindowCounts(s, w, h, cx, cy, 7).matches >= 35
  {
    WindowInImage(s, w, h, cx, cy, 7);
  }

  // drawFinderPattern

  /**
   * Math.round(d2 / 2): the nearest integer, a half rounded up. The loops
   * of drawFinderPattern step through half-integers -3.5 .. 3.5; they are
   * written here doubled, as the odd numbers -7 .. 7.
   */
  function MathRoundHalf(d2: int): int {
    (d2 + 1) / 2
  }

  function Abs(n: int): nat {
    if n < 0 then -n else n
  }

  /**
   * data[idx] = data[idx + 1] = data[idx + 2] = v, innermost first; a
   * write past the end of a typed array is ignored.
   */
  function SetRgb(s: seq<Byte>, idx: nat, v: Byte): (r: seq<Byte>)
    ensures |r| == |s|
  {
    var s2 := if idx + 2 < |s| then s[idx + 2 := v] else s;
    var s1 := if idx + 1 < |s2| then s2[idx + 1 := v] else s2;
    if idx < |s1| then s1[idx := v] else s1
  }

  /**
   * One step of drawFinderPattern, at the doubled offsets (ddx, ddy): the
   * pixel is skipped when it lies left of, right of or above the image;
   * otherwise it is painted black on the outer ring (|dx| or |dy| = 3),
   * white on the middle ring (= 2) and black inside.
   */
  function PaintCell(s: seq<Byte>, w: nat, cx: int, cy: int, ddx: int, ddy: int): (r: seq<Byte>)
    ensures |r| == |s|
  {
    var x := cx + MathRoundHalf(ddx);
    var y := cy + MathRoundHalf(ddy);
    if x < 0 || y < 0 || x >= w then s
    else
      var v: Byte := if Abs(ddx) == 6 || Abs(ddy) == 6 then 0
                     else if Abs(ddx) == 4 || Abs(ddy) == 4 then 255
                     else 0;
      SetRgb(s, (y * w + x) * 4, v)
  }

  /** The first n steps of the inner loop, ddx = -7, -5, .., 2 * n - 9. */
  function PaintRow(s: seq<Byte>, w: nat, cx: int, cy: int, ddy: int, n: nat): (r: seq<Byte>)
    ensures |r| == |s|
  {
    if n == 0 then s else PaintCell(PaintRow(s, w, cx, cy, ddy, n - 1), w, cx, cy, 2 * n - 9, ddy)
  }

  /** The first m rows of the outer loop, ddy = -7, -5, .., 2 * m - 9. */
  function PaintSquare(s: seq<Byte>, w: nat, cx: int, cy: int, m: nat): (r: seq<Byte>)
    ensures |r| == |s|
  {
    if m == 0 then s else PaintRow(PaintSquare(s, w, cx, cy, m - 1), w, cx, cy, 2 * m - 9, 8)
  }

  /** The buffer after drawFinderPattern(data, centerX, centerY, width). */
  function Drawn(s: seq<Byte>, w: nat, cx: int, cy: int): (r: seq<Byte>)
    ensures |r| == |s|
  {
    PaintSquare(s, w, cx, cy, 8)
  }

  /** drawFinderPattern(data, centerX, centerY, width), in place. */
  method DrawFinderPattern(data: array<Byte>, centerX: int, centerY: int, width: nat)
    modifies data
    ensures data[..] == Drawn(old(data[..]), width, centerX, centerY)
  {
    ghost var s := data[..];
    var ddy := -7;
    ghost var m := 0;
    while ddy <= 7
      invariant m <= 8 && ddy == 2 * m - 7
      invariant data[..] == PaintSquare(s, width, centerX, centerY, m)
    {
      DrawRow(data, centerX, centerY, width, ddy);
      ddy, m := ddy + 2, m + 1;
    }
  }

  /** The inner loop of drawFinderPattern, for the doubled row offset ddy. */
  method DrawRow(data: array<Byte>, centerX: int, centerY: int, width: nat, ddy: int)
    modifies data
    ensures data[..] == PaintRow(old(data[..]), width, centerX, centerY, ddy, 8)
  {
    ghost var s := data[..];
    var ddx := -7;
    ghost var n := 0;
    while ddx <= 7
      invariant n <= 8 && ddx == 2 * n - 7
      invariant data[..] == PaintRow(s, width, centerX, centerY, ddy, n)
    {
      DrawCell(data, centerX, centerY, width, ddx, ddy);
      ddx, n := ddx + 2, n + 1;
    }
  }

  /**
   * The body of the inner loop of drawFinderPattern: black on the outer
   * ring, white on the middle ring, black inside. A write past the end of
   * the buffer is ignored, as for a typed array. The offsets are
   * half-integers, so |dx| and |dy| are never 3 or 2 and only the last
   * branch can run (RingTestsNeverHold).
   */
  method DrawCell(data: array<Byte>, centerX: int, centerY: int, width: nat, ddx: int, ddy: int)
    modifies data
    ensures data[..] == PaintCell(old(data[..]), width, centerX, centerY, ddx, ddy)
  {
    var x := centerX + MathRoundHalf(ddx);
    var y := centerY + MathRoundHalf(ddy);
    if x < 0 || y < 0 || x >= width {
      return;
    }
    var idx := (y * width + x) * 4;
    var v: Byte;
    if Abs(ddx) == 6 || Abs(ddy) == 6 {
      v := 0;
    } else if Abs(ddx) == 4 || Abs(ddy) == 4 {
      v := 255;
    } else {
      v := 0;
    }
    if idx + 2 < data.Length {
      data[idx + 2] := v;
    }
    if idx + 1 < data.Length {
      data[idx + 1] := v;
    }
    if idx < data.Length {
      data[idx] := v;
    }
  }

  /**
   * As written, the ring tests of drawFinderPattern never hold: the loop
   * offsets are the half-integers -3.5 .. 3.5, so every painted pixel is
   * painted black, never white.
   */
  lemma RingTestsNeverHold(s: seq<Byte>, w: nat, cx: int, cy: int, ddx: int, ddy: int)
    requires ddx % 2 == 1 && ddy % 2 == 1
    ensures Abs(ddx) != 6 && Abs(ddx) != 4 && Abs(ddy) != 6 && Abs(ddy) != 4
    ensures var x, y := cx + MathRoundHalf(ddx), cy + MathRoundHalf(ddy);
      PaintCell(s, w, cx, cy, ddx, ddy)
      == if x < 0 || y < 0 || x >= w then s else SetRgb(s, (y * w + x) * 4, 0)
  {
  }

  /** The doubled offsets -7, -5, .., 7 round to the pixel offsets -3, -2, .., 4. */
  lemma RoundedOffsets(k: nat)
    requires k < 8
    ensures MathRoundHalf(2 * k - 7) == k - 3
    ensures (2 * k - 7) % 2 == 1
  {
    assert 2 * k - 7 == 2 * (k - 4) + 1;
  }

  /** Pixels y * w + x and Y * w + X of a w-wide image are the same only at the same place. */
  lemma SamePlace(w: nat, x: nat, y: nat, X: nat, Y: nat)
    requires x < w && X < w && y * w + x == Y * w + X
    ensures x == X && y == Y
  {
    RowMajorDecompose(w, x, y);
    RowMajorDecompose(w, X, Y);
  }

  lemma SetRgbAt(s: seq<Byte>, idx: nat, v: Byte, j: nat)
    requires j < |s|
    ensures SetRgb(s, idx, v)[j] == if idx <= j <= idx + 2 then v else s[j]
  {
  }

  /** SetRgb at pixel q sets R, G and B of pixel q and of no other pixel. */
  lemma SetRgbPixel(s: seq<Byte>, q: nat, v: Byte, p: nat)
    requires 4 * p + 4 <= |s|
    ensures PixelAt(SetRgb(s, 4 * q, v), p) == if p == q then PixelAt(s, p).(r := v, g := v, b := v) else PixelAt(s, p)
  {
    SetRgbAt(s, 4 * q, v, 4 * p);
    SetRgbAt(s, 4 * q, v, 4 * p + 1);
    SetRgbAt(s, 4 * q, v, 4 * p + 2);
    SetRgbAt(s, 4 * q, v, 4 * p + 3);
  }

  /** The flat index of the pixel one step of drawFinderPattern visits, if it paints one. */
  function CellTarget(w: nat, cx: int, cy: int, ddx: int, ddy: int): Option<nat> {
    var x, y := cx + MathRoundHalf(ddx), cy + MathRoundHalf(ddy);
    if x < 0 || y < 0 || x >= w then None else Some(y * w + x)
  }

  lemma PaintCellAt(s: seq<Byte>, w: nat, cx: int, cy: int, ddx: int, ddy: int, p: nat)
    requires 4 * p + 4 <= |s| && ddx % 2 == 1 && ddy % 2 == 1
    ensures PixelAt(PaintCell(s, w, cx, cy, ddx, ddy), p)
            == if CellTarget(w, cx, cy, ddx, ddy) == Some(p) then Darkened(PixelAt(s, p)) else PixelAt(s, p)
  {
    RingTestsNeverHold(s, w, cx, cy, ddx, ddy);
    if CellTarget(w, cx, cy, ddx, ddy).Some? {
      var q := CellTarget(w, cx, cy, ddx, ddy).value;
      assert q * 4 == 4 * q;
      SetRgbPixel(s, q, 0, p);
    }
  }

  /** One step of drawFinderPattern blackens the one pixel it visits, if that pixel is in the image. */
  lemma PaintCellPixel(s: seq<Byte>, w: nat, h: nat, cx: int, cy: int, ddx: int, ddy: int, x: nat, y: nat)
    requires IsImage(s, w, h) && x < w && y < h && ddx % 2 == 1 && ddy % 2 == 1
    ensures PixelXY(PaintCell(s, w, cx, cy, ddx, ddy), w, h, x, y)
            == if x == cx + MathRoundHalf(ddx) && y == cy + MathRoundHalf(ddy)
               then Darkened(PixelXY(s, w, h, x, y)) else PixelXY(s, w, h, x, y)
  {
    RowMajorBound(w, h, x, y);
    var p := y * w + x;
    PaintCellAt(s, w, cx, cy, ddx, ddy, p);
    var X, Y := cx + MathRoundHalf(ddx), cy + MathRoundHalf(ddy);
    if x == X && y == Y {
      assert CellTarget(w, cx, cy, ddx, ddy) == Some(p);
    } else if CellTarget(w, cx, cy, ddx, ddy) == Some(p) {
      SamePlace(w, x, y, X, Y);
    }
  }

  /**
   * After n steps of the inner loop for row offset ddy, the pixels
   * cx - 3 .. cx + n - 4 of row cy + round(ddy / 2) are blackened and
   * every other pixel is unchanged.
   */
  lemma {:induction false} PaintRowPixel(s: seq<Byte>, w: nat, h: nat, cx: int, cy: int, ddy: int, n: nat, x: nat, y: nat)
    requires IsImage(s, w, h) && x < w && y < h && ddy % 2 == 1 && n <= 8
    ensures PixelXY(PaintRow(s, w, cx, cy, ddy, n), w, h, x, y)
            == if y == cy + MathRoundHalf(ddy) && cx - 3 <= x < cx - 3 + n
               then Darkened(PixelXY(s, w, h, x, y)) else PixelXY(s, w, h, x, y)
  {
    if n > 0 {
      var prev := PaintRow(s, w, cx, cy, ddy, n - 1);
      PaintRowPixel(s, w, h, cx, cy, ddy, n - 1, x, y);
      RoundedOffsets(n - 1);
      assert MathRoundHalf(2 * n - 9) == n - 4;
      PaintCellPixel(prev, w, h, cx, cy, 2 * n - 9, ddy, x, y);
      assert PaintRow(s, w, cx, cy, ddy, n) == PaintCell(prev, w, cx, cy, 2 * n - 9, ddy);
    }
  }

  /** After m rows, the block of columns cx - 3 .. cx + 4 and rows cy - 3 .. cy + m - 4 is blackened. */
  lemma {:induction false} PaintSquarePixel(s: seq<Byte>, w: nat, h: nat, cx: int, cy: int, m: nat, x: nat, y: nat)
    requires IsImage(s, w, h) && x < w && y < h && m <= 8
    ensures PixelXY(PaintSquare(s, w, cx, cy, m), w, h, x, y)
            == if cy - 3 <= y < cy - 3 + m && cx - 3 <= x <= cx + 4
               then Darkened(PixelXY(s, w, h, x, y)) else PixelXY(s, w, h, x, y)
  {
    if m > 0 {
      PaintSquarePixel(s, w, h, cx, cy, m - 1, x, y);
      RoundedOffsets(m - 1);
      PaintRowPixel(PaintSquare(s, w, cx, cy, m - 1), w, h, cx, cy, 2 * m - 9, 8, x, y);
    }
  }

  /** Whether the block drawFinderPattern paints around centre c covers pixel (x, y). */
  predicate Covers(c: (int, int), x: int, y: int) {
    c.0 - 3 <= x <= c.0 + 4 && c.1 - 3 <= y <= c.1 + 4
  }

  /**
   * drawFinderPattern sets R, G and B of the 8 by 8 block of columns
   * centerX - 3 .. centerX + 4 and rows centerY - 3 .. centerY + 4 to 0,
   * as far as it lies in the image; alpha and every other pixel are
   * unchanged.
   */
  lemma DrawnAt(s: seq<Byte>, w: nat, h: nat, cx: int, cy: int, x: nat, y: nat)
    requires IsImage(s, w, h) && x < w && y < h
    ensures PixelXY(Drawn(s, w, cx, cy), w, h, x, y)
            == if Covers((cx, cy), x, y) then Darkened(PixelXY(s, w, h, x, y)) else PixelXY(s, w, h, x, y)
  {
    PaintSquarePixel(s, w, h, cx, cy, 8, x, y);
  }

  // enhanceFinderPatterns

  /**
   * The rest of the inner scan of enhanceFinderPatterns, from column x of
   * row y on: each candidate centre (tested on d) is drawn on s.
   */
  function EnhanceRow(s: seq<Byte>, d: seq<Byte>, w: nat, h: nat, y: int, x: int): (r: seq<Byte>)
    ensures |r| == |s|
    decreases w - 10 - x
  {
    if x >= w - 10 then s
    else EnhanceRow(if IsCandidate(d, w, h, x, y) then Drawn(s, w, x, y) else s, d, w, h, y, x + 3)
  }

  /** The rest of the outer scan, from row y on. */
  function EnhanceRows(s: seq<Byte>, d: seq<Byte>, w: nat, h: nat, y: int): (r: seq<Byte>)
    ensures |r| == |s|
    decreases h - 10 - y
  {
    if y >= h - 10 then s else EnhanceRows(EnhanceRow(s, d, w, h, y, 10), d, w, h, y + 3)
  }

  /** The buffer after enhanceFinderPatterns. */
  function Enhanced(s: seq<Byte>, w: nat, h: nat): (r: seq<Byte>)
    ensures |r| == |s|
  {
    EnhanceRows(s, Dilated(s, w, h), w, h, 10)
  }

  /**
   * enhanceFinderPatterns(data, width, height, colorMap): candidates are
   * tested on a dilated copy made before any drawing, and drawn on data.
   */
  method EnhanceFinderPatterns(data: array<Byte>, width: nat, height: nat)
    requires data.Length == width * height * 4
    modifies data
    ensures data[..] == Enhanced(old(data[..]), width, height)
  {
    ghost var final := Enhanced(data[..], width, height);
    var dilated := Dilate(data, width, height);
    ghost var d := dilated[..];
    var y := 10;
    while y < height - 10
      invariant dilated[..] == d
      invariant EnhanceRows(data[..], d, width, height, y) == final
      decreases height - 10 - y
    {
      var x := 10;
      while x < width - 10
        invariant dilated[..] == d
        invariant EnhanceRows(EnhanceRow(data[..], d, width, height, y, x), d, width, height, y + 3) == final
        decreases width - 10 - x
      {
        var candidate := IsFinderPatternCandidate(x, y, dilated, width, height);
        if candidate {
          DrawFinderPattern(data, x, y, width);
        }
        x := x + 3;
      }
      y := y + 3;
    }
  }

  /** Drawing a list of centres one after the other. */
  function PaintAll(s: seq<Byte>, w: nat, cs: seq<(int, int)>): (r: seq<Byte>)
    ensures |r| == |s|
    decreases |cs|
  {
    if |cs| == 0 then s else PaintAll(Drawn(s, w, cs[0].0, cs[0].1), w, cs[1..])
  }

  /** The candidate centres of row y from column x on, in scan order. */
  function RowCentres(d: seq<Byte>, w: nat, h: nat, y: int, x: int): seq<(int, int)>
    decreases w - 10 - x
  {
    if x >= w - 10 then []
    else (if IsCandidate(d, w, h, x, y) then [(x, y)] else []) + RowCentres(d, w, h, y, x + 3)
  }

  /** The candidate centres from row y on, in scan order. */
  function Centres(d: seq<Byte>, w: nat, h: nat, y: int): seq<(int, int)>
    decreases h - 10 - y
  {
    if y >= h - 10 then [] else RowCentres(d, w, h, y, 10) + Centres(d, w, h, y + 3)
  }

  lemma {:induction false} PaintAllAppend(s: seq<Byte>, w: nat, a: seq<(int, int)>, b: seq<(int, int)>)
    ensures PaintAll(s, w, a + b) == PaintAll(PaintAll(s, w, a), w, b)
    decreases |a|
  {
    if |a| > 0 {
      assert (a + b)[0] == a[0] && (a + b)[1..] == a[1..] + b;
      PaintAllAppend(Drawn(s, w, a[0].0, a[0].1), w, a[1..], b);
    } else {
      assert a + b == b;
    }
  }

  lemma {:induction false} EnhanceRowPaintsCentres(s: seq<Byte>, d: seq<Byte>, w: nat, h: nat, y: int, x: int)
    ensures EnhanceRow(s, d, w, h, y, x) == PaintAll(s, w, RowCentres(d, w, h, y, x))
    decreases w - 10 - x
  {
    if x < w - 10 {
      var s1 := if IsCandidate(d, w, h, x, y) then Drawn(s, w, x, y) else s;
      EnhanceRowPaintsCentres(s1, d, w, h, y, x + 3);
      var first: seq<(int, int)> := if IsCandidate(d, w, h, x, y) then [(x, y)] else [];
      PaintAllAppend(s, w, first, RowCentres(d, w, h, y, x + 3));
      if IsCandidate(d, w, h, x, y) {
        assert PaintAll(s, w, first) == PaintAll(s1, w, []);
      }
    }
  }

  lemma {:induction false} EnhanceRowsPaintCentres(s: seq<Byte>, d: seq<Byte>, w: nat, h: nat, y: int)
    ensures EnhanceRows(s, d, w, h, y) == PaintAll(s, w, Centres(d, w, h, y))
    decreases h - 10 - y
  {
    if y < h - 10 {
      EnhanceRowPaintsCentres(s, d, w, h, y, 10);
      EnhanceRowsPaintCentres(EnhanceRow(s, d, w, h, y, 10), d, w, h, y + 3);
      PaintAllAppend(s, w, RowCentres(d, w, h, y, 10), Centres(d, w, h, y + 3));
    }
  }

  /**
   * enhanceFinderPatterns draws exactly the candidate centres of the
   * dilated original, in scan order: which centres are drawn is fixed
   * before anything is drawn.
   */
  lemma EnhanceDrawsCentres(s: seq<Byte>, w: nat, h: nat)
    ensures Enhanced(s, w, h) == PaintAll(s, w, Centres(Dilated(s, w, h), w, h, 10))
  {
    EnhanceRowsPaintCentres(s, Dilated(s, w, h), w, h, 10);
  }

  /** A centre on the scan grid: x = 10, 13, .. below w - 10, and likewise y from y0. */
  predicate OnGrid(c: (int, int), w: nat, h: nat, y0: int) {
    10 <= c.0 < w - 10 && (c.0 - 10) % 3 == 0 && y0 <= c.1 < h - 10 && (c.1 - y0) % 3 == 0
  }

  lemma {:induction false} RowCentresOnGrid(d: seq<Byte>, w: nat, h: nat, y: int, x: int)
    requires 10 <= x && (x - 10) % 3 == 0
    ensures forall c :: c in RowCentres(d, w, h, y, x) ==>
      x <= c.0 < w - 10 && (c.0 - 10) % 3 == 0 && c.1 == y && IsCandidate(d, w, h, c.0, c.1)
    decreases w - 10 - x
  {
    if x < w - 10 {
      RowCentresOnGrid(d, w, h, y, x + 3);
    }
  }

  lemma {:induction false} CentresOnGrid(d: seq<Byte>, w: nat, h: nat, y: int)
    requires 10 <= y
    ensures forall c :: c in Centres(d, w, h, y) ==> OnGrid(c, w, h, y) && IsCandidate(d, w, h, c.0, c.1)
    decreases h - 10 - y
  {
    if y < h - 10 {
      RowCentresOnGrid(d, w, h, y, 10);
      CentresOnGrid(d, w, h, y + 3);
      forall c | c in Centres(d, w, h, y) ensures OnGrid(c, w, h, y) && IsCandidate(d, w, h, c.0, c.1) {
        if c !in RowCentres(d, w, h, y, 10) {
          assert c in Centres(d, w, h, y + 3);
          GridStep(c.1, y);
        }
      }
    }
  }

  lemma GridStep(a: int, y: int)
    requires (a - (y + 3)) % 3 == 0
    ensures (a - y) % 3 == 0
  {
  }

  /**
   * Every centre enhanceFinderPatterns draws lies on the grid 10, 13, ..
   * below size - 10 in both directions, its whole 7 by 7 window lies in the
   * image, and at least 35 of the 49 cells of that window in the dilated
   * copy match the template.
   */
  lemma DrawnCentres(s: seq<Byte>, w: nat, h: nat)
    ensures var d := Dilated(s, w, h);
      forall c :: c in Centres(d, w, h, 10) ==>
        OnGrid(c, w, h, 10)
        && WindowCounts(d, w, h, c.0, c.1, 7).total == 49
        && WindowCounts(d, w, h, c.0, c.1, 7).matches >= 35
  {
    var d := Dilated(s, w, h);
    CentresOnGrid(d, w, h, 10);
    forall c | c in Centres(d, w, h, 10)
      ensures WindowCounts(d, w, h, c.0, c.1, 7).total == 49
      ensures WindowCounts(d, w, h, c.0, c.1, 7).matches >= 35
    {
      FullWindow(d, w, h, c.0, c.1);
    }
  }

  /** Drawing a list of centres blackens exactly the pixels some of their blocks cover. */
  lemma {:induction false} PaintAllPixel(s: seq<Byte>, w: nat, h: nat, cs: seq<(int, int)>, x: nat, y: nat)
    requires IsImage(s, w, h) && x < w && y < h
    ensures PixelXY(PaintAll(s, w, cs), w, h, x, y)
            == if exists i :: 0 <= i < |cs| && Covers(cs[i], x, y)
               then Darkened(PixelXY(s, w, h, x, y)) else PixelXY(s, w, h, x, y)
    decreases |cs|
  {
    if |cs| > 0 {
      var s1 := Drawn(s, w, cs[0].0, cs[0].1);
      DrawnAt(s, w, h, cs[0].0, cs[0].1, x, y);
      PaintAllPixel(s1, w, h, cs[1..], x, y);
      if exists i :: 0 <= i < |cs[1..]| && Covers(cs[1..][i], x, y) {
        var i :| 0 <= i < |cs[1..]| && Covers(cs[1..][i], x, y);
        assert Covers(cs[i + 1], x, y);
      }
      if exists i :: 0 <= i < |cs| && Covers(cs[i], x, y) {
        var i :| 0 <= i < |cs| && Covers(cs[i], x, y);
        if i > 0 {
          assert Covers(cs[1..][i - 1], x, y);
        }
      }
    }
  }

  /**
   * After enhanceFinderPatterns a pixel has R, G and B set to 0 when the
   * block of some drawn centre covers it, and is unchanged otherwise; alpha
   * is never changed.
   */
  lemma EnhancedAt(s: seq<Byte>, w: nat, h: nat, x: nat, y: nat)
    requires IsImage(s, w, h) && x < w && y < h
    ensures var cs := Centres(Dilated(s, w, h), w, h, 10);
      PixelXY(Enhanced(s, w, h), w, h, x, y)
      == if exists i :: 0 <= i < |cs| && Covers(cs[i], x, y)
         then Darkened(PixelXY(s, w, h, x, y)) else PixelXY(s, w, h, x, y)
  {
    EnhanceDrawsCentres(s, w, h);
    PaintAllPixel(s, w, h, Centres(Dilated(s, w, h), w, h, 10), x, y);
  }
}
