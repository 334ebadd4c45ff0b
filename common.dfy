/**
 * js/common.js: the helpers shared by the generator and the reader.
 * hexToRgb and splitDataForChannels are pure; colorizeQR recolours a
 * canvas buffer in place; extractChannel fills a fresh buffer with one
 * colour channel of a source image, resampled to the target size.
 */
module Common {
  import opened Js
  import opened Bitmap

  datatype Rgb = Rgb(r: Byte, g: Byte, b: Byte)

  /** CSS hex notation #RRGGBB (CSS Color Module Level 4, section 5.2). */
  predicate IsHexColor(s: string) {
    |s| == 7 && s[0] == '#' && AllHexDigits(s[1..])
  }

  /**
   * hexToRgb: parseInt(hex.slice(1), 16), then (n >> 16) & 255,
   * (n >> 8) & 255 and n & 255. The shifts act on ToInt32(n); an
   * arithmetic right shift by k is floor division by 2^k, and & 255 keeps
   * the non-negative remainder modulo 256.
   */
  function HexToRgb(hex: string): Rgb {
    var n := ToInt32(ParseIntHex(SliceFrom(hex, 1)));
    Rgb((n / 0x1_0000) % 256, (n / 0x100) % 256, n % 256)
  }

  /** On #RRGGBB the three components repack into the 24-bit number parsed. */
  lemma HexToRgbPacks(hex: string)
    requires IsHexColor(hex)
    ensures var c := HexToRgb(hex);
      c.r * 65536 + c.g * 256 + c.b == HexValue(hex[1..])
  {
    ColorDigits(hex);
    HexToRgbPairs(hex);
  }

  /** On #RRGGBB the components are the values of the digit pairs RR, GG, BB. */
  lemma HexToRgbPairs(hex: string)
    requires IsHexColor(hex)
    ensures AllHexDigits(hex[1..3]) && AllHexDigits(hex[3..5]) && AllHexDigits(hex[5..7])
    ensures HexToRgb(hex) == Rgb(HexValue(hex[1..3]), HexValue(hex[3..5]), HexValue(hex[5..7]))
  {
    ColorDigits(hex);
    var d := hex[1..];
    ParseIntHexOfDigits(d);
    var rr, gg, bb := HexValue(hex[1..3]), HexValue(hex[3..5]), HexValue(hex[5..7]);
    assert Pow16(2) == 256;
    var n := HexValue(d);
    assert SliceFrom(hex, 1) == d;
    assert ToInt32(ParseIntHex(SliceFrom(hex, 1))) == n;
    ByteFields(n, rr, gg, bb);
  }

  /** The digits of #RRGGBB, and the number they denote, pair by pair. */
  lemma ColorDigits(hex: string)
    requires IsHexColor(hex)
    ensures AllHexDigits(hex[1..3]) && AllHexDigits(hex[3..5]) && AllHexDigits(hex[5..7])
    ensures HexValue(hex[1..]) == HexValue(hex[1..3]) * 65536 + HexValue(hex[3..5]) * 256 + HexValue(hex[5..7])
  {
    var d := hex[1..];
    HexValueSix(d);
    assert d[..2] == hex[1..3] && d[2..4] == hex[3..5] && d[4..] == hex[5..7];
  }

  lemma ByteFields(n: int, rr: int, gg: int, bb: int)
    requires 0 <= rr < 256 && 0 <= gg < 256 && 0 <= bb < 256
    requires n == rr * 65536 + gg * 256 + bb
    ensures (n / 0x1_0000) % 256 == rr && (n / 0x100) % 256 == gg && n % 256 == bb
  {
    assert n / 0x1_0000 == rr;
    assert n / 0x100 == rr * 256 + gg;
  }

  /** Math.ceil(n / 3) for a string of n code units. */
  function CeilThird(n: nat): (p: nat)
    ensures n <= 3 * p < n + 3
    ensures p <= n
  {
    (n + 2) / 3
  }

  /**
   * splitDataForChannels: three contiguous parts cut at ceil(L/3) and
   * 2 * ceil(L/3), the last one taking what is left.
   */
  function SplitDataForChannels(data: JsString): (parts: seq<JsString>)
    ensures |parts| == 3
    ensures parts[0] + parts[1] + parts[2] == data
    ensures |parts[0]| == CeilThird(|data|)
    ensures |parts[1]| == Min(CeilThird(|data|), |data| - CeilThird(|data|))
    ensures |parts[2]| == |data| - |parts[0]| - |parts[1]|
  {
    var partSize := CeilThird(|data|);
    var cut := Min(partSize * 2, |data|);
    assert Substring(data, partSize, partSize * 2) == data[partSize..cut];
    assert SubstringFrom(data, partSize * 2) == data[cut..];
    assert data[..partSize] + data[partSize..cut] + data[cut..] == data;
    [Substring(data, 0, partSize), Substring(data, partSize, partSize * 2), SubstringFrom(data, partSize * 2)]
  }

  /**
   * The parts are "approximately equal": their lengths never increase
   * from one part to the next and differ by at most two.
   */
  lemma SplitBalanced(data: JsString)
    ensures var parts := SplitDataForChannels(data);
      |parts[0]| >= |parts[1]| >= |parts[2]| && |parts[0]| - |parts[2]| <= 2
      && (|parts[1]| == |parts[0]| || (|data| == 1 && parts[1] == []))
  {
  }

  /**
   * The cuts are counted in UTF-16 code units, so they can fall inside a
   * surrogate pair: a character outside the Basic Multilingual Plane
   * followed by one letter is three code units, one per channel, and the
   * red and green parts each get half of the pair.
   */
  lemma SplitCutsSurrogatePair()
    ensures Utf16("\U{1F600}a") == [0xD83D, 0xDE00, 0x61]
    ensures SplitDataForChannels(Utf16("\U{1F600}a")) == [[0xD83D], [0xDE00], [0x61]]
  {
    var s := "\U{1F600}a";
    assert s[..1][..0] == [];
    assert Utf16(s[..1]) == [0xD83D, 0xDE00];
    var u: JsString := [0xD83D, 0xDE00, 0x61];
    assert CeilThird(|u|) == 1;
    assert Substring(u, 0, 1) == [0xD83D];
    assert Substring(u, 1, 2) == [0xDE00];
    assert SubstringFrom(u, 2) == [0x61];
  }

  // colorizeQR (exact-black variant)

  /** Exact black becomes the opaque colour; every other pixel turns transparent. */
  function ExactBlackPixel(c: Rgb, px: Pixel): Pixel {
    if px.r == 0 && px.g == 0 && px.b == 0 then Pixel(c.r, c.g, c.b, 255)
    else px.(a := 0)
  }

  function ExactBlackRule(c: Rgb): Pixel -> Pixel {
    px => ExactBlackPixel(c, px)
  }

  /** colorizeQR of js/common.js, on the buffer read back from the temp canvas. */
  method ColorizeQR(data: array<Byte>, color: string)
    requires data.Length % 4 == 0
    modifies data
    ensures data[..] == MapPixels(old(data[..]), ExactBlackRule(HexToRgb(color)))
  {
    var rgb := HexToRgb(color);
    ColorizePixels(data, rgb);
  }

  /** The loop of colorizeQR, once hexToRgb has given r, g and b. */
  method ColorizePixels(data: array<Byte>, rgb: Rgb)
    requires data.Length % 4 == 0
    modifies data
    ensures data[..] == MapPixels(old(data[..]), ExactBlackRule(rgb))
  {
    ghost var s := data[..];
    ghost var t := MapPixels(s, ExactBlackRule(rgb));
    var i := 0;
    ghost var p := 0;
    while i < data.Length
      invariant i == 4 * p <= data.Length
      invariant forall j :: 0 <= j < i ==> data[j] == t[j]
      invariant forall j :: i <= j < data.Length ==> data[j] == s[j]
    {
      MapPixelsAt(s, ExactBlackRule(rgb), p);
      if data[i] == 0 && data[i + 1] == 0 && data[i + 2] == 0 {
        data[i] := rgb.r;
        data[i + 1] := rgb.g;
        data[i + 2] := rgb.b;
        data[i + 3] := 255;
      } else {
        data[i + 3] := 0;
      }
      i, p := i + 4, p + 1;
    }
    assert data[..] == t;
  }

  /**
   * After colorizeQR every exact-black pixel is the opaque colour and every
   * other pixel keeps its R, G, B with alpha 0: the result is two-tone.
   */
  lemma ColorizeQRAt(s: seq<Byte>, color: string, p: nat)
    requires |s| % 4 == 0 && 4 * p + 4 <= |s|
    ensures var c, px, q := HexToRgb(color), PixelAt(s, p), PixelAt(MapPixels(s, ExactBlackRule(HexToRgb(color))), p);
      (px.r == 0 && px.g == 0 && px.b == 0 ==> q == Pixel(c.r, c.g, c.b, 255))
      && (!(px.r == 0 && px.g == 0 && px.b == 0) ==> q.r == px.r && q.g == px.g && q.b == px.b && q.a == 0)
  {
    MapPixelsAt(s, ExactBlackRule(HexToRgb(color)), p);
  }

  // extractChannel

  /**
   * sourceData[i] as stored into the channel buffer: an index past the end
   * reads undefined, which a Uint8ClampedArray stores as 0.
   */
  function SourceValue(src: seq<Byte>, i: int): Byte {
    if 0 <= i < |src| then src[i] else ToUint8Clamped(None)
  }

  /**
   * The source sample for target pixel (x, y): both coordinates are scaled
   * by sourceWidth / targetWidth and rounded down. A target of width 0 has
   * no pixels, so the value given for it is never used.
   */
  function Sample(src: seq<Byte>, c: nat, sw: nat, tw: nat, x: nat, y: nat): Byte {
    if tw == 0 then 0
    else
      var sx: int := (x * sw) / tw;
      var sy: int := (y * sw) / tw;
      SourceValue(src, (sy * sw + sx) * 4 + c)
  }

  /** The pixel extractChannel puts at target (x, y). */
  function SampleRule(src: seq<Byte>, c: nat, sw: nat, tw: nat): (nat, nat) -> Pixel {
    (x: nat, y: nat) => Gray(Sample(src, c, sw, tw, x, y))
  }

  /** The extracted channel image: tw by rows gray pixels. */
  function Sampled(src: seq<Byte>, c: nat, sw: nat, tw: nat, rows: nat): (t: seq<Byte>)
    ensures |t| == tw * rows * 4
  {
    ImageOf(SampleRule(src, c, sw, tw), tw, rows)
  }

  /**
   * extractChannel: the pixel data it puts on the target canvas, a
   * targetWidth-by-targetHeight gray image. sourceHeight is not used, as in
   * the source.
   */
  method ExtractChannel(sourceData: array<Byte>, channelIndex: nat, sourceWidth: nat, sourceHeight: nat,
                        targetWidth: nat, targetHeight: nat)
    returns (channelData: array<Byte>)
    ensures fresh(channelData)
    ensures channelData[..] == Sampled(sourceData[..], channelIndex, sourceWidth, targetWidth, targetHeight)
    ensures forall x, y :: 0 <= x < targetWidth && 0 <= y < targetHeight ==>
      PixelXY(channelData[..], targetWidth, targetHeight, x, y)
      == Gray(Sample(sourceData[..], channelIndex, sourceWidth, targetWidth, x, y))
  {
    ghost var t := Sampled(sourceData[..], channelIndex, sourceWidth, targetWidth, targetHeight);
    channelData := new Byte[targetWidth * targetHeight * 4];
    var y := 0;
    while y < targetHeight
      invariant 0 <= y <= targetHeight
      invariant 4 * (y * targetWidth) <= channelData.Length
      invariant forall j :: 0 <= j < 4 * (y * targetWidth) ==> channelData[j] == t[j]
    {
      RowEnd(targetWidth, targetHeight, y);
      ExtractRow(sourceData, channelData, channelIndex, sourceWidth, targetWidth, targetHeight, y, y * targetWidth, t);
      y := y + 1;
    }
    assert channelData[..] == t;
    forall x: nat, y: nat | x < targetWidth && y < targetHeight
      ensures PixelXY(channelData[..], targetWidth, targetHeight, x, y)
              == Gray(Sample(sourceData[..], channelIndex, sourceWidth, targetWidth, x, y))
    {
      SampledAt(sourceData[..], channelIndex, sourceWidth, targetWidth, targetHeight, x, y);
    }
  }

  /** The inner loop of extractChannel: row y of the target, which starts at pixel rowStart. */
  method ExtractRow(sourceData: array<Byte>, channelData: array<Byte>, channelIndex: nat, sourceWidth: nat,
                    targetWidth: nat, targetHeight: nat, y: nat, ghost rowStart: nat, ghost t: seq<Byte>)
    requires sourceData != channelData
    requires y < targetHeight && rowStart == y * targetWidth
    requires channelData.Length == |t| && 4 * (rowStart + targetWidth) <= |t|
    requires t == Sampled(sourceData[..], channelIndex, sourceWidth, targetWidth, targetHeight)
    requires forall j :: 0 <= j < 4 * rowStart ==> channelData[j] == t[j]
    modifies channelData
    ensures forall j :: 0 <= j < 4 * (rowStart + targetWidth) ==> channelData[j] == t[j]
  {
    var x := 0;
    while x < targetWidth
      invariant 0 <= x <= targetWidth
      invariant forall j :: 0 <= j < 4 * (rowStart + x) ==> channelData[j] == t[j]
    {
      SampledAt(sourceData[..], channelIndex, sourceWidth, targetWidth, targetHeight, x, y);
      var value := ReadSample(sourceData, channelIndex, sourceWidth, targetWidth, x, y);
      var targetIndex := (y * targetWidth + x) * 4;
      channelData[targetIndex] := value;
      channelData[targetIndex + 1] := value;
      channelData[targetIndex + 2] := value;
      channelData[targetIndex + 3] := 255;
      x := x + 1;
    }
  }

  /** The channel value extractChannel reads for target pixel (x, y). */
  method ReadSample(sourceData: array<Byte>, channelIndex: nat, sourceWidth: nat, targetWidth: nat, x: nat, y: nat)
    returns (value: Byte)
    requires targetWidth > 0
    ensures value == Sample(sourceData[..], channelIndex, sourceWidth, targetWidth, x, y)
  {
    var sourceX := (x * sourceWidth) / targetWidth;
    var sourceY := (y * sourceWidth) / targetWidth;
    var sourceIndex := (sourceY * sourceWidth + sourceX) * 4;
    var k := sourceIndex + channelIndex;
    value := if 0 <= k < sourceData.Length then sourceData[k] else ToUint8Clamped(None);
  }

  /** Target pixel (x, y) of the extracted image is the gray of its source sample. */
  lemma SampledAt(src: seq<Byte>, c: nat, sw: nat, tw: nat, rows: nat, x: nat, y: nat)
    requires x < tw && y < rows
    ensures PixelXY(Sampled(src, c, sw, tw, rows), tw, rows, x, y) == Gray(Sample(src, c, sw, tw, x, y))
  {
    ImageOfAt(SampleRule(src, c, sw, tw), tw, rows, x, y);
  }

  /**
   * When the target is as wide as the source there is no resampling: every
   * target pixel is the plain projection of channelIndex at the same place.
   */
  lemma SameWidthProjects(src: seq<Byte>, c: nat, w: nat, rows: nat, x: nat, y: nat)
    requires x < w && y < rows
    ensures PixelXY(Sampled(src, c, w, w, rows), w, rows, x, y) == Gray(SourceValue(src, (y * w + x) * 4 + c))
  {
    SampledAt(src, c, w, w, rows, x, y);
    RowMajorDecompose(w, 0, x);
    RowMajorDecompose(w, 0, y);
  }
}
