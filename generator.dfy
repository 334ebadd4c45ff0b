/**
 * js/generator.js: the generator's own colorizeQR (a threshold at 128
 * instead of exact black, alpha left alone), the three-way split of the
 * input in generateCQR, and the single-channel preview it draws for each
 * part.
 */
module Generator {
  import opened Js
  import opened Bitmap
  import opened Common

  // colorizeQR (threshold variant)

  /** parseInt(color.slice(a, b), 16) as stored into a Uint8ClampedArray. */
  function ParsedComponent(color: string, a: int, b: int): Byte {
    ToUint8Clamped(ParseIntHex(Slice(color, a, b)))
  }

  /** The colour the generator's colorizeQR paints: each pair of digits parsed on its own. */
  function SliceColor(color: string): Rgb {
    Rgb(ParsedComponent(color, 1, 3), ParsedComponent(color, 3, 5), ParsedComponent(color, 5, 7))
  }

  /** The generator's notion of a dark (foreground) pixel. */
  predicate IsDark(px: Pixel) {
    px.r < 128 && px.g < 128 && px.b < 128
  }

  /** A dark pixel takes the colour and keeps its alpha; any other pixel is left alone. */
  function DarkPixel(c: Rgb, px: Pixel): Pixel {
    if IsDark(px) then Pixel(c.r, c.g, c.b, px.a) else px
  }

  function DarkRule(c: Rgb): Pixel -> Pixel {
    px => DarkPixel(c, px)
  }

  /**
   * colorizeQR of js/generator.js, on the buffer read back from the new
   * canvas. The source parses the three digit pairs again for every dark
   * pixel; parsing is pure, so here it happens once, before the loop.
   */
  method ColorizeQR(data: array<Byte>, color: string)
    requires data.Length % 4 == 0
    modifies data
    ensures data[..] == MapPixels(old(data[..]), DarkRule(SliceColor(color)))
  {
    var r := ParsedComponent(color, 1, 3);
    var g := ParsedComponent(color, 3, 5);
    var b := ParsedComponent(color, 5, 7);
    ColorizeDark(data, Rgb(r, g, b));
  }

  /** The loop of the generator's colorizeQR, painting with the parsed colour c. */
  method ColorizeDark(data: array<Byte>, c: Rgb)
    requires data.Length % 4 == 0
    modifies data
    ensures data[..] == MapPixels(old(data[..]), DarkRule(c))
  {
    ghost var s := data[..];
    ghost var t := MapPixels(s, DarkRule(c));
    var i := 0;
    ghost var p := 0;
    while i < data.Length
      invariant i == 4 * p <= data.Length
      invariant forall j :: 0 <= j < i ==> data[j] == t[j]
      invariant forall j :: i <= j < data.Length ==> data[j] == s[j]
    {
      MapPixelsAt(s, DarkRule(c), p);
      if data[i] < 128 && data[i + 1] < 128 && data[i + 2] < 128 {
        data[i] := c.r;
        data[i + 1] := c.g;
        data[i + 2] := c.b;
      }
      i, p := i + 4, p + 1;
    }
    assert data[..] == t;
  }

  /**
   * After the generator's colorizeQR a dark pixel holds the three parsed
   * digit pairs and its own alpha; every other pixel is unchanged.
   */
  lemma ColorizeQRAt(s: seq<Byte>, color: string, p: nat)
    requires |s| % 4 == 0 && 4 * p + 4 <= |s|
    ensures var px, q := PixelAt(s, p), PixelAt(MapPixels(s, DarkRule(SliceColor(color))), p);
      (px.r < 128 && px.g < 128 && px.b < 128 ==>
         q == Pixel(ParsedComponent(color, 1, 3), ParsedComponent(color, 3, 5), ParsedComponent(color, 5, 7), px.a))
      && (!(px.r < 128 && px.g < 128 && px.b < 128) ==> q == px)
  {
    MapPixelsAt(s, DarkRule(SliceColor(color)), p);
  }

  /** On #RRGGBB the generator parses the same colour as hexToRgb. */
  lemma SliceColorIsHexToRgb(color: string)
    requires IsHexColor(color)
    ensures SliceColor(color) == HexToRgb(color)
  {
    HexToRgbPairs(color);
    PairParses(color, 1);
    PairParses(color, 3);
    PairParses(color, 5);
  }

  /** One digit pair of #RRGGBB parses to the value it denotes, which is a byte. */
  lemma PairParses(color: string, a: nat)
    requires a + 2 <= |color| && AllHexDigits(color[a..a + 2])
    ensures HexValue(color[a..a + 2]) < 256
    ensures ParsedComponent(color, a, a + 2) == HexValue(color[a..a + 2])
  {
    var d := color[a..a + 2];
    ParseIntHexOfDigits(d);
    assert Pow16(2) == 256;
  }

  /**
   * Colouring twice with the same colour changes nothing more: a pixel
   * that was coloured is either still dark (and coloured again with the
   * same values) or no longer dark.
   */
  lemma ColorizeIdempotent(s: seq<Byte>, c: Rgb)
    requires |s| % 4 == 0
    ensures MapPixels(MapPixels(s, DarkRule(c)), DarkRule(c)) == MapPixels(s, DarkRule(c))
  {
    forall p: nat | 4 * p + 4 <= |s|
      ensures DarkRule(c)(DarkRule(c)(PixelAt(s, p))) == DarkRule(c)(PixelAt(s, p))
    {
    }
    MapPixelsAbsorb(s, DarkRule(c), DarkRule(c));
  }

  /**
   * On an opaque exact-black pixel the two colorizers agree; on an opaque
   * light pixel the generator's keeps it visible where the shared one
   * makes it transparent.
   */
  lemma ColorizersOnOpaquePixels(color: string, px: Pixel)
    requires IsHexColor(color) && px.a == 255
    ensures px.r == 0 && px.g == 0 && px.b == 0 ==>
      DarkPixel(SliceColor(color), px) == ExactBlackPixel(HexToRgb(color), px)
    ensures !IsDark(px) ==> DarkPixel(SliceColor(color), px).a == 255 && ExactBlackPixel(HexToRgb(color), px).a == 0
  {
    SliceColorIsHexToRgb(color);
  }

  /** The channel colours of generateCQR, one per part. */
  const ChannelColors: seq<string> := ["#ff0000", "#00ff00", "#0000ff"]

  /** The pure colour of channel k: 255 in component k, 0 in the other two. */
  function PureColor(k: nat): Rgb
    requires k < 3
  {
    if k == 0 then Rgb(255, 0, 0) else if k == 1 then Rgb(0, 255, 0) else Rgb(0, 0, 255)
  }

  /** A colour written as "#" and three digit pairs: both colorizers read the three pairs. */
  lemma ColorOfPairs(rr: string, gg: string, bb: string)
    requires |rr| == 2 && |gg| == 2 && |bb| == 2
    requires AllHexDigits(rr) && AllHexDigits(gg) && AllHexDigits(bb)
    ensures IsHexColor("#" + rr + gg + bb)
    ensures SliceColor("#" + rr + gg + bb) == Rgb(HexValue(rr), HexValue(gg), HexValue(bb))
    ensures HexToRgb("#" + rr + gg + bb) == Rgb(HexValue(rr), HexValue(gg), HexValue(bb))
  {
    var color := "#" + rr + gg + bb;
    PairSlices(color, rr, gg, bb);
    SliceColorIsHexToRgb(color);
    HexToRgbPairs(color);
  }

  lemma PairSlices(color: string, rr: string, gg: string, bb: string)
    requires |rr| == 2 && |gg| == 2 && |bb| == 2 && color == "#" + rr + gg + bb
    requires AllHexDigits(rr) && AllHexDigits(gg) && AllHexDigits(bb)
    ensures color[1..3] == rr && color[3..5] == gg && color[5..7] == bb
    ensures IsHexColor(color)
  {
    var d := rr + gg + bb;
    assert color == "#" + d;
    assert color[1..] == d;
    assert forall i :: 0 <= i < 2 ==> d[i] == rr[i] && d[i + 2] == gg[i] && d[i + 4] == bb[i];
    assert color[1..3] == rr && color[3..5] == gg && color[5..7] == bb;
  }

  /** Each channel colour parses, by either colorizer, to the pure colour of its channel. */
  lemma ChannelColorsArePure(k: nat)
    requires k < 3
    ensures IsHexColor(ChannelColors[k])
    ensures SliceColor(ChannelColors[k]) == PureColor(k)
    ensures HexToRgb(ChannelColors[k]) == PureColor(k)
  {
    if k == 0 {
      RedIsPure();
    } else if k == 1 {
      GreenIsPure();
    } else {
      BlueIsPure();
    }
  }

  lemma RedIsPure()
    ensures IsHexColor(ChannelColors[0]) && SliceColor(ChannelColors[0]) == PureColor(0) && HexToRgb(ChannelColors[0]) == PureColor(0)
  {
    HexValuePair("ff");
    HexValuePair("00");
    assert ChannelColors[0] == "#" + "ff" + "00" + "00";
    ColorOfPairs("ff", "00", "00");
  }

  lemma GreenIsPure()
    ensures IsHexColor(ChannelColors[1]) && SliceColor(ChannelColors[1]) == PureColor(1) && HexToRgb(ChannelColors[1]) == PureColor(1)
  {
    HexValuePair("ff");
    HexValuePair("00");
    assert ChannelColors[1] == "#" + "00" + "ff" + "00";
    ColorOfPairs("00", "ff", "00");
  }

  lemma BlueIsPure()
    ensures IsHexColor(ChannelColors[2]) && SliceColor(ChannelColors[2]) == PureColor(2) && HexToRgb(ChannelColors[2]) == PureColor(2)
  {
    HexValuePair("ff");
    HexValuePair("00");
    assert ChannelColors[2] == "#" + "00" + "00" + "ff";
    ColorOfPairs("00", "00", "ff");
  }

  /**
   * After colouring part k with its channel colour, a dark pixel carries
   * 255 exactly in component k and 0 in the other two, with its alpha
   * kept; a light pixel is untouched.
   */
  lemma ColorizedPartPixel(k: nat, px: Pixel)
    requires k < 3
    ensures var q := DarkPixel(SliceColor(ChannelColors[k]), px);
      (IsDark(px) ==>
         q.a == px.a && Component(q, k) == 255 && forall c :: 0 <= c < 3 && c != k ==> Component(q, c) == 0)
      && (!IsDark(px) ==> q == px)
  {
    ChannelColorsArePure(k);
  }

  // The split in generateCQR

  /**
   * generateCQR's split: empty input stops with an alert (None); otherwise
   * three parts cut at ceil(L / 3) and twice that.
   */
  function GenerateParts(inputData: JsString): (parts: Option<seq<JsString>>)
    ensures parts.None? <==> inputData == []
  {
    if inputData == [] then None
    else
      var partLength := (|inputData| + 2) / 3;
      Some([Substring(inputData, 0, partLength),
            Substring(inputData, partLength, partLength * 2),
            SubstringFrom(inputData, partLength * 2)])
  }

  /**
   * The generator's inline split is splitDataForChannels of js/common.js,
   * so the three parts concatenate back to the input.
   */
  lemma GeneratePartsIsSplit(inputData: JsString)
    requires inputData != []
    ensures GenerateParts(inputData) == Some(SplitDataForChannels(inputData))
    ensures var parts := GenerateParts(inputData).value;
      |parts| == 3 && parts[0] + parts[1] + parts[2] == inputData
  {
  }

  // The channel preview of generateCQR

  /**
   * One preview pixel: the channel of the part shows 0 where the base
   * code is dark (R below 128) and 255 elsewhere; the other two channels
   * are 0; alpha is 255. An index other than 0 and 1 draws blue.
   */
  function ChannelViewPixel(index: nat, px: Pixel): Pixel {
    var v: Byte := if px.r < 128 then 0 else 255;
    if index == 0 then Pixel(v, 0, 0, 255)
    else if index == 1 then Pixel(0, v, 0, 255)
    else Pixel(0, 0, v, 255)
  }

  function ChannelViewRule(index: nat): Pixel -> Pixel {
    px => ChannelViewPixel(index, px)
  }

  /** The channel a preview index draws in. */
  function ViewChannel(index: nat): (c: nat)
    ensures c < 3
  {
    if index < 2 then index else 2
  }

  /** The preview loop of generateCQR, into a fresh buffer the size of the base code's. */
  method ChannelView(baseData: array<Byte>, index: nat) returns (channelImg: array<Byte>)
    requires baseData.Length % 4 == 0
    ensures fresh(channelImg)
    ensures channelImg[..] == MapPixels(baseData[..], ChannelViewRule(index))
  {
    ghost var t := MapPixels(baseData[..], ChannelViewRule(index));
    channelImg := new Byte[baseData.Length];
    var i := 0;
    ghost var p := 0;
    while i < baseData.Length
      invariant i == 4 * p <= baseData.Length
      invariant forall j :: 0 <= j < i ==> channelImg[j] == t[j]
    {
      MapPixelsAt(baseData[..], ChannelViewRule(index), p);
      var isBlack := baseData[i] < 128;
      if index == 0 {
        channelImg[i] := if isBlack then 0 else 255;
        channelImg[i + 1] := 0;
        channelImg[i + 2] := 0;
      } else if index == 1 {
        channelImg[i] := 0;
        channelImg[i + 1] := if isBlack then 0 else 255;
        channelImg[i + 2] := 0;
      } else {
        channelImg[i] := 0;
        channelImg[i + 1] := 0;
        channelImg[i + 2] := if isBlack then 0 else 255;
      }
      channelImg[i + 3] := 255;
      i, p := i + 4, p + 1;
    }
    assert channelImg[..] == t;
  }

  /**
   * Every preview pixel is opaque, is 0 outside its channel, and in its
   * channel is 0 exactly when the base pixel's red is below 128.
   */
  lemma ChannelViewAt(s: seq<Byte>, index: nat, p: nat)
    requires |s| % 4 == 0 && 4 * p + 4 <= |s|
    ensures var q := PixelAt(MapPixels(s, ChannelViewRule(index)), p);
      q.a == 255
      && (Component(q, ViewChannel(index)) == 0 <==> PixelAt(s, p).r < 128)
      && Component(q, ViewChannel(index)) in {0, 255}
      && forall c :: 0 <= c < 3 && c != ViewChannel(index) ==> Component(q, c) == 0
  {
    MapPixelsAt(s, ChannelViewRule(index), p);
  }
}
