/**
 * js/reader.js, decoding side: the fixed-threshold binarization of one
 * colour channel (extractAndProcessChannel) and the loop of
 * processCQRImage that decodes the three channel images and joins what
 * they hold. The QR decoder itself is a parameter.
 */
module Reader {
  import opened Js
  import opened Bitmap

  // extractAndProcessChannel

  /** The threshold of extractAndProcessChannel. */
  const Threshold: Byte := 128

  /** Component c of the input decides black (below the threshold) or white. */
  function BinarizePixel(c: nat, px: Pixel): Pixel
    requires c < 4
  {
    Gray(if Component(px, c) < Threshold then 0 else 255)
  }

  function BinarizeRule(c: nat): Pixel -> Pixel
    requires c < 4
  {
    px => BinarizePixel(c, px)
  }

  /** The buffer extractAndProcessChannel returns for channel c of s. */
  function Binarized(s: seq<Byte>, c: nat): (t: seq<Byte>)
    requires |s| % 4 == 0 && c < 4
    ensures |t| == |s|
  {
    MapPixels(s, BinarizeRule(c))
  }

  /** The number of pixels among the first n of s whose component c is below the threshold. */
  function DarkCount(s: seq<Byte>, c: nat, n: nat): (k: nat)
    requires 4 * n <= |s| && c < 4
    ensures k <= n
  {
    if n == 0 then 0
    else DarkCount(s, c, n - 1) + (if Component(PixelAt(s, n - 1), c) < Threshold then 1 else 0)
  }

  /** The number of pixels among the first n of s whose first byte is 0. */
  function BlackCount(s: seq<Byte>, n: nat): (k: nat)
    requires 4 * n <= |s|
    ensures k <= n
  {
    if n == 0 then 0 else BlackCount(s, n - 1) + (if s[4 * (n - 1)] == 0 then 1 else 0)
  }

  /**
   * extractAndProcessChannel on an ImageData of the given size: a fresh
   * buffer of the same size with channel channelIndex binarized at 128,
   * and the counts of black and white pixels in it.
   */
  method ExtractAndProcessChannel(data: array<Byte>, width: nat, height: nat, channelIndex: nat)
    returns (newData: array<Byte>, blackPixels: nat, whitePixels: nat)
    requires data.Length == width * height * 4 && channelIndex < 4
    ensures fresh(newData)
    ensures newData.Length == width * height * 4
    ensures newData[..] == Binarized(data[..], channelIndex)
    ensures blackPixels == DarkCount(data[..], channelIndex, width * height)
    ensures blackPixels + whitePixels == width * height
  {
    ghost var t := Binarized(data[..], channelIndex);
    newData := new Byte[width * height * 4];
    var y := 0;
    while y < height
      invariant 0 <= y <= height
      invariant 4 * (y * width) <= newData.Length
      invariant forall j :: 0 <= j < 4 * (y * width) ==> newData[j] == t[j]
    {
      RowEnd(width, height, y);
      ProcessRow(data, newData, width, height, channelIndex, y, y * width, t);
      y := y + 1;
    }
    assert newData[..] == t;
    blackPixels, whitePixels := CountPixels(newData, width * height);
    BlackCountOfBinarized(data[..], channelIndex, width * height);
  }

  /** The inner loop of extractAndProcessChannel: row y, which starts at pixel rowStart. */
  method ProcessRow(data: array<Byte>, newData: array<Byte>, width: nat, height: nat, channelIndex: nat,
                    y: nat, ghost rowStart: nat, ghost t: seq<Byte>)
    requires data != newData && channelIndex < 4
    requires data.Length == newData.Length == |t| && |t| % 4 == 0
    requires y < height && rowStart == y * width && 4 * (rowStart + width) <= |t|
    requires t == Binarized(data[..], channelIndex)
    requires forall j :: 0 <= j < 4 * rowStart ==> newData[j] == t[j]
    modifies newData
    ensures forall j :: 0 <= j < 4 * (rowStart + width) ==> newData[j] == t[j]
  {
    var x := 0;
    while x < width
      invariant 0 <= x <= width
      invariant forall j :: 0 <= j < 4 * (rowStart + x) ==> newData[j] == t[j]
    {
      MapPixelsAt(data[..], BinarizeRule(channelIndex), rowStart + x);
      var idx := (y * width + x) * 4;
      var channelValue := data[idx + channelIndex];
      var resultColor: Byte := if channelValue < Threshold then 0 else 255;
      newData[idx] := resultColor;
      newData[idx + 1] := resultColor;
      newData[idx + 2] := resultColor;
      newData[idx + 3] := 255;
      x := x + 1;
    }
  }

  /** The counting loop of extractAndProcessChannel over a buffer of n pixels. */
  method CountPixels(newData: array<Byte>, ghost n: nat) returns (blackPixels: nat, whitePixels: nat)
    requires newData.Length == 4 * n
    ensures blackPixels == BlackCount(newData[..], n)
    ensures blackPixels + whitePixels == n
  {
    blackPixels, whitePixels := 0, 0;
    var i := 0;
    ghost var p := 0;
    while i < newData.Length
      invariant i == 4 * p <= newData.Length
      invariant blackPixels == BlackCount(newData[..], p)
      invariant blackPixels + whitePixels == p
    {
      if newData[i] == 0 {
        blackPixels := blackPixels + 1;
      } else {
        whitePixels := whitePixels + 1;
      }
      i, p := i + 4, p + 1;
    }
  }

  /**
   * Every output pixel is an opaque gray that is black exactly when
   * component c of the input pixel is below 128 and white otherwise.
   */
  lemma BinarizedAt(s: seq<Byte>, c: nat, p: nat)
    requires |s| % 4 == 0 && c < 4 && 4 * p + 4 <= |s|
    ensures var q := PixelAt(Binarized(s, c), p);
      q.r == q.g == q.b && q.a == 255 && q.r in {0, 255}
      && (q.r == 0 <==> Component(PixelAt(s, p), c) < 128)
  {
    MapPixelsAt(s, BinarizeRule(c), p);
  }

  /** The black pixels counted in the output are the input pixels whose channel c is below 128. */
  lemma {:induction false} BlackCountOfBinarized(s: seq<Byte>, c: nat, n: nat)
    requires |s| % 4 == 0 && c < 4 && 4 * n <= |s|
    ensures BlackCount(Binarized(s, c), n) == DarkCount(s, c, n)
  {
    if n > 0 {
      BlackCountOfBinarized(s, c, n - 1);
      MapPixelsAt(s, BinarizeRule(c), n - 1);
    }
  }

  /**
   * The output depends on component c of the input only: two buffers that
   * agree on that component of every pixel give the same output.
   */
  lemma BinarizeReadsOneComponent(s: seq<Byte>, u: seq<Byte>, c: nat)
    requires |s| == |u| && |s| % 4 == 0 && c < 4
    requires forall p: nat :: 4 * p + 4 <= |s| ==> Component(PixelAt(s, p), c) == Component(PixelAt(u, p), c)
    ensures Binarized(s, c) == Binarized(u, c)
  {
    MapPixelsAll(s, BinarizeRule(c));
    MapPixelsAll(u, BinarizeRule(c));
    PixelwiseEqual(Binarized(s, c), Binarized(u, c));
  }

  /**
   * extractAndProcessChannel is idempotent: binarizing its output again,
   * on any of the colour channels 0..2, gives the same buffer.
   */
  lemma BinarizeIdempotent(s: seq<Byte>, c: nat, c2: nat)
    requires |s| % 4 == 0 && c < 4 && c2 < 3
    ensures Binarized(Binarized(s, c), c2) == Binarized(s, c)
  {
    MapPixelsAbsorb(s, BinarizeRule(c), BinarizeRule(c2));
  }

  // The decode loop of processCQRImage

  /** What one call of the decoder does: return a code, return null, or throw. */
  datatype DecodeOutcome = Code(data: JsString) | NoCode | Threw

  /** A channel image as handed to the decoder. */
  datatype Image = Image(data: seq<Byte>, width: nat, height: nat)

  /** The text one outcome adds to decodedText. */
  function Text(o: DecodeOutcome): JsString {
    if o.Code? then o.data else []
  }

  /** The outcomes of decoding each channel, in channel order. */
  function Outcomes(channels: seq<Image>, decode: Image -> DecodeOutcome): (os: seq<DecodeOutcome>)
    ensures |os| == |channels|
    ensures forall i :: 0 <= i < |channels| ==> os[i] == decode(channels[i])
  {
    if |channels| == 0 then []
    else Outcomes(channels[..|channels| - 1], decode) + [decode(channels[|channels| - 1])]
  }

  /** decodedText after the loop: the texts of the channels that decoded, in order. */
  function MergeDecoded(os: seq<DecodeOutcome>): JsString {
    if |os| == 0 then [] else MergeDecoded(os[..|os| - 1]) + Text(os[|os| - 1])
  }

  /** successfulDecodes after the loop. */
  function SuccessCount(os: seq<DecodeOutcome>): (k: nat)
    ensures k <= |os|
  {
    if |os| == 0 then 0 else SuccessCount(os[..|os| - 1]) + (if os[|os| - 1].Code? then 1 else 0)
  }

  /** The message shown when no channel gave any text. */
  const Fallback: JsString := Utf16("Failed to decode CQR")

  /** decodedText || 'Failed to decode CQR'. */
  function Shown(decodedText: JsString): (r: JsString)
    ensures decodedText == [] ==> r == Fallback
    ensures decodedText != [] ==> r == decodedText
  {
    if decodedText != [] then decodedText else Fallback
  }

  /**
   * The decode loop: each channel is decoded on its own; a code appends its
   * text and is counted, a null result or a thrown error skips the channel
   * and the loop goes on.
   */
  method DecodeChannels(channels: seq<Image>, decode: Image -> DecodeOutcome)
    returns (decodedText: JsString, successfulDecodes: nat)
    ensures decodedText == MergeDecoded(Outcomes(channels, decode))
    ensures successfulDecodes == SuccessCount(Outcomes(channels, decode))
  {
    decodedText, successfulDecodes := [], 0;
    var i := 0;
    while i < |channels|
      invariant 0 <= i <= |channels|
      invariant decodedText == MergeDecoded(Outcomes(channels[..i], decode))
      invariant successfulDecodes == SuccessCount(Outcomes(channels[..i], decode))
    {
      assert channels[..i + 1][..i] == channels[..i];
      var outcome := decode(channels[i]);
      if outcome.Code? {
        decodedText := decodedText + outcome.data;
        successfulDecodes := successfulDecodes + 1;
      }
      i := i + 1;
    }
    assert channels[..i] == channels;
  }

  /**
   * processCQRImage from the image data on: the red, green and blue
   * channels are binarized, decoded in that order, and the joined text (or
   * the fallback message) is what is shown.
   */
  method ProcessCQRImage(data: array<Byte>, width: nat, height: nat, decode: Image -> DecodeOutcome)
    returns (decodedText: JsString, successfulDecodes: nat, shown: JsString)
    requires data.Length == width * height * 4
    ensures var os := [decode(Image(Binarized(data[..], 0), width, height)),
                       decode(Image(Binarized(data[..], 1), width, height)),
                       decode(Image(Binarized(data[..], 2), width, height))];
      decodedText == Text(os[0]) + Text(os[1]) + Text(os[2])
      && successfulDecodes == SuccessCount(os)
    ensures shown == Shown(decodedText)
  {
    var channels: seq<Image> := [];
    var i := 0;
    while i < 3
      invariant 0 <= i <= 3 && |channels| == i
      invariant forall k :: 0 <= k < i ==> channels[k] == Image(Binarized(data[..], k), width, height)
    {
      var channelData, _, _ := ExtractAndProcessChannel(data, width, height, i);
      channels := channels + [Image(channelData[..], width, height)];
      i := i + 1;
    }
    decodedText, successfulDecodes := DecodeChannels(channels, decode);
    assert Outcomes(channels, decode) == [decode(channels[0]), decode(channels[1]), decode(channels[2])];
    MergeThree(Outcomes(channels, decode));
    shown := Shown(decodedText);
  }

  /** Decoding more channels appends their texts. */
  lemma {:induction false} MergeAppend(a: seq<DecodeOutcome>, b: seq<DecodeOutcome>)
    ensures MergeDecoded(a + b) == MergeDecoded(a) + MergeDecoded(b)
  {
    if |b| == 0 {
      assert a + b == a;
    } else {
      assert (a + b)[..|a + b| - 1] == a + b[..|b| - 1];
      assert (a + b)[|a + b| - 1] == b[|b| - 1];
      MergeAppend(a, b[..|b| - 1]);
    }
  }

  /** With three channels the text is red's, then green's, then blue's. */
  lemma MergeThree(os: seq<DecodeOutcome>)
    requires |os| == 3
    ensures MergeDecoded(os) == Text(os[0]) + Text(os[1]) + Text(os[2])
  {
    assert os[..2][..1] == [os[0]] && [os[0]][..0] == [];
    assert MergeDecoded([os[0]]) == Text(os[0]);
    assert MergeDecoded(os[..2]) == MergeDecoded([os[0]]) + Text(os[1]);
  }

  /** The text is empty exactly when no channel contributed any text. */
  lemma {:induction false} MergeEmpty(os: seq<DecodeOutcome>)
    ensures MergeDecoded(os) == [] <==> forall i :: 0 <= i < |os| ==> Text(os[i]) == []
  {
    if |os| > 0 {
      var init := os[..|os| - 1];
      MergeEmpty(init);
      assert forall i :: 0 <= i < |init| ==> init[i] == os[i];
    }
  }

  /** successfulDecodes is the number of channels whose decoder returned a code. */
  lemma {:induction false} SuccessCountAll(os: seq<DecodeOutcome>)
    ensures SuccessCount(os) == |os| <==> forall i :: 0 <= i < |os| ==> os[i].Code?
    ensures SuccessCount(os) == 0 <==> forall i :: 0 <= i < |os| ==> !os[i].Code?
  {
    if |os| > 0 {
      var init := os[..|os| - 1];
      SuccessCountAll(init);
      assert forall i :: 0 <= i < |init| ==> init[i] == os[i];
    }
  }

  /** When nothing decoded, the fallback message is shown. */
  lemma NothingDecodedShowsFallback(os: seq<DecodeOutcome>)
    requires SuccessCount(os) == 0
    ensures Shown(MergeDecoded(os)) == Fallback
  {
    SuccessCountAll(os);
    MergeEmpty(os);
  }

  // The same merge in js/ui.js: [red, green, blue].filter(data => data).join('')

  /** A decoder result as ui.js receives it: the decoded string, or null. */
  function Fragment(o: DecodeOutcome): Option<JsString> {
    if o.Code? then Some(o.data) else None
  }

  function Fragments(os: seq<DecodeOutcome>): (fs: seq<Option<JsString>>)
    ensures |fs| == |os|
  {
    if |os| == 0 then [] else Fragments(os[..|os| - 1]) + [Fragment(os[|os| - 1])]
  }

  /** filter(data => data).join(''): the non-null, non-empty strings, joined in order. */
  function JoinTruthy(fs: seq<Option<JsString>>): JsString {
    if |fs| == 0 then []
    else
      var last := fs[|fs| - 1];
      JoinTruthy(fs[..|fs| - 1]) + (if last.Some? && last.value != [] then last.value else [])
  }

  /** ui.js joins the channel results exactly as the decode loop of reader.js does. */
  lemma {:induction false} JoinTruthyIsMerge(os: seq<DecodeOutcome>)
    ensures JoinTruthy(Fragments(os)) == MergeDecoded(os)
  {
    if |os| > 0 {
      var init := os[..|os| - 1];
      JoinTruthyIsMerge(init);
      assert Fragments(os)[..|os| - 1] == Fragments(init);
    }
  }
}
