/**
 * How the pieces fit together across js/common.js, js/generator.js and
 * js/reader.js: the payload split undone by the decode merge, and the
 * reader's binarization applied to what the channel preview and
 * extractChannel produce.
 */
module Pipeline {
  import opened Js
  import opened Bitmap
  import opened Common
  import opened Generator
  import opened Reader

  /** The text channel j adds to decodedText when its decoder returned part j or failed. */
  function Kept(parts: seq<JsString>, os: seq<DecodeOutcome>, j: nat): JsString
    requires j < |parts| && j < |os|
  {
    if os[j].Code? then parts[j] else []
  }

  /**
   * When each channel's decoder either returns exactly its part of the
   * split or fails (null or a thrown error), decodedText is the parts of
   * the channels that decoded, in R, G, B order: a failed channel drops
   * exactly its own part.
   */
  lemma MergeKeepsDecodedParts(data: JsString, os: seq<DecodeOutcome>)
    requires |os| == 3
    requires forall j :: 0 <= j < 3 ==> os[j] == Code(SplitDataForChannels(data)[j]) || !os[j].Code?
    ensures var parts := SplitDataForChannels(data);
      MergeDecoded(os) == Kept(parts, os, 0) + Kept(parts, os, 1) + Kept(parts, os, 2)
  {
    MergeThree(os);
  }

  /**
   * The split round-trips through the reader: when all three decoders
   * return their parts, decodedText is the original payload and all three
   * channels count as decoded.
   */
  lemma SplitThenMerge(data: JsString, os: seq<DecodeOutcome>)
    requires |os| == 3
    requires forall j :: 0 <= j < 3 ==> os[j] == Code(SplitDataForChannels(data)[j])
    ensures MergeDecoded(os) == data
    ensures SuccessCount(os) == 3
    ensures data != [] ==> Shown(MergeDecoded(os)) == data
  {
    MergeKeepsDecodedParts(data, os);
    SuccessCountAll(os);
  }

  /**
   * The same round trip for the generator's own split, whose empty input
   * never reaches the encoder.
   */
  lemma GenerateThenMerge(inputData: JsString, os: seq<DecodeOutcome>)
    requires GenerateParts(inputData).Some?
    requires |os| == 3
    requires forall j :: 0 <= j < 3 ==> os[j] == Code(GenerateParts(inputData).value[j])
    ensures MergeDecoded(os) == inputData && Shown(MergeDecoded(os)) == inputData
  {
    GeneratePartsIsSplit(inputData);
    SplitThenMerge(inputData, os);
  }

  /**
   * The preview of part k read back by extractAndProcessChannel in the
   * preview's own channel is the base code binarized on its red component:
   * the reader recovers the dark modules the preview shows.
   */
  lemma PreviewThenBinarize(s: seq<Byte>, k: nat)
    requires |s| % 4 == 0 && k < 3
    ensures ViewChannel(k) == k
    ensures Binarized(MapPixels(s, ChannelViewRule(k)), k) == Binarized(s, 0)
  {
    var v := MapPixels(s, ChannelViewRule(k));
    MapPixelsAll(s, ChannelViewRule(k));
    MapPixelsAll(v, BinarizeRule(k));
    MapPixelsAll(s, BinarizeRule(0));
    PixelwiseEqual(Binarized(v, k), Binarized(s, 0));
  }

  /** Read in either of the other two channels, the preview of part k is all black. */
  lemma PreviewOtherChannelsBlack(s: seq<Byte>, k: nat, c: nat, p: nat)
    requires |s| % 4 == 0 && k < 3 && c < 3 && c != k && 4 * p + 4 <= |s|
    ensures PixelAt(Binarized(MapPixels(s, ChannelViewRule(k)), c), p) == Gray(0)
  {
    var v := MapPixels(s, ChannelViewRule(k));
    MapPixelsAt(s, ChannelViewRule(k), p);
    MapPixelsAt(v, BinarizeRule(c), p);
  }

  /**
   * With no resampling (target as wide as the source), binarizing the gray
   * image extractChannel makes for channel c, on any of its gray
   * components, is binarizing the source on channel c.
   */
  lemma ExtractThenBinarize(src: seq<Byte>, w: nat, h: nat, c: nat, c2: nat)
    requires IsImage(src, w, h) && c < 4 && c2 < 3
    ensures Binarized(Sampled(src, c, w, w, h), c2) == Binarized(src, c)
  {
    var t := Sampled(src, c, w, w, h);
    MapPixelsAll(t, BinarizeRule(c2));
    MapPixelsAll(src, BinarizeRule(c));
    forall p: nat | 4 * p + 4 <= |t|
      ensures PixelAt(Binarized(t, c2), p) == PixelAt(Binarized(src, c), p)
    {
      ExtractedPixel(src, w, h, c, p);
    }
    PixelwiseEqual(Binarized(t, c2), Binarized(src, c));
  }

  /** Pixel p of the unscaled extracted image is the gray of component c of source pixel p. */
  lemma ExtractedPixel(src: seq<Byte>, w: nat, h: nat, c: nat, p: nat)
    requires IsImage(src, w, h) && c < 4 && 4 * p + 4 <= |src|
    ensures PixelAt(Sampled(src, c, w, w, h), p) == Gray(Component(PixelAt(src, p), c))
  {
    assert w > 0 && h > 0;
    var x, y := p % w, p / w;
    assert p == y * w + x;
    if y >= h {
      MulMonotone(h, y, w);
      assert false;
    }
    SameWidthProjects(src, c, w, h, x, y);
  }
}
