# CQR pixel pipeline in Dafny

CQR ("colour QR") hides three ordinary QR codes in one RGB image, one per
colour channel. The generator splits the payload into three parts, renders
one black-and-white code per part, recolours it and previews each channel.
The reader projects each channel of a picture into a black-and-white
image, hands each one to a QR decoder, and joins whatever decoded, in red,
green, blue order.

This project models the integer pixel and string logic of that pipeline,
as written in `js/common.js`, `js/generator.js` and `js/reader.js`:

- **`Js`** (`js.dfy`): the JavaScript semantics the code relies on.
  - Strings as sequences of UTF-16 code units (`JsString`), and the encoding of a string literal into them.
  - `substring` and `slice` clamping.
  - `parseInt(…, 16)`, and `ToInt32` as applied by `>>` and `&`.
  - The store into a `Uint8ClampedArray`, where `undefined` becomes 0.
- **`Bitmap`** (`bitmap.dfy`): the canvas buffer.
  - A flat row-major RGBA byte sequence; pixel `(x, y)` of a `w`-wide image starts at `(y*w + x)*4`.
  - `MapPixels`, which specifies every loop with step 4.
  - `ImageOf`, which specifies the `y`-then-`x` loops of `extractChannel` and `dilate`.
- **`Common`** (`common.dfy`): from `js/common.js`.
  - `hexToRgb` and `splitDataForChannels`, as functions.
  - The exact-black `colorizeQR` and `extractChannel`, as methods over arrays, each proved against a specification function.
- **`Generator`** (`generator.dfy`): from `js/generator.js`.
  - The generator's own `colorizeQR`, which tests `< 128` on R, G and B and leaves alpha alone.
  - The inline split of `generateCQR`.
  - The single-channel preview loop.
- **`Reader`** (`reader.dfy`): from `js/reader.js`.
  - `extractAndProcessChannel`: a fixed threshold of 128, with the black/white counts.
  - The decode loop of `processCQRImage`. The QR decoder is a function parameter that returns a code, returns null or throws.
- **`ReaderMorphology`** (`reader_morphology.dfy`): from `js/reader.js`.
  - `dilate`, `isFinderPatternCandidate`, `drawFinderPattern` and `enhanceFinderPatterns`.
  - Each is a method proved against a specification function, with per-pixel lemmas about that function.
- **`Pipeline`** (`pipeline.dfy`): the cross-file round trips.
  - Split, then decode, then merge, gives back the payload.
  - A failed channel drops its own part and nothing else.
  - The reader's binarization of the preview, and of an unscaled `extractChannel` image, agrees with binarizing the base image directly.

Notes on how the model reads the code:

- **Two `colorizeQR`s.** The two files each define a global `colorizeQR`, and they differ. They are modelled as `Common.ColorizeQR` and `Generator.ColorizeQR`.
- **`drawFinderPattern` paints a solid block.** Its loop variables are the half-integers −3.5 … 3.5. The model writes them doubled, as the odd integers −7 … 7. Because of this, the ring tests `Math.abs(dx) === 3` and `=== 2` never hold. Every visited pixel is painted black, and the block covers offsets −3 … +4 after `Math.round`. The comment at `js/reader.js:192` says a solid block is drawn, so the model follows the code as written.
- **Out-of-range reads and writes.** They are modelled as JavaScript performs them:
  - A write past the end of a typed array is ignored.
  - A read past the end gives `undefined`. That fails every `< 128` and `=== 0` test, and is stored as 0.
- **The repository's description versus the code.** The description covers adaptive and Otsu thresholds, median filtering, polarity inversion and cropping. None of these appears in the code. The model follows the code: the only binarization is the fixed threshold at `js/reader.js:153-154`.

## Model

| member | source | states |
|---|---|---|
| Common.HexToRgbPacks | js/common.js:8-15 | on `#RRGGBB`, r·65536 + g·256 + b equals the number the six hex digits denote (each component is a byte by its type) |
| Common.HexToRgbPairs | js/common.js:8-15 | on `#RRGGBB`, the components are the values of the digit pairs RR, GG and BB |
| Common.SplitDataForChannels | js/common.js:20-27 | three parts whose concatenation is the input; with L the length in UTF-16 code units, part 0 has length p = ⌈L/3⌉, part 1 has min(p, L−p), part 2 the rest |
| Common.SplitCutsSurrogatePair | js/common.js:20-27 | the cuts count code units, so a character outside the Basic Multilingual Plane can be cut in half: that character followed by one letter gives the red and green parts one lone surrogate each |
| Common.SplitBalanced | js/common.js:17-27 | part lengths never increase and differ by at most 2; part 1 is shorter than part 0 only for a one-character input |
| Common.ColorizeQR | js/common.js:46-70 | the buffer becomes the exact-black colouring, pixel by pixel, under the colour hexToRgb parses |
| Common.ColorizePixels | js/common.js:57-66 | the step-4 loop turns the buffer into MapPixels of the exact-black rule |
| Common.ColorizeQRAt | js/common.js:55-66 | a pixel with R = G = B = 0 becomes (r, g, b, 255); every other pixel keeps R, G, B and gets alpha 0 |
| Common.ExtractChannel | js/common.js:75-103 | each target pixel (x, y) is opaque gray with the channelIndex byte of source pixel (⌊x·sw/tw⌋, ⌊y·sw/tw⌋); the width ratio scales both axes |
| Common.ExtractRow | js/common.js:84-99 | one inner-loop pass fills row y of the target with its samples and leaves earlier rows as they were |
| Common.ReadSample | js/common.js:86-92 | the value read for target (x, y) is the sampled source byte, or 0 when the index is past the end |
| Common.SampledAt | js/common.js:83-99 | pixel (x, y) of the extracted image is the gray of its source sample |
| Common.SameWidthProjects | js/common.js:79-98 | when the target is as wide as the source, pixel (x, y) is the plain projection of channelIndex at the same place |
| Generator.ColorizeQR | js/generator.js:4-33 | the buffer becomes the threshold colouring, pixel by pixel, under the colour the three `parseInt` slices give |
| Generator.ColorizeDark | js/generator.js:16-29 | the step-4 loop turns the buffer into MapPixels of the dark rule |
| Generator.ColorizeQRAt | js/generator.js:16-31 | a pixel with R, G and B all below 128 gets the three parsed pairs and keeps its alpha; every other pixel is unchanged |
| Generator.SliceColorIsHexToRgb | js/generator.js:20-22 | on `#RRGGBB` the three slices parse to exactly hexToRgb's colour |
| Generator.PairParses | js/generator.js:20-22 | one digit pair parses to the byte it denotes |
| Generator.ColorizeIdempotent | js/generator.js:16-29 | colouring twice with the same colour equals colouring once |
| Generator.ColorizersOnOpaquePixels | js/generator.js:18-27 | on opaque exact black the two colorizers agree; on an opaque light pixel the generator's keeps alpha 255 where the shared one sets 0 |
| Generator.ChannelColorsArePure | js/generator.js:98 | each channel colour is a valid `#RRGGBB` and parses, by either colorizer, to 255 in its own component and 0 elsewhere |
| Generator.ColorizedPartPixel | js/generator.js:122 | a dark pixel of part k coloured with channel colour k has 255 in component k, 0 in the other two, and its own alpha; a light pixel is untouched |
| Generator.GenerateParts | js/generator.js:67-76 | the empty input stops (no parts) exactly when it is empty |
| Generator.GeneratePartsIsSplit | js/generator.js:71-76 | for non-empty input the inline split equals splitDataForChannels, so the three parts concatenate back to the input |
| Generator.ViewChannel | js/generator.js:145-160 | the preview draws in channel 0, 1 or 2; an index other than 0 or 1 draws in blue |
| Generator.ChannelView | js/generator.js:137-163 | the preview buffer has the base buffer's size and is the channel-view rule applied pixel by pixel |
| Generator.ChannelViewAt | js/generator.js:141-163 | each preview pixel is opaque and 0 outside its channel; in its channel it is 0 or 255, and 0 exactly when the base pixel's R is below 128 |
| Reader.ExtractAndProcessChannel | js/reader.js:137-181 | the output has length w·h·4 and holds channel channelIndex binarized at 128; blackPixels counts the input pixels below the threshold; black + white = w·h |
| Reader.ProcessRow | js/reader.js:145-162 | one pass of the inner loop writes row y of the binarized buffer and keeps the earlier rows |
| Reader.CountPixels | js/reader.js:164-170 | blackPixels is the number of pixels whose first byte is 0, and blackPixels + whitePixels is the pixel count |
| Reader.BinarizedAt | js/reader.js:150-160 | every output pixel is an opaque gray of 0 or 255, and is 0 exactly when the input component is below 128 |
| Reader.BlackCountOfBinarized | js/reader.js:164-170 | the black pixels counted in the output are exactly the input pixels whose channel is below 128 |
| Reader.BinarizeReadsOneComponent | js/reader.js:150 | the output depends on the channelIndex component of the input only |
| Reader.BinarizeIdempotent | js/reader.js:153-160 | binarizing the output again, on any colour channel, returns the same buffer |
| Reader.Outcomes | js/reader.js:107-115 | the decoder is called once per channel, in channel order |
| Reader.Shown | js/reader.js:131-132 | the fallback message is shown exactly when the decoded text is empty; otherwise the text is shown |
| Reader.DecodeChannels | js/reader.js:104-129 | decodedText concatenates, in order, the texts of the channels whose decoder returned a code; successfulDecodes counts them; null and thrown errors skip a channel |
| Reader.ProcessCQRImage | js/reader.js:63-133 | the red, green and blue channels are binarized and decoded in that order; the text is red's + green's + blue's, and the fallback is shown when it is empty |
| Reader.MergeAppend | js/reader.js:107-128 | decoding more channels appends their texts |
| Reader.MergeThree | js/reader.js:107-128 | with three channels the text is red's, then green's, then blue's |
| Reader.MergeEmpty | js/reader.js:119-132 | the text is empty exactly when no channel contributed any text |
| Reader.SuccessCountAll | js/reader.js:118-121 | successfulDecodes is the channel count exactly when every channel decoded, and 0 exactly when none did |
| Reader.NothingDecodedShowsFallback | js/reader.js:131-132 | when nothing decoded, the fallback message is shown |
| Reader.JoinTruthyIsMerge | js/ui.js:92-94 | filtering the truthy results and joining them gives the same text as the reader's decode loop |
| ReaderMorphology.Dilate | js/reader.js:265-299 | a fresh buffer equal to the dilated input; the input is only read |
| ReaderMorphology.DilateRow | js/reader.js:269-295 | one pass over row y writes that row of the dilated buffer and leaves the later bytes as copied from the input |
| ReaderMorphology.DilatePixel | js/reader.js:270-294 | the four bytes of interior pixel (x, y) become its dilated value; no other byte changes |
| ReaderMorphology.CheckNeighbours | js/reader.js:273-289 | hasBlackNeighbor is set exactly when one of the eight neighbours has R = 0 |
| ReaderMorphology.ScanRow | js/reader.js:276-287 | the inner neighbour loop for row dy reports a black neighbour exactly when one of the pixels it visits in that row, the centre excluded, has R = 0 |
| ReaderMorphology.ScanIsNeighbourTest | js/reader.js:275-289 | both neighbour loops run to the end, skipping the centre, find a black pixel exactly when one of the eight neighbours is black |
| ReaderMorphology.NeighbourTestXY | js/reader.js:279-283 | for an interior pixel the eight neighbours tested are the pixels around (x, y), by coordinates |
| ReaderMorphology.DilatedAt | js/reader.js:268-295 | border pixels are copied; an interior pixel with a black neighbour gets R = G = B = 0 and keeps alpha; otherwise it is copied |
| ReaderMorphology.DilateDarkens | js/reader.js:292-294 | dilation never raises a component, keeps alpha, and leaves black pixels black |
| ReaderMorphology.IsFinderPatternCandidate | js/reader.js:200-233 | the result is 10·matches > 7·total (that is, matches/total > 0.7) over the in-bounds cells of the 7×7 window |
| ReaderMorphology.CountWindowRow | js/reader.js:215-228 | one pass of the inner loop adds the counts of window row dy |
| ReaderMorphology.CountCell | js/reader.js:216-227 | an out-of-bounds cell adds nothing; an in-bounds cell adds one to total, and one to matches when its darkness matches the template |
| ReaderMorphology.CellInImage | js/reader.js:221-227 | an in-bounds cell is counted once, and matches exactly when (R < 128) agrees with the template entry |
| ReaderMorphology.WindowInImage | js/reader.js:214-229 | a window inside the image counts all of its cells |
| ReaderMorphology.FullWindow | js/reader.js:214-232 | with the whole window inside the image, total = 49 and the centre is a candidate exactly when at least 35 cells match |
| ReaderMorphology.DrawFinderPattern | js/reader.js:236-262 | the buffer becomes the drawn buffer for this centre, in place |
| ReaderMorphology.DrawRow | js/reader.js:239-260 | one pass of the inner loop paints the eight cells of row dy |
| ReaderMorphology.DrawCell | js/reader.js:240-259 | one visited cell is skipped when left of, right of or above the image; otherwise it is painted by the ring tests; writes past the end are ignored |
| ReaderMorphology.RingTestsNeverHold | js/reader.js:238-259 | the offsets are half-integers, so the `=== 3` and `=== 2` tests never hold and every painted cell is black |
| ReaderMorphology.RoundedOffsets | js/reader.js:238-241 | `Math.round` maps the offsets −3.5 … 3.5 to −3 … 4 |
| ReaderMorphology.PaintCellPixel | js/reader.js:240-258 | one visited cell blackens exactly the pixel it lands on, when that pixel is in the image |
| ReaderMorphology.DrawnAt | js/reader.js:236-262 | R, G and B of the 8×8 block of columns cx−3 … cx+4 and rows cy−3 … cy+4 become 0, as far as it is inside the image; alpha and every other pixel are unchanged |
| ReaderMorphology.EnhanceFinderPatterns | js/reader.js:184-197 | the buffer becomes the enhanced buffer: candidates are tested on a dilated copy and drawn on the data |
| ReaderMorphology.EnhanceDrawsCentres | js/reader.js:186-196 | the centres drawn are exactly the candidates of the dilated original, in scan order, so they are fixed before any drawing |
| ReaderMorphology.DrawnCentres | js/reader.js:189-191 | every drawn centre has x, y in {10, 13, …} below size − 10, its whole window is inside the image, and at least 35 of its 49 cells match |
| ReaderMorphology.EnhancedAt | js/reader.js:184-197 | a pixel covered by the block of some drawn centre gets R = G = B = 0; every other pixel, and every alpha, is unchanged |
| Pipeline.MergeKeepsDecodedParts | js/reader.js:107-128 | when each decoder returns its own part or fails, the text is the parts of the channels that decoded, in order |
| Pipeline.SplitThenMerge | js/common.js:20-27 | when the three decoders return the three parts, the text is the original payload and all three count as decoded |
| Pipeline.GenerateThenMerge | js/generator.js:71-76 | the generator's split round-trips through the reader's merge |
| Pipeline.PreviewThenBinarize | js/generator.js:141-163 | the reader, binarizing the preview of part k in channel k, recovers the base code binarized on R |
| Pipeline.PreviewOtherChannelsBlack | js/generator.js:141-163 | read in either other channel, the preview of part k is all black |
| Pipeline.ExtractThenBinarize | js/common.js:75-103 | binarizing an unscaled extracted channel image equals binarizing the source on that channel |

## Left out

- Canvas and DOM plumbing is not modelled: creating canvases, `getImageData`, `putImageData`, `drawImage`, the debug views, alerts and console logging. The buffers are arrays that the caller supplies.
- `combineCanvases` is not modelled. Its result comes from the browser's `multiply` compositing (W3C Compositing and Blending Level 1, section 10.1.1), which the code only invokes.
- The QR encoder and decoder are external. `QRCode.toCanvas` is not modelled. `jsQR` is the `decode` parameter, which returns a code, returns null or throws.
- Webcam capture, `async`/`await` and `Promise.all` are left out: they are camera lifecycle and scheduling.
- The `toFixed` percentage at `js/reader.js:175-178` is left out. It is floating point and only logged.
- Common.ExtractChannel: the scale `sourceWidth / targetWidth` is a float in the code. The model uses the exact integer `⌊x·sw/tw⌋`, which can differ from `Math.floor(x * scale)` only by a floating-point rounding of `scale`.
- Common.ExtractChannel: `sourceHeight` is accepted and, as in the code, never used. A source index past the end is not excluded by a precondition; it reads `undefined`, which is stored as 0.
- Common.HexToRgbPacks: the properties of `hexToRgb` and of the generator's slices are proved for `#RRGGBB` input only. `parseInt` returns a double, which can round a value of more than 13 hex digits (from 2^53 on); the model keeps the exact integer, so on such strings (for example `#100000000000001`) it differs from the code, and nothing is proved about other strings.
- Common.HexToRgb: colour strings are Dafny strings of characters, not `JsString`s. Every colour in the code is ASCII, where the two counts agree; a colour holding a character outside the Basic Multilingual Plane would be sliced differently.
- Js.ParseIntHex: it does not skip leading whitespace, which `parseInt` does. The colour strings in the code have none.
- Reader.ExtractAndProcessChannel: it requires `channelIndex < 4`. The code is only called with 0, 1 and 2. A larger index would read a neighbouring pixel's bytes.
- ReaderMorphology.Dilate: it requires a `width·height·4` buffer. Its only caller is `enhanceFinderPatterns`, which passes its own buffer and dimensions; on a buffer of another size the code's out-of-range reads are not modelled.
- ReaderMorphology.EnhanceFinderPatterns: it requires a `width·height·4` buffer, which the code assumes but does not check; other sizes are not modelled.
- ReaderMorphology.EnhanceFinderPatterns: the `colorMap` parameter is dropped, because the code never reads it. `enhanceFinderPatterns` itself is not called anywhere in the code.
- `js/ui.js` is not part of this model, apart from its join of the three channel results, which is cross-checked in `Reader.JoinTruthyIsMerge`. `js/config.js` is not part of this model either, since it holds constants only.
- Adaptive, Otsu and corner-sampling thresholds, median filtering, cropping and polarity inversion do not appear in the code, so they are not modelled.
