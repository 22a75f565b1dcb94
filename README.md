# A verified model of the cristalhq/qrcode encoder

This project models the QR code encoding engine of cristalhq/qrcode in
Dafny. The engine follows ISO/IEC 18004 and lives in the package
`internal/coding`. The small public package `qrcode` sits on top of it.

The modelled pipeline runs as follows:

- A text is classified as numeric, alphanumeric or byte mode.
- Its bit stream is written into an MSB-first bit buffer.
- The smallest version whose data capacity holds the stream is chosen.
- A plan of that version is built. Function patterns, format bits and the
  zig-zag placement of data, check and remainder bits label every module
  of the grid. Mask 0 is applied.
- The buffer is padded and the Reed–Solomon check bytes of each block are
  appended.
- The modules, coloured by their codeword bits, are ORed into a
  caller-supplied or fresh bitmap.
- The public code reads modules back (`IsBlack`) and maps image
  coordinates to modules with a four-module quiet zone (`Bounds`, `At`).

Modules and what they hold:

| module | file | models |
|---|---|---|
| `BitMath` | bitmath.dfy | Go's `|`, `^`, shifts and bit tests on naturals, and MSB-first bit sequences |
| `Tables` | tables.dfy | `vtab`, the per-version capacity table; `DataBytes`; `sizeClass` |
| `Pixels` | pixels.dfy | the packed `Pixel` word and `PixelRole` |
| `Masks` | masks.dfy | `Mask.Invert` and the eight `mfunc` predicates |
| `FormatInfo`, `FormatPlace` | format.dfy, formatplace.dfy | the BCH(15,5) format word and its two copies in the grid (`fplan`) |
| `Layout` | layout.dfy | `grid`, `posBox`, `alignBox` and the rest of `vplan` |
| `Blocks`, `Codewords`, `Sweep` | blocks.dfy, codewords.dfy, sweep.dfy | the block split, interleaving and zig-zag placement of `lplan` |
| `BitBuffer` | bitbuf.dfy | the `Bits` buffer: `Write`, `Append`, `Pad`, `Bytes`, `AddCheckBytes` |
| `Enc` | enc.dfy | `Num`, `Alpha` and `String`, each with `Check`, `Bits` and `Encode` |
| `Raster` | raster.dfy | packing rows of modules into bitmap bytes |
| `QrPlan` | plan.dfy | `Plan`, `NewPlan`, `vplan`/`fplan`/`lplan`/`mplan`, `Plan.EncodeInto` |
| `Coding` | coding.dfy | `coding.Encode`: mode choice and version search |
| `QrCode` | qrcode.dfy | the public `Code`: `Encode`, `EncodeInto`, `IsBlack`, `Bounds`, `At` |

Go's `Plan` and `Bits` update their fields in place, so they are classes.
`Plan.pixel` is an `array2<Pixel>`. `Bits` holds a `seq<Byte>` and a bit
count. Go's `[][]Pixel` rows are cut from one backing slice, and
`array2` models that faithfully.

The methods that fill the grid are proved against specification
functions:

- `VPixel` gives the function patterns.
- `FormatOver` gives the format bits.
- `Swept` gives the zig-zag sweep.
- `Masked` gives the mask.
- `CodewordOrder` gives the order of the codeword bits: the data and
  check blocks interleaved byte by byte.
- `Built` ties them together for a whole plan. Every module drawn by
  `vplan` and `fplan` is kept. The free modules, in sweep order, hold the
  codeword bits in `CodewordOrder` and then the remainder bits, each
  masked.

The serializers are proved against `Enc.Stream`. The bit stream
`Enc.Stream` is proved to decode back to its text (`Enc.RoundTrip`).

Go's Reed–Solomon encoder is in the `gf256` package, which is not part of
this model. It appears as a function parameter `ecc`. The only assumption
about it is `EccSound`: it returns the number of check bytes asked for.

Within encoding, the panics that depend on the caller or on data the
model cannot bound are an explicit `Panic` outcome:

- a level outside 0 .. 3, which indexes the capacity table out of range;
- slicing a caller's bitmap that is too short;
- the zig-zag sweep running out of pixels.

The read-back methods of the public `Code` instead carry preconditions
for their two panics (see "Left out").

Go's internal-consistency panics are preconditions or assertions that are
proved to hold:

- "fractional byte";
- "too much data";
- "data/check math";
- "dst math".

## Model

| member | source | states |
|---|---|---|
| Tables.DataBytes | internal/coding/utils.go:53-57 | the data-codeword count is positive, at most the capacity of the version's size class, and together with nblock · check bytes it makes up every codeword of the version |
| Tables.Lev | internal/coding/utils.go:53-57 | every version and level has at least one block and one check byte per block, and leaves a positive number of data bytes |
| Tables.VTabOk | internal/coding/utils.go:53-57 | every row of the capacity table: bytes − nblock · check > 0 at each level, nblock ≥ 1, a version pattern exactly from version 7 on, alignment origin and spacing ≥ 16 |
| Tables.SizeClass | internal/coding/utils.go:59-68 | class 0 exactly for versions up to 9, class 2 exactly from version 27, class 1 between; so it indexes the three count-width tables |
| Pixels.TaggedPixel | internal/coding/utils.go:184-194 | a pixel packed from role r and offset o reads back role r and offset o, and is light |
| Pixels.RoleBlack | internal/coding/utils.go:224-226 | `PixelRole.Pixel` reads back as its role; adding Black keeps the role and makes it dark |
| Pixels.SetBlack | internal/coding/utils.go:176-194 | setting the Black flag keeps role and offset and makes the pixel dark |
| Pixels.ToggleBlack | internal/coding/utils.go:176-194 | flipping Black keeps role and offset and flips the colour |
| Pixels.ToggleBlackInvert | internal/coding/utils.go:176-194 | flipping Black and Invert together keeps role and offset and flips the colour |
| Pixels.PixelOr | internal/coding/utils.go:176-194 | bit k of the OR of two pixels is set exactly when bit k of either is set; the result stays within 32 bits |
| Pixels.PixelXor | internal/coding/utils.go:176-194 | bit k of the XOR of two pixels is set exactly when bit k of one of them, and not both, is set |
| Masks.InvertIsStandard | internal/coding/utils.go:254-271 | a negative mask inverts nothing; on grid coordinates, masks 0..7 written with Go's truncating `/` and `%` invert exactly where the eight mask conditions of section 7.8.2 of ISO/IEC 18004 hold |
| FormatInfo.FormatBits | internal/coding/qr.go:213-222 | the BCH computation of fplan yields the level/mask word with its remainder modulo 0x537 appended, XOR 0x5412 |
| FormatInfo.Remainder | internal/coding/qr.go:216-221 | the shift-and-subtract loop computes the GF(2) remainder of the 15-bit word by the generator 0x537 |
| FormatInfo.ReduceBit | internal/coding/qr.go:217-220 | one loop step keeps the final remainder unchanged |
| FormatInfo.FormatWordStandard | internal/coding/qr.go:213-222 | for every level and mask, the remainder is below 2^10, the word below 2^15, and the masked word equals the format-information table of Annex C of ISO/IEC 18004 |
| FormatPlace.FormatPixelStandard | internal/coding/qr.go:225-251 | format module k is dark exactly when bit k of the standard's masked format word is set |
| FormatPlace.CopiesInverse | internal/coding/qr.go:225-251 | each of the two copies of the format word puts bit k at exactly one module, and the two copies never share a module |
| FormatPlace.PlaceFormat | internal/coding/qr.go:225-251 | fplan writes bit k of the format word into both of its modules and leaves every other module unchanged |
| FormatPlace.FormatModule | internal/coding/qr.go:226-232 | the loop body builds the format pixel of bit k: Black set by bit k of the word, then Black and Invert flipped by bit k of 0x5412 |
| FormatPlace.FormatPixelFields | internal/coding/qr.go:226-232 | the format pixel of bit k has role Format and offset k, and is dark exactly when bit k of the word differs from bit k of 0x5412 |
| Layout.Grid | internal/coding/qr.go:131-138 | `grid` yields a fresh siz × siz grid of empty modules |
| Layout.PosBox | internal/coding/qr.go:369-402 | the 7×7 finder and its one-module separator ring get the finder pattern by ring distance, clipped at the grid edge; nothing else changes |
| Layout.AlignBox | internal/coding/qr.go:405-417 | the 5×5 alignment box gets its three rings; nothing else changes |
| Layout.AlignBoxes | internal/coding/qr.go:167-187 | an alignment box is drawn at every origin pair of the version's lattice except the three next to the finders; nothing else changes |
| Layout.TimingLines | internal/coding/qr.go:152-159 | row 6 and column 6 get alternating timing modules, dark on even positions; nothing else changes |
| Layout.VersionBlocks | internal/coding/qr.go:190-204 | bit 3j+i of the version pattern goes to the two 6×3 version blocks, mirrored; nothing else changes |
| Layout.DrawFinders | internal/coding/qr.go:162-164 | the three finders on an empty grid give the finder layer of the plan |
| Layout.DrawPattern | internal/coding/qr.go:190-207 | the version blocks and the dark module complete the function-pattern grid VPixel |
| Layout.VPixelRole | internal/coding/qr.go:141-208 | vplan draws no data, check or remainder module |
| Layout.Column6Taken | internal/coding/qr.go:152-159 | no module of timing column 6 is left empty |
| QrPlan.Plan.VPlan | internal/coding/qr.go:141-208 | vplan makes a fresh Size × Size grid that equals the function-pattern grid VPixel of the version |
| QrPlan.Plan.FPlan | internal/coding/qr.go:211-252 | fplan overlays the 15 format modules of the level/mask word on the grid, each copy at its standard place |
| QrPlan.Plan.LPlan | internal/coding/qr.go:256-354 | dataBytes + checkBytes is the version's codeword count, with checkBytes = nblock · check; the codeword pixels followed by the seven remainder pixels are exactly Payload, the interleaved block order of the version and level, and a permutation of the data and check tags; if the sweep finishes, it has laid that sequence into the empty modules in sweep order, every assigned module is kept, and every module names a codeword bit in range |
| QrPlan.Plan.LevelLayout | internal/coding/qr.go:260-269 | the byte and block counts are those of the capacity table |
| QrPlan.Plan.MPlan | internal/coding/qr.go:357-366 | each module becomes Masked: toggled exactly on data, check and remainder modules the mask inverts |
| QrPlan.MaskedFields | internal/coding/qr.go:357-366 | masking keeps role and offset, flips the colour exactly on the codeword and remainder modules the mask inverts, and undoes itself |
| QrPlan.DrawnRoles | internal/coding/qr.go:141-252 | vplan and fplan leave every data/check/remainder role unassigned and column 6 fully assigned |
| QrPlan.SweptPlaced | internal/coding/qr.go:321-353 | after a complete sweep, assigned modules are unchanged, each empty module outside column 6 holds a placed, light pixel, and every module names a codeword bit in range |
| QrPlan.NewPlan | internal/coding/qr.go:70-81 | the plan has the asked version, level and mask; when the sweep completes it is Valid and Built: every module vplan/fplan drew is as they drew it, and the free modules, taken in sweep order, hold the Payload pixels one after another, each masked, so dark exactly where the mask inverts |
| QrPlan.SweptFree | internal/coding/qr.go:321-353 | a completed sweep over the grid vplan and fplan drew lists every free module and nothing else, each once, in sweep order, and lays source pixel k into the k-th |
| QrPlan.MaskedBuilt | internal/coding/qr.go:70-81 | masking a swept grid whose drawn modules are kept gives a Built plan |
| QrPlan.PayloadWhole | internal/coding/qr.go:256-354 | the payload of a version and level is 8 · bytes + 7 pixels: a permutation of the data tags, the check tags after them and the seven remainder pixels, so every codeword bit is laid exactly once |
| QrPlan.SweepIn | internal/coding/qr.go:321-353 | the sweep of lplan: when it closes, assigned modules are kept, each empty module outside column 6 holds a placed, light source pixel, and every module names a codeword bit in range |
| Codewords.Tags | internal/coding/qr.go:272-279 | the tag loops build the run TagRun of count pixels from offset base |
| Codewords.TagAt | internal/coding/qr.go:272-279 | pixel i of a run has the run's role and offset base + i, and is light |
| Codewords.TagRunsCoded | internal/coding/qr.go:272-279 | every data and check tag is a light pixel naming a codeword bit in range |
| Codewords.SplitBlocks | internal/coding/qr.go:282-295 | the nblock data blocks and check blocks concatenate back to the data and check runs; block i holds nde bytes, plus one for the last `extra` blocks; each check block holds ne bytes |
| Codewords.Interleave | internal/coding/qr.go:297-319 | the interleaved sequence is byte i of every data block, then byte i of every check block, skipping short blocks; it is a permutation of all data and check pixels |
| Codewords.InterleavedWhole | internal/coding/qr.go:297-319 | interleaving loses and duplicates no pixel |
| Codewords.CodewordPixels | internal/coding/qr.go:272-319 | the pixels come out in CodewordOrder, the data and check blocks interleaved byte by byte; they number 8 · bytes, are a permutation of the data and check tags, and all name codeword bits in range |
| Codewords.CodewordBlocks | internal/coding/qr.go:282-295 | nde = nd / nblock; there are nblock data and nblock check blocks; data block i holds nde bytes, one more for the last nd % nblock, and each check block ne bytes; the blocks concatenate back to the data and check runs |
| Codewords.DataBlockRun | internal/coding/qr.go:284-291 | data block i is the run of data pixels of bytes BlockStart(i) up to BlockStart(i) + BlockLen(i), in order and within the data |
| Codewords.CheckBlockRun | internal/coding/qr.go:284-292 | check block i is the run of check pixels of check bytes i · ne up to i · ne + ne, which follow the data |
| Codewords.DataBlocksWhole | internal/coding/qr.go:282-295 | the data blocks put back together are the data run, each a whole number of bytes, at most nd / nblock + 1 |
| Codewords.CheckBlocksWhole | internal/coding/qr.go:282-295 | the check blocks put back together are the check run, each ne bytes |
| Codewords.CodewordOrderWhole | internal/coding/qr.go:272-319 | the interleaved order is 8 · bytes pixels and a permutation of the data and check tags |
| Sweep.ZigZag | internal/coding/qr.go:321-353 | the sweep either fills every empty module outside column 6 in visiting order from the source, leaving every other module as it was, or runs out of source pixels |
| Sweep.Pass | internal/coding/qr.go:331-351 | one column pair is swept upwards or downwards, the right module before the left |
| Sweep.Place | internal/coding/qr.go:333-338 | a module is filled only if it was empty, and then with the next source pixel |
| Sweep.VisitInjective | internal/coding/qr.go:321-353 | distinct modules outside column 6 are visited at distinct steps |
| Sweep.Columns | internal/coding/qr.go:331-353 | the column walk takes the pairs right to left, alternating direction, and jumps over column 6 |
| Blocks.DataBlocksExact | internal/coding/utils.go:131-149 | the data blocks concatenate back to the data; block j holds nd / nblock bytes, plus one for the last nd % nblock blocks |
| BitBuffer.Bits.Reset | internal/coding/utils.go:75-78 | the buffer becomes empty |
| BitBuffer.Bits.Count | internal/coding/utils.go:80-82 | the bit count is the number of bits held |
| BitBuffer.Bits.Bytes | internal/coding/utils.go:84-89 | on a whole number of bytes, the bytes hold exactly the buffer's bits, MSB first |
| BitBuffer.Bits.Append | internal/coding/utils.go:91-97 | on a byte boundary, p is appended verbatim and the bit count grows by 8 · len(p) |
| BitBuffer.Bits.Write | internal/coding/utils.go:154-174 | the bit count grows by n; earlier whole bytes are unchanged; for v < 2^n, or on a byte boundary, exactly the n low bits of v are appended MSB first |
| BitBuffer.Bits.Pad | internal/coding/utils.go:99-119 | n ≤ 4 appends n zeros; otherwise four zeros, zeros to the byte boundary, and pad codewords 0xEC, 0x11, … |
| BitBuffer.PadExact | internal/coding/utils.go:99-119 | when nbit + n is a multiple of 8, Pad adds exactly n bits |
| BitBuffer.Bits.WriteCodewords | internal/coding/utils.go:110-117 | the pad loop appends the alternating pad codewords, 0xEC first |
| BitBuffer.Bits.AddCheckBytes | internal/coding/utils.go:124-152 | the data is padded to DataBytes whole bytes with its prefix unchanged, then the check bytes of each block follow, for VTab(v).bytes bytes in all |
| BitBuffer.Bits.AddBlocks | internal/coding/utils.go:131-149 | the check bytes of the nblock data blocks are appended block after block |
| Enc.AlphabetLayout | internal/coding/enc.go:53 | the alphabet is the 10 digits, the 26 capitals and the nine symbols, 45 in all |
| Enc.NumCheck | internal/coding/enc.go:16-23 | true exactly when every character is a digit; the empty text passes |
| Enc.AlphaCheck | internal/coding/enc.go:59-66 | true exactly when every character is in the 45-character alphabet |
| Enc.AlphaIndexOf | internal/coding/enc.go:53 | a character has an alphabet index exactly when it is a digit, a capital or one of the nine symbols |
| Enc.CountWidth | internal/coding/enc.go:25-99 | the count field has 10, 12 or 14 bits in numeric mode, 9, 11 or 13 in alphanumeric mode, and 8, 16 or 16 in byte mode, for versions 1–9, 10–26 and 27–40 |
| Enc.StreamLength | internal/coding/enc.go:27-29 | the bit stream of a valid text has exactly `Bits(v)` bits, for each of the three modes |
| Enc.RoundTrip | internal/coding/enc.go:31-111 | for valid text whose length fits the count field, the stream decodes back to the same mode and text |
| Enc.CountFits | internal/coding/enc.go:27-111 | a text whose stream fits the data capacity has a length that fits its count field |
| Enc.NumEncode | internal/coding/enc.go:31-47 | appends exactly Num.Bits(v) bits: mode 1 in 4 bits, the length, 10 bits per three digits, then 4 or 7 bits for a trailing one or two digits |
| Enc.AlphaEncode | internal/coding/enc.go:74-88 | appends exactly Alpha.Bits(v) bits: mode 2, the length, 45 · idx + idx in 11 bits per pair, then 6 bits for a trailing character |
| Enc.StrEncode | internal/coding/enc.go:105-111 | appends exactly String.Bits(v) bits: mode 4, the length, then each byte in 8 bits |
| Enc.WriteHeader | internal/coding/enc.go:32-33 | the mode indicator in 4 bits and the length in the count width of the size class |
| Enc.Encode | internal/coding/qr.go:37-42 | dispatches to the mode's serializer: the bit count grows by exactly `Bits(v)` |
| Coding.Choose | internal/coding/qr.go:11-18 | numeric mode exactly when the text is all digits, else alphanumeric when it is in the alphabet, else byte mode; the chosen encoding always passes its check |
| Coding.ChooseFewest | internal/coding/qr.go:11-18 | for non-empty text, the mode chosen never takes more bits than any other mode that accepts the text |
| Coding.EmptyTextOrder | internal/coding/qr.go:11-18 | the empty text is numeric and then takes two bits more than byte mode would |
| Coding.FirstFit | internal/coding/qr.go:20-29 | the version found is the smallest whose data capacity holds the stream; none found means no version does |
| Coding.Encode | internal/coding/qr.go:9-31 | a level outside 0..3 panics; otherwise "text too long" exactly when no version fits, and else the version is the smallest that fits; Panic without calling EncodeInto when the plan's sweep does not close, else the plan's EncodeInto result, which can only be the code or Panic; on the code, the plan is a Valid, Built plan of that version and level with mask 0 that drew the codewords of the text; the bitmap is untouched on error |
| QrPlan.Stride | internal/coding/qr.go:103-106 | the stride is the size rounded up to a multiple of 8 |
| QrPlan.Plan.EncodeInto | internal/coding/qr.go:87-129 | "encoding not supported" exactly when the check fails; a too-long stream gives its bit count and the capacity; otherwise the codewords of the text are drawn, unless a caller's bitmap is shorter than stride · size (Panic); errors leave the bitmap untouched; on success each bit is set exactly when it was set before or its module is dark, and a nil bitmap is replaced by a fresh one of stride · size bytes |
| QrPlan.Plan.Encode | internal/coding/qr.go:83-85 | with no bitmap, a text that fits is always drawn, on a fresh bitmap |
| QrPlan.Plan.Serialize | internal/coding/qr.go:92-99 | the bit count is `Bits(version)`, and when it fits, the bytes are the padded stream followed by the check bytes |
| QrPlan.Plan.Draw | internal/coding/qr.go:103-127 | every bit of the first stride · size bytes ends up set exactly when it was set before or its module is dark; later bytes are unchanged |
| QrPlan.Plan.Module | internal/coding/qr.go:115-124 | a module is dark by its pixel's colour, flipped for data and check modules whose codeword bit is set |
| Raster.RowByteTest | internal/coding/qr.go:121-123 | bit 7 − t of row byte c is set exactly when module 8c + t is dark |
| Raster.ColumnBit | internal/coding/qr.go:122 | of the 8 bits of the mask for column x, exactly bit 7 − x mod 8 is set |
| Raster.PaintedBit | internal/coding/qr.go:112-127 | after all rows are painted, each bit is set exactly when it was before or it belongs to a dark module |
| QrCode.IsBlackBit | qr.go:51-55 | whenever byte y · stride + x / 8 of every module lies within the bitmap, which is all Go's indexing needs: off the grid IsBlack is false without reading the bitmap; on it, it is bit 7 − x mod 8 of that byte |
| QrCode.RowsSound | internal/coding/qr.go:101-108 | a bitmap of size rows of stride bytes, with room for size modules in a row, lets IsBlack read every module |
| QrCode.Quo | qr.go:70-75 | Go's truncating division agrees with Euclidean division on non-negative operands and is never positive for a negative dividend |
| QrCode.Bounds | qr.go:65-68 | the image is a square whose side is the absolute value of (size + 8) · scale, the modules plus a four-module border each side: from the origin when that product is non-negative, and with the origin as its far corner when image.Rect swaps a negative one |
| QrCode.ImageRect | qr.go:67 | the rectangle has the two given x and the two given y coordinates, each pair in order |
| QrCode.AtBorder | qr.go:70-75 | every image pixel within four modules of an edge, or outside, is white |
| QrCode.AtModule | qr.go:70-75 | every image pixel of the scale × scale square of module (mx, my), offset by the border, has that module's colour |
| QrCode.IsBlackRendered | qr.go:51-55 | reading back a drawn code: a module is black exactly when it is on the grid and its bit was set before or it is dark |
| QrCode.FreshRendered | qr.go:51-55 | on a fresh bitmap, a module is black exactly when it is on the grid and dark |
| QrCode.EncodeInto | qr.go:26-39 | a level outside 0..3 gives Panic; the other errors of the internal Encode pass through unchanged and leave the bitmap untouched; on success the code is drawn by the Built plan of the smallest fitting version, bitmap, size and stride are the internal code's, and scale is 8 |
| QrCode.Encode | qr.go:22-24 | a level outside 0..3 gives Panic; with no bitmap, a successful code is on a fresh bitmap where each module reads black exactly when it is dark for the codewords, in the Built plan of the smallest fitting version |

## Left out

- The `gf256` Reed–Solomon encoder is not part of this model. It is the parameter `ecc`, and the only property assumed is that it returns the requested number of check bytes (`EccSound`). The check bytes are therefore characterised only as `ecc` of each block.
- internal/coding/gen.go is not part of this model. It is a generator program whose tables appear here as the constant `Tables.Row`.
- The `String()` methods of `Level`, `Version`, `Pixel`, `PixelRole` and the three encodings only format text.
- ascii.go (terminal rendering), `Code.PNG` and `Code.Image` are left out, as are the `color.Model` of the image. `At` returns whether the pixel is black rather than a `color.Color`.
- Mask-penalty scoring is absent in the source too: mask 0 is fixed.
- QrPlan.NewPlan, Coding.Encode, QrCode.EncodeInto, QrCode.Encode: the sweep of `lplan` running out of source pixels is the `ok = false` result, and the three encoders then return Panic. So a text that fits, at a level in 0 .. 3, is not promised a code, although Go always returns one. Proving that the sweep never runs out would need the free-module count of each of the 40 grids. Go has no check there: if the sweep did run out, it would panic with an index out of range.
- QrPlan.NewPlan, QrPlan.Plan.LPlan: for the same reason a completed sweep is not proved to use every pixel of the payload. The free modules are at most as many as the payload pixels, but not proved to be exactly as many, so a completed sweep is not shown to place all 8 · bytes codeword pixels.
- QrCode.IsBlack, QrCode.At: two caller-made panics are excluded by preconditions rather than modelled. A `Code` whose bitmap is too short for some module's byte y · stride + x / 8 is excluded by `Sound`; Go's IsBlack panics on it. A zero `Scale` is excluded from At; Go's At divides by it and panics.
- QrPlan.NewPlan, QrPlan.Plan.MPlan: a mask above 7 is excluded by a precondition. Go would index `mfunc` out of range; the only caller passes 0.
- BitBuffer.Bits.Write: for v ≥ 2^n written mid-byte, the model reproduces Go's corruption of earlier bits. The contract then states only the new bit count and the unchanged whole bytes, not the exact contents.
- Enc.Encode, Enc.NumEncode, Enc.AlphaEncode, Enc.StrEncode, Enc.WriteHeader: when the text length does not fit its count field, the contract states only the bit count. Enc.CountFits shows this never happens for a text that fits a version's capacity.
- BitBuffer.Bits.Pad: a negative n, where Go panics with "invalid pad size", is excluded by a precondition. The only caller passes a positive count.
- Go's panics inside `AddCheckBytes` ("too much data", and the final length check), `lplan` ("data/check math", "dst math") and `Bytes`/`Append` ("fractional byte") are preconditions or assertions proved to hold, not modelled panic paths.
- Texts are byte sequences. Go's `Check` methods range over runes, but every accepted character is ASCII. Any byte of a multi-byte or invalid UTF-8 sequence is rejected just as its rune is, so the two agree.
- The bitmap's slice capacity is modelled as the array's length. `Code.Bitmap` is the whole array rather than its first stride · size bytes; `Rendered` states that the bytes beyond are unchanged.
