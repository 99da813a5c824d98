# BatchMark watermark core in Dafny

BatchMark stamps a text watermark onto batches of images. This project
models the part of it that computes things. The model covers:

- **Font size.** The engine derives an adaptive font size from the canvas,
  clamped to [12, 200]. The preview scales that size down to the shrunken
  image.
- **Grid.** The engine picks a rows x columns grid. It scans every column
  count and minimises the key (aspect-ratio score, wasted cells).
- **Positions.** One mark is centred on the canvas. Several marks are
  centred in the cells of that grid, inside a 10 % margin, and clamped to
  the canvas.
- **Layer.** The layer is the measured text plus a pad, drawn in the parsed
  colour at the alpha that corresponds to the opacity.
- **Pasting and saving.** The layer is pasted at each on-canvas position,
  cropped to the canvas. The result is flattened to RGB when the output path
  is a JPEG.
- **Helpers.** The colour helpers: `is_valid_color`, `get_color_from_rgb` and
  `get_rgb_from_color`. `is_valid_color` and `get_rgb_from_color` read hex
  with Python's `int(s, 16)`, with its sign, prefix and underscore rules;
  `get_color_from_rgb` only formats with `02x`. Also `format_time` and
  `sanitize_filename`.
- **File service.** The name and extension that `generate_output_path`
  builds, and the filter-and-sort of `get_supported_images` over a given
  directory listing.

Floats are exact `real`s.

- Python's `int()` on a float truncates toward zero, which is `Arith.Trunc`.
- `//` by a positive divisor is Dafny's `/`.

PIL is given to the engine as the `Layer.Pil` record of functions. The
record holds:

- font loading;
- `textbbox`;
- drawing the text onto a transparent layer;
- rotation;
- the per-pixel blend of a masked paste.

`Pil.Valid()` asks only that drawing yields an image of the requested size
and that rotation keeps images well formed.

The files are:

| file | module | models |
|---|---|---|
| config.dfy | Config | the configuration records and their defaults |
| sizing.dfy | Sizing | the adaptive and the preview font size |
| grid.dfy | Grid | the grid choice |
| placement.dfy | Placement | mark positions, and that marks do not overlap |
| layer.dfy | Layer | pad, alpha, colour and layer geometry |
| canvas.dfy | Canvas | images, clipped pastes, and RGB/RGBA conversion |
| engine.dfy | Engine | `add_watermark` and `preview_watermark` |
| helpers.dfy | Helpers | `int(s, 16)`, the colour, time and file-name helpers |
| paths.dfy | Paths | `pathlib` stem and suffix, `/` and `os.path.join` |
| file_service.dfy | FileService | output names, extensions and the image listing |
| sorting.dfy | Sorting | Python string order and `sorted` |
| text.dfy | Text | digit strings, hex, padding, `lstrip`, `lower`, slices |
| arith.dfy | Arith | clamp, truncation, ceiling division, monotonicity facts |
| wrappers.dfy | Wrappers | `Option` |

A 4000 x 3000 canvas with four marks gets the grid (rows 2, cols 3), not the
square (2, 2): the score |3/2 - 4/3| = 1/6 beats the square grid's 1/3, and
`Grid.FourMarksOnLandscape` proves (2, 3).

## Model

| member | source | states |
|---|---|---|
| Config.WithFontSize | App/core/watermark_engine.py:169-177 | the config the engine rebuilds keeps text, family, colour, opacity, count and rotation, takes the new size, and resets `adaptive_font` and `font_ratio` to their defaults |
| Arith.Trunc | App/core/watermark_engine.py:30 | `int()` of a float lies within one unit of it, toward zero |
| Arith.Clamp | App/core/watermark_engine.py:31 | `max(lo, min(hi, v))` lies in [lo, hi], equals v inside, and equals the nearer end outside |
| Arith.CeilDiv | App/core/watermark_engine.py:41 | `ceil(a / b)` is the least q with q·b ≥ a |
| Sizing.MinSide | App/core/watermark_engine.py:28 | the shorter side, at least 1; it is 1 when a side is 0 |
| Sizing.EffectiveRatio | App/core/watermark_engine.py:29 | a zero ratio falls back to 0.04; any other ratio is kept |
| Sizing.EffectiveFontSize | App/core/watermark_engine.py:23-32 | the size is always in [12, 200]; a manual size already in range is used as is |
| Sizing.ManualSizeIgnoresCanvas | App/core/watermark_engine.py:26-27 | a manual size does not depend on the canvas; below 12 it becomes 12, above 200 it becomes 200 |
| Sizing.AdaptiveSizeTracksCanvas | App/core/watermark_engine.py:28-31 | the adaptive size is the floor of side·ratio unless the clamp to 12 or to 200 applies |
| Sizing.ZeroRatioFallsBack | App/core/watermark_engine.py:29 | a ratio of 0 behaves exactly like the 0.04 default |
| Sizing.ScaledSideMonotone | App/core/watermark_engine.py:30 | `int(side * ratio)` never decreases as the side grows, for a ratio ≥ 0 |
| Sizing.AdaptiveSizeMonotone | App/core/watermark_engine.py:28-32 | with a fixed ratio, a canvas whose shorter side is no shorter never gets a smaller font; a negative ratio always gives 12 |
| Sizing.DefaultSizeOnLargeCanvas | App/core/watermark_engine.py:28-31 | the default config on 4000 x 3000 draws at 120 |
| Sizing.PreviewScale | App/core/watermark_engine.py:217-218 | the thumbnail factor is the smaller of scaled_w / orig_w and scaled_h / orig_h, a zero original side giving 1.0: it equals one of the two and lies at or below each; it is ≥ 0, ≤ 1 when the image shrank and exactly 1 when it did not |
| Sizing.PreviewFontSize | App/core/watermark_engine.py:222 | the preview font is never below 12; its value is pinned by Sizing.PreviewFontTracksScale |
| Sizing.ScaledFontTracks | App/core/watermark_engine.py:222 | `max(12, int(eff * factor))` is 12 while eff·factor < 12, and otherwise the integer p with p ≤ eff·factor < p + 1 |
| Sizing.PreviewFontTracksScale | App/core/watermark_engine.py:222 | the preview font is 12 while eff·max(0.1, scale) < 12, and otherwise that product rounded down |
| Sizing.PreviewFontBounds | App/core/watermark_engine.py:222 | a factor ≤ 1 never enlarges the font; a factor of 1 keeps it |
| Sizing.PreviewFontMonotone | App/core/watermark_engine.py:222 | a larger preview never gets a smaller font |
| Sizing.PreviewFontFor | App/core/watermark_engine.py:214-222 | the preview font is ≥ 12 and ≤ the original's effective size when shrunk, and equal to it when the image is shown at full size |
| Sizing.PreviewFontForTracks | App/core/watermark_engine.py:214-222 | with eff the original's effective size and scale the thumbnail factor, the preview font is 12 while eff·max(0.1, scale) < 12, and otherwise that product rounded down |
| Grid.Target | App/core/watermark_engine.py:38 | the target ratio times the height is the width; it is 1 when the height is 0 |
| Grid.RowsFor | App/core/watermark_engine.py:41 | the rows hold all marks and the last row is not empty |
| Grid.BestCols | App/core/watermark_engine.py:39-48 | the scan returns the first column count whose (score, waste) key no other count in range beats |
| Grid.FirstBestUnique | App/core/watermark_engine.py:47 | since `<` is strict, only one column count is first-best |
| Grid.BestColsIff | App/core/watermark_engine.py:40-48 | the scan returns c if and only if c is first-best |
| Grid.SameAspectSameTarget | App/core/watermark_engine.py:38 | canvases with equal width-to-height ratios aim at the same target ratio |
| Grid.SameAspectSameGrid | App/core/watermark_engine.py:34-49 | two canvases with the same proportions (or both of height 0) get the same (rows, cols) for every count |
| Grid.DetermineGrid | App/core/watermark_engine.py:34-49 | count ≤ 1 gives (1, 1); otherwise 1 ≤ cols ≤ count and rows = ceil(count / cols) |
| Grid.GridHoldsMarks | App/core/watermark_engine.py:41-44 | rows·cols ≥ count, and (rows - 1)·cols < count |
| Grid.GridIsFirstBest | App/core/watermark_engine.py:40-49 | for several marks, the chosen cols is c if and only if c is the first minimum of the key over 1..count |
| Grid.WasteBounds | App/core/watermark_engine.py:41-44 | the waste term lies in [0, cols) |
| Grid.CellInGrid | App/core/watermark_engine.py:107-109 | mark i lands in row i div cols, which exists, and in column i mod cols |
| Grid.FourMarksOnLandscape | App/core/watermark_engine.py:34-49 | 4000 x 3000 with four marks gives rows 2, cols 3 |
| Placement.Centre | App/core/watermark_engine.py:80-81 | `(extent - len) // 2` centres the run, rounding toward the start |
| Placement.Usable | App/core/watermark_engine.py:90-95 | the space between the margins is 0.8·extent, and it is zero exactly when the extent is zero |
| Placement.CellSize | App/core/watermark_engine.py:103-104 | the cells split the usable space evenly |
| Placement.Clamped | App/core/watermark_engine.py:117-119 | the clamped coordinate lies in [0, max(0, hi)]; it is the floor of v when v is already in range, 0 when v < 0, and max(0, hi) when v > hi |
| Placement.CalculatePositions | App/core/watermark_engine.py:69-121 | one mark, or an empty side, gives a single centred position; otherwise there are exactly `count` positions, each in [0, max(0, W - lw)] x [0, max(0, H - lh)]; the fallback happens only for an empty side |
| Placement.GridPositions | App/core/watermark_engine.py:107-119 | one position per mark, each clamped onto the canvas |
| Placement.MarkAt | App/core/watermark_engine.py:107-119 | mark i's corner lies on the canvas: 0 ≤ x ≤ max(0, W − lw) and 0 ≤ y ≤ max(0, H − lh) |
| Placement.MarkAtCentred | App/core/watermark_engine.py:107-119 | when the layer fits a cell, mark i is the rounded-down centred start of cell (i div cols, i mod cols) on both axes, untouched by the clamp |
| Placement.PositionOfIndex | App/core/watermark_engine.py:107-119 | mark i is the cell-centred point of column i mod cols and row i div cols, and both exist |
| Placement.OversizedSingleMark | App/core/watermark_engine.py:79-82 | a 150 x 150 layer on 100 x 100 is placed at (-25, -25) |
| Placement.CentredStartOnCanvas | App/core/watermark_engine.py:111-118 | a mark that fits its cell already starts on the canvas, so the clamp leaves it alone |
| Placement.CellStep | App/core/watermark_engine.py:111-115 | cell-centred starts of later cells are at least one cell further on |
| Placement.AxisSeparated | App/core/watermark_engine.py:111-119 | along one side, marks in different cells do not overlap when a mark fits its cell |
| Placement.MarksDisjoint | App/core/watermark_engine.py:85-121 | when the layer fits a cell, no two marks share a pixel |
| Layer.Pad | App/core/watermark_engine.py:136 | the pad is ≥ 2, and for a size ≥ 0 it equals `max(2, (15·size) div 100)` |
| Layer.PadMonotone | App/core/watermark_engine.py:136 | a larger font never gets a smaller pad |
| Layer.Alpha | App/core/watermark_engine.py:149 | alpha is `(255·opacity) div 100`, truncated toward zero for negative opacity; it lies in [0, 255] for opacity in [0, 100] |
| Layer.AlphaEnds | App/core/watermark_engine.py:149 | 0 % gives 0, 100 % gives 255, and the default 70 % gives 178 |
| Layer.AlphaMonotone | App/core/watermark_engine.py:149 | alpha never decreases with opacity and is odd-symmetric |
| Layer.LayerSpecOf | App/core/watermark_engine.py:132-152 | the layer exists if and only if the colour parses and both sides are ≥ 0; the text box starts one pad in from the corner and ends one pad before the far edge; the fill is the parsed RGB with the opacity's alpha |
| Layer.TextInsideLayer | App/core/watermark_engine.py:136-152 | the text lies inside the layer with at least two pixels to spare on every side |
| Layer.CreateLayer | App/core/watermark_engine.py:123-158 | a layer is built exactly when its spec exists; it is well formed; unrotated, it has the spec's size |
| Layer.UnrotatedLayerSize | App/core/watermark_engine.py:137-141 | an unrotated layer is the text box plus two pads each way |
| Canvas.ClipRect | App/core/watermark_engine.py:193-198 | a paste happens if and only if the position is on the canvas and the layer is non-empty; the rectangle then starts at the position, lies inside the canvas, and is cut only by the canvas edge |
| Canvas.Paste | App/core/watermark_engine.py:199-200 | inside the rectangle each pixel is the blend of the old pixel and the matching layer pixel; outside it nothing changes |
| Canvas.PasteAll | App/core/watermark_engine.py:191-200 | the pastes keep the canvas's size and mode |
| Canvas.UncoveredUnchanged | App/core/watermark_engine.py:191-200 | a pixel that no paste covers keeps its value |
| Canvas.LastPasteOnTop | App/core/watermark_engine.py:192-200 | a pixel the last paste covers is the blend of the earlier result with the layer pixel at its offset |
| Canvas.TransparentLayerNoOp | App/core/watermark_engine.py:191-200 | a fully transparent layer leaves the canvas unchanged, for a blend that ignores transparent pixels |
| Canvas.ToRgba | App/core/watermark_engine.py:164 | converting to RGBA keeps the size; an RGBA image is unchanged, and an RGB image's pixels keep their colour channels and become fully opaque |
| Canvas.RgbaThenRgb | App/core/watermark_engine.py:164-203 | converting to RGBA and then flattening to RGB gives the same image as flattening directly |
| Canvas.ToRgb | App/core/watermark_engine.py:203 | converting to RGB keeps the colour channels and makes every pixel opaque |
| Canvas.JpegPathTails | App/core/watermark_engine.py:202 | a path counts as JPEG if and only if its last four characters lower-case to `.jpg` or its last five to `.jpeg` |
| Canvas.ForOutput | App/core/watermark_engine.py:202-203 | the image is flattened to RGB if and only if the lower-cased path ends in `.jpg` or `.jpeg`; otherwise it is unchanged |
| Canvas.JpegCaseInsensitive | App/core/watermark_engine.py:202 | `.JPG` and `.Jpeg` count as JPEG, and `.png` does not |
| Engine.OutputLayout | App/core/watermark_engine.py:166-188 | the full-size layout fails for an unreadable colour; its layer is well formed; it has `count` positions when there are several marks and the image has no empty side, and one position otherwise |
| Engine.PreviewLayout | App/core/watermark_engine.py:216-242 | the same for the preview, with the shown image's sides |
| Engine.LayoutFor | App/core/watermark_engine.py:169-188 | a layout exists if and only if the colour parses and the layer sides are ≥ 0; its positions are those `calculate_positions` gives for the layer's size |
| Engine.AddWatermark | App/core/watermark_engine.py:160-208 | it succeeds exactly when the layout exists, so an unreadable colour fails; the result keeps the image's size; it is RGB if and only if the path is a JPEG path |
| Engine.OutputIsPasted | App/core/watermark_engine.py:191-204 | for a non-JPEG path the saved image is the RGBA input with every mark pasted |
| Engine.UncoveredPixelKept | App/core/watermark_engine.py:191-204 | a pixel no mark covers comes out as read, made opaque when the output is JPEG or the input is RGB |
| Engine.LastMarkOnTop | App/core/watermark_engine.py:191-200 | a pixel the last mark covers is the blend of the earlier result with the layer pixel at its offset from the paste corner, which `ClipRect` pins to the last mark's position |
| Engine.PreviewWatermark | App/core/watermark_engine.py:210-248 | the preview succeeds if and only if its layout (colour and layer) does; it is RGBA with the shown image's size, and it fails for an unreadable colour |
| Engine.PreviewKeepsGrid | App/core/watermark_engine.py:211-242 | when the shown image has the original's proportions, preview mark i sits in row i div cols and column i mod cols of the grid chosen for the original, as it does in the output |
| Engine.PreviewMatchesOutput | App/core/watermark_engine.py:210-248 | an image shown at full size previews exactly as it is saved to a non-JPEG path |
| Engine.OversizedMarkSkipped | App/core/watermark_engine.py:191-200 | a single 150 x 150 mark on 100 x 100 is off the canvas, so the image is saved unchanged |
| Helpers.ParseHexInt | App/utils/helpers.py:167 | `int(s, 16)` reads plain hex digits as their positional value; a string it accepts holds only `int`'s ASCII whitespace (space and `\t` to `\r`), signs, `x`/`X`, underscores and hex digits |
| Helpers.SeparatorRejected | App/utils/helpers.py:157-181 | a 0x1C separator, which `str.isspace` calls whitespace but `int` does not skip, makes `int("\x1c1", 16)` fail, `is_valid_color("#\x1c12345")` false and `get_rgb_from_color("\x1c1\x1c1\x1c1")` raise |
| Helpers.ParseNegatedDigits | App/utils/helpers.py:167 | a leading minus negates the value |
| Helpers.IsValidColor | App/utils/helpers.py:157-170 | the empty string is invalid; a length other than 6 after `lstrip('#')` is invalid; six hex digits are valid |
| Helpers.GetColorFromRgb | App/utils/helpers.py:173-175 | byte components give `#` and six lower-case hex digits, which pass `is_valid_color` |
| Helpers.GetRgbFromColor | App/utils/helpers.py:178-181 | the colour is read if and only if all three `int(color[i:i+2], 16)` conversions succeed, and then it is their three values; a colour that is empty after stripping `#` is never read |
| Helpers.HexColorComponents | App/utils/helpers.py:178-181 | six hex digits after the `#`s give three components, one per digit pair |
| Helpers.RgbRoundTrip | App/utils/helpers.py:173-181 | reading back a colour written from bytes gives the bytes |
| Helpers.ColorRoundTrip | App/utils/helpers.py:173-181 | writing back a six-hex-digit colour's components gives the colour lower-cased with one `#` |
| Helpers.SignedColorAccepted | App/utils/helpers.py:157-181 | `#-12345` passes `is_valid_color` and reads as (-1, 0x23, 0x45) |
| Helpers.UnderscoreColorAccepted | App/utils/helpers.py:157-181 | `12_345` passes `is_valid_color`, but reading its components fails |
| Helpers.HexColorReadable | App/utils/helpers.py:157-181 | a colour of exactly six hex digits passes `is_valid_color` and reads as three bytes |
| Helpers.WrittenColorIsHex | App/utils/helpers.py:173-175 | every colour written from bytes is six hex digits |
| Helpers.FormatTime | App/utils/helpers.py:184-195 | below 60 it is the number and 秒; the text ends in 秒 exactly below an hour |
| Helpers.FormatTimeMinutes | App/utils/helpers.py:188-191 | below an hour it shows m and s with m·60 + s equal to the input and s < 60 |
| Helpers.FormatTimeHours | App/utils/helpers.py:192-195 | from an hour on it shows h and m with m < 60; h·3600 + m·60 is within a minute below the input |
| Helpers.ReplaceEach | App/utils/helpers.py:205-208 | after the loop every character from the list is `_`, and every other character is unchanged |
| Helpers.SanitizeFilename | App/utils/helpers.py:203-208 | the length is kept, none of `<>:"/\|?*` remains, and other characters are unchanged |
| Helpers.SanitizeFixedPoints | App/utils/helpers.py:203-208 | a name is left unchanged if and only if it is already clean |
| Helpers.SanitizeIdempotent | App/utils/helpers.py:203-208 | cleaning twice is cleaning once |
| Text.ZeroPaddedRoundTrip | App/services/file_service.py:73 | `{n:03d}` is digits that read back as n, three characters long while n fits |
| Text.NatStringRoundTrip | App/utils/helpers.py:187 | the decimal text of a number reads back as the number |
| Text.FormatHex2Byte | App/utils/helpers.py:175 | `{n:02x}` of a byte is its two hex digits, high nibble first |
| Text.Slice | App/utils/helpers.py:181 | `s[i:i+2]` is clipped at the end of the string |
| Text.LStrip | App/utils/helpers.py:180 | `lstrip('#')` removes exactly the leading `#`s |
| Text.LowerIdempotent | App/services/file_service.py:26 | lower-casing twice is lower-casing once, and no upper-case ASCII letter remains |
| Paths.Suffix | App/services/file_service.py:26 | the suffix is empty, or a dot and the dot-free rest of the name after the last dot, which is neither first nor last |
| Paths.Stem | App/services/file_service.py:67 | stem followed by suffix is the name |
| Paths.LeadingDotIsNoSuffix | App/services/file_service.py:26 | a name whose only dot comes first has no suffix |
| Paths.SuffixExamples | App/services/file_service.py:26 | `.JPG` of `photo.JPG`, `.gz` of `archive.tar.gz`, and nothing for `notes.` and `README` |
| Paths.PathJoin | App/services/file_service.py:90 | on POSIX, the joined path ends in the name; `.` and the empty directory disappear; otherwise a single `/` separates them |
| Paths.OsJoinShape | App/services/file_service.py:24 | on POSIX, `os.path.join` puts a slash between a non-empty directory and the name unless the directory already ends in one |
| Paths.OsJoinInjective | App/services/file_service.py:24 | different names in one directory join to different paths |
| FileService.OutputDir | App/services/file_service.py:58-61 | the configured directory when it is non-empty, otherwise `watermarked` next to the input |
| FileService.SuffixPart | App/services/file_service.py:81-82 | an empty suffix adds nothing; otherwise `_` and the suffix are added |
| FileService.NewName | App/services/file_service.py:69-82 | the new name starts with the stem and ends with the suffix part; rules other than numbered and timestamp keep the stem |
| FileService.NumberedName | App/services/file_service.py:72-73 | numbered names are stem, `_`, the 3-digit index + 1, then suffix and extension |
| FileService.NumberedNamesDistinct | App/services/file_service.py:72-73 | different indexes give different numbered names |
| FileService.FirstNumberedName | App/services/file_service.py:72-73 | index 0 gives `_001` |
| FileService.TimestampName | App/services/file_service.py:74-76 | timestamp names are stem, `_`, the token, then the suffix part |
| FileService.TimestampNamesDistinct | App/services/file_service.py:74-76 | different tokens give different names, and the index plays no part |
| FileService.Extension | App/services/file_service.py:85-88 | `keep_original` gives the input's suffix lower-cased; any other format gives a dot and the format lower-cased |
| FileService.GenerateOutputPath | App/services/file_service.py:52-90 | the path ends in name + extension; under a plain configured directory it is that directory, `/`, then the file name; with no configured directory it is the file name inside `parent/watermarked` |
| FileService.DefaultOutputName | App/services/file_service.py:67-90 | with the defaults, `photo.PNG` becomes `photo__watermarked.jpg` (two underscores) |
| FileService.OutputEndsWithExtension | App/services/file_service.py:84-90 | the output path ends in the chosen extension |
| FileService.ExtensionCase | App/services/file_service.py:85-88 | JPG/JPEG formats give a JPEG extension, PNG gives `.png`, and `keep_original` keeps a JPEG suffix |
| FileService.OutputFormatDecidesFlatten | App/services/file_service.py:85-90 | the output format alone decides whether the engine flattens the saved image |
| FileService.Select | App/services/file_service.py:22-28 | the listing never holds more paths than entries |
| FileService.IsSupported | App/services/file_service.py:26-27 | a supported name has a suffix of four or five characters, starting with a dot, that ends the name |
| FileService.SelectMembers | App/services/file_service.py:22-28 | a path is listed if and only if an accepted entry joins to it |
| FileService.GetSupportedImages | App/services/file_service.py:19-29 | a missing folder gives nothing; otherwise the result is sorted and a permutation of the accepted paths |
| FileService.GetSupportedImagesMembers | App/services/file_service.py:19-29 | a path is listed if and only if the folder exists and the path is a file there with a supported suffix |
| FileService.DotfileUnsupported | App/services/file_service.py:26-27 | a file named just `.png` is not listed |
| FileService.NoSuffixUnsupported | App/services/file_service.py:26-27 | a name without a suffix is never listed |
| FileService.SupportedUpper | App/services/file_service.py:26-27 | the extension test ignores case |
| FileService.SupportedTiff | App/services/file_service.py:16 | `.TIFF` is supported |
| FileService.UnsupportedTif | App/services/file_service.py:16 | `.tif` is not supported |
| Sorting.LeTotal | App/services/file_service.py:29 | Python's string order is total |
| Sorting.LeAntisym | App/services/file_service.py:29 | the string order is antisymmetric |
| Sorting.LeTrans | App/services/file_service.py:29 | the string order is transitive |
| Sorting.Insert | App/services/file_service.py:29 | insertion keeps a list sorted and adds exactly the new element |
| Sorting.Sort | App/services/file_service.py:29 | `sorted` returns a sorted permutation of its input |
| Sorting.SortedUnique | App/services/file_service.py:29 | two sorted permutations of the same strings are equal |
| Sorting.SortIsSorted | App/services/file_service.py:29 | `Sort` is the only sorted permutation of its input |

## Left out

- Image loading and saving are left out: `Image.open`, `save` with its JPEG quality, and the exceptions they raise. `AddWatermark` returns `None` only for the failures the model can see: an unreadable colour, or a layer with a negative side.
- Font loading (`get_font`, its cache, the Windows font paths and the `load_default` fallback) is the `loadFont` parameter. So is the size the loaded font reports.
- PIL is given as functions: text measurement (`textbbox`), drawing the text, rotation with `expand=True`, and the per-pixel blend of a masked paste. Layer.CreateLayer: for a rotated layer, the size is whatever `rotate` returns; nothing more is stated about it.
- The preview pastes the whole layer and relies on PIL to clip it at the canvas edge. `add_watermark` crops the layer explicitly. The model uses the same clipped paste for both, which is what PIL's clipping amounts to.
- `thumbnail` with LANCZOS resampling is left out. The preview takes the shown image and the original size as inputs.
- Engine.PreviewWatermark: the same-layout promise of the preview is proved (Engine.PreviewKeepsGrid) only for a shown image whose sides are exactly proportional to the original's. `thumbnail` rounds each side to whole pixels, so a preview whose ratio differs slightly from the original's can get a different grid when two scores are nearly tied.
- Floating point is modelled as exact rationals. Python's float rounding could break an exact tie between grid scores, or land a margin product on a different integer.
- Helpers.ParseHexInt models `int(s, 16)` for ASCII strings only, where `int` skips just space and `\t` to `\r`. A string holding any non-ASCII character goes through Python's Unicode transform instead: Unicode digits are read, and Unicode whitespace, including 0x1C to 0x1F, is skipped. That path is left out.
- Text.Lower lowers ASCII letters only. Python's `str.lower` also maps non-ASCII letters.
- The "timestamp" rule's token (the first eight characters of a random UUID) is a parameter.
- `mkdir`, `os.path.isdir`, `os.listdir` and `os.path.isfile` become data: a flag, a list of entries and a predicate.
- Paths: POSIX separator and join rules only. Windows `\` separators and drive letters, which `os.path.join` and `pathlib` use on Windows, are not modelled.
- `pathlib` normalises a configured output directory (repeated or trailing slashes, inner `.` parts). Paths.PathJoin handles only `.`, the empty path and a trailing slash.
- Image modes other than RGB and RGBA are left out: an input is converted to RGBA first.
- Layer.LayerSpecOf: an opacity outside [0, 100] or a component outside [0, 255] is passed to the drawing function as computed. PIL's handling of such a fill is not modelled.
- Placement.MarksDisjoint requires the layer to fit in a grid cell. The code does not keep larger layers apart, and neither does the model.
- FileService.Select states only a length bound. Its contents are stated by FileService.SelectMembers.
- The remaining operations of the three files are I/O, UI support or float formatting: `get_font`, `validate_image`, `get_image_info`, `get_file_size`, `cleanup_temp_files`, `get_available_space`, `estimate_output_size`, `validate_output_directory`, `get_file_extension`, `create_backup`, `get_default_fonts` and `get_system_info`.

## Findings

| source | as written | input that shows it | evidently intended | confidence | as-written member | corrected member |
|---|---|---|---|---|---|---|
| App/utils/helpers.py:157-170 | `is_valid_color` accepts any six characters `int(_, 16)` reads, including underscores between digits | `12_345` is accepted, then `get_rgb_from_color` raises on the pair `_3` | accept exactly six hex digits after the `#`s | high (not executed) | Helpers.UnderscoreColorAccepted | Helpers.HexColorReadable |
| App/utils/helpers.py:157-170 | the same check accepts a leading sign | `#-12345` is accepted and reads as the components (-1, 0x23, 0x45), and -1 is not a byte | accept exactly six hex digits after the `#`s | high (not executed) | Helpers.SignedColorAccepted | Helpers.HexColorReadable |
