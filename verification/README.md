# ascii-cam in Dafny

ascii-cam turns a picture into ASCII art. It reads an image, groups its pixels into rows,
gives each pixel a brightness with the luminosity weights 0.21 / 0.72 / 0.07 (capped at 255),
stretches the brightnesses of the whole picture linearly onto [0, 255], and picks for each
brightness the glyph of a 65-character palette whose index is the brightness scaled onto
[0, n - 1] and rounded. The grid of glyphs is written out one row per line, by default to
`<stem>_ascii.txt`; `--invert` reverses the palette first.

The project has three files:

- `Data.dfy` — module `Errors` (the Python exceptions the pipeline can raise, as a `Result`
  datatype), module `Data` (the palette, `MAX_PIXEL_VALUE`, the grid types, shape predicates)
  and module `Rounding` (Python's `round`, which rounds halves to the even neighbour).
- `Processing.dfy` — module `Processing`:
  - `to_array` (processing.py:18-21) is `ToArray`, built from `RowCount` (the values of the
    `range`) and `Chunk` (one slice);
  - `brightness` (processing.py:24-32) is the method `Brightness`, a loop proved equal to the
    function `BrightnessOf`, which caps `WeightedSum` (the sum over `zip`, lines 28-30);
  - `brightness_matrix` (processing.py:35-36) is `BrightnessMatrix`;
  - `normalize_brightness` (processing.py:39-49) is the method `NormalizeBrightness`, in place
    over the row buffers it is given, proved equal to the pure `Normalize`; the extremes are
    `GridMax`/`GridMin` over `MaxOf`/`MinOf` (lines 40-41), and a row is rescaled by
    `RescaleRow` (lines 46-47) cell by cell with `Rescale` (line 47);
  - `ascii_char` (processing.py:52-56) is `AsciiChar`: `ScaledIndex` is `i_hat` (line 54),
    `AsciiIndex` rounds it (line 55) and `PyIndex` is the lookup (line 56);
  - `asciify` (processing.py:59-61) is `Asciify` and `convert` (processing.py:64-67) is
    `Convert`.
- `Cli.dfy` — module `Cli`:
  - `Split`, `JoinWith` and `Concat` are `str.split`, `sep.join` and `''.join`;
  - `default_output_name` (main.py:33-36) is `DefaultOutputName`, with `Name` for `path.name`
    and `Stem` for the dot-separated pieces before the last, joined;
  - the text `save_image` writes (main.py:29) is `SaveText`;
  - the `CLI` class (main.py:39-41, 60-61) is the class `Cli.Cli`, whose palette the
    `--invert` step replaces by its `Reverse`.

Brightnesses are exact `real`s, pixels are `seq<int>`, text is `seq<char>`. Every exception
the code can raise on the modelled path is a `Result` error: `ValueError` from `range` with
step 0 or from `max()`/`min()` of an empty sequence, `ZeroDivisionError` from a picture of a
single brightness, `IndexError` from an empty palette.

The palette has 65 characters (data.py:1). The luminosity formula is the only brightness.
A picture of a single brightness raises `ZeroDivisionError` instead of producing output.
Ties in the index rounding go to the even index.

## Model

| member | source | states |
|---|---|---|
| Rounding.RoundHalfEven | processing.py:55 | `round` gives an integer within 0.5 of its argument, and an exact tie yields the even neighbour |
| Rounding.RoundIsNearest | processing.py:55 | the rounded value is at least as close to the argument as any other integer |
| Rounding.RoundMonotone | processing.py:55 | rounding preserves order |
| Rounding.RoundWithin | processing.py:55 | a value between two integers rounds to an integer between them |
| Rounding.RoundOfInteger | processing.py:55 | an integer rounds to itself |
| Processing.ToArray | processing.py:18-21 | row chunking fails with ValueError exactly when the width is 0 (`range` step 0) |
| Processing.ToArrayFlatten | processing.py:21 | concatenating the rows gives back the pixel list in order |
| Processing.ToArrayRowLength | processing.py:21 | row k has exactly `width` pixels unless it is the last row, which has between 1 and `width` |
| Processing.ToArrayRowLengths | processing.py:21 | every row but the last has exactly `width` pixels, the last between 1 and `width`; no rows exactly when no pixels |
| Processing.ToArrayFullRows | processing.py:21 | when the pixel count is a multiple of the width every row has `width` pixels |
| Processing.BrightnessOf | processing.py:24-32 | the brightness is the smaller of the weighted sum and 255: at most both, and equal to one of them |
| Processing.LuminosityFormula | processing.py:26-30 | for a pixel of three or more channels the sum is 0.21·r + 0.72·g + 0.07·b, extra channels ignored |
| Processing.BrightnessInRange | processing.py:24-32 | channels in [0, 255] give a brightness in [0, 255] that the cap leaves unchanged |
| Processing.Brightness | processing.py:24-32 | the accumulating loop over `zip(pixel, weights)` computes exactly the capped weighted sum |
| Processing.BrightnessMatrix | processing.py:35-36 | same shape as the image, each cell the brightness of its pixel |
| Processing.BrightnessMatrixInRange | processing.py:35-36 | an image of in-range RGB pixels has every brightness in [0, 255] |
| Processing.GridMax | processing.py:40 | the maximum is at least every cell and is some cell |
| Processing.GridMin | processing.py:41 | the minimum is at most every cell and is some cell |
| Processing.Rescale | processing.py:47 | a value between the extremes maps into [0, 255]; the minimum maps to 0, the maximum to 255 |
| Processing.RescaleMonotone | processing.py:47 | the rescaling preserves order |
| Processing.Normalize | processing.py:39-49 | ValueError exactly when the grid or a row is empty, ZeroDivisionError exactly when all cells are equal, otherwise a grid of the same shape with cells in [0, 255] |
| Processing.NormalizeRowwise | processing.py:45-47 | a grid whose every row is the rescaled row, with extremes taken from the input, is the normalised grid |
| Processing.NormalizeCell | processing.py:47 | each output cell is the rescaling of the input cell by the input's extremes |
| Processing.NormalizeExtremeCells | processing.py:40-47 | a cell holding the minimum becomes 0 and a cell holding the maximum becomes 255 |
| Processing.NormalizeMonotone | processing.py:47 | normalisation preserves the order between any two cells |
| Processing.NormalizeSpansRange | processing.py:39-49 | the normalised grid has minimum exactly 0 and maximum exactly 255 |
| Processing.UniformGridDividesByZero | processing.py:47 | a non-empty grid of one brightness raises ZeroDivisionError |
| Processing.Snapshot | processing.py:43 | the values of the row buffers, one row per buffer |
| Processing.NormalizeBrightness | processing.py:39-49 | in place over the caller's rows: on error nothing is written; on success the result is a new outer list whose rows are the caller's own row lists, so every write also lands in the input, and its contents equal `Normalize` of the contents before the call, so the extremes come from the input although rows are overwritten |
| Processing.RescaleRowsInPlace | processing.py:45-47 | after the outer loop every row buffer holds its old contents rescaled |
| Processing.RescaleRowInPlace | processing.py:46-47 | after the inner loop the row holds its old contents rescaled, each cell read before it is written |
| Processing.PyIndex | processing.py:56 | Python indexing succeeds exactly for −n ≤ k < n, negative k counting from the end, otherwise IndexError |
| Processing.AsciiCharInRange | processing.py:52-56 | for a brightness in [0, 255] and a non-empty palette the index lies in [0, n − 1] and the glyph is the palette entry there; 0 gives the first glyph and 255 the last |
| Processing.AsciiIndexBounds | processing.py:53-55 | the rounded index of a brightness in [0, 255] lies in [0, n − 1]; 0 gives 0 and 255 gives n − 1 |
| Processing.ScaledIndexBounds | processing.py:54 | the unrounded index `(n − 1)·b / 255` lies in [0, n − 1] |
| Processing.ScaledIndexMonotone | processing.py:54 | the unrounded index is monotone in the brightness |
| Processing.AsciiIndexMonotone | processing.py:54-55 | a brighter pixel never gets an earlier glyph |
| Processing.AsciiCharEmptyPalette | processing.py:53-56 | an empty palette makes every lookup raise IndexError |
| Processing.AsciiIndexTiesToEven | processing.py:55 | with three glyphs, brightness 63.75 (index 0.5) picks glyph 0 and 191.25 (index 1.5) picks glyph 2 |
| Processing.Asciify | processing.py:59-61 | succeeds exactly when every cell's lookup does, otherwise IndexError; the result has the grid's shape |
| Processing.AsciifyCell | processing.py:59-61 | each cell of the result is the palette entry at the cell's index |
| Processing.ConvertSucceeds | processing.py:64-67 | convert succeeds exactly when the palette is non-empty, every row has a pixel and the brightnesses are not all equal; otherwise ValueError, ZeroDivisionError or IndexError in the order the stages raise them |
| Processing.ConvertShape | processing.py:64-67 | a converted picture has the image's shape and each glyph is the palette entry at its normalised brightness's index |
| Processing.ConvertBlackBesideWhite | processing.py:64-67 | a black pixel beside a white one with palette "01" becomes the row "01" |
| Processing.ConvertUniformBlack | processing.py:64-67 | an all-black 2×2 image raises ZeroDivisionError |
| Cli.Split | main.py:34 | `str.split` always returns at least one piece |
| Cli.SplitAppendPlain | main.py:34 | appending text without a separator extends only the last piece |
| Cli.SplitAfterSep | main.py:34 | text after a separator becomes a new last piece |
| Cli.SplitPlain | main.py:34 | text without the separator splits into itself |
| Cli.SplitPiecesLackSep | main.py:34 | no piece contains the separator |
| Cli.JoinSplit | main.py:29 | joining the pieces of a split with the same separator gives the text back |
| Cli.SplitJoin | main.py:29 | splitting a join gives the pieces back when no piece contains the separator |
| Cli.ConcatSplit | main.py:34-35 | `''.join(s.split(sep))` is the text with every separator removed |
| Cli.Name | main.py:34 | `path.name` contains no '/' |
| Cli.DefaultOutputNameShape | main.py:33-36 | the default name ends in "_ascii.txt" and the part before holds no '.' and no '/' |
| Cli.StemUpToLastDot | main.py:34-35 | the stem is the file name before its last dot with the other dots removed |
| Cli.StemWithoutDot | main.py:34-35 | a name without a dot has an empty stem |
| Cli.DefaultOutputNameIgnoresDirectories | main.py:33-36 | directories in the path never reach the output name |
| Cli.StemTwoDots | main.py:34-35 | the stem of "a.b.ext" is "ab" |
| Cli.DefaultOutputNameTwoDots | main.py:33-36 | a name like "a.b.png" becomes "ab_ascii.txt" |
| Cli.DefaultOutputNameUndotted | main.py:33-36 | a name without a dot becomes "_ascii.txt" |
| Cli.SaveTextRoundTrip | main.py:29 | splitting the saved text on newlines gives back the rows when no glyph is a newline |
| Cli.SaveTextLength | main.py:29 | the saved text has one character per glyph plus one newline between consecutive rows |
| Cli.SaveTextEmpty | main.py:29 | an empty grid saves as the empty text |
| Cli.Reverse | main.py:61 | reversal keeps the length |
| Cli.ReverseAt | main.py:61 | position k of the reversed palette holds position n − 1 − k |
| Cli.ReverseInvolution | main.py:61 | inverting twice restores the palette |
| Cli.InvertedGlyph | main.py:61 | where the palette gives p[k] for a brightness, the inverted palette gives p[n − 1 − k] |
| Cli.AsciifyInvertedSucceeds | main.py:61 | glyph mapping with the inverted palette fails exactly when it fails with the palette |
| Cli.AsciifyInverted | main.py:61 | mapping with the inverted palette turns every glyph p[k] into p[n − 1 − k] |
| Cli.ConvertInverted | main.py:61 | convert with the inverted palette succeeds exactly when convert does, and mirrors every glyph |
| Cli.Cli.constructor | main.py:40-41 | a new CLI holds the default palette |
| Cli.Cli.ApplyInvert | main.py:60-61 | `--invert` replaces the palette by its reverse and otherwise leaves it alone |

## Left out

- Image decoding, `preprocess_image` (resizing to width 300 with antialiasing), `getdata` and
  `load_image` (main.py:19-24): PIL is outside this model; the row chunking they share with
  `to_array` is modelled by `ToArray` on a pixel list and a width.
- Writing the file, `print`, `Path.exists` and argument parsing (main.py:27-30, 43-85): I/O.
  Only the text `save_image` writes is modelled.
- The `-o` override (main.py:57-58): it depends on whether a file exists, which is I/O.
- my_io.py is not part of this model.
- Floating point: brightnesses and the index are exact reals, so rounding effects of IEEE-754
  arithmetic (a white pixel's brightness landing just below 255.0) are not modelled.
- Name: `path.name` is the text after the last '/'; pathlib's normalisation (trailing
  slashes, "." components, Windows separators) is not modelled.
- NormalizeBrightness: requires the rows to be distinct buffers, as every caller builds
  fresh rows; a matrix that lists the same row object twice is not modelled.
- Asciify: a row's `''.join` is taken to be the row of glyphs itself, since each glyph is a
  single character.
- The default `ascii_map` parameter of `ascii_char` (processing.py:52) is the type alias
  `ASCIIMap`, not a string; every call in the code passes a palette, so the default is not
  modelled.
- The default palette of `asciify` (processing.py:59) is not modelled: its only caller,
  `convert`, always passes a palette.
- `preprocess_image` in processing.py:10-15 duplicates the one in main.py and is left out
  with it.
