# mandel — a verified model of its integer core

`mandel` renders the Mandelbrot set. `CalcMandel` (mandel_omp.c) fills a
`width` × `height` grid of `PIXELVAL` iteration counts with an escape-time
loop: 0 means "in the set", any other value is the pass at which the orbit
left the radius-2 disc. `SavePic` (main.c) colours every count with the
palette `Mandelval2Color` and builds an uncompressed 24-bit Windows bitmap:
a 14-byte file header, a 40-byte bitmap header and three bytes (blue,
green, red) per cell. The separate tool rawtocolor.c reads a file of raw
counts, colours each one with its own copy of the palette, and writes the
3-byte samples out.

The model has six modules:

- `MandelH` (mandel_h.dfy) holds the fixed-width integer types `u8`, `u16`
  and `u32`, with `PIXELVAL` as `u32`. It also holds `MAXITERATION` and the
  conversion to `U8`, which keeps the low 8 bits.
- `ColorSample` (color_sample.dfy) holds `COLOR24BIT` and `ColorBytes`. That
  function gives the bytes produced by colouring a sequence of counts one by
  one. It takes the palette as a parameter, so both programs share it.
- `SaveBmp` (main.c) holds the palette, the header field values with the
  byte widths they are written with, and the buffer-fill loop. The loop
  works in place on an `array<u8>`. It is proved equal to `ColorBytes` of
  the first `width * height` cells. `SavePic` reads cell `x * height + y`
  with x outer and y inner, so it visits the cells in index order.
- `RawToColor` (rawtocolor.c) holds the duplicate palette, proved equal to
  the first, and the read–convert–write loop. The loop is modelled as a
  transform from an input byte sequence to an output byte sequence.
- `GridArith` (grid_arith.dfy) holds the facts about products and linear
  indexes `a * n + b` that both grid layouts rely on: monotonicity, the
  range of the index, its injectivity and the recovery of (a, b) from it by
  division.
- `MandelOmp` (mandel_omp.c) holds the escape-time loop and the grid loops.
  The double-precision arithmetic is passed in as opaque operations
  (`FloatOps`): a sampling function, one orbit step and the bailout test.
  The model therefore fixes the integer structure and nothing else: the
  counter starts at 1, it is bounded by `maxIterations`, reaching the bound
  maps to 0, cell (x, y) is stored at `y * width + x`, and every cell is
  written once.

`CalcMandel` stores cell (x, y) at `y * width + x`. `SavePic` reads
`x * height + y`. Each is modelled as written; the model does not reconcile
the two layouts.

`MandelOmp.CalcColumn` is one iteration of the `omp for` loop, which is one
column x. OpenMP distributes these iterations in chunks whose size is chosen
at run time (`schedule(runtime)`); the model runs them one after another.
`SaveBmp.FillColumn` is likewise the inner `y` loop of `SavePic`.

`FillColumn` reads `indata[column + y]`, and its precondition guarantees
`column == x * height`. The caller keeps `column` as a running sum, so the
cell read is the same cell the source reads. The model takes this
strength-reduced form because the product is expensive for the verifier.

The doubling `U8 *= 2` at main.c:165-167 looks as if it could wrap modulo
256, but it never does: every channel is at most 127 before it. The model
stores the product modulo 256, exactly as the code does, and proves that the
reduction never takes effect (`SaveBmp.ChannelsEvenAndBounded`).

## Model

| member | source | states |
|---|---|---|
| MandelH.ToU8 | mandel.h:5 | storing a non-negative `int` in a `U8` keeps its value when it is below 256 |
| ColorSample.Bytes | rawtocolor.c:11-16 | the definition of the byte order of COLOR24BIT (declared alike at main.c:45-50) as `fwrite(&colorval, sizeof(colorval), 1, outfile)` at rawtocolor.c:116 writes it: three bytes, blue, green, red; the ensures spells out that definition for the proofs and is not a separate property |
| ColorSample.ColorBytes | rawtocolor.c:106-117 | colouring n counts gives exactly 3·n bytes |
| ColorSample.ColorBytesSnoc | rawtocolor.c:114-116 | colouring one more count appends exactly its three bytes |
| ColorSample.ColorBytesAt | main.c:218-222 | the k-th triple of the stream is the blue, green and red of the colour of the k-th count, so order is kept |
| ColorSample.ColorBytesAppend | rawtocolor.c:106-117 | colouring is a streaming transform: the stream of a concatenation is the concatenation of the streams |
| ColorSample.ColorBytesSamePalette | rawtocolor.c:19-68 | two palettes that agree on every count give the same byte stream |
| SaveBmp.ColorIndex | main.c:133-134 | because 255/200 is the integer 1, the spread index equals `pixval % 200` and lies in [0, 199] |
| SaveBmp.Level | main.c:136-143 | the triangle rule maps every index below 255 to a level in [0, 127], and that level is 0 only for index 0 |
| SaveBmp.Advance | main.c:145 | advancing an index by 85 modulo 255 gives an index in [0, 254] |
| SaveBmp.Undoubled | main.c:133-163 | each channel is stored without truncation: it equals the triangle level of its index, at most 127 (pinned down further by LevelStored and ChannelsEvenAndBounded) |
| SaveBmp.Doubled | main.c:165-167 | the stored `U8 *= 2` is always even, and it is the exact product for a value of at most 127 (DoubledExact) |
| SaveBmp.Mandelval2Color | main.c:120-169 | 0 is black; for a nonzero count each channel is exactly twice the triangle level of its index. With the lemmas: black exactly for 0, channels even and ≤ 254, period 200, phase shifts of 85 and 170 (ZeroIsBlack, OnlyZeroIsBlack, ChannelsEvenAndBounded, ColorIsPeriodic, IndexesArePhaseShifted) |
| SaveBmp.ZeroIsBlack | main.c:124-131 | count 0 is coloured black (0, 0, 0) |
| SaveBmp.IndexesArePhaseShifted | main.c:133-155 | with blue index c, the green index is (c + 85) % 255 and the red index is (c + 170) % 255 |
| SaveBmp.DoubledExact | main.c:165-167 | doubling a channel of at most 127 gives exactly twice its value, which is even and at most 254 |
| SaveBmp.LevelStored | main.c:136-163 | storing a triangle level in a `U8` channel keeps it, and the stored value is at most 127 |
| SaveBmp.ChannelsEvenAndBounded | main.c:136-167 | for a nonzero count every channel is at most 127 before doubling, and after doubling it is exactly twice that value, even and at most 254, so the doubling never wraps |
| SaveBmp.ColorIsPeriodic | main.c:133-167 | two nonzero counts with the same residue modulo 200 get the same colour |
| SaveBmp.ColorPeriod200 | main.c:133-167 | colour(n) == colour(n + 200) for every nonzero n |
| SaveBmp.ZeroBreaksThePeriod | main.c:124-167 | 200 is coloured (0, 170, 170), which differs from the colour of 0 |
| SaveBmp.OnlyZeroIsBlack | main.c:124-167 | a count is black if and only if it is 0; blue is 0 if and only if the count is a multiple of 200; in that nonzero case green is 170 |
| SaveBmp.MakeFileHeader | main.c:186-190 | FileType is 0x4D42, both reserved fields are 0, BitmapOffset is 54 and FileSize is 54 + 3·width·height with no overflow (HeaderSizes, HeaderLayout) |
| SaveBmp.MakeBitmapHeader | main.c:192-202 | Size 40, 1 plane, 24 bits per pixel, no compression, Width and Height unchanged, SizeOfBitmap 3·width·height, resolution 1000, no palette colours (HeaderSizes, HeaderLayout, FieldsFitWidths) |
| SaveBmp.HeaderSizes | main.c:186-202 | FileSize == 54 + 3·width·height == BitmapOffset + SizeOfBitmap, SizeOfBitmap == 3·width·height, and Width and Height are stored unchanged |
| SaveBmp.HeaderLayout | main.c:239-258 | the 16 fields written take 14 + 40 = 54 bytes; 40 is the bitmap header's Size field and 54 is BitmapOffset |
| SaveBmp.FileHeaderBytes | main.c:239-243 | the five file-header fields are written in 14 bytes |
| SaveBmp.BitmapHeaderBytes | main.c:245-255 | the eleven bitmap-header fields are written in 40 bytes |
| SaveBmp.FieldsFitWidths | main.c:239-255 | every header field value fits in the number of bytes it is written with |
| SaveBmp.OnePixelFileSize | main.c:187 | a 1×1 picture is a 57-byte file |
| SaveBmp.ReadIndex | main.c:218 | for 0 ≤ x < width and 0 ≤ y < height the cell read, x·height + y, lies in [0, width·height) |
| SaveBmp.ReadIndexInjective | main.c:218 | distinct (x, y) inside the grid read distinct cells |
| SaveBmp.PutColor | main.c:220-222 | blue, green and red go to the next three bytes, the write position moves past them, and every byte before and after those three is kept |
| SaveBmp.FillColumn | main.c:216-223 | one pass of the inner loop writes the 3·height bytes of column x, each equal to the corresponding byte of the colour stream of the grid, and keeps every byte before and after them |
| SaveBmp.FillPixels | main.c:213-224 | for any palette the buffer holds exactly 3·width·height bytes and equals the colour stream of cells 0 .. width·height − 1 in index order |
| SaveBmp.FillBitmapData | main.c:213-224 | SavePic's buffer is exactly the `Mandelval2Color` stream of the first width·height cells |
| SaveBmp.BufferHoldsCellColors | main.c:214-222 | the bytes at 3·(x·height + y) + 0, 1 and 2 are the blue, green and red of `Mandelval2Color(indata[x·height + y])` |
| RawToColor.Mandelval2Color | rawtocolor.c:19-68 | the duplicate palette agrees with main.c's on every count, so black-only-for-zero, the even ≤ 254 channels and the period 200 hold for it too |
| RawToColor.DecodePixelVal | rawtocolor.c:108 | four stored bytes, least significant first, read as one PIXELVAL; decoding loses nothing, since the four bytes are exactly EncodePixelVal of the value (and DecodeEncode gives the converse) |
| RawToColor.EncodePixelVal | rawtocolor.c:108 | a PIXELVAL is stored as four bytes, least significant first (the layout fread fills the variable from) |
| RawToColor.DecodeEncode | rawtocolor.c:108 | decoding the four stored bytes of a value gives the value back |
| RawToColor.Records | rawtocolor.c:106-112 | an input of b bytes yields exactly b / 4 complete PIXELVAL records |
| RawToColor.RecordsAt | rawtocolor.c:108 | the k-th record is decoded from bytes 4k .. 4k + 3 |
| RawToColor.RecordsAppend | rawtocolor.c:106-112 | splitting the input at a record boundary splits the records |
| RawToColor.TrailingFragmentIgnored | rawtocolor.c:108-112 | a trailing fragment shorter than one PIXELVAL adds no record, so no output |
| RawToColor.NextRecord | rawtocolor.c:108-116 | one more complete record read at a record boundary appends exactly its colour's three bytes |
| RawToColor.LastRecord | rawtocolor.c:108-112 | once fewer than four bytes remain, the records already read are all the records of the input |
| RawToColor.RecordColors | rawtocolor.c:106-117 | the colour stream of the input's records has 3·(b / 4) bytes, and triple k is the colour of record k |
| RawToColor.ConvertWith | rawtocolor.c:106-117 | for any palette the loop writes one triple per complete record, 3·(b / 4) bytes in all, and the k-th triple is the colour of the k-th record |
| RawToColor.Convert | rawtocolor.c:106-117 | the conversion with rawtocolor's own palette: 3·(b / 4) bytes, the k-th triple being `Mandelval2Color` of the k-th record |
| RawToColor.OneZeroValue | rawtocolor.c:23-30 | a file holding one zero count converts to three zero bytes |
| RawToColor.SameBytesAsSavePic | rawtocolor.c:106-117 | for the same counts, the raw converter emits the same bytes as SavePic's buffer fill |
| MandelOmp.ExitCount | mandel_omp.c:15-23 | the counter never decreases, never passes the bound it starts below, and an exit below the bound means the current orbit point failed the test (completed by ExitCountIsFirstExit) |
| MandelOmp.EscapeTime | mandel_omp.c:15-31 | for maxIterations ≥ 1 the stored value lies in [0, maxIterations), and a nonzero value below the bound is a counter whose orbit point failed the test (EscapeTimeZeroIffBounded, EscapeTimeIsFirstEscape) |
| MandelOmp.ExitCountIsFirstExit | mandel_omp.c:15-23 | the loop exits at the first counter whose orbit point fails the test or that reaches the bound, and the counter never passes the bound |
| MandelOmp.EscapeTimeRange | mandel_omp.c:15-31 | for maxIterations ≥ 1 the stored value lies in [0, maxIterations) |
| MandelOmp.EscapeTimeZeroIffBounded | mandel_omp.c:17-29 | the stored value is 0 exactly when the first maxIterations − 1 orbit points all pass the bailout test |
| MandelOmp.EscapeTimeIsFirstEscape | mandel_omp.c:17-31 | a nonzero stored value n is the counter at which the test first failed: orbit point n − 1 fails and all earlier ones pass |
| MandelOmp.EscapeAtStart | mandel_omp.c:15-31 | a start point that already fails the test is stored as 1 when maxIterations > 1 |
| MandelOmp.EscapeTimeSmallBound | mandel_omp.c:15-29 | with bound 1 every point is stored as 0; with a bound below 1 it is stored as 1 |
| MandelOmp.MandelBrotIterations | mandel_omp.c:6-32 | it stores the escape time of the point at index i in `outdata[i]` and changes no other cell; the body runs ExitCount − 1 ≤ maxIterations − 1 times, one counter increment per pass |
| MandelOmp.GridIndex | mandel_omp.c:77 | for 0 ≤ x < width and 0 ≤ y < height the index y·width + x lies in [0, width·height) |
| MandelOmp.GridIndexInjective | mandel_omp.c:77 | distinct cells have distinct indexes |
| MandelOmp.GridIndexOnto | mandel_omp.c:69-83 | every index below width·height is the index of a cell (j % width, j / width) |
| MandelOmp.CellValue | mandel_omp.c:71-82 | the value computed for a cell is an escape time below MAXITERATION (2000) |
| MandelOmp.CalcColumn | mandel_omp.c:71-83 | every cell of column x gets its escape time and is written once more; every other cell of the grid, and everything past the grid, is unchanged |
| MandelOmp.CalcMandel | mandel_omp.c:34-96 | it returns 0; every cell (x, y) holds the escape time of its sample point; every index below width·height is written exactly once; every stored value is below MAXITERATION; nothing past the grid changes |

## Left out

- Floating-point arithmetic: the orbit step, the bailout test `r*r + i*i <= 4` and the pixel-to-plane sampling are IEEE double operations. They are opaque parameters (`FloatOps`), so no property depends on their values. For the same reason no concrete image is computed, not even a 2×2 one.
- OpenMP: the parallel region, the schedule queries and `omp_get_num_threads` are left out. The column loop runs sequentially. `GridIndexInjective` shows that no two cells share an index, which is why the parallel writes do not race.
- MandelOmp.CalcColumn: requires the three arrays to be distinct. In the source, rvals and ivals are fresh allocations, separate from the output.
- Output through `printf`: the thread count, the progress dots at mandel_omp.c:85-89, "Done calc" and every diagnostic message are left out.
- File I/O: `fopen`, `fread`, `fwrite` and `fclose`, with their error paths and return values, are left out. This includes the `written` counts, which are never checked in rawtocolor.c. The stream transform takes all of the file's bytes as one sequence.
- RawToColor.DecodePixelVal: reads a record as four bytes, least significant first. That is the layout of a 32-bit `PIXELVAL` on a little-endian host. The host's width and byte order of `unsigned long` are not modelled.
- Header encoding: the header fields are modelled as values together with the byte counts passed to `fwrite`. The bytes those calls take from a wider `unsigned long` depend on the host and are not modelled.
- SaveBmp.ValidSize: requires `54 + 3 * width * height`, and its intermediate product `3 * width`, to fit in a C `int`, because SavePic computes them in `int` and an overflow there is undefined. The same holds for `width * height` in CalcMandel.
- SaveBmp.ValidSize and MandelOmp.CalcMandel: also require width ≥ 0 and height ≥ 0, which main.c:73-74 never checks. For negative dimensions the source's loops run zero times, but it would then store negative sizes in the unsigned header fields and pass a negative size to `malloc`; the model does not cover those calls.
- `malloc`: failure handling in SavePic, and the unchecked allocations in CalcMandel, are left out. The arrays are allocated and never null.
- `main` in main.c is left out: argument parsing, timing, and the choice of file names.
- `main` in rawtocolor.c: its loop is modelled by `RawToColor.ConvertWith`; only the opening and closing of the two files is left out.
- BMP rows: a standard 24-bit BMP pads each row to a multiple of four bytes and stores rows bottom-up. SavePic does neither, and the model follows SavePic.
