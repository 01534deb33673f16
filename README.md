# FPGA median-filter golden model, in Dafny

This project models the software reference ("golden model") of an FPGA 3x3
median-filter pipeline and proves properties of it. The pipeline has three parts:

- **HEX decoder** (`load_hex`). It reads a HEX memory image: one greyscale sample per
  line, written in hexadecimal. It trims the lines and drops blank ones. It requires
  exactly 256 x 256 lines, parses each one as a base-16 integer and collects every bad
  line before failing. On success it reshapes the samples into a row-major grid.
- **Median filter** (`original_median_filter`). It pads the grid by one sample on each
  side in numpy's `'reflect'` mode. For every pixel it flattens the 3x3 window and runs
  a fixed odd-even transposition network in place on a scratch copy. It then writes
  element 4 into a fresh output array.
- **HEX encoder and input plumbing** (`img2HEX.py`). This covers the per-pixel
  `"%02X\n"` writer (the same format `np.savetxt(..., fmt='%02X')` produces), the
  path-suffix checks, and salt-and-pepper noise injection. The random coordinates are
  passed in as parameters.

The modules follow the program's structure:

- `PixelGrid` (`pixel_grid.dfy`): bytes, grids, flatten and reshape.
- `SortingNetwork` (`sorting_network.dfy`): compare-and-swap, the network, the in-place
  window sort, and what the network does and does not compute.
- `MedianFilter` (`median_filter.dfy`): reflect padding, windows, and the filter method.
- `HexCodec` (`hex_codec.dfy`): line splitting, `str.strip`, `int(s, 16)`, the decoder
  and the encoder.
- `Img2Hex` (`img2hex.dfy`): path checks, noise, and the writer loop.
- `MedianPipeline` (`pipeline.dfy`): load, filter and write, end to end.

Sizes are parameters (`rows`, `cols`). The program fixes both at `ImageSize` = 256, and
the end-to-end method uses that value.

The network is modelled exactly as written: 4 rounds, each an even phase
(0-1, 2-3, 4-5, 6-7) and an odd phase (1-2, 3-4, 5-6, 7-8). The comment at
`median.py:106` calls this "sufficient for 9 elements", which would make element 4 the
median. It is not. The model follows the code, proves a counterexample, and proves that
a fifth round fixes it (see Findings).

The code never checks a grid's shape, because numpy arrays are rectangular; the model
makes the shape the precondition `IsGrid`.

## Model

| member | source | states |
|---|---|---|
| PixelGrid.Reshape | Python/median-filter/median.py:57 | cutting `rows * cols` samples into rows gives a `rows x cols` grid |
| PixelGrid.ReshapeFlatten | Python/median-filter/median.py:57 | reshaping the row-major samples of a grid gives the grid back |
| PixelGrid.FlattenReshape | Python/median-filter/median.py:57 | flattening a reshaped sample list gives the list back |
| PixelGrid.FlattenAt | Python/median-filter/img2HEX.py:65 | row-major order: cell (r, c) is sample `r * cols + c` of the flattened grid |
| PixelGrid.Flatten | Python/median-filter/img2HEX.py:65 | numpy's `flatten()`: the rows joined in order; every cell's value occurs in the result and every value of the result comes from some row |
| PixelGrid.ReshapeAt | Python/median-filter/median.py:57 | cell (r, c) of the reshaped grid is sample `r * cols + c` |
| PixelGrid.FlattenLength | Python/median-filter/img2HEX.py:72 | a `rows x cols` grid flattens to `rows * cols` samples, the count the writer returns |
| PixelGrid.GridOf | Python/median-filter/median.py:144 | reading a 2-D array as a grid keeps its shape and every cell |
| SortingNetwork.CompareSwap | Python/median-filter/median.py:109-110 | one comparator leaves its pair ascending, puts the minimum first and the maximum second, and touches no other element |
| SortingNetwork.CompareSwapPermutes | Python/median-filter/median.py:109-110 | a comparator keeps the window's multiset |
| SortingNetwork.PassFrom | Python/median-filter/median.py:108-113 | one phase keeps the window's length |
| SortingNetwork.Round | Python/median-filter/median.py:108-113 | an even phase followed by an odd phase keeps the length |
| SortingNetwork.Network | Python/median-filter/median.py:107-113 | the rounds keep the length |
| SortingNetwork.SortWindow | Python/median-filter/median.py:107-113 | the in-place loop nest leaves exactly `Network(old window, rounds)` in the array |
| SortingNetwork.PassFromPermutes | Python/median-filter/median.py:108-113 | a phase permutes the window |
| SortingNetwork.NetworkPermutes | Python/median-filter/median.py:107-113 | the whole network permutes the window |
| SortingNetwork.NetworkCentreInWindow | Python/median-filter/median.py:107-115 | element 4 after the network is one of the nine window values |
| SortingNetwork.PassFromConstant | Python/median-filter/median.py:108-113 | a phase leaves a constant window unchanged |
| SortingNetwork.NetworkConstant | Python/median-filter/median.py:107-113 | the network leaves a constant window unchanged |
| SortingNetwork.ApplySwaps | Python/median-filter/median.py:109-113 | a list of comparator positions keeps the length |
| SortingNetwork.PassIndicesInRange | Python/median-filter/median.py:108-111 | every comparator of a phase addresses a valid pair |
| SortingNetwork.ScheduleInRange | Python/median-filter/median.py:107-111 | every comparator of the network addresses a valid pair |
| SortingNetwork.ApplySwapsAppend | Python/median-filter/median.py:107-113 | running two comparator lists one after the other is running their concatenation |
| SortingNetwork.PassFromIsSwaps | Python/median-filter/median.py:108-113 | a phase is its fixed list of comparator positions, whatever the data |
| SortingNetwork.NetworkIsSchedule | Python/median-filter/median.py:107-113 | the network is a fixed, data-independent list of comparators |
| SortingNetwork.ScheduleOfNine | Python/median-filter/median.py:107-113 | on 9 elements a round is the comparators at 0,2,4,6 then 1,3,5,7, so 4 rounds are 32 comparators |
| SortingNetwork.RoundOfNine | Python/median-filter/median.py:107-113 | on 9 elements one round is those 8 comparators in that order |
| SortingNetwork.AboveRound | Python/median-filter/median.py:107-113 | thresholding a window commutes with a round (the 0-1 view of the network) |
| SortingNetwork.AboveNetwork | Python/median-filter/median.py:107-113 | thresholding commutes with the whole network |
| SortingNetwork.RoundBitsKeepsOnes | Python/median-filter/median.py:107-113 | a round on a 0-1 window keeps its number of ones |
| SortingNetwork.RoundsBitsKeepOnes | Python/median-filter/median.py:107-113 | the rounds on a 0-1 window keep its number of ones |
| SortingNetwork.CountBelowPrefix | Python/median-filter/median.py:115 | counting the values below m grows by one element at a time |
| SortingNetwork.CountAbovePrefix | Python/median-filter/median.py:115 | counting the values above m grows by one element at a time |
| SortingNetwork.CountBelowOfNine | Python/median-filter/median.py:115 | on 9 values, the count below m is the sum of the nine comparisons |
| SortingNetwork.CountAboveOfNine | Python/median-filter/median.py:115 | on 9 values, the count above m is the sum of the nine comparisons |
| SortingNetwork.CountsOfNine | Python/median-filter/median.py:115 | the counts below and above m are read off the 0-1 thresholds at m and m + 1 |
| SortingNetwork.FourRoundsNotMedian | Python/median-filter/median.py:106-115 | with the source's 4 rounds, `[6,7,8,9,1,2,3,4,5]` ends with 6 at index 4, 6 is not its median and 5 is |
| SortingNetwork.FourRoundsCentreIsSix | Python/median-filter/median.py:106-115 | with 4 rounds, `[6,7,8,9,1,2,3,4,5]` ends with 6 at index 4 |
| SortingNetwork.MedianOfCounterexample | Python/median-filter/median.py:115 | 5 is the median of `[6,7,8,9,1,2,3,4,5]` and 6 is not |
| SortingNetwork.FourRoundsNotMedianZeroOne | Python/median-filter/median.py:106-115 | with 4 rounds, `[1,1,1,1,0,0,0,0,0]` ends with 1 at index 4, and 1 is not its median |
| SortingNetwork.ZeroOneMedianIsZero | Python/median-filter/median.py:115 | 1 is not the median of `[1,1,1,1,0,0,0,0,0]` |
| SortingNetwork.FourRoundsBits | Python/median-filter/median.py:107 | the source's round count is four applications of a round |
| SortingNetwork.FiveRoundsSortBits | Python/median-filter/median.py:107-113 | with 5 rounds every 0-1 window of nine comes out sorted |
| SortingNetwork.SortedByThresholds | Python/median-filter/median.py:107-113 | a window whose every threshold is sorted is sorted (the 0-1 principle) |
| SortingNetwork.FiveRoundsSort | Python/median-filter/median.py:107-113 | with 5 rounds the network sorts any 9 values and keeps their multiset |
| SortingNetwork.CentreOfSorted | Python/median-filter/median.py:115 | in a sorted window of nine, at most four values lie below element 4 and at most four above |
| SortingNetwork.FiveRoundsSelectMedian | Python/median-filter/median.py:106-115 | with 5 rounds element 4 is the median of the window |
| MedianFilter.Reflect | Python/median-filter/median.py:99 | each padded position maps to a valid source index |
| MedianFilter.ReflectIsMirror | Python/median-filter/median.py:99 | for axes of 2 or more, reflect is the mirror about the edge samples, and an edge sample is not repeated |
| MedianFilter.PadReflect | Python/median-filter/median.py:98-99 | the padded grid is `(rows + 2) x (cols + 2)` |
| MedianFilter.PadIsMirror | Python/median-filter/median.py:99 | padded cell (i, j) is `img[m(i-1)][m(j-1)]` for the mirror m, and the interior is the image itself |
| MedianFilter.PadReflectCorners | Python/median-filter/median.py:99 | padded corner (0, 0) is `img[1][1]`, and likewise at the other three corners |
| MedianFilter.PadSingleRow | Python/median-filter/median.py:99 | a single-row image is padded with copies of that row |
| MedianFilter.Window | Python/median-filter/median.py:104 | the flattened 3x3 block has 9 values |
| MedianFilter.PixelWindow | Python/median-filter/median.py:104 | the window of an output pixel has 9 values |
| MedianFilter.PixelWindowOfInput | Python/median-filter/median.py:104 | entry `3*dy + dx` of the window of (y, x) is the input sample at (y+dy-1, x+dx-1), reflected |
| MedianFilter.FilterPixel | Python/median-filter/median.py:104-115 | the written value is one of the pixel's nine window values |
| MedianFilter.FilterGrid | Python/median-filter/median.py:100-115 | the filtered grid has the input's shape |
| MedianFilter.CentreAfterNetwork | Python/median-filter/median.py:104-115 | a scratch copy of the window, sorted in place, yields element 4 of the network's output |
| MedianFilter.FilterAt | Python/median-filter/median.py:104-115 | the value computed for pixel (y, x) from the padded image is that pixel's filter value, one of its window's nine values |
| MedianFilter.FilterRow | Python/median-filter/median.py:103-115 | the inner loop fills every cell of row y with its filter value and leaves the other rows alone |
| MedianFilter.OriginalMedianFilter | Python/median-filter/median.py:96-118 | the output is a fresh array of the input's shape, and every cell (y, x) is the network's centre for that pixel's window |
| MedianFilter.FilteredArrayIsFilterGrid | Python/median-filter/median.py:100-115 | an array holding each pixel's value holds the filtered grid |
| MedianFilter.UniformGridUnchanged | Python/median-filter/median.py:107-115 | a uniform image of value v filters to v everywhere |
| MedianFilter.CornerImpulseRemoved | Python/median-filter/median.py:99-115 | a lone 255 in corner (0, 0) of a black image gives the window `[0,0,0,0,255,0,0,0,0]` and is filtered to 0 |
| MedianFilter.SourceFilterNotMedian | Python/median-filter/median.py:102-115 | the filter as written gives 6 at the centre of `[[6,7,8],[9,1,2],[3,4,5]]`, and 6 is not the window's median |
| MedianFilter.CorrectedFilterSelectsMedian | Python/median-filter/median.py:106-115 | with 5 rounds every output pixel is the median of its window |
| HexCodec.UniversalNewlines | Python/median-filter/median.py:34 | text mode leaves no carriage return and never lengthens the text |
| HexCodec.UniversalNewlinesNoCr | Python/median-filter/median.py:34 | text without carriage returns is read unchanged |
| HexCodec.CrLfIsOneBreak | Python/median-filter/median.py:34 | a `\r\n` pair reads as one `\n`, not two, so text mode is not a plain replacement of every `\r` |
| HexCodec.LoneCarriageReturnRead | Python/median-filter/median.py:34 | a lone `\r` between two digit pairs reads as `\n` |
| HexCodec.LoneCarriageReturnSplits | Python/median-filter/median.py:34-35 | two written samples separated by a lone `\r` read as the same two sample lines as with `\n`, one per sample |
| HexCodec.LineLength | Python/median-filter/median.py:35 | the first line ends at the first newline, which it includes |
| HexCodec.FileLines | Python/median-filter/median.py:34-35 | `for line in f`: at most one line per character, and no line exactly when the text is empty; FileLinesJoin and FileLinesBreaks fix the lines themselves |
| HexCodec.FileLinesJoin | Python/median-filter/median.py:35 | iterating the file yields non-empty lines that join back to the text |
| HexCodec.FileLinesBreaks | Python/median-filter/median.py:35 | each line runs up to and including the next newline: no line holds a newline before its last character, and every line but the last ends with one |
| HexCodec.IsSpace | Python/median-filter/median.py:35 | what `str.strip()` removes: space, tab, `\n`, `\r`, vertical tab and form feed among others, and never a hex digit, a sign or an underscore |
| HexCodec.StripLeft | Python/median-filter/median.py:35 | removes exactly the leading whitespace |
| HexCodec.StripRight | Python/median-filter/median.py:35 | removes exactly the trailing whitespace |
| HexCodec.Strip | Python/median-filter/median.py:35 | the result neither starts nor ends with whitespace |
| HexCodec.StripBounds | Python/median-filter/median.py:35 | the stripped line is a slice of the line with only whitespace cut on either side |
| HexCodec.NonBlank | Python/median-filter/median.py:35 | keeps no more lines than it is given; NonBlankOne and NonBlankAppend fix which lines are kept and in what order |
| HexCodec.NonBlankOne | Python/median-filter/median.py:35 | a single line is kept, stripped, exactly when it is not blank once stripped |
| HexCodec.NonBlankAppend | Python/median-filter/median.py:35 | the kept lines of `a + b` are those of `a` followed by those of `b`, so line order and duplicate lines are kept |
| HexCodec.NonBlankSound | Python/median-filter/median.py:35 | every kept line is non-empty, starts and ends with a non-space character, and is the stripped form of some input line |
| HexCodec.NonBlankComplete | Python/median-filter/median.py:35 | every input line whose stripped form is not empty is kept, stripped |
| HexCodec.HexLines | Python/median-filter/median.py:34-35 | the list comprehension over the file: at most one line per character, each non-empty with no whitespace at either end |
| HexCodec.DigitValue | Python/median-filter/median.py:44 | a hex digit is worth less than 16 |
| HexCodec.DigitsOk | Python/median-filter/median.py:44 | the digit part `int(s, 16)` accepts: it starts and ends with a hex digit and has no doubled underscore |
| HexCodec.DigitsValue | Python/median-filter/median.py:44 | the base-16 value of the digits, underscores skipped, is below 16 to the number of characters |
| HexCodec.ParseUnsigned | Python/median-filter/median.py:44 | a plain digit string parses to its base-16 value; anything accepted starts and ends with a hex digit |
| HexCodec.ParseHexLiteral | Python/median-filter/median.py:44 | `int(s, 16)`: a plain digit string parses to its value, an accepted literal ends with a hex digit, and a negative value needs a leading `-` |
| HexCodec.Classify | Python/median-filter/median.py:43-49 | a line is good exactly when it parses to a value in 0..255; it is `InvalidHex` exactly when it does not parse, and otherwise `OutOfRange` |
| HexCodec.ParseAccepts | Python/median-filter/median.py:44 | `int(s, 16)` accepts `ff`, `0xFF` and `0x_f` with their values |
| HexCodec.ParseAcceptsSeparators | Python/median-filter/median.py:44 | `int(s, 16)` accepts `f_f` and `+7` with their values |
| HexCodec.ParseOutOfRange | Python/median-filter/median.py:44-46 | `-1` and `100` parse to -1 and 256 and are reported as out of range |
| HexCodec.ParseRejects | Python/median-filter/median.py:44-49 | `g1`, `f__f`, `_f`, `f_`, `0x` and the empty line do not parse, and `zz` is invalid hex |
| HexCodec.ScanStep | Python/median-filter/median.py:42-49 | one more line appends its value if it parses and an entry if it is bad |
| HexCodec.ScanInvalid | Python/median-filter/median.py:48-49 | a line that does not parse appends an `InvalidHex` entry with its 1-based position and no value |
| HexCodec.ScanOutOfRange | Python/median-filter/median.py:45-47 | a value outside 0..255 appends an `OutOfRange` entry and is still appended to the pixels |
| HexCodec.ScanInRange | Python/median-filter/median.py:44-47 | a value in 0..255 is appended to the pixels and adds no entry |
| HexCodec.Parsed | Python/median-filter/median.py:40-47 | the `pixels` list: at most one value per line; ParsedWhenClean and ScanStep fix its contents |
| HexCodec.BadEntries | Python/median-filter/median.py:41-49 | the `bad_lines` list: at most one entry per line; BadEntriesSound and BadEntriesComplete fix its contents |
| HexCodec.BadEntriesSound | Python/median-filter/median.py:42-49 | every recorded entry names a bad line by its 1-based position among the non-blank lines, with that line's text and reason, and the entries are in line order |
| HexCodec.BadEntriesComplete | Python/median-filter/median.py:42-49 | every bad line has an entry carrying its 1-based position |
| HexCodec.ParsedWhenClean | Python/median-filter/median.py:47-57 | with no bad line, every line parses to a byte and the pixel list is exactly those bytes in line order, so an out-of-range value never reaches the grid |
| HexCodec.BadEntriesEmptyIff | Python/median-filter/median.py:42-51 | the bad-line list is empty exactly when every line parses to a byte |
| HexCodec.ToBytes | Python/median-filter/median.py:57 | in-range values convert to bytes unchanged |
| HexCodec.CleanPixels | Python/median-filter/median.py:47-57 | with no bad line, one byte per line, each the value the line parses to |
| HexCodec.ScanLines | Python/median-filter/median.py:40-49 | the scan loop builds exactly the pixel list and the bad-line list, without stopping early |
| HexCodec.LoadHex | Python/median-filter/median.py:30-63 | the loader returns exactly `Decode` of the text: the grid or the error it exits with |
| HexCodec.Decode | Python/median-filter/median.py:30-59 | `load_hex` as a function: a line count other than `rows * cols` is the count error, checked first; a bad-line error carries a non-zero total and the first `min(5, total)` entries; a success is a `rows x cols` grid. DecodeFailsIffBadLine and DecodeSuccess fix when each case happens and what the grid holds |
| HexCodec.DecodeCountChecked | Python/median-filter/median.py:35-38 | any non-blank line count other than `rows * cols`, zero included, is a count error carrying the expected and actual counts, whatever the lines hold |
| HexCodec.DecodeFailsIffBadLine | Python/median-filter/median.py:42-55 | with the right count, loading fails exactly when some line is bad, reporting the total number of bad lines and the first five |
| HexCodec.DecodeSuccess | Python/median-filter/median.py:51-59 | on success the grid is `rows x cols` and its row-major order holds the values of the lines in line order |
| HexCodec.HexDigit | Python/median-filter/median.py:144 | an upper-case hex digit with the given value |
| HexCodec.Hex2 | Python/median-filter/img2HEX.py:70 | `%02X`: exactly two characters, each a digit or an upper-case letter A-F, whose hex value is the sample |
| HexCodec.EncodeText | Python/median-filter/img2HEX.py:68-70 | three characters per sample |
| HexCodec.EncodeTextAppend | Python/median-filter/img2HEX.py:69-70 | writing one more sample appends its line |
| HexCodec.TwoSamplesWritten | Python/median-filter/img2HEX.py:69-70 | two samples are written as their two `%02X` lines |
| HexCodec.ParseHex2 | Python/median-filter/median.py:35-46 | a written line strips to two digits that parse back to the sample, in range |
| HexCodec.StripDigitLine | Python/median-filter/median.py:35 | a two-digit line with its newline strips to the two digits |
| HexCodec.ParseDigitPair | Python/median-filter/median.py:44 | two hex digits parse to sixteen times the first plus the second |
| HexCodec.DigitLines | Python/median-filter/img2HEX.py:68-70 | one two-digit line per sample |
| HexCodec.DigitLinesCons | Python/median-filter/img2HEX.py:68-70 | the two-digit lines of the samples start with the first sample's line |
| HexCodec.DigitLinesSnoc | Python/median-filter/img2HEX.py:68-70 | the two-digit lines of the samples end with the last sample's line |
| HexCodec.EncodingFirstLine | Python/median-filter/median.py:35 | the first line read from the written text is the first sample's line with its newline, and the rest are the lines of the rest |
| HexCodec.NoCrInEncoding | Python/median-filter/img2HEX.py:70 | the written text has no carriage return |
| HexCodec.NonBlankOfEncoding | Python/median-filter/median.py:35 | the non-blank lines of the written text are the samples' two-digit lines |
| HexCodec.HexLinesOfEncoding | Python/median-filter/median.py:34-35 | reading the written text back yields one two-digit line per sample |
| HexCodec.ScanOfEncoding | Python/median-filter/median.py:40-49 | scanning those lines finds no bad line and collects exactly the samples |
| HexCodec.DecodeEncode | Python/median-filter/median.py:30-59 | round trip: loading the text written for any `rows x cols` grid gives the grid back |
| HexCodec.UpperDigit | Python/median-filter/img2HEX.py:70 | the digit `%X` writes for a digit's value: same value, upper case, and unchanged unless it is `a`-`f` |
| HexCodec.PairValue | Python/median-filter/median.py:44 | a two-digit line parses to its value, which fits a byte |
| HexCodec.Hex2OfPair | Python/median-filter/img2HEX.py:70 | `%02X` of a two-digit line's value is that line upper-cased |
| HexCodec.EncodeCanonical | Python/median-filter/img2HEX.py:68-70 | samples read from two-digit lines are written back as those lines upper-cased, one per line |
| HexCodec.EncodeOfDecode | Python/median-filter/median.py:30-59 | round trip the other way: a text of `rows * cols` non-blank two-digit lines, in either case and with any padding or blank lines, loads, and writing the grid back gives those lines upper-cased, each followed by a newline |
| HexCodec.WrittenTextIsCanonical | Python/median-filter/img2HEX.py:65-70 | the text written for any grid meets EncodeOfDecode's premise and is its own upper-cased form, so the two round trips agree on it |
| Img2Hex.LastComponent | Python/median-filter/img2HEX.py:50 | the text after the last dot, or the whole path: a dot-free suffix preceded by a dot when shorter |
| Img2Hex.LowerChar | Python/median-filter/img2HEX.py:48-50 | an ASCII capital maps to its small letter; every other character is kept |
| Img2Hex.Lower | Python/median-filter/img2HEX.py:48-50 | lower-casing keeps the length and maps each character on its own |
| Img2Hex.LowerWithoutCapitals | Python/median-filter/img2HEX.py:50 | a string without capital letters is its own lower-case form |
| Img2Hex.LastComponentWithoutDot | Python/median-filter/img2HEX.py:50 | a path without a dot is its own last dot-separated part |
| Img2Hex.ValidateInputsIff | Python/median-filter/img2HEX.py:46-51 | the paths pass exactly when the lower-cased input ends in .jpg, .jpeg, .png or .bmp and the output's last part, lower-cased, is `hex`; an unsupported input is reported first |
| Img2Hex.ValidateInputs | Python/median-filter/img2HEX.py:46-51 | `validate_inputs`: paths that pass have an output path of at least three characters, the `hex` part; ValidateInputsIff gives the full condition and shows an unsupported input is reported first |
| Img2Hex.NoiseCount | Python/median-filter/img2HEX.py:34 | `int(noise_amount * height * width)` is at least 0 for a non-negative amount and at most the pixel count for an amount up to 1 |
| Img2Hex.UpperCaseHexAccepted | Python/median-filter/img2HEX.py:48-50 | `a.HEX` is accepted as output |
| Img2Hex.DoubleExtensionRejected | Python/median-filter/img2HEX.py:50-51 | `a.hex.txt` is rejected as output |
| Img2Hex.BareHexAccepted | Python/median-filter/img2HEX.py:48-50 | a dot-free output path `hex` passes, as does an upper-case `.JPEG` input |
| Img2Hex.UnsupportedInputRejected | Python/median-filter/img2HEX.py:48-49 | a `.gif` input is rejected even with a good output path |
| Img2Hex.NoisedPixel | Python/median-filter/img2HEX.py:37-42 | a pixel that changes becomes 0 or 255 |
| Img2Hex.AddSaltPepperNoise | Python/median-filter/img2HEX.py:25-44 | a non-positive amount returns the same array; otherwise a fresh copy of the same shape gets salt and then pepper at the given positions, and the input array is not modified |
| Img2Hex.SaltThenPepper | Python/median-filter/img2HEX.py:37-42 | a position hit by both salt and pepper ends at 0 |
| Img2Hex.LastRowAndColumnUntouched | Python/median-filter/img2HEX.py:37-42 | with coordinates drawn below `dim - 1`, the last row and column keep their values |
| Img2Hex.DrawnPositionsAreExtremes | Python/median-filter/img2HEX.py:37-42 | every pepper position ends at 0 and every salt position at 0 or 255 |
| Img2Hex.WriteHex | Python/median-filter/img2HEX.py:65-72 | the flattened image is written by WriteSamples, so the text is one `%02X` line per pixel in row-major order; returns the pixel count, and the text loads back to the image |
| Img2Hex.WriteSamples | Python/median-filter/img2HEX.py:69-70 | the `for px in pixels` loop writes exactly the `%02X` text of the samples, in order |
| Img2Hex.ConvertToHex | Python/median-filter/img2HEX.py:60-72 | the count is the number of pixels; the text is exactly the `%02X` lines, in row-major order, of the grid it loads back to, and that grid is the image, noised when the amount is positive |
| MedianPipeline.ProcessHex | Python/median-filter/median.py:129-144 | a load error is passed on unchanged; otherwise the output is exactly the `%02X` lines of the filtered grid in row-major order, `3 * 256 * 256` characters long, and it loads back to the filtered grid |

## Left out

- File and console I/O: opening, reading and writing files, `debug_image`, progress
  messages, and the `sys.exit` calls. Each exit is an error result instead
  (`LoadError`, `PathError`). The model writes each line end as `"\n"`; text mode
  writes `os.linesep` instead, which is `"\r\n"` on Windows, and reads a `"\r\n"` pair
  back as one `"\n"` (CrLfIsOneBreak). The model reads the file as already-decoded text. The
  character-encoding step that turns the file's bytes into that text is not modelled.
- PIL and numpy image loading, greyscale conversion and resizing (`img2HEX.py:57`), and
  PNG saving and verification (`median.py:65-94`). These are foreign library calls. The
  converter starts from the greyscale array.
- Timing (`median.py:135-140`), argparse, the converter's `main`, the noise-range check
  at `img2HEX.py:88`, and the exception wrapping at `img2HEX.py:74-75`. These are
  process plumbing.
- ParseHexLiteral: models `int(s, 16)` with an optional sign, a `0x`/`0X` prefix and
  single underscores between digits. It does not accept the non-ASCII digits that
  Python's `int` also accepts.
- Lower: lower-cases ASCII letters only. `str.lower` also maps other scripts, and can
  change a string's length.
- AddSaltPepperNoise: the random coordinates are parameters, and the method requires
  them to be below `dim - 1`, as `np.random.randint(0, dim - 1)` draws them. When
  `num_noise > 0` it requires both sides to be at least 2, because `randint` then raises
  an error for a side of 1; that error path is not modelled. With `num_noise == 0` no
  coordinate is drawn and any shape is accepted. The converter always works at 256 x 256,
  where the error cannot arise.
- NoiseCount: computes `int(noise_amount * height * width)` as the floor of the exact
  real product. The floor equals `int()`, which truncates, for non-negative amounts, and
  those are the only ones that reach this line, since `img2HEX.py:27-28` returns first
  for an amount of 0 or less. The floating-point rounding of the product is not
  modelled.
- EncodeOfDecode: covers texts whose non-blank lines are two hex digits. The loader
  also accepts other forms, such as `1`, `0x01` or `+01`; each loads as 1 and is
  written back as `01`, so for those the text does not come back, not even upper-cased.
- OriginalMedianFilter: requires at least one row and one column. numpy's `pad` raises
  an error on an empty axis, and the loaded grid is always 256 x 256.
- UniversalNewlines: models text mode's default newline handling: `\r\n` and a lone `\r`
  both become `\n`, so `"FF\r00\n"` reads as the two lines `FF` and `00`. Only the
  default `newline=None` mode is modelled, since that is the one the loader uses.
- Python/compare_images.py, Results_Validation_Code/compare.py,
  Results_Validation_Code/edge_colour_fusion.py and
  Python/Edge-detection/sobel_operator.py are not part of this model. They are
  floating-point image metrics, a Sobel convolution and plotting.

## Findings

| source | as written | input that shows it | evidently intended | confidence | as-written member | corrected member |
|---|---|---|---|---|---|---|
| Python/median-filter/median.py:106-115 | 4 rounds (8 phases) of odd-even transposition on the 9-value window, then `window[4]` is taken as the median | window `[6,7,8,9,1,2,3,4,5]` (the centre pixel of the image `[[6,7,8],[9,1,2],[3,4,5]]`) gives 6 where the median is 5; the 0-1 window `[1,1,1,1,0,0,0,0,0]` gives 1 where the median is 0 | a network that places the median at index 4 for every window; with a fifth round the same network sorts every window of nine | high: proved, not executed | SortingNetwork.FourRoundsNotMedian | SortingNetwork.FiveRoundsSelectMedian |
