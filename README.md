# r4nd0m: bit-stream encoder, monobit tallies and cache keys in Dafny

r4nd0m turns market-return tables into bit strings and runs randomness tests on
them. This project models four parts of it:

- the `BinaryFrame` encoder of `SourceCode/BinaryFrame.py`;
- the integer part of the Frequency (Monobit) test of NIST SP 800-22, section 2.1,
  as written in `RandomnessTests.py` and `Main.py`;
- the `Argument` cache-key builder of `SourceCode/DataDownloader.py`;
- the column-renaming loop of `SourceCode/DataDownloader.py`.

Files (one module each):

- `wrappers.dfy` (`Wrappers`): `Option`.
- `strings.dfy` (`Strings`): character-wise `str.replace`, bit strings, zero counts.
- `symbols.dfy` (`Symbols`): the per-value encoders and their decoders.
  - `discretize`, `convert_basis_point`, `convert_floating_point`, `flip_bits`.
  - Decoders that show the codes are injective and round-trip.
- `frame.dfy` (`Frame`): the `convert` driver.
  - Per-row dispatch on the method name.
  - A functional reference for the stream partition (`FillStream`, `Streams`) and
    lemmas about it.
  - The imperative nested loops (`ConvertColumn`, `ConvertColumns`) proved equal to
    that reference.
  - The `BinaryFrame` class, whose `convert` updates `bin_data` and `method` in place.
- `randomness_tests.dfy` (`RandomnessTests`): the ±1 running sum, and the PASS/FAIL
  decision taken against a p-value supplied from outside.
- `tallies.dfy` (`Tallies`): the zero/one counters of `Main.py`.
- `data_downloader.dfy` (`DataDownloader`): the `Argument` class, its cache key and
  the renaming loop.

Modelling decisions:

- The encoder is generic in a per-row encoder `real -> Option<string>`.
  - `None` means the program stops on that row. This happens at the `exit(0)` of an
    unknown method, or when `bin()` raises on a value that is not an integer.
  - `SymbolOf` builds the encoder that `convert` dispatches to.
  - The stop is lazy, exactly as in the code. A method name is only looked at when
    a row is converted, so an unknown method with short columns does not stop.
- The IEEE 754 binary64 pattern that the `bitstring` library produces is a parameter
  (`ieee: real -> string`). It is not computed.
- `int(fp * 100)` is modelled as exact truncation toward zero (`BasisPoints`).
- With `convert=False`, a value with an integral value stands for an integer cell.
  Any other value makes `bin()` raise.
- `stream_size` must be at least 1. With 0, the inner loop never runs, so the outer
  loop keeps appending empty streams without moving `index` and never ends on a
  non-empty column. With a negative size, the outer guard holds even on an empty
  column, so every column hangs.
- In `RandomnessTests.py` and `Main.py`, `bin_data[c]` is a string of characters, as
  the root `BinaryFrame.py` builds it. The column list is a parameter.
  - The root class has no `columns` attribute (BinaryFrame.py:9-13), so
    `self.bin.columns` (RandomnessTests.py:22) and `bin.columns` (Main.py:38) would
    raise AttributeError on it.
  - With `SourceCode/BinaryFrame.py`, `bin_data[c]` is a list of streams, and the
    loops would compare whole streams with '0'.
  - `MonoBitTest` and `MonoBitTallies` take a `map<string, string>`. They therefore
    do not take `Frame.BinaryFrame.binData`, which is a `map<string, seq<string>>`.
  - An empty string divides by `sqrt(0)` and raises. This is modelled as the verdict
    `DivisionByZero`, which ends the test.

## Model

| member | source | states |
|---|---|---|
| Strings.Replace | SourceCode/BinaryFrame.py:79-81 | `str.replace` of one character: same length, each position replaced exactly when it held the old character, and the old character is gone when the two differ |
| Strings.Zeros | Main.py:42-46 | the number of '0' characters is at most the length |
| Strings.ZerosUniform | Main.py:42-46 | a string with no '0' has zero zeros; an all-'0' string has as many zeros as characters |
| Symbols.FlipBits | SourceCode/BinaryFrame.py:78-81 | the three chained replaces keep the length, swap 0 and 1 position by position, and leave no '2' placeholder |
| Symbols.FlipBitsInvolutive | SourceCode/BinaryFrame.py:78-81 | on a string without '2', flipping twice gives the string back |
| Symbols.FlipBitsBinary | SourceCode/BinaryFrame.py:78-81 | flipping a bit string gives a bit string |
| Symbols.FlipBitsAppend | SourceCode/BinaryFrame.py:78-81 | flipping distributes over concatenation |
| Symbols.Discretize | SourceCode/BinaryFrame.py:49-55 | "1" exactly for positive values, "0" exactly for negative ones, "01" exactly for zero |
| Symbols.DiscretizeSymmetric | SourceCode/BinaryFrame.py:49-55 | for a nonzero value, negating it flips its symbol |
| Symbols.Binary | SourceCode/BinaryFrame.py:60-62 | the digits of `bin(n)[2:]` for n > 0: a bit string of at least one digit with a leading '1' |
| Symbols.BinaryRoundTrip | SourceCode/BinaryFrame.py:60-62 | reading the binary digits of n back gives n |
| Symbols.BinaryOfValue | SourceCode/BinaryFrame.py:60-62 | a bit string with a leading '1' is the binary form of its value, so `bin` is onto such strings |
| Symbols.BasisPoints | SourceCode/BinaryFrame.py:58-59 | `int(fp * 100)`: the integer toward zero within one of fp·100, with the sign of fp |
| Symbols.ConvertBasisPoint | SourceCode/BinaryFrame.py:60-66 | the code is a bit string of at least two characters whose first bit is '1' exactly for positive values |
| Symbols.DecodeBasisPoint | SourceCode/BinaryFrame.py:60-66 | the inverse reading of a code (sign bit, then un-flipped magnitude) only succeeds on strings of at least two characters |
| Symbols.BasisPointRoundTrip | SourceCode/BinaryFrame.py:60-66 | decoding the code of every integer v gives v back |
| Symbols.BasisPointInjective | SourceCode/BinaryFrame.py:60-66 | distinct integers get distinct codes, so "01" comes only from 0 |
| Symbols.BasisPointDecodeEncode | SourceCode/BinaryFrame.py:60-66 | every bit string that decodes is the code of its decoded value |
| Symbols.BasisPointSymmetric | SourceCode/BinaryFrame.py:60-66 | for v ≠ 0 the code of -v is the flipped code of v (sign and magnitude), not a two's complement |
| Symbols.Drop1 | SourceCode/BinaryFrame.py:70 | `[1:]` drops the first character of a non-empty string and keeps the empty one |
| Symbols.ConvertFloatingPoint | SourceCode/BinaryFrame.py:68-76 | for nonzero values: as long as the pattern, with a fresh sign bit; for zero: "01"; a bit pattern gives a bit string |
| Symbols.FloatMagnitude | SourceCode/BinaryFrame.py:70-74 | the inverse reading of a float code drops its sign bit and un-flips negatives: one character shorter |
| Symbols.FloatingPointRoundTrip | SourceCode/BinaryFrame.py:68-76 | for a nonzero value, the code carries exactly the non-sign bits of the pattern |
| Symbols.FloatingPointSymmetric | SourceCode/BinaryFrame.py:68-76 | patterns of x and -x differ only in the sign bit, so the code of -x is the flipped code of x |
| Frame.Symbol | SourceCode/BinaryFrame.py:33-42 | the row stops the program exactly for an unknown method or an unscaled non-integer basis point; every symbol has at least one character, and discretize symbols at most two |
| Frame.SymbolOf | SourceCode/BinaryFrame.py:33-42 | the row encoder `convert` dispatches to never gives an empty symbol |
| Frame.Encoded | SourceCode/BinaryFrame.py:43-44 | joining the symbols of k rows gives at least k characters |
| Frame.EncodedSplit | SourceCode/BinaryFrame.py:43-44 | the encoding of a run of rows is the encoding of its two halves, one after the other |
| Frame.FillStream | SourceCode/BinaryFrame.py:31-44 | the inner loop: reaches at least `size` characters, moves past at least one row, and reads no row past the end of the column |
| Frame.Streams | SourceCode/BinaryFrame.py:29-45 | the outer loop: the first unused row lies between the starting row and the end of the column |
| Frame.FillStreamRun | SourceCode/BinaryFrame.py:31-44 | the accumulated stream is the encoding of the rows read so far, and it stayed below `size` before the last row |
| Frame.StreamIsShortestRun | SourceCode/BinaryFrame.py:31-45 | a stream is the shortest run of 1 to `size` rows reaching `size` characters; it is shorter than `size` plus its last symbol |
| Frame.FillStreamStops | SourceCode/BinaryFrame.py:33-42 | when a stream cannot be read, some row among the ones it actually reads stops the program |
| Frame.StreamsCover | SourceCode/BinaryFrame.py:29-46 | the streams joined are exactly the encoding of the consumed rows in order; at most `stream_size` rows are left over; every stream has at least `stream_size` characters |
| Frame.StreamsAreConsecutiveRuns | SourceCode/BinaryFrame.py:29-46 | cut points exist such that each stream is the shortest run between consecutive cuts, from the first row to the first unused one |
| Frame.BoundedSymbolStreams | SourceCode/BinaryFrame.py:31-45 | when no symbol is longer than w, every stream has between `stream_size` and `stream_size` + w - 1 characters |
| Frame.DiscretizeStreamLengths | SourceCode/BinaryFrame.py:31-55 | under "discretize" the column always converts and every stream has `stream_size` or `stream_size`+1 characters |
| Frame.UnknownMethodStops | SourceCode/BinaryFrame.py:30-42 | with an unknown method the program stops exactly when a column has more than `stream_size` rows |
| Frame.FillStreamTotal | SourceCode/BinaryFrame.py:31-44 | when every remaining row has a symbol, a stream is always read |
| Frame.StreamsTotal | SourceCode/BinaryFrame.py:29-45 | when every row has a symbol, the column converts without stopping |
| Frame.ConvertColumn | SourceCode/BinaryFrame.py:29-45 | the nested loops give the reference streams and end index, or stop at a row whose conversion stops the program |
| Frame.ConvertColumns | SourceCode/BinaryFrame.py:28-46 | the column loop stops exactly when some column's conversion stops; otherwise every column gets its streams and other entries are kept |
| Frame.BinaryFrame.constructor | SourceCode/BinaryFrame.py:8-17 | the table and stream size are kept, `bin_data` is empty and the method is "discretize" |
| Frame.BinaryFrame.Convert | SourceCode/BinaryFrame.py:19-46 | records the method; stops exactly when some column's conversion stops; otherwise updates `bin_data` in place with each column's streams and keeps other entries |
| RandomnessTests.MonobitSum | RandomnessTests.py:24-29 | the count of non-'0' characters minus the count of '0' characters lies between -n and n and has the parity of n |
| RandomnessTests.CountSum | RandomnessTests.py:24-29 | the ±1 loop computes that sum |
| RandomnessTests.MonobitSumUniform | RandomnessTests.py:24-29 | an all-'1' string sums to n, an all-'0' string to -n |
| RandomnessTests.ZerosFlipBits | RandomnessTests.py:24-29 | flipping a bit string turns its zeros into ones |
| RandomnessTests.MonobitSumFlip | RandomnessTests.py:24-29 | flipping a bit string negates its sum |
| RandomnessTests.FlipKeepsVerdict | RandomnessTests.py:24-33 | flipping a bit string keeps its PASS/FAIL verdict |
| RandomnessTests.MonoBitTest | RandomnessTests.py:21-42 | columns in order; FAIL exactly when the p-value is below 0.01, PASS otherwise; an empty column raises and ends the test |
| Tallies.MonoBitTallies | Main.py:36-46 | per column, counters restarted from zero: `count_zero` is the number of '0's, every other character is a one, they sum to the length, and their difference is the monobit sum |
| DataDownloader.Argument.constructor | SourceCode/DataDownloader.py:91-112 | fields are the arguments, `transformation` is `rdiff`, and a missing drop list becomes the six default columns |
| DataDownloader.Argument.ToString | SourceCode/DataDownloader.py:114-121 | the key has length 32 plus the four field lengths, starts with "Cache id=", ends with ".csv" and has no '/' or '\\' |
| DataDownloader.Dashed | SourceCode/DataDownloader.py:121 | the two chained replaces of '\\' and '/' by '-': same length, each separator becomes '-', every other character stays |
| DataDownloader.DashedAppend | SourceCode/DataDownloader.py:121 | replacing separators distributes over concatenation |
| DataDownloader.KeyText | SourceCode/DataDownloader.py:114-121 | the key is "Cache id=" + id + " start=" + start + " end=" + end + " trans=" + transformation + ".csv" with every separator in the fields turned into '-' and every other character kept |
| DataDownloader.KeyVerbatim | SourceCode/DataDownloader.py:114-121 | fields without separators appear verbatim in the key |
| DataDownloader.KeyIgnoresOtherFields | SourceCode/DataDownloader.py:114-121 | the key depends only on id, start, end and transformation, not on prefix, drop or collapse |
| DataDownloader.RenameColumns | SourceCode/DataDownloader.py:78-81 | same number and order of columns; name i becomes id + "_" + old name i |
| DataDownloader.RenamingInjective | SourceCode/DataDownloader.py:78-81 | renaming with one id keeps distinct names distinct |

## Left out

- The IEEE 754 bits of a float (`bitstring.BitArray`) are an input function, not computed. Its 64-bit width is not enforced. The root `BinaryFrame.py`, which is only that extraction, is not part of this model.
- Symbols.BasisPoints: uses exact real arithmetic. The rounding of the float product `fp * 100` (for example 0.29 * 100 = 28.999…) is not modelled.
- NaN and infinities are not modelled; values are reals.
- The `erfc` p-value and `sqrt` are floating point (scipy). The p-value is a function parameter of the absolute sum and the length.
- All printing (coloured verdicts, counter printout, error messages) is left out. `MonoBitTest` returns verdicts and `MonoBitTallies` returns counts instead.
- `exit(0)` and the exception of `bin()` both end the program. They are modelled as a `None` symbol, `ok = false` or `exited = true`, not as process exit. The partial `bin_data` left when the program stops is not specified.
- Quandl download, CSV caching and pandas `read_csv`/`set_index`/`join`/`dropna` are network and file I/O. The renaming loop is modelled on a sequence of names, and the column drop on the `drop` list only.
- A pandas table with duplicate column names is not modelled: the table is a map from names to columns.
- A missing key in `bin_data` (a KeyError) is excluded by a requires that every column has an entry.
- The drivers in `r4nd0m.py`, `TycheTester.py` and `Main.py` (`construct_binary_frame`, experiment sweeps, environment setup) are not part of this model. Neither are `SourceCode/Generators.py` and the RNG helpers.
- The drivers call a `BinaryFrame(data, start, end, years_per_block)` constructor, `convert(..., independent_samples=...)` and `run_test_suite`. None of these exists in the code of this model, so year-based partitions and the other NIST tests are not modelled.
