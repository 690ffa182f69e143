# bin2hex: byte-to-hex line formatting, in Dafny

A model of the formatting core of `bin2hex.py`, the helper that turns a binary
image into the hexadecimal text a simulation testbench loads. The program takes
a line width `n` (bytes per line) and a file name, reads the file, and prints
one line per group of `n` bytes. Each byte is written as two lowercase
hexadecimal characters. The byte sequence is padded with zero bytes up to a
multiple of `n`. Every group is written last byte first, so a line reads as
one little-endian word.

The model has four modules:

- `Wrappers` holds the `Option` datatype used for decoders and parsers that can fail.
- `Hex` covers `format(b, '02x')`, the rendering of one byte, and its inverse.
- `Formatter` covers `format_bytes`. It contains:
  - the padding count, with its bound and its exactness;
  - the line list, built as the code builds it;
  - the loop of the code as a method proved equal to that list;
  - an independent reference rendering of one group;
  - a decoder that reads lines back, and the round trip proved through it.
- `Args` covers `parse_args` and `print_usage`. The usage exit becomes a value:
  `ArgsResult` says whether the arguments were accepted, and `Exit` holds the
  printed lines and the exit status. The process does not terminate in the model.
  The program name, `sys.argv[0]`, is a parameter.

## Model

| member | source | states |
|---|---|---|
| `Hex.ByteToHex` | core/tests/bin2hex.py:123 | a byte becomes exactly two lowercase hex characters, high nibble first, whose value is the byte (leading zero kept) |
| `Hex.HexToByte` | core/tests/bin2hex.py:123 | a string reads back as a byte exactly when it is two lowercase hex characters, and it is then that byte's rendering |
| `Hex.HexToByteIff` | core/tests/bin2hex.py:123 | a string reads back as `b` if and only if it is the rendering of `b`, so the rendering is injective |
| `Hex.ByteToHexExamples` | core/tests/bin2hex.py:123 | 0 is "00", 1 is "01", 171 is "ab" and 255 is "ff" |
| `Formatter.CeilDiv` | core/tests/bin2hex.py:126-130 | the line count is the least `q` with `q * n >= count` |
| `Formatter.Padding` | core/tests/bin2hex.py:125-127 | `(n - count % n) % n` is below `n`, completes `count` to exactly the line count times `n`, and is 0 exactly when `n` divides `count` |
| `Formatter.PaddedShape` | core/tests/bin2hex.py:126-127 | the padded sequence is the input followed only by zero bytes, as long as the lines times `n` |
| `Formatter.HexStrings` | core/tests/bin2hex.py:123 | one two-character lowercase hex entry per byte, as many entries as bytes |
| `Formatter.HexStringsReadBack` | core/tests/bin2hex.py:123 | entry `i` of the rendered list reads back as byte `i`, so the list loses and changes nothing |
| `Formatter.PaddedHex` | core/tests/bin2hex.py:126-127 | appending `"00"` entries gives exactly the renderings of the zero-padded bytes, as many entries as the lines take times `n` |
| `Formatter.Join` | core/tests/bin2hex.py:131 | joining two-character hex pieces gives a hex string twice as long as the number of pieces |
| `Formatter.Line` | core/tests/bin2hex.py:131 | the line built from the `n` rendered entries at `i` has `2 * n` lowercase hex characters (its content is pinned by `Formatter.LineRendersGroup`) |
| `Formatter.FormatBytes` | core/tests/bin2hex.py:105-133 | the output has `ceil(count / n)` lines (none for empty input), and every line has `2 * n` lowercase hex characters |
| `Formatter.FormatBytesLoop` | core/tests/bin2hex.py:129-133 | the `range(0, len, n)` loop appending one line per step builds exactly that line list |
| `Formatter.RenderGroup` | core/tests/bin2hex.py:131 | reference line for a group: `2 * len` hex characters, pair `j` rendering byte `len - 1 - j` |
| `Formatter.JoinReversed` | core/tests/bin2hex.py:131 | joining a group's renderings taken last to first gives the reference line |
| `Formatter.LineRendersGroup` | core/tests/bin2hex.py:130-131 | the code's index expression `i + n - j - 1` over rendered bytes gives the reference line of the group at `i` |
| `Formatter.FormatBytesGroups` | core/tests/bin2hex.py:126-133 | line `k` is the reference rendering of the `k`-th group of `n` padded bytes, groups in input order |
| `Formatter.FormatIndexMapping` | core/tests/bin2hex.py:130-131 | character pair `j` of line `k` renders padded byte `k * n + (n - 1 - j)` |
| `Formatter.DecodeLine` | core/tests/bin2hex.py:131 | whatever a line decodes to renders back to that very line |
| `Formatter.DecodeRenderGroup` | core/tests/bin2hex.py:131 | every group's line decodes back to the group |
| `Formatter.DecodeLineIff` | core/tests/bin2hex.py:131 | a line decodes to a group if and only if it is that group's rendering |
| `Formatter.UnformatGroups` | core/tests/bin2hex.py:129-133 | lines rendering consecutive groups of a sequence read back as the whole sequence |
| `Formatter.RoundTrip` | core/tests/bin2hex.py:123-133 | reading the output back gives the input followed by the padding zeros |
| `Formatter.RecoverInput` | core/tests/bin2hex.py:123-133 | dropping the last `Padding` bytes of what is read back recovers the input exactly |
| `Formatter.WideLineSingle` | core/tests/bin2hex.py:126-133 | a non-empty input no longer than the width gives one line, padded with `n - count` zeros |
| `Formatter.FormatBytesExampleFull` | core/tests/bin2hex.py:119 | `[1, 2, 3, 4]` at width 2 gives `["0201", "0403"]` |
| `Formatter.FormatBytesExamplePadded` | core/tests/bin2hex.py:123-133 | `[1, 2, 3]` at width 2 gives `["0201", "0003"]`, not the `["0201", "0300"]` of the doc-comment |
| `Formatter.FormatBytesExampleEmpty` | core/tests/bin2hex.py:126-133 | empty input gives no lines |
| `Args.ParseInt` | core/tests/bin2hex.py:56 | a string parses exactly when it is an optional sign followed by decimal digits; unsigned digits give a value `>= 0`, a leading `-` a value `<= 0` |
| `Args.ParseIntPlus` | core/tests/bin2hex.py:56 | a leading `+` before digits does not change the value |
| `Args.ParseIntMinus` | core/tests/bin2hex.py:56 | a leading `-` before digits negates the value, so `"-0"` is 0 |
| `Args.ParseIntLeadingZero` | core/tests/bin2hex.py:56 | a leading `0` before digits does not change the value, so `"016"` is 16 |
| `Args.NatDigits` | core/tests/bin2hex.py:56 | the decimal digits of a natural number, without leading zeros, whose value is that number |
| `Args.ParseIntRoundTrip` | core/tests/bin2hex.py:56 | every integer parses back from its decimal rendering; with the three lemmas above this fixes the value of every accepted literal |
| `Args.ParseArgs` | core/tests/bin2hex.py:52-64 | accepted if and only if there are exactly two arguments and the first parses to an integer above 0, giving that integer and the second argument; a wrong count gives the usage error alone; a non-numeric or non-positive first argument gives the usage error with that parse error |
| `Args.ParseArgsAccepts` | core/tests/bin2hex.py:52-64 | every positive width written in decimal, with any file name, is accepted unchanged (the model has no digit-count limit on the width; see `Args.ParseInt` under "Left out") |
| `Args.ErrorMessage` | core/tests/bin2hex.py:56-60 | a non-positive width reports "Bytes per line must be a positive integer."; an unreadable one reports a message ending in the refused text between single quotes |
| `Args.UsageLine` | core/tests/bin2hex.py:19 | the usage line is `Usage: `, the program name, then ` [bytes per line] [filename]` |
| `Args.UsageExit` | core/tests/bin2hex.py:19-20 | a usage exit has status 1; with no parse error it prints the usage line alone, with one it prints the `Error:` line for it and then the usage line |
| `Args.RefusedArgsExit` | core/tests/bin2hex.py:52-61 | every refused argument list ends with status 1 and the usage line; a wrong count prints the usage line alone; with two arguments the line before it is `Error:` with the invalid-literal or not-positive message for the first argument |
| `Args.ParseArgsExamples` | core/tests/bin2hex.py:40-50 | `["16", "example.bin"]` is accepted as `(16, "example.bin")`; `[]` and `["x"]` are count errors; `"0"`, `"-3"` and `"x"` as the first of two arguments are parse errors |

## Documentation versus code

The model follows the code of `format_bytes`, not its doc-comments.

- Line 120 claims `format_bytes([1, 2, 3], 2) == ['0201', '0300']`. The code
  reverses the padded group `[3, 0]` as a whole, so it yields `'0003'` for the
  second line. `Formatter.FormatBytesExamplePadded` proves the value the code
  gives and that it differs from the documented one. Reversing the padded group
  is the designed behaviour: read as a little-endian word, the group `03 00` has
  the value `0x0003`.
- The doc-comment of `main` (line 152) expects `"0403\n0201"` for the bytes
  `01 02 03 04` at width 2. `format_bytes` gives the lines in group order, which
  is `"0201\n0403"`. The model states only the `format_bytes` behaviour.

## Left out

- `read_binary_file` (core/tests/bin2hex.py:67-102) is left out. It is file I/O, and its two failures depend only on the operating system: file not found, and other read errors.
- `main` (core/tests/bin2hex.py:136-161) is left out. It only composes the three steps and prints the lines joined by newlines.
- The actual printing and `exit(1)` are left out. `Args.UsageExit` returns the printed lines and the status as a value instead.
- `Args.ParseInt`: covers only ASCII literals, an optional `+` or `-` followed by decimal digits. Python's `int()` also accepts surrounding whitespace, underscores between digits and non-ASCII decimal digits. The model refuses those. The model also has no limit on the number of digits. Recent CPython versions (3.11 on, and the 3.10.7, 3.9.14 and 3.8.14 security releases) refuse by default a decimal string of more than 4300 digits. The limit can be changed through `PYTHONINTMAXSTRDIGITS` or `sys.set_int_max_str_digits`. The program then prints an `Error:` line with the digit-limit message and the usage line. The model instead accepts such a literal: a positive one is accepted as a width, and a non-positive one is reported as `NotPositive`. So the model neither accepts only a subset nor only a superset of what the program accepts.
- `Args.ErrorMessage`: writes the refused text in full between single quotes. Python builds this message with `%.200R`, so its `repr` switches to double quotes and escapes characters for some texts, and a text whose `repr` is longer than 200 characters is cut to 200. Neither is modelled.
- `Formatter.FormatBytes`: takes bytes in 0..255, because its only input is a binary file read. For other integers Python's `format(b, '02x')` gives longer or signed text; that is not modelled.
- `Formatter.FormatBytes`: requires `n > 0`, because `parse_args` never passes a width below 1. For `n == 0` the code raises an exception (modulo by zero). For a negative `n` it returns an empty list, since the `range` with a negative step is empty.
- `core/src/tb_verilator.cpp` is not part of this model. It is a Verilator simulation harness: environment variables, the file system, and clocking of generated foreign code.
