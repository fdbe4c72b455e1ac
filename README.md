# XBee frame parser, modelled in Dafny

`data_parser.py` reads XBee API frames that a receiver logged as hex text
(AT Command Response frames carrying a received signal strength), checks
each frame's checksum and writes the signal strengths to a spreadsheet.
This project models the decoding and checksum core of that program and
proves what it computes:

- `hexAdder`: sums a list of two-digit hex tokens and writes the plain
  total as upper-case hex with no prefix and no padding. The model is a
  loop method, `Checksum.HexAdder`, proved against the sum function
  `Checksum.SumHex`.
- `checksumGenerator`: `hex(0xFF - x)`, including the minus sign Python
  writes when `x` is above 0xFF (`Checksum.ChecksumGenerator`).
- `checksumChecker`: appends the checksum to the caller's list in place
  and tests that the total ends in the digits "FF". The caller's list is a
  class, `Checksum.HexList`, whose contents the method updates.
- `hexParser`: removes line feeds, cuts `[6:-2]` into two-character
  tokens in a loop and slices the fixed fields of the frame. It also
  derives `checksum_added` and the one-element tuple
  `checksum_calculated`. The token loop, `FrameParser.CutTokens`, is
  proved equal to the function `FrameParser.Pairs`. The method
  `FrameParser.HexParser`, which goes through `FrameParser.DecodeText`,
  `CutTokens` and `Checksum.HexAdder`, is proved equal to the function
  `FrameParser.ParseFrame`.
- From `writeValues`, the reading written for each frame: 0 when the
  checksum check fails, otherwise the negated response byte. Also the
  running total `temp`. (`Report.WriteCell`, `Report.WriteColumn`,
  `Report.WriteValues`.)
- From `recordFragmenter`, the line filter: it skips two header lines and
  keeps the fourth comma-separated field of every "RECV" line
  (`Report.RecordFragmenter`).

The modules follow the program's layers:

- `Text` holds the Python string builtins the code relies on
  (`replace("\n", "")`, `split`, `s[-2:]`). It also holds `Join`, which the
  code never calls: it is the inverse against which `split` is proved.
- `Numerals` holds `int(s, base)` and the `hex()`/`str()` renderings.
- `Checksum`, `FrameParser` and `Report` hold the functions above.

Python raises on text `int()` cannot read. Those cases are preconditions:

- `Numerals.IsNumeral` means non-empty hex digits.
- `FrameParser.Parsable` means at least 37 characters once line feeds are
  removed, with hex digits at `[2:6]`, at `[36:38]` and at every character
  of `[6:-2]` that the token loop cuts into a token. On text of odd length
  the loop drops the last character of `[6:-2]`. No `int(_, 16)` reads
  it, so that character may be anything
  (`FrameParser.DroppedCharacterUnread`). The exception is text of 39
  characters: there the dropped character is also the first digit of
  `[36:38]`, so it must be a hex digit.
- `Report.HasFields` requires a third field, and a fourth one on "RECV"
  lines.

Where the XBee frame description and the code part ways, the model
follows the code:

- `hexAdder` returns the whole sum, not its low byte. The low byte is
  taken only afterwards, by the slice `[-2:]` in `hexParser` and
  `checksumChecker`.
- `checksumGenerator` returns the shortest digits, so a result below 0x10
  is one character ("F", not "0F").
- The start delimiter and the length field are read but never checked
  against 0x7E or against the payload length.
- `checksum_calculated` is a one-element tuple, because of the trailing
  comma on line 131. It is a one-element sequence here.

## Model

| member | source | states |
|---|---|---|
| Text.RemoveNewlines | data_parser.py:107 | the cleaned text is never longer than the input |
| Text.RemoveNewlinesMembers | data_parser.py:107 | a character occurs in the cleaned text exactly when it occurs in the input and is not a line feed; text without a line feed comes back unchanged |
| Text.RemoveNewlinesChar | data_parser.py:107 | a line feed on its own is removed, and any other single character is kept |
| Text.RemoveNewlinesAppend | data_parser.py:107 | cleaning a concatenation is cleaning each part and joining the results in order; with the single-character case this fixes the result on every text |
| Text.LineEndingRemoved | data_parser.py:107 | a line without line feeds, followed by the line feed `readlines` keeps, is cleaned back to the line |
| Text.RemoveNewlinesIdempotent | data_parser.py:107 | removing line feeds a second time changes nothing |
| Text.LastTwo | data_parser.py:129 | `s[-2:]` is a suffix of `s`, two characters long, or all of `s` when it is shorter |
| Text.Split | data_parser.py:87 | `split(",")` gives at least one field, no field contains the separator, and there is one field exactly when the text has no separator |
| Text.JoinSplit | data_parser.py:87 | joining the fields of a split with the separator gives back the line |
| Text.SplitJoin | data_parser.py:87 | splitting a join of separator-free fields gives back the fields |
| Text.SplitAfterField | data_parser.py:87 | a separator-free field followed by a separator splits off as the first field |
| Numerals.Render | data_parser.py:20-21 | `hex(n)` without prefix, upper-cased (and `str(n)` in base 10): canonical digits with no leading zero and no lower case, whose value is `n` |
| Numerals.RenderValue | data_parser.py:20-21 | rendering the value of canonical digits gives back the same text, so `Render` is a bijection onto canonical text |
| Numerals.ValueAppend | data_parser.py:121 | the value of concatenated digits is the high part shifted left by the length of the low part, plus the low part |
| Numerals.ValueBound | data_parser.py:121 | `k` digits are worth less than `base^k` |
| Numerals.LastTwoOfRender | data_parser.py:130 | the last two hex digits of a total are its value modulo 256 |
| Numerals.LastTwoIsFF | data_parser.py:67 | a total's hex text ends in "FF" exactly when the total is 0xFF modulo 256 |
| Checksum.AllHexTokensAt | data_parser.py:17-19 | every token reads as hex exactly when each element does |
| Checksum.HexAdder | data_parser.py:17-21 | the returned text is canonical upper-case hex whose value is the plain, untruncated sum of the token values |
| Checksum.ChecksumGenerator | data_parser.py:35-36 | for input at most 0xFF, canonical hex worth 0xFF minus the input; above 0xFF, a minus sign followed by canonical hex worth the input minus 0xFF |
| Checksum.ChecksumGeneratorInvolution | data_parser.py:35-36 | applying `checksumGenerator` twice to a value up to 0xFF gives back its value, and gives back canonical text unchanged |
| Checksum.HexList.constructor | data_parser.py:38 | the Python list passed by reference starts with the given tokens |
| Checksum.ChecksumChecker | data_parser.py:64-67 | the caller's list ends up as its old contents followed by the checksum, nothing else is modified, and the result is the integrity law on the old contents |
| Checksum.SumTestIsIntegrity | data_parser.py:65-67 | the test `result[-2:] == 'FF'` on the total's hex text holds exactly when payload plus checksum is 0xFF modulo 256 |
| Checksum.SmallTotalCheck | data_parser.py:64-67 | while payload plus checksum stays below 256, the check passes exactly when the total is written "FF" |
| Checksum.SumHexSnoc | data_parser.py:64-65 | appending a token adds its value to the sum |
| Checksum.SumHexAppend | data_parser.py:17-19 | the sum of a concatenation is the sum of the parts |
| Checksum.SumHexRemove | data_parser.py:17-19 | removing one token removes its value from the sum |
| Checksum.SumHexPermutation | data_parser.py:17-19 | reordering the tokens does not change the sum |
| Checksum.SumHexUpdate | data_parser.py:17-19 | replacing one token changes the sum by the difference of the two values |
| Checksum.ChecksumUnique | data_parser.py:42-44 | a one-byte checksum passes exactly when it is 0xFF minus the payload's low byte |
| Checksum.ChecksumRoundTrip | data_parser.py:42-62 | the checksum generated from the payload's low byte passes the check for that payload |
| Checksum.FlippedByteFails | data_parser.py:56-62 | changing one byte of an intact payload to another byte value makes the check fail |
| Checksum.ExampleSum | data_parser.py:50 | the documented payload 17 01 00 13 A2 00 40 AD 14 2E FF FE 02 44 42 sums to 0x481 |
| Checksum.ExampleRender | data_parser.py:50 | 0x481 is written "481" |
| Checksum.ExampleGenerate | data_parser.py:51-52 | the low byte "81" gives the checksum "7E" |
| Checksum.ExampleTotal | data_parser.py:61 | 0x4FF is written "4FF" |
| Checksum.WorkedExample | data_parser.py:46-62 | the documented frame: the sum is "481", the checksum is "7E", the total with the checksum is "4FF", and the frame passes; an empty list sums to "0" |
| FrameParser.Pairs | data_parser.py:111-112 | cutting `data` gives `len(data) // 2` tokens |
| FrameParser.PairsAt | data_parser.py:111-112 | token `k` is the two characters at offset `2k` of `data` |
| FrameParser.PairsConcat | data_parser.py:111-112 | the tokens joined back together are `data` without an odd last character |
| FrameParser.PairsAreHex | data_parser.py:111-112 | tokens read as hex when every character but an odd last one is a hex digit |
| FrameParser.CutTokens | data_parser.py:109-112 | the loop appending `data[i:i+2]` for `i` in `range(0, len(data) - 1, 2)` builds exactly the pairs of `data` |
| FrameParser.Tokens | data_parser.py:108-112 | the payload tokens of `[6:-2]` read as hex, and there are `(len - 8) // 2` of them |
| FrameParser.DroppedCharacterUnread | data_parser.py:108-112 | on text of odd length (37, or 41 and more), the last character of `[6:-2]` can be replaced by any character without changing whether the text parses, its tokens or its received checksum |
| FrameParser.TokensAt | data_parser.py:108-112 | token `k` is the two characters at offset `6 + 2k` of the cleaned text |
| FrameParser.TokensConcat | data_parser.py:108-112 | the payload tokens joined back together are the text from offset 6 on, two characters per token, in order |
| FrameParser.TwoBytes | data_parser.py:121 | four hex digits are two bytes, most significant first, below 0x10000 |
| FrameParser.LengthField | data_parser.py:121 | `int(s[2:6], 16)` is the big-endian value of the bytes at `[2:4]` and `[4:6]`, below 0x10000 |
| FrameParser.ResponseByte | data_parser.py:128 | `int(s[36:38], 16)` is at most 0xFF |
| FrameParser.ChecksumAdded | data_parser.py:130 | `hexAdder(hexs)[-2:]` reads as hex and is worth the token sum modulo 256 |
| FrameParser.AddedChecksum | data_parser.py:130 | calling `hexAdder` and keeping the last two characters computes `ChecksumAdded` |
| FrameParser.DecodeText | data_parser.py:108-131 | once line feeds are removed, the tokenising loop, the slices and the checksum fields build exactly the frame `Decode` describes |
| FrameParser.HexParser | data_parser.py:107-150 | `hexParser` returns exactly the frame `ParseFrame` describes |
| FrameParser.ParseTokens | data_parser.py:107-112 | `hex_list` reads as hex, has `(len - 8) // 2` tokens, and token `k` is the two characters at offset `6 + 2k` of the cleaned text |
| FrameParser.ParseFrameChecksum | data_parser.py:129 | `checksum` is the last two characters of the cleaned text |
| FrameParser.ParseFrameHeader | data_parser.py:122-127 | frame type, frame id, the 64-bit and 16-bit addresses, AT command and status are the slices `[6:8]`, `[8:10]`, `[10:26]`, `[26:30]`, `[30:34]`, `[34:36]` |
| FrameParser.ParseFrameDbm | data_parser.py:128 | `dbm_response` read back in base 10 is the response byte |
| FrameParser.HeaderFieldsAreTokens | data_parser.py:122-128 | frame type and frame id are tokens 0 and 1, the addresses and the AT command are runs of tokens 2-9, 10-11 and 12-13, and status and the response byte are tokens 14 and 15 when the text is long enough |
| FrameParser.TokenFields | data_parser.py:122-128 | the same token facts, stated on the cleaned text |
| FrameParser.ParseNumericFields | data_parser.py:121-128 | `length` is the big-endian two-byte value at `[2:6]`, below 0x10000; `dbm_response` is canonical decimal worth the unsigned byte at `[36:38]`, at most 255 |
| FrameParser.ParseChecksumFields | data_parser.py:129-131 | `checksum` is the last two characters; `checksum_added` is worth the token sum modulo 256; `checksum_calculated` holds one canonical hex value, 0xFF minus that |
| FrameParser.NewlinesIgnored | data_parser.py:107 | parsing text whose line feeds are already removed gives the same frame |
| FrameParser.LineEndingIgnored | data_parser.py:107 | a logged line read with its line ending parses to the frame of the line itself |
| FrameParser.CalculatedChecksumPasses | data_parser.py:130-131 | the checksum `hexParser` calculates always passes the integrity law for its own token list |
| FrameParser.CheckMatchesCalculated | data_parser.py:129-131 | the received checksum passes exactly when its value equals the calculated one |
| Report.Dbm | data_parser.py:191 | the dBm value read from a frame is an unsigned byte |
| Report.Reading | data_parser.py:184-192 | the reading lies in -255..0: the negated response byte when the check passes, 0 when it fails |
| Report.Contribution | data_parser.py:186-193 | what a frame adds to `temp` is at most 0xFF and is the negated reading |
| Report.Readings | data_parser.py:183-194 | one reading per frame |
| Report.ReadingsAt | data_parser.py:183-194 | row `k + 2` holds the reading of frame `k`, in input order |
| Report.TotalIsNegatedColumnSum | data_parser.py:183-194 | `temp` is the negated sum of the column written |
| Report.TotalBound | data_parser.py:183-194 | `temp` is at most 255 times the number of frames |
| Report.TotalAppend | data_parser.py:183-194 | `temp` adds up over consecutive parts of a series |
| Report.InvalidFramesAddNothing | data_parser.py:184-189 | frames that fail the check add nothing to `temp` |
| Report.CheckArguments | data_parser.py:184 | the two separate parses hand `checksumChecker` the token list and the received checksum of the cleaned text |
| Report.CheckFrame | data_parser.py:184 | the check on a fresh token list is the integrity law of the frame |
| Report.ReadDbm | data_parser.py:191-192 | `int(hexParser(data)["dbm_response"])` is the response byte |
| Report.WriteCell | data_parser.py:183-194 | the value written for one frame is its reading |
| Report.WriteColumn | data_parser.py:175-194 | the loop over a series writes exactly the readings, row by row, and leaves `temp` at the total of the valid frames' bytes |
| Report.WriteValues | data_parser.py:175-197 | one column and one `temp` per series, each as for a single series |
| Report.Body | data_parser.py:86 | `records[2:]` drops the two header lines, and gives nothing when there are fewer |
| Report.FilterRecv | data_parser.py:86-89 | the inner loop keeps exactly the fourth field of the "RECV" lines, in order |
| Report.RecordFragmenter | data_parser.py:81-91 | one list per file, each the filtered body of that file |
| Report.RecvDataAppend | data_parser.py:86-89 | filtering two parts of a file and joining the results is filtering the whole |
| Report.RecvDataMembers | data_parser.py:86-89 | a value is kept exactly when some "RECV" line has it as its fourth field |
| Report.RecvDataLength | data_parser.py:86-89 | no line yields more than one value |
| Report.RecvLineRoundTrip | data_parser.py:87-89 | a "RECV" line written from comma-free fields gives back its fourth field |

## Left out

- File reading in `recordFragmenter` (lines 83-84): the model takes the lines of each file, with their line endings, as `readlines` returns them.
- Spreadsheet writing through openpyxl, the header row of distances, the row labels, the console messages and the `sleep` in `writeValues` (lines 162-174, 180-181, 185, 198-200): foreign libraries and I/O. The value of each sheet cell is modelled; the sheet is not.
- The mean `-float(temp/len(result))` and the global `means` list (lines 195-196): floating point and process-wide state. An empty series makes line 195 divide by zero; the model stops before that line and returns an empty column with `temp` 0.
- `plotGraph` and the top-level script (banner, `input()`, orchestration): plotting and console I/O.
- `int(_, 16)` also accepts surrounding whitespace, a sign, underscores, a "0x" prefix and non-ASCII Unicode decimal digits (such as Arabic-Indic or full-width digits). The model accepts only plain hex digits (either case), so those inputs fall outside the preconditions.
- Python exceptions: text `int()` cannot read, and lines without the fields `recordFragmenter` indexes, are excluded by preconditions instead of being modelled as errors.
- Text.RemoveNewlines: its own contract states only the length bound; what it removes and keeps, in order, is stated by `Text.RemoveNewlinesChar` and `Text.RemoveNewlinesAppend`, and which characters remain by `Text.RemoveNewlinesMembers`.
- Report.Readings: its own contract states only the length; the element at each row is stated by `Report.ReadingsAt`.
