# Smart thermostat valve downlink encoder, modelled in Dafny

The service receives a JSON document describing downlink commands for LoRaWAN
smart radiator valves. It checks the document's header, then turns each row
into a hexadecimal payload and concatenates the payloads.

- `format_message(ref, value)` encodes one row.
  - The third segment of `ref`, between bars (the `|` character), names one
    of nine commands.
  - Each command has a one-byte opcode ("02", "06", "45", "07", "35", "08",
    "0D", "0E", "2D").
  - The opcode is followed by operand bytes computed from `value` and
    rendered with `"%0.2X"`.
- `parse_data(data)` decodes the JSON document.
  - It checks, in this order, that the columns include `fport`, `type`, `ref`
    and `value`.
  - It rejects any row that does not have exactly four cells.
  - It concatenates the payloads of the rows in order.

The model has these modules:

- `Wrappers`: `Option` and `Result`. The error paths of the source
  (exceptions, error replies, an unbound result) become explicit `Err` values.
- `PyText`: Python's `str.split(sep, maxsplit)` for a one-character
  separator, and `sep.join`.
- `Numerals`: covers two conversions, both on decimal text.
  - `int(text)`.
  - `int(float(text) * 10)`, computed as exact tenths truncated toward zero.
- `HexBytes`: `"%0.2X" % n` for every integer.
  - A leading `-` for negative numbers.
  - At least two upper-case digits, more when the number needs them.
  - Reading hex text back as bytes.
- `Encoder`: `format_message` as the function `FormatMessage`.
  - The commands, their names, opcodes and operand counts.
  - One operand function per multi-operand command.
  - Lemmas that give each command's payload.
- `Validator`: `parse_data` as the method `ParseData`.
  - Its `for` loop keeps the invariant that the output so far is the
    concatenation (`Concatenate`) of the payloads of the rows seen so far.
  - `ParseData` is proved equal to the specification function `Payload`.

Errors are raised in the order that Python evaluates the expressions. For
example, in the one-degree window command a missing fourth segment is found
before the third segment is parsed. As a result the first failing step decides
which error is reported.

`FormatMessage`, `Operands`, `EncodeRow`, `Concatenate` and `Payload` are the
definitions. The lemmas and contracts below state what they compute. They are
built from these helpers, which have no contract of their own:

- `Encoder.CommandName`: `ref.split('|', 4)[2]` (new_smartlink.py:61-62).
- `Encoder.Piece`: indexing a split result. Past the end it is the IndexError
  (new_smartlink.py:62, 67-70, 77-79, 90).
- `Encoder.IntOfText` and `Encoder.IntOf`: `int(...)` on a segment or on the
  value cell (new_smartlink.py:63-102).
- `Encoder.TenthsOf`: `int(float(delta) * 10)` (new_smartlink.py:79).
- `Encoder.BitOr`: Python's `|` on non-negative integers (new_smartlink.py:73).
- `HexBytes.RenderBytes`: the chained `"%0.2X"` concatenations after the
  opcode (new_smartlink.py:63-102).

## Model

| member | source | states |
|---|---|---|
| PyText.Split | new_smartlink.py:61 | Splitting `ref` at no more than four bars yields at least one piece and at most `maxsplit + 1` pieces |
| PyText.SplitRejoins | new_smartlink.py:61 | Joining the pieces of a split with the separator gives back the original text |
| PyText.SplitPiecesFree | new_smartlink.py:61 | Every piece except the last is free of the separator. The last piece is too, unless all `maxsplit` cuts were made |
| PyText.SplitLength | new_smartlink.py:61 | The number of pieces is the number of separators plus one, capped at `maxsplit + 1` |
| PyText.SplitNoSeparator | new_smartlink.py:61 | Text without the separator splits into itself alone |
| PyText.SplitPrefix | new_smartlink.py:61 | A leading piece without the separator is cut off first, and the rest is split with one cut fewer |
| PyText.SplitJoin | new_smartlink.py:66 | Splitting parts joined with a bar gives back exactly those parts, if none contains a bar and there are at most `maxsplit + 1` of them |
| PyText.SplitThird | new_smartlink.py:61-62 | With at least three cuts allowed, the third piece is the text between the second separator and the next separator (or the end of the text) |
| Numerals.ParseInt | new_smartlink.py:63 | `int(text)` succeeds exactly on non-empty digit strings; on anything else it is a ValueError |
| Numerals.DecimalRoundTrip | new_smartlink.py:63 | The value of `str(n)` is `n` |
| Numerals.ParseIntOfText | new_smartlink.py:63 | `int(str(n)) == n` |
| Numerals.ParseTenths | new_smartlink.py:79 | `int(float(t) * 10)` succeeds exactly on decimal text: at most one point, with digits on at least one side of it |
| Numerals.TenthsTruncate | new_smartlink.py:79 | The result `t` satisfies `t <= 10 * x < t + 1`, where `x` is the exact value of the text |
| Numerals.TenthsOfInteger | new_smartlink.py:79 | Integer text `n` gives `10 * n` tenths |
| HexBytes.FormatHex2 | new_smartlink.py:63 | `"%0.2X" % n` has at least two characters, and starts with `-` exactly when `n` is negative |
| HexBytes.NegativeHex | new_smartlink.py:63 | For a negative `n`, `"%0.2X" % n` is `-` followed by `"%0.2X"` of `-n`, so it has at least three characters |
| HexBytes.HexRoundTrip | new_smartlink.py:63 | The shortest hex text of `n` reads back as `n` |
| HexBytes.FormatByte | new_smartlink.py:63 | A value in 0..255 renders as exactly two upper-case digits, high nibble first. They read back as the value |
| HexBytes.FormatWide | new_smartlink.py:63 | A value of 256 or more renders as three or more hex digits that read back as the value, so it no longer fills a single byte |
| HexBytes.RenderDecode | new_smartlink.py:73 | Operands in 0..255 render as two digits each, and decoding the text gives back the operands in order |
| HexBytes.FormatExamples | new_smartlink.py:63 | `"%0.2X"` of 1, 5, 44, 18 and 25 is "01", "05", "2C", "12" and "19" |
| Encoder.Lookup | new_smartlink.py:62-98 | The if/elif chain selects a command whose name equals the segment. It selects none only when no command has that name |
| Encoder.LookupName | new_smartlink.py:62-98 | Each command's name selects that command |
| Encoder.OpcodeRendersByte | new_smartlink.py:63-102 | Each opcode literal is `"%0.2X"` of a byte, the opcode byte |
| Encoder.SplitCell | new_smartlink.py:66 | Splitting fails exactly on a number cell, which has no `split` (AttributeError); a text cell gives at least one piece |
| Encoder.Operands | new_smartlink.py:63-102 | When computing the operands succeeds, a command yields exactly its number of operands: 4 for the one-degree window, 3 for the tenth-degree window, 2 for ITemperatureRange and IMotorPosition, 1 for the rest |
| Encoder.WindowOneDegree | new_smartlink.py:66-73 | A successful one-degree window computation yields four operands |
| Encoder.WindowTenthDegree | new_smartlink.py:76-80 | A successful tenth-degree window computation yields three operands |
| Encoder.TemperatureBounds | new_smartlink.py:89-90 | A successful temperature range computation yields two operands |
| Encoder.OrIntoClearedBits | new_smartlink.py:73 | `h << k` or-ed with `b` equals `h * 2^k + b` when `b < 2^k` |
| Encoder.PackedNibbles | new_smartlink.py:73 | `high << 4` or-ed with `delta`, with both below 16, is a byte. Its upper nibble is `high` and its lower nibble is `delta` |
| Encoder.CommandNameIsThirdSegment | new_smartlink.py:61-62 | The command name is the third bar-separated segment of `ref`, whatever the first two segments are and whatever follows the third |
| Encoder.OnlyThirdSegmentMatters | new_smartlink.py:61-62 | Two refs with the same third segment give the same result for every value |
| Encoder.ShortRefFails | new_smartlink.py:61-62 | A ref with fewer than two bars has no third segment, and the result is the IndexError |
| Encoder.ShortValueFails | new_smartlink.py:66-90 | For the two window commands and ITemperatureRange, a value with fewer bars than the command has separators gives an error. For the window commands a value without any bar gives exactly the IndexError |
| Encoder.UnknownNameFails | new_smartlink.py:62-104 | A name that matches none of the nine commands gives no payload (`output` is unbound at the return) |
| Encoder.PayloadOfOperands | new_smartlink.py:63-102 | A recognised command's payload is its opcode followed by its operands, each rendered with `"%0.2X"`, in order |
| Encoder.OpcodeLeads | new_smartlink.py:62-102 | For a recognised command the payload exists exactly when its operands can be computed. The error is the same, and the payload starts with the opcode |
| Encoder.PayloadBytes | new_smartlink.py:63-102 | With byte operands the payload has `2 + 2 * count` digits, and reads back as the opcode byte followed by the operands |
| Encoder.OpcodeThenBytes | new_smartlink.py:63-102 | The opcode followed by byte operands reads back as the opcode byte and then the operands |
| Encoder.SingleOperandPayload | new_smartlink.py:62-96 | IKeepAlive, IChildLock, IChildLockBehavior, IOperationMode and ITargetTemperature give their opcode followed by `"%0.2X" % int(value)`. A byte value gives four digits whose last two read back as the value |
| Encoder.HighLowBytes | new_smartlink.py:100-101 | `(v >> 8) & 0xff` and `v & 0xff` are bytes and recombine to `v mod 65536`, which is `v` itself for 0 <= v < 65536 |
| Encoder.MotorPositionPayload | new_smartlink.py:98-102 | IMotorPosition gives "2D", then the high byte, then the low byte. Both read back, and `high * 256 + low` recovers the position modulo 65536 |
| Encoder.TwoOperandPayload | new_smartlink.py:88-102 | A command with two byte operands gives six hex digits, and each operand reads back from its two digits |
| Encoder.WindowOneDegreeOfPieces | new_smartlink.py:66-73 | When the first four pieces of `value` split at bars with maxsplit 4 are digit text (leading zeros allowed) with values e, c, p, d, the operands are `e`, `c / 5`, `p & 0xff` and `((p >> 8) & 0xff) << 4` or-ed with `d`, in that order. A fifth piece is ignored |
| Encoder.WindowOneDegreeOperands | new_smartlink.py:66-73 | The instance for a value joined from exactly four decimal texts: e, c, p, d yield `e`, `c / 5`, `p & 0xff` and `((p >> 8) & 0xff) << 4` or-ed with `d`, in that order |
| Encoder.WindowOneDegreeBytes | new_smartlink.py:71-73 | When `enabled` is at most 255, `closeTime / 5` is at most 255, the position fits in 12 bits and the delta in 4 bits, the operands are bytes. The position is the third byte plus 256 times the upper nibble of the fourth byte, and the delta is that byte's lower nibble |
| Encoder.WindowOneDegreePayload | new_smartlink.py:66-73 | With in-range fields the one-degree payload is ten digits. It reads back as 0x06, enabled, closeTime / 5, the low position byte, and the packed byte, from which position and delta are recovered |
| Encoder.WindowTenthDegreeOfPieces | new_smartlink.py:76-80 | When the first two pieces of `value` split at bars with maxsplit 3 are digit text with values e and d, the result is `e`, `d / 5` and the truncated tenths of the third piece. If the third piece is not decimal text, the result is a ValueError naming it. A fourth piece is ignored |
| Encoder.WindowTenthDegreeOperands | new_smartlink.py:76-80 | The instance for a value joined from e, d and a bar-free t: it yields `e`, `d / 5` and the truncated tenths of `t`. A `t` that is not decimal text is a ValueError |
| Encoder.TemperatureBoundsOfPieces | new_smartlink.py:89-90 | When the two pieces of `value` split at bars with maxsplit 2 are digit text (leading zeros allowed) with values low and high, the operands are `low`, then `high`. A third piece is ignored. For example, 018 and 025 give 18 and 25, and so do 18, 25 and 30 |
| Encoder.TemperatureBoundsOperands | new_smartlink.py:89-90 | The instance for a value joined from exactly two decimal texts: low, high yield `low`, then `high` |
| Encoder.TemperatureRangePayload | new_smartlink.py:88-90 | For bounds in 0..255, ITemperatureRange gives "08", then the low bound, then the high bound, two digits each, both reading back |
| Encoder.SplitCommandsNeedText | new_smartlink.py:66 | The three commands that split `value` fail with the AttributeError when `value` is a number |
| Encoder.KeepAliveExample | new_smartlink.py:62-63 | IKeepAlive with "5" gives "0205" |
| Encoder.MotorPositionExample | new_smartlink.py:98-102 | IMotorPosition with "300" gives "2D012C" |
| Encoder.TemperatureRangeExample | new_smartlink.py:88-90 | ITemperatureRange with the value "18", bar, "25" gives "081219" |
| Validator.FirstMissing | new_smartlink.py:116-126 | Returns nothing exactly when every required name is present. Otherwise it returns a missing name, and every name checked before it is present |
| Validator.FirstMissingRequired | new_smartlink.py:116-126 | The header check tests fport, type, ref and value in that order, and reports the first one missing |
| Validator.HeaderReplies | new_smartlink.py:110-126 | A body that is not JSON gets the reply "Invalid json". When the first missing required column is `c`, the result is that column's error and the reply is "Invalid request. `c` not specified in columns structure" |
| Validator.BadRowReply | new_smartlink.py:131-134 | When every row before row `i` encodes and row `i` does not have four cells, the result is the bad-row error and the reply is "Invalid request. Check the values structure" |
| Validator.ParseData | new_smartlink.py:107-142 | The loop's result equals `Payload(input)`: invalid JSON, a missing column, a bad row or an encoding error, or the concatenated payloads |
| Validator.ConcatenateAppend | new_smartlink.py:131-140 | Encoding two batches of rows in sequence is encoding them together. The payloads concatenate, and an error in the first batch wins |
| Validator.FirstFailureDecides | new_smartlink.py:131-140 | If all rows before row `i` encode and row `i` fails, the result is row `i`'s error |
| Validator.ConcatenateOk | new_smartlink.py:131-140 | The rows encode exactly when every row encodes |
| Validator.ConcatenateMatchesFront | new_smartlink.py:128-142 | The loop's result equals the front-first reference for both payloads and errors: the first row's payload followed by the rest's |
| Validator.BadRowRejects | new_smartlink.py:133-134 | A row of any length other than four makes the whole request fail |
| Validator.OnlyRefAndValueMatter | new_smartlink.py:135-140 | A row's first two cells do not affect the result, and a row encodes exactly when `format_message(ref, value)` does |

## Left out

- The Flask route `downlink_smart` (new_smartlink.py:13-56) is not part of this model. That covers the HTTP request, the forwarding with `requests.post`, the token and URL handling, logging, the `print` at line 108 and `app.run`.
- `json.loads` is not modelled. Its outcome is the input: malformed text, or an object whose `columns` and `values` may be absent. These decoded documents are outside the model:
  - a top-level value that is not an object, which raises TypeError;
  - `columns` given as a string (a substring test) or as an object (a key test);
  - rows that are not lists;
  - cells other than text and integers (floats, booleans, null).
- The 404 status code of the error replies is not modelled. `Validator.Message` gives their texts. Exceptions that leave `parse_data` (`MissingKey`, `EncodeFailed`) are results, not raised.
- Numerals.ParseInt: accepts only unsigned ASCII digit text. Python's `int` also takes a sign, surrounding whitespace, underscores and non-ASCII digits, and those forms are not modelled.
- Numerals.ParseTenths: uses exact decimal arithmetic in place of binary floating point. `float`'s exponent, sign, `inf` and `nan` forms, surrounding whitespace, underscores between digits and non-ASCII digits are not accepted.
- Encoder.WindowOneDegree: `int(int(x)/5)` goes through a float in Python. It agrees with exact division up to `int(x)` = 5·2^51 + 3 (about 1.1·10^16); 5·2^51 + 4 is the first value where Python's result is one more. It also raises OverflowError once `int(x) / 5` is beyond the float range (`int(x)` above about 9·10^308). The model divides integers exactly and succeeds there.
- Encoder.WindowTenthDegree: the same exact division of the duration by 5. It agrees with Python up to a duration of 5·2^51 + 3, and has no OverflowError once the duration divided by 5 is beyond the float range.
- PyText.Split: handles only a one-character separator, the only kind the source uses.
