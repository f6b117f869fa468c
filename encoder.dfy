/** format_message: turns one row's `ref` and `value` cells into the hex
    payload of one downlink command. The third `|`-separated segment of `ref`
    names the command; each command has a fixed one-byte opcode followed by
    operand bytes rendered with `"%0.2X"`. */
module Encoder {
  import opened Wrappers
  import PyText
  import Numerals
  import HexBytes

  /** A cell of a decoded row: JSON text or a JSON integer. */
  datatype Cell = Text(s: string) | Number(n: int)

  /** The ways format_message fails. Each stands for what Python raises. */
  datatype EncodeError =
    | NotText                        // `.split` on a number: AttributeError
    | MissingSegment                 // a split gave too few pieces: IndexError
    | InvalidInteger(text: string)   // `int(text)`: ValueError
    | InvalidDecimal(text: string)   // `float(text)`: ValueError
    | UnknownCommand(name: string)   // no branch taken: `output` is unbound

  /** The nine commands of the if/elif chain, in the order it tests them. */
  datatype Command =
    | KeepAlive
    | OpenWindowDetection1Degree
    | OpenWindowDetection01Degree
    | ChildLock
    | ChildLockBehavior
    | TemperatureRange
    | OperationMode
    | TargetTemperature
    | MotorPosition

  /** The segment text that selects each command. */
  function Name(c: Command): string {
    match c
    case KeepAlive => "IKeepAlive"
    case OpenWindowDetection1Degree => "IOpenWindowDetection1degree"
    case OpenWindowDetection01Degree => "IOpenWindowDetection0_1degree"
    case ChildLock => "IChildLock"
    case ChildLockBehavior => "IChildLockBehavior"
    case TemperatureRange => "ITemperatureRange"
    case OperationMode => "IOperationMode"
    case TargetTemperature => "ITargetTemperature"
    case MotorPosition => "IMotorPosition"
  }

  /** The two hex digits each command's payload starts with. */
  function Opcode(c: Command): string {
    match c
    case KeepAlive => "02"
    case OpenWindowDetection1Degree => "06"
    case OpenWindowDetection01Degree => "45"
    case ChildLock => "07"
    case ChildLockBehavior => "35"
    case TemperatureRange => "08"
    case OperationMode => "0D"
    case TargetTemperature => "0E"
    case MotorPosition => "2D"
  }

  /** The opcode as a number. */
  function OpcodeByte(c: Command): nat {
    match c
    case KeepAlive => 0x02
    case OpenWindowDetection1Degree => 0x06
    case OpenWindowDetection01Degree => 0x45
    case ChildLock => 0x07
    case ChildLockBehavior => 0x35
    case TemperatureRange => 0x08
    case OperationMode => 0x0D
    case TargetTemperature => 0x0E
    case MotorPosition => 0x2D
  }

  /** How many operand bytes follow the opcode. */
  function OperandCount(c: Command): nat {
    match c
    case OpenWindowDetection1Degree => 4
    case OpenWindowDetection01Degree => 3
    case TemperatureRange => 2
    case MotorPosition => 2
    case _ => 1
  }

  /** The commands whose whole `value` is one integer operand. */
  predicate SingleOperand(c: Command) {
    c.KeepAlive? || c.ChildLock? || c.ChildLockBehavior? || c.OperationMode? || c.TargetTemperature?
  }

  /** The if/elif chain: the first command whose name equals the segment. */
  function Lookup(name: string): (r: Option<Command>)
    ensures r.Some? ==> Name(r.value) == name
    ensures r.None? ==> forall c: Command :: Name(c) != name
  {
    if name == "IKeepAlive" then Some(KeepAlive)
    else if name == "IOpenWindowDetection1degree" then Some(OpenWindowDetection1Degree)
    else if name == "IOpenWindowDetection0_1degree" then Some(OpenWindowDetection01Degree)
    else if name == "IChildLock" then Some(ChildLock)
    else if name == "IChildLockBehavior" then Some(ChildLockBehavior)
    else if name == "ITemperatureRange" then Some(TemperatureRange)
    else if name == "IOperationMode" then Some(OperationMode)
    else if name == "ITargetTemperature" then Some(TargetTemperature)
    else if name == "IMotorPosition" then Some(MotorPosition)
    else None
  }

  /** Python's bitwise `|` on non-negative integers. */
  function BitOr(a: nat, b: nat): nat
    decreases a + b
  {
    if a == 0 then b
    else if b == 0 then a
    else 2 * BitOr(a / 2, b / 2) + (if a % 2 == 1 || b % 2 == 1 then 1 else 0)
  }

  /** 2^k, the factor of a left shift by k bits. */
  function Pow2(k: nat): (p: nat)
    ensures p >= 1
  {
    if k == 0 then 1 else 2 * Pow2(k - 1)
  }

  /** `value.split('|', maxsplit)`, which only text has. */
  function SplitCell(cell: Cell, maxsplit: nat): (r: Result<seq<string>, EncodeError>)
    ensures r.Err? <==> cell.Number?
    ensures r.Err? ==> r.error == NotText
    ensures r.Ok? ==> |r.value| >= 1
  {
    match cell
    case Text(s) => Ok(PyText.Split(s, '|', maxsplit))
    case Number(_) => Err(NotText)
  }

  /** `pieces[k]`, an IndexError past the end. */
  function Piece(pieces: seq<string>, k: nat): Result<string, EncodeError> {
    if k < |pieces| then Ok(pieces[k]) else Err(MissingSegment)
  }

  /** `int(text)` on text. */
  function IntOfText(text: string): Result<nat, EncodeError> {
    match Numerals.ParseInt(text)
    case Some(n) => Ok(n)
    case None => Err(InvalidInteger(text))
  }

  /** `int(value)` on a cell: a number is taken as it is. */
  function IntOf(cell: Cell): Result<int, EncodeError> {
    match cell
    case Number(n) => Ok(n)
    case Text(s) => IntOfText(s)
  }

  /** `int(float(text) * 10)`. */
  function TenthsOf(text: string): Result<nat, EncodeError> {
    match Numerals.ParseTenths(text)
    case Some(t) => Ok(t)
    case None => Err(InvalidDecimal(text))
  }

  /** The command name a `ref` cell carries: `ref.split('|', 4)[2]`. */
  function CommandName(ref: Cell): Result<string, EncodeError> {
    var service :- SplitCell(ref, 4);
    Piece(service, 2)
  }

  /** The integers a command renders after its opcode, computed in the order
      the source evaluates them, so that the first failing step decides the
      error. */
  function Operands(c: Command, value: Cell): (r: Result<seq<int>, EncodeError>)
    ensures r.Ok? ==> |r.value| == OperandCount(c)
  {
    match c
    case OpenWindowDetection1Degree => WindowOneDegree(value)
    case OpenWindowDetection01Degree => WindowTenthDegree(value)
    case TemperatureRange => TemperatureBounds(value)
    case MotorPosition =>
      var position :- IntOf(value);
      Ok([(position / 256) % 256, position % 256])
    case _ =>
      var n :- IntOf(value);
      Ok([n])
  }

  /** IOpenWindowDetection1degree: value "enabled|closeTime|position|delta"
      gives enabled, closeTime / 5, the position's low byte, and the
      position's high byte shifted into the upper nibble, or-ed with delta. */
  function WindowOneDegree(value: Cell): (r: Result<seq<int>, EncodeError>)
    ensures r.Ok? ==> |r.value| == 4
  {
    var detail :- SplitCell(value, 4);
    var closeText :- Piece(detail, 1);
    var closeSeconds :- IntOfText(closeText);
    var deltaText :- Piece(detail, 3);
    var delta :- IntOfText(deltaText);
    var positionText :- Piece(detail, 2);
    var position :- IntOfText(positionText);
    var enabled :- IntOfText(detail[0]);
    var low := position % 256;
    var high := (position / 256) % 256;
    Ok([enabled, closeSeconds / 5, low, BitOr(high * 16, delta)])
  }

  /** IOpenWindowDetection0_1degree: value "enabled|duration|delta" gives
      enabled, duration / 5 and delta in tenths of a degree. */
  function WindowTenthDegree(value: Cell): (r: Result<seq<int>, EncodeError>)
    ensures r.Ok? ==> |r.value| == 3
  {
    var detail :- SplitCell(value, 3);
    var durationText :- Piece(detail, 1);
    var duration :- IntOfText(durationText);
    var deltaText :- Piece(detail, 2);
    var deltaTenths :- TenthsOf(deltaText);
    var enabled :- IntOfText(detail[0]);
    Ok([enabled, duration / 5, deltaTenths])
  }

  /** ITemperatureRange: value "low|high" gives low, then high. */
  function TemperatureBounds(value: Cell): (r: Result<seq<int>, EncodeError>)
    ensures r.Ok? ==> |r.value| == 2
  {
    var detail :- SplitCell(value, 2);
    var low :- IntOfText(detail[0]);
    var highText :- Piece(detail, 1);
    var high :- IntOfText(highText);
    Ok([low, high])
  }

  /** format_message(ref, value). */
  function FormatMessage(ref: Cell, value: Cell): (r: Result<string, EncodeError>)
  {
    var name :- CommandName(ref);
    match Lookup(name)
    case None => Err(UnknownCommand(name))
    case Some(c) =>
      var operands :- Operands(c, value);
      Ok(Opcode(c) + HexBytes.RenderBytes(operands))
  }

  // ---------------------------------------------------------------------
  // Command table

  /** Each command's name selects that command and no other. */
  lemma LookupName(c: Command)
    ensures Lookup(Name(c)) == Some(c)
  {
    match c
    case KeepAlive =>
    case OpenWindowDetection1Degree =>
    case OpenWindowDetection01Degree =>
    case ChildLock =>
    case ChildLockBehavior =>
    case TemperatureRange =>
    case OperationMode =>
    case TargetTemperature =>
    case MotorPosition =>
  }

  /** The opcode text is the opcode byte rendered by `"%0.2X"`. */
  lemma OpcodeRendersByte(c: Command)
    ensures HexBytes.IsByte(OpcodeByte(c))
    ensures Opcode(c) == HexBytes.FormatHex2(OpcodeByte(c))
  {
    HexBytes.FormatByte(OpcodeByte(c));
  }

  // ---------------------------------------------------------------------
  // Bit packing

  /** `(h << k) | b` adds when `b` fits in the `k` bits the shift clears. */
  lemma {:induction false} OrIntoClearedBits(h: nat, k: nat, b: nat)
    requires b < Pow2(k)
    ensures BitOr(h * Pow2(k), b) == h * Pow2(k) + b
  {
    if k > 0 && h > 0 && b > 0 {
      var a := h * Pow2(k);
      assert a == 2 * (h * Pow2(k - 1));
      assert a / 2 == h * Pow2(k - 1) && a % 2 == 0;
      OrIntoClearedBits(h, k - 1, b / 2);
    }
  }

  /** The fourth byte of the one-degree window command: the high byte of the
      motor position in the upper nibble, `delta` in the lower one. Both
      nibbles are recovered exactly when each fits in four bits. */
  lemma PackedNibbles(high: nat, delta: nat)
    requires high < 16 && delta < 16
    ensures BitOr(high * 16, delta) == high * 16 + delta
    ensures HexBytes.IsByte(BitOr(high * 16, delta))
    ensures (high * 16 + delta) / 16 == high && (high * 16 + delta) % 16 == delta
  {
    assert Pow2(4) == 16;
    OrIntoClearedBits(high, 4, delta);
  }

  // ---------------------------------------------------------------------
  // The ref cell

  /** The command name is the third segment, whatever the first two and
      whatever follows the third. */
  lemma CommandNameIsThirdSegment(a: string, b: string, name: string, rest: string)
    requires '|' !in a && '|' !in b && '|' !in name
    requires rest == [] || rest[0] == '|'
    ensures CommandName(Text(a + "|" + b + "|" + name + rest)) == Ok(name)
  {
    PyText.SplitThird(a, b, name, rest, '|', 4);
    assert a + "|" + b + "|" + name + rest == a + ['|'] + b + ['|'] + name + rest;
  }

  /** Only the third segment of `ref` affects the payload. */
  lemma OnlyThirdSegmentMatters(a1: string, b1: string, rest1: string,
                                a2: string, b2: string, rest2: string,
                                name: string, value: Cell)
    requires '|' !in a1 && '|' !in b1 && '|' !in a2 && '|' !in b2 && '|' !in name
    requires rest1 == [] || rest1[0] == '|'
    requires rest2 == [] || rest2[0] == '|'
    ensures FormatMessage(Text(a1 + "|" + b1 + "|" + name + rest1), value) ==
            FormatMessage(Text(a2 + "|" + b2 + "|" + name + rest2), value)
  {
    CommandNameIsThirdSegment(a1, b1, name, rest1);
    CommandNameIsThirdSegment(a2, b2, name, rest2);
  }

  /** A `ref` with fewer than two `|` has no third segment: IndexError. */
  lemma ShortRefFails(ref: string, value: Cell)
    requires PyText.Count(ref, '|') < 2
    ensures FormatMessage(Text(ref), value) == Err(MissingSegment)
  {
    PyText.SplitLength(ref, '|', 4);
  }

  /** A value with fewer segments than a splitting command reads has no
      operands: an IndexError, or an earlier error from the segments that
      are there. A value without any `|` is the IndexError itself for the
      two window commands, which index the second segment first. */
  lemma ShortValueFails(c: Command, s: string)
    requires c.OpenWindowDetection1Degree? || c.OpenWindowDetection01Degree? || c.TemperatureRange?
    requires PyText.Count(s, '|') < OperandCount(c) - 1
    ensures Operands(c, Text(s)).Err?
    ensures '|' !in s && !c.TemperatureRange? ==> Operands(c, Text(s)) == Err(MissingSegment)
  {
    var pieces := PyText.Split(s, '|', OperandCount(c));
    PyText.SplitLength(s, '|', OperandCount(c));
    assert |pieces| < OperandCount(c);
    if '|' !in s {
      PyText.SplitNoSeparator(s, '|', OperandCount(c));
    }
    match c
    case OpenWindowDetection1Degree => ShortWindowOneDegree(s);
    case OpenWindowDetection01Degree => ShortWindowTenthDegree(s);
    case TemperatureRange => ShortTemperatureBounds(s);
  }

  /** IOpenWindowDetection1degree on too few segments; it indexes
      `data_detail[1]` first. */
  lemma ShortWindowOneDegree(s: string)
    requires |PyText.Split(s, '|', 4)| < 4
    ensures WindowOneDegree(Text(s)).Err?
    ensures |PyText.Split(s, '|', 4)| < 2 ==> WindowOneDegree(Text(s)) == Err(MissingSegment)
  {
  }

  /** IOpenWindowDetection0_1degree on too few segments; it indexes
      `data_detail[1]` first. */
  lemma ShortWindowTenthDegree(s: string)
    requires |PyText.Split(s, '|', 3)| < 3
    ensures WindowTenthDegree(Text(s)).Err?
    ensures |PyText.Split(s, '|', 3)| < 2 ==> WindowTenthDegree(Text(s)) == Err(MissingSegment)
  {
  }

  /** ITemperatureRange on a value without a second segment. */
  lemma ShortTemperatureBounds(s: string)
    requires |PyText.Split(s, '|', 2)| < 2
    ensures TemperatureBounds(Text(s)).Err?
  {
  }

  /** A name matching none of the nine commands yields no payload. */
  lemma UnknownNameFails(ref: Cell, value: Cell, name: string)
    requires CommandName(ref) == Ok(name)
    requires forall c: Command :: Name(c) != name
    ensures FormatMessage(ref, value) == Err(UnknownCommand(name))
  {
  }

  // ---------------------------------------------------------------------
  // Shape of every payload

  /** A recognised command's payload is its opcode followed by its operands
      rendered with `"%0.2X"`, one after another. */
  lemma PayloadOfOperands(ref: Cell, value: Cell, c: Command, operands: seq<int>)
    requires CommandName(ref) == Ok(Name(c))
    requires Operands(c, value) == Ok(operands)
    ensures FormatMessage(ref, value) == Ok(Opcode(c) + HexBytes.RenderBytes(operands))
  {
    LookupName(c);
  }

  /** The payload of a recognised command starts with its opcode, and it
      fails exactly when computing the operands fails, with the same error. */
  lemma OpcodeLeads(ref: Cell, value: Cell, c: Command)
    requires CommandName(ref) == Ok(Name(c))
    ensures FormatMessage(ref, value).Ok? <==> Operands(c, value).Ok?
    ensures Operands(c, value).Err? ==> FormatMessage(ref, value) == Err(Operands(c, value).error)
    ensures FormatMessage(ref, value).Ok? ==>
              |FormatMessage(ref, value).value| >= 2 && FormatMessage(ref, value).value[..2] == Opcode(c)
  {
    LookupName(c);
  }

  /** With every operand a byte, the payload is 2 + 2 * OperandCount hex
      digits and reads back, two digits at a time, as the opcode byte
      followed by the operands. */
  lemma PayloadBytes(ref: Cell, value: Cell, c: Command, operands: seq<int>)
    requires CommandName(ref) == Ok(Name(c))
    requires Operands(c, value) == Ok(operands)
    requires forall i :: 0 <= i < |operands| ==> HexBytes.IsByte(operands[i])
    ensures FormatMessage(ref, value) == Ok(Opcode(c) + HexBytes.RenderBytes(operands))
    ensures var s := Opcode(c) + HexBytes.RenderBytes(operands);
            |s| == 2 + 2 * OperandCount(c) && HexBytes.FromHex(s) == Some([OpcodeByte(c)] + operands)
  {
    PayloadOfOperands(ref, value, c, operands);
    OpcodeThenBytes(c, operands);
  }

  /** Opcode and operands together read back as the opcode byte followed by
      the operands. */
  lemma OpcodeThenBytes(c: Command, operands: seq<int>)
    requires forall i :: 0 <= i < |operands| ==> HexBytes.IsByte(operands[i])
    ensures var s := Opcode(c) + HexBytes.RenderBytes(operands);
            |s| == 2 + 2 * |operands| && HexBytes.FromHex(s) == Some([OpcodeByte(c)] + operands)
  {
    OpcodeRendersByte(c);
    var ops := [OpcodeByte(c)] + operands;
    assert ops[0] == OpcodeByte(c) && ops[1..] == operands;
    assert HexBytes.RenderBytes(ops) == Opcode(c) + HexBytes.RenderBytes(operands);
    HexBytes.RenderDecode(ops);
  }

  // ---------------------------------------------------------------------
  // Per-command operands

  /** IKeepAlive, IChildLock, IChildLockBehavior, IOperationMode and
      ITargetTemperature: the opcode, then `"%0.2X" % int(value)`; four hex
      digits when the value is a byte. */
  lemma SingleOperandPayload(ref: Cell, value: Cell, c: Command, n: int)
    requires SingleOperand(c)
    requires CommandName(ref) == Ok(Name(c))
    requires IntOf(value) == Ok(n)
    ensures FormatMessage(ref, value) == Ok(Opcode(c) + HexBytes.FormatHex2(n))
    ensures var s := Opcode(c) + HexBytes.FormatHex2(n);
            HexBytes.IsByte(n) ==> |s| == 4 && HexBytes.AllHex(s[2..]) && HexBytes.HexValue(s[2..]) == n
  {
    assert HexBytes.RenderBytes([n]) == HexBytes.FormatHex2(n);
    PayloadOfOperands(ref, value, c, [n]);
    if HexBytes.IsByte(n) {
      OneByte(Opcode(c), n);
    }
  }

  /** A two-character opcode followed by one byte operand: four digits, the
      last two reading back as the operand. */
  lemma OneByte(opcode: string, n: int)
    requires |opcode| == 2 && HexBytes.IsByte(n)
    ensures var s := opcode + HexBytes.FormatHex2(n);
            |s| == 4 && HexBytes.AllHex(s[2..]) && HexBytes.HexValue(s[2..]) == n
  {
    HexBytes.FormatByte(n);
    var s := opcode + HexBytes.FormatHex2(n);
    assert s[2..] == HexBytes.FormatHex2(n);
  }

  /** IMotorPosition: opcode 2D, then the high byte `(v >> 8) & 0xff`, then
      the low byte `v & 0xff`. The two bytes give back `v` modulo 65536, so
      every position in 0..65535 is carried exactly. */
  lemma MotorPositionPayload(ref: Cell, value: Cell, v: int)
    requires CommandName(ref) == Ok("IMotorPosition")
    requires IntOf(value) == Ok(v)
    ensures var high, low := (v / 256) % 256, v % 256;
            var s := "2D" + HexBytes.FormatHex2(high) + HexBytes.FormatHex2(low);
            FormatMessage(ref, value) == Ok(s) && |s| == 6 && HexBytes.AllHex(s) &&
            HexBytes.HexValue(s[2..4]) == high && HexBytes.HexValue(s[4..6]) == low &&
            high * 256 + low == v % 65536 &&
            (0 <= v < 65536 ==> high * 256 + low == v)
  {
    HighLowBytes(v);
    var high, low := (v / 256) % 256, v % 256;
    TwoOperandPayload(ref, value, MotorPosition, high, low);
  }

  /** `((v >> 8) & 0xff) * 256 + (v & 0xff)` is `v` modulo 65536. */
  lemma HighLowBytes(v: int)
    ensures HexBytes.IsByte((v / 256) % 256) && HexBytes.IsByte(v % 256)
    ensures ((v / 256) % 256) * 256 + v % 256 == v % 65536
    ensures 0 <= v < 65536 ==> ((v / 256) % 256) * 256 + v % 256 == v
  {
    var q, low := v / 256, v % 256;
    var top, high := q / 256, q % 256;
    assert v == 256 * q + low;
    assert q == 256 * top + high;
    assert v == 65536 * top + (256 * high + low);
    assert 0 <= 256 * high + low < 65536;
  }

  /** A command with two byte operands renders as its opcode and then two
      hex digits per operand, each of which reads back as the operand. */
  lemma TwoOperandPayload(ref: Cell, value: Cell, c: Command, high: int, low: int)
    requires CommandName(ref) == Ok(Name(c))
    requires Operands(c, value) == Ok([high, low])
    requires HexBytes.IsByte(high) && HexBytes.IsByte(low)
    ensures var s := Opcode(c) + HexBytes.FormatHex2(high) + HexBytes.FormatHex2(low);
            FormatMessage(ref, value) == Ok(s) && |s| == 6 && HexBytes.AllHex(s) &&
            HexBytes.HexValue(s[2..4]) == high && HexBytes.HexValue(s[4..6]) == low
  {
    OpcodeRendersByte(c);
    HexBytes.FormatByte(OpcodeByte(c));
    TwoBytes(Opcode(c), high, low);
    PayloadOfOperands(ref, value, c, [high, low]);
  }

  /** Two bytes rendered after a two-digit opcode sit at 2..4 and 4..6. */
  lemma TwoBytes(opcode: string, high: int, low: int)
    requires |opcode| == 2 && HexBytes.AllHex(opcode)
    requires HexBytes.IsByte(high) && HexBytes.IsByte(low)
    ensures opcode + HexBytes.RenderBytes([high, low]) ==
            opcode + HexBytes.FormatHex2(high) + HexBytes.FormatHex2(low)
    ensures var s := opcode + HexBytes.FormatHex2(high) + HexBytes.FormatHex2(low);
            |s| == 6 && HexBytes.AllHex(s) &&
            HexBytes.HexValue(s[2..4]) == high && HexBytes.HexValue(s[4..6]) == low
  {
    HexBytes.FormatByte(high);
    HexBytes.FormatByte(low);
    assert [high, low][1..] == [low];
    assert [low][1..] == [];
    assert HexBytes.RenderBytes([low]) == HexBytes.FormatHex2(low) + "";
    assert HexBytes.RenderBytes([high, low]) == HexBytes.FormatHex2(high) + HexBytes.RenderBytes([low]);
    var s := opcode + HexBytes.FormatHex2(high) + HexBytes.FormatHex2(low);
    assert s[2..4] == HexBytes.FormatHex2(high) && s[4..6] == HexBytes.FormatHex2(low);
  }

  /** IOpenWindowDetection1degree with value "enabled|closeTime|position|delta":
      enabled; closeTime / 5, truncated; the LOW byte of the position; then
      the position's high byte shifted into the upper nibble, or-ed with
      delta. */
  lemma WindowOneDegreeOperands(enabled: nat, closeTime: nat, position: nat, delta: nat)
    ensures var parts := [Numerals.DecimalText(enabled), Numerals.DecimalText(closeTime),
                          Numerals.DecimalText(position), Numerals.DecimalText(delta)];
            WindowOneDegree(Text(PyText.Join(parts, '|'))) ==
            Ok([enabled, closeTime / 5, position % 256, BitOr(((position / 256) % 256) * 16, delta)])
  {
    var parts := [Numerals.DecimalText(enabled), Numerals.DecimalText(closeTime),
                  Numerals.DecimalText(position), Numerals.DecimalText(delta)];
    DigitPartsSplit(parts, 4);
    Numerals.ParseIntOfText(enabled);
    Numerals.ParseIntOfText(closeTime);
    Numerals.ParseIntOfText(position);
    Numerals.ParseIntOfText(delta);
    WindowOneDegreeOfPieces(PyText.Join(parts, '|'), enabled, closeTime, position, delta);
  }

  /** Numerals joined with '|' split back into the same numerals. */
  lemma DigitPartsSplit(parts: seq<string>, maxsplit: nat)
    requires 1 <= |parts| <= maxsplit + 1
    requires forall k :: 0 <= k < |parts| ==> Numerals.AllDigits(parts[k])
    ensures PyText.Split(PyText.Join(parts, '|'), '|', maxsplit) == parts
  {
    forall k | 0 <= k < |parts|
      ensures '|' !in parts[k]
    {
      Numerals.DigitsExclude(parts[k], '|');
    }
    PyText.SplitJoin(parts, '|', maxsplit);
  }

  /** IOpenWindowDetection1degree reads the first four pieces of
      `value.split('|', 4)` as integers; a fifth piece, whatever it holds, is
      left aside, and digits with leading zeros read as their value. */
  lemma WindowOneDegreeOfPieces(s: string, enabled: nat, closeTime: nat, position: nat, delta: nat)
    requires var pieces := PyText.Split(s, '|', 4);
             |pieces| >= 4 &&
             Numerals.ParseInt(pieces[0]) == Some(enabled) && Numerals.ParseInt(pieces[1]) == Some(closeTime) &&
             Numerals.ParseInt(pieces[2]) == Some(position) && Numerals.ParseInt(pieces[3]) == Some(delta)
    ensures WindowOneDegree(Text(s)) ==
            Ok([enabled, closeTime / 5, position % 256, BitOr(((position / 256) % 256) * 16, delta)])
  {
  }

  /** With a byte-sized enabled flag and close time / 5, a 12-bit position
      and a 4-bit delta, the one-degree payload is ten hex digits from which
      the position and delta are recovered exactly: low byte + 256 * upper
      nibble of the last byte, and its lower nibble. */
  lemma WindowOneDegreePayload(ref: Cell, value: Cell, enabled: nat, closeTime: nat, position: nat, delta: nat)
    requires CommandName(ref) == Ok(Name(OpenWindowDetection1Degree))
    requires WindowOneDegree(value) ==
             Ok([enabled, closeTime / 5, position % 256, BitOr(((position / 256) % 256) * 16, delta)])
    requires enabled <= 255 && closeTime / 5 <= 255 && position < 4096 && delta < 16
    ensures var bytes := [0x06, enabled, closeTime / 5, position % 256, (position / 256) * 16 + delta];
            FormatMessage(ref, value).Ok? && |FormatMessage(ref, value).value| == 10 &&
            HexBytes.FromHex(FormatMessage(ref, value).value) == Some(bytes) &&
            bytes[3] + 256 * (bytes[4] / 16) == position && bytes[4] % 16 == delta
  {
    var operands := [enabled, closeTime / 5, position % 256, BitOr(((position / 256) % 256) * 16, delta)];
    WindowOneDegreeBytes(enabled, closeTime, position, delta);
    PayloadBytes(ref, value, OpenWindowDetection1Degree, operands);
  }

  /** The arithmetic behind WindowOneDegreePayload. */
  lemma WindowOneDegreeBytes(enabled: nat, closeTime: nat, position: nat, delta: nat)
    requires enabled <= 255 && closeTime / 5 <= 255 && position < 4096 && delta < 16
    ensures var operands := [enabled, closeTime / 5, position % 256, BitOr(((position / 256) % 256) * 16, delta)];
            var bytes := [0x06, enabled, closeTime / 5, position % 256, (position / 256) * 16 + delta];
            (forall i :: 0 <= i < |operands| ==> HexBytes.IsByte(operands[i])) &&
            [OpcodeByte(OpenWindowDetection1Degree)] + operands == bytes &&
            bytes[3] + 256 * (bytes[4] / 16) == position && bytes[4] % 16 == delta
  {
    TwelveBits(position);
    var high := position / 256;
    PackedNibbles(high, delta);
  }

  /** A 12-bit position is its low byte plus 256 times a 4-bit high part. */
  lemma TwelveBits(position: nat)
    requires position < 4096
    ensures (position / 256) % 256 == position / 256 < 16
    ensures position % 256 + 256 * (position / 256) == position
  {
  }

  /** IOpenWindowDetection0_1degree with value "enabled|duration|delta":
      enabled; duration / 5, truncated; delta in tenths of a degree,
      truncated. A delta that is not decimal text is a ValueError. */
  lemma WindowTenthDegreeOperands(enabled: nat, duration: nat, delta: string)
    requires '|' !in delta
    ensures var parts := [Numerals.DecimalText(enabled), Numerals.DecimalText(duration), delta];
            WindowTenthDegree(Text(PyText.Join(parts, '|'))) ==
            if Numerals.IsDecimal(delta)
            then Ok([enabled, duration / 5, Numerals.ParseTenths(delta).value])
            else Err(InvalidDecimal(delta))
  {
    var parts := [Numerals.DecimalText(enabled), Numerals.DecimalText(duration), delta];
    Numerals.DigitsExclude(parts[0], '|');
    Numerals.DigitsExclude(parts[1], '|');
    PyText.SplitJoin(parts, '|', 3);
    Numerals.ParseIntOfText(enabled);
    Numerals.ParseIntOfText(duration);
  }

  /** IOpenWindowDetection0_1degree reads the first three pieces of
      `value.split('|', 3)`: enabled and duration as integers, the delta as a
      decimal in tenths; a fourth piece is left aside. */
  lemma WindowTenthDegreeOfPieces(s: string, enabled: nat, duration: nat)
    requires var pieces := PyText.Split(s, '|', 3);
             |pieces| >= 3 && Numerals.ParseInt(pieces[0]) == Some(enabled) && Numerals.ParseInt(pieces[1]) == Some(duration)
    ensures var delta := PyText.Split(s, '|', 3)[2];
            WindowTenthDegree(Text(s)) ==
            if Numerals.IsDecimal(delta)
            then Ok([enabled, duration / 5, Numerals.ParseTenths(delta).value])
            else Err(InvalidDecimal(delta))
  {
  }

  /** ITemperatureRange with value "low|high": low, then high. */
  lemma TemperatureBoundsOperands(low: nat, high: nat)
    ensures var parts := [Numerals.DecimalText(low), Numerals.DecimalText(high)];
            TemperatureBounds(Text(PyText.Join(parts, '|'))) == Ok([low, high])
  {
    var parts := [Numerals.DecimalText(low), Numerals.DecimalText(high)];
    DigitPartsSplit(parts, 2);
    Numerals.ParseIntOfText(low);
    Numerals.ParseIntOfText(high);
    TemperatureBoundsOfPieces(PyText.Join(parts, '|'), low, high);
  }

  /** ITemperatureRange reads the two pieces of `value.split('|', 2)` as
      integers and leaves a third piece aside. */
  lemma TemperatureBoundsOfPieces(s: string, low: nat, high: nat)
    requires var pieces := PyText.Split(s, '|', 2);
             |pieces| >= 2 && Numerals.ParseInt(pieces[0]) == Some(low) && Numerals.ParseInt(pieces[1]) == Some(high)
    ensures TemperatureBounds(Text(s)) == Ok([low, high])
  {
  }

  /** With byte-sized bounds the ITemperatureRange payload is opcode 08, the
      low bound, then the high bound, two hex digits each. */
  lemma TemperatureRangePayload(ref: Cell, value: Cell, low: nat, high: nat)
    requires CommandName(ref) == Ok(Name(TemperatureRange))
    requires TemperatureBounds(value) == Ok([low, high])
    requires low <= 255 && high <= 255
    ensures var s := "08" + HexBytes.FormatHex2(low) + HexBytes.FormatHex2(high);
            FormatMessage(ref, value) == Ok(s) && |s| == 6 && HexBytes.AllHex(s) &&
            HexBytes.HexValue(s[2..4]) == low && HexBytes.HexValue(s[4..6]) == high
  {
    TwoOperandPayload(ref, value, TemperatureRange, low, high);
  }

  /** The commands that split `value` need it to be text. */
  lemma SplitCommandsNeedText(c: Command, n: int)
    requires c.OpenWindowDetection1Degree? || c.OpenWindowDetection01Degree? || c.TemperatureRange?
    ensures Operands(c, Number(n)) == Err(NotText)
  {
  }

  /** IKeepAlive with 5 gives "0205". */
  lemma KeepAliveExample(ref: Cell, value: Cell)
    requires CommandName(ref) == Ok("IKeepAlive") && value == Text("5")
    ensures FormatMessage(ref, value) == Ok("0205")
  {
    Numerals.TextExamples();
    Numerals.ParseIntOfText(5);
    SingleOperandPayload(ref, value, KeepAlive, 5);
    HexBytes.FormatExamples();
    Concatenations();
  }

  /** IMotorPosition with 300 gives "2D012C": high byte 01, low byte 2C. */
  lemma MotorPositionExample(ref: Cell, value: Cell)
    requires CommandName(ref) == Ok("IMotorPosition") && value == Text("300")
    ensures FormatMessage(ref, value) == Ok("2D012C")
  {
    Numerals.TextExamples();
    Numerals.ParseIntOfText(300);
    MotorPositionPayload(ref, value, 300);
    HexBytes.FormatExamples();
    assert (300 / 256) % 256 == 1 && 300 % 256 == 44;
    Concatenations();
  }

  /** ITemperatureRange with "18|25" gives "081219". */
  lemma TemperatureRangeExample(ref: Cell, value: Cell)
    requires CommandName(ref) == Ok("ITemperatureRange") && value == Text("18|25")
    ensures FormatMessage(ref, value) == Ok("081219")
  {
    RangeText();
    TemperatureBoundsOperands(18, 25);
    TemperatureRangePayload(ref, value, 18, 25);
    HexBytes.FormatExamples();
    Concatenations();
  }

  /** The example payloads, glued from their two-digit pieces. */
  lemma Concatenations()
    ensures "02" + "05" == "0205"
    ensures "2D" + "01" + "2C" == "2D012C"
    ensures "08" + "12" + "19" == "081219"
  {
  }

  /** The value text of the temperature range example. */
  lemma RangeText()
    ensures PyText.Join([Numerals.DecimalText(18), Numerals.DecimalText(25)], '|') == "18|25"
  {
    Numerals.TextExamples();
    assert PyText.Join(["18", "25"], '|') == "18" + "|" + "25";
  }
}
