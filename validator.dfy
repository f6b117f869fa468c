/** parse_data: checks the decoded JSON document's header, then encodes every
    row with format_message and concatenates the payloads in row order. */
module Validator {
  import opened Wrappers
  import Encoder

  /** What `json.loads` yields: text that is not JSON, or an object whose
      `columns` and `values` members may be absent. */
  datatype Json =
    | Malformed
    | Object(columns: Option<seq<string>>, values: Option<seq<seq<Encoder.Cell>>>)

  /** The ways parse_data fails. The first three are answered with a message
      and status 404; the others are exceptions that leave parse_data. */
  datatype ParseError =
    | InvalidJson                              // "Invalid json"
    | MissingColumn(column: string)            // "... not specified in columns structure"
    | BadRowLength                             // "Invalid request. Check the values structure"
    | MissingKey(key: string)                  // `data_detail[key]`: KeyError
    | EncodeFailed(cause: Encoder.EncodeError) // format_message raised

  /** The header names parse_data insists on, in the order it checks them. */
  const RequiredColumns: seq<string> := ["fport", "type", "ref", "value"]

  /** The reply text of the errors parse_data returns (rather than raises). */
  function Message(e: ParseError): string
    requires e.InvalidJson? || e.MissingColumn? || e.BadRowLength?
  {
    match e
    case InvalidJson => "Invalid json"
    case MissingColumn(column) => "Invalid request. " + column + " not specified in columns structure"
    case BadRowLength => "Invalid request. Check the values structure"
  }

  /** The first of `required` that `columns` lacks, if any. */
  function FirstMissing(columns: seq<string>, required: seq<string>): (r: Option<string>)
    ensures r.None? <==> forall k :: 0 <= k < |required| ==> required[k] in columns
    ensures r.Some? ==> exists k :: 0 <= k < |required| && required[k] == r.value && r.value !in columns &&
                                    forall j :: 0 <= j < k ==> required[j] in columns
  {
    if |required| == 0 then None
    else if required[0] !in columns then Some(required[0])
    else
      var rest := FirstMissing(columns, required[1..]);
      assert forall k :: 1 <= k < |required| ==> required[k] == required[1..][k - 1];
      rest
  }

  /** One row `[fport, type, ref, value]`: its payload, or why it has none. */
  function EncodeRow(row: seq<Encoder.Cell>): Result<string, ParseError>
  {
    if |row| != 4 then Err(BadRowLength)
    else
      match Encoder.FormatMessage(row[2], row[3])
      case Ok(payload) => Ok(payload)
      case Err(cause) => Err(EncodeFailed(cause))
  }

  /** Row encoders: how one row of `values` becomes its payload. */
  type RowEncoder = seq<Encoder.Cell> -> Result<string, ParseError>

  /** The loop of parse_data over `rows`: payloads concatenated in order; the
      first row that fails decides the error. Defined by its last step, as the
      loop computes it. */
  function Concatenate(encode: RowEncoder, rows: seq<seq<Encoder.Cell>>): Result<string, ParseError>
  {
    if |rows| == 0 then Ok("")
    else
      var prefix :- Concatenate(encode, rows[..|rows| - 1]);
      var payload :- encode(rows[|rows| - 1]);
      Ok(prefix + payload)
  }

  /** Independent reference for Concatenate: the first row's payload
      followed by the rest's. */
  function ConcatenateFront(encode: RowEncoder, rows: seq<seq<Encoder.Cell>>): Result<string, ParseError>
  {
    if |rows| == 0 then Ok("")
    else
      var payload :- encode(rows[0]);
      var rest :- ConcatenateFront(encode, rows[1..]);
      Ok(payload + rest)
  }

  /** What parse_data returns for a request body. */
  function Payload(input: Json): Result<string, ParseError>
  {
    match input
    case Malformed => Err(InvalidJson)
    case Object(columns, values) =>
      if columns.None? then Err(MissingKey("columns"))
      else match FirstMissing(columns.value, RequiredColumns)
        case Some(column) => Err(MissingColumn(column))
        case None =>
          if values.None? then Err(MissingKey("values")) else Concatenate(EncodeRow, values.value)
  }

  /** parse_data(data), with `json.loads` already applied. */
  method ParseData(input: Json) returns (r: Result<string, ParseError>)
    ensures r == Payload(input)
  {
    if input.Malformed? {
      return Err(InvalidJson);
    }
    if input.columns.None? {
      return Err(MissingKey("columns"));
    }
    var columns := input.columns.value;
    FirstMissingRequired(columns);
    if "fport" !in columns {
      return Err(MissingColumn("fport"));
    }
    if "type" !in columns {
      return Err(MissingColumn("type"));
    }
    if "ref" !in columns {
      return Err(MissingColumn("ref"));
    }
    if "value" !in columns {
      return Err(MissingColumn("value"));
    }
    if input.values.None? {
      return Err(MissingKey("values"));
    }
    var rows := input.values.value;
    var output := "";
    for i := 0 to |rows|
      invariant Concatenate(EncodeRow, rows[..i]) == Ok(output)
    {
      var row := rows[i];
      if |row| != 4 {
        FirstFailureDecides(EncodeRow, rows, i);
        return Err(BadRowLength);
      }
      var message := Encoder.FormatMessage(row[2], row[3]);
      if message.Err? {
        FirstFailureDecides(EncodeRow, rows, i);
        return Err(EncodeFailed(message.error));
      }
      assert rows[..i + 1][..i] == rows[..i];
      output := output + message.value;
    }
    assert rows[..|rows|] == rows;
    return Ok(output);
  }

  /** The header check of parse_data: fport, type, ref and value, in that
      order; the first one missing is reported. */
  lemma FirstMissingRequired(columns: seq<string>)
    ensures FirstMissing(columns, RequiredColumns) ==
            if "fport" !in columns then Some("fport")
            else if "type" !in columns then Some("type")
            else if "ref" !in columns then Some("ref")
            else if "value" !in columns then Some("value")
            else None
  {
    var r := RequiredColumns;
    assert r[0] == "fport" && r[1..][0] == "type" && r[1..][1..][0] == "ref" && r[1..][1..][1..][0] == "value";
    assert |r[1..][1..][1..][1..]| == 0;
  }

  /** The replies parse_data returns for a body that is not JSON and for a
      header whose first missing required column is `RequiredColumns[k]`. */
  lemma HeaderReplies(columns: seq<string>, values: Option<seq<seq<Encoder.Cell>>>, k: nat)
    requires k < |RequiredColumns| && RequiredColumns[k] !in columns
    requires forall j :: 0 <= j < k ==> RequiredColumns[j] in columns
    ensures Payload(Malformed) == Err(InvalidJson) && Message(Payload(Malformed).error) == "Invalid json"
    ensures Payload(Object(Some(columns), values)) == Err(MissingColumn(RequiredColumns[k])) &&
            Message(Payload(Object(Some(columns), values)).error) ==
            "Invalid request. " + RequiredColumns[k] + " not specified in columns structure"
  {
    FirstMissingRequired(columns);
    var r := RequiredColumns;
    assert r[0] == "fport" && r[1] == "type" && r[2] == "ref" && r[3] == "value";
    if k > 0 { assert r[0] in columns; }
    if k > 1 { assert r[1] in columns; }
    if k > 2 { assert r[2] in columns; }
  }

  /** The reply to a request whose first failing row has the wrong length. */
  lemma BadRowReply(rows: seq<seq<Encoder.Cell>>, i: nat)
    requires i < |rows| && Concatenate(EncodeRow, rows[..i]).Ok? && |rows[i]| != 4
    ensures Concatenate(EncodeRow, rows) == Err(BadRowLength) &&
            Message(Concatenate(EncodeRow, rows).error) == "Invalid request. Check the values structure"
  {
    FirstFailureDecides(EncodeRow, rows, i);
  }

  /** Encoding two batches one after the other is encoding them together:
      the payloads concatenate, and an error in the first batch wins. */
  lemma {:induction false} ConcatenateAppend(encode: RowEncoder, a: seq<seq<Encoder.Cell>>, b: seq<seq<Encoder.Cell>>)
    ensures Concatenate(encode, a + b) ==
            match Concatenate(encode, a)
            case Err(e) => Err(e)
            case Ok(x) =>
              match Concatenate(encode, b)
              case Err(e) => Err(e)
              case Ok(y) => Ok(x + y)
    decreases |b|
  {
    if |b| == 0 {
      assert a + b == a;
      if Concatenate(encode, a).Ok? {
        assert Concatenate(encode, a).value + "" == Concatenate(encode, a).value;
      }
    } else {
      var b', last := b[..|b| - 1], b[|b| - 1];
      assert (a + b)[..|a + b| - 1] == a + b';
      assert (a + b)[|a + b| - 1] == last;
      ConcatenateAppend(encode, a, b');
      if Concatenate(encode, a).Ok? && Concatenate(encode, b').Ok? && encode(last).Ok? {
        var x, y, z := Concatenate(encode, a).value, Concatenate(encode, b').value, encode(last).value;
        assert Concatenate(encode, a + b) == Ok((x + y) + z);
        assert Concatenate(encode, b) == Ok(y + z);
        assert (x + y) + z == x + (y + z);
      }
    }
  }

  /** Rows before the first failing one do not matter: that row's error is
      the result. */
  lemma FirstFailureDecides(encode: RowEncoder, rows: seq<seq<Encoder.Cell>>, i: nat)
    requires i < |rows| && Concatenate(encode, rows[..i]).Ok? && encode(rows[i]).Err?
    ensures Concatenate(encode, rows) == Err(encode(rows[i]).error)
  {
    assert rows[..i + 1][..i] == rows[..i];
    assert rows == rows[..i + 1] + rows[i + 1..];
    ConcatenateAppend(encode, rows[..i + 1], rows[i + 1..]);
  }

  /** The rows encode exactly when every row does. */
  lemma {:induction false} ConcatenateOk(encode: RowEncoder, rows: seq<seq<Encoder.Cell>>)
    ensures Concatenate(encode, rows).Ok? <==> forall k :: 0 <= k < |rows| ==> encode(rows[k]).Ok?
  {
    if |rows| > 0 {
      var prefix := rows[..|rows| - 1];
      ConcatenateOk(encode, prefix);
      assert forall k :: 0 <= k < |prefix| ==> prefix[k] == rows[k];
    }
  }

  /** The loop's order of evaluation gives the same result as the front-first
      reference, payloads and errors alike. */
  lemma {:induction false} ConcatenateMatchesFront(encode: RowEncoder, rows: seq<seq<Encoder.Cell>>)
    ensures Concatenate(encode, rows) == ConcatenateFront(encode, rows)
    decreases |rows|
  {
    if |rows| > 0 {
      ConcatenateMatchesFront(encode, rows[1..]);
      assert rows == [rows[0]] + rows[1..];
      ConcatenateAppend(encode, [rows[0]], rows[1..]);
      assert [rows[0]][..0] == [];
      assert Concatenate(encode, [rows[0]]) ==
             match encode(rows[0]) case Ok(x) => Ok("" + x) case Err(e) => Err(e);
      if encode(rows[0]).Ok? {
        assert "" + encode(rows[0]).value == encode(rows[0]).value;
      }
    }
  }

  /** A row of any length other than four rejects the whole request. */
  lemma BadRowRejects(rows: seq<seq<Encoder.Cell>>, i: nat)
    requires i < |rows| && |rows[i]| != 4
    ensures Concatenate(EncodeRow, rows).Err?
  {
    ConcatenateOk(EncodeRow, rows);
  }

  /** The rows' first two cells play no part; the row encodes exactly when
      format_message accepts its ref and value. */
  lemma OnlyRefAndValueMatter(f1: Encoder.Cell, t1: Encoder.Cell, f2: Encoder.Cell, t2: Encoder.Cell,
                              ref: Encoder.Cell, value: Encoder.Cell)
    ensures EncodeRow([f1, t1, ref, value]) == EncodeRow([f2, t2, ref, value])
    ensures EncodeRow([f1, t1, ref, value]).Ok? <==> Encoder.FormatMessage(ref, value).Ok?
  {
  }
}
