/** Python's `"%0.2X" % n`: upper-case hexadecimal with at least two digits,
    a leading '-' for negative numbers, and as many digits as the magnitude
    needs. Only operands in 0..255 come out as exactly one byte. */
module HexBytes {
  import opened Wrappers

  predicate IsByte(n: int) {
    0 <= n <= 255
  }

  predicate IsHexDigit(c: char) {
    '0' <= c <= '9' || 'A' <= c <= 'F'
  }

  predicate AllHex(s: string) {
    forall i :: 0 <= i < |s| ==> IsHexDigit(s[i])
  }

  /** The digit of `d` in "0123456789ABCDEF". */
  function HexDigit(d: nat): (c: char)
    requires d < 16
    ensures IsHexDigit(c)
  {
    if d < 10 then ('0' as int + d) as char else ('A' as int + d - 10) as char
  }

  function HexDigitValue(c: char): (d: nat)
    requires IsHexDigit(c)
    ensures d < 16 && HexDigit(d) == c
    ensures forall e :: 0 <= e < 16 && HexDigit(e) == c ==> e == d
  {
    if c <= '9' then (c - '0') as nat else (c - 'A') as nat + 10
  }

  /** The shortest upper-case hexadecimal text of `n` ("0" for zero). */
  function HexText(n: nat): (s: string)
    ensures |s| >= 1 && AllHex(s)
  {
    if n < 16 then [HexDigit(n)]
    else HexText(n / 16) + [HexDigit(n % 16)]
  }

  /** The number denoted by hexadecimal text, most significant digit first. */
  function HexValue(s: string): nat
    requires AllHex(s)
  {
    if |s| == 0 then 0
    else HexValue(s[..|s| - 1]) * 16 + HexDigitValue(s[|s| - 1])
  }

  lemma {:induction false} HexRoundTrip(n: nat)
    ensures HexValue(HexText(n)) == n
  {
    if n >= 16 {
      var s := HexText(n);
      assert s[..|s| - 1] == HexText(n / 16);
      HexRoundTrip(n / 16);
    }
  }

  /** `"%0.2X" % n` for any integer. */
  function FormatHex2(n: int): (s: string)
    ensures |s| >= 2
    ensures n < 0 <==> s[0] == '-'
  {
    var digits := HexText(if n < 0 then -n else n);
    var padded := if |digits| < 2 then "0" + digits else digits;
    if n < 0 then "-" + padded else padded
  }

  /** A negative number renders as '-' followed by the rendering of its
      magnitude. */
  lemma NegativeHex(n: int)
    requires n < 0
    ensures FormatHex2(n) == "-" + FormatHex2(-n)
    ensures FormatHex2(n)[1..] == FormatHex2(-n) && |FormatHex2(n)| >= 3
  {
  }

  /** A byte renders as exactly two hex digits, high nibble first, that read
      back as the byte. */
  lemma FormatByte(b: int)
    requires IsByte(b)
    ensures FormatHex2(b) == [HexDigit(b / 16), HexDigit(b % 16)]
    ensures AllHex(FormatHex2(b)) && HexValue(FormatHex2(b)) == b
  {
    if b >= 16 {
      assert HexText(b / 16) == [HexDigit(b / 16)];
    }
    var hi, lo := HexDigit(b / 16), HexDigit(b % 16);
    var s := FormatHex2(b);
    assert HexDigitValue(hi) == b / 16 && HexDigitValue(lo) == b % 16;
    assert s[..1] == [hi] && [hi][..0] == [];
    assert HexValue([hi]) == b / 16;
  }

  /** Numbers of 256 and above take three or more digits: they no longer fit
      one byte of the payload. */
  lemma FormatWide(n: int)
    requires n >= 256
    ensures |FormatHex2(n)| >= 3 && AllHex(FormatHex2(n))
    ensures HexValue(FormatHex2(n)) == n
  {
    assert |HexText(n / 16)| >= 2;
    HexRoundTrip(n);
  }

  /** Operands rendered one after another, in order. */
  function RenderBytes(ops: seq<int>): string
  {
    if |ops| == 0 then "" else FormatHex2(ops[0]) + RenderBytes(ops[1..])
  }

  /** Reads hexadecimal text two digits at a time. */
  function DecodeBytes(s: string): seq<nat>
    requires |s| % 2 == 0 && AllHex(s)
    decreases |s|
  {
    if |s| == 0 then [] else [HexValue(s[..2])] + DecodeBytes(s[2..])
  }

  /** Reading a hex payload back into bytes, as `bytes.fromhex` does for
      upper-case text: None unless the text is an even number of hex digits. */
  function FromHex(s: string): Option<seq<nat>>
  {
    if |s| % 2 == 0 && AllHex(s) then Some(DecodeBytes(s)) else None
  }

  /** Byte operands render as two digits each and decode back to themselves. */
  lemma {:induction false} RenderDecode(ops: seq<int>)
    requires forall i :: 0 <= i < |ops| ==> IsByte(ops[i])
    ensures |RenderBytes(ops)| == 2 * |ops| && AllHex(RenderBytes(ops))
    ensures DecodeBytes(RenderBytes(ops)) == ops
    ensures FromHex(RenderBytes(ops)) == Some(ops)
  {
    if |ops| > 0 {
      var head, rest := FormatHex2(ops[0]), RenderBytes(ops[1..]);
      FormatByte(ops[0]);
      RenderDecode(ops[1..]);
      var s := head + rest;
      assert s[..2] == head && s[2..] == rest;
      assert [ops[0]] + ops[1..] == ops;
    }
  }

  /** Two-digit hex of a few bytes. */
  lemma FormatExamples()
    ensures FormatHex2(1) == "01" && FormatHex2(5) == "05" && FormatHex2(44) == "2C"
    ensures FormatHex2(18) == "12" && FormatHex2(25) == "19"
  {
    FormatByte(1);
    FormatByte(5);
    FormatByte(44);
    FormatByte(18);
    FormatByte(25);
  }
}
