/**
 The flat JSON objects of the wire protocol: string, integer and null members,
 escaped as in section 7 of RFC 8259. `Print` is the compact form pydantic
 writes; `Parse` accepts white space and any member order, as `json.loads` does.
 */
module Json {
  import opened Bytes
  import opened Decimal

  datatype Value = Str(text: string) | Num(number: int) | Null

  type Members = seq<(string, Value)>

  // ---- printing ----

  const HEX := "0123456789abcdef"

  /** One character inside a string literal; no escape contains a control character. */
  function EscapeChar(c: char): (r: string)
    ensures r != []
    ensures forall i :: 0 <= i < |r| ==> ' ' <= r[i]
  {
    if c == '"' then "\\\""
    else if c == '\\' then "\\\\"
    else if c == 8 as char then "\\b"
    else if c == 9 as char then "\\t"
    else if c == 10 as char then "\\n"
    else if c == 12 as char then "\\f"
    else if c == 13 as char then "\\r"
    else if c < ' ' then "\\u00" + [HEX[c as int / 16], HEX[c as int % 16]]
    else [c]
  }

  function Escape(s: string): string {
    if s == [] then [] else EscapeChar(s[0]) + Escape(s[1..])
  }

  function Quote(s: string): string { "\"" + Escape(s) + "\"" }

  /** Printable characters other than the quote and the backslash stand for themselves. */
  lemma {:induction false} PlainText(s: string)
    requires forall i :: 0 <= i < |s| ==> ' ' <= s[i] && s[i] != '"' && s[i] != '\\'
    ensures Escape(s) == s && Quote(s) == "\"" + s + "\""
  {
    if s != [] {
      PlainText(s[1..]);
      assert [s[0]] + s[1..] == s;
    }
  }

  /** The short escapes of section 7 of RFC 8259, and the long form of the other control characters. */
  lemma EscapedText()
    ensures EscapeChar('"') == "\\\"" && EscapeChar('\\') == "\\\\"
    ensures EscapeChar(8 as char) == "\\b" && EscapeChar('\t') == "\\t" && EscapeChar('\n') == "\\n"
    ensures EscapeChar(12 as char) == "\\f" && EscapeChar('\r') == "\\r"
    ensures EscapeChar(1 as char) == "\\u0001" && EscapeChar(31 as char) == "\\u001f"
  {
  }

  function PrintValue(v: Value): string {
    match v
    case Str(text) => Quote(text)
    case Num(number) => PrintInt(number)
    case Null => "null"
  }

  function PrintMember(m: (string, Value)): string { Quote(m.0) + ":" + PrintValue(m.1) }

  /** The members after the opening brace, with the closing brace. */
  function PrintMembers(ms: Members): string
    requires ms != []
  {
    PrintMember(ms[0]) + if |ms| == 1 then "}" else "," + PrintMembers(ms[1..])
  }

  function Print(ms: Members): string {
    if ms == [] then "{}" else "{" + PrintMembers(ms)
  }

  // ---- parsing ----

  predicate IsSpace(c: char) { c == ' ' || c == '\t' || c == '\n' || c == '\r' }

  function SkipSpace(s: string): (r: string)
    ensures |r| <= |s|
    ensures r == [] || !IsSpace(r[0])
  {
    if s != [] && IsSpace(s[0]) then SkipSpace(s[1..]) else s
  }

  function HexValue(c: char): (r: Option<int>)
    ensures r.Some? ==> 0 <= r.value < 16
  {
    if '0' <= c <= '9' then Some(c as int - '0' as int)
    else if 'a' <= c <= 'f' then Some(c as int - 'a' as int + 10)
    else if 'A' <= c <= 'F' then Some(c as int - 'A' as int + 10)
    else None
  }

  /** The code unit written by the four hexadecimal digits at the head of `s`. */
  function HexUnit(s: string): (r: Option<int>)
    ensures r.Some? ==> |s| >= 4 && 0 <= r.value < 0x1_0000
  {
    if |s| < 4 then None
    else
      match (HexValue(s[0]), HexValue(s[1]), HexValue(s[2]), HexValue(s[3]))
      case (Some(a), Some(b), Some(c), Some(d)) => Some(a * 4096 + b * 256 + c * 16 + d)
      case _ => None
  }

  /** The character an escape stands for and how many characters follow the backslash. */
  function ReadEscape(s: string): (r: Option<(char, nat)>)
    ensures r.Some? ==> 1 <= r.value.1 <= |s|
  {
    if s == [] then None
    else if s[0] == '"' || s[0] == '\\' || s[0] == '/' then Some((s[0], 1))
    else if s[0] == 'b' then Some((8 as char, 1))
    else if s[0] == 't' then Some((9 as char, 1))
    else if s[0] == 'n' then Some((10 as char, 1))
    else if s[0] == 'f' then Some((12 as char, 1))
    else if s[0] == 'r' then Some((13 as char, 1))
    else if s[0] == 'u' then ReadUnicodeEscape(s[1..])
    else None
  }

  function ReadUnicodeEscape(s: string): (r: Option<(char, nat)>)
    ensures r.Some? ==> 1 <= r.value.1 <= |s| + 1
  {
    match HexUnit(s)
    case None => None
    case Some(unit) =>
      if unit < 0xD800 || 0xE000 <= unit then Some((unit as char, 5))
      else if unit < 0xDC00 && |s| >= 6 && s[4] == '\\' && s[5] == 'u' then
        match HexUnit(s[6..])
        case Some(low) =>
          if 0xDC00 <= low < 0xE000
          then Some((((unit - 0xD800) * 0x400 + (low - 0xDC00) + 0x1_0000) as char, 11))
          else None
        case None => None
      else None
  }

  /** The text of a string literal whose opening quote has been read, and what follows it. */
  function ReadText(s: string): (r: Option<(string, string)>)
    ensures r.Some? ==> |r.value.1| < |s|
  {
    if s == [] || s[0] < ' ' then None
    else if s[0] == '"' then Some(("", s[1..]))
    else if s[0] == '\\' then
      match ReadEscape(s[1..])
      case None => None
      case Some((c, n)) => Prepend(c, ReadText(s[n + 1..]))
    else Prepend(s[0], ReadText(s[1..]))
  }

  function Prepend(c: char, r: Option<(string, string)>): Option<(string, string)> {
    match r
    case None => None
    case Some((text, rest)) => Some(([c] + text, rest))
  }

  /** An integer literal: no leading zero, no fraction, no exponent. */
  function ReadNat(s: string): (r: Option<(nat, string)>)
    ensures r.Some? ==> |r.value.1| < |s|
  {
    var n := DigitRun(s);
    if n == 0 || (s[0] == '0' && n > 1) || (n < |s| && s[n] in ".eE") then None
    else Some((ReadDigits(s[..n]), s[n..]))
  }

  function ReadValue(s: string): (r: Option<(Value, string)>)
    ensures r.Some? ==> |r.value.1| < |s|
  {
    if s == [] then None
    else if s[0] == '"' then
      match ReadText(s[1..])
      case None => None
      case Some((text, rest)) => Some((Str(text), rest))
    else if s[0] == '-' then
      match ReadNat(s[1..])
      case None => None
      case Some((n, rest)) => Some((Num(0 - n), rest))
    else if "null" <= s then Some((Null, s[4..]))
    else
      match ReadNat(s)
      case None => None
      case Some((n, rest)) => Some((Num(n), rest))
  }

  function ReadMember(s: string): (r: Option<((string, Value), string)>)
    ensures r.Some? ==> |r.value.1| < |s|
  {
    if s == [] || s[0] != '"' then None
    else
      match ReadText(s[1..])
      case None => None
      case Some((key, afterKey)) =>
        match ReadMemberValue(SkipSpace(afterKey))
        case None => None
        case Some((v, rest)) => Some(((key, v), rest))
  }

  /** The colon and the value that follow a member's name. */
  function ReadMemberValue(s: string): (r: Option<(Value, string)>)
    ensures r.Some? ==> |r.value.1| < |s|
  {
    if s == [] || s[0] != ':' then None else ReadValue(SkipSpace(s[1..]))
  }

  function ReadMembers(s: string): Option<(Members, string)>
    decreases |s|
  {
    match ReadMember(SkipSpace(s))
    case None => None
    case Some((m, rest)) =>
      var tail := SkipSpace(rest);
      if tail == [] then None
      else if tail[0] == '}' then Some(([m], tail[1..]))
      else if tail[0] != ',' then None
      else
        match ReadMembers(tail[1..])
        case None => None
        case Some((ms, end)) => Some(([m] + ms, end))
  }

  function Parse(s: string): Option<Members> {
    var open := SkipSpace(s);
    if open == [] || open[0] != '{' then None
    else
      var inner := SkipSpace(open[1..]);
      if inner != [] && inner[0] == '}' then
        if SkipSpace(inner[1..]) == [] then Some([]) else None
      else
        match ReadMembers(inner)
        case None => None
        case Some((ms, end)) => if SkipSpace(end) == [] then Some(ms) else None
  }

  /** The value of a key; as in a Python dictionary, a repeated key keeps its last value. */
  function Lookup(ms: Members, key: string): Option<Value> {
    if ms == [] then None
    else if ms[|ms| - 1].0 == key then Some(ms[|ms| - 1].1)
    else Lookup(ms[..|ms| - 1], key)
  }

  // ---- what the reader allows and refuses ----

  predicate AllSpace(s: string) { forall i :: 0 <= i < |s| ==> s[i] in " \t\n\r" }

  lemma {:induction false} SpaceIsSkipped(space: string, s: string)
    requires AllSpace(space)
    ensures SkipSpace(space + s) == SkipSpace(s)
  {
    if space == [] {
      assert space + s == s;
    } else {
      assert (space + s)[1..] == space[1..] + s;
      SpaceIsSkipped(space[1..], s);
    }
  }

  /** White space before an object, before a member and before a value changes nothing. */
  lemma SpaceChangesNothing(space: string, s: string)
    requires AllSpace(space)
    ensures Parse(space + s) == Parse(s)
    ensures ReadMembers(space + s) == ReadMembers(s)
    ensures ReadMemberValue(":" + (space + s)) == ReadMemberValue(":" + s)
  {
    SpaceIsSkipped(space, s);
    assert (":" + (space + s))[1..] == space + s && (":" + s)[1..] == s;
  }

  /** A raw control character in a string, a digit after a leading zero and an unknown escape are refused. */
  lemma Refusals(c: char, s: string)
    ensures c < ' ' ==> ReadText([c] + s) == None
    ensures '0' <= c <= '9' ==> ReadNat("0" + ([c] + s)) == None
    ensures c !in "\"\\/bfnrtu" ==> ReadEscape([c] + s) == None
  {
    var t := "0" + ([c] + s);
    assert t[1..] == [c] + s && t[0] == '0';
    if '0' <= c <= '9' {
      assert DigitRun([c] + s) >= 1;
      assert DigitRun(t) == 1 + DigitRun(t[1..]);
    }
  }

  /** Of members with the same name the last one counts. */
  lemma LastMemberCounts(ms: Members, name: string, v: Value, other: string)
    ensures Lookup(ms + [(name, v)], name) == Some(v)
    ensures other != name ==> Lookup(ms + [(name, v)], other) == Lookup(ms, other)
  {
  }

  // ---- round trip ----

  /** A control character without a short form is written with four hexadecimal digits. */
  predicate NeedsHex(c: char) {
    c < ' ' && c as int !in {8, 9, 10, 12, 13}
  }

  lemma HexDigits(n: nat)
    requires n < 32
    ensures HexValue(HEX[n / 16]) == Some(n / 16) && HexValue(HEX[n % 16]) == Some(n % 16)
  {
  }

  lemma ReadHexPair(high: char, low: char, rest: string)
    requires HexValue(high).Some? && HexValue(low).Some?
    ensures HexUnit("00" + [high, low] + rest) == Some(HexValue(high).value * 16 + HexValue(low).value)
  {
    var s := "00" + [high, low] + rest;
    assert s[0] == '0' && s[1] == '0' && s[2] == high && s[3] == low;
    assert HexValue('0') == Some(0);
  }

  lemma ReadControlEscape(c: char, rest: string)
    requires NeedsHex(c)
    ensures ReadEscape(EscapeChar(c)[1..] + rest) == Some((c, 5))
  {
    var n := c as int;
    HexDigits(n);
    ReadHexPair(HEX[n / 16], HEX[n % 16], rest);
    var s := EscapeChar(c)[1..] + rest;
    assert s[1..] == "00" + [HEX[n / 16], HEX[n % 16]] + rest;
  }

  lemma ReadHexEscapedChar(c: char, rest: string)
    requires NeedsHex(c)
    ensures ReadText(EscapeChar(c) + rest) == Prepend(c, ReadText(rest))
  {
    var s := EscapeChar(c) + rest;
    assert s[0] == '\\';
    assert s[1..] == EscapeChar(c)[1..] + rest;
    ReadControlEscape(c, rest);
    assert s[6..] == rest;
  }

  lemma ReadShortEscapedChar(c: char, rest: string)
    requires !NeedsHex(c) && EscapeChar(c)[0] == '\\'
    ensures ReadText(EscapeChar(c) + rest) == Prepend(c, ReadText(rest))
  {
    var s := EscapeChar(c) + rest;
    assert s[1..][0] == EscapeChar(c)[1];
    assert ReadEscape(s[1..]) == Some((c, 1));
    assert s[2..] == rest;
  }

  lemma ReadPlainChar(c: char, rest: string)
    requires ' ' <= c && c != '"' && c != '\\'
    ensures ReadText([c] + rest) == Prepend(c, ReadText(rest))
  {
  }

  lemma ReadEscapedChar(c: char, rest: string)
    ensures ReadText(EscapeChar(c) + rest) == Prepend(c, ReadText(rest))
  {
    if NeedsHex(c) {
      ReadHexEscapedChar(c, rest);
    } else if EscapeChar(c)[0] == '\\' {
      ReadShortEscapedChar(c, rest);
    } else {
      ReadPlainChar(c, rest);
    }
  }

  lemma {:induction false} ReadEscaped(text: string, rest: string)
    ensures ReadText(Escape(text) + "\"" + rest) == Some((text, rest))
  {
    if text == [] {
      assert Escape(text) + "\"" + rest == "\"" + rest;
    } else {
      var tail := Escape(text[1..]) + "\"" + rest;
      assert Escape(text) + "\"" + rest == EscapeChar(text[0]) + tail;
      ReadEscapedChar(text[0], tail);
      ReadEscaped(text[1..], rest);
      assert [text[0]] + text[1..] == text;
    }
  }

  lemma ReadPrintedNatValue(n: nat, rest: string)
    requires rest != [] && rest[0] in ",}"
    ensures ReadNat(PrintNat(n) + rest) == Some((n, rest))
  {
    var digits := PrintNat(n);
    ReadPrintedNat(n);
    DigitRunOfPrefix(digits, rest);
    var s := digits + rest;
    assert s[..|digits|] == digits && s[|digits|..] == rest;
    assert s[0] == digits[0];
  }

  lemma ReadUnsignedValue(s: string)
    requires s != [] && IsDigit(s[0])
    ensures ReadNat(s).Some? ==> ReadValue(s) == Some((Num(ReadNat(s).value.0), ReadNat(s).value.1))
  {
  }

  lemma ReadNegativeValue(s: string)
    ensures ReadNat(s).Some? ==> ReadValue("-" + s) == Some((Num(0 - ReadNat(s).value.0), ReadNat(s).value.1))
  {
  }

  lemma ReadPrintedNegative(n: nat, rest: string, s: string)
    requires rest != [] && rest[0] in ",}" && s == PrintNat(n) + rest
    ensures ReadValue("-" + s) == Some((Num(0 - n), rest))
  {
    ReadPrintedNatValue(n, rest);
    ReadNegativeValue(s);
  }

  lemma ReadPrintedUnsigned(n: nat, rest: string, s: string)
    requires rest != [] && rest[0] in ",}" && s == PrintNat(n) + rest
    ensures ReadValue(s) == Some((Num(n), rest))
  {
    ReadPrintedNatValue(n, rest);
    assert s[0] == PrintNat(n)[0];
    ReadUnsignedValue(s);
  }

  lemma ReadPrintedInt(n: int, rest: string)
    requires rest != [] && rest[0] in ",}"
    ensures ReadValue(PrintInt(n) + rest) == Some((Num(n), rest))
  {
    if n < 0 {
      ReadPrintedNegative(-n, rest, PrintNat(-n) + rest);
      assert PrintInt(n) + rest == "-" + (PrintNat(-n) + rest);
    } else {
      ReadPrintedUnsigned(n, rest, PrintNat(n) + rest);
    }
  }

  lemma ReadTextValue(s: string)
    ensures ReadText(s).Some? ==> ReadValue("\"" + s) == Some((Str(ReadText(s).value.0), ReadText(s).value.1))
  {
  }

  lemma ConcatAssociates(a: string, b: string, c: string, d: string)
    ensures (a + b + c) + d == a + (b + c + d)
  {
  }

  lemma ReadQuotedText(s: string, text: string, rest: string)
    requires ReadText(s) == Some((text, rest))
    ensures ReadValue("\"" + s) == Some((Str(text), rest))
  {
    ReadTextValue(s);
  }

  lemma ReadQuoted(text: string, rest: string)
    ensures ReadValue(Quote(text) + rest) == Some((Str(text), rest))
  {
    ReadEscaped(text, rest);
    ReadQuotedText(Escape(text) + "\"" + rest, text, rest);
    ConcatAssociates("\"", Escape(text), "\"", rest);
  }

  lemma ReadNull(rest: string)
    ensures ReadValue("null" + rest) == Some((Null, rest))
  {
  }

  lemma ReadPrintedValue(v: Value, rest: string)
    requires rest != [] && rest[0] in ",}"
    ensures ReadValue(PrintValue(v) + rest) == Some((v, rest))
  {
    match v {
      case Str(text) => ReadQuoted(text, rest);
      case Num(number) => ReadPrintedInt(number, rest);
      case Null => ReadNull(rest);
    }
  }

  lemma PrintedValueStart(v: Value)
    ensures PrintValue(v) != [] && !IsSpace(PrintValue(v)[0])
  {
  }

  lemma ReadAfterColon(body: string)
    requires body != [] && !IsSpace(body[0])
    ensures ReadMemberValue(":" + body) == ReadValue(body)
  {
  }

  lemma ReadPrintedMemberValue(v: Value, rest: string)
    requires rest != [] && rest[0] in ",}"
    ensures ReadMemberValue(":" + (PrintValue(v) + rest)) == Some((v, rest))
  {
    PrintedValueStart(v);
    ReadPrintedValue(v, rest);
    ReadAfterColon(PrintValue(v) + rest);
  }

  lemma ReadAfterName(name: string, value: string)
    requires value != [] && value[0] == ':'
    ensures ReadMemberValue(value).Some? ==>
              var (v, rest) := ReadMemberValue(value).value;
              ReadMember(Quote(name) + value) == Some(((name, v), rest))
  {
    assert (Quote(name) + value)[1..] == Escape(name) + "\"" + value;
    ReadEscaped(name, value);
  }

  lemma ReadNamedValue(name: string, v: Value, rest: string, value: string)
    requires rest != [] && rest[0] in ",}" && value == ":" + (PrintValue(v) + rest)
    ensures ReadMember(Quote(name) + value) == Some(((name, v), rest))
  {
    ReadPrintedMemberValue(v, rest);
    ReadAfterName(name, value);
  }

  lemma ConcatToTheRight(a: string, b: string, c: string, d: string)
    ensures (a + b + c) + d == a + (b + (c + d))
  {
  }

  lemma MemberText(m: (string, Value), rest: string)
    ensures PrintMember(m) + rest == Quote(m.0) + (":" + (PrintValue(m.1) + rest))
  {
    ConcatToTheRight(Quote(m.0), ":", PrintValue(m.1), rest);
  }

  lemma ReadPrintedMember(m: (string, Value), rest: string)
    requires rest != [] && rest[0] in ",}"
    ensures ReadMember(PrintMember(m) + rest) == Some((m, rest))
  {
    ReadNamedValue(m.0, m.1, rest, ":" + (PrintValue(m.1) + rest));
    MemberText(m, rest);
  }

  lemma MembersStart(ms: Members)
    requires ms != []
    ensures PrintMembers(ms) != [] && PrintMembers(ms)[0] == '"'
  {
  }

  /** One member and what follows it. */
  lemma ReadMembersStep(m: (string, Value), rest: string)
    requires rest != [] && rest[0] in ",}"
    ensures ReadMembers(PrintMember(m) + rest) ==
            if rest[0] == '}' then Some(([m], rest[1..]))
            else match ReadMembers(rest[1..])
                 case None => None
                 case Some((ms, end)) => Some(([m] + ms, end))
  {
    ReadPrintedMember(m, rest);
    var s := PrintMember(m) + rest;
    assert s[0] == '"';
    assert SkipSpace(s) == s && SkipSpace(rest) == rest;
  }

  lemma ReadLastMember(m: (string, Value))
    ensures ReadMembers(PrintMember(m) + "}") == Some(([m], ""))
  {
    ReadMembersStep(m, "}");
  }

  lemma ReadMoreMembers(m: (string, Value), tail: string, ms: Members)
    requires ReadMembers(tail) == Some((ms, ""))
    ensures ReadMembers(PrintMember(m) + ("," + tail)) == Some(([m] + ms, ""))
  {
    ReadMembersStep(m, "," + tail);
    assert ("," + tail)[1..] == tail;
  }

  lemma PrintMembersSplit(ms: Members)
    requires ms != []
    ensures PrintMembers(ms) == PrintMember(ms[0]) + if |ms| == 1 then "}" else "," + PrintMembers(ms[1..])
  {
  }

  lemma {:induction false} ReadPrintedMembers(ms: Members, s: string)
    requires ms != [] && s == PrintMembers(ms)
    ensures ReadMembers(s) == Some((ms, ""))
    decreases |ms|
  {
    PrintMembersSplit(ms);
    if |ms| == 1 {
      ReadLastMember(ms[0]);
      assert ms == [ms[0]];
    } else {
      var rest := ms[1..];
      ReadPrintedMembers(rest, PrintMembers(rest));
      ReadMoreMembers(ms[0], PrintMembers(rest), rest);
      assert ms == [ms[0]] + rest;
    }
  }

  lemma ParseOpened(inner: string)
    requires inner != [] && inner[0] == '"'
    ensures ReadMembers(inner).Some? && ReadMembers(inner).value.1 == "" ==>
              Parse("{" + inner) == Some(ReadMembers(inner).value.0)
  {
  }

  /** Every flat object, whatever characters its strings hold, reads back as it was written. */
  lemma ParsePrinted(ms: Members)
    ensures Parse(Print(ms)) == Some(ms)
  {
    if ms == [] {
      assert Print(ms)[1..] == "}";
    } else {
      MembersStart(ms);
      ReadPrintedMembers(ms, PrintMembers(ms));
      ParseOpened(PrintMembers(ms));
    }
  }

  // ---- printed objects stay on one line ----

  predicate OneLine(s: string) { forall i :: 0 <= i < |s| ==> ' ' <= s[i] }

  lemma {:induction false} EscapeOneLine(text: string)
    ensures OneLine(Escape(text))
  {
    if text != [] {
      EscapeOneLine(text[1..]);
    }
  }

  lemma PrintMemberOneLine(m: (string, Value))
    ensures OneLine(PrintMember(m))
  {
    EscapeOneLine(m.0);
    match m.1 {
      case Str(text) => EscapeOneLine(text);
      case Num(number) => assert AllDigits(PrintNat(if number < 0 then -number else number));
      case Null =>
    }
  }

  lemma {:induction false} PrintMembersOneLine(ms: Members)
    requires ms != []
    ensures OneLine(PrintMembers(ms))
  {
    PrintMemberOneLine(ms[0]);
    if |ms| > 1 {
      PrintMembersOneLine(ms[1..]);
    }
  }

  lemma PrintOneLine(ms: Members)
    ensures OneLine(Print(ms))
  {
    if ms != [] {
      PrintMembersOneLine(ms);
    }
  }
}
