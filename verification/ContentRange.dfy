/**
 The Content-Range field (section 14.4 of RFC 9110) as the uploader and the file
 server print it, with the reader that undoes it.
 */
module ContentRange {
  import opened Bytes
  import opened Decimal

  /** An inclusive byte range of a representation whose total length may be left open. */
  datatype Extent = Extent(first: nat, last: nat, total: Option<nat>)

  function Print(e: Extent): string {
    "bytes " + PrintNat(e.first) + "-" + PrintNat(e.last) + "/" + if e.total.Some? then PrintNat(e.total.value) else "*"
  }

  /** The number at the head of `s` and the text after it. */
  function ReadNumber(s: string): (r: Option<(nat, string)>)
    ensures r.Some? ==> |r.value.1| < |s|
  {
    var n := DigitRun(s);
    if n == 0 then None else Some((ReadDigits(s[..n]), s[n..]))
  }

  /** The number that follows `prefix` at the head of `s`, and the text after it. */
  function ReadField(s: string, prefix: string): Option<(nat, string)> {
    if prefix <= s then ReadNumber(s[|prefix|..]) else None
  }

  /** The total after the slash: a number, or open. */
  function ReadTotal(s: string): Option<Option<nat>> {
    if s == "/*" then Some(None)
    else
      match ReadField(s, "/")
      case Some((total, "")) => Some(Some(total))
      case _ => None
  }

  function Read(s: string): Option<Extent> {
    match ReadField(s, "bytes ")
    case None => None
    case Some((first, afterFirst)) =>
      match ReadField(afterFirst, "-")
      case None => None
      case Some((last, afterLast)) =>
        match ReadTotal(afterLast)
        case None => None
        case Some(total) => Some(Extent(first, last, total))
  }

  lemma ReadPrintedNumber(n: nat, rest: string)
    requires rest == [] || !IsDigit(rest[0])
    ensures ReadNumber(PrintNat(n) + rest) == Some((n, rest))
  {
    DigitRunOfPrefix(PrintNat(n), rest);
    ReadPrintedNat(n);
    assert (PrintNat(n) + rest)[..|PrintNat(n)|] == PrintNat(n);
  }

  lemma ReadPrintedField(prefix: string, n: nat, rest: string)
    requires rest == [] || !IsDigit(rest[0])
    ensures ReadField(prefix + PrintNat(n) + rest, prefix) == Some((n, rest))
  {
    var s := prefix + PrintNat(n) + rest;
    assert s == prefix + (PrintNat(n) + rest);
    assert s[|prefix|..] == PrintNat(n) + rest;
    ReadPrintedNumber(n, rest);
  }

  lemma ReadPrintedTotal(total: Option<nat>)
    ensures ReadTotal("/" + if total.Some? then PrintNat(total.value) else "*") == Some(total)
  {
    if total.Some? {
      ReadPrintedField("/", total.value, "");
      assert "/" + PrintNat(total.value) + "" == "/" + PrintNat(total.value);
      assert IsDigit(PrintNat(total.value)[0]);
    }
  }

  /** A printed range reads back as the range it was. */
  lemma ReadPrinted(e: Extent)
    ensures Read(Print(e)) == Some(e)
  {
    var afterLast := "/" + if e.total.Some? then PrintNat(e.total.value) else "*";
    var afterFirst := "-" + PrintNat(e.last) + afterLast;
    assert Print(e) == "bytes " + PrintNat(e.first) + afterFirst;
    ReadPrintedField("bytes ", e.first, afterFirst);
    ReadPrintedField("-", e.last, afterLast);
    ReadPrintedTotal(e.total);
  }
}
