/**
 The HTTP file server: parsing of the Range field (section 14.1.2 of RFC 9110),
 its bounds checks, and the adapter that reads a remote file through it.
 */
module FileServer {
  import opened Bytes
  import opened Decimal
  import opened Storage
  import ContentRange

  // ---- text operations ----

  /** Python's `s.replace(pattern, "")`. */
  function RemoveAll(s: string, pattern: string): string
    requires pattern != []
    decreases |s|
  {
    if s == [] then []
    else if pattern <= s then RemoveAll(s[|pattern|..], pattern)
    else [s[0]] + RemoveAll(s[1..], pattern)
  }

  /** Python's `s.split(separator)` for one character. */
  function Split(s: string, separator: char): (r: seq<string>)
    ensures r != []
  {
    if s == [] then [""]
    else
      var rest := Split(s[1..], separator);
      if s[0] == separator then [""] + rest else [[s[0]] + rest[0]] + rest[1..]
  }

  predicate IsSpace(c: char) { c == ' ' || 9 as char <= c <= 13 as char || 28 as char <= c <= 31 as char }

  function StripLeft(s: string): string {
    if s != [] && IsSpace(s[0]) then StripLeft(s[1..]) else s
  }

  function StripRight(s: string): string {
    if s != [] && IsSpace(s[|s| - 1]) then StripRight(s[..|s| - 1]) else s
  }

  /** The digits of a literal whose digits may be grouped by single underscores. */
  function Ungroup(s: string): (r: Option<string>)
    ensures r.Some? ==> AllDigits(r.value)
  {
    if s == [] then None
    else if |s| == 1 then if IsDigit(s[0]) then Some(s) else None
    else
      match Ungroup(if s[1] == '_' then s[2..] else s[1..])
      case Some(rest) => if IsDigit(s[0]) then Some([s[0]] + rest) else None
      case None => None
  }

  /** Python's `int(s)` on ASCII text. */
  function ParseInt(s: string): Option<int> {
    var t := StripRight(StripLeft(s));
    var negative := t != [] && t[0] == '-';
    match Ungroup(if t != [] && (t[0] == '-' || t[0] == '+') then t[1..] else t)
    case Some(digits) => Some(if negative then 0 - ReadDigits(digits) else ReadDigits(digits))
    case None => None
  }

  // ---- serving ----

  datatype Response = Response(status: int, contentRange: string, contentLength: nat, body: bytes)

  /** The bounds a Range value asks for; an open end means the last byte. */
  function ParseRange(header: string, fileSize: nat): Option<(int, int)> {
    var parts := Split(RemoveAll(header, "bytes="), '-');
    if |parts| != 2 then None
    else
      match (ParseInt(parts[0]), if parts[1] != "" then ParseInt(parts[1]) else Some(fileSize - 1))
      case (Some(start), Some(end)) => Some((start, end))
      case _ => None
  }

  method GetFile(files: Files, fileHash: string, range: Option<string>, offered: nat -> nat) returns (r: Response)
    ensures r == Serve(files, fileHash, range)
  {
    if fileHash !in files {
      return Response(404, "", 0, []);
    }
    var content := files[fileHash];
    var fileSize := |content|;
    if range.Some? && range.value != "" {
      var bounds := ParseRange(range.value, fileSize);
      if bounds == None {
        return Response(416, "", 0, []);
      }
      ParsedStart(range.value, fileSize);
      var (start, end) := bounds.value;
      if start >= fileSize || end >= fileSize || start > end {
        return Response(416, "", 0, []);
      }
      var pieces, _ := ReadPieces(content, start, end, offered);
      var contentRange := ContentRange.Print(ContentRange.Extent(start, end, Some(fileSize)));
      return Response(206, contentRange, end - start + 1, Concat(pieces));
    }
    var pieces, _ := ReadPieces(content, 0, fileSize - 1, offered);
    assert Concat(pieces) == content;
    r := Response(200, "", fileSize, Concat(pieces));
  }

  /** The answer to a request: the whole file, exactly the bytes of a satisfiable range, or a refusal. */
  function Serve(files: Files, fileHash: string, range: Option<string>): Response {
    if fileHash !in files then Response(404, "", 0, [])
    else
      var content := files[fileHash];
      if range == None || range == Some("") then Response(200, "", |content|, content)
      else
        match ParseRange(range.value, |content|)
        case None => Response(416, "", 0, [])
        case Some((start, end)) =>
          if 0 <= start <= end < |content| then
            Response(206, ContentRange.Print(ContentRange.Extent(start, end, Some(|content|))),
                     end - start + 1, content[start..end + 1])
          else Response(416, "", 0, [])
  }

  /** Python's integer texts may have space around them and a sign, and nothing else beside digits. */
  lemma IntegerTexts()
    ensures ParseInt(" 7\t") == Some(7) && ParseInt("+7") == Some(7) && ParseInt("-7") == Some(-7)
    ensures ParseInt("") == None && ParseInt("7a") == None && ParseInt("+-7") == None
  {
  }

  /** Single underscores may stand between digits, and nowhere else. */
  lemma GroupedDigits()
    ensures Ungroup("1_0") == Some("10")
    ensures Ungroup("_1") == None && Ungroup("1_") == None && Ungroup("1__0") == None
  {
    assert "1_0"[2..] == "0" && ['1'] + "0" == "10";
    assert "_1"[1..] == "1" && "1_"[2..] == "" && "1__0"[2..] == "_0" && "_0"[1..] == "0";
  }

  // ---- what the answers are ----

  predicate IsWhole(r: Response, content: bytes) {
    r.status == 200 && r.body == content && r.contentLength == |content|
  }

  /** A 206 that carries the bytes `first` to `last` of the content and says so. */
  predicate IsPart(r: Response, content: bytes, first: nat, last: nat) {
    && first <= last < |content|
    && r.status == 206 && r.body == content[first..last + 1] && r.contentLength == last - first + 1
    && r.contentRange == "bytes " + PrintNat(first) + "-" + PrintNat(last) + "/" + PrintNat(|content|)
  }

  /** Without a Range value a file is answered whole; a file that is not there is not found, whatever is asked. */
  lemma ServesWhole(files: Files, fileHash: string, range: Option<string>)
    ensures fileHash !in files ==> Serve(files, fileHash, range).status == 404
    ensures fileHash in files && (range == None || range == Some("")) ==>
              IsWhole(Serve(files, fileHash, range), files[fileHash])
  {
  }

  /** A range of two naturals is answered exactly if it lies within the file. */
  lemma ServesRange(files: Files, fileHash: string, first: nat, last: nat)
    requires fileHash in files
    ensures var r := Serve(files, fileHash, Some("bytes=" + PrintNat(first) + "-" + PrintNat(last)));
            if first <= last < |files[fileHash]| then IsPart(r, files[fileHash], first, last) else r.status == 416
  {
    var header := "bytes=" + PrintNat(first) + "-" + PrintNat(last);
    HeaderRoundTrip(first, last, |files[fileHash]|);
    assert RangeHeader(first, last) == header;
    assert header[0] == 'b';
  }

  lemma OpenText(text: string)
    requires 'b' !in text
    ensures RemoveAll("bytes=" + text, "bytes=") == text
  {
    assert ("bytes=" + text)[|"bytes="|..] == text;
    RemoveAbsent(text);
  }

  lemma OpenParts(first: nat, size: nat)
    ensures ParseRange("bytes=" + PrintNat(first) + "-", size) == Some((first, size - 1))
  {
    var digits := PrintNat(first);
    PrintedHasNoLetter(first);
    OpenText(digits + "-");
    assert "bytes=" + digits + "-" == "bytes=" + (digits + "-");
    SplitAtFirst(digits, "", '-');
    assert digits + ['-'] + "" == digits + "-";
    ParsePrinted(first);
  }

  /** An open range reaches to the end of the file, and is answered exactly if it starts within it. */
  lemma ServesOpenRange(files: Files, fileHash: string, first: nat)
    requires fileHash in files
    ensures var content := files[fileHash];
            var r := Serve(files, fileHash, Some("bytes=" + PrintNat(first) + "-"));
            if first < |content| then IsPart(r, content, first, |content| - 1) else r.status == 416
  {
    var header := "bytes=" + PrintNat(first) + "-";
    OpenParts(first, |files[fileHash]|);
    assert header[0] == 'b';
  }

  /** A suffix range, which RFC 9110 allows, and a text without a minus sign are refused. */
  lemma RefusesOthers(files: Files, fileHash: string, n: nat, text: string)
    requires fileHash in files && 'b' !in text && '-' !in text
    ensures Serve(files, fileHash, Some("bytes=-" + PrintNat(n))).status == 416
    ensures Serve(files, fileHash, Some("bytes=" + text)).status == 416
  {
    var digits := PrintNat(n);
    PrintedHasNoLetter(n);
    OpenText("-" + digits);
    assert "bytes=-" + digits == "bytes=" + ("-" + digits);
    SplitAtFirst("", digits, '-');
    assert "" + ['-'] + digits == "-" + digits;
    SplitWhole(digits, '-');
    OpenText(text);
    SplitWhole(text, '-');
    assert ("bytes=" + text)[0] == 'b' && ("bytes=-" + digits)[0] == 'b';
  }

  /** A parsed start is never negative: the minus sign is the separator. */
  lemma ParsedStart(header: string, fileSize: nat)
    requires ParseRange(header, fileSize).Some?
    ensures ParseRange(header, fileSize).value.0 >= 0
  {
    var text := RemoveAll(header, "bytes=");
    SplitParts(text, '-');
    ParseUnsigned(Split(text, '-')[0]);
  }

  lemma {:induction false} SplitParts(s: string, separator: char)
    ensures forall i :: 0 <= i < |Split(s, separator)| ==> separator !in Split(s, separator)[i]
  {
    if s != [] {
      SplitParts(s[1..], separator);
    }
  }

  lemma {:induction false} StripLeftKeeps(s: string, c: char)
    requires c !in s
    ensures c !in StripLeft(s)
  {
    if s != [] && IsSpace(s[0]) {
      StripLeftKeeps(s[1..], c);
    }
  }

  lemma {:induction false} StripRightKeeps(s: string, c: char)
    requires c !in s
    ensures c !in StripRight(s)
  {
    if s != [] && IsSpace(s[|s| - 1]) {
      StripRightKeeps(s[..|s| - 1], c);
    }
  }

  lemma ParseUnsigned(s: string)
    requires '-' !in s
    ensures ParseInt(s).Some? ==> ParseInt(s).value >= 0
  {
    StripLeftKeeps(s, '-');
    StripRightKeeps(StripLeft(s), '-');
  }

  // ---- printing a range and parsing it back ----

  function RangeHeader(start: int, end: int): string {
    "bytes=" + PrintInt(start) + "-" + PrintInt(end)
  }

  lemma {:induction false} RemoveAbsent(s: string)
    requires 'b' !in s
    ensures RemoveAll(s, "bytes=") == s
  {
    if s != [] {
      assert "bytes="[0] == 'b' && s[0] != 'b';
      assert !("bytes=" <= s);
      RemoveAbsent(s[1..]);
      assert [s[0]] + s[1..] == s;
    }
  }

  lemma PrintedHasNoLetter(n: int)
    ensures 'b' !in PrintInt(n)
    ensures n >= 0 ==> '-' !in PrintInt(n)
  {
  }

  lemma HeaderText(start: int, end: int)
    ensures RemoveAll(RangeHeader(start, end), "bytes=") == PrintInt(start) + "-" + PrintInt(end)
  {
    var text := PrintInt(start) + "-" + PrintInt(end);
    PrintedHasNoLetter(start);
    PrintedHasNoLetter(end);
    assert RangeHeader(start, end) == "bytes=" + text;
    RemoveAbsent(text);
  }

  lemma {:induction false} SplitAtFirst(head: string, tail: string, separator: char)
    requires separator !in head
    ensures Split(head + [separator] + tail, separator) == [head] + Split(tail, separator)
  {
    if head == [] {
      assert [] + [separator] + tail == [separator] + tail;
    } else {
      assert (head + [separator] + tail)[1..] == head[1..] + [separator] + tail;
      SplitAtFirst(head[1..], tail, separator);
      assert [head[0]] + head[1..] == head;
    }
  }

  lemma {:induction false} SplitWhole(s: string, separator: char)
    requires separator !in s
    ensures Split(s, separator) == [s]
  {
    if s != [] {
      SplitWhole(s[1..], separator);
      assert [s[0]] + s[1..] == s;
    }
  }

  lemma {:induction false} UngroupDigits(s: string)
    requires s != [] && AllDigits(s)
    ensures Ungroup(s) == Some(s)
  {
    if |s| > 1 {
      assert s[1] != '_';
      UngroupDigits(s[1..]);
      assert [s[0]] + s[1..] == s;
    }
  }

  lemma ParsePrinted(n: nat)
    ensures ParseInt(PrintNat(n)) == Some(n)
  {
    var s := PrintNat(n);
    assert IsDigit(s[0]) && IsDigit(s[|s| - 1]);
    assert StripLeft(s) == s && StripRight(s) == s;
    UngroupDigits(s);
    ReadPrintedNat(n);
  }

  lemma SplitSigned(n: int)
    ensures n >= 0 ==> Split(PrintInt(n), '-') == [PrintNat(n)]
    ensures n < 0 ==> |Split(PrintInt(n), '-')| >= 2
  {
    PrintedHasNoLetter(n);
    if n >= 0 {
      SplitWhole(PrintNat(n), '-');
    } else {
      SplitAtFirst("", PrintNat(-n), '-');
      assert "" + ['-'] + PrintNat(-n) == PrintInt(n);
    }
  }

  /** How the text of two bounds splits at the minus signs: in two exactly if neither is negative. */
  lemma SplitBounds(start: int, end: int)
    ensures var parts := Split(PrintInt(start) + "-" + PrintInt(end), '-');
            if start >= 0 && end >= 0 then parts == [PrintNat(start), PrintNat(end)] else |parts| > 2
  {
    var left, right := PrintInt(start), PrintInt(end);
    SplitSigned(end);
    if start >= 0 {
      PrintedHasNoLetter(start);
      SplitAtFirst(left, right, '-');
    } else {
      var digits := PrintNat(-start);
      PrintedHasNoLetter(-start);
      assert left + "-" + right == "" + ['-'] + (digits + ['-'] + right);
      SplitAtFirst("", digits + ['-'] + right, '-');
      SplitAtFirst(digits, right, '-');
    }
  }

  /** The header printed for two naturals parses to them; a negative bound makes it unparsable. */
  lemma HeaderRoundTrip(start: int, end: int, fileSize: nat)
    ensures ParseRange(RangeHeader(start, end), fileSize) == if start >= 0 && end >= 0 then Some((start, end)) else None
  {
    HeaderText(start, end);
    SplitBounds(start, end);
    if start >= 0 && end >= 0 {
      ParsePrinted(start);
      ParsePrinted(end);
    }
  }

  // ---- the two backends ----

  /** All the bytes a `read_range` of local storage yields, or its failure. */
  function ReadLocal(files: Files, fileHash: string, start: int, end: int): Result<bytes, StorageError> {
    if fileHash !in files then Err(FileNotFound)
    else if start < 0 then Err(Failed)
    else Ok(Segment(files[fileHash], start, end))
  }

  /** All the bytes the HTTP adapter yields when the file server holds `files`, or its failure. */
  function ReadRemote(files: Files, fileHash: string, start: int, end: int): Result<bytes, StorageError> {
    var resp := Serve(files, fileHash, Some(RangeHeader(start, end)));
    if resp.status == 404 then Err(FileNotFound)
    else if resp.status != 200 && resp.status != 206 then Err(Failed)
    else Ok(resp.body)
  }

  /**
   The backends agree on a missing file, on a start before the file and on every
   range within it, and on nothing else: there the remote one refuses and the local
   one truncates.
   */
  lemma BackendsAgree(files: Files, fileHash: string, start: int, end: int)
    ensures fileHash in files ==>
              (ReadRemote(files, fileHash, start, end).Ok? <==> 0 <= start <= end < |files[fileHash]|)
    ensures fileHash in files && 0 <= start <= end < |files[fileHash]| ==>
              && ReadRemote(files, fileHash, start, end) == Ok(files[fileHash][start..end + 1])
              && ReadLocal(files, fileHash, start, end) == Ok(files[fileHash][start..end + 1])
    ensures ReadRemote(files, fileHash, start, end) == ReadLocal(files, fileHash, start, end) <==>
            fileHash !in files || start < 0 || start <= end < |files[fileHash]|
  {
    if fileHash in files {
      HeaderRoundTrip(start, end, |files[fileHash]|);
      assert RangeHeader(start, end) != "";
    }
  }

  /** A storage backend as a server sees it: the files it holds and how it reads them. */
  datatype Backend = Backend(files: Files, read: (string, int, int) -> Result<bytes, StorageError>)

  /** Within a file, reads return the file's bytes; before it, they fail. */
  ghost predicate Reliable(b: Backend) {
    forall f, start, end :: f in b.files && start <= end < |b.files[f]| ==>
      b.read(f, start, end) == if start < 0 then Err(Failed) else Ok(b.files[f][start..end + 1])
  }

  function LocalBackend(files: Files): Backend {
    Backend(files, (f: string, start: int, end: int) => ReadLocal(files, f, start, end))
  }

  function RemoteBackend(files: Files): Backend {
    Backend(files, (f: string, start: int, end: int) => ReadRemote(files, f, start, end))
  }

  /** Local storage and the HTTP adapter are both reliable. */
  lemma BackendsReliable(files: Files)
    ensures Reliable(LocalBackend(files)) && Reliable(RemoteBackend(files))
  {
    forall f, start, end | f in files && start <= end < |files[f]|
      ensures ReadLocal(files, f, start, end) == if start < 0 then Err(Failed) else Ok(files[f][start..end + 1])
      ensures ReadRemote(files, f, start, end) == ReadLocal(files, f, start, end)
    {
      BackendsAgree(files, f, start, end);
    }
  }
}
