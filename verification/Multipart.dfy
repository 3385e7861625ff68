/** The hand-written form body of verifyViaStandardInput in contracts/scripts/verify.js. */
module Multipart {
  import opened Wrappers
  import opened Text
  import opened Rfc2046
  import Decimal

  const FORM_DATA := "form-data; name=\""
  const FILENAME := "; filename=\""

  /** The template of addField; the parentheses mark its header line. */
  function FieldText(boundary: string, name: string, value: string): string {
    "--" + boundary
    + (CRLF + ("Content-Disposition" + ": " + (FORM_DATA + name + "\"")))
    + CRLF + CRLF + value + CRLF
  }

  /** The template of addFile, with two header lines. */
  function FileText(boundary: string, name: string, filename: string, content: string, contentType: string): string {
    "--" + boundary
    + (CRLF + ("Content-Disposition" + ": " + (FORM_DATA + name + "\"" + (FILENAME + filename + "\"")))
       + (CRLF + ("Content-Type" + ": " + contentType)))
    + CRLF + CRLF + content + CRLF
  }

  /** addField's text as it stands in the source. */
  lemma {:induction false} FieldTemplate(boundary: string, name: string, value: string)
    ensures FieldText(boundary, name, value) ==
            "--" + boundary + "\r\n" + "Content-Disposition: " + "form-data; name=\"" + name + "\"" + "\r\n\r\n" + value
            + "\r\n"
  {
    assert "Content-Disposition" + ": " == "Content-Disposition: ";
    assert CRLF + CRLF == "\r\n\r\n";
    FieldPieces("--", boundary, CRLF, "Content-Disposition", ": ", FORM_DATA, name, "\"", value);
  }

  lemma {:induction false} FieldPieces(hyphens: string, boundary: string, end: string, key: string, colon: string,
                                       start: string, name: string, quote: string, value: string)
    ensures hyphens + boundary + (end + (key + colon + (start + name + quote))) + end + end + value + end ==
            hyphens + boundary + end + (key + colon) + start + name + quote + (end + end) + value + end
  {
  }

  /** addFile's text as it stands in the source. */
  lemma {:induction false} FileTemplate(boundary: string, name: string, filename: string, content: string,
                                        contentType: string)
    ensures FileText(boundary, name, filename, content, contentType) ==
            "--" + boundary + "\r\n" + "Content-Disposition: " + "form-data; name=\"" + name + "\"" + "; filename=\""
            + filename + "\"" + "\r\n" + "Content-Type: " + contentType + "\r\n\r\n" + content + "\r\n"
  {
    assert "Content-Disposition" + ": " == "Content-Disposition: " && "Content-Type" + ": " == "Content-Type: ";
    assert CRLF + CRLF == "\r\n\r\n";
    FilePieces("--" + boundary, CRLF, "Content-Disposition", ": ", FORM_DATA + name, "\"", FILENAME, filename,
               "Content-Type", contentType, content);
  }

  lemma {:induction false} FilePieces(head: string, end: string, key: string, colon: string, start: string,
                                      quote: string, mark: string, filename: string, kind: string, contentType: string,
                                      content: string)
    ensures head + (end + (key + colon + (start + quote + (mark + filename + quote)))
                    + (end + (kind + colon + contentType))) + end + end + content + end ==
            head + end + (key + colon) + start + quote + mark + filename + quote + end + (kind + colon) + contentType
            + (end + end) + content + end
  {
  }

  function PartText(boundary: string, part: Part): string {
    match part
    case Field(name, value) => FieldText(boundary, name, value)
    case File(name, filename, content, contentType) => FileText(boundary, name, filename, content, contentType)
  }

  function PartTexts(boundary: string, parts: seq<Part>): seq<string> {
    if parts == [] then []
    else PartTexts(boundary, parts[..|parts| - 1]) + [PartText(boundary, parts[|parts| - 1])]
  }

  /** parts.join("") */
  function Join(texts: seq<string>): string {
    if texts == [] then "" else texts[0] + Join(texts[1..])
  }

  function BodyOf(boundary: string, parts: seq<Part>): string {
    Join(PartTexts(boundary, parts)) + ("--" + boundary + ("--" + CRLF))
  }

  // ---------- names between quotes ----------

  /** The printer does not escape what it puts between quotes. */
  predicate Quotable(s: string) {
    '"' !in s && '\\' !in s && '\r' !in s
  }

  /** The names need no escape, and the type fits a header line. */
  ghost predicate Plain(part: Part) {
    && Quotable(part.name)
    && (part.File? ==> Quotable(part.filename) && ValueFit(part.contentType))
  }

  /** A quoted string is read back, and ends where it was closed, exactly if it needed no escape. */
  lemma {:induction false} QuotedExactly(s: string, rest: string)
    ensures ReadQuoted(s + "\"" + rest) == Some((s, rest)) <==> Quotable(s)
  {
    var t := s + "\"" + rest;
    if s == "" {
      assert t == "\"" + rest && t[1..] == rest;
    } else {
      assert t[0] == s[0] && t[1..] == s[1..] + "\"" + rest;
      QuotedExactly(s[1..], rest);
      assert s == [s[0]] + s[1..];
      assert Quotable(s) <==> s[0] != '"' && s[0] != '\\' && s[0] != '\r' && Quotable(s[1..]);
      if ReadQuoted(t[1..]).Some? {
        assert ([s[0]] + ReadQuoted(t[1..]).value.0)[1..] == ReadQuoted(t[1..]).value.0;
      }
    }
  }

  /** A reader that lags behind a run of backslashes never catches up: every character that it reads as
      a backslash costs it two. */
  lemma {:induction false} LaggingNeverMatches(value: string, ahead: string, s: string, rest: string)
    requires ahead != "" && forall c | c in ahead :: c == '\\'
    requires value + "\"" + rest == ahead + s
    ensures ReadQuoted(s).None? || ReadQuoted(s).value.0 != value
    decreases |s|
  {
    var t := value + "\"" + rest;
    assert t[0] == ahead[0] && ahead[0] in ahead;
    assert value != "" ==> t[0] == value[0] && t[1..] == value[1..] + "\"" + rest;
    if value != "" && |s| >= 2 && s[0] == '\\' && s[1] == '\\' {
      assert t[1..] == ahead[1..] + s == (ahead[1..] + "\\\\") + s[2..];
      assert forall c | c in ahead[1..] :: c in ahead;
      assert forall c | c in "\\\\" :: c == '\\';
      LaggingNeverMatches(value[1..], ahead[1..] + "\\\\", s[2..], rest);
      if ReadQuoted(s[2..]).Some? {
        assert (['\\'] + ReadQuoted(s[2..]).value.0)[1..] == ReadQuoted(s[2..]).value.0;
      }
    }
  }

  /** Wherever the reader stops, it reads the printed name only if that needed no escape. */
  lemma {:induction false} QuotedNameExactly(s: string, rest: string)
    requires var r := ReadQuoted(s + "\"" + rest); r.Some? && r.value.0 == s
    ensures Quotable(s)
  {
    if s != "" {
      var t := s + "\"" + rest;
      assert t[0] == s[0] && t[1..] == s[1..] + "\"" + rest;
      if s[0] == '\\' && t[1] == '\\' {
        assert ReadQuoted(t).value.0[1..] == ReadQuoted(t[2..]).value.0;
        assert t[1..] == "\\" + t[2..];
        LaggingNeverMatches(s[1..], "\\", t[2..], rest);
      } else if s[0] != '\\' {
        assert ([s[0]] + ReadQuoted(t[1..]).value.0)[1..] == ReadQuoted(t[1..]).value.0;
        QuotedNameExactly(s[1..], rest);
        assert s == [s[0]] + s[1..];
      }
    }
  }

  // ---------- the text between two delimiters ----------

  function DispositionValue(part: Part): string {
    match part
    case Field(name, _) => FORM_DATA + name + "\""
    case File(name, filename, _, _) => FORM_DATA + name + "\"" + (FILENAME + filename + "\"")
  }

  function Headers(part: Part): Pairs {
    [("Content-Disposition", DispositionValue(part))] +
    if part.File? then [("Content-Type", part.contentType)] else []
  }

  function HeaderLine(header: (string, string)): string {
    header.0 + ": " + header.1
  }

  /** The header lines, each with the line break before it. */
  function HeaderBlock(headers: Pairs): string {
    if headers == [] then "" else CRLF + HeaderLine(headers[0]) + HeaderBlock(headers[1..])
  }

  function EntityText(part: Part): string {
    HeaderBlock(Headers(part)) + (CRLF + (CRLF + part.content))
  }

  function EntityOf(part: Part): Entity {
    Entity(Headers(part), part.content)
  }

  function EntitiesOf(parts: seq<Part>): (entities: seq<Entity>)
    ensures |entities| == |parts| && forall i | 0 <= i < |parts| :: entities[i] == EntityOf(parts[i])
  {
    seq(|parts|, i requires 0 <= i < |parts| => EntityOf(parts[i]))
  }

  /** What the reader finds behind a delimiter when `parts` are still to come. */
  function After(boundary: string, parts: seq<Part>): string {
    if parts == [] then "--" + CRLF
    else EntityText(parts[0]) + (Delimiter(boundary) + After(boundary, parts[1..]))
  }

  lemma {:induction false} HeaderBlockOfPart(part: Part)
    ensures HeaderBlock(Headers(part)) ==
            match part
            case Field(name, _) => CRLF + ("Content-Disposition" + ": " + (FORM_DATA + name + "\""))
            case File(name, filename, _, contentType) =>
              CRLF + ("Content-Disposition" + ": " + (FORM_DATA + name + "\"" + (FILENAME + filename + "\"")))
              + (CRLF + ("Content-Type" + ": " + contentType))
  {
    var h := Headers(part);
    var line := CRLF + HeaderLine(h[0]);
    if part.Field? {
      assert h[1..] == [];
      assert line + "" == line;
    } else {
      assert h[1..] == [("Content-Type", part.contentType)] && h[1..][1..] == [];
      var second := CRLF + HeaderLine(h[1]);
      assert second + "" == second;
      assert HeaderBlock(h[1..]) == second;
      assert HeaderBlock(h) == line + second;
    }
  }

  /** Regrouping only. */
  lemma {:induction false} Regroup(hyphens: string, b: string, block: string, eol: string, content: string,
                                   rest: string)
    ensures eol + (hyphens + b + block + eol + eol + content + eol + rest)
            == (eol + hyphens + b) + ((block + (eol + (eol + content))) + (eol + rest))
    ensures eol + (hyphens + b + rest) == (eol + hyphens + b) + rest
  {
  }

  lemma {:induction false} PartTextsCons(boundary: string, parts: seq<Part>)
    requires parts != []
    ensures PartTexts(boundary, parts) == [PartText(boundary, parts[0])] + PartTexts(boundary, parts[1..])
  {
    var n := |parts| - 1;
    if n > 0 {
      PartTextsCons(boundary, parts[..n]);
      assert parts[..n][1..] == parts[1..][..n - 1];
    }
  }

  lemma {:induction false} BodyCons(boundary: string, parts: seq<Part>)
    requires parts != []
    ensures BodyOf(boundary, parts) == PartText(boundary, parts[0]) + BodyOf(boundary, parts[1..])
  {
    PartTextsCons(boundary, parts);
    var first, texts := PartText(boundary, parts[0]), PartTexts(boundary, parts[1..]);
    assert ([first] + texts)[1..] == texts;
    var closing := "--" + boundary + ("--" + CRLF);
    assert first + Join(texts) + closing == first + (Join(texts) + closing);
  }

  lemma {:induction false} BodyShape(boundary: string, parts: seq<Part>)
    ensures CRLF + BodyOf(boundary, parts) == Delimiter(boundary) + After(boundary, parts)
  {
    if parts == [] {
      var closing := "--" + boundary + ("--" + CRLF);
      assert "" + closing == closing;
      Regroup("--", boundary, "", CRLF, "", "--" + CRLF);
    } else {
      BodyShape(boundary, parts[1..]);
      BodyCons(boundary, parts);
      HeaderBlockOfPart(parts[0]);
      Regroup("--", boundary, HeaderBlock(Headers(parts[0])), CRLF, parts[0].content, BodyOf(boundary, parts[1..]));
    }
  }

  // ---------- reading the headers back ----------

  /** A delimiter that begins with a line break and goes on with another character than the next line. */
  lemma {:induction false} SplitPastLineBreak(d: string, v: string)
    requires |d| >= 3 && d[0] == '\r' && d[1] == '\n'
    requires v == "" || v[0] != d[2]
    ensures Split(d, CRLF + v) ==
            Put(CRLF, Split(d, v))
  {
    var s := CRLF + v;
    assert s[0] == '\r' && s[1] == '\n' && |v| > 0 ==> s[2] == v[0];
    assert s[1..] == "\n" + v;
    assert !(d <= s);
    SplitSkip(d, "\n", v);
    if Split(d, v).Some? {
      assert [s[0]] + ("\n" + Split(d, v).value.0) == CRLF + Split(d, v).value.0;
    }
  }

  /** Each value stands on one line and is not led by blanks. */
  ghost predicate HeadersFit(part: Part) {
    forall h | h in Headers(part) :: ValueFit(h.1)
  }

  ghost predicate LineSafe(headers: Pairs) {
    forall h | h in headers ::
      !Occurs(CRLF, HeaderLine(h)) && HeaderLine(h)[0] !in {'-', '\r'} && ':' !in h.0 && SkipPadding(h.1) == h.1
  }

  lemma {:induction false} LineOfFitValue(name: string, value: string)
    requires '\r' !in name && ValueFit(value)
    ensures !Occurs(CRLF, HeaderLine((name, value)))
  {
    OccursBehind(CRLF, name + ": ", value);
  }

  lemma {:induction false} HeadersLineSafe(part: Part)
    requires HeadersFit(part)
    ensures LineSafe(Headers(part))
  {
    forall h | h in Headers(part) ensures !Occurs(CRLF, HeaderLine(h)) && HeaderLine(h)[0] == 'C' && ':' !in h.0 {
      LineOfFitValue(h.0, h.1);
    }
  }

  /** Names and types of one line are what it takes. */
  lemma {:induction false} HeadersFitExactly(part: Part)
    ensures HeadersFit(part) <==>
            !Occurs(CRLF, part.name) &&
            (part.File? ==> !Occurs(CRLF, part.filename) && ValueFit(part.contentType))
  {
    var headers, d := Headers(part), DispositionValue(part);
    assert headers[0] in headers && headers[0].1 == d && d[0] == 'f';
    assert part.File? ==> headers[1] in headers && headers[1].1 == part.contentType;
    if part.Field? {
      OccursBetween(FORM_DATA, part.name, "\"");
      NoBreakIn("\"");
    } else {
      OccursBetween(FORM_DATA, part.name, "\"" + (FILENAME + part.filename + "\""));
      assert FORM_DATA + part.name + ("\"" + (FILENAME + part.filename + "\"")) == d;
      OccursBetween("\"" + FILENAME, part.filename, "\"");
      assert "\"" + FILENAME + part.filename + "\"" == "\"" + (FILENAME + part.filename + "\"");
      NoBreakIn("\"");
    }
  }

  lemma {:induction false} NoBreakIn(s: string)
    requires '\r' !in s
    ensures !Occurs(CRLF, s)
  {
    OccursBehind(CRLF, s, "");
    assert s + "" == s;
  }

  /** A line break is in one of three pieces and never across them. */
  lemma {:induction false} OccursBetween(start: string, middle: string, end: string)
    requires '\r' !in start && (end == "" || end[0] != '\n')
    ensures Occurs(CRLF, start + middle + end) <==> Occurs(CRLF, middle) || Occurs(CRLF, end)
  {
    assert start + middle + end == start + (middle + end);
    OccursBehind(CRLF, start, middle + end);
    if Occurs(CRLF, middle) {
      var i :| OccursAt(CRLF, middle, i);
      assert (middle + end)[i..i + 2] == middle[i..i + 2];
      assert OccursAt(CRLF, middle + end, i);
    } else {
      assert CRLF[..2] == CRLF;
      SplitPassing(CRLF, middle, end);
      SplitFindsFirst(CRLF, middle + end);
      SplitFindsFirst(CRLF, end);
    }
  }

  /** The search for a delimiter, or for the empty line, passes over a header line. */
  lemma {:induction false} SplitPastLine(d: string, line: string, v: string)
    requires |d| >= 3 && d[0] == '\r' && d[1] == '\n' && d[2] in {'-', '\r'}
    requires !Occurs(CRLF, line) && line != "" && line[0] !in {'-', '\r'}
    requires v == "" || v[0] == '\r'
    ensures Split(d, CRLF + line + v) == Put(CRLF + line, Split(d, v))
  {
    assert d[..2] == CRLF;
    SplitPassing(d, line, v);
    SplitPastLineBreak(d, line + v);
    PutTwice(CRLF, line, Split(d, v));
    assert CRLF + line + v == CRLF + (line + v);
  }

  lemma {:induction false} HeadersStartWithBreak(headers: Pairs, v: string)
    requires v == "" || v[0] == '\r'
    ensures var s := HeaderBlock(headers) + v; s == "" || s[0] == '\r'
  {
    HeaderBlockStart(headers);
    if HeaderBlock(headers) != "" {
      assert HeaderBlock(headers)[0] == CRLF[0];
    }
  }

  lemma {:induction false} SplitPastHeaders(d: string, headers: Pairs, v: string)
    requires |d| >= 3 && d[0] == '\r' && d[1] == '\n' && d[2] in {'-', '\r'}
    requires LineSafe(headers)
    requires v == "" || v[0] == '\r'
    ensures Split(d, HeaderBlock(headers) + v) == Put(HeaderBlock(headers), Split(d, v))
  {
    if headers == [] {
      assert "" + v == v;
      PutTwice("", "", Split(d, v));
    } else {
      var line, others := HeaderLine(headers[0]), HeaderBlock(headers[1..]);
      assert headers[0] in headers;
      assert forall h | h in headers[1..] :: h in headers;
      SplitPastHeaders(d, headers[1..], v);
      HeadersStartWithBreak(headers[1..], v);
      SplitPastLine(d, line, others + v);
      PutTwice(CRLF + line, others, Split(d, v));
      assert CRLF + line + others + v == CRLF + line + (others + v);
    }
  }

  lemma {:induction false} ReadHeaderLine(name: string, value: string)
    requires ':' !in name && SkipPadding(value) == value
    ensures var split := Split(":", HeaderLine((name, value)));
            split.Some? && split.value.0 == name && SkipPadding(split.value.1) == value
  {
    SplitAfter(":", name, " " + value);
    assert ": " == ":" + " ";
    assert name + ": " + value == name + ":" + (" " + value);
    assert (" " + value)[1..] == value;
  }

  lemma {:induction false} SplitLines(line: string, tail: string)
    requires !Occurs(CRLF, line)
    ensures Split(CRLF, line) == None
    ensures Split(CRLF, line + (CRLF + tail)) == Some((line, tail))
  {
    SplitFindsFirst(CRLF, line);
    assert CRLF[..2] == CRLF;
    SplitPassing(CRLF, line, CRLF + tail);
    SplitAfter(CRLF, "", tail);
    assert "" + CRLF + tail == CRLF + tail && line + "" == line;
  }

  /** One header line, followed by nothing or by further lines. */
  lemma {:induction false} ReadHeaderBack(header: (string, string), rest: string)
    requires !Occurs(CRLF, HeaderLine(header)) && ':' !in header.0 && SkipPadding(header.1) == header.1
    requires rest == "" || CRLF <= rest
    ensures ReadHeader(CRLF + HeaderLine(header) + rest) == Some((header, rest))
  {
    var line := HeaderLine(header);
    var block := CRLF + line + rest;
    ReadHeaderLine(header.0, header.1);
    assert block == CRLF + (line + rest);
    assert block[2..] == line + rest;
    SplitLines(line, if rest == "" then "" else rest[2..]);
    if rest == "" {
      assert line + rest == line;
    } else {
      assert rest == CRLF + rest[2..];
    }
  }

  lemma {:induction false} HeaderBlockStart(headers: Pairs)
    ensures HeaderBlock(headers) == "" || CRLF <= HeaderBlock(headers)
  {
    if headers != [] {
      var line, others := HeaderLine(headers[0]), HeaderBlock(headers[1..]);
      assert CRLF + line + others == CRLF + (line + others);
    }
  }

  lemma {:induction false} ReadHeadersCons(block: string, header: (string, string), rest: string)
    requires ReadHeader(block) == Some((header, rest)) && ReadHeaders(rest).Some?
    ensures ReadHeaders(block) == Some([header] + ReadHeaders(rest).value)
  {
  }

  lemma {:induction false} HeaderBlockReads(headers: Pairs)
    requires headers != [] && LineSafe([headers[0]])
    requires ReadHeaders(HeaderBlock(headers[1..])) == Some(headers[1..])
    ensures ReadHeaders(HeaderBlock(headers)) == Some(headers)
  {
    var rest := HeaderBlock(headers[1..]);
    assert headers[0] in [headers[0]];
    HeaderBlockStart(headers[1..]);
    ReadHeaderBack(headers[0], rest);
    ReadHeadersCons(CRLF + HeaderLine(headers[0]) + rest, headers[0], rest);
    assert headers == [headers[0]] + headers[1..];
  }

  lemma {:induction false} ReadHeadersBack(headers: Pairs)
    requires LineSafe(headers)
    ensures ReadHeaders(HeaderBlock(headers)) == Some(headers)
  {
    if headers != [] {
      assert headers[0] in headers && forall x | x in headers[1..] :: x in headers;
      ReadHeadersBack(headers[1..]);
      HeaderBlockReads(headers);
    }
  }

  lemma {:induction false} ReadEntityBack(part: Part)
    requires HeadersFit(part)
    ensures CRLF <= EntityText(part)
    ensures ReadEntity(EntityText(part)[2..]) == Some(EntityOf(part))
  {
    var block, blank := HeaderBlock(Headers(part)), CRLF + CRLF;
    HeadersLineSafe(part);
    HeaderBlockOfPart(part);
    assert CRLF + EntityText(part)[2..] == EntityText(part);
    assert CRLF + (CRLF + part.content) == blank + part.content;
    SplitPastHeaders(blank, Headers(part), blank + part.content);
    SplitAfter(blank, "", part.content);
    assert "" + blank + part.content == blank + part.content;
    assert block + "" == block;
    ReadHeadersBack(Headers(part));
  }

  lemma {:induction false} PrintedParameter(start: string, attribute: string, quoted: string)
    requires start == "; " + attribute + "=\""
    requires attribute != "" && attribute[0] !in {' ', '\t'}
    ensures var s := start + quoted;
            s[0] == ';' && SkipPadding(s[1..]) == attribute + "=" + ("\"" + quoted)
  {
    var t := attribute + "=" + ("\"" + quoted);
    assert start + quoted == ";" + (" " + t);
    assert (";" + (" " + t))[1..] == " " + t && (" " + t)[1..] == t && t[0] == attribute[0];
    assert SkipPadding(" " + t) == t;
  }

  lemma {:induction false} ReadAttribute(s: string, attribute: string, quoted: string)
    requires s != "" && s[0] == ';' && '=' !in attribute
    requires SkipPadding(s[1..]) == attribute + "=" + ("\"" + quoted)
    ensures ReadParameter(s) ==
            match ReadQuoted(quoted)
            case None => None
            case Some((read, others)) => Some(((attribute, read), others))
  {
    SplitAfter("=", attribute, "\"" + quoted);
    assert ("\"" + quoted)[1..] == quoted;
  }

  /** One printed parameter: the reader gets what it reads between the quotes. */
  lemma {:induction false} ReadPrintedParameter(start: string, attribute: string, value: string, rest: string)
    requires start == "; " + attribute + "=\""
    requires '=' !in attribute && attribute != "" && attribute[0] !in {' ', '\t'}
    ensures ReadParameter(start + value + "\"" + rest) ==
            match ReadQuoted(value + "\"" + rest)
            case None => None
            case Some((read, others)) => Some(((attribute, read), others))
  {
    Quoted(start, value, "\"", rest);
    PrintedParameter(start, attribute, value + "\"" + rest);
    ReadAttribute(start + (value + "\"" + rest), attribute, value + "\"" + rest);
  }

  lemma {:induction false} ReadParameterBack(start: string, attribute: string, value: string, rest: string)
    requires start == "; " + attribute + "=\""
    requires Quotable(value) && '=' !in attribute && attribute != "" && attribute[0] !in {' ', '\t'}
    ensures ReadParameter(start + value + "\"" + rest) == Some(((attribute, value), rest))
  {
    ReadPrintedParameter(start, attribute, value, rest);
    QuotedExactly(value, rest);
  }

  const NAME := "; name=\""

  lemma {:induction false} ReadParametersCons(s: string, parameter: (string, string), rest: string)
    requires ReadParameter(s) == Some((parameter, rest)) && ReadParameters(rest).Some?
    ensures ReadParameters(s) == Some([parameter] + ReadParameters(rest).value)
  {
  }

  lemma {:induction false} FieldParameters(start: string, attribute: string, value: string)
    requires start == "; " + attribute + "=\""
    requires Quotable(value) && '=' !in attribute && attribute != "" && attribute[0] !in {' ', '\t'}
    ensures ReadParameters(start + value + "\"") == Some([(attribute, value)])
  {
    var s := start + value + "\"";
    ReadParameterBack(start, attribute, value, "");
    assert s + "" == s;
    ReadParametersCons(s, (attribute, value), "");
    assert [(attribute, value)] + [] == [(attribute, value)];
  }

  lemma {:induction false} FileParameters(name: string, filename: string)
    requires Quotable(name) && Quotable(filename)
    ensures ReadParameters(NAME + name + "\"" + (FILENAME + filename + "\"")) ==
            Some([("name", name), ("filename", filename)])
  {
    var rest := FILENAME + filename + "\"";
    FieldParameters(FILENAME, "filename", filename);
    ReadParameterBack(NAME, "name", name, rest);
    ReadParametersCons(NAME + name + "\"" + rest, ("name", name), rest);
    assert [("name", name)] + [("filename", filename)] == [("name", name), ("filename", filename)];
  }

  /** The disposition without its type, ready to be read parameter by parameter. */
  lemma {:induction false} DispositionParameters(name: string, more: string)
    ensures var d := FORM_DATA + name + "\"" + more;
            "form-data" <= d && d[|"form-data"|..] == NAME + name + "\"" + more
  {
    assert FORM_DATA == "form-data" + NAME;
    DropStart("form-data", NAME, name + "\"" + more);
    Quoted(FORM_DATA, name, "\"", more);
    Quoted(NAME, name, "\"", more);
  }

  lemma {:induction false} Quoted(start: string, name: string, quote: string, more: string)
    ensures start + (name + quote + more) == start + name + quote + more
  {
  }

  lemma {:induction false} DropStart(a: string, b: string, c: string)
    ensures a <= a + b + c && (a + b + c)[|a|..] == b + c
  {
    assert a + b + c == a + (b + c);
  }

  lemma {:induction false} LookupSecond(a: (string, string), b: (string, string))
    ensures Lookup([a], a.0) == Lookup([a, b], a.0) == Some(a.1)
    ensures a.0 != b.0 ==> Lookup([a, b], b.0) == Some(b.1)
    ensures a.0 != b.0 ==> Lookup([a], b.0) == None
  {
    assert [a, b][1..] == [b] && [a][1..] == [];
  }

  lemma {:induction false} ReadFieldBack(name: string, content: string)
    requires Quotable(name)
    ensures ReadPart(EntityOf(Field(name, content))) == Some(Field(name, content))
  {
    var part := Field(name, content);
    var d := DispositionValue(part);
    DispositionParameters(name, "");
    assert d + "" == d && NAME + name + "\"" + "" == NAME + name + "\"";
    FieldParameters(NAME, "name", name);
    LookupSecond(("Content-Disposition", d), ("Content-Type", ""));
    LookupSecond(("name", name), ("filename", ""));
    assert Headers(part) == [("Content-Disposition", d)];
  }

  lemma {:induction false} ReadFileBack(name: string, filename: string, content: string, contentType: string)
    requires Quotable(name) && Quotable(filename)
    ensures var part := File(name, filename, content, contentType);
            ReadPart(EntityOf(part)) == Some(part)
  {
    var part := File(name, filename, content, contentType);
    var d := DispositionValue(part);
    DispositionParameters(name, FILENAME + filename + "\"");
    FileParameters(name, filename);
    LookupSecond(("Content-Disposition", d), ("Content-Type", contentType));
    LookupSecond(("name", name), ("filename", filename));
    assert Headers(part) == [("Content-Disposition", d), ("Content-Type", contentType)];
  }

  lemma {:induction false} ReadPartBack(part: Part)
    requires Plain(part)
    ensures ReadPart(EntityOf(part)) == Some(part)
  {
    match part {
      case Field(name, content) => ReadFieldBack(name, content);
      case File(name, filename, content, contentType) => ReadFileBack(name, filename, content, contentType);
    }
  }

  /** The first parameter decides what is looked up under its name. */
  lemma {:induction false} LookupFirst(s: string, first: (string, string), rest: string, key: string)
    requires ReadParameter(s) == Some((first, rest)) && ReadParameters(s).Some?
    ensures ReadParameters(rest).Some?
    ensures Lookup(ReadParameters(s).value, key) ==
            if first.0 == key then Some(first.1) else Lookup(ReadParameters(rest).value, key)
  {
    var others := ReadParameters(rest).value;
    assert ReadParameters(s).value == [first] + others;
    assert ([first] + others)[1..] == others;
  }

  lemma {:induction false} ReadNameExactly(start: string, attribute: string, value: string, more: string)
    requires start == "; " + attribute + "=\""
    requires '=' !in attribute && attribute != "" && attribute[0] !in {' ', '\t'}
    requires var p := ReadParameters(start + value + "\"" + more); p.Some? && Lookup(p.value, attribute) == Some(value)
    ensures Quotable(value)
  {
    var s := start + value + "\"" + more;
    ReadPrintedParameter(start, attribute, value, more);
    var (first, rest) := ReadParameter(s).value;
    LookupFirst(s, first, rest, attribute);
    QuotedNameExactly(value, more);
  }

  lemma {:induction false} ReadFilenameExactly(name: string, filename: string)
    requires Quotable(name)
    requires var p := ReadParameters(NAME + name + "\"" + (FILENAME + filename + "\""));
             p.Some? && Lookup(p.value, "filename") == Some(filename)
    ensures Quotable(filename)
  {
    var rest := FILENAME + filename + "\"";
    ReadParameterBack(NAME, "name", name, rest);
    LookupFirst(NAME + name + "\"" + rest, ("name", name), rest, "filename");
    ReadLastExactly(filename);
  }

  lemma {:induction false} ReadLastExactly(filename: string)
    requires var p := ReadParameters(FILENAME + filename + "\"");
             p.Some? && Lookup(p.value, "filename") == Some(filename)
    ensures Quotable(filename)
  {
    var s := FILENAME + filename + "\"";
    assert s + "" == s;
    ReadNameExactly(FILENAME, "filename", filename, "");
  }

  /** A part that is read back from its own headers has names that need no escape. */
  lemma {:induction false} ReadPartExactly(part: Part)
    requires ReadPart(EntityOf(part)) == Some(part)
    ensures Quotable(part.name) && (part.File? ==> Quotable(part.filename))
  {
    var d := DispositionValue(part);
    LookupSecond(("Content-Disposition", d), ("Content-Type", if part.File? then part.contentType else ""));
    match part {
      case Field(name, _) =>
        DispositionParameters(name, "");
        assert d + "" == d && Headers(part) == [("Content-Disposition", d)];
        ReadNameExactly(NAME, "name", name, "");
      case File(name, filename, _, contentType) =>
        DispositionParameters(name, FILENAME + filename + "\"");
        assert Headers(part) == [("Content-Disposition", d), ("Content-Type", contentType)];
        ReadNameExactly(NAME, "name", name, FILENAME + filename + "\"");
        ReadFilenameExactly(name, filename);
    }
  }

  // ---------- reading the body back ----------

  /** The first delimiter behind the start of a body part is the one that ends it. */
  lemma {:induction false} SplitEntity(boundary: string, part: Part, rest: string)
    requires HeadersFit(part) && '\r' !in boundary && Enclosable(boundary, part.content)
    ensures CRLF <= EntityText(part)
    ensures Split(Delimiter(boundary), EntityText(part)[2..] + Delimiter(boundary) + rest)
            == Some((EntityText(part)[2..], rest))
  {
    var d, headers := Delimiter(boundary), Headers(part);
    var line, others := HeaderLine(headers[0]), HeaderBlock(headers[1..]);
    var content := CRLF + part.content;
    HeadersLineSafe(part);
    assert headers[0] in headers && forall h | h in headers[1..] :: h in headers;
    assert d[0] !in d[1..];
    SplitAtEnd(d, content, rest);
    SplitPastLineBreak(d, content + d + rest);
    SplitPastHeaders(d, headers[1..], CRLF + (content + d + rest));
    HeaderBlockStart(headers[1..]);
    assert d[..2] == CRLF;
    SplitPassing(d, line, others + (CRLF + (content + d + rest)));
    RegroupEntity(CRLF, line, others, content, d, rest);
    assert (CRLF + (line + (others + (CRLF + content))))[2..] == line + (others + (CRLF + content));
  }

  lemma {:induction false} RegroupEntity(eol: string, line: string, others: string, content: string, d: string,
                                         rest: string)
    ensures eol + line + others + (eol + content) == eol + (line + (others + (eol + content)))
    ensures line + (others + (eol + (content + d + rest))) == (line + (others + (eol + content))) + d + rest
  {
  }

  lemma {:induction false} ReadFirstBack(boundary: string, part: Part, rest: string)
    requires HeadersFit(part) && '\r' !in boundary && Enclosable(boundary, part.content)
    ensures var s := EntityText(part) + (Delimiter(boundary) + rest);
            !("--" <= s) && ReadFirst(boundary, s) == Some((EntityOf(part), rest))
  {
    var d, text := Delimiter(boundary), EntityText(part);
    SplitEntity(boundary, part, rest);
    ReadEntityBack(part);
    AfterLineBreak(text, d + rest);
    assert text[2..] + (d + rest) == text[2..] + d + rest;
  }

  lemma {:induction false} AfterLineBreak(text: string, rest: string)
    requires CRLF <= text
    ensures var s := text + rest;
            !("--" <= s) && SkipPadding(s) == s && CRLF <= s && s[2..] == text[2..] + rest
  {
    var s := text + rest;
    assert s[0] == text[0] == '\r' && s[1] == text[1] == '\n';
    assert s[..2] == CRLF;
  }

  lemma {:induction false} ReadEntitiesCons(boundary: string, s: string, entity: Entity, rest: string)
    requires !("--" <= s) && ReadFirst(boundary, s) == Some((entity, rest))
    requires ReadEntities(boundary, rest).Some?
    ensures ReadEntities(boundary, s) ==
            Some(([entity] + ReadEntities(boundary, rest).value.0, ReadEntities(boundary, rest).value.1))
  {
  }

  /** The reader finds these body parts behind a delimiter, and nothing behind the last. */
  lemma {:induction false} ReadEntitiesBack(boundary: string, parts: seq<Part>)
    requires '\r' !in boundary
    requires forall p | p in parts :: HeadersFit(p) && Enclosable(boundary, p.content)
    ensures ReadEntities(boundary, After(boundary, parts)) == Some((EntitiesOf(parts), ""))
  {
    if parts == [] {
      var s := "--" + CRLF;
      assert s[2..] == CRLF && CRLF[2..] == "";
    } else {
      assert parts[0] in parts && forall p | p in parts[1..] :: p in parts;
      ReadEntitiesBack(boundary, parts[1..]);
      AfterReads(boundary, parts);
    }
  }

  lemma {:induction false} AfterReads(boundary: string, parts: seq<Part>)
    requires parts != [] && HeadersFit(parts[0]) && '\r' !in boundary && Enclosable(boundary, parts[0].content)
    requires ReadEntities(boundary, After(boundary, parts[1..])) == Some((EntitiesOf(parts[1..]), ""))
    ensures ReadEntities(boundary, After(boundary, parts)) == Some((EntitiesOf(parts), ""))
  {
    var s := After(boundary, parts[1..]);
    ReadFirstBack(boundary, parts[0], s);
    ReadEntitiesCons(boundary, EntityText(parts[0]) + (Delimiter(boundary) + s), EntityOf(parts[0]), s);
    EntitiesCons(parts);
    assert After(boundary, parts) == EntityText(parts[0]) + (Delimiter(boundary) + s);
  }

  lemma {:induction false} EntitiesCons(parts: seq<Part>)
    requires parts != []
    ensures EntitiesOf(parts) == [EntityOf(parts[0])] + EntitiesOf(parts[1..])
    ensures EntitiesOf(parts)[1..] == EntitiesOf(parts[1..])
  {
  }

  /** As a multipart the body is read back as exactly its body parts, in order and with nothing around
      them, if and only if every header value stands on one line without leading blanks and no content
      has a line that starts with the boundary line. */
  lemma {:induction false} MultipartRoundTripExactly(boundary: string, parts: seq<Part>)
    requires '\r' !in boundary
    ensures ReadMultipart(boundary, BodyOf(boundary, parts)) == Some(Multipart("", EntitiesOf(parts), "")) <==>
            forall p | p in parts :: HeadersFit(p) && Enclosable(boundary, p.content)
  {
    var body := BodyOf(boundary, parts);
    if forall p | p in parts :: HeadersFit(p) && Enclosable(boundary, p.content) {
      BodyShape(boundary, parts);
      var d, rest := Delimiter(boundary), After(boundary, parts);
      assert (d + rest)[..|d|] == d && (d + rest)[|d|..] == rest;
      assert Split(d, CRLF + body) == Some(("", rest));
      ReadEntitiesBack(boundary, parts);
    }
    if ReadMultipart(boundary, body) == Some(Multipart("", EntitiesOf(parts), "")) {
      ReadMultipartFit(boundary, body);
      forall p | p in parts ensures HeadersFit(p) && Enclosable(boundary, p.content) {
        var i :| 0 <= i < |parts| && parts[i] == p;
        assert EntitiesOf(parts)[i] in EntitiesOf(parts);
      }
    }
  }

  lemma {:induction false} ReadPartsCons(entities: seq<Entity>, part: Part, parts: seq<Part>)
    requires entities != [] && ReadPart(entities[0]) == Some(part) && ReadParts(entities[1..]) == Some(parts)
    ensures ReadParts(entities) == Some([part] + parts)
  {
  }

  lemma {:induction false} ReadPartsBack(parts: seq<Part>)
    requires forall p | p in parts :: Plain(p)
    ensures ReadParts(EntitiesOf(parts)) == Some(parts)
  {
    if parts != [] {
      assert parts[0] in parts && forall p | p in parts[1..] :: p in parts;
      ReadPartsBack(parts[1..]);
      ReadPartBack(parts[0]);
      EntitiesCons(parts);
      ReadPartsCons(EntitiesOf(parts), parts[0], parts[1..]);
      assert parts == [parts[0]] + parts[1..];
    }
  }

  lemma {:induction false} PlainHeadersFit(part: Part)
    requires '\r' !in part.name && (part.File? ==> '\r' !in part.filename && ValueFit(part.contentType))
    ensures HeadersFit(part)
  {
    HeadersFitExactly(part);
    NoBreakIn(part.name);
    if part.File? {
      NoBreakIn(part.filename);
    }
  }

  /** As a form the body is read back as exactly its parts if and only if, besides, no name holds a
      quote, a backslash or a carriage return. */
  lemma {:induction false} FormRoundTripExactly(boundary: string, parts: seq<Part>)
    requires '\r' !in boundary
    ensures ReadForm(boundary, BodyOf(boundary, parts)) == Some(("", parts, "")) <==>
            forall p | p in parts :: Plain(p) && Enclosable(boundary, p.content)
  {
    var body := BodyOf(boundary, parts);
    if forall p | p in parts :: Plain(p) && Enclosable(boundary, p.content) {
      FitPartsAreRead(boundary, parts);
      ReadPartsBack(parts);
    }
    if ReadForm(boundary, body) == Some(("", parts, "")) {
      ReadFormFit(boundary, body);
      FitPartsAreRead(boundary, parts);
      ReadPartsEach(EntitiesOf(parts));
      forall p | p in parts ensures Plain(p) && Enclosable(boundary, p.content) {
        var i :| 0 <= i < |parts| && parts[i] == p;
        ReadPartExactly(parts[i]);
      }
    }
  }

  lemma {:induction false} FitPartsAreRead(boundary: string, parts: seq<Part>)
    requires '\r' !in boundary
    requires forall p | p in parts :: PartFit(boundary, p)
    ensures ReadMultipart(boundary, BodyOf(boundary, parts)) == Some(Multipart("", EntitiesOf(parts), ""))
  {
    forall p | p in parts ensures HeadersFit(p) {
      PlainHeadersFit(p);
    }
    MultipartRoundTripExactly(boundary, parts);
  }

  /** Content in which the boundary line does not occur at all is fine, wherever lines begin. */
  lemma {:induction false} WithoutBoundaryLine(boundary: string, content: string)
    requires !Occurs("--" + boundary, content)
    ensures Enclosable(boundary, content)
  {
    var d, s := Delimiter(boundary), CRLF + content;
    if Occurs(d, s) {
      var i :| OccursAt(d, s, i);
      assert OccursAt("--" + boundary, content, i) by {
        var at := s[i..i + |d|];
        assert content[i..i + |d| - 2] == at[2..];
        assert d[2..] == "--" + boundary;
      }
    }
  }

  predicate SingleLine(content: string) {
    '\r' !in content && (content == "" || content[0] != '-')
  }

  /** So is content on one line that does not begin with a hyphen, whatever the boundary. */
  lemma {:induction false} OneLine(boundary: string, content: string)
    requires SingleLine(content)
    ensures Enclosable(boundary, content)
  {
    var d, s := Delimiter(boundary), CRLF + content;
    forall i ensures !OccursAt(d, s, i) {
      if 0 <= i && i + |d| <= |s| {
        assert s[i..i + |d|][0] == s[i] && s[i..i + |d|][2] == s[i + 2] && d[0] == '\r' && d[2] == '-';
        assert i >= 2 ==> s[i] == content[i - 2] && s[i] in content;
        assert i == 0 ==> s[2] == content[0];
      }
    }
  }

  // ---------- the printer itself ----------

  class FormBody {
    const boundary: string
    var parts: seq<string>
    /** What has been added, part by part. */
    ghost var added: seq<Part>

    ghost predicate Valid()
      reads this
    {
      parts == PartTexts(boundary, added)
    }

    constructor (boundary: string)
      ensures Valid() && this.boundary == boundary && added == []
    {
      this.boundary := boundary;
      parts := [];
      added := [];
    }

    method AddField(name: string, value: string)
      requires Valid()
      modifies this
      ensures Valid() && added == old(added) + [Field(name, value)]
    {
      parts := parts + [FieldText(boundary, name, value)];
      added := added + [Field(name, value)];
    }

    method AddFile(name: string, filename: string, content: string, contentType: string)
      requires Valid()
      modifies this
      ensures Valid() && added == old(added) + [File(name, filename, content, contentType)]
    {
      parts := parts + [FileText(boundary, name, filename, content, contentType)];
      added := added + [File(name, filename, content, contentType)];
    }

    /** The body is read back as exactly what was added if and only if names and types are plain and no
        content has a line that starts with the boundary line. */
    method Body() returns (body: string)
      requires Valid()
      ensures body == BodyOf(boundary, added) && body == Join(parts) + ("--" + boundary + "--\r\n")
      ensures '\r' !in boundary ==>
                (ReadForm(boundary, body) == Some(("", added, "")) <==>
                 forall p | p in added :: Plain(p) && Enclosable(boundary, p.content))
    {
      body := Join(parts) + ("--" + boundary + ("--" + CRLF));
      assert "--" + boundary + ("--" + CRLF) == "--" + boundary + "--\r\n";
      if '\r' !in boundary {
        FormRoundTripExactly(boundary, added);
      }
    }
  }

  /** "----SidioraVerify" + Date.now() */
  function VerifyBoundary(now: nat): string {
    "----SidioraVerify" + Decimal.FormatNat(now)
  }

  const COMPILER_VERSION := "v0.8.27+commit.40a35a09"

  function VerificationParts(contractPath: string, standardInput: string): seq<Part> {
    [Field("compiler_version", COMPILER_VERSION), Field("contract_name", contractPath),
     Field("autodetect_constructor_args", "true"),
     File("files[0]", "input.json", standardInput, "application/json")]
  }

  lemma {:induction false} FieldNamesQuotable()
    ensures Quotable("compiler_version") && Quotable("contract_name")
  {
  }

  lemma {:induction false} LongFieldNameQuotable()
    ensures Quotable("autodetect_constructor_args")
  {
  }

  lemma {:induction false} FileNamesQuotable()
    ensures Quotable("files[0]") && Quotable("input.json") && '\r' !in "application/json"
  {
  }

  lemma {:induction false} FixedContentsFit(boundary: string)
    ensures Enclosable(boundary, COMPILER_VERSION) && Enclosable(boundary, "true")
  {
    assert COMPILER_VERSION[0] == 'v' && '\r' !in COMPILER_VERSION;
    OneLine(boundary, COMPILER_VERSION);
    OneLine(boundary, "true");
  }

  /** The four parts are fit for any boundary as soon as the two variable ones are. */
  lemma {:induction false} VerificationPartsFit(boundary: string, contractPath: string, standardInput: string)
    ensures forall p | p in VerificationParts(contractPath, standardInput) :: Plain(p)
    ensures (forall p | p in VerificationParts(contractPath, standardInput) :: Enclosable(boundary, p.content)) <==>
            Enclosable(boundary, contractPath) && Enclosable(boundary, standardInput)
  {
    var parts := VerificationParts(contractPath, standardInput);
    FieldNamesQuotable();
    LongFieldNameQuotable();
    FileNamesQuotable();
    NoBreakIn("application/json");
    FixedContentsFit(boundary);
    assert Plain(parts[0]) && Plain(parts[1]) && Plain(parts[2]) && Plain(parts[3]);
    assert parts[1] in parts && parts[1].content == contractPath;
    assert parts[3] in parts && parts[3].content == standardInput;
    assert parts[0].content == COMPILER_VERSION && parts[2].content == "true";
    forall p | p in parts ensures Plain(p) && (p == parts[0] || p == parts[1] || p == parts[2] || p == parts[3]) {
    }
  }

  /** The four calls of verifyViaStandardInput. */
  method VerificationForm(boundary: string, contractPath: string, standardInput: string) returns (form: FormBody)
    ensures fresh(form) && form.Valid() && form.boundary == boundary
    ensures form.added == VerificationParts(contractPath, standardInput)
    ensures form.added == [Field("compiler_version", "v0.8.27+commit.40a35a09"), Field("contract_name", contractPath),
                           Field("autodetect_constructor_args", "true"),
                           File("files[0]", "input.json", standardInput, "application/json")]
  {
    form := new FormBody(boundary);
    form.AddField("compiler_version", COMPILER_VERSION);
    form.AddField("contract_name", contractPath);
    form.AddField("autodetect_constructor_args", "true");
    form.AddFile("files[0]", "input.json", standardInput, "application/json");
  }

  lemma {:induction false} BoundaryHasNoLineBreak(now: nat)
    ensures '\r' !in VerifyBoundary(now)
  {
    assert '\r' !in "----SidioraVerify";
    assert '\r' !in Decimal.FormatNat(now);
  }

  /** The submitted body is read back as the three fields and the file exactly if neither the contract
      path nor the standard input has a line that starts with the boundary line. Both are single
      lines, a path and the JSON text of an object, so this holds whatever the clock says. */
  method VerificationBody(now: nat, contractPath: string, standardInput: string) returns (body: string)
    ensures var boundary := VerifyBoundary(now);
            ReadForm(boundary, body) == Some(("", VerificationParts(contractPath, standardInput), "")) <==>
            Enclosable(boundary, contractPath) && Enclosable(boundary, standardInput)
    ensures SingleLine(contractPath) && SingleLine(standardInput) ==>
              ReadForm("----SidioraVerify" + Decimal.FormatNat(now), body) ==
              Some(("",
                    [Field("compiler_version", "v0.8.27+commit.40a35a09"), Field("contract_name", contractPath),
                     Field("autodetect_constructor_args", "true"),
                     File("files[0]", "input.json", standardInput, "application/json")],
                    ""))
  {
    var boundary := VerifyBoundary(now);
    var form := VerificationForm(boundary, contractPath, standardInput);
    VerificationPartsFit(boundary, contractPath, standardInput);
    BoundaryHasNoLineBreak(now);
    body := form.Body();
    if SingleLine(contractPath) && SingleLine(standardInput) {
      OneLine(boundary, contractPath);
      OneLine(boundary, standardInput);
    }
  }
}
