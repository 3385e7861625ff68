/** A reader for multipart bodies, written from section 5.1.1 of RFC 2046 (delimiters, preamble,
    epilogue, body parts) and for form-data dispositions (RFC 7578, quoted strings of section 3.2.4
    of RFC 5322). It
    knows nothing of the printer. */
module Rfc2046 {
  import opened Wrappers
  import opened Text

  const CRLF := "\r\n"

  /** A delimiter is the boundary line together with the line break before it. */
  function Delimiter(boundary: string): string {
    CRLF + "--" + boundary
  }

  type Pairs = seq<(string, string)>

  datatype Entity = Entity(headers: Pairs, content: string)

  datatype Multipart = Multipart(preamble: string, entities: seq<Entity>, epilogue: string)

  function SkipPadding(s: string): (t: string)
    ensures |t| <= |s|
  {
    if s != "" && (s[0] == ' ' || s[0] == '\t') then SkipPadding(s[1..]) else s
  }

  /** The body starts a line, so its first delimiter may lack the line break. */
  function ReadMultipart(boundary: string, body: string): Option<Multipart> {
    var (before, rest) :- Split(Delimiter(boundary), CRLF + body);
    var (entities, epilogue) :- ReadEntities(boundary, rest);
    Some(Multipart(if |before| < 2 then "" else before[2..], entities, epilogue))
  }

  /** What follows a delimiter: two hyphens end the multipart, a line end begins a body part. */
  function ReadEntities(boundary: string, s: string): Option<(seq<Entity>, string)>
    decreases |s|
  {
    if "--" <= s then
      var t := SkipPadding(s[2..]);
      if t == "" then Some(([], ""))
      else if CRLF <= t then Some(([], t[2..]))
      else None
    else
      var (entity, rest) :- ReadFirst(boundary, s);
      var (entities, epilogue) :- ReadEntities(boundary, rest);
      Some(([entity] + entities, epilogue))
  }

  /** The body part up to the next delimiter, and what follows that delimiter. */
  function ReadFirst(boundary: string, s: string): (r: Option<(Entity, string)>)
    ensures r.Some? ==> |r.value.1| < |s|
  {
    var t := SkipPadding(s);
    if !(CRLF <= t) then None
    else
      var (text, rest) :- Split(Delimiter(boundary), t[2..]);
      var entity :- ReadEntity(text);
      Some((entity, rest))
  }

  /** Header lines, an empty line, the content. */
  function ReadEntity(text: string): Option<Entity> {
    var (block, content) :- Split(CRLF + CRLF, CRLF + text);
    var headers :- ReadHeaders(block);
    Some(Entity(headers, content))
  }

  /** Every header line comes with the line break before it. */
  function ReadHeaders(block: string): Option<Pairs>
    decreases |block|
  {
    if block == "" then Some([])
    else
      var (header, rest) :- ReadHeader(block);
      var headers :- ReadHeaders(rest);
      Some([header] + headers)
  }

  /** The first header line and the rest of the block. */
  function ReadHeader(block: string): (r: Option<((string, string), string)>)
    ensures r.Some? ==> |r.value.1| < |block|
  {
    if !(CRLF <= block) then None
    else
      var (line, rest) :=
        match Split(CRLF, block[2..])
        case None => (block[2..], "")
        case Some((first, others)) => (first, CRLF + others);
      var (name, value) :- Split(":", line);
      Some(((name, SkipPadding(value)), rest))
  }

  /** A quoted string from behind its opening quote, and what follows the closing one. A backslash
      takes the next character literally; a carriage return may stand in neither place. */
  function ReadQuoted(s: string): (r: Option<(string, string)>)
    ensures r.Some? ==> |r.value.0| + |r.value.1| < |s|
    ensures r.Some? ==> '\r' !in r.value.0
  {
    if s == "" || s[0] == '\r' then None
    else if s[0] == '"' then Some(("", s[1..]))
    else if s[0] == '\\' then
      if |s| == 1 || s[1] == '\r' then None
      else
        var (value, rest) :- ReadQuoted(s[2..]);
        Some(([s[1]] + value, rest))
    else
      var (value, rest) :- ReadQuoted(s[1..]);
      Some(([s[0]] + value, rest))
  }

  function ReadParameters(s: string): Option<Pairs>
    decreases |s|
  {
    if s == "" then Some([])
    else
      var (parameter, rest) :- ReadParameter(s);
      var others :- ReadParameters(rest);
      Some([parameter] + others)
  }

  /** ; attribute="value" */
  function ReadParameter(s: string): (r: Option<((string, string), string)>)
    ensures r.Some? ==> |r.value.1| < |s|
  {
    if s == "" || s[0] != ';' then None
    else
      var (attribute, t) :- Split("=", SkipPadding(s[1..]));
      if t == "" || t[0] != '"' then None
      else
        var (value, rest) :- ReadQuoted(t[1..]);
        Some(((attribute, value), rest))
  }

  function Lookup(pairs: Pairs, key: string): Option<string> {
    if pairs == [] then None
    else if pairs[0].0 == key then Some(pairs[0].1)
    else Lookup(pairs[1..], key)
  }

  datatype Part =
    | Field(name: string, content: string)
    | File(name: string, filename: string, content: string, contentType: string)

  function ReadPart(entity: Entity): (part: Option<Part>)
    ensures part.Some? ==> part.value.content == entity.content
  {
    var disposition :- Lookup(entity.headers, "Content-Disposition");
    if !("form-data" <= disposition) then None
    else
      var parameters :- ReadParameters(disposition[|"form-data"|..]);
      var name :- Lookup(parameters, "name");
      match Lookup(parameters, "filename")
      case None => Some(Field(name, entity.content))
      case Some(filename) =>
        var contentType := Lookup(entity.headers, "Content-Type");
        Some(File(name, filename, entity.content, if contentType.Some? then contentType.value else "text/plain"))
  }

  function ReadParts(entities: seq<Entity>): Option<seq<Part>> {
    if entities == [] then Some([])
    else
      var part :- ReadPart(entities[0]);
      var parts :- ReadParts(entities[1..]);
      Some([part] + parts)
  }

  /** Preamble, parts and epilogue of a form. */
  function ReadForm(boundary: string, body: string): Option<(string, seq<Part>, string)> {
    var m :- ReadMultipart(boundary, body);
    var parts :- ReadParts(m.entities);
    Some((m.preamble, parts, m.epilogue))
  }

  /** No line of the content starts with the boundary line. */
  ghost predicate Enclosable(boundary: string, content: string) {
    !Occurs(Delimiter(boundary), CRLF + content)
  }

  /** A header value as a line can carry it. */
  ghost predicate ValueFit(value: string) {
    !Occurs(CRLF, value) && SkipPadding(value) == value
  }

  ghost predicate EntityFit(boundary: string, entity: Entity) {
    Enclosable(boundary, entity.content) && forall h | h in entity.headers :: ValueFit(h.1)
  }

  lemma {:induction false} SkipPaddingSuffix(s: string)
    ensures |SkipPadding(s)| <= |s| && SkipPadding(s) == s[|s| - |SkipPadding(s)|..]
    ensures SkipPadding(SkipPadding(s)) == SkipPadding(s)
  {
    if s != "" && (s[0] == ' ' || s[0] == '\t') {
      SkipPaddingSuffix(s[1..]);
    }
  }

  lemma {:induction false} ReadHeaderFit(block: string)
    requires ReadHeader(block).Some?
    ensures ValueFit(ReadHeader(block).value.0.1)
  {
    var line := match Split(CRLF, block[2..])
      case None => block[2..]
      case Some((first, _)) => first;
    SplitFindsFirst(CRLF, block[2..]);
    var (name, value) := Split(":", line).value;
    AbsentBehind(CRLF, name + ":", value);
    TrimmedFit(value);
  }

  lemma {:induction false} TrimmedFit(value: string)
    requires !Occurs(CRLF, value)
    ensures ValueFit(SkipPadding(value))
  {
    SkipPaddingSuffix(value);
    var k := |value| - |SkipPadding(value)|;
    assert value == value[..k] + SkipPadding(value);
    AbsentBehind(CRLF, value[..k], SkipPadding(value));
  }

  lemma {:induction false} ReadHeadersFit(block: string)
    requires ReadHeaders(block).Some?
    ensures forall h | h in ReadHeaders(block).value :: ValueFit(h.1)
    decreases |block|
  {
    if block != "" {
      ReadHeaderFit(block);
      ReadHeadersFit(ReadHeader(block).value.1);
    }
  }

  lemma {:induction false} ContentIsSuffix(eol: string, text: string, block: string, content: string)
    requires eol + text == block + (eol + eol) + content
    ensures |block| <= |text| && text[|block|..] == eol + content
  {
    assert (eol + text)[|eol| + |block|..] == (block + eol + (eol + content))[|eol| + |block|..];
    assert block + (eol + eol) + content == block + eol + (eol + content);
  }

  lemma {:induction false} ReadFirstFit(boundary: string, s: string)
    requires ReadFirst(boundary, s).Some?
    ensures EntityFit(boundary, ReadFirst(boundary, s).value.0)
  {
    var t := SkipPadding(s)[2..];
    var text := Split(Delimiter(boundary), t).value.0;
    SplitFindsFirst(Delimiter(boundary), t);
    var (block, content) := Split(CRLF + CRLF, CRLF + text).value;
    ReadHeadersFit(block);
    ContentIsSuffix(CRLF, text, block, content);
    if !Enclosable(boundary, content) {
      OccursInSuffix(Delimiter(boundary), text, |block|);
    }
  }

  /** Whatever is read, no content holds a line that starts with the boundary line, and no header value
      a line break or a blank at its start. */
  lemma {:induction false} ReadEntitiesFit(boundary: string, s: string)
    requires ReadEntities(boundary, s).Some?
    ensures forall e | e in ReadEntities(boundary, s).value.0 :: EntityFit(boundary, e)
    decreases |s|
  {
    if !("--" <= s) {
      ReadFirstFit(boundary, s);
      ReadEntitiesFit(boundary, ReadFirst(boundary, s).value.1);
    }
  }

  lemma {:induction false} ReadMultipartFit(boundary: string, body: string)
    requires ReadMultipart(boundary, body).Some?
    ensures forall e | e in ReadMultipart(boundary, body).value.entities :: EntityFit(boundary, e)
  {
    ReadEntitiesFit(boundary, Split(Delimiter(boundary), CRLF + body).value.1);
  }

  lemma {:induction false} ReadPartsEach(entities: seq<Entity>)
    requires ReadParts(entities).Some?
    ensures |ReadParts(entities).value| == |entities|
    ensures forall i | 0 <= i < |entities| :: ReadPart(entities[i]) == Some(ReadParts(entities).value[i])
  {
    if entities != [] {
      ReadPartsEach(entities[1..]);
    }
  }

  ghost predicate PartFit(boundary: string, part: Part) {
    && Enclosable(boundary, part.content)
    && '\r' !in part.name
    && (part.File? ==> '\r' !in part.filename && ValueFit(part.contentType))
  }

  lemma {:induction false} ReadParametersFit(s: string)
    requires ReadParameters(s).Some?
    ensures forall p | p in ReadParameters(s).value :: '\r' !in p.1
    decreases |s|
  {
    if s != "" {
      ReadParametersFit(ReadParameter(s).value.1);
    }
  }

  lemma {:induction false} LookupIn(pairs: Pairs, key: string)
    ensures Lookup(pairs, key).Some? ==> (key, Lookup(pairs, key).value) in pairs
  {
    if pairs != [] && pairs[0].0 != key {
      LookupIn(pairs[1..], key);
    }
  }

  lemma {:induction false} ReadPartFit(boundary: string, entity: Entity)
    requires EntityFit(boundary, entity) && ReadPart(entity).Some?
    ensures PartFit(boundary, ReadPart(entity).value)
  {
    var disposition := Lookup(entity.headers, "Content-Disposition").value;
    var s := disposition[|"form-data"|..];
    var parameters := ReadParameters(s).value;
    ReadParametersFit(s);
    LookupIn(parameters, "name");
    LookupIn(parameters, "filename");
    LookupIn(entity.headers, "Content-Type");
    TextPlainFit();
  }

  lemma {:induction false} TextPlainFit()
    ensures ValueFit("text/plain")
  {
    OccursBehind(CRLF, "text/plain", "");
    assert "text/plain" + "" == "text/plain";
  }

  /** What is read as a form is fit in the same sense. */
  lemma {:induction false} ReadFormFit(boundary: string, body: string)
    requires ReadForm(boundary, body).Some?
    ensures forall p | p in ReadForm(boundary, body).value.1 :: PartFit(boundary, p)
  {
    var m := ReadMultipart(boundary, body).value;
    ReadMultipartFit(boundary, body);
    ReadPartsEach(m.entities);
    var parts := ReadParts(m.entities).value;
    forall p | p in parts ensures PartFit(boundary, p) {
      var i :| 0 <= i < |parts| && parts[i] == p;
      assert m.entities[i] in m.entities;
      ReadPartFit(boundary, m.entities[i]);
    }
  }
}
