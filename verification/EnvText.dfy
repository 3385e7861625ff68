/** Environment files as text: how lines are written, and a reader for the dotenv format (one variable a
    line, `#` starts a comment line, the first `=` ends the key). */
module EnvText {
  import opened Wrappers
  import opened Text

  datatype Line = Comment(text: string) | Blank | Assign(key: string, value: string)

  type Entry = (string, string)

  /** What the lines are meant to define, in order. */
  function Assigned(lines: seq<Line>): seq<Entry> {
    if lines == [] then []
    else
      var init, last := lines[..|lines| - 1], lines[|lines| - 1];
      Assigned(init) + if last.Assign? then [(last.key, last.value)] else []
  }

  lemma {:induction false} AssignedConcat(a: seq<Line>, b: seq<Line>)
    ensures Assigned(a + b) == Assigned(a) + Assigned(b)
  {
    if b == [] {
      assert a + b == a;
    } else {
      var init := b[..|b| - 1];
      AssignedConcat(a, init);
      assert (a + b)[..|a + b| - 1] == a + init;
    }
  }

  lemma {:induction false} AssignedLine(lines: seq<Line>, line: Line)
    ensures Assigned(lines + [line]) == Assigned(lines) + if line.Assign? then [(line.key, line.value)] else []
  {
    assert (lines + [line])[..|lines|] == lines;
  }

  lemma {:induction false} AssignedIn(lines: seq<Line>, e: Entry)
    ensures e in Assigned(lines) <==> Assign(e.0, e.1) in lines
  {
    if lines != [] {
      AssignedIn(lines[..|lines| - 1], e);
      assert lines == lines[..|lines| - 1] + [lines[|lines| - 1]];
    }
  }

  // ---------- writing ----------

  function LineText(line: Line): string {
    match line
    case Comment(text) => "# " + text
    case Blank => ""
    case Assign(key, value) => key + "=" + value
  }

  /** lines.join("\n") */
  function Joined(lines: seq<Line>): string
    requires lines != []
  {
    var n := |lines| - 1;
    if n == 0 then LineText(lines[0]) else Joined(lines[..n]) + "\n" + LineText(lines[n])
  }

  /** Every line with its line end. */
  function Rendered(lines: seq<Line>): string {
    if lines == [] then ""
    else Rendered(lines[..|lines| - 1]) + (LineText(lines[|lines| - 1]) + "\n")
  }

  /** Lines as they stand in a file. */
  lemma {:induction false} RenderedLines(lines: seq<Line>, text: string, key: string, value: string)
    ensures Rendered([]) == ""
    ensures Rendered(lines + [Comment(text)]) == Rendered(lines) + ("# " + text + "\n")
    ensures Rendered(lines + [Blank]) == Rendered(lines) + "\n"
    ensures Rendered(lines + [Assign(key, value)]) == Rendered(lines) + (key + "=" + value + "\n")
  {
    assert (lines + [Comment(text)])[..|lines|] == lines && (lines + [Blank])[..|lines|] == lines;
    assert (lines + [Assign(key, value)])[..|lines|] == lines;
    assert "" + "\n" == "\n";
  }

  lemma {:induction false} JoinedIsRendered(lines: seq<Line>)
    requires lines != []
    ensures Joined(lines) + "\n" == Rendered(lines)
  {
    var n := |lines| - 1;
    var line := LineText(lines[n]);
    assert Rendered(lines) == Rendered(lines[..n]) + (line + "\n");
    if n == 0 {
      assert Rendered(lines[..0]) == "" && Joined(lines) == line;
      EndLine("", "", line, "\n");
    } else {
      JoinedIsRendered(lines[..n]);
      assert Joined(lines) == Joined(lines[..n]) + "\n" + line;
      EndLine(Joined(lines[..n]), "\n", line, "\n");
    }
  }

  /** Regrouping only. */
  lemma {:induction false} EndLine(before: string, mid: string, line: string, end: string)
    ensures before + mid + line + end == before + mid + (line + end)
    ensures "" + (line + end) == line + end
  {
  }

  // ---------- reading ----------

  function ReadLine(line: string): seq<Entry> {
    if line == "" || line[0] == '#' then []
    else
      match Split("=", line)
      case None => []
      case Some((key, value)) => [(key, value)]
  }

  function FirstLine(text: string): (r: (string, string))
    ensures text != "" ==> |r.1| < |text|
  {
    match Split("\n", text)
    case None => (text, "")
    case Some((line, rest)) => (line, rest)
  }

  function ReadEnv(text: string): seq<Entry>
    decreases |text|
  {
    if text == "" then []
    else ReadLine(FirstLine(text).0) + ReadEnv(FirstLine(text).1)
  }

  lemma {:induction false} ReadEnvCons(line: string, rest: string)
    requires '\n' !in line
    ensures ReadEnv(line + "\n" + rest) == ReadLine(line) + ReadEnv(rest)
  {
    SplitAfter("\n", line, rest);
  }

  lemma {:induction false} ReadEnvLine(line: string)
    requires '\n' !in line
    ensures ReadEnv(line + "\n") == ReadLine(line)
  {
    ReadEnvCons(line, "");
    assert line + "\n" + "" == line + "\n";
    assert ReadLine(line) + [] == ReadLine(line);
  }

  lemma {:induction false} NoLineEnd(text: string)
    ensures var split := Split("\n", text);
            if split.None? then '\n' !in text
            else text == split.value.0 + "\n" + split.value.1 && '\n' !in split.value.0
  {
    SplitFindsFirst("\n", text);
    var u := if Split("\n", text).None? then text else Split("\n", text).value.0;
    forall i | 0 <= i < |u| ensures u[i] != '\n' {
      assert u[i..i + 1] == [u[i]];
      assert !OccursAt("\n", u, i);
    }
  }

  /** Lines are read independently: text that ends a line, then the rest. */
  lemma {:induction false} ReadEnvConcat(chunk: string, rest: string)
    ensures ReadEnv(chunk + "\n" + rest) == ReadEnv(chunk + "\n") + ReadEnv(rest)
    decreases |chunk|
  {
    NoLineEnd(chunk);
    match Split("\n", chunk) {
      case None =>
        ReadEnvCons(chunk, rest);
        ReadEnvLine(chunk);
      case Some((line, more)) =>
        Regroup(line, "\n", more, rest);
        ReadEnvCons(line, more + "\n" + rest);
        ReadEnvCons(line, more + "\n");
        ReadEnvConcat(more, rest);
        Associate(ReadLine(line), ReadEnv(more + "\n"), ReadEnv(rest));
    }
  }

  /** Regrouping only. */
  lemma {:induction false} Regroup(line: string, end: string, more: string, rest: string)
    ensures line + end + more + end + rest == line + end + (more + end + rest)
    ensures line + end + more + end == line + end + (more + end)
  {
  }

  lemma {:induction false} Associate(a: seq<Entry>, b: seq<Entry>, c: seq<Entry>)
    ensures a + (b + c) == a + b + c
  {
  }

  lemma {:induction false} ReadRenderedSnoc(lines: seq<Line>, text: string)
    ensures ReadEnv(Rendered(lines) + text) == ReadEnv(Rendered(lines)) + ReadEnv(text)
  {
    if lines == [] {
      assert "" + text == text && [] + ReadEnv(text) == ReadEnv(text);
    } else {
      var chunk := Rendered(lines[..|lines| - 1]) + LineText(lines[|lines| - 1]);
      assert Rendered(lines) == chunk + "\n";
      ReadEnvConcat(chunk, text);
    }
  }

  // ---------- what is read back ----------

  /** An entry that one line can hold. */
  predicate EntryFit(e: Entry) {
    '\n' !in e.0 && '\n' !in e.1 && '=' !in e.0 && (e.0 == "" || e.0[0] != '#')
  }

  /** A comment must define nothing, an assignment one entry. */
  predicate LineFit(line: Line) {
    match line
    case Comment(_) => ReadEnv(LineText(line) + "\n") == []
    case Blank => true
    case Assign(key, value) => EntryFit((key, value))
  }

  lemma {:induction false} ReadAssignment(e: Entry)
    requires EntryFit(e)
    ensures ReadEnv(e.0 + "=" + e.1 + "\n") == [e]
  {
    var line := e.0 + "=" + e.1;
    assert line[0] == if e.0 == "" then '=' else e.0[0];
    SplitAfter("=", e.0, e.1);
    ReadEnvLine(line);
  }

  lemma {:induction false} ReadComment(text: string)
    requires '\n' !in text
    ensures LineFit(Comment(text))
  {
    ReadEnvLine("# " + text);
  }

  lemma {:induction false} ReadLineFit(line: string)
    requires '\n' !in line
    ensures forall e | e in ReadLine(line) :: EntryFit(e)
  {
    if line != "" && line[0] != '#' && Split("=", line).Some? {
      var (key, value) := Split("=", line).value;
      SplitFindsFirst("=", line);
      assert forall c | c in key :: c in line;
      assert forall c | c in value :: c in line;
      forall i | 0 <= i < |key| ensures key[i] != '=' {
        assert key[i..i + 1] == [key[i]];
        assert !OccursAt("=", key, i);
      }
      assert key != "" ==> key[0] == line[0];
    }
  }

  /** Whatever is read, one line could hold it. */
  lemma {:induction false} ReadEnvFit(text: string)
    ensures forall e | e in ReadEnv(text) :: EntryFit(e)
    decreases |text|
  {
    if text != "" {
      NoLineEnd(text);
      ReadLineFit(FirstLine(text).0);
      ReadEnvFit(FirstLine(text).1);
    }
  }

  /** What one line defines. */
  function Meant(line: Line): seq<Entry> {
    if line.Assign? then [(line.key, line.value)] else []
  }

  lemma {:induction false} ReadOneLine(line: Line)
    requires line.Assign? ==> LineFit(line)
    ensures var read := ReadEnv(LineText(line) + "\n");
            && |Meant(line)| <= |read|
            && (LineFit(line) <==> |read| == |Meant(line)|)
            && (LineFit(line) ==> read == Meant(line))
  {
    match line {
      case Comment(_) =>
      case Blank =>
        ReadEnvLine("");
      case Assign(key, value) =>
        ReadAssignment((key, value));
    }
  }

  ghost predicate AllFit(lines: seq<Line>) {
    forall line | line in lines :: LineFit(line)
  }

  lemma {:induction false} AllFitSnoc(lines: seq<Line>)
    requires lines != []
    ensures AllFit(lines) <==> AllFit(lines[..|lines| - 1]) && LineFit(lines[|lines| - 1])
  {
    assert lines == lines[..|lines| - 1] + [lines[|lines| - 1]];
  }

  lemma {:induction false} ReadRendered(lines: seq<Line>)
    requires forall i | 0 <= i < |lines| && lines[i].Assign? :: LineFit(lines[i])
    ensures |Assigned(lines)| <= |ReadEnv(Rendered(lines))|
    ensures AllFit(lines) <==> |Assigned(lines)| == |ReadEnv(Rendered(lines))|
    ensures AllFit(lines) ==> ReadEnv(Rendered(lines)) == Assigned(lines)
  {
    if lines != [] {
      var init, last := lines[..|lines| - 1], lines[|lines| - 1];
      ReadRendered(init);
      ReadRenderedSnoc(init, LineText(last) + "\n");
      ReadOneLine(last);
      AllFitSnoc(lines);
    }
  }

  /** Written and read back, the lines define exactly what they are meant to if and only if every comment
      defines nothing and every assignment fits its line. */
  lemma {:induction false} EnvRoundTripExactly(lines: seq<Line>)
    ensures ReadEnv(Rendered(lines)) == Assigned(lines) <==> AllFit(lines)
  {
    if ReadEnv(Rendered(lines)) == Assigned(lines) {
      ReadEnvFit(Rendered(lines));
      forall i | 0 <= i < |lines| && lines[i].Assign? ensures LineFit(lines[i]) {
        AssignedIn(lines, (lines[i].key, lines[i].value));
      }
      ReadRendered(lines);
    }
    if AllFit(lines) {
      ReadRendered(lines);
    }
  }
}
