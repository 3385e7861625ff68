/** camelToScreamingSnake of contracts/scripts/generate.js. */
module Naming {
  import opened Wrappers
  import opened Regex

  const CASE_CHANGE := Pattern([One(LowerOrDigit)], [One(UpperCase)])
  const ACRONYM_END := Pattern([Plus(UpperCase)], [One(UpperCase), One(LowerCase)])

  function UpperChar(c: char): char {
    if IsLower(c) then (c as int - 32) as char else c
  }

  /** toUpperCase on ASCII; other characters are left alone. */
  function Upper(s: string): (t: string)
    ensures |t| == |s|
  {
    if s == "" then "" else [UpperChar(s[0])] + Upper(s[1..])
  }

  /** The n-th small letter becomes the n-th capital; everything else stays. */
  lemma {:induction false} UpperMeans(s: string)
    ensures forall i | 0 <= i < |s| ::
              if 'a' <= s[i] <= 'z' then Upper(s)[i] as int - 'A' as int == s[i] as int - 'a' as int
              else Upper(s)[i] == s[i]
  {
    if s != "" {
      UpperMeans(s[1..]);
      assert forall i | 1 <= i < |s| :: Upper(s)[i] == Upper(s[1..])[i - 1] && s[i] == s[1..][i - 1];
    }
  }

  function CamelToScreamingSnake(s: string): string {
    Upper(ReplaceAll(ACRONYM_END, ReplaceAll(CASE_CHANGE, s)))
  }

  // ---------- the one-pass rule ----------

  /** A cut says from the previous character, if there is one, and the text from here on whether an
      underscore goes in between. */
  type Cut = (Option<char>, string) -> bool

  predicate CaseCut(prev: Option<char>, s: string) {
    && prev.Some? && (IsLower(prev.value) || IsDigit(prev.value))
    && s != "" && IsUpper(s[0])
  }

  predicate AcronymCut(prev: Option<char>, s: string) {
    && prev.Some? && IsUpper(prev.value)
    && |s| >= 2 && IsUpper(s[0]) && IsLower(s[1])
  }

  predicate WordCut(prev: Option<char>, s: string) {
    CaseCut(prev, s) || AcronymCut(prev, s)
  }

  function Insert(cut: Cut, prev: Option<char>, s: string): string
    decreases s
  {
    if s == "" then ""
    else (if cut(prev, s) then "_" else "") + [s[0]] + Insert(cut, Some(s[0]), s[1..])
  }

  // ---------- each pass is a cut ----------

  lemma {:induction false} PrependCut(a: string, b: string, c: string)
    ensures "" + a + ("_" + b + c) == a + "_" + b + c
  {
  }

  lemma {:induction false} CaseChangeReplace(s: string)
    requires s != "" && CaseCut(Some(s[0]), s[1..])
    ensures ReplaceAll(CASE_CHANGE, s) == [s[0]] + "_" + [s[1]] + ReplaceAll(CASE_CHANGE, s[2..])
  {
    CaseChangeMatch(s);
    assert s[..1] == [s[0]] && s[1..2] == [s[1]];
  }

  lemma {:induction false} CaseChangePassHere(prev: Option<char>, s: string)
    requires s != "" && !CaseCut(prev, s) && CaseCut(Some(s[0]), s[1..])
    requires ReplaceAll(CASE_CHANGE, s[2..]) == Insert(CaseCut, Some(s[1]), s[2..])
    ensures ReplaceAll(CASE_CHANGE, s) == Insert(CaseCut, prev, s)
  {
    CaseChangeReplace(s);
    var rest := Insert(CaseCut, Some(s[1]), s[2..]);
    assert s[1..][0] == s[1] && s[1..][1..] == s[2..];
    assert Insert(CaseCut, Some(s[0]), s[1..]) == "_" + [s[1]] + rest;
    PrependCut([s[0]], [s[1]], rest);
  }

  lemma {:induction false} CaseChangePassNotHere(prev: Option<char>, s: string)
    requires s != "" && !CaseCut(prev, s) && !CaseCut(Some(s[0]), s[1..])
    requires ReplaceAll(CASE_CHANGE, s[1..]) == Insert(CaseCut, Some(s[0]), s[1..])
    ensures ReplaceAll(CASE_CHANGE, s) == Insert(CaseCut, prev, s)
  {
    CaseChangeMatch(s);
    var rest := Insert(CaseCut, Some(s[0]), s[1..]);
    assert "" + [s[0]] + rest == [s[0]] + rest;
  }

  /** Matches never overlap: right after a match, and where one has just been refused, there is no cut. */
  lemma {:induction false} CaseChangePass(prev: Option<char>, s: string)
    requires !CaseCut(prev, s)
    ensures ReplaceAll(CASE_CHANGE, s) == Insert(CaseCut, prev, s)
    decreases s
  {
    if s != "" {
      if CaseCut(Some(s[0]), s[1..]) {
        CaseChangePass(Some(s[1]), s[2..]);
        CaseChangePassHere(prev, s);
      } else {
        CaseChangePass(Some(s[0]), s[1..]);
        CaseChangePassNotHere(prev, s);
      }
    }
  }

  lemma {:induction false} CaseChangeMatch(s: string)
    requires s != ""
    ensures MatchHere(CASE_CHANGE, s) == if CaseCut(Some(s[0]), s[1..]) then Some((1, 2)) else None
  {
    var first, second := One(LowerOrDigit), One(UpperCase);
    assert CASE_CHANGE.first + CASE_CHANGE.second == [first] + ([second] + []);
    MatchOne(LowerOrDigit, [second] + [], s);
    MatchOne(UpperCase, [], s[1..]);
    assert [1] + ([1] + []) == [1, 1];
    assert [1, 1][..1] == [1] && [1, 1][1..] == [1] && Total([1]) == 1 && Total([1, 1]) == 2;
  }

  /** The length of the run of upper-case letters that s starts with. */
  function Run(s: string): (n: nat)
    ensures n <= |s|
    ensures forall i | 0 <= i < n :: IsUpper(s[i])
    ensures n < |s| ==> !IsUpper(s[n])
  {
    if s == "" || !IsUpper(s[0]) then 0 else 1 + Run(s[1..])
  }

  /** The run has two letters or more and a lower-case letter behind it. */
  predicate AcronymHere(s: string) {
    Run(s) >= 2 && Run(s) < |s| && IsLower(s[Run(s)])
  }

  /** Greedy `+` takes the whole run, fails, and gives back exactly one letter. */
  lemma {:induction false} AcronymAtoms(s: string)
    ensures MatchAtoms([Plus(UpperCase), One(UpperCase), One(LowerCase)], s) ==
            if AcronymHere(s) then Some([Run(s) - 1, 1, 1]) else None
  {
    var p, u, l := Plus(UpperCase), One(UpperCase), One(LowerCase);
    if s != "" && IsUpper(s[0]) {
      AcronymAtoms(s[1..]);
      assert [p, u, l][1..] == [u] + ([l] + []);
      MatchOne(UpperCase, [l] + [], s[1..]);
      if |s| >= 2 {
        MatchOne(LowerCase, [], s[1..][1..]);
      }
      assert [1] + ([1] + ([1] + [])) == [1, 1, 1];
      if AcronymHere(s[1..]) {
        assert [Run(s[1..]) - 1, 1, 1][1..] == [1, 1];
        assert [Run(s) - 1] + [1, 1] == [Run(s) - 1, 1, 1];
      } else {
        assert AcronymHere(s) ==> Run(s) == 2;
      }
    }
  }

  lemma {:induction false} AcronymMatch(s: string)
    ensures MatchHere(ACRONYM_END, s) == if AcronymHere(s) then Some((Run(s) - 1, Run(s) + 1)) else None
  {
    var p, u, l := Plus(UpperCase), One(UpperCase), One(LowerCase);
    assert ACRONYM_END.first + ACRONYM_END.second == [p, u, l];
    AcronymAtoms(s);
    if AcronymHere(s) {
      var n := Run(s) - 1;
      assert [n, 1, 1][..1] == [n] && [n, 1, 1][1..] == [1, 1] && [1, 1][1..] == [1];
      assert Total([n]) == n && Total([1, 1]) == 2 && Total([n, 1, 1]) == n + 2;
    }
  }

  lemma {:induction false} InsertCons(cut: Cut, prev: Option<char>, c: char, s: string)
    ensures Insert(cut, prev, [c] + s) == (if cut(prev, [c] + s) then "_" else "") + [c] + Insert(cut, Some(c), s)
  {
    assert ([c] + s)[1..] == s;
  }

  lemma {:induction false} RunOfTwo(prev: Option<char>, a: char, b: char, c: char, s: string)
    requires IsUpper(a) && IsUpper(b) && IsLower(c)
    requires !AcronymCut(prev, [a] + ([b] + ([c] + s)))
    ensures Insert(AcronymCut, prev, [a] + ([b] + ([c] + s))) ==
            [a] + "_" + [b, c] + Insert(AcronymCut, Some(c), s)
  {
    InsertCons(AcronymCut, prev, a, [b] + ([c] + s));
    InsertCons(AcronymCut, Some(a), b, [c] + s);
    InsertCons(AcronymCut, Some(b), c, s);
  }

  /** Inside a run the rule inserts nothing but one underscore, before its last letter, and that only
      if a lower-case letter follows the run. */
  lemma {:induction false} InsertOnRun(prev: Option<char>, s: string)
    requires !AcronymCut(prev, s) && AcronymHere(s)
    ensures var n := Run(s);
            Insert(AcronymCut, prev, s) ==
            s[..n - 1] + "_" + s[n - 1..n + 1] + Insert(AcronymCut, Some(s[n]), s[n + 1..])
    decreases s
  {
    var n := Run(s);
    var rest := s[1..];
    if n == 2 {
      assert s == [s[0]] + ([s[1]] + ([s[2]] + s[3..]));
      RunOfTwo(prev, s[0], s[1], s[2], s[3..]);
      assert s[..1] == [s[0]] && s[1..3] == [s[1], s[2]];
    } else {
      InsertOnRun(Some(s[0]), rest);
      assert rest[n - 2..n] == s[n - 1..n + 1] && rest[n..] == s[n + 1..] && rest[n - 1] == s[n];
      Prepend([s[0]], rest[..n - 2], s[n - 1..n + 1], Insert(AcronymCut, Some(s[n]), s[n + 1..]));
      assert [s[0]] + rest[..n - 2] == s[..n - 1];
      assert Insert(AcronymCut, prev, s) == "" + [s[0]] + Insert(AcronymCut, Some(s[0]), rest);
    }
  }

  lemma {:induction false} Prepend(a: string, b: string, c: string, d: string)
    ensures "" + a + (b + "_" + c + d) == (a + b) + "_" + c + d
  {
  }

  lemma {:induction false} NoAcronymNext(s: string)
    requires s != "" && !AcronymHere(s)
    ensures !AcronymCut(Some(s[0]), s[1..])
  {
    assert AcronymCut(Some(s[0]), s[1..]) ==> Run(s) == 2;
  }

  lemma {:induction false} AcronymPassHere(prev: Option<char>, s: string)
    requires !AcronymCut(prev, s) && AcronymHere(s)
    requires ReplaceAll(ACRONYM_END, s[Run(s) + 1..]) == Insert(AcronymCut, Some(s[Run(s)]), s[Run(s) + 1..])
    ensures ReplaceAll(ACRONYM_END, s) == Insert(AcronymCut, prev, s)
  {
    AcronymMatch(s);
    InsertOnRun(prev, s);
  }

  lemma {:induction false} AcronymPassNotHere(prev: Option<char>, s: string)
    requires s != "" && !AcronymCut(prev, s) && !AcronymHere(s)
    requires ReplaceAll(ACRONYM_END, s[1..]) == Insert(AcronymCut, Some(s[0]), s[1..])
    ensures ReplaceAll(ACRONYM_END, s) == Insert(AcronymCut, prev, s)
  {
    AcronymMatch(s);
    var rest := Insert(AcronymCut, Some(s[0]), s[1..]);
    assert "" + [s[0]] + rest == [s[0]] + rest;
  }

  lemma {:induction false} AcronymPass(prev: Option<char>, s: string)
    requires !AcronymCut(prev, s)
    ensures ReplaceAll(ACRONYM_END, s) == Insert(AcronymCut, prev, s)
    decreases |s|
  {
    if s != "" {
      if AcronymHere(s) {
        AcronymPass(Some(s[Run(s)]), s[Run(s) + 1..]);
        AcronymPassHere(prev, s);
      } else {
        NoAcronymNext(s);
        AcronymPass(Some(s[0]), s[1..]);
        AcronymPassNotHere(prev, s);
      }
    }
  }

  /** The underscores of the first pass neither hide nor create a cut of the second. */
  lemma {:induction false} PassesCompose(prev: Option<char>, s: string)
    ensures Insert(AcronymCut, prev, Insert(CaseCut, prev, s)) == Insert(WordCut, prev, s)
    decreases s
  {
    if s != "" {
      PassesCompose(Some(s[0]), s[1..]);
      var rest := Insert(CaseCut, Some(s[0]), s[1..]);
      InsertCons(AcronymCut, prev, s[0], rest);
      if CaseCut(prev, s) {
        assert "_" + [s[0]] + rest == ['_'] + ([s[0]] + rest);
        InsertCons(AcronymCut, prev, '_', [s[0]] + rest);
        InsertCons(AcronymCut, Some('_'), s[0], rest);
      } else {
        assert "" + [s[0]] + rest == [s[0]] + rest;
        SameAcronym(prev, s);
      }
    }
  }

  /** The underscores of the first pass are not where the second looks. */
  lemma {:induction false} SameAcronym(prev: Option<char>, s: string)
    requires s != ""
    ensures AcronymCut(prev, [s[0]] + Insert(CaseCut, Some(s[0]), s[1..])) == AcronymCut(prev, s)
  {
    if |s| >= 2 && IsUpper(s[0]) {
      assert Insert(CaseCut, Some(s[0]), s[1..])[0] == s[1];
    }
  }

  /** The two global regular-expression passes equal one left-to-right rule: an underscore goes
      between a lower-case letter or digit and an upper-case letter, and before an upper-case letter
      that follows an upper-case letter and precedes a lower-case one; then all is upper-cased. */
  lemma {:induction false} TwoPassesAreOneRule(s: string)
    ensures CamelToScreamingSnake(s) == Upper(Insert(WordCut, None, s))
  {
    CaseChangePass(None, s);
    AcronymPass(None, Insert(CaseCut, None, s));
    PassesCompose(None, s);
  }

  /** The rule in so many words: between positions i - 1 and i of s a word ends. */
  predicate WordEndsBefore(s: string, i: int) {
    && 0 < i < |s|
    && 'A' <= s[i] <= 'Z'
    && ('a' <= s[i - 1] <= 'z' || '0' <= s[i - 1] <= '9' ||
        ('A' <= s[i - 1] <= 'Z' && i + 1 < |s| && 'a' <= s[i + 1] <= 'z'))
  }

  lemma {:induction false} WordCutMeans(s: string, i: nat)
    requires i < |s|
    ensures WordCut(if i == 0 then None else Some(s[i - 1]), s[i..]) <==> WordEndsBefore(s, i)
  {
  }

  function Capital(c: char): char {
    if 'a' <= c <= 'z' then ('A' as int + (c as int - 'a' as int)) as char else c
  }

  /** The letters of s from i on, capital, each behind an underscore where a word ends before it. */
  function Spelled(s: string, i: nat): string
    requires i <= |s|
    decreases |s| - i
  {
    if i == |s| then ""
    else (if WordEndsBefore(s, i) then "_" else "") + [Capital(s[i])] + Spelled(s, i + 1)
  }

  lemma {:induction false} SpelledFrom(s: string, i: nat)
    requires i <= |s|
    ensures Upper(Insert(WordCut, if i == 0 then None else Some(s[i - 1]), s[i..])) == Spelled(s, i)
    decreases |s| - i
  {
    if i < |s| {
      var prev := if i == 0 then None else Some(s[i - 1]);
      SpelledFrom(s, i + 1);
      WordCutMeans(s, i);
      InsertUnfold(prev, s[i..]);
      assert s[i..][0] == s[i] && s[i..][1..] == s[i + 1..];
    }
  }

  /** The whole transformation, letter by letter. */
  lemma {:induction false} SnakeExactly(s: string)
    ensures CamelToScreamingSnake(s) == Spelled(s, 0)
  {
    TwoPassesAreOneRule(s);
    SpelledFrom(s, 0);
    assert s[0..] == s;
  }

  lemma {:induction false} SpelledStep(s: string, i: nat, rest: string)
    requires i < |s| && Spelled(s, i + 1) == rest
    ensures Spelled(s, i) == if WordEndsBefore(s, i) then ['_', Capital(s[i])] + rest else [Capital(s[i])] + rest
  {
    assert "_" + [Capital(s[i])] == ['_', Capital(s[i])];
    assert "" + [Capital(s[i])] == [Capital(s[i])];
  }

  /** Two steps over plain letters. */
  lemma {:induction false} SpelledTwo(s: string, i: nat, rest: string)
    requires i + 2 <= |s| && Spelled(s, i + 2) == rest
    requires !WordEndsBefore(s, i) && !WordEndsBefore(s, i + 1)
    ensures Spelled(s, i) == [Capital(s[i]), Capital(s[i + 1])] + rest
  {
    SpelledStep(s, i + 1, rest);
    SpelledStep(s, i, [Capital(s[i + 1])] + rest);
  }

  lemma {:induction false} VaultSpelled(s: string)
    requires |s| == 10 && s[4] == 'R' && s[5] == 'V' && s[6] == 'a' && s[7] == 'u' && s[8] == 'l' && s[9] == 't'
    ensures Spelled(s, 5) == "_VAULT"
  {
    SpelledTwo(s, 8, "");
    SpelledTwo(s, 6, "LT");
    SpelledStep(s, 5, "AULT");
  }

  lemma {:induction false} Joins(a: string, b: string, both: string, rest: string)
    requires a + b == both
    ensures a + (b + rest) == both + rest
  {
    assert a + (b + rest) == a + b + rest;
  }

  lemma {:induction false} CorSpelled(s: string, rest: string)
    requires |s| == 10 && s[1] == 'E' && s[2] == 'C' && s[3] == 'O' && s[4] == 'R' && s[5] == 'V'
    requires Spelled(s, 5) == rest
    ensures Spelled(s, 2) == "COR" + rest
  {
    SpelledStep(s, 4, rest);
    SpelledTwo(s, 2, "R" + rest);
    Joins("CO", "R", "COR", rest);
  }

  lemma {:induction false} PecorSpelled(s: string, rest: string)
    requires |s| == 10 && s[0] == 'P' && s[1] == 'E' && s[2] == 'C' && s[3] == 'O'
    requires Spelled(s, 2) == "COR" + rest
    ensures Spelled(s, 0) == "PECOR" + rest
  {
    SpelledTwo(s, 0, "COR" + rest);
    assert "PE" + "COR" == "PECOR";
    Joins("PE", "COR", "PECOR", rest);
  }

  /** The source's own example. */
  lemma {:induction false} SourceExample(s: string)
    requires s == "PECORVault"
    ensures CamelToScreamingSnake(s) == "PECOR_VAULT"
  {
    SnakeExactly(s);
    VaultSpelled(s);
    CorSpelled(s, "_VAULT");
    PecorSpelled(s, "_VAULT");
    assert "PECOR" + "_VAULT" == "PECOR_VAULT";
  }

  // ---------- no letter is lost ----------

  function Strip(s: string): string {
    if s == "" then "" else (if s[0] == '_' then "" else [s[0]]) + Strip(s[1..])
  }

  predicate UnderscoreFree(s: string) {
    '_' !in s
  }

  lemma {:induction false} StripInsert(prev: Option<char>, s: string)
    ensures Strip(Upper(Insert(WordCut, prev, s))) == Upper(Strip(s))
    decreases s
  {
    if s != "" {
      var c, rest := UpperChar(s[0]), Upper(Insert(WordCut, Some(s[0]), s[1..]));
      StripInsert(Some(s[0]), s[1..]);
      InsertUnfold(prev, s);
      StripCons(c, rest);
      if WordCut(prev, s) {
        assert "_" + [c] + rest == ['_'] + ([c] + rest);
        StripCons('_', [c] + rest);
      } else {
        assert "" + [c] + rest == [c] + rest;
      }
      assert s == [s[0]] + s[1..];
      StripCons(s[0], s[1..]);
      UpperCons(s[0], Strip(s[1..]));
    }
  }

  lemma {:induction false} UpperCons(c: char, s: string)
    ensures Upper([c] + s) == [UpperChar(c)] + Upper(s)
  {
    assert ([c] + s)[1..] == s;
  }

  lemma {:induction false} StripCons(c: char, s: string)
    ensures Strip([c] + s) == if c == '_' then Strip(s) else [c] + Strip(s)
  {
    assert ([c] + s)[1..] == s;
    assert "" + Strip(s) == Strip(s);
  }

  lemma {:induction false} InsertUnfold(prev: Option<char>, s: string)
    requires s != ""
    ensures var rest := Upper(Insert(WordCut, Some(s[0]), s[1..]));
            var out := Upper(Insert(WordCut, prev, s));
            && out == (if WordCut(prev, s) then "_" else "") + [UpperChar(s[0])] + rest
            && out != ""
            && (WordCut(prev, s) ==> out[0] == '_' && out[1..] == [UpperChar(s[0])] + rest && out[1..][1..] == rest)
            && (!WordCut(prev, s) ==> out[0] == UpperChar(s[0]) && out[1..] == rest)
  {
    var raw := Insert(WordCut, Some(s[0]), s[1..]);
    var rest := Upper(raw);
    UpperCons(s[0], raw);
    HeadAndTail(UpperChar(s[0]), rest);
    if WordCut(prev, s) {
      assert "_" + [s[0]] + raw == ['_'] + ([s[0]] + raw);
      UpperCons('_', [s[0]] + raw);
      HeadAndTail('_', [UpperChar(s[0])] + rest);
      assert "_" + [UpperChar(s[0])] + rest == ['_'] + ([UpperChar(s[0])] + rest);
    } else {
      assert "" + [s[0]] + raw == [s[0]] + raw;
      assert "" + [UpperChar(s[0])] + rest == [UpperChar(s[0])] + rest;
    }
  }

  lemma {:induction false} HeadAndTail(c: char, s: string)
    ensures ([c] + s)[0] == c && ([c] + s)[1..] == s
  {
  }

  /** The transformation adds underscores and changes case; it does nothing else. */
  lemma {:induction false} NothingLost(s: string)
    ensures Strip(CamelToScreamingSnake(s)) == Upper(Strip(s))
    ensures UnderscoreFree(s) ==> Strip(CamelToScreamingSnake(s)) == Upper(s)
  {
    TwoPassesAreOneRule(s);
    StripInsert(None, s);
    if UnderscoreFree(s) {
      StripUnderscoreFree(s);
    }
  }

  lemma {:induction false} StripUnderscoreFree(s: string)
    requires UnderscoreFree(s)
    ensures Strip(s) == s
  {
    if s != "" {
      assert forall c | c in s[1..] :: c in s;
      StripUnderscoreFree(s[1..]);
    }
  }

  // ---------- when two names share a key ----------

  /** The word boundaries of s, position by position. */
  function Cuts(prev: Option<char>, s: string): (cuts: seq<bool>)
    ensures |cuts| == |s|
    decreases s
  {
    if s == "" then [] else [WordCut(prev, s)] + Cuts(Some(s[0]), s[1..])
  }

  lemma {:induction false} SameKeyFrom(p: Option<char>, s: string, q: Option<char>, t: string)
    requires UnderscoreFree(s) && UnderscoreFree(t)
    requires Upper(s) == Upper(t)
    ensures Upper(Insert(WordCut, p, s)) == Upper(Insert(WordCut, q, t)) <==> Cuts(p, s) == Cuts(q, t)
    decreases s
  {
    if s != "" {
      assert Upper(s)[0] == UpperChar(s[0]) && Upper(t)[0] == UpperChar(t[0]);
      assert Upper(s)[1..] == Upper(s[1..]) && Upper(t)[1..] == Upper(t[1..]);
      assert s[0] in s && t[0] in t;
      assert (forall c | c in s[1..] :: c in s) && (forall c | c in t[1..] :: c in t);
      SameKeyFrom(Some(s[0]), s[1..], Some(t[0]), t[1..]);
      InsertUnfold(p, s);
      InsertUnfold(q, t);
      assert Cuts(p, s)[0] == WordCut(p, s) && Cuts(q, t)[0] == WordCut(q, t);
      assert Cuts(p, s)[1..] == Cuts(Some(s[0]), s[1..]) && Cuts(q, t)[1..] == Cuts(Some(t[0]), t[1..]);
    }
  }

  /** a and b are one letter, or the small and the capital form of one. */
  predicate SameLetter(a: char, b: char) {
    a == b
    || ('a' <= a <= 'z' && a as int - 'a' as int == b as int - 'A' as int)
    || ('a' <= b <= 'z' && b as int - 'a' as int == a as int - 'A' as int)
  }

  predicate SameButForCase(s: string, t: string) {
    |s| == |t| && forall i | 0 <= i < |s| :: SameLetter(s[i], t[i])
  }

  lemma {:induction false} UpperEqualExactly(s: string, t: string)
    ensures Upper(s) == Upper(t) <==> SameButForCase(s, t)
  {
    var u, v := Upper(s), Upper(t);
    UpperMeans(s);
    UpperMeans(t);
    if |s| == |t| {
      forall i | 0 <= i < |s| ensures u[i] == v[i] <==> SameLetter(s[i], t[i]) {
        assert if 'a' <= s[i] <= 'z' then u[i] as int - 'A' as int == s[i] as int - 'a' as int else u[i] == s[i];
        assert if 'a' <= t[i] <= 'z' then v[i] as int - 'A' as int == t[i] as int - 'a' as int else v[i] == t[i];
      }
    }
  }

  lemma {:induction false} CutsMean(s: string, i: nat)
    requires i <= |s|
    ensures var cuts := Cuts(if i == 0 then None else Some(s[i - 1]), s[i..]);
            |cuts| == |s| - i && forall k | 0 <= k < |cuts| :: cuts[k] == WordEndsBefore(s, i + k)
    decreases |s| - i
  {
    if i < |s| {
      var prev := if i == 0 then None else Some(s[i - 1]);
      CutsMean(s, i + 1);
      WordCutMeans(s, i);
      var rest := Cuts(Some(s[i]), s[i + 1..]);
      assert s[i..][1..] == s[i + 1..] && s[i..][0] == s[i];
      assert Cuts(prev, s[i..]) == [WordCut(prev, s[i..])] + rest;
      forall k | 0 <= k < |s| - i ensures Cuts(prev, s[i..])[k] == WordEndsBefore(s, i + k) {
        if k > 0 {
          assert rest[k - 1] == WordEndsBefore(s, i + 1 + (k - 1));
        }
      }
    }
  }

  /** Two names share an env key exactly when they agree but for case and their words end at the same
      places; so names that differ when case is ignored never do. */
  lemma {:induction false} SameKeyExactly(s: string, t: string)
    requires UnderscoreFree(s) && UnderscoreFree(t)
    ensures CamelToScreamingSnake(s) == CamelToScreamingSnake(t) <==>
            SameButForCase(s, t) && forall i | 0 <= i < |s| :: WordEndsBefore(s, i) == WordEndsBefore(t, i)
  {
    NothingLost(s);
    NothingLost(t);
    TwoPassesAreOneRule(s);
    TwoPassesAreOneRule(t);
    UpperEqualExactly(s, t);
    if Upper(s) == Upper(t) {
      SameKeyFrom(None, s, None, t);
      CutsMean(s, 0);
      CutsMean(t, 0);
      assert s[0..] == s && t[0..] == t;
      var c, d := Cuts(None, s), Cuts(None, t);
      forall i | 0 <= i < |s| ensures c[i] == WordEndsBefore(s, i) && d[i] == WordEndsBefore(t, i) {
        assert c[i] == WordEndsBefore(s, 0 + i) && d[i] == WordEndsBefore(t, 0 + i);
      }
      if forall i | 0 <= i < |s| :: WordEndsBefore(s, i) == WordEndsBefore(t, i) {
        assert forall i | 0 <= i < |s| :: c[i] == d[i];
      } else {
        var i :| 0 <= i < |s| && WordEndsBefore(s, i) != WordEndsBefore(t, i);
        assert c[i] != d[i];
      }
    }
  }

  // ---------- when the result is a fixed point ----------

  predicate DigitBeforeLower(prev: Option<char>, s: string)
    decreases s
  {
    s != "" &&
    ((prev.Some? && IsDigit(prev.value) && IsLower(s[0])) || DigitBeforeLower(Some(s[0]), s[1..]))
  }

  lemma {:induction false} DigitBeforeLowerExists(s: string)
    ensures DigitBeforeLower(None, s) <==> exists i :: 0 < i < |s| && IsDigit(s[i - 1]) && IsLower(s[i])
  {
    DigitBeforeLowerFrom(s, 0);
    assert s[0..] == s;
  }

  lemma {:induction false} DigitBeforeLowerFrom(s: string, k: nat)
    requires k <= |s|
    ensures DigitBeforeLower(if k == 0 then None else Some(s[k - 1]), s[k..]) <==>
            exists i :: 0 < i < |s| && k <= i && IsDigit(s[i - 1]) && IsLower(s[i])
    decreases |s| - k
  {
    if k < |s| {
      DigitBeforeLowerFrom(s, k + 1);
      assert s[k..][1..] == s[k + 1..];
    }
  }

  predicate CutFree(prev: Option<char>, s: string)
    decreases s
  {
    s == "" || (!WordCut(prev, s) && CutFree(Some(s[0]), s[1..]))
  }

  lemma {:induction false} InsertNothing(prev: Option<char>, s: string)
    ensures |Insert(WordCut, prev, s)| >= |s|
    ensures CutFree(prev, s) <==> |Insert(WordCut, prev, s)| == |s|
    ensures CutFree(prev, s) ==> Insert(WordCut, prev, s) == s
    decreases s
  {
    if s != "" {
      InsertNothing(Some(s[0]), s[1..]);
    }
  }

  lemma {:induction false} UpperTwice(s: string)
    ensures Upper(Upper(s)) == Upper(s)
    ensures forall c | c in Upper(s) :: !IsLower(c)
  {
    if s != "" {
      UpperTwice(s[1..]);
      assert Upper(s)[1..] == Upper(s[1..]);
    }
  }

  /** Without lower-case letters an acronym has no end. */
  lemma {:induction false} CutFreeCons(prev: Option<char>, c: char, s: string)
    requires !IsLower(c) && forall d | d in s :: !IsLower(d)
    ensures CutFree(prev, [c] + s) <==> !CaseCut(prev, [c]) && CutFree(Some(c), s)
  {
    var t := [c] + s;
    assert t[0] == c && t[1..] == s;
    assert |t| >= 2 ==> t[1] in s;
  }

  lemma {:induction false} CutsOfOutput(prev: Option<char>, s: string)
    ensures var out := Upper(Insert(WordCut, prev, s));
            CutFree(if prev.Some? then Some(UpperChar(prev.value)) else None, out) <==> !DigitBeforeLower(prev, s)
    decreases s
  {
    if s != "" {
      var q := if prev.Some? then Some(UpperChar(prev.value)) else None;
      var c, rest := UpperChar(s[0]), Upper(Insert(WordCut, Some(s[0]), s[1..]));
      CutsOfOutput(Some(s[0]), s[1..]);
      InsertUnfold(prev, s);
      UpperTwice(Insert(WordCut, Some(s[0]), s[1..]));
      CutFreeCons(q, c, rest);
      if WordCut(prev, s) {
        CutFreeCons(Some('_'), c, rest);
        CutFreeCons(q, '_', [c] + rest);
        assert "_" + [c] + rest == ['_'] + ([c] + rest);
      } else {
        assert "" + [c] + rest == [c] + rest;
      }
    }
  }

  /** The output is a fixed point exactly when no digit stands right before a lower-case letter. */
  lemma {:induction false} FixedPointExactly(s: string)
    ensures var out := CamelToScreamingSnake(s);
            CamelToScreamingSnake(out) == out <==>
            !exists i :: 0 < i < |s| && IsDigit(s[i - 1]) && IsLower(s[i])
  {
    var out := CamelToScreamingSnake(s);
    TwoPassesAreOneRule(s);
    TwoPassesAreOneRule(out);
    CutsOfOutput(None, s);
    InsertNothing(None, out);
    UpperTwice(Insert(WordCut, None, s));
    DigitBeforeLowerExists(s);
  }

  /** A name for which it is not: A1B becomes A1_B the second time. */
  lemma {:induction false} NotAFixedPoint()
    ensures CamelToScreamingSnake("a1b") != CamelToScreamingSnake(CamelToScreamingSnake("a1b"))
  {
    assert IsDigit("a1b"[1]) && IsLower("a1b"[2]);
    FixedPointExactly("a1b");
  }
}
