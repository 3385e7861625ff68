/** The part of ECMAScript regular expressions that camelToScreamingSnake uses: two capture groups of
    character classes, some with a greedy `+`, matched by backtracking, and replaced globally
    by "$1_$2". */
module Regex {
  import opened Wrappers

  datatype CharClass = UpperCase | LowerCase | LowerOrDigit {
    predicate Has(c: char) {
      match this
      case UpperCase => IsUpper(c)
      case LowerCase => IsLower(c)
      case LowerOrDigit => IsLower(c) || IsDigit(c)
    }
  }

  datatype Atom = One(cls: CharClass) | Plus(cls: CharClass)

  datatype Pattern = Pattern(first: seq<Atom>, second: seq<Atom>)

  predicate IsUpper(c: char) { 'A' <= c <= 'Z' }

  predicate IsLower(c: char) { 'a' <= c <= 'z' }

  predicate IsDigit(c: char) { '0' <= c <= '9' }

  /** The first match of `atoms` at the start of s in backtracking order, as the number of characters
      each atom takes. A greedy `+` tries another repetition before it goes on. */
  function MatchAtoms(atoms: seq<Atom>, s: string): (m: Option<seq<nat>>)
    ensures m.Some? ==> |m.value| == |atoms| && |atoms| <= Total(m.value) <= |s|
    ensures m.Some? ==> forall i | 0 <= i < |m.value| :: m.value[i] > 0
    decreases |atoms|, |s|
  {
    if atoms == [] then Some([])
    else if s == "" || !atoms[0].cls.Has(s[0]) then None
    else
      var more := if atoms[0].Plus? then MatchAtoms(atoms, s[1..]) else None;
      if more.Some? then
        assert more.value == [more.value[0]] + more.value[1..];
        Some([more.value[0] + 1] + more.value[1..])
      else
        var rest :- MatchAtoms(atoms[1..], s[1..]);
        Some([1] + rest)
  }

  /** A class without `+` takes one character or fails. */
  lemma {:induction false} MatchOne(cls: CharClass, rest: seq<Atom>, s: string)
    ensures MatchAtoms([One(cls)] + rest, s) ==
            if s == "" || !cls.Has(s[0]) || MatchAtoms(rest, s[1..]).None? then None
            else Some([1] + MatchAtoms(rest, s[1..]).value)
  {
    assert ([One(cls)] + rest)[1..] == rest;
  }

  function Total(lengths: seq<nat>): nat {
    if lengths == [] then 0 else lengths[0] + Total(lengths[1..])
  }

  lemma {:induction false} TotalOfSplit(lengths: seq<nat>, k: nat)
    requires k <= |lengths|
    ensures Total(lengths) == Total(lengths[..k]) + Total(lengths[k..])
  {
    if k > 0 {
      TotalOfSplit(lengths[1..], k - 1);
      assert lengths[..k][1..] == lengths[1..][..k - 1];
      assert lengths[k..] == lengths[1..][k - 1..];
    } else {
      assert lengths[..0] == [];
      assert lengths[0..] == lengths;
    }
  }

  /** Where the first group and the whole match end, for a match at the start of s. */
  function MatchHere(p: Pattern, s: string): (m: Option<(nat, nat)>)
    ensures m.Some? ==> m.value.0 <= m.value.1 <= |s| && |p.first + p.second| <= m.value.1
  {
    var lengths :- MatchAtoms(p.first + p.second, s);
    TotalOfSplit(lengths, |p.first|);
    Some((Total(lengths[..|p.first|]), Total(lengths)))
  }

  /** s.replace(/(first)(second)/g, "$1_$2"): leftmost match, then on from where it ended. */
  function ReplaceAll(p: Pattern, s: string): string
    requires p.first + p.second != []
  {
    if s == "" then ""
    else
      match MatchHere(p, s)
      case None => [s[0]] + ReplaceAll(p, s[1..])
      case Some((mid, end)) => s[..mid] + "_" + s[mid..end] + ReplaceAll(p, s[end..])
  }
}
