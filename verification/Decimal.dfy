/** Decimal text: Go's strconv.ParseInt(s, 10, 64) and the printing of a number. */
module Decimal {
  import opened Wrappers

  const TWO63: int := 0x8000_0000_0000_0000
  const TWO64: int := 0x1_0000_0000_0000_0000

  type Int64 = x: int | -0x8000_0000_0000_0000 <= x < 0x8000_0000_0000_0000

  /** The int64 that two's-complement arithmetic leaves of an exact result. */
  function Wrap(x: int): (w: Int64)
    ensures (x - w) % TWO64 == 0
    ensures -TWO63 <= x < TWO63 ==> w == x
  {
    (x + TWO63) % TWO64 - TWO63
  }

  predicate IsDigit(c: char) {
    '0' <= c <= '9'
  }

  function ParseDigits(s: string, acc: nat): Option<nat> {
    if s == "" then Some(acc)
    else if IsDigit(s[0]) then ParseDigits(s[1..], acc * 10 + (s[0] as int - '0' as int))
    else None
  }

  /** None stands for both of ParseInt's errors, syntax and range. */
  function ParseInt(s: string): Option<Int64> {
    var negative := s != "" && s[0] == '-';
    var digits := if s != "" && (s[0] == '+' || s[0] == '-') then s[1..] else s;
    if digits == "" then None
    else
      var magnitude :- ParseDigits(digits, 0);
      var n: int := magnitude;
      if negative then (if n > TWO63 then None else Some(-n))
      else if n >= TWO63 then None else Some(n)
  }

  function FormatNat(n: nat): (s: string)
    ensures s != "" && forall c | c in s :: IsDigit(c)
  {
    var last := [('0' as int + n % 10) as char];
    if n < 10 then last else FormatNat(n / 10) + last
  }

  function FormatInt(n: int): string {
    if n < 0 then "-" + FormatNat(-n) else FormatNat(n)
  }

  lemma {:induction false} ParseDigitsSnoc(s: string, c: char, acc: nat)
    requires IsDigit(c)
    ensures ParseDigits(s + [c], acc) ==
            match ParseDigits(s, acc)
            case None => None
            case Some(v) => Some(v * 10 + (c as int - '0' as int))
  {
    if s == "" {
      assert s + [c] == [c];
      assert [c][1..] == "";
    } else if IsDigit(s[0]) {
      assert (s + [c])[1..] == s[1..] + [c];
      ParseDigitsSnoc(s[1..], c, acc * 10 + (s[0] as int - '0' as int));
    }
  }

  lemma {:induction false} ParseFormatNat(n: nat)
    ensures ParseDigits(FormatNat(n), 0) == Some(n)
  {
    var c := ('0' as int + n % 10) as char;
    if n < 10 {
      ParseDigitsSnoc("", c, 0);
      assert "" + [c] == FormatNat(n);
    } else {
      ParseFormatNat(n / 10);
      ParseDigitsSnoc(FormatNat(n / 10), c, 0);
    }
  }

  /** Every int64 is read back from its decimal text. */
  lemma {:induction false} ParseFormatInt(n: Int64)
    ensures ParseInt(FormatInt(n)) == Some(n)
  {
    var abs: int := if n < 0 then -(n as int) else n;
    ParseFormatNat(abs);
    var s := FormatNat(abs);
    assert s[0] in s;
    assert ("-" + s)[1..] == s;
  }

  /** The number that decimal digits stand for. */
  function Positional(digits: string): int {
    if digits == "" then 0
    else 10 * Positional(digits[..|digits| - 1]) + (digits[|digits| - 1] as int - '0' as int)
  }

  ghost predicate AllDigits(s: string) {
    forall i | 0 <= i < |s| :: '0' <= s[i] <= '9'
  }

  lemma {:induction false} ParseDigitsExactly(s: string)
    ensures ParseDigits(s, 0).Some? <==> AllDigits(s)
    ensures AllDigits(s) ==> Positional(s) >= 0 && ParseDigits(s, 0) == Some(Positional(s))
  {
    if s != "" {
      var init, c := s[..|s| - 1], s[|s| - 1];
      assert s == init + [c];
      ParseDigitsExactly(init);
      if '0' <= c <= '9' {
        ParseDigitsSnoc(init, c, 0);
      } else {
        ParseDigitsRefuses(init, c, 0);
      }
    }
  }

  lemma {:induction false} ParseDigitsRefuses(s: string, c: char, acc: nat)
    requires !('0' <= c <= '9')
    ensures ParseDigits(s + [c], acc).None?
  {
    if s != "" && IsDigit(s[0]) {
      assert (s + [c])[1..] == s[1..] + [c];
      ParseDigitsRefuses(s[1..], c, acc * 10 + (s[0] as int - '0' as int));
    }
  }

  /** What parses, and as what: an optional sign, at least one digit and nothing else, within the bounds
      of int64. */
  lemma {:induction false} ParseIntExactly(s: string)
    ensures var signed := s != "" && (s[0] == '+' || s[0] == '-');
            var digits := if signed then s[1..] else s;
            var n := if s != "" && s[0] == '-' then -Positional(digits) else Positional(digits);
            if digits != "" && AllDigits(digits) && -0x8000_0000_0000_0000 <= n < 0x8000_0000_0000_0000
            then ParseInt(s) == Some(n) else ParseInt(s) == None
  {
    ParseDigitsExactly(if s != "" && (s[0] == '+' || s[0] == '-') then s[1..] else s);
  }

  lemma {:induction false} ParsedAreDigits(s: string, acc: nat)
    requires ParseDigits(s, acc).Some?
    ensures forall c | c in s :: IsDigit(c)
  {
    if s != "" {
      ParsedAreDigits(s[1..], acc * 10 + (s[0] as int - '0' as int));
    }
  }

  /** A text that parses as an integer has no full stop in it. */
  lemma {:induction false} ParsedHasNoDot(s: string)
    requires ParseInt(s).Some?
    ensures '.' !in s
  {
    var digits := if s[0] == '+' || s[0] == '-' then s[1..] else s;
    ParsedAreDigits(digits, 0);
    assert s == digits || s == [s[0]] + digits;
  }
}
