/** Base-16 as Go's encoding/hex and go-ethereum's Hash.Hex use it: the alphabet of section 8 of
    RFC 4648 written in lower case, read in either case. */
module Hex {
  import opened Wrappers

  type Byte = x: int | 0 <= x < 256

  function Digit(n: int): char
    requires 0 <= n < 16
  {
    "0123456789abcdef"[n]
  }

  function Value(c: char): (v: Option<int>)
    ensures v.Some? ==> 0 <= v.value < 16
  {
    if '0' <= c <= '9' then Some(c as int - '0' as int)
    else if 'a' <= c <= 'f' then Some(c as int - 'a' as int + 10)
    else if 'A' <= c <= 'F' then Some(c as int - 'A' as int + 10)
    else None
  }

  function Encode(bytes: seq<Byte>): (s: string)
    ensures |s| == 2 * |bytes|
  {
    if bytes == [] then ""
    else [Digit(bytes[0] / 16), Digit(bytes[0] % 16)] + Encode(bytes[1..])
  }

  /** None stands for the error of hex.DecodeString: an odd length or a character that is no digit. */
  function Decode(s: string): Option<seq<Byte>> {
    if s == "" then Some([])
    else if |s| == 1 then None
    else
      var high :- Value(s[0]);
      var low :- Value(s[1]);
      var rest :- Decode(s[2..]);
      Some([high * 16 + low] + rest)
  }

  /** Two digits a byte, the high one first, from this alphabet. */
  lemma {:induction false} EncodeDigits(bytes: seq<Byte>)
    ensures forall i | 0 <= i < |bytes| ::
              && Encode(bytes)[2 * i] == "0123456789abcdef"[bytes[i] / 16]
              && Encode(bytes)[2 * i + 1] == "0123456789abcdef"[bytes[i] % 16]
  {
    if bytes != [] {
      EncodeDigits(bytes[1..]);
      var code, rest := Encode(bytes), Encode(bytes[1..]);
      forall i | 0 <= i < |bytes|
        ensures code[2 * i] == "0123456789abcdef"[bytes[i] / 16]
        ensures code[2 * i + 1] == "0123456789abcdef"[bytes[i] % 16]
      {
        if i > 0 {
          assert code[2 * i] == rest[2 * (i - 1)] && code[2 * i + 1] == rest[2 * (i - 1) + 1];
        }
      }
    }
  }

  function LowerChar(c: char): char {
    if 'A' <= c <= 'Z' then (c as int + 32) as char else c
  }

  function Lower(s: string): (t: string)
    ensures |t| == |s|
    ensures forall i | 0 <= i < |s| :: t[i] == LowerChar(s[i])
  {
    seq(|s|, i requires 0 <= i < |s| => LowerChar(s[i]))
  }

  /** The n-th capital becomes the n-th small letter; everything else stays. */
  lemma {:induction false} LowerMeans(s: string)
    ensures forall i | 0 <= i < |s| ::
              if 'A' <= s[i] <= 'Z' then Lower(s)[i] as int - 'a' as int == s[i] as int - 'A' as int
              else Lower(s)[i] == s[i]
  {
    assert forall i | 0 <= i < |s| :: Lower(s)[i] == LowerChar(s[i]);
  }

  lemma {:induction false} ValueExactly(c: char, n: int)
    requires 0 <= n < 16
    ensures Value(c) == Some(n) <==> LowerChar(c) == Digit(n)
  {
  }

  lemma {:induction false} PairsEqual(a: char, b: char, s: string, c: char, d: char, t: string)
    ensures [a, b] + s == [c, d] + t <==> a == c && b == d && s == t
  {
    var l, r := [a, b] + s, [c, d] + t;
    assert l[0] == a && l[1] == b && l[2..] == s && r[0] == c && r[1] == d && r[2..] == t;
  }

  /** Decoding inverts encoding and identifies nothing but letter case: the texts that decode to
      `bytes` are exactly the case variants of Encode(bytes). */
  lemma {:induction false} DecodeExactly(s: string, bytes: seq<Byte>)
    ensures Decode(s) == Some(bytes) <==> Lower(s) == Encode(bytes)
  {
    if |s| >= 2 && bytes != [] {
      var high, low := bytes[0] / 16, bytes[0] % 16;
      DecodeExactly(s[2..], bytes[1..]);
      ValueExactly(s[0], high);
      ValueExactly(s[1], low);
      assert Lower(s) == [LowerChar(s[0]), LowerChar(s[1])] + Lower(s[2..]);
      PairsEqual(LowerChar(s[0]), LowerChar(s[1]), Lower(s[2..]), Digit(high), Digit(low), Encode(bytes[1..]));
      DecodeStep(s, bytes);
    }
  }

  lemma {:induction false} DecodeStep(s: string, bytes: seq<Byte>)
    requires |s| >= 2 && bytes != []
    ensures Decode(s) == Some(bytes) <==>
            Value(s[0]) == Some(bytes[0] / 16) && Value(s[1]) == Some(bytes[0] % 16) &&
            Decode(s[2..]) == Some(bytes[1..])
  {
    if Value(s[0]).Some? && Value(s[1]).Some? && Decode(s[2..]).Some? {
      var head := Value(s[0]).value * 16 + Value(s[1]).value;
      var tail := Decode(s[2..]).value;
      assert Decode(s) == Some([head] + tail);
      assert ([head] + tail)[0] == head && ([head] + tail)[1..] == tail;
      assert bytes == [bytes[0]] + bytes[1..];
    }
  }

  lemma {:induction false} EncodeIsLower(bytes: seq<Byte>)
    ensures Lower(Encode(bytes)) == Encode(bytes)
  {
    if bytes != [] {
      EncodeIsLower(bytes[1..]);
      var code := Encode(bytes);
      forall i | 0 <= i < |code| ensures LowerChar(code[i]) == code[i] {
        if i >= 2 {
          assert code[i] == Encode(bytes[1..])[i - 2];
          assert Lower(Encode(bytes[1..]))[i - 2] == Encode(bytes[1..])[i - 2];
        }
      }
    }
  }

  lemma {:induction false} DecodeEncode(bytes: seq<Byte>)
    ensures Decode(Encode(bytes)) == Some(bytes)
  {
    EncodeIsLower(bytes);
    DecodeExactly(Encode(bytes), bytes);
  }

  lemma {:induction false} EncodeInjective(a: seq<Byte>, b: seq<Byte>)
    requires Encode(a) == Encode(b)
    ensures a == b
  {
    DecodeEncode(a);
    DecodeEncode(b);
  }
}
