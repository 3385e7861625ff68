/** Searching a text for a delimiter. */
module Text {
  import opened Wrappers

  predicate OccursAt(d: string, s: string, i: int) {
    0 <= i && i + |d| <= |s| && s[i..i + |d|] == d
  }

  ghost predicate Occurs(d: string, s: string) {
    exists i :: OccursAt(d, s, i)
  }

  /** s around the first occurrence of d. */
  function Split(d: string, s: string): (r: Option<(string, string)>)
    requires d != ""
    ensures r.Some? ==> s == r.value.0 + d + r.value.1
  {
    if d <= s then Some(("", s[|d|..]))
    else if s == "" then None
    else
      var (before, after) :- Split(d, s[1..]);
      Some(([s[0]] + before, after))
  }

  lemma {:induction false} PrefixOfSum(d: string, x: string, z: string)
    requires |d| <= |x|
    ensures d <= x + z <==> d <= x
  {
    assert (x + z)[..|d|] == x[..|d|];
  }

  lemma {:induction false} OccursAtTail(d: string, s: string, i: int)
    requires 1 <= i && s != ""
    ensures OccursAt(d, s, i) <==> OccursAt(d, s[1..], i - 1)
  {
    if i + |d| <= |s| {
      assert s[1..][i - 1..i - 1 + |d|] == s[i..i + |d|];
    }
  }

  lemma {:induction false} OccursTail(d: string, s: string)
    requires s != "" && !(d <= s)
    ensures Occurs(d, s) <==> Occurs(d, s[1..])
  {
    if Occurs(d, s) {
      var i :| OccursAt(d, s, i);
      OccursAtTail(d, s, i);
    }
    if Occurs(d, s[1..]) {
      var i :| OccursAt(d, s[1..], i);
      OccursAtTail(d, s, i + 1);
    }
  }

  /** A split is found exactly if the delimiter occurs, and never inside the text before it. */
  lemma {:induction false} SplitFindsFirst(d: string, s: string)
    requires d != ""
    ensures Split(d, s).Some? <==> Occurs(d, s)
    ensures Split(d, s).Some? ==> !Occurs(d, Split(d, s).value.0)
  {
    if d <= s {
      assert OccursAt(d, s, 0);
    } else if s == "" {
    } else {
      SplitFindsFirst(d, s[1..]);
      OccursTail(d, s);
      if Split(d, s[1..]).Some? {
        var (before, after) := Split(d, s[1..]).value;
        AbsentBefore(d, s, before, after);
      }
    }
  }

  lemma {:induction false} AbsentBefore(d: string, s: string, before: string, after: string)
    requires d != "" && s != "" && !(d <= s) && s[1..] == before + d + after && !Occurs(d, before)
    ensures !Occurs(d, [s[0]] + before)
  {
    var t := [s[0]] + before;
    assert t[1..] == before;
    assert s == t + (d + after);
    if |d| <= |t| {
      PrefixOfSum(d, t, d + after);
    }
    OccursTail(d, t);
  }

  lemma {:induction false} OccursInSuffix(d: string, s: string, k: nat)
    requires k <= |s| && Occurs(d, s[k..])
    ensures Occurs(d, s)
  {
    var i :| OccursAt(d, s[k..], i);
    assert s[k + i..k + i + |d|] == s[k..][i..i + |d|];
    assert OccursAt(d, s, k + i);
  }

  /** The text that Split finds before d, put behind u. */
  function Put(u: string, split: Option<(string, string)>): Option<(string, string)> {
    match split
    case None => None
    case Some((before, after)) => Some((u + before, after))
  }

  lemma {:induction false} PutTwice(u: string, v: string, split: Option<(string, string)>)
    ensures Put(u, Put(v, split)) == Put(u + v, split)
    ensures Put("", split) == split
  {
    if split.Some? {
      assert u + (v + split.value.0) == u + v + split.value.0;
      assert "" + split.value.0 == split.value.0;
    }
  }

  /** Text without the delimiter's first character is passed over. */
  lemma {:induction false} SplitSkip(d: string, u: string, v: string)
    requires d != "" && d[0] !in u
    ensures Split(d, u + v) == Put(u, Split(d, v))
  {
    if u == "" {
      assert u + v == v;
      PutTwice("", "", Split(d, v));
    } else {
      var s := u + v;
      assert s[0] == u[0] && u[0] in u;
      assert !(d <= s);
      assert s[1..] == u[1..] + v;
      assert forall c | c in u[1..] :: c in u;
      SplitSkip(d, u[1..], v);
      PutTwice([u[0]], u[1..], Split(d, v));
      assert u == [u[0]] + u[1..];
    }
  }

  /** So is text without the delimiter's first two characters, unless the second comes right behind it. */
  lemma {:induction false} SplitPassing(d: string, u: string, v: string)
    requires |d| >= 2 && !Occurs(d[..2], u) && (v == "" || v[0] != d[1])
    ensures Split(d, u + v) == Put(u, Split(d, v))
  {
    if u == "" {
      assert u + v == v;
      PutTwice("", "", Split(d, v));
    } else {
      var s := u + v;
      assert s == [u[0]] + (u[1..] + v) && s[1..] == u[1..] + v;
      assert |u| >= 2 ==> s[..2] == u[..2] == u[0..0 + 2] && !OccursAt(d[..2], u, 0);
      assert |s| >= 2 ==> s[..2] != d[..2];
      assert |s| >= |d| ==> s[..|d|][..2] == s[..2];
      if Occurs(d[..2], u[1..]) {
        OccursInSuffix(d[..2], u, 1);
      }
      SplitPassing(d, u[1..], v);
      PutTwice([u[0]], u[1..], Split(d, v));
      assert u == [u[0]] + u[1..];
    }
  }

  /** A text holds the delimiter exactly if the part behind a harmless beginning does. */
  lemma {:induction false} OccursBehind(d: string, u: string, v: string)
    requires d != "" && d[0] !in u
    ensures Occurs(d, u + v) <==> Occurs(d, v)
  {
    SplitSkip(d, u, v);
    SplitFindsFirst(d, u + v);
    SplitFindsFirst(d, v);
  }

  lemma {:induction false} SplitAtOnce(d: string, v: string)
    requires d != ""
    ensures Split(d, d + v) == Some(("", v))
  {
    assert (d + v)[..|d|] == d && (d + v)[|d|..] == v;
  }

  lemma {:induction false} SplitAfter(d: string, u: string, v: string)
    requires d != "" && d[0] !in u
    ensures Split(d, u + d + v) == Some((u, v))
  {
    var w := d + v;
    SplitSkip(d, u, w);
    SplitAtOnce(d, v);
    assert Put(u, Some(("", v))) == Some((u, v)) by {
      assert u + "" == u;
    }
    assert u + d + v == u + w;
  }

  lemma {:induction false} AbsentBehind(d: string, u: string, v: string)
    requires !Occurs(d, u + v)
    ensures !Occurs(d, v)
  {
    assert (u + v)[|u|..] == v;
    if Occurs(d, v) {
      OccursInSuffix(d, u + v, |u|);
    }
  }

  /** The delimiter begins with a character it does not repeat, so a first occurrence cannot start
      inside x and end inside the delimiter that follows x. */
  lemma {:induction false} SplitAtEnd(d: string, x: string, y: string)
    requires d != "" && d[0] !in d[1..]
    ensures Split(d, x + d + y) == Some((x, y)) <==> !Occurs(d, x)
  {
    if x == "" {
      assert x + d + y == d + y;
      assert (d + y)[..|d|] == d && (d + y)[|d|..] == y;
    } else {
      var s := x + d + y;
      assert s[0] == x[0] && s[1..] == x[1..] + d + y;
      SplitAtEnd(d, x[1..], y);
      if d <= s {
        NoOverlap(d, x, y);
        assert x[..|d|] == d;
        assert OccursAt(d, x, 0);
      } else {
        if |d| <= |x| {
          assert s == x + (d + y);
          PrefixOfSum(d, x, d + y);
        }
        OccursTail(d, x);
        if Split(d, s[1..]).Some? {
          var before := Split(d, s[1..]).value.0;
          assert [s[0]] + before == x <==> before == x[1..] by {
            assert ([s[0]] + before)[1..] == before;
          }
        }
      }
    }
  }

  lemma {:induction false} NoOverlap(d: string, x: string, y: string)
    requires d != "" && d[0] !in d[1..]
    requires x != "" && d <= x + d + y
    ensures |d| <= |x| && x[..|d|] == d
  {
    assert x + d + y == x + (d + y);
    assert (x + (d + y))[|x|] == d[0];
    assert forall i | 1 <= i < |d| :: d[i] == d[1..][i - 1] && d[i] in d[1..];
    assert |d| <= |x|;
    PrefixOfSum(d, x, d + y);
  }
}
