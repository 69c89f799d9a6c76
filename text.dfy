/**
 * The Python string operations the pipeline relies on: str.isspace,
 * str.strip(), str.split('\n'), and the recurring comprehension
 * [s.strip() for s in xs if s.strip()].
 */
module Text {

  /** The code points for which Python's str.isspace() holds: those whose
      bidirectional class is WS, B or S, or whose general category is Zs. */
  const SpaceCodePoints: set<int> := {
    0x0009, 0x000A, 0x000B, 0x000C, 0x000D, 0x001C, 0x001D, 0x001E, 0x001F, 0x0020, 0x0085,
    0x00A0, 0x1680, 0x2000, 0x2001, 0x2002, 0x2003, 0x2004, 0x2005, 0x2006, 0x2007, 0x2008,
    0x2009, 0x200A, 0x2028, 0x2029, 0x202F, 0x205F, 0x3000
  }

  /** str.isspace() for one character. */
  predicate IsSpace(c: char)
  {
    c as int in SpaceCodePoints
  }

  predicate AllSpace(s: string)
  {
    forall i :: 0 <= i < |s| ==> IsSpace(s[i])
  }

  /** No whitespace at either end: what str.strip() returns. */
  predicate IsStripped(s: string)
  {
    s == [] || (!IsSpace(s[0]) && !IsSpace(s[|s| - 1]))
  }

  /** str.rstrip(): the longest prefix that does not end with whitespace. */
  function TrimEnd(s: string): string
  {
    if |s| > 0 && IsSpace(s[|s| - 1]) then TrimEnd(s[..|s| - 1]) else s
  }

  /** TrimEnd keeps a prefix, drops only whitespace, and stops at the last
      character that is not whitespace. */
  lemma {:induction false} TrimEndSpec(s: string)
    ensures var r := TrimEnd(s);
      && |r| <= |s| && r == s[..|r|]
      && AllSpace(s[|r|..])
      && (r == [] || !IsSpace(r[|r| - 1]))
  {
    if |s| > 0 && IsSpace(s[|s| - 1]) {
      var init := s[..|s| - 1];
      TrimEndSpec(init);
      var r := TrimEnd(init);
      assert init[..|r|] == s[..|r|];
      forall i | 0 <= i < |s[|r|..]|
        ensures IsSpace(s[|r|..][i])
      {
        if |r| + i < |init| {
          assert s[|r|..][i] == init[|r|..][i];
        }
      }
    }
  }

  /** str.strip() with no argument: drop the leading whitespace, then
      whatever TrimEnd drops. */
  function Strip(s: string): string
  {
    if |s| > 0 && IsSpace(s[0]) then Strip(s[1..]) else TrimEnd(s)
  }

  /** The result of str.strip() has no whitespace at either end, is empty
      exactly when s is all whitespace, leaves an already stripped string
      as it is, and holds no character that s does not. */
  lemma {:induction false} StripSpec(s: string)
    ensures var r := Strip(s);
      && IsStripped(r)
      && (r == [] <==> AllSpace(s))
      && (IsStripped(s) ==> r == s)
      && (forall c :: c in r ==> c in s)
  {
    var r := Strip(s);
    if |s| > 0 && IsSpace(s[0]) {
      StripSpec(s[1..]);
      assert forall c :: c in s[1..] ==> c in s;
      if AllSpace(s[1..]) {
        forall i | 0 <= i < |s|
          ensures IsSpace(s[i])
        {
          if i > 0 {
            assert s[i] == s[1..][i - 1];
          }
        }
      }
    } else {
      TrimEndSpec(s);
      assert r == s[..|r|];
      assert r != [] ==> r[0] == s[0];
      assert r == [] ==> s[|r|..] == s;
      assert forall c :: c in r ==> c in s;
    }
  }

  /** Together with IsStripped(Strip(s)), this pins str.strip() down: the
      result is the infix of s left once whitespace is cut from both ends. */
  lemma {:induction false} StripIsInfix(s: string) returns (i: nat)
    ensures var r := Strip(s);
      && i + |r| <= |s| && r == s[i..i + |r|]
      && AllSpace(s[..i]) && AllSpace(s[i + |r|..])
  {
    var r := Strip(s);
    if |s| > 0 && IsSpace(s[0]) {
      StripSpec(s[1..]);
      var j := StripIsInfix(s[1..]);
      i := j + 1;
      assert s[1..][j..j + |r|] == s[i..i + |r|];
      assert s[1..][j + |r|..] == s[i + |r|..];
      assert forall k :: 0 < k < i ==> s[..i][k] == s[1..][..j][k - 1];
    } else {
      i := 0;
      TrimEndSpec(s);
    }
  }

  /** s.count(c) */
  function CountChar(s: string, c: char): nat
  {
    if s == [] then 0 else (if s[0] == c then 1 else 0) + CountChar(s[1..], c)
  }

  lemma {:induction false} CountCharAppend(a: string, b: string, c: char)
    ensures CountChar(a + b, c) == CountChar(a, c) + CountChar(b, c)
  {
    if a == [] {
      assert a + b == b;
    } else {
      assert (a + b)[0] == a[0] && (a + b)[1..] == a[1..] + b;
      CountCharAppend(a[1..], b, c);
    }
  }

  /** s.split('\n'): the pieces between line feeds, including the empty
      piece after a final line feed. */
  function SplitLines(s: string): (pieces: seq<string>)
    ensures |pieces| == CountChar(s, '\n') + 1
    ensures forall k :: 0 <= k < |pieces| ==> '\n' !in pieces[k]
  {
    if s == [] then [""]
    else
      var rest := SplitLines(s[1..]);
      if s[0] == '\n' then [""] + rest
      else [[s[0]] + rest[0]] + rest[1..]
  }

  /** '\n'.join(pieces): the inverse of SplitLines. */
  function JoinLines(pieces: seq<string>): string
  {
    if pieces == [] then ""
    else if |pieces| == 1 then pieces[0]
    else pieces[0] + "\n" + JoinLines(pieces[1..])
  }

  lemma {:induction false} SplitWithoutNewline(p: string)
    requires '\n' !in p
    ensures SplitLines(p) == [p]
  {
    if p != [] {
      SplitWithoutNewline(p[1..]);
      assert [p[0]] + p[1..] == p;
    }
  }

  lemma {:induction false} SplitAtFirstNewline(p: string, rest: string)
    requires '\n' !in p
    ensures SplitLines(p + "\n" + rest) == [p] + SplitLines(rest)
  {
    var s := p + "\n" + rest;
    if p == [] {
      assert s[0] == '\n' && s[1..] == rest;
    } else {
      assert s[0] == p[0];
      assert s[1..] == p[1..] + "\n" + rest;
      SplitAtFirstNewline(p[1..], rest);
      assert [p[0]] + p[1..] == p;
    }
  }

  /** Splitting a join gives back the pieces, as long as none holds a line feed. */
  lemma {:induction false} SplitJoin(pieces: seq<string>)
    requires |pieces| >= 1
    requires forall k :: 0 <= k < |pieces| ==> '\n' !in pieces[k]
    ensures SplitLines(JoinLines(pieces)) == pieces
  {
    if |pieces| == 1 {
      SplitWithoutNewline(pieces[0]);
    } else {
      SplitJoin(pieces[1..]);
      SplitAtFirstNewline(pieces[0], JoinLines(pieces[1..]));
      assert [pieces[0]] + pieces[1..] == pieces;
    }
  }

  /** Joining the pieces of a split gives back the text. */
  lemma {:induction false} JoinSplit(s: string)
    ensures JoinLines(SplitLines(s)) == s
  {
    if s != [] {
      JoinSplit(s[1..]);
      var rest := SplitLines(s[1..]);
      if s[0] == '\n' {
        assert ([""] + rest)[1..] == rest;
        assert s == "\n" + s[1..];
      } else {
        var pieces := [[s[0]] + rest[0]] + rest[1..];
        assert pieces[1..] == rest[1..];
        if |rest| > 1 {
          assert JoinLines(rest) == rest[0] + "\n" + JoinLines(rest[1..]);
        }
        assert s == [s[0]] + s[1..];
      }
    }
  }

  /** Every element is non-empty and has no whitespace at either end. */
  predicate AllClean(xs: seq<string>)
  {
    forall k :: 0 <= k < |xs| ==> xs[k] != "" && IsStripped(xs[k])
  }

  lemma AllCleanAppend(a: seq<string>, b: seq<string>)
    requires AllClean(a) && AllClean(b)
    ensures AllClean(a + b)
  {
    forall k | 0 <= k < |a + b|
      ensures (a + b)[k] != "" && IsStripped((a + b)[k])
    {
      if k >= |a| {
        assert (a + b)[k] == b[k - |a|];
      }
    }
  }

  /** [s.strip() for s in xs if s.strip()] */
  function StripNonBlank(xs: seq<string>): (ys: seq<string>)
    ensures |ys| <= |xs|
  {
    if xs == [] then []
    else (if Strip(xs[0]) != "" then [Strip(xs[0])] else []) + StripNonBlank(xs[1..])
  }

  /** Every element it keeps is non-empty and stripped. */
  lemma {:induction false} StripNonBlankClean(xs: seq<string>)
    ensures AllClean(StripNonBlank(xs))
  {
    if xs != [] {
      StripSpec(xs[0]);
      StripNonBlankClean(xs[1..]);
      AllCleanAppend(if Strip(xs[0]) != "" then [Strip(xs[0])] else [], StripNonBlank(xs[1..]));
    }
  }

  /** [s.strip() for s in xs] */
  function StripAll(xs: seq<string>): (ys: seq<string>)
    ensures |ys| == |xs| && forall k :: 0 <= k < |xs| ==> ys[k] == Strip(xs[k])
  {
    if xs == [] then [] else [Strip(xs[0])] + StripAll(xs[1..])
  }

  /** [s for s in xs if s] */
  function NonEmpty(xs: seq<string>): seq<string>
  {
    if xs == [] then []
    else (if xs[0] != "" then [xs[0]] else []) + NonEmpty(xs[1..])
  }

  /** Testing `s.strip()` and keeping `s.strip()` is the same as stripping
      every element and then dropping the empty results. */
  lemma {:induction false} StripNonBlankIsNonEmptyStripped(xs: seq<string>)
    ensures StripNonBlank(xs) == NonEmpty(StripAll(xs))
  {
    if xs != [] {
      StripNonBlankIsNonEmptyStripped(xs[1..]);
      assert StripAll(xs)[1..] == StripAll(xs[1..]);
    }
  }

  /** What [s.strip() for s in xs if s.strip()] holds: the non-blank
      stripped forms of the elements of xs, and nothing else. */
  lemma {:induction false} StripNonBlankMembers(xs: seq<string>, t: string)
    ensures t in StripNonBlank(xs) <==> t != "" && exists k :: 0 <= k < |xs| && Strip(xs[k]) == t
  {
    if xs != [] {
      StripNonBlankMembers(xs[1..], t);
      var head := if Strip(xs[0]) != "" then [Strip(xs[0])] else [];
      assert StripNonBlank(xs) == head + StripNonBlank(xs[1..]);
      if exists k :: 0 <= k < |xs[1..]| && Strip(xs[1..][k]) == t {
        var k :| 0 <= k < |xs[1..]| && Strip(xs[1..][k]) == t;
        assert xs[k + 1] == xs[1..][k];
      }
      if exists k :: 0 <= k < |xs| && Strip(xs[k]) == t {
        var k :| 0 <= k < |xs| && Strip(xs[k]) == t;
        if k > 0 {
          assert xs[1..][k - 1] == xs[k];
        }
      }
    }
  }

  /** A list whose elements are already stripped and non-blank is left as it is. */
  lemma {:induction false} StripNonBlankOfClean(xs: seq<string>)
    requires AllClean(xs)
    ensures StripNonBlank(xs) == xs
  {
    if xs != [] {
      StripNonBlankOfClean(xs[1..]);
      assert [xs[0]] + xs[1..] == xs;
    }
  }

  /** Cleaning is idempotent. */
  lemma StripNonBlankIdempotent(xs: seq<string>)
    ensures StripNonBlank(StripNonBlank(xs)) == StripNonBlank(xs)
  {
    StripNonBlankClean(xs);
    StripNonBlankOfClean(StripNonBlank(xs));
  }

  /** Cleaning works element by element, so it distributes over concatenation. */
  lemma {:induction false} StripNonBlankAppend(a: seq<string>, b: seq<string>)
    ensures StripNonBlank(a + b) == StripNonBlank(a) + StripNonBlank(b)
  {
    if a != [] {
      assert (a + b)[0] == a[0] && (a + b)[1..] == a[1..] + b;
      StripNonBlankAppend(a[1..], b);
    } else {
      assert a + b == b;
    }
  }
}
