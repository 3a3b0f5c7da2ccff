/** Models of the Python `str` operations the chat core is built from:
    `lower`, `strip`, the substring test `in`, `split`, `join` and `replace`.
    Strings are sequences of characters; nothing here depends on an encoding. */
module Text {

  /** Python's `str.isspace` for one character: exactly the characters that
      `str.strip()` with no argument removes. */
  predicate IsSpace(c: char)
  {
    || c == ' '
    || '\t' <= c <= '\r'
    || '\U{1C}' <= c <= '\U{1F}'
    || c == '\U{85}' || c == '\U{A0}' || c == '\U{1680}'
    || '\U{2000}' <= c <= '\U{200A}'
    || c == '\U{2028}' || c == '\U{2029}' || c == '\U{202F}' || c == '\U{205F}'
    || c == '\U{3000}'
  }

  predicate IsUpper(c: char)
  {
    'A' <= c <= 'Z'
  }

  function LowerChar(c: char): char
  {
    if IsUpper(c) then (c as int + 32) as char else c
  }

  /** `str.lower()`, restricted to the ASCII letters. */
  function Lower(s: string): (r: string)
    ensures |r| == |s|
    ensures forall i :: 0 <= i < |s| ==> r[i] == LowerChar(s[i])
    ensures forall c :: c in r ==> !IsUpper(c)
  {
    if s == [] then [] else [LowerChar(s[0])] + Lower(s[1..])
  }

  /** Text without upper-case letters is its own lower-case form. */
  lemma LowerOfLowerCase(s: string)
    requires forall c :: c in s ==> !IsUpper(c)
    ensures Lower(s) == s
  {
    assert forall i :: 0 <= i < |s| ==> s[i] in s;
  }

  // ---------------------------------------------------------------------------
  // Substrings
  // ---------------------------------------------------------------------------

  /** `p` occurs in `s` starting at index `i`. */
  predicate OccursAt(s: string, i: int, p: string)
  {
    0 <= i && i + |p| <= |s| && s[i..i + |p|] == p
  }

  /** Python's `p in s` on two strings. */
  predicate Contains(s: string, p: string)
  {
    exists i | 0 <= i <= |s| - |p| :: OccursAt(s, i, p)
  }

  /** An occurrence inside a slice is an occurrence in the whole string. */
  lemma ContainsInSlice(s: string, a: int, b: int, p: string)
    requires 0 <= a <= b <= |s|
    requires Contains(s[a..b], p)
    ensures Contains(s, p)
  {
    var q := s[a..b];
    var i :| 0 <= i <= |q| - |p| && OccursAt(q, i, p);
    forall k | 0 <= k < |p|
      ensures s[a + i..a + i + |p|][k] == p[k]
    {
      assert p[k] == q[i..i + |p|][k] == q[i + k];
    }
    assert s[a + i..a + i + |p|] == p;
    assert OccursAt(s, a + i, p);
  }

  /** An occurrence in `[c] + t` is at its head or inside `t`. */
  lemma ContainsCons(c: char, t: string, p: string)
    requires Contains([c] + t, p)
    ensures p <= [c] + t || Contains(t, p)
  {
    var s := [c] + t;
    var i :| 0 <= i <= |s| - |p| && OccursAt(s, i, p);
    if i == 0 {
      assert s[..|p|] == p;
    } else {
      assert t[i - 1..i - 1 + |p|] == s[i..i + |p|];
      assert OccursAt(t, i - 1, p);
    }
  }

  /** For a one-character pattern, `[c] in s` is membership of `c`. */
  lemma ContainsChar(s: string, c: char)
    ensures Contains(s, [c]) <==> c in s
  {
    if c in s {
      var i :| 0 <= i < |s| && s[i] == c;
      assert s[i..i + 1] == [c];
      assert OccursAt(s, i, [c]);
    }
    if Contains(s, [c]) {
      var i :| 0 <= i <= |s| - 1 && OccursAt(s, i, [c]);
      assert s[i] == s[i..i + 1][0];
    }
  }

  // ---------------------------------------------------------------------------
  // split and join
  // ---------------------------------------------------------------------------

  /** `s.split(sep)`: scan left to right, cutting at each non-overlapping
      occurrence of `sep`. */
  function Split(s: string, sep: string): (r: seq<string>)
    requires |sep| > 0
    ensures |r| >= 1
    decreases |s|
  {
    if |s| < |sep| then [s]
    else if s[..|sep|] == sep then [""] + Split(s[|sep|..], sep)
    else
      var rest := Split(s[1..], sep);
      [[s[0]] + rest[0]] + rest[1..]
  }

  /** Python's `xs[-1]`. */
  function Last(xs: seq<string>): string
    requires |xs| > 0
  {
    xs[|xs| - 1]
  }

  /** `sep.join(xs)`. */
  function Join(xs: seq<string>, sep: string): string
  {
    if |xs| == 0 then ""
    else if |xs| == 1 then xs[0]
    else xs[0] + sep + Join(xs[1..], sep)
  }

  lemma JoinConsHead(c: char, xs: seq<string>, sep: string)
    requires |xs| > 0
    ensures Join([[c] + xs[0]] + xs[1..], sep) == [c] + Join(xs, sep)
  {
    var ys := [[c] + xs[0]] + xs[1..];
    assert ys[1..] == xs[1..];
  }

  /** Joining the pieces of a split with the separator gives the string back. */
  lemma {:induction false} JoinSplit(s: string, sep: string)
    requires |sep| > 0
    ensures Join(Split(s, sep), sep) == s
    decreases |s|
  {
    if |s| < |sep| {
    } else if s[..|sep|] == sep {
      var rest := Split(s[|sep|..], sep);
      assert Split(s, sep) == [""] + rest;
      assert ([""] + rest)[1..] == rest;
      JoinSplit(s[|sep|..], sep);
      assert Join([""] + rest, sep) == "" + sep + s[|sep|..];
      assert s == sep + s[|sep|..];
    } else {
      var rest := Split(s[1..], sep);
      assert Split(s, sep) == [[s[0]] + rest[0]] + rest[1..];
      JoinSplit(s[1..], sep);
      JoinConsHead(s[0], rest, sep);
      assert s == [s[0]] + s[1..];
    }
  }

  /** A string without the separator splits into itself alone. */
  lemma {:induction false} SplitFree(s: string, sep: string)
    requires |sep| > 0
    requires !Contains(s, sep)
    ensures Split(s, sep) == [s]
    decreases |s|
  {
    if |s| < |sep| {
    } else {
      assert !OccursAt(s, 0, sep);
      assert s[..|sep|] != sep;
      if Contains(s[1..], sep) {
        assert s[1..|s|] == s[1..];
        ContainsInSlice(s, 1, |s|, sep);
      }
      SplitFree(s[1..], sep);
      assert [s[0]] + s[1..] == s;
    }
  }

  /** The last piece of a split holds no separator. */
  lemma {:induction false} LastPieceFree(s: string, sep: string)
    requires |sep| > 0
    ensures !Contains(Last(Split(s, sep)), sep)
    decreases |s|
  {
    if |s| < |sep| {
    } else if s[..|sep|] == sep {
      LastPieceFree(s[|sep|..], sep);
      var rest := Split(s[|sep|..], sep);
      assert Split(s, sep) == [""] + rest;
      assert Last([""] + rest) == Last(rest);
    } else {
      var rest := Split(s[1..], sep);
      assert Split(s, sep) == [[s[0]] + rest[0]] + rest[1..];
      LastPieceFree(s[1..], sep);
      if |rest| == 1 {
        JoinSplit(s[1..], sep);
        assert rest[0] == s[1..];
        assert Last(Split(s, sep)) == [s[0]] + s[1..] == s;
        if Contains(s, sep) {
          ContainsCons(s[0], s[1..], sep);
        }
      } else {
        assert Last(Split(s, sep)) == Last(rest);
      }
    }
  }

  /** A split into a single piece leaves the text whole. */
  lemma SplitSingle(s: string, sep: string)
    requires |sep| > 0 && |Split(s, sep)| == 1
    ensures Split(s, sep) == [s]
  {
    JoinSplit(s, sep);
  }

  /** `l` is a suffix of `s`. */
  predicate EndsWith(s: string, l: string)
  {
    |l| <= |s| && l == s[|s| - |l|..]
  }

  /** The last piece of a split is a suffix of the string. */
  lemma {:induction false} LastPieceSuffix(s: string, sep: string)
    requires |sep| > 0
    ensures EndsWith(s, Last(Split(s, sep)))
    decreases |s|
  {
    if |s| < |sep| {
    } else if s[..|sep|] == sep {
      var rest := Split(s[|sep|..], sep);
      assert Last(Split(s, sep)) == Last(rest) by {
        assert Split(s, sep) == [""] + rest;
      }
      assert EndsWith(s, Last(rest)) by {
        LastPieceSuffix(s[|sep|..], sep);
        EndsWithDrop(s, |sep|, Last(rest));
      }
    } else {
      var rest := Split(s[1..], sep);
      assert Split(s, sep) == [[s[0]] + rest[0]] + rest[1..];
      if |rest| == 1 {
        assert rest[0] == s[1..] by {
          SplitSingle(s[1..], sep);
        }
        assert [s[0]] + s[1..] == s;
      } else {
        assert EndsWith(s, Last(rest)) by {
          LastPieceSuffix(s[1..], sep);
          EndsWithDrop(s, 1, Last(rest));
        }
      }
    }
  }

  /** A suffix of a suffix of `s` is a suffix of `s`. */
  lemma EndsWithDrop(s: string, n: nat, l: string)
    requires n <= |s| && EndsWith(s[n..], l)
    ensures EndsWith(s, l)
  {
    assert s[n..][|s| - n - |l|..] == s[|s| - |l|..];
  }

  /** `l` ends `s` and an occurrence of `sep` ends right before it. */
  predicate FollowsSep(s: string, l: string, sep: string)
  {
    |l| + |sep| <= |s| && OccursAt(s, |s| - |l| - |sep|, sep)
  }

  /** What follows a separator in a suffix of `s` follows it in `s`. */
  lemma FollowsSepDrop(s: string, n: nat, l: string, sep: string)
    requires n <= |s| && FollowsSep(s[n..], l, sep)
    ensures FollowsSep(s, l, sep)
  {
    var i := |s| - n - |l| - |sep|;
    assert s[n..][i..i + |sep|] == s[n + i..n + i + |sep|];
  }

  /** When a split has more than one piece, an occurrence of the separator
      ends right where the last piece begins. */
  lemma {:induction false} LastPieceAfterSep(s: string, sep: string)
    requires |sep| > 0 && |Split(s, sep)| > 1
    ensures FollowsSep(s, Last(Split(s, sep)), sep)
    decreases |s|
  {
    if |s| < |sep| {
    } else if s[..|sep|] == sep {
      var rest := Split(s[|sep|..], sep);
      assert Split(s, sep) == [""] + rest;
      if |rest| > 1 {
        LastPieceAfterSep(s[|sep|..], sep);
        FollowsSepDrop(s, |sep|, Last(rest), sep);
      } else {
        SplitSingle(s[|sep|..], sep);
        assert OccursAt(s, 0, sep);
      }
    } else {
      var rest := Split(s[1..], sep);
      assert Split(s, sep) == [[s[0]] + rest[0]] + rest[1..];
      LastPieceAfterSep(s[1..], sep);
      FollowsSepDrop(s, 1, Last(rest), sep);
    }
  }

  /** `s.split(sep)[-1]` is the text after the last occurrence of `sep`: it
      follows an occurrence, and no occurrence lies inside it. */
  lemma LastPieceAfterLast(s: string, sep: string)
    requires |sep| > 0 && Contains(s, sep)
    ensures exists k :: && OccursAt(s, k, sep)
                        && Last(Split(s, sep)) == s[k + |sep|..]
                        && !Contains(s[k + |sep|..], sep)
  {
    var l := Last(Split(s, sep));
    LastPieceFree(s, sep);
    LastPieceSuffix(s, sep);
    assert |Split(s, sep)| > 1 by {
      JoinSplit(s, sep);
    }
    LastPieceAfterSep(s, sep);
    var k := |s| - |l| - |sep|;
    assert OccursAt(s, k, sep) && l == s[k + |sep|..];
  }

  /** An occurrence fixes the characters it covers. */
  lemma OccursAtChar(s: string, i: int, p: string, k: int)
    requires OccursAt(s, i, p) && 0 <= k < |p|
    ensures s[i + k] == p[k]
  {
    assert s[i..i + |p|][k] == s[i + k];
  }

  /** Cutting `a + sep + b` when no occurrence of `sep` starts inside `a`
      gives `a` first and then the pieces of `b`. */
  lemma {:induction false} SplitCut(a: string, sep: string, b: string)
    requires |sep| > 0
    requires forall j :: 0 <= j < |a| ==> !OccursAt(a + sep + b, j, sep)
    ensures Split(a + sep + b, sep) == [a] + Split(b, sep)
    decreases |a|
  {
    var s := a + sep + b;
    if a == [] {
      assert s[..|sep|] == sep;
      assert s[|sep|..] == b;
    } else {
      assert !OccursAt(s, 0, sep);
      assert s[..|sep|] != sep;
      var t := s[1..];
      assert t == a[1..] + sep + b;
      forall j | 0 <= j < |a| - 1
        ensures !OccursAt(t, j, sep)
      {
        assert !OccursAt(s, j + 1, sep);
        assert t[j..j + |sep|] == s[j + 1..j + 1 + |sep|];
      }
      SplitCut(a[1..], sep, b);
      assert [a[0]] + a[1..] == a;
    }
  }

  /** Cutting `a + [c] + b` at the character `c`, which `a` lacks, gives `a`
      first and then the pieces of `b`. */
  lemma {:induction false} SplitAtFirst(a: string, c: char, b: string)
    requires c !in a
    ensures Split(a + [c] + b, [c]) == [a] + Split(b, [c])
    decreases |a|
  {
    var s := a + [c] + b;
    if a == [] {
      assert s[..1] == [c];
      assert s[1..] == b;
    } else {
      assert s[..1] == [a[0]];
      assert s[1..] == a[1..] + [c] + b;
      SplitAtFirst(a[1..], c, b);
      assert [a[0]] + a[1..] == a;
    }
  }

  /** Splitting a join at a one-character separator that no piece contains
      gives the pieces back. */
  lemma {:induction false} SplitJoin(xs: seq<string>, c: char)
    requires |xs| > 0
    requires forall i :: 0 <= i < |xs| ==> c !in xs[i]
    ensures Split(Join(xs, [c]), [c]) == xs
    decreases |xs|
  {
    if |xs| == 1 {
      ContainsChar(xs[0], c);
      SplitFree(xs[0], [c]);
    } else {
      SplitJoin(xs[1..], c);
      SplitAtFirst(xs[0], c, Join(xs[1..], [c]));
      assert [xs[0]] + xs[1..] == xs;
    }
  }

  // ---------------------------------------------------------------------------
  // replace
  // ---------------------------------------------------------------------------

  /** `s.replace(pat, rep)`: scan left to right and substitute `rep` for each
      non-overlapping occurrence of `pat`. */
  function ReplaceAll(s: string, pat: string, rep: string): string
    requires |pat| > 0
    decreases |s|
  {
    if |s| < |pat| then s
    else if s[..|pat|] == pat then rep + ReplaceAll(s[|pat|..], pat, rep)
    else [s[0]] + ReplaceAll(s[1..], pat, rep)
  }

  /** `s.replace(pat, rep) == rep.join(s.split(pat))`: replacement cuts where
      split cuts. */
  lemma {:induction false} ReplaceIsJoinOfSplit(s: string, pat: string, rep: string)
    requires |pat| > 0
    ensures ReplaceAll(s, pat, rep) == Join(Split(s, pat), rep)
    decreases |s|
  {
    if |s| < |pat| {
    } else if s[..|pat|] == pat {
      var rest := Split(s[|pat|..], pat);
      ReplaceIsJoinOfSplit(s[|pat|..], pat, rep);
      assert ([""] + rest)[1..] == rest;
    } else {
      var rest := Split(s[1..], pat);
      ReplaceIsJoinOfSplit(s[1..], pat, rep);
      JoinConsHead(s[0], rest, rep);
    }
  }

  /** Replacing a pattern that does not occur changes nothing. */
  lemma ReplaceAbsent(s: string, pat: string, rep: string)
    requires |pat| > 0
    requires !Contains(s, pat)
    ensures ReplaceAll(s, pat, rep) == s
  {
    ReplaceIsJoinOfSplit(s, pat, rep);
    SplitFree(s, pat);
  }

  /** Replacement leaves alone a prefix in which no occurrence starts. */
  lemma {:induction false} ReplaceSkip(s: string, pat: string, rep: string, n: nat)
    requires |pat| > 0 && n <= |s|
    requires forall j :: 0 <= j < n ==> !OccursAt(s, j, pat)
    ensures ReplaceAll(s, pat, rep) == s[..n] + ReplaceAll(s[n..], pat, rep)
    decreases n
  {
    if n > 0 {
      var t := s[1..];
      var tail := ReplaceAll(s[n..], pat, rep);
      ReplaceStep(s, pat, rep);
      NoOccurrenceInTail(s, pat, n);
      ReplaceSkip(t, pat, rep, n - 1);
      PrefixAfterHead(s, n);
      assert [s[0]] + (t[..n - 1] + tail) == ([s[0]] + t[..n - 1]) + tail;
    }
  }

  /** Where no occurrence starts at the front, `replace` copies the first
      character and goes on with the rest. */
  lemma ReplaceStep(s: string, pat: string, rep: string)
    requires |pat| > 0 && |s| > 0 && !OccursAt(s, 0, pat)
    ensures ReplaceAll(s, pat, rep) == [s[0]] + ReplaceAll(s[1..], pat, rep)
  {
  }

  lemma PrefixAfterHead(s: string, n: nat)
    requires 0 < n <= |s|
    ensures [s[0]] + s[1..][..n - 1] == s[..n]
    ensures s[1..][n - 1..] == s[n..]
  {
  }

  /** Positions without an occurrence in `s` stay without one in `s[1..]`,
      shifted by one. */
  lemma NoOccurrenceInTail(s: string, pat: string, n: nat)
    requires 0 < n <= |s|
    requires forall j :: 0 <= j < n ==> !OccursAt(s, j, pat)
    ensures forall j :: 0 <= j < n - 1 ==> !OccursAt(s[1..], j, pat)
  {
    var t := s[1..];
    forall j | 0 <= j < n - 1
      ensures !OccursAt(t, j, pat)
    {
      assert !OccursAt(s, j + 1, pat);
      if j + |pat| <= |t| {
        assert t[j..j + |pat|] == s[j + 1..j + 1 + |pat|];
      }
    }
  }

  /** Every character of a replacement's result comes from the input or from
      the replacement text. */
  lemma {:induction false} ReplaceChars(s: string, pat: string, rep: string)
    requires |pat| > 0
    ensures forall c :: c in ReplaceAll(s, pat, rep) ==> c in s || c in rep
    decreases |s|
  {
    if |s| < |pat| {
    } else if s[..|pat|] == pat {
      ReplaceChars(s[|pat|..], pat, rep);
    } else {
      ReplaceChars(s[1..], pat, rep);
    }
  }

  /** The first character of a replacement's result is the input's first
      character or the replacement text's first character. */
  lemma HeadOfReplace(s: string, pat: string, rep: string)
    requires |pat| > 0 && |rep| > 0 && |s| > 0
    ensures |ReplaceAll(s, pat, rep)| > 0
    ensures ReplaceAll(s, pat, rep)[0] == s[0] || ReplaceAll(s, pat, rep)[0] == rep[0]
  {
  }

  /** `s` with every `c` dropped and every other character kept in order. */
  function Without(s: string, c: char): string
  {
    if s == [] then [] else (if s[0] == c then [] else [s[0]]) + Without(s[1..], c)
  }

  /** Replacing a one-character pattern by nothing drops that character. */
  lemma {:induction false} ReplaceCharByNothing(s: string, c: char)
    ensures ReplaceAll(s, [c], "") == Without(s, c)
    decreases |s|
  {
    if s != [] {
      ReplaceCharByNothing(s[1..], c);
      assert s[..1] == [s[0]];
    }
  }

  // ---------------------------------------------------------------------------
  // strip
  // ---------------------------------------------------------------------------

  /** Everything in `s` is white space. */
  predicate AllSpace(s: string)
  {
    forall i :: 0 <= i < |s| ==> IsSpace(s[i])
  }

  /** The number of white-space characters `s` starts with. */
  function LeadingSpaces(s: string): (n: nat)
    ensures n <= |s|
    ensures forall i :: 0 <= i < n ==> IsSpace(s[i])
    ensures n < |s| ==> !IsSpace(s[n])
  {
    if s != [] && IsSpace(s[0]) then 1 + LeadingSpaces(s[1..]) else 0
  }

  /** The length of `s` once its trailing white space is dropped. */
  function TrailingStart(s: string): (n: nat)
    ensures n <= |s|
    ensures forall i :: n <= i < |s| ==> IsSpace(s[i])
    ensures 0 < n ==> !IsSpace(s[n - 1])
  {
    if s != [] && IsSpace(s[|s| - 1]) then TrailingStart(s[..|s| - 1]) else |s|
  }

  /** Where `s.strip()` ends: the leading white space is dropped first, then
      the trailing white space of what is left. */
  function StripEnd(s: string): (j: nat)
    ensures LeadingSpaces(s) <= j <= |s|
  {
    LeadingSpaces(s) + TrailingStart(s[LeadingSpaces(s)..])
  }

  lemma StripEndFacts(s: string)
    ensures AllSpace(s[StripEnd(s)..])
    ensures StripEnd(s) > LeadingSpaces(s) ==> !IsSpace(s[StripEnd(s) - 1])
  {
    var i, j := LeadingSpaces(s), StripEnd(s);
    var t := s[i..];
    forall m | 0 <= m < |s| - j
      ensures IsSpace(s[j..][m])
    {
      assert s[j..][m] == t[j - i + m];
    }
    if j > i {
      assert s[j - 1] == t[j - i - 1];
    }
  }

  /** `s.strip()`: the middle of `s` left after dropping white space at both
      ends; the result neither starts nor ends with white space, and what was
      dropped is all white space. */
  function Strip(s: string): (r: string)
    ensures exists i :: OccursAt(s, i, r) && AllSpace(s[..i]) && AllSpace(s[i + |r|..])
    ensures r != [] ==> !IsSpace(r[0]) && !IsSpace(r[|r| - 1])
  {
    var i, j := LeadingSpaces(s), StripEnd(s);
    StripEndFacts(s);
    assert OccursAt(s, i, s[i..j]);
    s[i..j]
  }

  /** Text that neither starts nor ends with white space strips to itself
      when one white-space character is put in front of it. */
  lemma StripAfterSpace(c: char, s: string)
    requires IsSpace(c) && |s| > 0 && !IsSpace(s[0]) && !IsSpace(s[|s| - 1])
    ensures Strip([c] + s) == s
  {
    var t := [c] + s;
    assert t[1..] == s;
    assert LeadingSpaces(t) == 1;
    assert TrailingStart(s) == |s|;
  }

  /** What occurs in the stripped text occurs in the text. */
  lemma StripContains(s: string, p: string)
    requires Contains(Strip(s), p)
    ensures Contains(s, p)
  {
    ContainsInSlice(s, LeadingSpaces(s), StripEnd(s), p);
  }

  /** Every character of the stripped text is a character of the text. */
  lemma StripChars(s: string)
    ensures forall c :: c in Strip(s) ==> c in s
  {
    forall c | c in Strip(s)
      ensures c in s
    {
      ContainsChar(Strip(s), c);
      StripContains(s, [c]);
      ContainsChar(s, c);
    }
  }

}
