/**
 * Character-level string helpers shared by the two policy-header codecs and
 * by the response-header rewriter: splitting and joining on separators,
 * white-space trimming, and ASCII case-insensitive substring search.
 */
module Text {

  /** The characters the header codecs treat as white space. */
  const Whitespace: set<char> := {' ', '\t'}

  /** True when no character of `s` belongs to `cs`. */
  predicate NoneOf(s: string, cs: set<char>)
  {
    forall c :: c in s ==> c !in cs
  }

  /**
   * Splits `s` at every character in `seps`, keeping empty pieces, as
   * JavaScript's `String.prototype.split` does: `""` splits into `[""]`.
   */
  function Split(s: string, seps: set<char>): (pieces: seq<string>)
    ensures |pieces| >= 1
    ensures forall i :: 0 <= i < |pieces| ==> NoneOf(pieces[i], seps)
    decreases |s|
  {
    if |s| == 0 then [""]
    else
      var rest := Split(s[1..], seps);
      if s[0] in seps then [""] + rest
      else [[s[0]] + rest[0]] + rest[1..]
  }

  /** Joins `xs` with `sep` between neighbours, as JavaScript's `Array.prototype.join` does. */
  function Join(xs: seq<string>, sep: string): (r: string)
    ensures |xs| > 0 ==> |r| >= |xs[0]|
  {
    if |xs| == 0 then ""
    else if |xs| == 1 then xs[0]
    else xs[0] + sep + Join(xs[1..], sep)
  }

  /** A piece without separators splits into itself. */
  lemma {:induction false} SplitNoSeparator(a: string, seps: set<char>)
    requires NoneOf(a, seps)
    ensures Split(a, seps) == [a]
    decreases |a|
  {
    if |a| > 0 {
      SplitNoSeparator(a[1..], seps);
      assert [a[0]] + a[1..] == a;
    }
  }

  /** Splitting distributes over a separator character: the pieces of both sides are kept apart. */
  lemma {:induction false} SplitAppend(a: string, c: char, b: string, seps: set<char>)
    requires c in seps
    ensures Split(a + [c] + b, seps) == Split(a, seps) + Split(b, seps)
    decreases |a|
  {
    var s := a + [c] + b;
    if |a| == 0 {
      assert s == [c] + b;
      assert s[1..] == b;
    } else {
      assert s[0] == a[0];
      assert s[1..] == a[1..] + [c] + b;
      SplitAppend(a[1..], c, b, seps);
    }
  }

  /** Splitting after joining with a separator character returns the separator-free pieces. */
  lemma {:induction false} SplitJoin(xs: seq<string>, c: char, seps: set<char>)
    requires c in seps
    requires |xs| >= 1
    requires forall i :: 0 <= i < |xs| ==> NoneOf(xs[i], seps)
    ensures Split(Join(xs, [c]), seps) == xs
    decreases |xs|
  {
    if |xs| == 1 {
      SplitNoSeparator(xs[0], seps);
    } else {
      SplitNoSeparator(xs[0], seps);
      SplitJoin(xs[1..], c, seps);
      SplitAppend(xs[0], c, Join(xs[1..], [c]), seps);
      assert [xs[0]] + xs[1..] == xs;
    }
  }

  /** Joining the pieces of a split on a single separator character restores the string. */
  lemma {:induction false} JoinSplit(s: string, c: char)
    ensures Join(Split(s, {c}), [c]) == s
    decreases |s|
  {
    if |s| > 0 {
      var rest := Split(s[1..], {c});
      JoinSplit(s[1..], c);
      if s[0] == c {
        assert Split(s, {c}) == [""] + rest;
        assert ([""] + rest)[1..] == rest;
        assert [c] + s[1..] == s;
      } else {
        var pieces := [[s[0]] + rest[0]] + rest[1..];
        assert Split(s, {c}) == pieces;
        if |rest| == 1 {
          assert [s[0]] + s[1..] == s;
        } else {
          assert pieces[1..] == rest[1..];
          assert Join(rest, [c]) == rest[0] + [c] + Join(rest[1..], [c]);
          assert [s[0]] + s[1..] == s;
        }
      }
    }
  }

  /** A leading character that is not a separator only extends the first piece. */
  lemma SplitCons(c: char, s: string, seps: set<char>)
    requires c !in seps
    ensures Split([c] + s, seps) == [[c] + Split(s, seps)[0]] + Split(s, seps)[1..]
  {
    assert ([c] + s)[1..] == s;
  }

  /** Keeps a character set out of every piece when the whole string has none of it. */
  lemma {:induction false} SplitKeepsNoneOf(s: string, seps: set<char>, cs: set<char>)
    requires NoneOf(s, cs)
    ensures forall i :: 0 <= i < |Split(s, seps)| ==> NoneOf(Split(s, seps)[i], cs)
    decreases |s|
  {
    if |s| > 0 {
      SplitKeepsNoneOf(s[1..], seps, cs);
    }
  }

  /** Each of `xs` behind one space. */
  function Spaced(xs: seq<string>): (r: seq<string>)
    ensures |r| == |xs|
    ensures forall i :: 0 <= i < |xs| ==> r[i] == " " + xs[i]
  {
    seq(|xs|, i requires 0 <= i < |xs| => " " + xs[i])
  }

  /**
   * Splitting a list joined with "<sep> " on `sep` gives back the first
   * piece as it was and every later piece behind the one space.
   */
  lemma {:induction false} SplitJoinSpaced(xs: seq<string>, sep: char)
    requires sep != ' '
    requires |xs| >= 1
    requires forall i :: 0 <= i < |xs| ==> NoneOf(xs[i], {sep})
    ensures Split(Join(xs, [sep, ' ']), {sep}) == [xs[0]] + Spaced(xs[1..])
    decreases |xs|
  {
    SplitNoSeparator(xs[0], {sep});
    if |xs| > 1 {
      var tail := xs[1..];
      var rest := Join(tail, [sep, ' ']);
      JoinSpacedCons(xs, sep);
      assert forall i :: 0 <= i < |tail| ==> tail[i] == xs[i + 1];
      SplitJoinSpaced(tail, sep);
      SpacedCons(tail);
      SplitCons(' ', rest, {sep});
      SplitAppend(xs[0], sep, [' '] + rest, {sep});
    }
  }

  /** The first piece of a list joined with "<sep> ", then the separator, then the rest behind one space. */
  lemma JoinSpacedCons(xs: seq<string>, sep: char)
    requires |xs| > 1
    ensures Join(xs, [sep, ' ']) == xs[0] + [sep] + ([' '] + Join(xs[1..], [sep, ' ']))
  {
    assert Join(xs, [sep, ' ']) == xs[0] + [sep, ' '] + Join(xs[1..], [sep, ' ']);
  }

  lemma SpacedCons(xs: seq<string>)
    requires |xs| > 0
    ensures Spaced(xs) == [" " + xs[0]] + Spaced(xs[1..])
  {
  }

  /** A separator and pieces free of a character give a join free of it. */
  lemma {:induction false} JoinKeepsOut(xs: seq<string>, sep: string, c: char)
    requires c !in sep
    requires forall t :: t in xs ==> c !in t
    ensures c !in Join(xs, sep)
    decreases |xs|
  {
    if |xs| > 1 {
      assert xs[0] in xs;
      assert forall t :: t in xs[1..] ==> t in xs;
      JoinKeepsOut(xs[1..], sep, c);
    } else if |xs| == 1 {
      assert xs[0] in xs;
    }
  }

  /** The non-empty strings of `xs`, in order. */
  function NonEmpty(xs: seq<string>): (r: seq<string>)
    ensures forall i :: 0 <= i < |r| ==> r[i] != "" && r[i] in xs
    ensures forall x :: x in xs && x != "" ==> x in r
    ensures |r| <= |xs|
  {
    if |xs| == 0 then []
    else if xs[0] == "" then NonEmpty(xs[1..])
    else [xs[0]] + NonEmpty(xs[1..])
  }

  lemma NonEmptyAppend(a: seq<string>, b: seq<string>)
    ensures NonEmpty(a + b) == NonEmpty(a) + NonEmpty(b)
  {
    if |a| > 0 {
      assert (a + b)[1..] == a[1..] + b;
      NonEmptyAppend(a[1..], b);
    } else {
      assert a + b == b;
    }
  }

  lemma NonEmptyIdentity(xs: seq<string>)
    requires forall i :: 0 <= i < |xs| ==> xs[i] != ""
    ensures NonEmpty(xs) == xs
  {
    if |xs| > 0 {
      NonEmptyIdentity(xs[1..]);
      assert [xs[0]] + xs[1..] == xs;
    }
  }

  /** The white-space separated words of `s`, skipping empty ones. */
  function Words(s: string): (ws: seq<string>)
    ensures forall i :: 0 <= i < |ws| ==> ws[i] != "" && NoneOf(ws[i], Whitespace)
  {
    NonEmpty(Split(s, Whitespace))
  }

  /** A leading space never changes the words of a string. */
  lemma WordsLeadingSpace(s: string)
    ensures Words(" " + s) == Words(s)
  {
    assert (" " + s)[1..] == s;
    assert Split(" " + s, Whitespace) == [""] + Split(s, Whitespace);
    NonEmptyAppend([""], Split(s, Whitespace));
  }

  /** `s` with its leading white space removed. */
  function TrimStart(s: string): (r: string)
    ensures |r| <= |s| && r == s[|s| - |r|..]
    ensures |r| == 0 || r[0] !in Whitespace
    ensures forall i :: 0 <= i < |s| - |r| ==> s[i] in Whitespace
  {
    if |s| > 0 && s[0] in Whitespace then TrimStart(s[1..]) else s
  }

  /** `s` with its trailing white space removed. */
  function TrimEnd(s: string): (r: string)
    ensures |r| <= |s| && r == s[..|r|]
    ensures |r| == 0 || r[|r| - 1] !in Whitespace
    ensures forall i :: |r| <= i < |s| ==> s[i] in Whitespace
  {
    if |s| > 0 && s[|s| - 1] in Whitespace then TrimEnd(s[..|s| - 1]) else s
  }

  /** `s` with white space removed at both ends, as `String.prototype.trim` (restricted to space and tab). */
  function Trim(s: string): string
  {
    TrimEnd(TrimStart(s))
  }

  /** Trimming ignores one more leading space. */
  lemma TrimLeadingSpace(s: string)
    ensures Trim(" " + s) == Trim(s)
  {
    assert (" " + s)[1..] == s;
  }

  /** Index of the first `c` in `s`, or `|s|` when there is none. */
  function FirstIndex(s: string, c: char): (i: nat)
    ensures i <= |s|
    ensures i < |s| ==> s[i] == c
    ensures forall j :: 0 <= j < i ==> s[j] != c
  {
    if |s| == 0 then 0
    else if s[0] == c then 0
    else 1 + FirstIndex(s[1..], c)
  }

  /** ASCII lower-casing of one character; other characters are left alone. */
  function LowerChar(c: char): char
  {
    if 'A' <= c <= 'Z' then (c as int + 32) as char else c
  }

  function Lower(s: string): (r: string)
    ensures |r| == |s|
  {
    seq(|s|, i requires 0 <= i < |s| => LowerChar(s[i]))
  }

  /** `p` occurs in `s` at offset `i`, ignoring ASCII case. */
  predicate MatchAt(s: string, p: string, i: int)
  {
    0 <= i && i + |p| <= |s| && Lower(s[i..i + |p|]) == Lower(p)
  }

  /**
   * Unanchored, ASCII case-insensitive search for `p` in `s`: the test a
   * regular expression made of `p`'s literal characters with the `i` flag
   * performs.
   */
  function ContainsIgnoreCase(s: string, p: string): bool
    decreases |s|
  {
    if |p| <= |s| && Lower(s[..|p|]) == Lower(p) then true
    else if |s| == 0 then false
    else ContainsIgnoreCase(s[1..], p)
  }

  /** The search succeeds exactly when some offset matches. */
  lemma {:induction false} ContainsIgnoreCaseMeaning(s: string, p: string)
    ensures ContainsIgnoreCase(s, p) <==> exists i :: MatchAt(s, p, i)
    decreases |s|
  {
    if |p| <= |s| {
      assert s[0..0 + |p|] == s[..|p|];
      assert MatchAt(s, p, 0) <==> Lower(s[..|p|]) == Lower(p);
    } else {
      assert !MatchAt(s, p, 0);
    }
    if |s| > 0 {
      ContainsIgnoreCaseMeaning(s[1..], p);
      forall i | MatchAt(s[1..], p, i)
        ensures MatchAt(s, p, i + 1)
      {
        assert s[1..][i..i + |p|] == s[i + 1..i + 1 + |p|];
      }
      forall i | MatchAt(s, p, i) && i > 0
        ensures MatchAt(s[1..], p, i - 1)
      {
        assert s[1..][i - 1..i - 1 + |p|] == s[i..i + |p|];
      }
    }
  }

  /** A pattern longer than the text never occurs in it. */
  lemma ContainsIgnoreCaseTooLong(s: string, p: string)
    requires |p| > |s|
    ensures !ContainsIgnoreCase(s, p)
  {
    ContainsIgnoreCaseMeaning(s, p);
  }

  /** Every string contains itself. */
  lemma ContainsIgnoreCaseSelf(s: string)
    ensures ContainsIgnoreCase(s, s)
  {
    assert s[..|s|] == s;
  }

  /** An offset whose first character differs from the pattern's, ignoring case, is no match. */
  lemma FirstCharMismatch(s: string, p: string, i: int)
    requires 0 <= i < |s| && |p| > 0
    requires LowerChar(s[i]) != LowerChar(p[0])
    ensures !MatchAt(s, p, i)
  {
    if i + |p| <= |s| {
      assert Lower(s[i..i + |p|])[0] == LowerChar(s[i]);
    }
  }
}
