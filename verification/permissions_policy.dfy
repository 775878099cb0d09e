/**
 * Codec for the `Permissions-Policy` header, a reduced form of the
 * Dictionary syntax of section 3.2 of RFC 8941: members are separated by
 * `,`; a member is `name=(tok tok ...)` (an Inner List, section 3.1.1) or
 * the bare shorthand `name=tok`. Tokens are kept verbatim, quotes
 * included; nothing is unescaped or validated.
 */
module PermissionsPolicy {
  import opened Text
  import opened OrderedMap
  import opened PolicyHeader

  /** A feature name the serialised form carries unchanged: no `,` or `=`, no leading white space. */
  predicate IsName(n: string)
  {
    NoneOf(n, {',', '='}) && (n == "" || n[0] !in Whitespace)
  }

  /** A token the serialised form carries unchanged: no white space and no `,` (it may be empty). */
  predicate IsToken(t: string)
  {
    NoneOf(t, Whitespace) && NoneOf(t, {','})
  }

  predicate WellFormedEntry(e: Entry)
  {
    IsName(e.0) && |e.1| >= 1 && forall t :: t in e.1 ==> IsToken(t)
  }

  /** A header this codec can write out and read back. */
  predicate WellFormed(h: PolicyMap)
  {
    Distinct(Keys(h)) && forall e :: e in h ==> WellFormedEntry(e)
  }

  /**
   * A member's value: an inner list `( ... )` splits on white space (so
   * `()` is the one empty token), anything else is a one-token shorthand.
   */
  function ParseValue(v: string): AllowList
  {
    if |v| >= 2 && v[0] == '(' && v[|v| - 1] == ')' then Split(v[1..|v| - 1], Whitespace)
    else [v]
  }

  /** One trimmed member, split at its first `=`; a member without `=` has an empty value. A blank member carries nothing. */
  function ParseSegment(seg: string): Option<Entry>
  {
    var t := Trim(seg);
    if t == "" then None
    else
      var i := FirstIndex(t, '=');
      Some((t[..i], ParseValue(if i < |t| then t[i + 1..] else "")))
  }

  /** The entries of a header value, one per non-blank `,`-separated member, in order. */
  function Segments(s: string): PolicyMap
  {
    SplitEntries(s, ',', ParseSegment)
  }

  /** Parses a header value into an ordered map; a repeated name keeps its first slot and its last value. */
  function Parse(s: string): (h: PolicyMap)
    ensures Distinct(Keys(h))
  {
    ApplyAllMeaning([], Segments(s));
    ApplyAll([], Segments(s))
  }

  /** `(tok1 tok2 ...)`: `[""]` and `[]` both give `()`. */
  function InnerList(toks: AllowList): string
  {
    "(" + Join(toks, " ") + ")"
  }

  /** `name=(tok1 tok2 ...)`, always parenthesised, never the shorthand. */
  function SerializeEntry(e: Entry): string
  {
    e.0 + "=" + InnerList(e.1)
  }

  /** Members in map order, joined with `", "`. */
  function Serialize(h: PolicyMap): string
  {
    JoinEntries(h, SerializeEntry, ',')
  }

  lemma {:induction false} TrimSerializedEntry(e: Entry)
    requires IsName(e.0)
    ensures Trim(SerializeEntry(e)) == SerializeEntry(e)
    ensures Trim(" " + SerializeEntry(e)) == SerializeEntry(e)
  {
    var s := SerializeEntry(e);
    assert s[0] !in Whitespace by {
      if e.0 == "" {
        assert s[0] == '=';
      } else {
        assert s[0] == e.0[0];
      }
    }
    assert TrimStart(s) == s;
    assert (" " + s)[1..] == s;
    assert TrimStart(" " + s) == s;
    assert s[|s| - 1] == ')';
    assert TrimEnd(s) == s;
  }

  /** The first `=` of `n + "=" + v` is the one after `n` when `n` has none. */
  lemma {:induction false} SplitAtEquals(n: string, v: string)
    requires NoneOf(n, {'='})
    ensures FirstIndex(n + "=" + v, '=') == |n|
    ensures (n + "=" + v)[..|n|] == n
    ensures (n + "=" + v)[|n| + 1..] == v
  {
    var s := n + "=" + v;
    var i := FirstIndex(s, '=');
    assert s[|n|] == '=';
  }

  /** A segment that trims to `n=v` is the member `n` with the value `v`. */
  lemma {:induction false} ParseMember(seg: string, n: string, v: string)
    requires NoneOf(n, {'='})
    requires Trim(seg) == n + "=" + v
    ensures ParseSegment(seg) == Some((n, ParseValue(v)))
  {
    SplitAtEquals(n, v);
  }

  /** An inner list of white-space-free tokens splits back into those tokens. */
  lemma {:induction false} InnerListRoundTrip(toks: AllowList)
    requires |toks| >= 1
    requires forall t :: t in toks ==> IsToken(t)
    ensures ParseValue(InnerList(toks)) == toks
  {
    var j := Join(toks, " ");
    var v := InnerList(toks);
    assert v[1..|v| - 1] == j;
    forall k | 0 <= k < |toks|
      ensures NoneOf(toks[k], Whitespace)
    {
      assert toks[k] in toks;
    }
    SplitJoin(toks, ' ', Whitespace);
  }

  /** The value of a serialised entry is its inner list, which splits back into its tokens. */
  lemma {:induction false} EntryRoundTrip(e: Entry)
    requires WellFormedEntry(e)
    ensures ParseSegment(SerializeEntry(e)) == Some(e)
    ensures ParseSegment(" " + SerializeEntry(e)) == Some(e)
  {
    var s := SerializeEntry(e);
    var v := InnerList(e.1);
    TrimSerializedEntry(e);
    ParseMember(s, e.0, v);
    ParseMember(" " + s, e.0, v);
    InnerListRoundTrip(e.1);
  }

  /**
   * Serialising and parsing again gives back any well-formed header: the
   * same names in the same order with the same allow-lists.
   */
  lemma {:induction false} RoundTrip(h: PolicyMap)
    requires WellFormed(h)
    ensures Parse(Serialize(h)) == h
  {
    if |h| == 0 {
      assert Split("", {','}) == [""];
      assert ParseSegment("") == None;
      assert Segments("") == [];
    } else {
      var rs := Render(h, SerializeEntry);
      forall i | 0 <= i < |rs|
        ensures NoneOf(rs[i], {','})
      {
        assert h[i] in h;
        JoinKeepsOut(h[i].1, " ", ',');
      }
      assert ", " == [',', ' '];
      SplitJoinSpaced(rs, ',');
      forall e | e in h
        ensures ParseSegment(SerializeEntry(e)) == Some(e) && ParseSegment(" " + SerializeEntry(e)) == Some(e)
      {
        EntryRoundTrip(e);
      }
      CollectRendered(h, ParseSegment, SerializeEntry);
      assert Segments(Serialize(h)) == h;
      ApplyAllFresh([], h);
      assert [] + h == h;
    }
  }

  /**
   * Two header values joined with `,` parse like the first with the
   * second's members applied on top: later members override earlier ones.
   */
  lemma {:induction false} ParseJoined(a: string, b: string)
    ensures Parse(a + "," + b) == ApplyAll(Parse(a), Segments(b))
  {
    assert a + "," + b == a + [','] + b;
    SplitEntriesAppend(a, b, ',', ParseSegment);
    ApplyAllAppend([], Segments(a), Segments(b));
  }

  /**
   * The shorthand is read but never written: a lone bare token `name=tok`
   * parses to the one-token allow-list and serialises as `name=(tok)`.
   */
  lemma {:induction false} ShorthandNormalised(n: string, v: string)
    requires IsName(n)
    requires IsToken(v) && v != "" && v[0] != '('
    ensures Parse(n + "=" + v) == [(n, [v])]
    ensures Serialize(Parse(n + "=" + v)) == n + "=(" + v + ")"
  {
    ShorthandParse(n, v);
    SerializeSingle(n, v);
  }

  lemma {:induction false} ShorthandParse(n: string, v: string)
    requires IsName(n)
    requires IsToken(v) && v != "" && v[0] != '('
    ensures Parse(n + "=" + v) == [(n, [v])]
  {
    ShorthandSegments(n, v);
    assert Keys([(n, [v])]) == [n];
    ApplyAllFresh([], [(n, [v])]);
    assert [] + [(n, [v])] == [(n, [v])];
  }

  lemma {:induction false} ShorthandSegments(n: string, v: string)
    requires IsName(n)
    requires IsToken(v) && v != "" && v[0] != '('
    ensures Segments(n + "=" + v) == [(n, [v])]
  {
    ShorthandTrimmed(n, v);
    ShorthandMember(n, v);
    SplitEntriesSingle(n + "=" + v, ',', ParseSegment, (n, [v]));
  }

  /** A bare-token member reads as the one-token allow-list. */
  lemma {:induction false} ShorthandMember(n: string, v: string)
    requires IsName(n)
    requires IsToken(v) && v != "" && v[0] != '('
    ensures ParseSegment(n + "=" + v) == Some((n, [v]))
  {
    ShorthandTrimmed(n, v);
    ParseMember(n + "=" + v, n, v);
    assert ParseValue(v) == [v];
  }

  lemma {:induction false} ShorthandTrimmed(n: string, v: string)
    requires IsName(n)
    requires IsToken(v) && v != ""
    ensures NoneOf(n + "=" + v, {','})
    ensures Trim(n + "=" + v) == n + "=" + v
  {
    var s := n + "=" + v;
    assert s[|s| - 1] == v[|v| - 1];
    assert s[0] !in Whitespace by {
      if n == "" {
        assert s[0] == '=';
      } else {
        assert s[0] == n[0];
      }
    }
    assert TrimStart(s) == s;
    assert TrimEnd(s) == s;
  }

  lemma {:induction false} SerializeSingle(n: string, v: string)
    ensures Serialize([(n, [v])]) == n + "=(" + v + ")"
  {
    var rs := Render([(n, [v])], SerializeEntry);
    assert |rs| == 1 && rs[0] == SerializeEntry((n, [v]));
    assert Join([v], " ") == v;
    assert InnerList([v]) == "(" + v + ")";
    assert n + "=" + ("(" + v + ")") == n + "=(" + v + ")";
  }

  /** The empty header value is the empty map, and the empty map serialises to the empty value. */
  lemma ParseEmpty()
    ensures Parse("") == []
    ensures Serialize([]) == ""
  {
    assert Split("", {','}) == [""];
    assert ParseSegment("") == None;
    assert Segments("") == [];
  }

  /** A leading space never changes how a member reads. */
  lemma {:induction false} ParseSegmentLeadingSpace(s: string)
    ensures ParseSegment(" " + s) == ParseSegment(s)
  {
    TrimLeadingSpace(s);
  }

  /** A value whose members name distinct features parses to exactly those members. */
  lemma {:induction false} ParseDistinctSegments(s: string)
    requires Distinct(Keys(Segments(s)))
    ensures Parse(s) == Segments(s)
  {
    ApplyAllFresh([], Segments(s));
    assert [] + Segments(s) == Segments(s);
  }
}
