/**
 * Codec for the legacy `Feature-Policy` header:
 * `name tok tok; name tok; ...`. Segments are separated by `;`, words by
 * white space; the first word of a segment names the feature and the rest
 * are its allow-list.
 */
module FeaturePolicy {
  import opened Text
  import opened OrderedMap
  import opened PolicyHeader

  /** A name or token the serialised form carries unchanged: non-empty, with no white space and no `;`. */
  predicate IsToken(t: string)
  {
    t != "" && NoneOf(t, Whitespace) && NoneOf(t, {';'})
  }

  predicate WellFormedEntry(e: Entry)
  {
    IsToken(e.0) && forall t :: t in e.1 ==> IsToken(t)
  }

  /** A header this codec can write out and read back: distinct names, every name and token a token. */
  predicate WellFormed(h: PolicyMap)
  {
    Distinct(Keys(h)) && forall e :: e in h ==> WellFormedEntry(e)
  }

  /** One segment: its first word names the feature, the other words are the allow-list; a blank segment carries nothing. */
  function ParseSegment(seg: string): Option<Entry>
  {
    var ws := Words(seg);
    if |ws| == 0 then None else Some((ws[0], ws[1..]))
  }

  /** The entries of a header value, one per non-blank `;`-separated segment, in order. */
  function Segments(s: string): PolicyMap
  {
    SplitEntries(s, ';', ParseSegment)
  }

  /**
   * Parses a header value into an ordered map. A feature named twice keeps
   * the slot of its first segment and the allow-list of its last, as
   * successive `Map.prototype.set` calls would leave it.
   */
  function Parse(s: string): (h: PolicyMap)
    ensures WellFormed(h)
  {
    SegmentsWellFormed(s);
    ApplyAllMeaning([], Segments(s));
    ApplyAll([], Segments(s))
  }

  /** `name tok1 tok2 ...`; a feature with an empty allow-list keeps the space after its name. */
  function SerializeEntry(e: Entry): string
  {
    e.0 + " " + Join(e.1, " ")
  }

  /** Entries in map order, joined with `"; "`. */
  function Serialize(h: PolicyMap): string
  {
    JoinEntries(h, SerializeEntry, ';')
  }

  lemma {:induction false} SegmentsWellFormed(s: string)
    ensures forall e :: e in Segments(s) ==> WellFormedEntry(e)
  {
    var segs := Split(s, {';'});
    forall e | e in Segments(s)
      ensures WellFormedEntry(e)
    {
      CollectEntries(segs, ParseSegment, e);
      var i :| 0 <= i < |segs| && ParseSegment(segs[i]) == Some(e);
      var ws := Words(segs[i]);
      SplitKeepsNoneOf(segs[i], Whitespace, {';'});
      forall j | 0 <= j < |ws|
        ensures IsToken(ws[j])
      {
        assert ws[j] in Split(segs[i], Whitespace);
      }
      assert e == (ws[0], ws[1..]);
    }
  }

  /** The words of a serialised entry are its name followed by its tokens. */
  lemma {:induction false} WordsOfEntry(e: Entry)
    requires WellFormedEntry(e)
    ensures Words(SerializeEntry(e)) == [e.0] + e.1
  {
    SplitNoSeparator(e.0, Whitespace);
    SplitAppend(e.0, ' ', Join(e.1, " "), Whitespace);
    assert SerializeEntry(e) == e.0 + [' '] + Join(e.1, " ");
    if |e.1| == 0 {
      assert Split("", Whitespace) == [""];
      assert NonEmpty([e.0] + [""]) == [e.0];
    } else {
      forall i | 0 <= i < |e.1|
        ensures NoneOf(e.1[i], Whitespace)
      {
        assert e.1[i] in e.1;
      }
      SplitJoin(e.1, ' ', Whitespace);
      forall i | 0 <= i < |[e.0] + e.1|
        ensures ([e.0] + e.1)[i] != ""
      {
        if i > 0 {
          assert ([e.0] + e.1)[i] in e.1;
        }
      }
      NonEmptyIdentity([e.0] + e.1);
    }
  }

  /** A serialised entry parses back to itself, with or without a leading space. */
  lemma {:induction false} EntryRoundTrip(e: Entry)
    requires WellFormedEntry(e)
    ensures ParseSegment(SerializeEntry(e)) == Some(e)
    ensures ParseSegment(" " + SerializeEntry(e)) == Some(e)
  {
    WordsOfEntry(e);
    WordsLeadingSpace(SerializeEntry(e));
    assert ([e.0] + e.1)[1..] == e.1;
  }

  /**
   * Serialising and parsing again gives back any well-formed header: the
   * same names in the same order with the same allow-lists.
   */
  lemma {:induction false} RoundTrip(h: PolicyMap)
    requires WellFormed(h)
    ensures Parse(Serialize(h)) == h
  {
    if |h| == 0 {
      assert Split("", {';'}) == [""];
      assert ParseSegment("") == None;
      assert Segments("") == [];
    } else {
      var rs := Render(h, SerializeEntry);
      forall i | 0 <= i < |rs|
        ensures NoneOf(rs[i], {';'})
      {
        assert h[i] in h;
        JoinKeepsOut(h[i].1, " ", ';');
      }
      assert "; " == [';', ' '];
      SplitJoinSpaced(rs, ';');
      forall e | e in h
        ensures ParseSegment(SerializeEntry(e)) == Some(e) && ParseSegment(" " + SerializeEntry(e)) == Some(e)
      {
        EntryRoundTrip(e);
      }
      CollectRendered(h, ParseSegment, SerializeEntry);
      assert Segments(Serialize(h)) == h;
      ApplyAllFresh([], h);
      assert [] + h == h;
    }
  }

  /** Parsing the serialisation of a parse changes nothing: serialising only normalises spacing. */
  lemma {:induction false} ParseSerializeParse(s: string)
    ensures Parse(Serialize(Parse(s))) == Parse(s)
  {
    RoundTrip(Parse(s));
  }

  /**
   * Two header values joined with `;` parse like the first with the
   * second's segments applied on top: later segments override earlier ones.
   */
  lemma {:induction false} ParseJoined(a: string, b: string)
    ensures Parse(a + ";" + b) == ApplyAll(Parse(a), Segments(b))
  {
    assert a + ";" + b == a + [';'] + b;
    SplitEntriesAppend(a, b, ';', ParseSegment);
    ApplyAllAppend([], Segments(a), Segments(b));
  }

  /** The empty header value is the empty map, and the empty map serialises to the empty value. */
  lemma ParseEmpty()
    ensures Parse("") == []
    ensures Serialize([]) == ""
  {
    assert Split("", {';'}) == [""];
    assert ParseSegment("") == None;
    assert Segments("") == [];
  }

  /** A leading space never changes how a member reads. */
  lemma {:induction false} ParseSegmentLeadingSpace(s: string)
    ensures ParseSegment(" " + s) == ParseSegment(s)
  {
    WordsLeadingSpace(s);
  }

  /** A value whose members name distinct features parses to exactly those members. */
  lemma {:induction false} ParseDistinctSegments(s: string)
    requires Distinct(Keys(Segments(s)))
    ensures Parse(s) == Segments(s)
  {
    ApplyAllFresh([], Segments(s));
    assert [] + Segments(s) == Segments(s);
  }
}
