/**
 * The codecs on the concrete header values of the codecs' own test suite:
 * two four-feature headers, once as received (irregular spacing,
 * Permissions-Policy shorthand) and once in canonical form. Each header
 * value is written as the concatenation of its segments and separators.
 */
module HeaderVectors {
  import opened Text
  import opened OrderedMap
  import opened PolicyHeader
  import FeaturePolicy
  import PermissionsPolicy

  /** The Feature-Policy map of the examples: `A 'self'`, `B *`, `C 'none'`, `D foo.com bar.com 'self'`. */
  const FeaturePolicySample: PolicyMap :=
    [("A", ["'self'"]), ("B", ["*"]), ("C", ["'none'"]), ("D", ["foo.com", "bar.com", "'self'"])]

  /** The Permissions-Policy map of the examples: quotes kept on origins, `()` read as the one empty token. */
  const PermissionsPolicySample: PolicyMap :=
    [("A", ["self"]), ("B", ["*"]), ("C", [""]), ("D", ["\"foo.com\"", "\"bar.com\"", "self"])]

  /** `A 'self';  B *; C 'none'; D foo.com bar.com 'self'`: the legacy value the test parses. */
  const FeaturePolicyReceived: string :=
    "A 'self'" + ";" + "  B *" + ";" + " C 'none'" + ";" + " D foo.com bar.com 'self'"

  /** `A 'self'; B *; C 'none'; D foo.com bar.com 'self'`: the legacy value the test expects from serialising. */
  const FeaturePolicyCanonical: string :=
    "A 'self'" + "; " + "B *" + "; " + "C 'none'" + "; " + "D foo.com bar.com 'self'"

  /** `A=self,  B=*, C=(), D=("foo.com" "bar.com" self)`: the structured value the test parses. */
  const PermissionsPolicyReceived: string :=
    "A=self" + "," + "  B=*" + "," + " C=()" + "," + " D=(\"foo.com\" \"bar.com\" self)"

  /** `A=(self), B=(*), C=(), D=("foo.com" "bar.com" self)`: the structured value the test expects from serialising. */
  const PermissionsPolicyCanonical: string :=
    "A=(self)" + ", " + "B=(*)" + ", " + "C=()" + ", " + "D=(\"foo.com\" \"bar.com\" self)"

  lemma Join3(a: string, b: string, c: string, sep: string)
    ensures Join([a, b, c], sep) == a + sep + b + sep + c
  {
    assert [b, c][1..] == [c];
    assert Join([b, c], sep) == b + sep + c;
    assert [a, b, c][1..] == [b, c];
  }

  lemma Join4(a: string, b: string, c: string, d: string, sep: string)
    ensures Join([a, b, c, d], sep) == a + sep + b + sep + c + sep + d
  {
    Join3(b, c, d, sep);
    assert [a, b, c, d][1..] == [b, c, d];
  }

  lemma Render4(h: PolicyMap, render: Entry -> string)
    requires |h| == 4
    ensures Render(h, render) == [render(h[0]), render(h[1]), render(h[2]), render(h[3])]
  {
  }

  /** Four entries with four different names have distinct keys. */
  lemma DistinctFour(h: PolicyMap)
    requires |h| == 4
    requires h[0].0 != h[1].0 && h[0].0 != h[2].0 && h[0].0 != h[3].0
    requires h[1].0 != h[2].0 && h[1].0 != h[3].0 && h[2].0 != h[3].0
    ensures Distinct(Keys(h))
  {
  }

  /** One more separator-free piece read as one entry adds that entry at the end. */
  lemma SegmentsExtend(x: string, c: string, sx: PolicyMap, ec: Entry, sep: char, parse: string -> Option<Entry>)
    requires SplitEntries(x, sep, parse) == sx
    requires NoneOf(c, {sep}) && parse(c) == Some(ec)
    ensures SplitEntries(x + [sep] + c, sep, parse) == sx + [ec]
  {
    SplitEntriesSingle(c, sep, parse, ec);
    SplitEntriesAppend(x, c, sep, parse);
  }

  /** Two separator-free pieces, each read as one entry, are read as those two entries in order. */
  lemma SegmentsTwo(a: string, b: string, ea: Entry, eb: Entry, sep: char, parse: string -> Option<Entry>)
    requires NoneOf(a, {sep}) && NoneOf(b, {sep})
    requires parse(a) == Some(ea) && parse(b) == Some(eb)
    ensures SplitEntries(a + [sep] + b, sep, parse) == [ea, eb]
  {
    SplitEntriesSingle(a, sep, parse, ea);
    SegmentsExtend(a, b, [ea], eb, sep, parse);
  }

  /** Three separator-free pieces, each read as one entry, are read as those three entries in order. */
  lemma SegmentsThree(a: string, b: string, c: string, ea: Entry, eb: Entry, ec: Entry, sep: char, parse: string -> Option<Entry>)
    requires NoneOf(a, {sep}) && NoneOf(b, {sep}) && NoneOf(c, {sep})
    requires parse(a) == Some(ea) && parse(b) == Some(eb) && parse(c) == Some(ec)
    ensures SplitEntries(a + [sep] + b + [sep] + c, sep, parse) == [ea, eb, ec]
  {
    SegmentsTwo(a, b, ea, eb, sep, parse);
    SegmentsExtend(a + [sep] + b, c, [ea, eb], ec, sep, parse);
  }

  /** Four separator-free pieces, each read as one entry, are read as those four entries in order. */
  lemma SegmentsFour(a: string, b: string, c: string, d: string, ea: Entry, eb: Entry, ec: Entry, ed: Entry, sep: char, parse: string -> Option<Entry>)
    requires NoneOf(a, {sep}) && NoneOf(b, {sep}) && NoneOf(c, {sep}) && NoneOf(d, {sep})
    requires parse(a) == Some(ea) && parse(b) == Some(eb)
    requires parse(c) == Some(ec) && parse(d) == Some(ed)
    ensures SplitEntries(a + [sep] + b + [sep] + c + [sep] + d, sep, parse) == [ea, eb, ec, ed]
  {
    SegmentsThree(a, b, c, ea, eb, ec, sep, parse);
    SegmentsExtend(a + [sep] + b + [sep] + c, d, [ea, eb, ec], ed, sep, parse);
  }

  // Feature-Policy

  lemma FeaturePolicyEntryOne(n: string, t: string)
    ensures FeaturePolicy.SerializeEntry((n, [t])) == n + " " + t
  {
    assert Join([t], " ") == t;
  }

  lemma FeaturePolicyEntryThree(n: string, a: string, b: string, c: string)
    ensures FeaturePolicy.SerializeEntry((n, [a, b, c])) == n + " " + a + " " + b + " " + c
  {
    Join3(a, b, c, " ");
  }

  /** Facts about concrete string literals, kept apart from the proofs that use them: the solver's cost grows quickly with the length of the literals in one proof. */
  lemma FeaturePolicyText()
    ensures "A" + " " + "'self'" == "A 'self'"
    ensures "B" + " " + "*" == "B *"
    ensures "C" + " " + "'none'" == "C 'none'"
    ensures "D" + " " + "foo.com" + " " + "bar.com" + " " + "'self'" == "D foo.com bar.com 'self'"
  {
  }

  lemma FeaturePolicyEntries()
    ensures FeaturePolicy.SerializeEntry(FeaturePolicySample[0]) == "A 'self'"
    ensures FeaturePolicy.SerializeEntry(FeaturePolicySample[1]) == "B *"
    ensures FeaturePolicy.SerializeEntry(FeaturePolicySample[2]) == "C 'none'"
    ensures FeaturePolicy.SerializeEntry(FeaturePolicySample[3]) == "D foo.com bar.com 'self'"
  {
    FeaturePolicyEntryOne("A", "'self'");
    FeaturePolicyEntryOne("B", "*");
    FeaturePolicyEntryOne("C", "'none'");
    FeaturePolicyEntryThree("D", "foo.com", "bar.com", "'self'");
    FeaturePolicyText();
  }

  /** The canonical Feature-Policy form: single spaces inside an entry, `"; "` between entries. */
  lemma FeaturePolicySerializeVector()
    ensures FeaturePolicy.Serialize(FeaturePolicySample) == FeaturePolicyCanonical
  {
    Render4(FeaturePolicySample, FeaturePolicy.SerializeEntry);
    FeaturePolicyEntries();
    Join4("A 'self'", "B *", "C 'none'", "D foo.com bar.com 'self'", "; ");
  }

  lemma FeaturePolicyWellFormedSample()
    ensures forall e :: e in FeaturePolicySample ==> FeaturePolicy.WellFormedEntry(e)
  {
  }

  lemma FeaturePolicyLeadingSpaces()
    ensures "  B *" == " " + (" " + "B *")
    ensures " C 'none'" == " " + "C 'none'"
    ensures " D foo.com bar.com 'self'" == " " + "D foo.com bar.com 'self'"
  {
  }

  /** Each segment of the received value reads as one entry of the sample. */
  lemma FeaturePolicyReceivedSegments()
    ensures FeaturePolicy.ParseSegment("A 'self'") == Some(FeaturePolicySample[0])
    ensures FeaturePolicy.ParseSegment("  B *") == Some(FeaturePolicySample[1])
    ensures FeaturePolicy.ParseSegment(" C 'none'") == Some(FeaturePolicySample[2])
    ensures FeaturePolicy.ParseSegment(" D foo.com bar.com 'self'") == Some(FeaturePolicySample[3])
  {
    var h := FeaturePolicySample;
    FeaturePolicyEntries();
    FeaturePolicyWellFormedSample();
    FeaturePolicyLeadingSpaces();
    FeaturePolicy.EntryRoundTrip(h[0]);
    FeaturePolicy.EntryRoundTrip(h[1]);
    FeaturePolicy.EntryRoundTrip(h[2]);
    FeaturePolicy.EntryRoundTrip(h[3]);
    FeaturePolicy.ParseSegmentLeadingSpace(" B *");
  }

  lemma FeaturePolicyReceivedPieces()
    ensures NoneOf("A 'self'", {';'}) && NoneOf("  B *", {';'})
    ensures NoneOf(" C 'none'", {';'}) && NoneOf(" D foo.com bar.com 'self'", {';'})
  {
  }

  /** A Feature-Policy value made of four segments naming four different features parses to those four entries. */
  lemma FeaturePolicyFour(a: string, b: string, c: string, d: string, h: PolicyMap)
    requires |h| == 4 && Distinct(Keys(h))
    requires NoneOf(a, {';'}) && NoneOf(b, {';'}) && NoneOf(c, {';'}) && NoneOf(d, {';'})
    requires FeaturePolicy.ParseSegment(a) == Some(h[0]) && FeaturePolicy.ParseSegment(b) == Some(h[1])
    requires FeaturePolicy.ParseSegment(c) == Some(h[2]) && FeaturePolicy.ParseSegment(d) == Some(h[3])
    ensures FeaturePolicy.Parse(a + ";" + b + ";" + c + ";" + d) == h
  {
    SegmentsFour(a, b, c, d, h[0], h[1], h[2], h[3], ';', FeaturePolicy.ParseSegment);
    assert [h[0], h[1], h[2], h[3]] == h;
    FeaturePolicy.ParseDistinctSegments(a + ";" + b + ";" + c + ";" + d);
  }

  /** Irregular spacing is tolerated: the received value reads as the sample map. */
  lemma FeaturePolicyParseVector()
    ensures FeaturePolicy.Parse(FeaturePolicyReceived) == FeaturePolicySample
  {
    FeaturePolicyReceivedSegments();
    FeaturePolicyReceivedPieces();
    DistinctFour(FeaturePolicySample);
    FeaturePolicyFour("A 'self'", "  B *", " C 'none'", " D foo.com bar.com 'self'", FeaturePolicySample);
  }

  /** Serialising what was parsed normalises the spacing to the canonical form. */
  lemma FeaturePolicyNormalisesSpacing()
    ensures FeaturePolicy.Serialize(FeaturePolicy.Parse(FeaturePolicyReceived)) == FeaturePolicyCanonical
  {
    FeaturePolicyParseVector();
    FeaturePolicySerializeVector();
  }

  // Permissions-Policy

  lemma PermissionsPolicyEntryOne(n: string, t: string)
    ensures PermissionsPolicy.SerializeEntry((n, [t])) == n + "=(" + t + ")"
  {
    assert Join([t], " ") == t;
  }

  lemma PermissionsPolicyEntryThree(n: string, a: string, b: string, c: string)
    ensures PermissionsPolicy.SerializeEntry((n, [a, b, c])) == n + "=(" + a + " " + b + " " + c + ")"
  {
    Join3(a, b, c, " ");
  }

  /** Facts about concrete string literals, kept apart from the proofs that use them: the solver's cost grows quickly with the length of the literals in one proof. */
  lemma PermissionsPolicyText()
    ensures "A" + "=(" + "self" + ")" == "A=(self)"
    ensures "B" + "=(" + "*" + ")" == "B=(*)"
    ensures "C" + "=(" + "" + ")" == "C=()"
    ensures "D" + "=(" + "\"foo.com\"" + " " + "\"bar.com\"" + " " + "self" + ")" == "D=(\"foo.com\" \"bar.com\" self)"
  {
  }

  lemma PermissionsPolicyEntries()
    ensures PermissionsPolicy.SerializeEntry(PermissionsPolicySample[0]) == "A=(self)"
    ensures PermissionsPolicy.SerializeEntry(PermissionsPolicySample[1]) == "B=(*)"
    ensures PermissionsPolicy.SerializeEntry(PermissionsPolicySample[2]) == "C=()"
    ensures PermissionsPolicy.SerializeEntry(PermissionsPolicySample[3]) == "D=(\"foo.com\" \"bar.com\" self)"
  {
    PermissionsPolicyEntryOne("A", "self");
    PermissionsPolicyEntryOne("B", "*");
    PermissionsPolicyEntryOne("C", "");
    PermissionsPolicyEntryThree("D", "\"foo.com\"", "\"bar.com\"", "self");
    PermissionsPolicyText();
  }

  /** The canonical Permissions-Policy form: every allow-list parenthesised, `", "` between members. */
  lemma PermissionsPolicySerializeVector()
    ensures PermissionsPolicy.Serialize(PermissionsPolicySample) == PermissionsPolicyCanonical
  {
    Render4(PermissionsPolicySample, PermissionsPolicy.SerializeEntry);
    PermissionsPolicyEntries();
    Join4("A=(self)", "B=(*)", "C=()", "D=(\"foo.com\" \"bar.com\" self)", ", ");
  }

  lemma PermissionsPolicyLeadingSpaces()
    ensures "  B=*" == " " + (" " + "B=*")
    ensures " C=()" == " " + "C=()"
    ensures " D=(\"foo.com\" \"bar.com\" self)" == " " + "D=(\"foo.com\" \"bar.com\" self)"
  {
  }

  lemma PermissionsPolicyShorthandA()
    ensures PermissionsPolicy.ParseSegment("A=self") == Some(("A", ["self"]))
  {
    assert "A" + "=" + "self" == "A=self";
    PermissionsPolicy.ShorthandMember("A", "self");
  }

  lemma PermissionsPolicyShorthandB()
    ensures PermissionsPolicy.ParseSegment("B=*") == Some(("B", ["*"]))
  {
    assert "B" + "=" + "*" == "B=*";
    PermissionsPolicy.ShorthandMember("B", "*");
  }

  lemma PermissionsPolicyWellFormedCD()
    ensures PermissionsPolicy.WellFormedEntry(PermissionsPolicySample[2])
    ensures PermissionsPolicy.WellFormedEntry(PermissionsPolicySample[3])
  {
  }

  /** Each member of the received value reads as one entry of the sample, shorthand members included. */
  lemma PermissionsPolicyReceivedSegments()
    ensures PermissionsPolicy.ParseSegment("A=self") == Some(PermissionsPolicySample[0])
    ensures PermissionsPolicy.ParseSegment("  B=*") == Some(PermissionsPolicySample[1])
    ensures PermissionsPolicy.ParseSegment(" C=()") == Some(PermissionsPolicySample[2])
    ensures PermissionsPolicy.ParseSegment(" D=(\"foo.com\" \"bar.com\" self)") == Some(PermissionsPolicySample[3])
  {
    var h := PermissionsPolicySample;
    PermissionsPolicyShorthandA();
    PermissionsPolicyShorthandB();
    PermissionsPolicyLeadingSpaces();
    PermissionsPolicy.ParseSegmentLeadingSpace(" " + "B=*");
    PermissionsPolicy.ParseSegmentLeadingSpace("B=*");
    PermissionsPolicyEntries();
    PermissionsPolicyWellFormedCD();
    PermissionsPolicy.EntryRoundTrip(h[2]);
    PermissionsPolicy.EntryRoundTrip(h[3]);
  }

  lemma PermissionsPolicyReceivedPieces()
    ensures NoneOf("A=self", {','}) && NoneOf("  B=*", {','})
    ensures NoneOf(" C=()", {','}) && NoneOf(" D=(\"foo.com\" \"bar.com\" self)", {','})
  {
  }

  /** A Permissions-Policy value made of four segments naming four different features parses to those four entries. */
  lemma PermissionsPolicyFour(a: string, b: string, c: string, d: string, h: PolicyMap)
    requires |h| == 4 && Distinct(Keys(h))
    requires NoneOf(a, {','}) && NoneOf(b, {','}) && NoneOf(c, {','}) && NoneOf(d, {','})
    requires PermissionsPolicy.ParseSegment(a) == Some(h[0]) && PermissionsPolicy.ParseSegment(b) == Some(h[1])
    requires PermissionsPolicy.ParseSegment(c) == Some(h[2]) && PermissionsPolicy.ParseSegment(d) == Some(h[3])
    ensures PermissionsPolicy.Parse(a + "," + b + "," + c + "," + d) == h
  {
    SegmentsFour(a, b, c, d, h[0], h[1], h[2], h[3], ',', PermissionsPolicy.ParseSegment);
    assert [h[0], h[1], h[2], h[3]] == h;
    PermissionsPolicy.ParseDistinctSegments(a + "," + b + "," + c + "," + d);
  }

  /** Shorthand members, inner lists, quoted origins and `()` all read as the sample map. */
  lemma PermissionsPolicyParseVector()
    ensures PermissionsPolicy.Parse(PermissionsPolicyReceived) == PermissionsPolicySample
  {
    PermissionsPolicyReceivedSegments();
    PermissionsPolicyReceivedPieces();
    DistinctFour(PermissionsPolicySample);
    PermissionsPolicyFour("A=self", "  B=*", " C=()", " D=(\"foo.com\" \"bar.com\" self)", PermissionsPolicySample);
  }

  /** The shorthand is not written back: `A=self` and `B=*` come out parenthesised. */
  lemma PermissionsPolicyNormalisesShorthand()
    ensures PermissionsPolicy.Serialize(PermissionsPolicy.Parse(PermissionsPolicyReceived)) == PermissionsPolicyCanonical
  {
    PermissionsPolicyParseVector();
    PermissionsPolicySerializeVector();
  }
}
