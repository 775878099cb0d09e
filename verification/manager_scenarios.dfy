/**
 * The response-header rewriter on the concrete scenarios of the manager's
 * own test suite: one customisation, `FeatureA` switched off, applied to
 * responses carrying a Feature-Policy header, a Permissions-Policy header,
 * empty policy headers, or none at all.
 */
module ManagerScenarios {
  import opened Text
  import opened OrderedMap
  import opened PolicyHeader
  import FeaturePolicy
  import PermissionsPolicy
  import opened PolicyManager

  /** The user's one customisation in the scenarios: `FeatureA` disallowed everywhere. */
  const FeatureAOff: Policies := [("FeatureA", Policy(false, ["'none'"]))]

  const Other: Header := Header("other-header", "foobar")

  lemma OtherIsOther()
    ensures IsOtherHeader(Other)
  {
    ContainsIgnoreCaseTooLong("other-header", FeaturePolicyHeaderName);
    ContainsIgnoreCaseTooLong("other-header", PermissionsPolicyHeaderName);
  }

  lemma FeaturePolicyNameClassified()
    ensures IsFeaturePolicyHeader(Header(FeaturePolicyHeaderName, ""))
    ensures !IsPermissionsPolicyHeader(Header(FeaturePolicyHeaderName, ""))
  {
    ContainsIgnoreCaseSelf(FeaturePolicyHeaderName);
    ContainsIgnoreCaseTooLong(FeaturePolicyHeaderName, PermissionsPolicyHeaderName);
  }

  lemma PermissionsPolicyNameClassified()
    ensures IsPermissionsPolicyHeader(Header(PermissionsPolicyHeaderName, ""))
    ensures !IsFeaturePolicyHeader(Header(PermissionsPolicyHeaderName, ""))
  {
    ContainsIgnoreCaseSelf(PermissionsPolicyHeaderName);
    PermissionsPolicyNameNotFeaturePolicy();
  }

  lemma PermissionsPolicyNameNotFeaturePolicy()
    ensures !ContainsIgnoreCase(PermissionsPolicyHeaderName, FeaturePolicyHeaderName)
  {
    PermissionsPolicyNameStart();
    NoMatchInFirstFive(PermissionsPolicyHeaderName, FeaturePolicyHeaderName);
  }

  /** None of `Permi` is an `f` in either case. */
  lemma PermissionsPolicyNameStart()
    ensures forall i :: 0 <= i <= 4 ==> LowerChar(PermissionsPolicyHeaderName[i]) != LowerChar(FeaturePolicyHeaderName[0])
  {
    assert LowerChar(FeaturePolicyHeaderName[0]) == 'f';
    assert LowerChar(PermissionsPolicyHeaderName[0]) == 'p';
  }

  /** A pattern four characters shorter than the text, whose first letter starts none of the text's first five offsets, does not occur. */
  lemma NoMatchInFirstFive(s: string, p: string)
    requires |p| > 0 && |s| == |p| + 4
    requires forall i :: 0 <= i <= 4 ==> LowerChar(s[i]) != LowerChar(p[0])
    ensures !ContainsIgnoreCase(s, p)
  {
    ContainsIgnoreCaseMeaning(s, p);
    forall i | MatchAt(s, p, i)
      ensures false
    {
      FirstCharMismatch(s, p, i);
    }
  }

  /** Classification reads only the name. */
  lemma ClassifiedByName(h: Header)
    ensures IsFeaturePolicyHeader(h) == IsFeaturePolicyHeader(Header(h.name, ""))
    ensures IsPermissionsPolicyHeader(h) == IsPermissionsPolicyHeader(Header(h.name, ""))
  {
  }

  /** Without customisations, a response with only an unrelated header comes back as it was. */
  lemma NoOverrideScenario()
    ensures OverrideResponseHeaders([], [Other]) == [Other]
  {
    OtherIsOther();
    PassThrough([Other]);
  }

  /** Both policy entries are emitted when both merged headers are non-empty. */
  lemma BothEmitted(c: Policies, hs: seq<Header>, fp: string, pp: string)
    requires FeaturePolicy.Serialize(NewFeaturePolicy(c, hs)) == fp && fp != ""
    requires PermissionsPolicy.Serialize(NewPermissionsPolicy(c, hs)) == pp && pp != ""
    ensures OverrideResponseHeaders(c, hs) == [Header(FeaturePolicyHeaderName, fp), Header(PermissionsPolicyHeaderName, pp)] + Filter(hs, IsOtherHeader)
  {
    RewrittenLayout(c, hs);
    EmitBoth(fp, pp, Filter(hs, IsOtherHeader));
  }

  lemma RewrittenLayout(c: Policies, hs: seq<Header>)
    ensures OverrideResponseHeaders(c, hs)
         == Emit(FeaturePolicyHeaderName, FeaturePolicy.Serialize(NewFeaturePolicy(c, hs)))
          + Emit(PermissionsPolicyHeaderName, PermissionsPolicy.Serialize(NewPermissionsPolicy(c, hs)))
          + Filter(hs, IsOtherHeader)
  {
  }

  lemma EmitBoth(fp: string, pp: string, others: seq<Header>)
    requires fp != "" && pp != ""
    ensures Emit(FeaturePolicyHeaderName, fp) + Emit(PermissionsPolicyHeaderName, pp) + others
         == [Header(FeaturePolicyHeaderName, fp), Header(PermissionsPolicyHeaderName, pp)] + others
  {
  }

  /** One customisation applied to a header that is empty or names only the same feature. */
  lemma OverrideOne(c: Policies, h: PolicyMap, n: string, p: Policy)
    requires c == [(n, p)]
    requires h == [] || (|h| == 1 && h[0].0 == n)
    ensures OverrideFeaturePolicyHeader(c, h) == [(n, p.allowList)]
    ensures OverridePermissionsPolicyHeader(c, h) == [(n, TranslateAll(p.allowList))]
  {
    var u := MapValues(c, FeaturePolicyTokens);
    var w := MapValues(c, PermissionsPolicyTokens);
    assert u == [(n, p.allowList)];
    assert w == [(n, TranslateAll(p.allowList))];
    assert u[..0] == [] && w[..0] == [];
    assert ApplyAll(h, u) == Set(h, n, p.allowList);
    assert ApplyAll(h, w) == Set(h, n, TranslateAll(p.allowList));
    if h != [] {
      assert h[1..] == [];
    }
  }

  /** A one-entry Feature-Policy value reads as that entry. */
  lemma FeaturePolicyOne(n: string, t: string)
    requires FeaturePolicy.IsToken(n) && FeaturePolicy.IsToken(t)
    ensures FeaturePolicy.Serialize([(n, [t])]) == n + " " + t
    ensures FeaturePolicy.Parse(n + " " + t) == [(n, [t])]
  {
    var e := (n, [t]);
    assert Join([t], " ") == t;
    assert Render([e], FeaturePolicy.SerializeEntry) == [n + " " + t];
    FeaturePolicy.RoundTrip([e]);
  }

  /** The customisation reaches both headers: `'none'` verbatim in Feature-Policy, the empty token in Permissions-Policy. */
  lemma FeatureAOffMerged(h: PolicyMap)
    requires h == [] || (|h| == 1 && h[0].0 == "FeatureA")
    ensures FeaturePolicy.Serialize(OverrideFeaturePolicyHeader(FeatureAOff, h)) == "FeatureA 'none'"
    ensures PermissionsPolicy.Serialize(OverridePermissionsPolicyHeader(FeatureAOff, h)) == "FeatureA=()"
  {
    OverrideOne(FeatureAOff, h, "FeatureA", Policy(false, ["'none'"]));
    FeatureAOffText();
  }

  lemma FeatureAOffText()
    ensures FeaturePolicy.Serialize([("FeatureA", FeatureAOff[0].1.allowList)]) == "FeatureA 'none'"
    ensures PermissionsPolicy.Serialize([("FeatureA", TranslateAll(FeatureAOff[0].1.allowList))]) == "FeatureA=()"
  {
    FeatureAOffFeaturePolicyText();
    FeatureAOffPermissionsPolicyText();
  }

  lemma FeatureAOffFeaturePolicyText()
    ensures FeaturePolicy.Serialize([("FeatureA", ["'none'"])]) == "FeatureA 'none'"
  {
    FeaturePolicyOne("FeatureA", "'none'");
    ScenarioText();
  }

  /** The scenario values as concatenations; kept apart from the parsing proofs, where literal equalities are costly. */
  lemma ScenarioText()
    ensures "FeatureA" + " " + "'none'" == "FeatureA 'none'"
    ensures "FeatureA *" == "FeatureA" + " " + "*"
    ensures "FeatureA=*" == "FeatureA" + "=" + "*"
  {
  }

  lemma FeatureAOffPermissionsPolicyText()
    ensures PermissionsPolicy.Serialize([("FeatureA", TranslateAll(["'none'"]))]) == "FeatureA=()"
  {
    assert TranslateAll(["'none'"]) == [""];
    PermissionsPolicy.SerializeSingle("FeatureA", "");
    assert "FeatureA" + "=(" + "" + ")" == "FeatureA=()";
  }

  /** A lone Feature-Policy header contributes its value to that family only. */
  lemma LoneFeaturePolicyHeader(x: Header)
    requires IsFeaturePolicyHeader(x) && !IsPermissionsPolicyHeader(x)
    ensures JoinedFeaturePolicy([x]) == x.value
    ensures JoinedPermissionsPolicy([x]) == ""
    ensures Filter([x], IsOtherHeader) == []
  {
    FilterAll([x], IsFeaturePolicyHeader);
    FilterNone([x], IsPermissionsPolicyHeader);
    FilterNone([x], IsOtherHeader);
    assert Values([x]) == [x.value];
  }

  /** A lone Permissions-Policy header contributes its value to that family only. */
  lemma LonePermissionsPolicyHeader(x: Header)
    requires IsPermissionsPolicyHeader(x) && !IsFeaturePolicyHeader(x)
    ensures JoinedPermissionsPolicy([x]) == x.value
    ensures JoinedFeaturePolicy([x]) == ""
    ensures Filter([x], IsOtherHeader) == []
  {
    FilterAll([x], IsPermissionsPolicyHeader);
    FilterNone([x], IsFeaturePolicyHeader);
    FilterNone([x], IsOtherHeader);
    assert Values([x]) == [x.value];
  }

  lemma FeatureAStar()
    ensures FeaturePolicy.Parse("FeatureA *") == [("FeatureA", ["*"])]
    ensures PermissionsPolicy.Parse("FeatureA=*") == [("FeatureA", ["*"])]
  {
    FeatureAStarFeaturePolicy();
    FeatureAStarPermissionsPolicy();
  }

  lemma FeatureAStarFeaturePolicy()
    ensures FeaturePolicy.Parse("FeatureA *") == [("FeatureA", ["*"])]
  {
    ScenarioText();
    FeaturePolicyOneAt("FeatureA", "*", "FeatureA *");
  }

  lemma FeatureAStarPermissionsPolicy()
    ensures PermissionsPolicy.Parse("FeatureA=*") == [("FeatureA", ["*"])]
  {
    ScenarioText();
    ShorthandAt("FeatureA", "*", "FeatureA=*");
  }

  /** A one-entry legacy value, given as the written-out string, reads as that entry. */
  lemma FeaturePolicyOneAt(n: string, t: string, s: string)
    requires FeaturePolicy.IsToken(n) && FeaturePolicy.IsToken(t)
    requires s == n + " " + t
    ensures FeaturePolicy.Parse(s) == [(n, [t])]
  {
    FeaturePolicyOne(n, t);
  }

  /** A lone shorthand member, for a value already written out. */
  lemma ShorthandAt(n: string, v: string, s: string)
    requires PermissionsPolicy.IsName(n)
    requires PermissionsPolicy.IsToken(v) && v != "" && v[0] != '('
    requires s == n + "=" + v
    ensures PermissionsPolicy.Parse(s) == [(n, [v])]
  {
    PermissionsPolicy.ShorthandNormalised(n, v);
  }

  /** The received Feature-Policy `FeatureA *` is overridden and a Permissions-Policy entry is added. */
  lemma OverrideFeaturePolicyScenario()
    ensures OverrideResponseHeaders(FeatureAOff, [Header("Feature-Policy", "FeatureA *")])
         == [Header("Feature-Policy", "FeatureA 'none'"), Header("Permissions-Policy", "FeatureA=()")]
  {
    var x := Header(FeaturePolicyHeaderName, "FeatureA *");
    FeaturePolicyNameClassified();
    ClassifiedByName(x);
    LoneFeaturePolicyHeader(x);
    FeatureAStar();
    PermissionsPolicy.ParseEmpty();
    FeatureAOffMerged(FeaturePolicy.Parse(JoinedFeaturePolicy([x])));
    FeatureAOffMerged(PermissionsPolicy.Parse(JoinedPermissionsPolicy([x])));
    BothEmitted(FeatureAOff, [x], "FeatureA 'none'", "FeatureA=()");
  }

  /** The received Permissions-Policy `FeatureA=*` is overridden and a Feature-Policy entry is added in front. */
  lemma OverridePermissionsPolicyScenario()
    ensures OverrideResponseHeaders(FeatureAOff, [Header("Permissions-Policy", "FeatureA=*")])
         == [Header("Feature-Policy", "FeatureA 'none'"), Header("Permissions-Policy", "FeatureA=()")]
  {
    var x := Header(PermissionsPolicyHeaderName, "FeatureA=*");
    PermissionsPolicyNameClassified();
    ClassifiedByName(x);
    LonePermissionsPolicyHeader(x);
    FeatureAStar();
    FeaturePolicy.ParseEmpty();
    FeatureAOffMerged(FeaturePolicy.Parse(JoinedFeaturePolicy([x])));
    FeatureAOffMerged(PermissionsPolicy.Parse(JoinedPermissionsPolicy([x])));
    BothEmitted(FeatureAOff, [x], "FeatureA 'none'", "FeatureA=()");
  }

  /** An unrelated header, then one of each policy family: each family gets its own value and the unrelated header stays. */
  lemma ThreeHeaders(o: Header, y: Header, z: Header)
    requires IsOtherHeader(o)
    requires IsFeaturePolicyHeader(y) && !IsPermissionsPolicyHeader(y)
    requires IsPermissionsPolicyHeader(z) && !IsFeaturePolicyHeader(z)
    ensures JoinedFeaturePolicy([o, y, z]) == y.value
    ensures JoinedPermissionsPolicy([o, y, z]) == z.value
    ensures Filter([o, y, z], IsOtherHeader) == [o]
  {
    var hs := [o, y, z];
    assert hs[1..] == [y, z];
    assert hs[1..][1..] == [z];
    assert [z][1..] == [];
    assert Filter([z], IsFeaturePolicyHeader) == [];
    assert Filter([y, z], IsFeaturePolicyHeader) == [y];
    assert Filter(hs, IsFeaturePolicyHeader) == [y];
    assert Filter([z], IsOtherHeader) == [];
    assert Filter([y, z], IsOtherHeader) == [];
    assert Filter([z], IsPermissionsPolicyHeader) == [z];
    assert Filter(hs, IsPermissionsPolicyHeader) == [z];
    assert Values([y]) == [y.value];
    assert Values([z]) == [z.value];
  }

  /** Empty policy headers are replaced by the customisation, the unrelated header is kept behind them. */
  lemma KeepOtherHeadersScenario()
    ensures OverrideResponseHeaders(FeatureAOff, [Other, Header("Feature-Policy", ""), Header("Permissions-Policy", "")])
         == [Header("Feature-Policy", "FeatureA 'none'"), Header("Permissions-Policy", "FeatureA=()"), Other]
  {
    KeepOtherHeaders([Other, Header("Feature-Policy", ""), Header("Permissions-Policy", "")]);
  }

  lemma KeepOtherHeaders(hs: seq<Header>)
    requires hs == [Other, Header("Feature-Policy", ""), Header("Permissions-Policy", "")]
    ensures OverrideResponseHeaders(FeatureAOff, hs)
         == [Header("Feature-Policy", "FeatureA 'none'"), Header("Permissions-Policy", "FeatureA=()"), Other]
  {
    EmptyPolicyHeaders(hs);
    BothEmitted(FeatureAOff, hs, "FeatureA 'none'", "FeatureA=()");
    PolicyHeadersThenOther(OverrideResponseHeaders(FeatureAOff, hs), "FeatureA 'none'", "FeatureA=()", Other);
  }

  /** The two policy headers in front of one unrelated header, with the names written out. */
  lemma PolicyHeadersThenOther(out: seq<Header>, fp: string, pp: string, o: Header)
    requires out == [Header(FeaturePolicyHeaderName, fp), Header(PermissionsPolicyHeaderName, pp)] + [o]
    ensures out == [Header("Feature-Policy", fp), Header("Permissions-Policy", pp), o]
  {
  }

  /** In the scenario's response both families are present but empty, and `Other` is the only unrelated header. */
  lemma EmptyPolicyHeaders(hs: seq<Header>)
    requires hs == [Other, Header("Feature-Policy", ""), Header("Permissions-Policy", "")]
    ensures FeaturePolicy.Serialize(NewFeaturePolicy(FeatureAOff, hs)) == "FeatureA 'none'"
    ensures PermissionsPolicy.Serialize(NewPermissionsPolicy(FeatureAOff, hs)) == "FeatureA=()"
    ensures Filter(hs, IsOtherHeader) == [Other]
  {
    OtherIsOther();
    FeaturePolicyNameClassified();
    PermissionsPolicyNameClassified();
    ThreeHeaders(Other, hs[1], hs[2]);
    EmptyMerged(hs);
  }

  /** Merging the customisation into empty headers yields the customisation alone. */
  lemma EmptyMerged(hs: seq<Header>)
    requires JoinedFeaturePolicy(hs) == "" && JoinedPermissionsPolicy(hs) == ""
    ensures FeaturePolicy.Serialize(NewFeaturePolicy(FeatureAOff, hs)) == "FeatureA 'none'"
    ensures PermissionsPolicy.Serialize(NewPermissionsPolicy(FeatureAOff, hs)) == "FeatureA=()"
  {
    FeaturePolicy.ParseEmpty();
    PermissionsPolicy.ParseEmpty();
    FeatureAOffMerged([]);
  }

  /** The page's policy for `FeatureA` as the browser reports an unrestricted feature. */
  const PageAllowsFeatureA: Policies := [("FeatureA", Policy(true, ["*"]))]

  /** Toggling a feature the page allows records exactly the scenarios' customisation. */
  lemma ToggleScenario()
    ensures TogglePolicyOnPage(State(PageAllowsFeatureA, []), "FeatureA") == Ok(State(PageAllowsFeatureA, FeatureAOff))
    ensures BuildCustomizedPolicyList(State(PageAllowsFeatureA, FeatureAOff)) == FeatureAOff
  {
    assert Keys(PageAllowsFeatureA) == ["FeatureA"];
  }
}
