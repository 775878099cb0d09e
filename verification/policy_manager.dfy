/**
 * The permissions-policy manager: the user's per-feature customisations,
 * the page's original snapshot, and the rewriting of a response's
 * `Feature-Policy` and `Permissions-Policy` headers so that every
 * customised feature takes the user's allow-list.
 */
module PolicyManager {
  import opened Text
  import opened OrderedMap
  import opened PolicyHeader
  import FeaturePolicy
  import PermissionsPolicy

  /** What the page or the user set for one feature: whether it is allowed, and its allow-list in Feature-Policy vocabulary. */
  datatype Policy = Policy(allowed: bool, allowList: AllowList)

  /** Feature name to policy, in insertion order, as a plain object's `Object.entries` lists them. */
  type Policies = Assoc<string, Policy>

  /** The manager's two maps: the snapshot of what the page set, and the user's customisations. */
  datatype State = State(original: Policies, customized: Policies)

  /** The outcome of an operation that looks a feature up and may not find it. */
  datatype Result<T> = Ok(value: T) | UnknownFeature(feature: string)

  /**
   * One allow-list token from Feature-Policy vocabulary to
   * Permissions-Policy vocabulary: `*` stays, the `'self'` keyword loses
   * its quotes, `'none'` becomes the empty token and any origin is
   * double-quoted.
   */
  function TranslateToken(t: string): (r: string)
    ensures r == "*" <==> t == "*"
    ensures r == "self" <==> t == "'self'"
    ensures r == "" <==> t == "'none'"
    ensures t != "*" && t != "'self'" && t != "'none'" ==> |r| == |t| + 2 && r[0] == '"' && r[1..|r| - 1] == t && r[|r| - 1] == '"'
  {
    if t == "*" then "*"
    else if t == "'self'" then "self"
    else if t == "'none'" then ""
    else
      var r := "\"" + t + "\"";
      assert r[0] == '"';
      r
  }

  /** The Feature-Policy token a Permissions-Policy token came from, if any. */
  function UntranslateToken(r: string): Option<string>
  {
    if r == "*" then Some("*")
    else if r == "self" then Some("'self'")
    else if r == "" then Some("'none'")
    else if |r| >= 2 && r[0] == '"' && r[|r| - 1] == '"' then Some(r[1..|r| - 1])
    else None
  }

  /** Translation loses nothing: every token can be read back from its translation. */
  lemma TranslateRoundTrip(t: string)
    ensures UntranslateToken(TranslateToken(t)) == Some(t)
  {
    var r := TranslateToken(t);
    if t != "*" && t != "'self'" && t != "'none'" {
      assert r[0] == '"';
      assert r != "self" && r != "*";
    }
  }

  lemma TranslateInjective(a: string, b: string)
    ensures TranslateToken(a) == TranslateToken(b) ==> a == b
  {
    TranslateRoundTrip(a);
    TranslateRoundTrip(b);
  }

  /** The allow-list translated token by token: `allowList.map(allowlistItemFP2PP)`. */
  function TranslateAll(ts: AllowList): (rs: AllowList)
    ensures |rs| == |ts|
    ensures forall i :: 0 <= i < |ts| ==> rs[i] == TranslateToken(ts[i])
  {
    seq(|ts|, i requires 0 <= i < |ts| => TranslateToken(ts[i]))
  }

  /** Different allow-lists translate to different allow-lists. */
  lemma {:induction false} TranslateAllInjective(a: AllowList, b: AllowList)
    ensures TranslateAll(a) == TranslateAll(b) ==> a == b
  {
    if TranslateAll(a) == TranslateAll(b) {
      forall i | 0 <= i < |a|
        ensures a[i] == b[i]
      {
        TranslateInjective(a[i], b[i]);
      }
    }
  }

  /** The value a Feature-Policy header takes for a customised feature: its allow-list verbatim. */
  function FeaturePolicyTokens(p: Policy): AllowList
  {
    p.allowList
  }

  /** The value a Permissions-Policy header takes for a customised feature: its allow-list translated. */
  function PermissionsPolicyTokens(p: Policy): AllowList
  {
    TranslateAll(p.allowList)
  }

  /**
   * What setting every customised feature, in order, to `f` of its policy
   * does to a parsed header.
   */
  lemma {:induction false} OverrideMeaning(c: Policies, h: PolicyMap, f: Policy -> AllowList)
    ensures var r := ApplyAll(h, MapValues(c, f));
      && (forall k :: k in Keys(r) <==> k in Keys(h) || k in Keys(c))
      && (Distinct(Keys(c)) ==> forall k :: Lookup(r, k) == if k in Keys(c) then Some(f(Lookup(c, k).value)) else Lookup(h, k))
      && |h| <= |r| && (forall i :: 0 <= i < |h| ==> r[i].0 == h[i].0)
      && (Distinct(Keys(c)) ==> Keys(r) == Keys(h) + Fresh(Keys(c), Keys(h)))
      && (Distinct(Keys(h)) ==> Distinct(Keys(r)))
  {
    var u := MapValues(c, f);
    MapValuesKeys(c, f);
    ApplyAllMeaning(h, u);
    if Distinct(Keys(c)) {
      forall k | k in Keys(c)
        ensures LookupLast(u, k) == Some(f(Lookup(c, k).value))
      {
        LookupLastDistinct(u, k);
        MapValuesLookup(c, f, k);
      }
      ApplyAllKeyOrder(h, u);
    }
  }

  /**
   * `overrideFeaturePolicyHeader`: every customised feature takes its
   * allow-list, in place when the header names it and appended otherwise;
   * every other feature keeps its value and its slot.
   */
  function OverrideFeaturePolicyHeader(c: Policies, h: PolicyMap): (r: PolicyMap)
    ensures forall k :: k in Keys(r) <==> k in Keys(h) || k in Keys(c)
    ensures Distinct(Keys(c)) ==> forall k :: Lookup(r, k) == if k in Keys(c) then Some(Lookup(c, k).value.allowList) else Lookup(h, k)
    ensures |h| <= |r| && forall i :: 0 <= i < |h| ==> r[i].0 == h[i].0
    ensures Distinct(Keys(c)) ==> Keys(r) == Keys(h) + Fresh(Keys(c), Keys(h))
    ensures Distinct(Keys(h)) ==> Distinct(Keys(r))
  {
    OverrideMeaning(c, h, FeaturePolicyTokens);
    ApplyAll(h, MapValues(c, FeaturePolicyTokens))
  }

  /**
   * `overridePermissionsPolicyHeader`: as the Feature-Policy override, but
   * every customised allow-list is translated token by token first.
   */
  function OverridePermissionsPolicyHeader(c: Policies, h: PolicyMap): (r: PolicyMap)
    ensures forall k :: k in Keys(r) <==> k in Keys(h) || k in Keys(c)
    ensures Distinct(Keys(c)) ==> forall k :: Lookup(r, k) == if k in Keys(c) then Some(TranslateAll(Lookup(c, k).value.allowList)) else Lookup(h, k)
    ensures |h| <= |r| && forall i :: 0 <= i < |h| ==> r[i].0 == h[i].0
    ensures Distinct(Keys(c)) ==> Keys(r) == Keys(h) + Fresh(Keys(c), Keys(h))
    ensures Distinct(Keys(h)) ==> Distinct(Keys(r))
  {
    OverrideMeaning(c, h, PermissionsPolicyTokens);
    ApplyAll(h, MapValues(c, PermissionsPolicyTokens))
  }

  /** Overriding a header that already carries the customisations changes nothing. */
  lemma OverrideFeaturePolicyHeaderIdempotent(c: Policies, h: PolicyMap)
    requires Distinct(Keys(h))
    ensures OverrideFeaturePolicyHeader(c, OverrideFeaturePolicyHeader(c, h)) == OverrideFeaturePolicyHeader(c, h)
  {
    ApplyAllIdempotent(h, MapValues(c, FeaturePolicyTokens));
  }

  lemma OverridePermissionsPolicyHeaderIdempotent(c: Policies, h: PolicyMap)
    requires Distinct(Keys(h))
    ensures OverridePermissionsPolicyHeader(c, OverridePermissionsPolicyHeader(c, h)) == OverridePermissionsPolicyHeader(c, h)
  {
    ApplyAllIdempotent(h, MapValues(c, PermissionsPolicyTokens));
  }

  /** A response header as the browser hands it over. */
  datatype Header = Header(name: string, value: string)

  const FeaturePolicyHeaderName: string := "Feature-Policy"

  const PermissionsPolicyHeaderName: string := "Permissions-Policy"

  /** A header whose name contains `Feature-Policy`, in any case, anywhere. */
  predicate IsFeaturePolicyHeader(h: Header)
  {
    ContainsIgnoreCase(h.name, FeaturePolicyHeaderName)
  }

  /** A header whose name contains `Permissions-Policy`, in any case, anywhere. */
  predicate IsPermissionsPolicyHeader(h: Header)
  {
    ContainsIgnoreCase(h.name, PermissionsPolicyHeaderName)
  }

  predicate IsOtherHeader(h: Header)
  {
    !IsFeaturePolicyHeader(h) && !IsPermissionsPolicyHeader(h)
  }

  /** The headers satisfying `p`, in their original relative order: `Array.prototype.filter`. */
  function Filter(hs: seq<Header>, p: Header -> bool): (r: seq<Header>)
    ensures forall x :: x in r <==> x in hs && p(x)
    ensures |r| <= |hs|
  {
    if |hs| == 0 then []
    else (if p(hs[0]) then [hs[0]] else []) + Filter(hs[1..], p)
  }

  /** Filtering distributes over concatenation, so relative order is kept. */
  lemma {:induction false} FilterAppend(a: seq<Header>, b: seq<Header>, p: Header -> bool)
    ensures Filter(a + b, p) == Filter(a, p) + Filter(b, p)
    decreases |a|
  {
    if |a| == 0 {
      assert a + b == b;
    } else {
      assert (a + b)[1..] == a[1..] + b;
      FilterAppend(a[1..], b, p);
    }
  }

  /** When no header passes, the filter returns nothing. */
  lemma FilterNone(hs: seq<Header>, p: Header -> bool)
    requires forall x :: x in hs ==> !p(x)
    ensures Filter(hs, p) == []
  {
  }

  /** When every header passes, the filter returns the list itself. */
  lemma {:induction false} FilterAll(hs: seq<Header>, p: Header -> bool)
    requires forall x :: x in hs ==> p(x)
    ensures Filter(hs, p) == hs
    decreases |hs|
  {
    if |hs| > 0 {
      assert forall x :: x in hs[1..] ==> x in hs;
      FilterAll(hs[1..], p);
      assert [hs[0]] + hs[1..] == hs;
    }
  }

  function Values(hs: seq<Header>): (vs: seq<string>)
    ensures |vs| == |hs|
    ensures forall i :: 0 <= i < |hs| ==> vs[i] == hs[i].value
  {
    seq(|hs|, i requires 0 <= i < |hs| => hs[i].value)
  }

  /** The values of all Feature-Policy headers, in order, joined with `;`. */
  function JoinedFeaturePolicy(hs: seq<Header>): string
  {
    Join(Values(Filter(hs, IsFeaturePolicyHeader)), ";")
  }

  /** The values of all Permissions-Policy headers, in order, joined with `,`. */
  function JoinedPermissionsPolicy(hs: seq<Header>): string
  {
    Join(Values(Filter(hs, IsPermissionsPolicyHeader)), ",")
  }

  /** The Feature-Policy the rewritten response carries: the received one with the customisations applied. */
  function NewFeaturePolicy(c: Policies, hs: seq<Header>): PolicyMap
  {
    OverrideFeaturePolicyHeader(c, FeaturePolicy.Parse(JoinedFeaturePolicy(hs)))
  }

  function NewPermissionsPolicy(c: Policies, hs: seq<Header>): PolicyMap
  {
    OverridePermissionsPolicyHeader(c, PermissionsPolicy.Parse(JoinedPermissionsPolicy(hs)))
  }

  /** A header entry for a non-empty value, nothing for an empty one. */
  function Emit(name: string, value: string): (r: seq<Header>)
    ensures |r| <= 1
    ensures |r| == 1 <==> value != ""
    ensures |r| == 1 ==> r[0] == Header(name, value)
  {
    if value == "" then [] else [Header(name, value)]
  }

  /**
   * `overrideResponseHeaders`: the merged Feature-Policy entry first, the
   * merged Permissions-Policy entry second, each only when there is
   * something to say, then every unrelated header in its original order.
   */
  function OverrideResponseHeaders(c: Policies, hs: seq<Header>): (out: seq<Header>)
    ensures var others := Filter(hs, IsOtherHeader);
      |others| <= |out| <= |others| + 2 && out[|out| - |others|..] == others
    ensures var n := |out| - |Filter(hs, IsOtherHeader)|;
      |NewFeaturePolicy(c, hs)| > 0 <==> n > 0 && out[0] == Header(FeaturePolicyHeaderName, FeaturePolicy.Serialize(NewFeaturePolicy(c, hs)))
    ensures var n := |out| - |Filter(hs, IsOtherHeader)|;
      |NewPermissionsPolicy(c, hs)| > 0 <==> n > 0 && out[n - 1] == Header(PermissionsPolicyHeaderName, PermissionsPolicy.Serialize(NewPermissionsPolicy(c, hs)))
    ensures forall i :: 0 <= i < |out| - |Filter(hs, IsOtherHeader)| ==> out[i].value != ""
    ensures |out| - |Filter(hs, IsOtherHeader)|
         == (if |NewFeaturePolicy(c, hs)| > 0 then 1 else 0) + (if |NewPermissionsPolicy(c, hs)| > 0 then 1 else 0)
  {
    var fp := FeaturePolicy.Serialize(NewFeaturePolicy(c, hs));
    var pp := PermissionsPolicy.Serialize(NewPermissionsPolicy(c, hs));
    var others := Filter(hs, IsOtherHeader);
    assert fp != "" <==> |NewFeaturePolicy(c, hs)| > 0;
    assert pp != "" <==> |NewPermissionsPolicy(c, hs)| > 0;
    Layout(fp, pp, others);
    Emit(FeaturePolicyHeaderName, fp) + Emit(PermissionsPolicyHeaderName, pp) + others
  }

  lemma Layout(fp: string, pp: string, others: seq<Header>)
    ensures var out := Emit(FeaturePolicyHeaderName, fp) + Emit(PermissionsPolicyHeaderName, pp) + others;
      && |others| <= |out| <= |others| + 2 && out[|out| - |others|..] == others
      && (fp != "" <==> |out| > |others| && out[0] == Header(FeaturePolicyHeaderName, fp))
      && (pp != "" <==> |out| > |others| && out[|out| - |others| - 1] == Header(PermissionsPolicyHeaderName, pp))
      && (forall i :: 0 <= i < |out| - |others| ==> out[i].value != "")
      && |out| - |others| == (if fp != "" then 1 else 0) + (if pp != "" then 1 else 0)
  {
    var e := Emit(FeaturePolicyHeaderName, fp) + Emit(PermissionsPolicyHeaderName, pp);
    var out := e + others;
    EmittedCount(fp, pp);
    assert out[|e|..] == others;
    assert FeaturePolicyHeaderName != PermissionsPolicyHeaderName;
  }

  /** One entry per non-empty value. */
  lemma EmittedCount(fp: string, pp: string)
    ensures |Emit(FeaturePolicyHeaderName, fp) + Emit(PermissionsPolicyHeaderName, pp)|
         == (if fp != "" then 1 else 0) + (if pp != "" then 1 else 0)
  {
  }

  /** A merged header is empty exactly when nothing was received and nothing is customised. */
  lemma MergedEmpty(c: Policies, hs: seq<Header>)
    ensures |NewFeaturePolicy(c, hs)| == 0 <==> |c| == 0 && |FeaturePolicy.Parse(JoinedFeaturePolicy(hs))| == 0
    ensures |NewPermissionsPolicy(c, hs)| == 0 <==> |c| == 0 && |PermissionsPolicy.Parse(JoinedPermissionsPolicy(hs))| == 0
  {
    var h := FeaturePolicy.Parse(JoinedFeaturePolicy(hs));
    var h' := PermissionsPolicy.Parse(JoinedPermissionsPolicy(hs));
    if |c| > 0 {
      assert c[0].0 in Keys(c);
    }
    if |h| > 0 {
      assert h[0].0 in Keys(h);
    }
    if |h'| > 0 {
      assert h'[0].0 in Keys(h');
    }
    if |NewFeaturePolicy(c, hs)| > 0 {
      assert NewFeaturePolicy(c, hs)[0].0 in Keys(NewFeaturePolicy(c, hs));
    }
    if |NewPermissionsPolicy(c, hs)| > 0 {
      assert NewPermissionsPolicy(c, hs)[0].0 in Keys(NewPermissionsPolicy(c, hs));
    }
  }

  /** With nothing customised and no policy header received, the response headers pass through unchanged. */
  lemma PassThrough(hs: seq<Header>)
    requires forall h :: h in hs ==> IsOtherHeader(h)
    ensures OverrideResponseHeaders([], hs) == hs
  {
    FilterAll(hs, IsOtherHeader);
    FilterNone(hs, IsFeaturePolicyHeader);
    FilterNone(hs, IsPermissionsPolicyHeader);
    FeaturePolicy.ParseEmpty();
    PermissionsPolicy.ParseEmpty();
    MergedEmpty([], hs);
  }

  /** Customisations a Feature-Policy header can carry: names and tokens free of white space and `;`. */
  predicate FeaturePolicyExpressible(c: Policies)
  {
    forall e :: e in c ==> FeaturePolicy.IsToken(e.0) && forall t :: t in e.1.allowList ==> FeaturePolicy.IsToken(t)
  }

  /** Merging expressible customisations into a well-formed Feature-Policy header keeps it well formed. */
  lemma {:induction false} OverrideKeepsFeaturePolicyWellFormed(c: Policies, h: PolicyMap)
    requires FeaturePolicy.WellFormed(h) && FeaturePolicyExpressible(c)
    ensures FeaturePolicy.WellFormed(OverrideFeaturePolicyHeader(c, h))
  {
    var u := MapValues(c, FeaturePolicyTokens);
    ApplyAllMeaning(h, u);
    forall e | e in ApplyAll(h, u)
      ensures FeaturePolicy.WellFormedEntry(e)
    {
      if e !in h {
        var i :| 0 <= i < |u| && u[i] == e;
        assert c[i] in c;
      }
    }
  }

  /**
   * End to end: the emitted Feature-Policy value reads back as the merged
   * map, so a browser parsing it sees every customised feature with the
   * user's allow-list.
   */
  lemma FeaturePolicyOverrideReadsBack(c: Policies, hs: seq<Header>, k: string)
    requires Distinct(Keys(c)) && FeaturePolicyExpressible(c)
    requires k in Keys(c)
    ensures FeaturePolicy.Parse(FeaturePolicy.Serialize(NewFeaturePolicy(c, hs))) == NewFeaturePolicy(c, hs)
    ensures Lookup(FeaturePolicy.Parse(FeaturePolicy.Serialize(NewFeaturePolicy(c, hs))), k) == Some(Lookup(c, k).value.allowList)
  {
    OverrideKeepsFeaturePolicyWellFormed(c, FeaturePolicy.Parse(JoinedFeaturePolicy(hs)));
    FeaturePolicy.RoundTrip(NewFeaturePolicy(c, hs));
  }

  /** Translation keeps a token free of white space and `,`. */
  lemma TranslateKeepsToken(t: string)
    requires PermissionsPolicy.IsToken(t)
    ensures PermissionsPolicy.IsToken(TranslateToken(t))
  {
    var r := TranslateToken(t);
    if t != "*" && t != "'self'" && t != "'none'" {
      assert r == "\"" + t + "\"";
      forall ch | ch in r
        ensures ch !in Whitespace && ch != ','
      {
        var i :| 0 <= i < |r| && r[i] == ch;
        if 0 < i < |r| - 1 {
          assert ch == t[i - 1];
        }
      }
    }
  }

  /** Customisations a Permissions-Policy header can carry: names it reads back, non-empty allow-lists of tokens free of white space and `,`. */
  predicate PermissionsPolicyExpressible(c: Policies)
  {
    forall e :: e in c ==> PermissionsPolicy.IsName(e.0) && |e.1.allowList| >= 1 && forall t :: t in e.1.allowList ==> PermissionsPolicy.IsToken(t)
  }

  /** An expressible customisation, translated, is an entry the Permissions-Policy codec reads back. */
  lemma TranslatedEntryWellFormed(n: string, p: Policy)
    requires PermissionsPolicyExpressible([(n, p)])
    ensures PermissionsPolicy.WellFormedEntry((n, TranslateAll(p.allowList)))
  {
    assert (n, p) in [(n, p)];
    var ts := TranslateAll(p.allowList);
    forall t | t in ts
      ensures PermissionsPolicy.IsToken(t)
    {
      var j :| 0 <= j < |ts| && ts[j] == t;
      assert p.allowList[j] in p.allowList;
      TranslateKeepsToken(p.allowList[j]);
    }
  }

  /** Merging expressible customisations into a well-formed Permissions-Policy header keeps it well formed. */
  lemma {:induction false} OverrideKeepsPermissionsPolicyWellFormed(c: Policies, h: PolicyMap)
    requires PermissionsPolicy.WellFormed(h) && PermissionsPolicyExpressible(c)
    ensures PermissionsPolicy.WellFormed(OverridePermissionsPolicyHeader(c, h))
  {
    var u := MapValues(c, PermissionsPolicyTokens);
    ApplyAllMeaning(h, u);
    forall e | e in ApplyAll(h, u)
      ensures PermissionsPolicy.WellFormedEntry(e)
    {
      if e !in h {
        var i :| 0 <= i < |u| && u[i] == e;
        assert c[i] in c;
        TranslatedEntryWellFormed(c[i].0, c[i].1);
      }
    }
  }

  /**
   * End to end for Permissions-Policy: when the received header is one the
   * codec reads back, the emitted value reads back as the merged map and
   * every customised feature carries its translated allow-list.
   */
  lemma PermissionsPolicyOverrideReadsBack(c: Policies, hs: seq<Header>, k: string)
    requires Distinct(Keys(c)) && PermissionsPolicyExpressible(c)
    requires PermissionsPolicy.WellFormed(PermissionsPolicy.Parse(JoinedPermissionsPolicy(hs)))
    requires k in Keys(c)
    ensures PermissionsPolicy.Parse(PermissionsPolicy.Serialize(NewPermissionsPolicy(c, hs))) == NewPermissionsPolicy(c, hs)
    ensures Lookup(PermissionsPolicy.Parse(PermissionsPolicy.Serialize(NewPermissionsPolicy(c, hs))), k) == Some(TranslateAll(Lookup(c, k).value.allowList))
  {
    OverrideKeepsPermissionsPolicyWellFormed(c, PermissionsPolicy.Parse(JoinedPermissionsPolicy(hs)));
    PermissionsPolicy.RoundTrip(NewPermissionsPolicy(c, hs));
  }

  /** The allowed flag a toggle starts from: the customised one if any, else the page's. */
  function Baseline(st: State, f: string): (b: Option<bool>)
    ensures b.None? <==> f !in Keys(st.customized) && f !in Keys(st.original)
  {
    match Lookup(st.customized, f)
    case Some(p) => Some(p.allowed)
    case None =>
      match Lookup(st.original, f)
      case Some(p) => Some(p.allowed)
      case None => None
  }

  /** The policy a toggle leaves: allowed for all origins, or for none. */
  function ToggledPolicy(allowed: bool): (p: Policy)
    ensures p.allowed == allowed
    ensures p.allowList == if allowed then ["*"] else ["'none'"]
  {
    Policy(allowed, if allowed then ["*"] else ["'none'"])
  }

  /**
   * `togglePolicyOnPage`: flips the feature's allowed flag, starting from
   * its customisation if there is one and from the page's policy otherwise,
   * and records the result as a customisation. A feature in neither map
   * fails (the source reads a property of `undefined`).
   */
  function TogglePolicyOnPage(st: State, f: string): (r: Result<State>)
    ensures r.UnknownFeature? <==> f !in Keys(st.customized) && f !in Keys(st.original)
    ensures r.UnknownFeature? ==> r.feature == f
    ensures r.Ok? ==> r.value.original == st.original
    ensures r.Ok? && f in Keys(st.customized) ==> Lookup(r.value.customized, f) == Some(ToggledPolicy(!Lookup(st.customized, f).value.allowed))
    ensures r.Ok? && f !in Keys(st.customized) ==> Lookup(r.value.customized, f) == Some(ToggledPolicy(!Lookup(st.original, f).value.allowed))
    ensures r.Ok? ==> forall k :: k != f ==> Lookup(r.value.customized, k) == Lookup(st.customized, k)
    ensures r.Ok? ==> Keys(r.value.customized) == if f in Keys(st.customized) then Keys(st.customized) else Keys(st.customized) + [f]
  {
    match Baseline(st, f)
    case Some(b) => Ok(st.(customized := Set(st.customized, f, ToggledPolicy(!b))))
    case None => UnknownFeature(f)
  }

  /** Toggling twice succeeds and restores the flag the first toggle started from. */
  lemma ToggleTwice(st: State, f: string)
    requires TogglePolicyOnPage(st, f).Ok?
    ensures var st' := TogglePolicyOnPage(st, f).value;
      && TogglePolicyOnPage(st', f).Ok?
      && Lookup(TogglePolicyOnPage(st', f).value.customized, f) == Some(ToggledPolicy(Baseline(st, f).value))
      && TogglePolicyOnPage(st', f).value.original == st.original
  {
  }

  /**
   * `buildCustomizedPolicyList`: the page's features in the page's order,
   * each with the customised policy where there is one and the page's
   * otherwise.
   */
  function BuildCustomizedPolicyList(st: State): (list: Policies)
    ensures Keys(list) == Keys(st.original)
    ensures forall i :: 0 <= i < |list| ==> st.original[i].0 in Keys(st.customized) ==> list[i].1 == Lookup(st.customized, st.original[i].0).value
    ensures forall i :: 0 <= i < |list| ==> st.original[i].0 !in Keys(st.customized) ==> list[i].1 == st.original[i].1
  {
    var o := st.original;
    var list := seq(|o|, i requires 0 <= i < |o| =>
      (o[i].0, match Lookup(st.customized, o[i].0) case Some(p) => p case None => o[i].1));
    assert forall i :: 0 <= i < |list| ==> Keys(list)[i] == Keys(o)[i];
    list
  }

  /**
   * Looking a feature up in the built list: a customised page feature gives
   * its customisation, an uncustomised one the page's policy, and a feature
   * the page did not report nothing, however it was customised.
   */
  lemma BuildLookup(st: State, f: string)
    requires Distinct(Keys(st.original))
    ensures Lookup(BuildCustomizedPolicyList(st), f) ==
      if f !in Keys(st.original) then None
      else if f in Keys(st.customized) then Lookup(st.customized, f)
      else Lookup(st.original, f)
  {
    var list := BuildCustomizedPolicyList(st);
    if f in Keys(st.original) {
      var i :| 0 <= i < |st.original| && st.original[i].0 == f;
      assert list[i].0 == f;
    }
  }

  /** `restoreOriginalPoliciesSetByPage`: both the customisations and the snapshot are dropped. */
  function RestoreOriginalPoliciesSetByPage(st: State): (r: State)
    ensures r.customized == [] && r.original == []
  {
    State([], [])
  }

  /** After a restore every toggle fails, the built list is empty and no customisation reaches a header. */
  lemma RestoreForgets(st: State, f: string, hs: seq<Header>)
    ensures TogglePolicyOnPage(RestoreOriginalPoliciesSetByPage(st), f).UnknownFeature?
    ensures BuildCustomizedPolicyList(RestoreOriginalPoliciesSetByPage(st)) == []
    ensures NewFeaturePolicy(RestoreOriginalPoliciesSetByPage(st).customized, hs) == FeaturePolicy.Parse(JoinedFeaturePolicy(hs))
  {
  }
}
