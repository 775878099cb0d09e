/**
 * Insertion-ordered maps as association lists, the shape of a JavaScript
 * `Map` and of a plain object's `Object.entries`: keys keep the slot they
 * were first inserted in, and `Set` replaces in place or appends.
 */
module OrderedMap {

  datatype Option<T> = None | Some(value: T)

  type Assoc<K, V> = seq<(K, V)>

  function Keys<K, V>(h: Assoc<K, V>): (ks: seq<K>)
    ensures |ks| == |h|
    ensures forall i :: 0 <= i < |h| ==> ks[i] == h[i].0
  {
    seq(|h|, i requires 0 <= i < |h| => h[i].0)
  }

  predicate Distinct<K(==, !new)>(ks: seq<K>)
  {
    forall i, j :: 0 <= i < j < |ks| ==> ks[i] != ks[j]
  }

  /** The value stored under `k` (the first slot holding `k`), as `Map.prototype.get`. */
  function Lookup<K(==, !new), V>(h: Assoc<K, V>, k: K): (r: Option<V>)
    ensures r.Some? <==> k in Keys(h)
    ensures Distinct(Keys(h)) ==> forall i :: 0 <= i < |h| && h[i].0 == k ==> r == Some(h[i].1)
  {
    if |h| == 0 then None
    else if h[0].0 == k then Some(h[0].1)
    else Lookup(h[1..], k)
  }

  /**
   * Insert-or-replace, as `Map.prototype.set`: a key already present keeps
   * its slot and takes the new value, a new key is appended at the end, and
   * every other key keeps its value.
   */
  function Set<K(==, !new), V>(h: Assoc<K, V>, k: K, v: V): (r: Assoc<K, V>)
    ensures Keys(r) == if k in Keys(h) then Keys(h) else Keys(h) + [k]
    ensures forall k' :: Lookup(r, k') == if k' == k then Some(v) else Lookup(h, k')
  {
    if |h| == 0 then [(k, v)]
    else if h[0].0 == k then
      var r := [(k, v)] + h[1..];
      assert Keys(r) == Keys(h);
      r
    else
      var t := Set(h[1..], k, v);
      var r := [h[0]] + t;
      assert r[1..] == t;
      KeysCons(h[0], t);
      KeysCons(h[0], h[1..]);
      assert [h[0]] + h[1..] == h;
      r
  }

  lemma KeysCons<K, V>(x: (K, V), t: Assoc<K, V>)
    ensures Keys([x] + t) == [x.0] + Keys(t)
  {
  }

  /** `Set` adds no entry but the new one. */
  lemma {:induction false} SetEntries<K(!new), V>(h: Assoc<K, V>, k: K, v: V)
    ensures forall e :: e in Set(h, k, v) ==> e in h || e == (k, v)
    decreases |h|
  {
    if |h| > 0 && h[0].0 != k {
      SetEntries(h[1..], k, v);
      assert Set(h, k, v) == [h[0]] + Set(h[1..], k, v);
    }
  }

  /** `Set` keeps keys distinct. */
  lemma SetDistinct<K(!new), V>(h: Assoc<K, V>, k: K, v: V)
    requires Distinct(Keys(h))
    ensures Distinct(Keys(Set(h, k, v)))
  {
    var kh := Keys(h);
    if k !in kh {
      var ks := kh + [k];
      assert Keys(Set(h, k, v)) == ks;
      forall i, j | 0 <= i < j < |ks|
        ensures ks[i] != ks[j]
      {
        assert ks[i] == kh[i];
        if j == |kh| {
          assert kh[i] in kh;
        } else {
          assert ks[j] == kh[j];
        }
      }
    }
  }

  /** The value of the last update for `k` in `u`, the one a left-to-right sequence of `Set`s leaves behind. */
  function LookupLast<K(==, !new), V>(u: Assoc<K, V>, k: K): (r: Option<V>)
    ensures r.Some? <==> k in Keys(u)
  {
    if |u| == 0 then None
    else if u[|u| - 1].0 == k then Some(u[|u| - 1].1)
    else
      assert Keys(u) == Keys(u[..|u| - 1]) + [u[|u| - 1].0];
      LookupLast(u[..|u| - 1], k)
  }

  /** Applies `Set` for every update of `u`, from first to last: the `for (const [k, v] of ...) h.set(k, v)` loop. */
  function ApplyAll<K(==, !new), V>(h: Assoc<K, V>, u: Assoc<K, V>): Assoc<K, V>
    decreases |u|
  {
    if |u| == 0 then h
    else Set(ApplyAll(h, u[..|u| - 1]), u[|u| - 1].0, u[|u| - 1].1)
  }

  /**
   * What a round of updates leaves behind: every original key keeps its
   * slot, the keys are those of `h` and `u`, an updated key holds its last
   * update and any other key its original value.
   */
  lemma ApplyAllMeaning<K(!new), V>(h: Assoc<K, V>, u: Assoc<K, V>)
    ensures |h| <= |ApplyAll(h, u)|
    ensures forall i :: 0 <= i < |h| ==> ApplyAll(h, u)[i].0 == h[i].0
    ensures forall k :: k in Keys(ApplyAll(h, u)) <==> k in Keys(h) || k in Keys(u)
    ensures forall k :: Lookup(ApplyAll(h, u), k) == if k in Keys(u) then LookupLast(u, k) else Lookup(h, k)
    ensures forall e :: e in ApplyAll(h, u) ==> e in h || e in u
    ensures Distinct(Keys(h)) ==> Distinct(Keys(ApplyAll(h, u)))
  {
    ApplyAllSlots(h, u);
    ApplyAllLookup(h, u);
    ApplyAllEntries(h, u);
    if Distinct(Keys(h)) {
      ApplyAllDistinct(h, u);
    }
  }

  /** The last update of a non-empty round, and the round before it. */
  lemma LastUpdate<K, V>(u: Assoc<K, V>)
    requires |u| > 0
    ensures u == u[..|u| - 1] + [u[|u| - 1]]
    ensures Keys(u) == Keys(u[..|u| - 1]) + [u[|u| - 1].0]
  {
    var init, e := u[..|u| - 1], u[|u| - 1];
    assert u == init + [e];
    var ks := Keys(init) + [e.0];
    assert |Keys(u)| == |ks|;
    forall i | 0 <= i < |u|
      ensures Keys(u)[i] == ks[i]
    {
      if i < |init| {
        assert ks[i] == Keys(init)[i] == init[i].0;
      }
    }
  }

  lemma {:induction false} ApplyAllSlots<K(!new), V>(h: Assoc<K, V>, u: Assoc<K, V>)
    ensures |h| <= |ApplyAll(h, u)|
    ensures forall i :: 0 <= i < |h| ==> ApplyAll(h, u)[i].0 == h[i].0
    ensures forall k :: k in Keys(ApplyAll(h, u)) <==> k in Keys(h) || k in Keys(u)
    decreases |u|
  {
    if |u| > 0 {
      LastUpdate(u);
      ApplyAllSlots(h, u[..|u| - 1]);
    }
  }

  lemma {:induction false} ApplyAllLookup<K(!new), V>(h: Assoc<K, V>, u: Assoc<K, V>)
    ensures forall k :: Lookup(ApplyAll(h, u), k) == if k in Keys(u) then LookupLast(u, k) else Lookup(h, k)
    decreases |u|
  {
    if |u| > 0 {
      LastUpdate(u);
      ApplyAllLookup(h, u[..|u| - 1]);
    }
  }

  lemma {:induction false} ApplyAllEntries<K(!new), V>(h: Assoc<K, V>, u: Assoc<K, V>)
    ensures forall e :: e in ApplyAll(h, u) ==> e in h || e in u
    decreases |u|
  {
    if |u| > 0 {
      LastUpdate(u);
      ApplyAllEntries(h, u[..|u| - 1]);
      SetEntries(ApplyAll(h, u[..|u| - 1]), u[|u| - 1].0, u[|u| - 1].1);
    }
  }

  lemma {:induction false} ApplyAllDistinct<K(!new), V>(h: Assoc<K, V>, u: Assoc<K, V>)
    requires Distinct(Keys(h))
    ensures Distinct(Keys(ApplyAll(h, u)))
    decreases |u|
  {
    if |u| > 0 {
      ApplyAllDistinct(h, u[..|u| - 1]);
      SetDistinct(ApplyAll(h, u[..|u| - 1]), u[|u| - 1].0, u[|u| - 1].1);
    }
  }

  lemma KeysAppend<K, V>(a: Assoc<K, V>, b: Assoc<K, V>)
    ensures Keys(a + b) == Keys(a) + Keys(b)
  {
  }

  /** With distinct keys, the last update for a key is its only one. */
  lemma {:induction false} LookupLastDistinct<K(!new), V>(u: Assoc<K, V>, k: K)
    requires Distinct(Keys(u))
    ensures LookupLast(u, k) == Lookup(u, k)
    decreases |u|
  {
    if |u| > 0 {
      var init := u[..|u| - 1];
      assert Keys(u) == Keys(init) + [u[|u| - 1].0];
      LookupLastDistinct(init, k);
      if u[|u| - 1].0 != k && k in Keys(init) {
        var i :| 0 <= i < |init| && init[i].0 == k;
        assert u[i] == init[i];
      }
    }
  }

  /** Maps with the same key sequence and the same value for every key are equal. */
  lemma {:induction false} SameKeysSameLookups<K(!new), V>(a: Assoc<K, V>, b: Assoc<K, V>)
    requires Distinct(Keys(a))
    requires Keys(a) == Keys(b)
    requires forall k :: Lookup(a, k) == Lookup(b, k)
    ensures a == b
  {
    forall i | 0 <= i < |a|
      ensures a[i] == b[i]
    {
      assert Lookup(a, a[i].0) == Some(a[i].1);
      assert Lookup(b, b[i].0) == Some(b[i].1);
    }
  }

  /** `Set` of a key not yet present appends it. */
  lemma {:induction false} SetNew<K(!new), V>(h: Assoc<K, V>, k: K, v: V)
    requires k !in Keys(h)
    ensures Set(h, k, v) == h + [(k, v)]
  {
    if |h| > 0 {
      assert [h[0]] + (h[1..] + [(k, v)]) == h + [(k, v)];
      assert Keys(h) == [h[0].0] + Keys(h[1..]);
      SetNew(h[1..], k, v);
      assert Set(h, k, v) == [h[0]] + Set(h[1..], k, v);
    }
  }

  lemma {:induction false} DistinctPrefix<K(!new)>(ks: seq<K>, n: nat)
    requires n <= |ks|
    requires Distinct(ks)
    ensures Distinct(ks[..n])
  {
  }

  /** Updates whose keys are all new and pairwise distinct are appended verbatim. */
  lemma {:induction false} ApplyAllFresh<K(!new), V>(h: Assoc<K, V>, u: Assoc<K, V>)
    requires Distinct(Keys(u))
    requires forall i :: 0 <= i < |u| ==> u[i].0 !in Keys(h)
    ensures ApplyAll(h, u) == h + u
    decreases |u|
  {
    if |u| > 0 {
      var init := u[..|u| - 1];
      var e := u[|u| - 1];
      assert h + u == h + init + [e] by {
        assert u == init + [e];
      }
      assert Keys(init) == Keys(u)[..|u| - 1];
      DistinctPrefix(Keys(u), |u| - 1);
      ApplyAllFresh(h, init);
      assert e.0 !in Keys(h + init) by {
        KeysAppend(h, init);
        assert e.0 !in Keys(init);
      }
      SetNew(h + init, e.0, e.1);
      assert ApplyAll(h, u) == Set(ApplyAll(h, init), e.0, e.1);
    }
  }

  /** Splitting the updates in two is the same as applying them in two rounds. */
  lemma {:induction false} ApplyAllAppend<K(!new), V>(h: Assoc<K, V>, a: Assoc<K, V>, b: Assoc<K, V>)
    ensures ApplyAll(h, a + b) == ApplyAll(ApplyAll(h, a), b)
    decreases |b|
  {
    if |b| == 0 {
      assert a + b == a;
    } else {
      var init := b[..|b| - 1];
      assert (a + b)[..|a + b| - 1] == a + init;
      assert (a + b)[|a + b| - 1] == b[|b| - 1];
      ApplyAllAppend(h, a, init);
    }
  }

  /** A map with distinct keys that extends `a` slot by slot but holds no key outside `a` is `a`'s length. */
  lemma {:induction false} NoExtraKeys<K(!new), V>(a: Assoc<K, V>, b: Assoc<K, V>)
    requires Distinct(Keys(b))
    requires |a| <= |b|
    requires forall i :: 0 <= i < |a| ==> b[i].0 == a[i].0
    requires forall k :: k in Keys(b) ==> k in Keys(a)
    ensures Keys(b) == Keys(a)
  {
    if |b| > |a| {
      SlotKeyListed(b, |a|);
      assert false;
    }
  }

  lemma SlotKeyListed<K, V>(h: Assoc<K, V>, i: int)
    requires 0 <= i < |h|
    ensures h[i].0 in Keys(h)
  {
    assert Keys(h)[i] == h[i].0;
  }

  /** A second round of the same updates changes nothing. */
  lemma {:induction false} ApplyAllIdempotent<K(!new), V>(h: Assoc<K, V>, u: Assoc<K, V>)
    requires Distinct(Keys(h))
    ensures ApplyAll(ApplyAll(h, u), u) == ApplyAll(h, u)
  {
    var h1 := ApplyAll(h, u);
    var h2 := ApplyAll(h1, u);
    ApplyAllMeaning(h, u);
    ApplyAllMeaning(h1, u);
    NoExtraKeys(h1, h2);
    SameKeysSameLookups(h2, h1);
  }

  /** The keys of `us` that are not in `ks`, in order. */
  function Fresh<K(==, !new)>(us: seq<K>, ks: seq<K>): (r: seq<K>)
    ensures forall k :: k in r <==> k in us && k !in ks
  {
    if |us| == 0 then []
    else if us[0] in ks then Fresh(us[1..], ks)
    else [us[0]] + Fresh(us[1..], ks)
  }

  lemma {:induction false} FreshAppend<K(!new)>(a: seq<K>, b: seq<K>, ks: seq<K>)
    ensures Fresh(a + b, ks) == Fresh(a, ks) + Fresh(b, ks)
  {
    if |a| > 0 {
      assert (a + b)[1..] == a[1..] + b;
      FreshAppend(a[1..], b, ks);
    } else {
      assert a + b == b;
    }
  }

  /**
   * With distinct updates, the result lists the original keys in their
   * slots followed by the new keys in the order of the updates.
   */
  lemma {:induction false} ApplyAllKeyOrder<K(!new), V>(h: Assoc<K, V>, u: Assoc<K, V>)
    requires Distinct(Keys(u))
    ensures Keys(ApplyAll(h, u)) == Keys(h) + Fresh(Keys(u), Keys(h))
    decreases |u|
  {
    if |u| > 0 {
      var init := u[..|u| - 1];
      var e := u[|u| - 1];
      assert u == init + [e];
      KeysAppend(init, [e]);
      assert Keys([e]) == [e.0];
      assert Keys(u) == Keys(init) + [e.0];
      assert Keys(init) == Keys(u)[..|u| - 1];
      DistinctPrefix(Keys(u), |u| - 1);
      ApplyAllKeyOrder(h, init);
      var mid := ApplyAll(h, init);
      assert ApplyAll(h, u) == Set(mid, e.0, e.1);
      KeyOrderStep(Keys(h), Keys(init), e.0, Keys(mid), Keys(Set(mid, e.0, e.1)));
    }
  }

  lemma KeyOrderStep<K(!new)>(kh: seq<K>, ki: seq<K>, k: K, kmid: seq<K>, kset: seq<K>)
    requires kmid == kh + Fresh(ki, kh)
    requires kset == if k in kmid then kmid else kmid + [k]
    requires k !in ki
    ensures kset == kh + Fresh(ki + [k], kh)
  {
    FreshAppend(ki, [k], kh);
    assert Fresh([k], kh) == if k in kh then [] else [k];
    if k !in kh {
      assert kh + Fresh(ki, kh) + [k] == kh + (Fresh(ki, kh) + [k]);
    }
  }

  /** The same keys in the same slots, every value passed through `f`. */
  function MapValues<K, V, W>(h: Assoc<K, V>, f: V -> W): (r: Assoc<K, W>)
    ensures |r| == |h|
    ensures forall i :: 0 <= i < |h| ==> r[i] == (h[i].0, f(h[i].1))
  {
    seq(|h|, i requires 0 <= i < |h| => (h[i].0, f(h[i].1)))
  }

  lemma MapValuesKeys<K, V, W>(h: Assoc<K, V>, f: V -> W)
    ensures Keys(MapValues(h, f)) == Keys(h)
  {
  }

  /** Looking up a key after `MapValues` finds the image of what it found before. */
  lemma {:induction false} MapValuesLookup<K(!new), V, W>(h: Assoc<K, V>, f: V -> W, k: K)
    ensures Lookup(MapValues(h, f), k) == if k in Keys(h) then Some(f(Lookup(h, k).value)) else None
    decreases |h|
  {
    if |h| > 0 {
      assert MapValues(h, f)[1..] == MapValues(h[1..], f);
      assert Keys(h) == [h[0].0] + Keys(h[1..]);
      MapValuesLookup(h[1..], f, k);
    }
  }
}
