/**
 * The shape both policy headers parse into: an insertion-ordered map from
 * feature name (case-sensitive, as received) to allow-list, together with
 * the segment-by-segment parsing and rendering the two codecs share.
 */
module PolicyHeader {
  import opened Text
  import opened OrderedMap

  /** Origins or keywords, in header order, duplicates kept. */
  type AllowList = seq<string>

  type Entry = (string, AllowList)

  /** A parsed policy header: feature name to allow-list, in header order. */
  type PolicyMap = Assoc<string, AllowList>

  /** The entries the segments of a header value describe, in order; segments the parser rejects carry nothing. */
  function Collect(segs: seq<string>, parse: string -> Option<Entry>): PolicyMap
  {
    if |segs| == 0 then []
    else
      var rest := Collect(segs[1..], parse);
      match parse(segs[0])
      case None => rest
      case Some(e) => [e] + rest
  }

  /** The entries of a header value whose segments are separated by `sep`, each segment read by `parse`, in order. */
  function SplitEntries(s: string, sep: char, parse: string -> Option<Entry>): PolicyMap
  {
    Collect(Split(s, {sep}), parse)
  }

  /** The entries rendered one by one, in map order, joined with `sep` and one space; only the empty map gives the empty value. */
  function JoinEntries(h: PolicyMap, render: Entry -> string, sep: char): (s: string)
    requires forall e :: render(e) != ""
    ensures s == "" <==> |h| == 0
  {
    Join(Render(h, render), [sep, ' '])
  }

  /** The segments on either side of a separator are read independently, in order. */
  lemma {:induction false} SplitEntriesAppend(a: string, b: string, sep: char, parse: string -> Option<Entry>)
    ensures SplitEntries(a + [sep] + b, sep, parse) == SplitEntries(a, sep, parse) + SplitEntries(b, sep, parse)
  {
    SplitAppend(a, sep, b, {sep});
    CollectAppend(Split(a, {sep}), Split(b, {sep}), parse);
  }

  /** A value without the separator is one segment. */
  lemma {:induction false} SplitEntriesSingle(x: string, sep: char, parse: string -> Option<Entry>, e: Entry)
    requires NoneOf(x, {sep})
    requires parse(x) == Some(e)
    ensures SplitEntries(x, sep, parse) == [e]
  {
    SplitNoSeparator(x, {sep});
    CollectCons(x, [], parse, e);
    assert [x] + [] == [x];
  }

  /** The rendering of each entry, in order. */
  function Render(h: PolicyMap, render: Entry -> string): (rs: seq<string>)
    ensures |rs| == |h|
    ensures forall i :: 0 <= i < |h| ==> rs[i] == render(h[i])
  {
    seq(|h|, i requires 0 <= i < |h| => render(h[i]))
  }

  lemma {:induction false} CollectAppend(a: seq<string>, b: seq<string>, parse: string -> Option<Entry>)
    ensures Collect(a + b, parse) == Collect(a, parse) + Collect(b, parse)
    decreases |a|
  {
    if |a| == 0 {
      assert a + b == b;
    } else {
      assert (a + b)[1..] == a[1..] + b;
      CollectAppend(a[1..], b, parse);
    }
  }

  /** Every collected entry is what the parser made of some segment. */
  lemma {:induction false} CollectEntries(segs: seq<string>, parse: string -> Option<Entry>, e: Entry)
    requires e in Collect(segs, parse)
    ensures exists i :: 0 <= i < |segs| && parse(segs[i]) == Some(e)
    decreases |segs|
  {
    if parse(segs[0]) != Some(e) {
      CollectEntries(segs[1..], parse, e);
      var i :| 0 <= i < |segs[1..]| && parse(segs[1..][i]) == Some(e);
      assert segs[1..][i] == segs[i + 1];
    }
  }

  lemma {:induction false} CollectCons(x: string, rest: seq<string>, parse: string -> Option<Entry>, e: Entry)
    requires parse(x) == Some(e)
    ensures Collect([x] + rest, parse) == [e] + Collect(rest, parse)
  {
    assert ([x] + rest)[1..] == rest;
  }

  /**
   * Parsing the pieces of a rendered header gives the entries back, provided
   * each rendered entry parses to itself with or without one leading space.
   */
  lemma {:induction false} CollectRendered(h: PolicyMap, parse: string -> Option<Entry>, render: Entry -> string)
    requires |h| >= 1
    requires forall e :: e in h ==> parse(render(e)) == Some(e) && parse(" " + render(e)) == Some(e)
    ensures Collect([render(h[0])] + Spaced(Render(h, render)[1..]), parse) == h
    decreases |h|
  {
    assert h[0] in h;
    CollectCons(render(h[0]), Spaced(Render(h, render)[1..]), parse, h[0]);
    if |h| == 1 {
      assert Spaced(Render(h, render)[1..]) == [];
    } else {
      var t := h[1..];
      assert t[0] in h;
      assert forall e :: e in t ==> e in h;
      assert Render(h, render)[1..] == Render(t, render);
      var tail := Spaced(Render(t, render)[1..]);
      assert Spaced(Render(t, render)) == [" " + render(t[0])] + tail;
      CollectCons(" " + render(t[0]), tail, parse, t[0]);
      CollectRendered(t, parse, render);
      CollectCons(render(t[0]), tail, parse, t[0]);
      assert [h[0]] + t == h;
    }
  }
}
