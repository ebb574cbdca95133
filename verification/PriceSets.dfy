/** Finite sets of prices and their inside-out order: bids descend, asks ascend. */
module PriceSets {
  import opened Core

  predicate IsBest(side: Side, ps: set<Price>, b: Price) {
    b in ps && forall q :: q in ps ==> !side.Inside(q, b)
  }

  lemma {:induction false} BestExists(side: Side, ps: set<Price>)
    requires ps != {}
    ensures exists b: Price :: IsBest(side, ps, b)
  {
    var p: Price :| p in ps;
    if ps == {p} {
      assert IsBest(side, ps, p);
    } else {
      BestExists(side, ps - {p});
      var b: Price :| IsBest(side, ps - {p}, b);
      var c: Price := if side.Inside(p, b) then p else b;
      forall q | q in ps ensures !side.Inside(q, c) {
        if q != p { assert q in ps - {p}; }
      }
      assert IsBest(side, ps, c);
    }
  }

  /** The innermost price; NO_PRICE on an empty side. */
  function Best(side: Side, ps: set<Price>): (b: Price)
    ensures ps != {} ==> IsBest(side, ps, b)
    ensures ps == {} ==> b == NO_PRICE
  {
    if ps == {} then NO_PRICE else
      BestExists(side, ps);
      var b: Price :| IsBest(side, ps, b);
      b
  }

  /** The highest bid and the lowest ask. */
  lemma BestBounds(ps: set<Price>)
    ensures forall p :: p in ps ==> Best(Sell, ps) <= p <= Best(Buy, ps)
    ensures ps != {} ==> Best(Buy, ps) in ps && Best(Sell, ps) in ps
  {
  }

  /** Strictly from the inside outwards; in particular nothing repeats. */
  ghost predicate InsideOut(side: Side, s: seq<Price>) {
    forall i, j :: 0 <= i < j < |s| ==> side.Inside(s[i], s[j])
  }

  ghost predicate Lists(s: seq<Price>, ps: set<Price>) {
    forall p: Price :: p in s <==> p in ps
  }

  /** The set laid out from the inside outwards. */
  function Sorted(side: Side, ps: set<Price>): (s: seq<Price>)
    ensures InsideOut(side, s) && Lists(s, ps)
    ensures ps != {} ==> |s| > 0 && s[0] == Best(side, ps)
  {
    if ps == {} then [] else
      var b := Best(side, ps);
      var rest := Sorted(side, ps - {b});
      SortedStep(side, ps, b, rest);
      [b] + rest
  }

  /** Bids fall, asks rise. */
  lemma SortedFallsOrRises(ps: set<Price>)
    ensures var s := Sorted(Buy, ps); forall i, j :: 0 <= i < j < |s| ==> s[i] > s[j]
    ensures var s := Sorted(Sell, ps); forall i, j :: 0 <= i < j < |s| ==> s[i] < s[j]
    ensures forall s, p: Price :: p in Sorted(s, ps) <==> p in ps
  {
  }

  lemma SortedStep(side: Side, ps: set<Price>, b: Price, rest: seq<Price>)
    requires IsBest(side, ps, b) && InsideOut(side, rest) && Lists(rest, ps - {b})
    ensures InsideOut(side, [b] + rest) && Lists([b] + rest, ps)
  {
    var s := [b] + rest;
    forall i, j | 0 <= i < j < |s| ensures side.Inside(s[i], s[j]) {
      if i == 0 { assert rest[j - 1] in rest; }
    }
  }

  /** There is only one such layout. */
  lemma {:induction false} SortedUnique(side: Side, ps: set<Price>, s: seq<Price>)
    requires InsideOut(side, s) && Lists(s, ps)
    ensures s == Sorted(side, ps)
    decreases |s|
  {
    hide InsideOut;
    if s == [] {
      assert forall p: Price :: p in ps ==> p in s;
    } else {
      assert s[0] in ps;
      FirstIsBest(side, ps, s);
      TailLists(side, ps, s);
      SortedUnique(side, ps - {s[0]}, s[1..]);
    }
  }

  lemma FirstIsBest(side: Side, ps: set<Price>, s: seq<Price>)
    requires s != [] && InsideOut(side, s) && Lists(s, ps)
    ensures ps != {} && s[0] == Best(side, ps)
  {
    assert s[0] in s;
    var b := Best(side, ps);
    assert b in s;
    var k :| 0 <= k < |s| && s[k] == b;
  }

  lemma TailLists(side: Side, ps: set<Price>, s: seq<Price>)
    requires s != [] && InsideOut(side, s) && Lists(s, ps)
    ensures InsideOut(side, s[1..]) && Lists(s[1..], ps - {s[0]})
  {
    assert s == [s[0]] + s[1..];
    assert s[0] !in s[1..];
  }

  /** The emitted pairs: these prices, in this order, each with the handle the contents give it. */
  ghost predicate Labelled(out: seq<(Price, Handle)>, prices: seq<Price>, contents: map<Price, Handle>) {
    && |out| == |prices|
    && forall k :: 0 <= k < |out| ==>
        out[k].0 == prices[k] && prices[k] in contents && out[k].1 == contents[prices[k]]
  }

  lemma LabelledNone(contents: map<Price, Handle>)
    ensures Labelled([], [], contents)
  {
  }

  lemma LabelledSnoc(out: seq<(Price, Handle)>, prices: seq<Price>, contents: map<Price, Handle>, p: Price, h: Handle)
    requires Labelled(out, prices, contents) && p in contents && contents[p] == h
    ensures Labelled(out + [(p, h)], prices + [p], contents)
  {
  }

  lemma LabelledConcat(a: seq<(Price, Handle)>, ps: seq<Price>, m: map<Price, Handle>,
                       b: seq<(Price, Handle)>, qs: seq<Price>, n: map<Price, Handle>, all: map<Price, Handle>)
    requires Labelled(a, ps, m) && Labelled(b, qs, n)
    requires forall p :: p in m ==> p in all && all[p] == m[p]
    requires forall p :: p in n ==> p in all && all[p] == n[p]
    ensures Labelled(a + b, ps + qs, all)
  {
  }
}
