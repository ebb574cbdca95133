/** The flat book itself: a vector of records, every answer an accumulator loop over it. */
module NaiveBooks {
  import opened Core
  import opened NaiveSpec
  import opened PriceSets

  function Keeping(v: Orders, ref: OrderRef): Orders {
    if v == [] then [] else Keeping(v[..|v| - 1], ref) + if v[|v| - 1].ref == ref then [] else [v[|v| - 1]]
  }

  lemma {:induction false} KeepingAll(v: Orders, ref: OrderRef)
    requires ref !in Refs(v)
    ensures Keeping(v, ref) == v
  {
    if v != [] {
      var w := v[..|v| - 1];
      assert v == w + [v[|v| - 1]];
      RefsConcat(w, [v[|v| - 1]]);
      assert v[|v| - 1].ref in Refs(v);
      KeepingAll(w, ref);
    }
  }

  lemma {:induction false} KeepingConcat(a: Orders, b: Orders, ref: OrderRef)
    ensures Keeping(a + b, ref) == Keeping(a, ref) + Keeping(b, ref)
  {
    if b == [] {
      assert a + b == a;
    } else {
      KeepingConcat(a, b[..|b| - 1], ref);
      assert (a + b)[..|a + b| - 1] == a + b[..|b| - 1];
    }
  }

  /** With distinct references, dropping every record of one reference drops one record. */
  lemma KeepingBut(v: Orders, i: nat)
    requires DistinctRefs(v) && i < |v|
    ensures Keeping(v, v[i].ref) == v[..i] + v[i + 1..]
  {
    hide Keeping, DistinctRefs, Refs;
    var r := v[i];
    Bracketed(v[..i], [r], v[i + 1..]);
    RefsSmall([r]);
    assert v == v[..i] + [r] + v[i + 1..];
    KeepingConcat(v[..i] + [r], v[i + 1..], r.ref);
    KeepingConcat(v[..i], [r], r.ref);
    KeepingAll(v[..i], r.ref);
    KeepingAll(v[i + 1..], r.ref);
    KeepingOne(r);
  }

  lemma KeepingOne(r: Rec)
    ensures Keeping([r], r.ref) == []
  {
    assert [r][..0] == [];
  }

  class NaiveBook {
    var orders: Orders

    constructor ()
      ensures orders == []
    {
      orders := [];
    }

    method Find(ref: OrderRef) returns (i: nat)
      ensures i == IndexOf(orders, ref)
    {
      i := 0;
      while i < |orders| && orders[i].ref != ref
        invariant i <= |orders|
        invariant forall j :: 0 <= j < i ==> orders[j].ref != ref
      {
        i := i + 1;
      }
    }

    method Add(r: Rec)
      modifies this
      ensures orders == NaiveSpec.Add(old(orders), r)
    {
      orders := orders + [r];
    }

    /** remove_if over the whole vector. */
    method Erase(ref: OrderRef)
      modifies this
      ensures orders == Keeping(old(orders), ref)
    {
      var kept: Orders := [];
      for i := 0 to |orders|
        invariant orders == old(orders) && kept == Keeping(orders[..i], ref)
      {
        assert orders[..i + 1][..i] == orders[..i];
        if orders[i].ref != ref {
          kept := kept + [orders[i]];
        }
      }
      assert orders[..|orders|] == orders;
      orders := kept;
    }

    method Cancel(ref: OrderRef, shares: Qty)
      requires DistinctRefs(orders) && Has(orders, ref) && shares <= Get(orders, ref).qty
      modifies this
      ensures orders == Reduce(old(orders), ref, shares)
    {
      hide IndexOf, Keeping;
      ghost var v := orders;
      var i := Find(ref);
      var r := orders[i];
      orders := orders[i := r.(qty := r.qty - shares)];
      assert orders == v[..i] + [orders[i]] + v[i + 1..];
      if orders[i].qty == 0 {
        KeepingBut(orders, i);
        Erase(ref);
      }
    }

    method Remove(ref: OrderRef)
      requires DistinctRefs(orders) && Has(orders, ref)
      modifies this
      ensures orders == NaiveSpec.Remove(old(orders), ref)
    {
      hide IndexOf, DistinctRefs;
      var i := Find(ref);
      Cancel(ref, orders[i].qty);
    }

    method Replace(oldRef: OrderRef, newRef: OrderRef, price: Price, qty: Qty)
      requires DistinctRefs(orders) && Has(orders, oldRef)
      modifies this
      ensures orders == NaiveSpec.Replace(old(orders), oldRef, newRef, price, qty)
    {
      hide IndexOf, DistinctRefs;
      var i := Find(oldRef);
      var r := orders[i];
      Remove(oldRef);
      Add(Rec(newRef, r.side, price, qty, r.owner));
    }

    /** The innermost price seen so far, if any. */
    method BestOf(s: Side) returns (best: Price)
      ensures best == Best(s, Prices(orders, s))
    {
      best := NO_PRICE;
      var any := false;
      for i := 0 to |orders|
        invariant !any ==> Prices(orders[..i], s) == {}
        invariant any ==> IsBest(s, Prices(orders[..i], s), best)
      {
        PricesSnoc(orders, i, s);
        if orders[i].side == s && (!any || s.Inside(orders[i].price, best)) {
          best := orders[i].price;
          any := true;
        }
      }
      assert orders[..|orders|] == orders;
      if !any {
        best := NO_PRICE;
      }
    }

    method IsEmpty(s: Side) returns (none: bool)
      ensures none <==> Prices(orders, s) == {}
    {
      none := true;
      for i := 0 to |orders|
        invariant none <==> Prices(orders[..i], s) == {}
      {
        PricesSnoc(orders, i, s);
        if orders[i].side == s {
          assert orders[i].price in Prices(orders[..i + 1], s);
          none := false;
        }
      }
      assert orders[..|orders|] == orders;
    }

    /** The prices of one side without repetition, counted. */
    method LevelCount(s: Side) returns (n: nat)
      ensures n == |Prices(orders, s)|
    {
      var seen: set<Price> := {};
      for i := 0 to |orders|
        invariant seen == Prices(orders[..i], s)
      {
        PricesSnoc(orders, i, s);
        if orders[i].side == s {
          seen := seen + {orders[i].price};
        }
      }
      assert orders[..|orders|] == orders;
      n := |seen|;
    }

    method QtyAt(s: Side, p: Price) returns (sum: nat)
      ensures sum == Qtys(Queue(orders, s, p))
    {
      hide Queue, Qtys;
      QueueNil(s, p);
      NoQtys([]);
      sum := 0;
      for i := 0 to |orders|
        invariant sum == Qtys(Queue(orders[..i], s, p))
      {
        QueueSnoc(orders, i, s, p);
        if orders[i].At(s, p) {
          QtysConcat(Queue(orders[..i], s, p), [orders[i]]);
          QtysOne(orders[i]);
          sum := sum + orders[i].qty;
        }
      }
      assert orders[..|orders|] == orders;
    }

    method OrdersAt(s: Side, p: Price) returns (n: nat)
      ensures n == |Queue(orders, s, p)|
    {
      hide Queue;
      QueueNil(s, p);
      n := 0;
      for i := 0 to |orders|
        invariant n == |Queue(orders[..i], s, p)|
      {
        QueueSnoc(orders, i, s, p);
        if orders[i].At(s, p) {
          n := n + 1;
        }
      }
      assert orders[..|orders|] == orders;
    }

    method TotalOf(s: Side) returns (sum: nat)
      ensures sum == TotalQty(orders, s)
    {
      sum := 0;
      for i := 0 to |orders|
        invariant sum == TotalQty(orders[..i], s)
      {
        assert orders[..i + 1] == orders[..i] + [orders[i]];
        TotalConcat(orders[..i], [orders[i]], s);
        TotalOne(orders[i], s);
        if orders[i].side == s {
          sum := sum + orders[i].qty;
        }
      }
      assert orders[..|orders|] == orders;
    }

    /** The references of each price, collected in order of arrival and then laid out from the inside outwards. */
    method LevelsOf(s: Side) returns (out: seq<(Price, seq<OrderRef>)>)
      ensures var ps := Sorted(s, Prices(orders, s));
              |out| == |ps| && forall k :: 0 <= k < |ps| ==> out[k] == (ps[k], RefList(Queue(orders, s, ps[k])))
    {
      hide Sorted, Queue, Prices;
      var byPrice: map<Price, seq<OrderRef>> := map[];
      NothingCollected(s);
      for i := 0 to |orders|
        invariant Collected(byPrice, orders[..i], s)
      {
        var r := orders[i];
        assert orders[..i + 1] == orders[..i] + [r];
        CollectOne(byPrice, orders[..i], r, s);
        if r.side == s {
          byPrice := byPrice[r.price := (if r.price in byPrice then byPrice[r.price] else []) + [r.ref]];
        }
      }
      assert orders[..|orders|] == orders;
      CollectedKeys(byPrice, orders, s);
      var ps := Sorted(s, byPrice.Keys);
      out := [];
      for k := 0 to |ps|
        invariant |out| == k && forall j :: 0 <= j < k ==> out[j] == (ps[j], RefList(Queue(orders, s, ps[j])))
      {
        assert ps[k] in byPrice.Keys && CollectedAt(byPrice, orders, s, ps[k]);
        out := out + [(ps[k], byPrice[ps[k]])];
      }
    }
  }

  lemma QueueSnoc(v: Orders, i: nat, s: Side, p: Price)
    requires i < |v|
    ensures Queue(v[..i + 1], s, p) == if v[i].At(s, p) then Queue(v[..i], s, p) + [v[i]] else Queue(v[..i], s, p)
  {
    assert v[..i + 1][..i] == v[..i];
  }

  lemma PricesSnoc(v: Orders, i: nat, s: Side)
    requires i < |v|
    ensures Prices(v[..i + 1], s) == Prices(v[..i], s) + if v[i].side == s then {v[i].price} else {}
  {
    var w := v[..i + 1];
    assert w == v[..i] + [v[i]] && w[i] == v[i];
    assert forall r :: r in v[..i] ==> r in w;
  }

  ghost predicate CollectedAt(m: map<Price, seq<OrderRef>>, v: Orders, s: Side, p: Price) {
    var q := Queue(v, s, p);
    (p in m <==> q != []) && (p in m ==> m[p] == RefList(q))
  }

  ghost predicate Collected(m: map<Price, seq<OrderRef>>, v: Orders, s: Side) {
    forall p: Price :: CollectedAt(m, v, s, p)
  }

  lemma NothingCollected(s: Side)
    ensures forall v: Orders :: v == [] ==> Collected(map[], v, s)
  {
  }

  lemma CollectOne(m: map<Price, seq<OrderRef>>, v: Orders, r: Rec, s: Side)
    requires Collected(m, v, s)
    ensures Collected(if r.side == s then m[r.price := (if r.price in m then m[r.price] else []) + [r.ref]] else m,
            v + [r], s)
  {
    hide Queue;
    var m' := if r.side == s then m[r.price := (if r.price in m then m[r.price] else []) + [r.ref]] else m;
    forall p: Price ensures CollectedAt(m', v + [r], s, p) {
      assert CollectedAt(m, v, s, p);
      QueueConcat(v, [r], s, p);
      QueueOne(r, s, p);
      assert Queue(v, s, p) + [] == Queue(v, s, p);
    }
  }

  lemma CollectedKeys(m: map<Price, seq<OrderRef>>, v: Orders, s: Side)
    requires Collected(m, v, s)
    ensures m.Keys == Prices(v, s)
  {
    hide Queue, Prices;
    forall p ensures p in m <==> p in Prices(v, s) {
      assert CollectedAt(m, v, s, p);
      PricesOfQueues(v, s, p);
    }
  }
}
