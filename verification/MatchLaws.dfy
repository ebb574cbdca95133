/**
 What a submission promises its two sides, in terms of the orders themselves: who trades with whom, in which turn, at
 which prices, what self-trade prevention does, and what is reported.
 */
module MatchLaws {
  import opened Core
  import opened NaiveSpec
  import opened PriceSets
  import opened MatchSpec
  import opened EngineSpec

  // Price-time priority

  /** The priority order of a side holds exactly the orders of that side. */
  lemma PriorityMembers(v: Orders, s: Side)
    ensures forall r :: r in Priority(v, s) <==> r in v && r.side == s
  {
    hide Queue, Prices, Sorted;
    var ps := Sorted(s, Prices(v, s));
    forall r ensures r in Priority(v, s) <==> r in v && r.side == s {
      QueuesMembers(v, s, ps, r);
      if r in v && r.side == s {
        PriceListed(v, r);
        SortedFallsOrRises(Prices(v, s));
      }
    }
  }

  lemma PriceListed(v: Orders, r: Rec)
    requires r in v
    ensures r.price in Prices(v, r.side)
  {
  }

  lemma {:induction false} QueuesMembers(v: Orders, s: Side, ps: seq<Price>, r: Rec)
    ensures r in QueuesAt(v, s, ps) <==> r in v && r.side == s && r.price in ps
  {
    hide Queue;
    if ps != [] {
      QueueMembers(v, s, ps[0]);
      QueuesMembers(v, s, ps[1..], r);
      assert r.price in ps <==> r.price == ps[0] || r.price in ps[1..];
    }
  }

  /** Of two orders of a side, the better price comes first, and at one price the earlier arrival. */
  lemma PriceTime(v: Orders, s: Side, i: nat, j: nat)
    requires i < j < |Priority(v, s)|
    ensures var a, b := Priority(v, s)[i], Priority(v, s)[j];
            || (a.price == b.price && Arrives(v, a, b))
            || (if s == Buy then a.price > b.price else a.price < b.price)
  {
    hide Queue, Prices, Sorted;
    SortedFallsOrRises(Prices(v, s));
    QueuesOrder(v, s, Sorted(s, Prices(v, s)), i, j);
  }

  lemma {:induction false} QueuesOrder(v: Orders, s: Side, ps: seq<Price>, i: nat, j: nat)
    requires forall k, l :: 0 <= k < l < |ps| ==> if s == Buy then ps[k] > ps[l] else ps[k] < ps[l]
    requires i < j < |QueuesAt(v, s, ps)|
    ensures var a, b := QueuesAt(v, s, ps)[i], QueuesAt(v, s, ps)[j];
            || (a.price == b.price && Arrives(v, a, b))
            || (if s == Buy then a.price > b.price else a.price < b.price)
  {
    hide Queue, Arrives;
    var q, rest := Queue(v, s, ps[0]), QueuesAt(v, s, ps[1..]);
    QueueMembers(v, s, ps[0]);
    if j < |q| {
      assert q[i] in q && q[j] in q;
      QueueArrival(v, s, ps[0], i, j);
    } else if i >= |q| {
      QueuesOrder(v, s, ps[1..], i - |q|, j - |q|);
    } else {
      var b := rest[j - |q|];
      assert q[i] in q && b in rest;
      QueuesMembers(v, s, ps[1..], b);
    }
  }

  // The limit

  /** The price is one the order is willing to trade at. */
  ghost predicate Within(o: NewOrder, price: Price) {
    o.kind == Limit ==> (o.side == Buy ==> price <= o.price) && (o.side == Sell ==> price >= o.price)
  }

  lemma CrossesIsWithin(o: NewOrder, price: Price)
    ensures Crosses(o, price) <==> Within(o, price)
  {
  }

  lemma {:induction false} TradableListed(q: Orders, o: NewOrder, stp: StpMode)
    ensures forall r :: r in Tradable(q, o, stp) ==> r in q
    ensures forall r :: r in Own(q, o, stp) ==> r in q
  {
    hide SelfTrade;
    if q != [] {
      TradableListed(q[1..], o, stp);
    }
  }

  /**
   Every fill is with a listed order of the other side, of that order's owner, at that order's price and for no more
   than it holds; and a limit buy pays no more than its limit, a limit sell takes no less.
   */
  lemma FillsWithinLimit(v: Orders, o: NewOrder, stp: StpMode)
    requires IsBook(v)
    ensures forall f :: f in Match(v, o, stp, o.qty).fills ==>
              && (o.kind == Limit && o.side == Buy ==> f.price <= o.price)
              && (o.kind == Limit && o.side == Sell ==> f.price >= o.price)
              && f.aggressor == o.clientId && f.aggressorOwner == o.owner && f.qty > 0
              && exists r :: r in v && r.side != o.side && r.ref == f.resting && r.owner == f.restingOwner &&
                             r.price == f.price && r.qty >= f.qty
  {
    hide Match, Priority, IsBook, SelfTrade, Crosses, Tradable;
    var s := o.side.Opposite();
    var m, q := Match(v, o, stp, o.qty), Priority(v, s);
    SubmitFills(v, o, stp);
    TradableListed(q, o, stp);
    PriorityMembers(v, s);
    forall k | 0 <= k < |m.fills|
      ensures var f := m.fills[k];
              && Within(o, f.price) && f.aggressor == o.clientId && f.aggressorOwner == o.owner && f.qty > 0
              && exists r :: r in v && r.side != o.side && r.ref == f.resting && r.owner == f.restingOwner &&
                             r.price == f.price && r.qty >= f.qty
    {
      var r := Tradable(q, o, stp)[k];
      assert r in Tradable(q, o, stp) && FillFits(m.fills[k], r, o, stp);
      CrossesIsWithin(o, r.price);
    }
  }

  /** An unstopped match with shares left over leaves nothing on the other side that the order would trade with. */
  lemma NothingLeftWithin(v: Orders, o: NewOrder, stp: StpMode)
    requires IsBook(v)
    ensures var m := Match(v, o, stp, o.qty);
            m.remaining > 0 && !m.stopped ==>
              forall r :: r in m.view && r.side != o.side ==>
                o.kind == Limit && (if o.side == Buy then r.price > o.price else r.price < o.price)
  {
    hide Match, IsBook, Prices, Best;
    var m, s := Match(v, o, stp, o.qty), o.side.Opposite();
    NothingLeftCrosses(v, o, stp, o.qty);
    BestBounds(Prices(m.view, s));
    forall r | r in m.view && r.side != o.side ensures r.price in Prices(m.view, s) {
      PriceListed(m.view, r);
    }
  }

  // Self-trade prevention

  /**
   What is pulled are listed orders of the submitter's own on the other side, within its limit, and nothing unless the
   mode pulls resting orders. What stops the match is one more such order: still on the book if the mode rejects the
   newest, the one order pulled if it rejects both.
   */
  lemma OwnOrdersOnly(v: Orders, o: NewOrder, stp: StpMode)
    requires IsBook(v)
    ensures var m := Match(v, o, stp, o.qty);
            && (forall r :: r in m.pulled ==>
                  r in v && r.side != o.side && r.owner == o.owner != 0 &&
                  (o.kind == Limit && o.side == Buy ==> r.price <= o.price) &&
                  (o.kind == Limit && o.side == Sell ==> r.price >= o.price))
            && (m.pulled != [] ==> stp == CancelOldest || stp == CancelBoth)
            && (m.stopped ==> stp == CancelNewest || stp == CancelBoth)
            && (m.stopped && stp == CancelNewest ==>
                  exists r :: r in m.view && r.side != o.side && r.owner == o.owner != 0)
            && (stp == CancelBoth ==> |m.pulled| == (if m.stopped then 1 else 0))
            && m.events == |m.pulled| + (if m.stopped && stp == CancelNewest then 1 else 0)
            && (stp != Off ==> forall f :: f in m.fills ==> f.restingOwner != o.owner || o.owner == 0)
  {
    hide Match, Walk, Priority, IsBook, Tradable, Own, Crosses, FillsRun;
    var s := o.side.Opposite();
    var m, q := Match(v, o, stp, o.qty), Priority(v, s);
    MatchIsWalk(v, o, stp, o.qty);
    WalkEnds(q, o, stp, o.qty);
    WalkPulls(q, o, stp, o.qty);
    var n, part := WalkDivides(q, o, stp, o.qty);
    TradableListed(q[..n], o, stp);
    PriorityMembers(v, s);
    PriorityMembers(m.view, s);
    SubmitFills(v, o, stp);
    FillsWithinLimit(v, o, stp);
    forall k | 0 <= k < |m.pulled| ensures Within(o, m.pulled[k].price) {
      CrossesIsWithin(o, m.pulled[k].price);
    }
    if m.stopped && stp == CancelNewest {
      var r := Priority(m.view, s)[0];
      assert r in Priority(m.view, s);
    }
  }

  // What may be asked

  /** What is asked of a caller, exactly. */
  lemma AsksExactly(d: Desk, a: Action)
    ensures a.Submit? ==> (Asks(d, a) <==> a.order.qty > 0 && (a.order.kind == Market || a.order.price > 0))
    ensures a.Withdraw? ==> (Asks(d, a) <==> exists r :: r in d.view && r.ref == a.ref)
    ensures a.SetMode? ==> Asks(d, a)
  {
    hide IndexOf;
    if a.Withdraw? {
      if r :| r in d.view && r.ref == a.ref {
        var i :| 0 <= i < |d.view| && d.view[i] == r;
      }
      if Has(d.view, a.ref) {
        assert Get(d.view, a.ref) in d.view;
      }
    }
  }

  // What is reported

  /**
   The four outcomes. A complete fill is one of the whole quantity; a match that self-trade prevention stopped is a
   rejection; anything else left over rests if the order is a limit order good for the day, under the reference reported
   and at the order's own price, and is dropped otherwise: an immediate-or-cancel order and a market order never rest.
   */
  lemma Outcomes(v: Orders, o: NewOrder, stp: StpMode, ref: OrderRef)
    requires IsBook(v)
    ensures var m := Match(v, o, stp, o.qty); var rep, w, left := ReportOf(m, o, ref), Settled(m, o, ref),
            o.qty - FillQty(m.fills);
            && left >= 0 && rep.filled == FillQty(m.fills) && rep.stpCancelledResting == |m.pulled|
            && (rep.outcome == FilledComplete <==> left == 0)
            && (rep.outcome == StpRejected <==> m.stopped)
            && (rep.outcome == Rested <==> left > 0 && !m.stopped && o.kind == Limit && o.tif == Day)
            && (rep.outcome == Cancelled <==> left > 0 && !m.stopped && (o.kind == Market || o.tif == Ioc))
            && (if rep.outcome == Rested
                then rep.restingRef == ref && rep.restingQty == left &&
                     w == m.view + [Rec(ref, o.side, o.price, left, o.owner)]
                else rep.restingRef == 0 && rep.restingQty == 0 && w == m.view)
  {
    hide Match, Walk, Priority, IsBook, FillQty;
    MatchConserves(v, o, stp, o.qty);
    MatchIsWalk(v, o, stp, o.qty);
    WalkEnds(Priority(v, o.side.Opposite()), o, stp, o.qty);
  }
}
