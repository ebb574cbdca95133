/**
 Price-time matching as a function on the list of resting orders, and again as a walk along the opposite side's orders
 in priority order. The two are proved to be the same, and what a submission promises is proved of them.
 */
module MatchSpec {
  import opened Core
  import opened NaiveSpec
  import opened PriceSets

  datatype OrderType = Limit | Market

  datatype TimeInForce = Day | Ioc

  /** What to do when an order would trade against another of the same participant. */
  datatype StpMode = Off | CancelNewest | CancelOldest | CancelBoth

  datatype NewOrder = NewOrder(clientId: u64, owner: Owner, side: Side, kind: OrderType, tif: TimeInForce,
      price: Price, qty: Qty)

  datatype Fill = Fill(aggressor: u64, resting: OrderRef, aggressorOwner: Owner, restingOwner: Owner, price: Price,
      qty: Qty)

  /** A buy crosses what it is willing to pay, a sell what it is willing to accept, a market order anything. */
  predicate Crosses(o: NewOrder, touch: Price) {
    o.kind.Market? || if o.side.Buy? then o.price >= touch else o.price <= touch
  }

  predicate SelfTrade(stp: StpMode, o: NewOrder, owner: Owner) {
    !stp.Off? && owner == o.owner && o.owner != 0
  }

  function Min(a: Qty, b: Qty): (m: Qty)
    ensures m <= a && m <= b && (m == a || m == b)
  {
    if a < b then a else b
  }

  function FillOf(o: NewOrder, r: Rec, traded: Qty): Fill {
    Fill(o.clientId, r.ref, o.owner, r.owner, r.price, traded)
  }

  // On the list

  /** The order with time priority at the best price of a side. */
  function Front(v: Orders, s: Side): Rec
    requires Prices(v, s) != {}
  {
    FrontExists(v, s);
    Queue(v, s, Best(s, Prices(v, s)))[0]
  }

  lemma FrontExists(v: Orders, s: Side)
    requires Prices(v, s) != {}
    ensures Queue(v, s, Best(s, Prices(v, s))) != []
  {
    PricesOfQueues(v, s, Best(s, Prices(v, s)));
  }

  datatype Matched = Matched(view: Orders, fills: seq<Fill>, remaining: Qty, stopped: bool, pulled: seq<Rec>,
      events: nat)

  /** Does the loop go round once more? */
  predicate GoesOn(v: Orders, o: NewOrder, remaining: Qty) {
    var s := o.side.Opposite();
    remaining > 0 && Prices(v, s) != {} && Crosses(o, Best(s, Prices(v, s)))
  }

  function Match(v: Orders, o: NewOrder, stp: StpMode, remaining: Qty): Matched
    requires IsBook(v)
    decreases |v|, remaining
  {
    if !GoesOn(v, o, remaining) then Matched(v, [], remaining, false, [], 0) else
      var r := Front(v, o.side.Opposite());
      FrontStep(v, o.side.Opposite(), Min(remaining, r.qty));
      FrontStep(v, o.side.Opposite(), r.qty);
      if SelfTrade(stp, o, r.owner) then
        match stp
        case CancelOldest =>
          var m := Match(Remove(v, r.ref), o, stp, remaining);
          m.(pulled := [r] + m.pulled, events := m.events + 1)
        case CancelBoth => Matched(Remove(v, r.ref), [], remaining, true, [r], 1)
        case _ => Matched(v, [], remaining, true, [], 1)
      else
        var traded := Min(remaining, r.qty);
        var m := Match(Reduce(v, r.ref, traded), o, stp, remaining - traded);
        m.(fills := [FillOf(o, r, traded)] + m.fills)
  }

  /** The references the loop meets at the front while it goes round, whether it trades with them or not. */
  ghost function Met(v: Orders, o: NewOrder, stp: StpMode, remaining: Qty): set<OrderRef>
    requires IsBook(v)
    decreases |v|, remaining
  {
    if !GoesOn(v, o, remaining) then {} else
      var r := Front(v, o.side.Opposite());
      FrontStep(v, o.side.Opposite(), Min(remaining, r.qty));
      FrontStep(v, o.side.Opposite(), r.qty);
      {r.ref} +
      if !SelfTrade(stp, o, r.owner) then
        Met(Reduce(v, r.ref, Min(remaining, r.qty)), o, stp, remaining - Min(remaining, r.qty))
      else if stp.CancelOldest? then Met(Remove(v, r.ref), o, stp, remaining)
      else {}
  }

  // On the priority list

  datatype Walked = Walked(left: Orders, fills: seq<Fill>, remaining: Qty, stopped: bool, pulled: seq<Rec>, events: nat)

  /** The same along a list of orders in price-time priority. */
  function Walk(q: Orders, o: NewOrder, stp: StpMode, remaining: Qty): Walked {
    if remaining == 0 || q == [] || !Crosses(o, q[0].price) then Walked(q, [], remaining, false, [], 0)
    else if SelfTrade(stp, o, q[0].owner) then
      match stp
      case CancelOldest =>
        var w := Walk(q[1..], o, stp, remaining);
        w.(pulled := [q[0]] + w.pulled, events := w.events + 1)
      case CancelBoth => Walked(q[1..], [], remaining, true, [q[0]], 1)
      case _ => Walked(q, [], remaining, true, [], 1)
    else if q[0].qty <= remaining then
      var w := Walk(q[1..], o, stp, remaining - q[0].qty);
      w.(fills := [FillOf(o, q[0], q[0].qty)] + w.fills)
    else
      Walked([q[0].(qty := q[0].qty - remaining)] + q[1..], [FillOf(o, q[0], remaining)], 0, false, [], 0)
  }

  // One round of the loop

  lemma MatchIdle(v: Orders, o: NewOrder, stp: StpMode, remaining: Qty)
    requires IsBook(v) && !GoesOn(v, o, remaining)
    ensures Match(v, o, stp, remaining) == Matched(v, [], remaining, false, [], 0)
  {
  }

  lemma MatchPulls(v: Orders, o: NewOrder, stp: StpMode, remaining: Qty)
    requires IsBook(v) && GoesOn(v, o, remaining) && SelfTrade(stp, o, Front(v, o.side.Opposite()).owner) &&
             stp.CancelOldest?
    ensures var r := Front(v, o.side.Opposite());
            && Has(v, r.ref) && Get(v, r.ref) == r && IsBook(Remove(v, r.ref))
            && Match(v, o, stp, remaining) ==
               var m := Match(Remove(v, r.ref), o, stp, remaining);
               m.(pulled := [r] + m.pulled, events := m.events + 1)
  {
    hide Prices, Reduce, Front, IsBook, Best, Has, IndexOf, SelfTrade, Crosses;
    FrontStep(v, o.side.Opposite(), Front(v, o.side.Opposite()).qty);
  }

  lemma MatchStops(v: Orders, o: NewOrder, stp: StpMode, remaining: Qty)
    requires IsBook(v) && GoesOn(v, o, remaining) && SelfTrade(stp, o, Front(v, o.side.Opposite()).owner) &&
             !stp.CancelOldest?
    ensures var r := Front(v, o.side.Opposite());
            && Has(v, r.ref) && Get(v, r.ref) == r && IsBook(Remove(v, r.ref))
            && Match(v, o, stp, remaining) ==
               if stp.CancelBoth? then Matched(Remove(v, r.ref), [], remaining, true, [r], 1) else Matched(v, [],
                   remaining, true, [], 1)
  {
    hide Prices, Reduce, Front, IsBook, Best, Has, IndexOf, SelfTrade, Crosses;
    FrontStep(v, o.side.Opposite(), Front(v, o.side.Opposite()).qty);
  }

  lemma MetOnce(v: Orders, o: NewOrder, stp: StpMode, remaining: Qty)
    requires IsBook(v) && GoesOn(v, o, remaining)
    ensures var r := Front(v, o.side.Opposite()); var t := Min(remaining, r.qty);
            && Has(v, r.ref) && Get(v, r.ref) == r && IsBook(Reduce(v, r.ref, t)) && IsBook(Remove(v, r.ref))
            && r.ref in Met(v, o, stp, remaining)
            && (if SelfTrade(stp, o, r.owner)
                then stp.CancelOldest? ==> Met(Remove(v, r.ref), o, stp, remaining) <= Met(v, o, stp, remaining)
                else Met(Reduce(v, r.ref, t), o, stp, remaining - t) <= Met(v, o, stp, remaining))
  {
    hide Prices, Reduce, Front, IsBook, Best, Has, IndexOf, SelfTrade, Crosses;
    var r := Front(v, o.side.Opposite());
    FrontStep(v, o.side.Opposite(), Min(remaining, r.qty));
    FrontStep(v, o.side.Opposite(), r.qty);
  }

  // Taking from the front

  lemma {:induction false} QueuesSame(v: Orders, v': Orders, s: Side, ps: seq<Price>)
    requires forall p :: p in ps ==> Queue(v', s, p) == Queue(v, s, p)
    ensures QueuesAt(v', s, ps) == QueuesAt(v, s, ps)
  {
    hide Queue;
    if ps != [] {
      QueuesSame(v, v', s, ps[1..]);
    }
  }

  lemma FrontListed(v: Orders, s: Side)
    requires IsBook(v) && Prices(v, s) != {}
    ensures var r := Front(v, s);
            && Has(v, r.ref) && Get(v, r.ref) == r && r.side == s && r.price == Best(s, Prices(v, s)) && r.qty > 0
            && Ahead(v, r.ref) == [] && Queue(v, s, r.price) == [r] + Behind(v, r.ref)
  {
    hide Queue, Prices, IndexOf, Best;
    var b := Best(s, Prices(v, s));
    var q, r := Queue(v, s, b), Front(v, s);
    FrontExists(v, s);
    QueueMembers(v, s, b);
    assert q[0] in q;
    var i :| 0 <= i < |v| && v[i] == r;
    IndexOfDistinct(v, i);
    QueueOfReplaced(v, IndexOf(v, r.ref), [], s, b);
    QueueDistinct(v, s, b);
    var pre, post := Ahead(v, r.ref), Behind(v, r.ref);
    assert q == pre + [r] + post;
    assert q[|pre|] == r;
    assert pre == [];
    assert q == [r] + post;
  }

  /** Taking shares from the front order changes the front of the priority list and nothing else on either side. */
  lemma FrontStep(v: Orders, s: Side, shares: Qty)
    requires IsBook(v) && Prices(v, s) != {} && shares <= Front(v, s).qty
    ensures var r := Front(v, s);
            && Has(v, r.ref) && Get(v, r.ref) == r && r.side == s && r.price == Best(s, Prices(v, s)) && r.qty > 0
            && IsBook(Reduce(v, r.ref, shares))
            && |Reduce(v, r.ref, shares)| == |v| - (if shares == r.qty then 1 else 0)
            && Priority(v, s) != [] && Priority(v, s)[0] == r
            && Priority(Reduce(v, r.ref, shares), s) == Left(r, shares) + Priority(v, s)[1..]
            && OnSide(Reduce(v, r.ref, shares), s.Opposite()) == OnSide(v, s.Opposite())
  {
    hide Queue, Prices, IndexOf, Best, IsBook, Reduce, QueuesAt, OnSide, Sorted;
    var r := Front(v, s);
    FrontListed(v, s);
    ReduceIsBook(v, r.ref, shares);
    ReplacedElsewhere(v, r.ref, shares);
    FrontFirst(v, s);
    SideKept(v, r.ref, shares);
    var v', b, post := Reduce(v, r.ref, shares), r.price, Behind(v, r.ref);
    var tail := Sorted(s, Prices(v, s))[1..];
    TailQueues(v, v', s);
    assert Priority(v, s)[1..] == post + QueuesAt(v, s, tail);
    if Left(r, shares) + post == [] {
      PricesDrop(v, v', s, b);
      assert Priority(v', s) == QueuesAt(v, s, tail);
    } else {
      PricesStay(v, v', s, b);
      QueuesHead(v', s, b, tail);
      assert [] + Left(r, shares) + post == Left(r, shares) + post;
      assert Priority(v', s) == Left(r, shares) + post + QueuesAt(v, s, tail);
    }
  }

  lemma QueuesHead(v: Orders, s: Side, b: Price, tail: seq<Price>)
    ensures QueuesAt(v, s, [b] + tail) == Queue(v, s, b) + QueuesAt(v, s, tail)
  {
    assert ([b] + tail)[1..] == tail;
  }

  lemma SortedHead(s: Side, ps: set<Price>)
    requires ps != {}
    ensures Sorted(s, ps) == [Best(s, ps)] + Sorted(s, ps - {Best(s, ps)})
  {
    hide Best;
  }

  lemma FrontFirst(v: Orders, s: Side)
    requires IsBook(v) && Prices(v, s) != {}
    ensures var r, ps := Front(v, s), Sorted(s, Prices(v, s));
            && Has(v, r.ref) && ps == [r.price] + Sorted(s, Prices(v, s) - {r.price}) &&
            ps[1..] == Sorted(s, Prices(v, s) - {r.price})
            && Priority(v, s) == [r] + Behind(v, r.ref) + QueuesAt(v, s, ps[1..])
  {
    hide Queue, Prices, IndexOf, Best, IsBook, QueuesAt, Sorted;
    FrontListed(v, s);
    SortedHead(s, Prices(v, s));
    QueuesHead(v, s, Best(s, Prices(v, s)), Sorted(s, Prices(v, s))[1..]);
  }

  lemma TailQueues(v: Orders, v': Orders, s: Side)
    requires Prices(v, s) != {}
    requires forall p :: p != Best(s, Prices(v, s)) ==> Queue(v', s, p) == Queue(v, s, p)
    ensures var tail := Sorted(s, Prices(v, s))[1..]; QueuesAt(v', s, tail) == QueuesAt(v, s, tail)
  {
    hide Queue, Prices, Best, QueuesAt;
    var b := Best(s, Prices(v, s));
    SortedHead(s, Prices(v, s));
    var tail := Sorted(s, Prices(v, s))[1..];
    assert tail == Sorted(s, Prices(v, s) - {b});
    assert b !in tail;
    QueuesSame(v, v', s, tail);
  }

  lemma PricesDrop(v: Orders, v': Orders, s: Side, b: Price)
    requires forall p :: p != b ==> Queue(v', s, p) == Queue(v, s, p)
    requires Queue(v', s, b) == []
    ensures Prices(v', s) == Prices(v, s) - {b}
  {
    hide Queue, Prices;
    forall p ensures p in Prices(v', s) <==> p in Prices(v, s) && p != b {
      PricesOfQueues(v, s, p);
      PricesOfQueues(v', s, p);
    }
  }

  lemma PricesStay(v: Orders, v': Orders, s: Side, b: Price)
    requires forall p :: p != b ==> Queue(v', s, p) == Queue(v, s, p)
    requires Queue(v', s, b) != [] && b in Prices(v, s)
    ensures Prices(v', s) == Prices(v, s)
  {
    hide Queue, Prices;
    forall p ensures p in Prices(v', s) <==> p in Prices(v, s) {
      PricesOfQueues(v, s, p);
      PricesOfQueues(v', s, p);
    }
  }

  lemma SideKept(v: Orders, ref: OrderRef, shares: Qty)
    requires Has(v, ref) && shares <= Get(v, ref).qty
    ensures var o := Get(v, ref).side.Opposite(); OnSide(Reduce(v, ref, shares), o) == OnSide(v, o)
  {
    hide IndexOf, OnSide;
    var i, o := IndexOf(v, ref), Get(v, ref).side.Opposite();
    var m := Left(v[i], shares);
    assert v == v[..i] + [v[i]] + v[i + 1..];
    OnSideConcat(v[..i] + [v[i]], v[i + 1..], o);
    OnSideConcat(v[..i], [v[i]], o);
    OnSideConcat(v[..i] + m, v[i + 1..], o);
    OnSideConcat(v[..i], m, o);
    OffSide([v[i]], o);
    OffSide(m, o);
  }

  lemma OffSide(m: Orders, s: Side)
    requires |m| <= 1 && (m != [] ==> m[0].side != s)
    ensures OnSide(m, s) == []
  {
    if m != [] {
      assert m[..0] == [];
    }
  }

  // The two matchers are the same

  /** The list matcher's result m and the walk's result w agree; own is the submitter's side of the list. */
  ghost predicate SameEnd(m: Matched, w: Walked, own: Orders, s: Side) {
    && IsBook(m.view) && Priority(m.view, s.Opposite()) == w.left && OnSide(m.view, s) == own
    && m.fills == w.fills && m.remaining == w.remaining && m.stopped == w.stopped && m.pulled == w.pulled &&
    m.events == w.events
  }

  /** Matching on the list is the walk along the opposite side's priority order; the submitter's own side is
    untouched. */
  lemma {:induction false} MatchIsWalk(v: Orders, o: NewOrder, stp: StpMode, remaining: Qty)
    requires IsBook(v)
    ensures SameEnd(Match(v, o, stp, remaining), Walk(Priority(v, o.side.Opposite()), o, stp, remaining),
            OnSide(v, o.side), o.side)
    decreases |v|, remaining
  {
    hide Match, Walk, Front, Reduce, IsBook, Best, Has, IndexOf, Left, SelfTrade, Crosses, SameEnd, Prices;
    var s := o.side.Opposite();
    if !GoesOn(v, o, remaining) {
      MatchDone(v, o, stp, remaining);
    } else {
      var r := Front(v, s);
      FrontStep(v, s, r.qty);
      if SelfTrade(stp, o, r.owner) {
        if stp.CancelOldest? { MatchIsWalk(Remove(v, r.ref), o, stp, remaining); }
        MatchOwn(v, o, stp, remaining);
      } else {
        FrontStep(v, s, Min(remaining, r.qty));
        MatchIsWalk(Reduce(v, r.ref, Min(remaining, r.qty)), o, stp, remaining - Min(remaining, r.qty));
        MatchFill(v, o, stp, remaining);
      }
    }
  }

  lemma MatchDone(v: Orders, o: NewOrder, stp: StpMode, remaining: Qty)
    requires IsBook(v) && !GoesOn(v, o, remaining)
    ensures SameEnd(Match(v, o, stp, remaining), Walk(Priority(v, o.side.Opposite()), o, stp, remaining),
            OnSide(v, o.side), o.side)
  {
    hide Prices, Reduce, Front, Priority, OnSide, IsBook, Best, Has, IndexOf, SelfTrade, Crosses;
    var s := o.side.Opposite();
    PriorityEmpty(v, s);
    if Prices(v, s) != {} { FrontStep(v, s, 0); }
  }

  lemma MatchOwn(v: Orders, o: NewOrder, stp: StpMode, remaining: Qty)
    requires IsBook(v) && GoesOn(v, o, remaining)
    requires var r := Front(v, o.side.Opposite());
             SelfTrade(stp, o, r.owner) && Has(v, r.ref) && Get(v, r.ref) == r &&
             (stp.CancelOldest? && IsBook(Remove(v, r.ref)) ==>
                SameEnd(Match(Remove(v, r.ref), o, stp, remaining),
                Walk(Priority(Remove(v, r.ref), o.side.Opposite()), o, stp, remaining),
                        OnSide(Remove(v, r.ref), o.side), o.side))
    ensures SameEnd(Match(v, o, stp, remaining), Walk(Priority(v, o.side.Opposite()), o, stp, remaining),
            OnSide(v, o.side), o.side)
  {
    hide Prices, Reduce, Front, Priority, OnSide, IsBook, Best, Has, IndexOf, SelfTrade, Crosses;
    var s := o.side.Opposite();
    var r, q := Front(v, s), Priority(v, s);
    FrontStep(v, s, 0);
    FrontStep(v, s, r.qty);
    assert [] + q[1..] == q[1..];
  }

  lemma MatchFill(v: Orders, o: NewOrder, stp: StpMode, remaining: Qty)
    requires IsBook(v) && GoesOn(v, o, remaining)
    requires var r := Front(v, o.side.Opposite());
             !SelfTrade(stp, o, r.owner) && Has(v, r.ref) && Get(v, r.ref) == r &&
             var v', rest := Reduce(v, r.ref, Min(remaining, r.qty)), remaining - Min(remaining, r.qty);
             (IsBook(v') ==> SameEnd(Match(v', o, stp, rest), Walk(Priority(v', o.side.Opposite()), o, stp, rest),
             OnSide(v', o.side), o.side))
    ensures SameEnd(Match(v, o, stp, remaining), Walk(Priority(v, o.side.Opposite()), o, stp, remaining),
            OnSide(v, o.side), o.side)
  {
    hide Prices, Reduce, Front, Priority, OnSide, IsBook, Best, Has, IndexOf, Left, Match, Walk, Min;
    var s := o.side.Opposite();
    var r := Front(v, s);
    FrontStep(v, s, 0);
    FrontStep(v, s, Min(remaining, r.qty));
    MatchOnce(v, o, stp, remaining);
    WalkOnce(Priority(v, s), o, stp, remaining);
  }

  lemma MatchOnce(v: Orders, o: NewOrder, stp: StpMode, remaining: Qty)
    requires IsBook(v) && GoesOn(v, o, remaining) && !SelfTrade(stp, o, Front(v, o.side.Opposite()).owner)
    ensures var r := Front(v, o.side.Opposite());
            && Has(v, r.ref) && Get(v, r.ref) == r
            && var v', t := Reduce(v, r.ref, Min(remaining, r.qty)), Min(remaining, r.qty);
               && IsBook(v')
               && Match(v, o, stp, remaining) ==
                  var m := Match(v', o, stp, remaining - t);
                  m.(fills := [FillOf(o, r, t)] + m.fills)
  {
    hide Prices, Reduce, Front, IsBook, Best, Has, IndexOf, SelfTrade, Crosses;
    FrontStep(v, o.side.Opposite(), Min(remaining, Front(v, o.side.Opposite()).qty));
  }

  /** A fill leaves the walk to go on with what is left of the order it met. */
  lemma WalkOnce(q: Orders, o: NewOrder, stp: StpMode, remaining: Qty)
    requires remaining > 0 && q != [] && Crosses(o, q[0].price) && !SelfTrade(stp, o, q[0].owner)
    ensures var t := Min(remaining, q[0].qty);
            Walk(q, o, stp, remaining) ==
            var w := Walk(Left(q[0], t) + q[1..], o, stp, remaining - t);
            w.(fills := [FillOf(o, q[0], t)] + w.fills)
  {
    hide SelfTrade, Crosses;
    assert [] + q[1..] == q[1..];
  }

  lemma PriorityEmpty(v: Orders, s: Side)
    ensures Prices(v, s) == {} ==> Priority(v, s) == []
  {
  }

  // What a submission promises

  function FillQty(fills: seq<Fill>): nat {
    if fills == [] then 0 else fills[0].qty + FillQty(fills[1..])
  }

  lemma {:induction false} FillQtySnoc(fills: seq<Fill>, f: Fill)
    ensures FillQty(fills + [f]) == FillQty(fills) + f.qty
  {
    if fills == [] {
      assert [] + [f] == [f];
    } else {
      FillQtySnoc(fills[1..], f);
      assert (fills + [f])[1..] == fills[1..] + [f];
    }
  }

  /** Resting order r has been filled by f at its own price, by an order that crosses it, and not against its own
    owner. */
  predicate FillFits(f: Fill, r: Rec, o: NewOrder, stp: StpMode) {
    && f.resting == r.ref && f.restingOwner == r.owner && f.price == r.price && 0 < f.qty <= r.qty
    && f.aggressor == o.clientId && f.aggressorOwner == o.owner
    && Crosses(o, r.price) && !SelfTrade(stp, o, r.owner)
  }

  /** The orders of q that trade, in their order: those that are not the submitter's own under self-trade prevention. */
  function Tradable(q: Orders, o: NewOrder, stp: StpMode): Orders {
    if q == [] then [] else
      (if SelfTrade(stp, o, q[0].owner) then [] else [q[0]]) + Tradable(q[1..], o, stp)
  }

  /** The fills go down t without a gap; each consumes its order, except perhaps the last when the walk ran dry. */
  ghost predicate FillsRun(fills: seq<Fill>, t: Orders, o: NewOrder, stp: StpMode, dry: bool) {
    && |fills| <= |t|
    && (forall k :: 0 <= k < |fills| ==> FillFits(fills[k], t[k], o, stp))
    && (forall k :: 0 <= k < |fills| && (k < |fills| - 1 || !dry) ==> fills[k].qty == t[k].qty)
  }

  lemma FillsCons(f: Fill, r: Rec, fills: seq<Fill>, t: Orders, o: NewOrder, stp: StpMode, dry: bool)
    requires FillsRun(fills, t, o, stp, dry) && FillFits(f, r, o, stp) && (f.qty == r.qty || (fills == [] && dry))
    ensures FillsRun([f] + fills, [r] + t, o, stp, dry)
  {
    hide FillFits;
  }

  /** Fills go down the tradable orders in priority, and every fill but the last consumes its order. */
  lemma {:induction false} WalkFills(q: Orders, o: NewOrder, stp: StpMode, remaining: Qty)
    requires AllRest(q)
    ensures var w := Walk(q, o, stp, remaining); FillsRun(w.fills, Tradable(q, o, stp), o, stp, w.remaining == 0)
  {
    hide Crosses, SelfTrade, FillsRun, FillFits;
    NoFills(Tradable(q, o, stp), o, stp, remaining == 0);
    if !(remaining == 0 || q == [] || !Crosses(o, q[0].price)) {
      assert AllRest(q[1..]);
      NoFills(Tradable(q[1..], o, stp), o, stp, true);
      if SelfTrade(stp, o, q[0].owner) {
        assert [] + Tradable(q[1..], o, stp) == Tradable(q[1..], o, stp);
        if stp.CancelOldest? { WalkFills(q[1..], o, stp, remaining); }
      } else {
        var t := Min(remaining, q[0].qty);
        OneFits(q[0], o, stp, t);
        if q[0].qty <= remaining {
          WalkFills(q[1..], o, stp, remaining - t);
        }
        var w := if q[0].qty <= remaining then Walk(q[1..], o, stp, remaining - t) else Walked([], [], 0, false, [], 0);
        assert [FillOf(o, q[0], t)] + [] == [FillOf(o, q[0], t)];
        FillsCons(FillOf(o, q[0], t), q[0], w.fills, Tradable(q[1..], o, stp), o, stp, w.remaining == 0);
      }
    }
  }

  lemma NoFills(t: Orders, o: NewOrder, stp: StpMode, dry: bool)
    ensures FillsRun([], t, o, stp, dry)
  {
  }

  lemma OneFits(r: Rec, o: NewOrder, stp: StpMode, t: Qty)
    requires 0 < t <= r.qty && Crosses(o, r.price) && !SelfTrade(stp, o, r.owner)
    ensures FillFits(FillOf(o, r, t), r, o, stp)
  {
  }

  /**
   The walk ends only with nothing left to trade, with nothing left that crosses, or stopped, and then by a mode that
   rejects the submitter: the fills are the longest run there could be.
   */
  lemma {:induction false} WalkEnds(q: Orders, o: NewOrder, stp: StpMode, remaining: Qty)
    ensures var w := Walk(q, o, stp, remaining);
            && (w.remaining == 0 || w.stopped || w.left == [] || !Crosses(o, w.left[0].price))
            && (w.stopped ==> (stp.CancelNewest? || stp.CancelBoth?) && w.remaining > 0)
            && (stp.CancelNewest? && w.stopped ==>
                  w.left != [] && Crosses(o, w.left[0].price) && SelfTrade(stp, o, w.left[0].owner))
  {
    if !(remaining == 0 || q == [] || !Crosses(o, q[0].price)) {
      if SelfTrade(stp, o, q[0].owner) {
        if stp.CancelOldest? { WalkEnds(q[1..], o, stp, remaining); }
      } else if q[0].qty <= remaining {
        WalkEnds(q[1..], o, stp, remaining - q[0].qty);
      }
    }
  }

  /** What is pulled is the submitter's own, crosses, and is nothing at all unless the mode pulls resting orders. */
  lemma {:induction false} WalkPulls(q: Orders, o: NewOrder, stp: StpMode, remaining: Qty)
    ensures var w := Walk(q, o, stp, remaining);
            && (forall k :: 0 <= k < |w.pulled| ==>
                  SelfTrade(stp, o, w.pulled[k].owner) && Crosses(o, w.pulled[k].price))
            && (w.pulled != [] ==> stp.CancelOldest? || stp.CancelBoth?)
            && (stp.CancelBoth? ==> |w.pulled| == if w.stopped then 1 else 0)
            && w.events == |w.pulled| + if w.stopped && stp.CancelNewest? then 1 else 0
  {
    if !(remaining == 0 || q == [] || !Crosses(o, q[0].price)) {
      if SelfTrade(stp, o, q[0].owner) {
        if stp.CancelOldest? { WalkPulls(q[1..], o, stp, remaining); }
      } else if q[0].qty <= remaining {
        WalkPulls(q[1..], o, stp, remaining - q[0].qty);
      }
    }
  }

  /** The submitter's own orders among q, as far as self-trade prevention is concerned. */
  function Own(q: Orders, o: NewOrder, stp: StpMode): Orders {
    if q == [] then [] else
      (if SelfTrade(stp, o, q[0].owner) then [q[0]] else []) + Own(q[1..], o, stp)
  }

  /** The fills that consume every order of t. */
  function WholeFills(t: Orders, o: NewOrder): seq<Fill> {
    if t == [] then [] else [FillOf(o, t[0], t[0].qty)] + WholeFills(t[1..], o)
  }

  /**
   How the walk divides the queue: before place n everything crosses, and every order is either pulled, as the
   submitter's own, or consumed by a fill; behind it nothing is touched, except that the order at n may have been filled
   in part by the last fill.
   */
  ghost predicate Divides(w: Walked, q: Orders, o: NewOrder, stp: StpMode, n: nat, part: Qty)
    requires n <= |q|
  {
    && (forall k :: 0 <= k < n ==> Crosses(o, q[k].price))
    && w.pulled == Own(q[..n], o, stp)
    && if part == 0
       then w.fills == WholeFills(Tradable(q[..n], o, stp), o) && w.left == q[n..]
       else && n < |q| && part < q[n].qty && w.remaining == 0
            && Crosses(o, q[n].price) && !SelfTrade(stp, o, q[n].owner)
            && w.fills == WholeFills(Tradable(q[..n], o, stp), o) + [FillOf(o, q[n], part)]
            && w.left == [q[n].(qty := q[n].qty - part)] + q[n + 1..]
  }

  lemma {:induction false} WalkDivides(q: Orders, o: NewOrder, stp: StpMode, remaining: Qty)
    returns (n: nat, part: Qty)
    ensures n <= |q| && Divides(Walk(q, o, stp, remaining), q, o, stp, n, part)
  {
    hide Crosses, SelfTrade, FillOf, Divides;
    n, part := 0, 0;
    if remaining == 0 || q == [] || !Crosses(o, q[0].price) {
      DividesNothing(Walk(q, o, stp, remaining), q, o, stp);
    } else if SelfTrade(stp, o, q[0].owner) {
      if stp.CancelOldest? {
        n, part := WalkDivides(q[1..], o, stp, remaining);
        DividesPulled(Walk(q[1..], o, stp, remaining), Walk(q, o, stp, remaining), q, o, stp, n, part);
        n := n + 1;
      } else if stp.CancelBoth? {
        var none := Walked(q[1..], [], remaining, true, [], 0);
        DividesNothing(none, q[1..], o, stp);
        DividesPulled(none, Walk(q, o, stp, remaining), q, o, stp, 0, 0);
        n := 1;
      } else {
        DividesNothing(Walk(q, o, stp, remaining), q, o, stp);
      }
    } else if q[0].qty <= remaining {
      n, part := WalkDivides(q[1..], o, stp, remaining - q[0].qty);
      DividesFilled(Walk(q[1..], o, stp, remaining - q[0].qty), Walk(q, o, stp, remaining), q, o, stp, n, part);
      n := n + 1;
    } else {
      part := remaining;
      DividesPart(Walk(q, o, stp, remaining), q, o, stp, part);
    }
  }

  lemma DividesNothing(w: Walked, q: Orders, o: NewOrder, stp: StpMode)
    requires w.left == q && w.fills == [] && w.pulled == []
    ensures Divides(w, q, o, stp, 0, 0)
  {
    assert q[0..] == q && q[..0] == [];
  }

  lemma DividesPart(w: Walked, q: Orders, o: NewOrder, stp: StpMode, part: Qty)
    requires q != [] && 0 < part < q[0].qty && Crosses(o, q[0].price) && !SelfTrade(stp, o, q[0].owner)
    requires w.left == [q[0].(qty := q[0].qty - part)] + q[1..] && w.remaining == 0
    requires w.fills == [FillOf(o, q[0], part)] && w.pulled == []
    ensures Divides(w, q, o, stp, 0, part)
  {
    assert q[..0] == [];
    assert [] + w.fills == w.fills;
  }

  /** One order more in front, pulled ... */
  lemma DividesPulled(u: Walked, w: Walked, q: Orders, o: NewOrder, stp: StpMode, n: nat, part: Qty)
    requires q != [] && n <= |q[1..]| && Divides(u, q[1..], o, stp, n, part)
    requires Crosses(o, q[0].price) && SelfTrade(stp, o, q[0].owner)
    requires w.left == u.left && w.fills == u.fills && w.pulled == [q[0]] + u.pulled && w.remaining == u.remaining
    ensures Divides(w, q, o, stp, n + 1, part)
  {
    hide Crosses, SelfTrade, FillOf;
    assert q[..n + 1][1..] == q[1..][..n] && q[..n + 1][0] == q[0];
    assert q[1..][n..] == q[n + 1..];
    assert [] + Tradable(q[1..][..n], o, stp) == Tradable(q[1..][..n], o, stp);
    assert forall k :: 0 < k < n + 1 ==> q[k] == q[1..][k - 1];
  }

  /** ... or filled. */
  lemma DividesFilled(u: Walked, w: Walked, q: Orders, o: NewOrder, stp: StpMode, n: nat, part: Qty)
    requires q != [] && n <= |q[1..]| && Divides(u, q[1..], o, stp, n, part)
    requires Crosses(o, q[0].price) && !SelfTrade(stp, o, q[0].owner)
    requires w.left == u.left && w.pulled == u.pulled && w.remaining == u.remaining
    requires w.fills == [FillOf(o, q[0], q[0].qty)] + u.fills
    ensures Divides(w, q, o, stp, n + 1, part)
  {
    hide Crosses, SelfTrade, FillOf;
    var t := Tradable(q[1..][..n], o, stp);
    assert q[..n + 1][1..] == q[1..][..n] && q[..n + 1][0] == q[0];
    assert q[1..][n..] == q[n + 1..];
    assert [] + Own(q[1..][..n], o, stp) == Own(q[1..][..n], o, stp);
    assert ([q[0]] + t)[1..] == t;
    assert forall k :: 0 < k < n + 1 ==> q[k] == q[1..][k - 1];
  }
}
