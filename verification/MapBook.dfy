/** The reference book: an ordered map of levels a side, a list of references a level, and a map of entries. */
module MapBooks {
  import opened Core
  import opened NaiveSpec
  import opened PriceSets
  import opened BookCounts

  datatype MapLevel = MapLevel(qty: nat, fifo: seq<OrderRef>)

  datatype Entry = Entry(side: Side, price: Price, qty: Qty, owner: Owner)

  type MapLevels = map<Price, MapLevel>

  /** The levels are the occupied prices, each with the sum and the references of its queue. */
  ghost predicate LevelsShow(m: MapLevels, v: Orders, s: Side) {
    forall p: Price :: LevelShows(m, v, s, p)
  }

  ghost predicate LevelShows(m: MapLevels, v: Orders, s: Side, p: Price) {
    var q := Queue(v, s, p);
    (p in m <==> q != []) && (p in m ==> m[p] == MapLevel(Qtys(q), RefList(q)))
  }

  ghost predicate EntriesShow(orders: map<OrderRef, Entry>, v: Orders) {
    && orders.Keys == Refs(v)
    && forall i :: 0 <= i < |v| ==> v[i].ref in orders && orders[v[i].ref] == Entry(v[i].side, v[i].price, v[i].qty,
    v[i].owner)
  }

  /** std::list::erase at the position kept for ref. */
  function Without(fifo: seq<OrderRef>, ref: OrderRef): seq<OrderRef> {
    if fifo == [] then [] else if fifo[0] == ref then fifo[1..] else [fifo[0]] + Without(fifo[1..], ref)
  }

  lemma WithoutCons(x: OrderRef, fifo: seq<OrderRef>, ref: OrderRef)
    ensures Without([x] + fifo, ref) == if x == ref then fifo else [x] + Without(fifo, ref)
  {
    assert ([x] + fifo)[1..] == fifo;
  }

  lemma {:induction false} WithoutMiddle(pre: seq<OrderRef>, ref: OrderRef, post: seq<OrderRef>)
    requires ref !in pre
    ensures Without(pre + [ref] + post, ref) == pre + post
  {
    hide Without;
    if pre == [] {
      WithoutCons(ref, post, ref);
      assert pre + [ref] + post == [ref] + post && pre + post == post;
    } else {
      WithoutMiddle(pre[1..], ref, post);
      WithoutCons(pre[0], pre[1..] + [ref] + post, ref);
      assert pre[0] in pre;
      assert pre + [ref] + post == [pre[0]] + (pre[1..] + [ref] + post);
      assert pre + post == [pre[0]] + (pre[1..] + post);
    }
  }

  lemma RefListConcat(a: Orders, b: Orders)
    ensures RefList(a + b) == RefList(a) + RefList(b)
  {
  }

  // Adding

  function Inserted(m: MapLevels, p: Price, ref: OrderRef, qty: Qty): MapLevels {
    var lvl := if p in m then m[p] else MapLevel(0, []);
    m[p := MapLevel(lvl.qty + qty, lvl.fifo + [ref])]
  }

  lemma InsertShows(m: MapLevels, v: Orders, r: Rec)
    requires LevelsShow(m, v, r.side)
    ensures LevelsShow(Inserted(m, r.price, r.ref, r.qty), Add(v, r), r.side)
  {
    hide Queue, Qtys;
    forall p: Price ensures LevelShows(Inserted(m, r.price, r.ref, r.qty), Add(v, r), r.side, p) {
      var q := Queue(v, r.side, p);
      QueueConcat(v, [r], r.side, p);
      QueueOne(r, r.side, p);
      assert LevelShows(m, v, r.side, p) && q + [] == q;
      if p == r.price {
        QtysConcat(q, [r]);
        QtysOne(r);
        NoQtys([]);
        RefListConcat(q, [r]);
      }
    }
  }

  lemma AddElsewhere(m: MapLevels, v: Orders, r: Rec, s: Side)
    requires LevelsShow(m, v, s) && s != r.side
    ensures LevelsShow(m, Add(v, r), s)
  {
    hide Queue, Qtys;
    forall p: Price ensures LevelShows(m, Add(v, r), s, p) {
      QueueConcat(v, [r], s, p);
      QueueOne(r, s, p);
      assert LevelShows(m, v, s, p) && Queue(v, s, p) + [] == Queue(v, s, p);
    }
  }

  lemma AddEntries(orders: map<OrderRef, Entry>, v: Orders, r: Rec)
    requires EntriesShow(orders, v) && r.ref !in orders
    ensures EntriesShow(orders[r.ref := Entry(r.side, r.price, r.qty, r.owner)], Add(v, r))
  {
    hide Refs;
    RefsConcat(v, [r]);
    RefsSmall([r]);
  }

  // Reducing

  /** One level after shares have left it, and the order ref too if it is gone; an emptied level goes. */
  function Reduced(m: MapLevels, p: Price, ref: OrderRef, shares: Qty, gone: bool): MapLevels
    requires p in m && m[p].qty >= shares
  {
    var fifo := if gone then Without(m[p].fifo, ref) else m[p].fifo;
    if fifo == [] then m - {p} else m[p := MapLevel(m[p].qty - shares, fifo)]
  }

  lemma ReduceShows(m: MapLevels, v: Orders, ref: OrderRef, shares: Qty)
    requires Has(v, ref) && IsBook(v) && shares <= Get(v, ref).qty && LevelsShow(m, v, Get(v, ref).side)
    ensures var r := Get(v, ref);
            && r.price in m && m[r.price].qty >= r.qty
            && LevelsShow(Reduced(m, r.price, ref, shares, shares == r.qty), Reduce(v, ref, shares), r.side)
            && (r.price !in Reduced(m, r.price, ref, shares, shares == r.qty) <==> Clears(v, ref, shares))
  {
    hide Queue, Qtys, IndexOf, Reduce, DistinctRefs;
    var r, v', pre, post := Get(v, ref), Reduce(v, ref, shares), Ahead(v, ref), Behind(v, ref);
    var q := Queue(v, r.side, r.price);
    ReplacedElsewhere(v, ref, shares);
    QueueOfReplaced(v, IndexOf(v, ref), [], r.side, r.price);
    QueueDistinct(v, r.side, r.price);
    assert q == pre + [r] + post;
    assert LevelShows(m, v, r.side, r.price);
    QtysThree(pre, r, post);
    LevelAfter(pre, r, post, shares);
    var m' := Reduced(m, r.price, ref, shares, shares == r.qty);
    assert Queue(v', r.side, r.price) == pre + Left(r, shares) + post;
    forall p: Price ensures LevelShows(m', v', r.side, p) {
      assert LevelShows(m, v, r.side, p);
    }
  }

  lemma LevelAfter(pre: Orders, r: Rec, post: Orders, shares: Qty)
    requires DistinctRefs(pre + [r] + post) && shares <= r.qty && r.qty > 0
    ensures var q, q' := pre + [r] + post, pre + Left(r, shares) + post;
            && Qtys(q) >= shares && Qtys(q') == Qtys(q) - shares
            && RefList(q') == if shares == r.qty then Without(RefList(q), r.ref) else RefList(q)
  {
    hide Qtys;
    var q := pre + [r] + post;
    QtysThree(pre, r, post);
    if shares == r.qty {
      assert pre + [] + post == pre + post;
      RefListConcat(pre + [r], post);
      RefListConcat(pre, [r]);
      RefListConcat(pre, post);
      assert RefList([r]) == [r.ref];
      forall i | 0 <= i < |pre| ensures RefList(pre)[i] != r.ref {
        assert q[i] == pre[i] && q[|pre|] == r;
      }
      WithoutMiddle(RefList(pre), r.ref, RefList(post));
    } else {
      var r' := r.(qty := r.qty - shares);
      QtysThree(pre, r', post);
      assert RefList(pre + [r'] + post) == RefList(q);
    }
  }

  lemma ReduceElsewhere(m: MapLevels, v: Orders, ref: OrderRef, shares: Qty, s: Side)
    requires Has(v, ref) && shares <= Get(v, ref).qty && LevelsShow(m, v, s) && s != Get(v, ref).side
    ensures LevelsShow(m, Reduce(v, ref, shares), s)
  {
    hide Queue, Qtys, IndexOf, Reduce;
    ReplacedElsewhere(v, ref, shares);
    forall p: Price ensures LevelShows(m, Reduce(v, ref, shares), s, p) {
      assert LevelShows(m, v, s, p);
    }
  }

  lemma ReduceEntries(orders: map<OrderRef, Entry>, v: Orders, ref: OrderRef, shares: Qty)
    requires EntriesShow(orders, v) && IsBook(v) && Has(v, ref) && shares <= Get(v, ref).qty
    ensures var r := Get(v, ref);
            && ref in orders && orders[ref] == Entry(r.side, r.price, r.qty, r.owner)
            && EntriesShow(if shares
            == r.qty then orders - {ref} else orders[ref := orders[ref].(qty := r.qty - shares)],
            Reduce(v, ref, shares))
  {
    hide Refs, IndexOf;
    var r, v', i := Get(v, ref), Reduce(v, ref, shares), IndexOf(v, ref);
    ReduceIsBook(v, ref, shares);
    if shares == r.qty {
      assert forall k :: 0 <= k < |v'| ==> v'[k] == v[if k < i then k else k + 1];
    } else {
      assert forall k :: 0 <= k < |v'| ==> v'[k] == if k == i then r.(qty := r.qty - shares) else v[k];
    }
  }

  class MapBook {
    var orders: map<OrderRef, Entry>
    var bids: MapLevels
    var asks: MapLevels
    var stats: BookStats

    ghost var view: Orders

    ghost predicate Valid()
      reads this
    {
      && IsBook(view) && EntriesShow(orders, view)
      && LevelsShow(bids, view, Buy) && LevelsShow(asks, view, Sell)
      && stats == StatsOf(view)
    }

    constructor ()
      ensures Valid() && view == []
    {
      hide Queue, StatsOf;
      orders := map[];
      bids := map[];
      asks := map[];
      stats := BookStats(PerSide(0, 0), PerSide(0, 0), 0);
      view := [];
      new;
      forall s, p ensures LevelShows(map[], [], s, p) {
        QueueNil(s, p);
      }
      BookCounts.Empty();
    }

    function LevelMapOf(s: Side): MapLevels
      reads this
    {
      if s.Buy? then bids else asks
    }

    method Add(ref: OrderRef, side: Side, price: Price, qty: Qty, owner: Owner)
      requires Valid()
      requires qty > 0 && !Has(view, ref)
      modifies this
      ensures Valid()
      ensures view == NaiveSpec.Add(old(view), Rec(ref, side, price, qty, owner))
    {
      hide EntriesShow, LevelsShow, IsBook, Has, StatsOf, Inserted;
      ghost var r := Rec(ref, side, price, qty, owner);
      EntryKnown(ref);
      AddIsBook(view, r);
      AddEntries(orders, view, r);
      InsertShows(LevelMapOf(side), view, r);
      AddElsewhere(LevelMapOf(side.Opposite()), view, r, side.Opposite());
      StatsAfterAdd(view, r);
      LevelKnown(side, price);
      var made := price !in LevelMapOf(side);
      if side.Buy? {
        bids := Inserted(bids, price, ref, qty);
      } else {
        asks := Inserted(asks, price, ref, qty);
      }
      CountAdd(side, qty, made, r);
      orders := orders[ref := Entry(side, price, qty, owner)];
      view := NaiveSpec.Add(view, r);
    }

    method CountAdd(side: Side, qty: Qty, made: bool, ghost r: Rec)
      requires r.side == side && r.qty == qty && made == (r.price !in Prices(view, side)) && stats == StatsOf(view)
      modifies this`stats
      ensures stats == StatsOf(NaiveSpec.Add(view, r))
    {
      hide Prices, TotalQty;
      StatsAfterAdd(view, r);
      stats := BookStats(stats.totalQty.With(side, stats.totalQty.At(side) + qty),
                         if made then stats.levelCount.With(side, stats.levelCount.At(side) + 1) else stats.levelCount,
                         stats.orderCount + 1);
    }

    lemma LevelKnown(s: Side, p: Price)
      requires Valid()
      ensures p in LevelMapOf(s) <==> p in Prices(view, s)
      ensures p in LevelMapOf(s) ==> LevelMapOf(s)[p] == MapLevel(Qtys(Queue(view, s, p)), RefList(Queue(view, s, p)))
      ensures p in LevelMapOf(s) <==> Queue(view, s, p) != []
    {
      hide EntriesShow, IsBook, Queue, Qtys, StatsOf, Prices;
      assert LevelShows(LevelMapOf(s), view, s, p);
      PricesOfQueues(view, s, p);
    }

    lemma EntryKnown(ref: OrderRef)
      requires Valid()
      ensures ref in orders <==> Has(view, ref)
      ensures Has(view, ref) ==> var r := Get(view, ref);
                                 r.ref == ref && r.qty > 0 && orders[ref] == Entry(r.side, r.price, r.qty, r.owner)
    {
      hide IndexOf, Refs, DistinctRefs, LevelsShow;
      HasIffIn(view, ref);
    }

    /** The shared body of cancel, execute and remove. */
    method Reduce(ref: OrderRef, shares: Qty)
      requires Valid() && Has(view, ref) && shares <= Get(view, ref).qty
      modifies this
      ensures Valid()
      ensures view == NaiveSpec.Reduce(old(view), ref, shares)
    {
      hide EntriesShow, LevelsShow, IsBook, Has, IndexOf, NaiveSpec.Reduce, StatsOf, Reduced, Lessened, Clears;
      EntryKnown(ref);
      var e := orders[ref];
      ReduceShows(LevelMapOf(e.side), view, ref, shares);
      ReduceElsewhere(LevelMapOf(e.side.Opposite()), view, ref, shares, e.side.Opposite());
      ReduceEntries(orders, view, ref, shares);
      ReduceIsBook(view, ref, shares);
      StatsAfterReduce(view, ref, shares);
      var gone := e.qty == shares;
      if e.side.Buy? {
        bids := Reduced(bids, e.price, ref, shares, gone);
      } else {
        asks := Reduced(asks, e.price, ref, shares, gone);
      }
      stats := Lessened(stats, e.side, shares, gone, e.price !in LevelMapOf(e.side));
      orders := if gone then orders - {ref} else orders[ref := e.(qty := e.qty - shares)];
      view := NaiveSpec.Reduce(view, ref, shares);
    }

    method Cancel(ref: OrderRef, shares: Qty)
      requires Valid()
      requires Has(view, ref) && shares <= Get(view, ref).qty
      modifies this
      ensures Valid()
      ensures view == NaiveSpec.Reduce(old(view), ref, shares)
    {
      Reduce(ref, shares);
    }

    method Execute(ref: OrderRef, shares: Qty) returns (done: Qty)
      requires Valid()
      requires Has(view, ref) && shares <= Get(view, ref).qty
      modifies this
      ensures Valid()
      ensures view == NaiveSpec.Reduce(old(view), ref, shares) && done == shares
    {
      Reduce(ref, shares);
      done := shares;
    }

    method Remove(ref: OrderRef)
      requires Valid()
      requires Has(view, ref)
      modifies this
      ensures Valid()
      ensures view == NaiveSpec.Remove(old(view), ref)
    {
      hide Valid, Has, IndexOf, NaiveSpec.Reduce;
      EntryKnown(ref);
      Reduce(ref, orders[ref].qty);
    }

    method Replace(oldRef: OrderRef, newRef: OrderRef, price: Price, qty: Qty)
      requires Valid()
      requires Has(view, oldRef) && qty > 0 && !Has(NaiveSpec.Remove(view, oldRef), newRef)
      modifies this
      ensures Valid()
      ensures view == NaiveSpec.Replace(old(view), oldRef, newRef, price, qty)
    {
      hide Valid, Has, IndexOf, NaiveSpec.Reduce;
      EntryKnown(oldRef);
      var e := orders[oldRef];
      Remove(oldRef);
      Add(newRef, e.side, price, qty, e.owner);
    }

    // Queries

    lemma KeysKnown(s: Side)
      requires Valid()
      ensures LevelMapOf(s).Keys == Prices(view, s)
    {
      hide Valid, Prices, Queue;
      forall p ensures p in LevelMapOf(s) <==> p in Prices(view, s) {
        LevelKnown(s, p);
      }
    }

    predicate Empty(s: Side)
      reads this
    {
      LevelMapOf(s) == map[]
    }

    /** begin() of the side's ordered map. */
    function BestOf(s: Side): Price
      reads this
    {
      if Empty(s) then NO_PRICE else Best(s, LevelMapOf(s).Keys)
    }

    predicate IsCrossed()
      reads this
    {
      !Empty(Buy) && !Empty(Sell) && BestOf(Buy) >= BestOf(Sell)
    }

    lemma QueriesAgree(s: Side)
      requires Valid()
      ensures Empty(s) <==> Prices(view, s) == {}
      ensures BestOf(s) == Best(s, Prices(view, s))
      ensures IsCrossed() <==>
                exists b, a :: b in view && a in view && b.side == Buy && a.side == Sell && b.price >= a.price
      ensures |orders| == |view|
    {
      hide IndexOf, Prices, Best, LevelsShow, DistinctRefs, AllRest;
      KeysKnown(Buy);
      KeysKnown(Sell);
      CrossedExactly(view);
      RefsCount(view);
      assert |orders.Keys| == |orders|;
    }

    method QtyAt(s: Side, p: Price) returns (qty: nat)
      requires Valid()
      ensures qty == Qtys(Queue(view, s, p))
    {
      hide Valid, Queue;
      LevelKnown(s, p);
      var m := LevelMapOf(s);
      qty := if p in m then m[p].qty else 0;
    }

    method OrdersAt(s: Side, p: Price) returns (n: nat)
      requires Valid()
      ensures n == |Queue(view, s, p)|
    {
      hide Valid, Queue;
      LevelKnown(s, p);
      var m := LevelMapOf(s);
      n := if p in m then |m[p].fifo| else 0;
    }

    method FrontAt(s: Side, p: Price) returns (ref: OrderRef)
      requires Valid()
      ensures var q := Queue(view, s, p); ref == if q == [] then 0 else q[0].ref
    {
      hide Valid, Queue, Qtys;
      LevelKnown(s, p);
      var m := LevelMapOf(s);
      ref := if p !in m || m[p].fifo == [] then 0 else m[p].fifo[0];
    }

    method Contains(ref: OrderRef) returns (found: bool)
      requires Valid()
      ensures found <==> Has(view, ref)
    {
      EntryKnown(ref);
      found := ref in orders;
    }

    method Lookup(ref: OrderRef) returns (r: Rec)
      requires Valid() && Has(view, ref)
      ensures r == Get(view, ref)
    {
      EntryKnown(ref);
      var e := orders[ref];
      r := Rec(ref, e.side, e.price, e.qty, e.owner);
    }

    /** The map in its own order: levels from the inside outwards. */
    method ForEachLevel(s: Side) returns (out: seq<Level>)
      requires Valid()
      ensures out == Levels(view, s)
    {
      hide Valid, Sorted, Queue, Qtys, Prices;
      KeysKnown(s);
      var m := LevelMapOf(s);
      var ps := Sorted(s, m.Keys);
      out := [];
      for i := 0 to |ps|
        invariant out == LevelsAt(view, s, ps[..i])
      {
        LevelKnown(s, ps[i]);
        assert ps[i] in m.Keys;
        out := out + [Level(ps[i], m[ps[i]].qty, |m[ps[i]].fifo|, m[ps[i]].fifo)];
      }
      assert ps[..|ps|] == ps;
    }
  }
}
