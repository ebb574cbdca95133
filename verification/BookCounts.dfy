/** The counters and cached best prices a book keeps, as functions of the list it stands for. */
module BookCounts {
  import opened Core
  import opened NaiveSpec
  import opened PriceSets

  datatype PerSide<T> = PerSide(buy: T, sell: T) {
    function At(s: Side): T {
      if s.Buy? then buy else sell
    }

    function With(s: Side, x: T): PerSide<T> {
      if s.Buy? then PerSide(x, sell) else PerSide(buy, x)
    }
  }

  datatype BookStats = BookStats(totalQty: PerSide<nat>, levelCount: PerSide<nat>, orderCount: nat)

  function MoreLevels(st: BookStats, s: Side, n: nat): BookStats {
    st.(levelCount := st.levelCount.With(s, st.levelCount.At(s) + n))
  }

  function StatsOf(v: Orders): BookStats {
    BookStats(PerSide(TotalQty(v, Buy), TotalQty(v, Sell)), PerSide(|Prices(v, Buy)|, |Prices(v, Sell)|), |v|)
  }

  function BestsOf(v: Orders): PerSide<Price> {
    PerSide(Best(Buy, Prices(v, Buy)), Best(Sell, Prices(v, Sell)))
  }

  function LevelsOf(v: Orders): nat {
    |Prices(v, Buy)| + |Prices(v, Sell)|
  }

  lemma NoneBest(s: Side)
    ensures Prices([], s) == {} && Best(s, {}) == NO_PRICE
  {
  }

  lemma Empty()
    ensures StatsOf([]) == BookStats(PerSide(0, 0), PerSide(0, 0), 0) && BestsOf([]) == PerSide(NO_PRICE, NO_PRICE) &&
            LevelsOf([]) == 0
  {
    hide Best;
    NoneBest(Buy);
    NoneBest(Sell);
  }

  lemma PricesAfterAdd(v: Orders, r: Rec, s: Side)
    ensures Prices(Add(v, r), s) == Prices(v, s) + if s == r.side then {r.price} else {}
  {
    assert Add(v, r)[|v|] == r;
    assert forall o :: o in v ==> o in Add(v, r);
  }

  lemma StatsAfterAdd(v: Orders, r: Rec)
    ensures var n := |Prices(v, r.side)|;
            StatsOf(Add(v, r)) ==
            BookStats(StatsOf(v).totalQty.With(r.side, TotalQty(v, r.side) + r.qty),
                      StatsOf(v).levelCount.With(r.side, if r.price in Prices(v, r.side) then n else n + 1),
                      |v| + 1)
    ensures LevelsOf(Add(v, r)) == LevelsOf(v) + if r.price in Prices(v, r.side) then 0 else 1
  {
    hide TotalQty, Prices;
    AddTotal(v, r, Buy);
    AddTotal(v, r, Sell);
    LevelCountAfterAdd(v, r, Buy);
    LevelCountAfterAdd(v, r, Sell);
  }

  lemma LevelCountAfterAdd(v: Orders, r: Rec, s: Side)
    ensures |Prices(Add(v, r), s)| == |Prices(v, s)| + if s == r.side && r.price !in Prices(v, s) then 1 else 0
  {
    hide Prices;
    PricesAfterAdd(v, r, s);
    var ps := Prices(v, s);
    assert s != r.side ==> ps + {} == ps;
    assert r.price in ps ==> ps + {r.price} == ps;
  }

  /** Is the level of order ref left empty when ref gives up these shares? */
  predicate Clears(v: Orders, ref: OrderRef, shares: Qty): (c: bool)
    requires Has(v, ref)
    ensures c ==> shares == Get(v, ref).qty
  {
    shares == Get(v, ref).qty && Ahead(v, ref) + Behind(v, ref) == []
  }

  lemma PricesAfterReduce(v: Orders, ref: OrderRef, shares: Qty, s: Side)
    requires Has(v, ref) && shares <= Get(v, ref).qty
    ensures var r := Get(v, ref); r.price in Prices(v, r.side)
    ensures var r := Get(v, ref);
            Prices(Reduce(v, ref, shares), s) ==
            Prices(v, s) - if s == r.side && Clears(v, ref, shares) then {r.price} else {}
  {
    hide Queue, IndexOf, Prices;
    var r, v' := Get(v, ref), Reduce(v, ref, shares);
    ReplacedElsewhere(v, ref, shares);
    assert r.price in Prices(v, r.side) by {
      QueueOfReplaced(v, IndexOf(v, ref), [], r.side, r.price);
      PricesOfQueues(v, r.side, r.price);
    }
    forall p
      ensures p in Prices(v', s) <==>
              p in Prices(v, s) && !(s == r.side && p == r.price && Clears(v, ref, shares))
    {
      PricesOfQueues(v, s, p);
      PricesOfQueues(v', s, p);
    }
  }

  /** The counters after an order has given up shares, is perhaps gone, and has perhaps left its level empty. */
  function Lessened(st: BookStats, s: Side, shares: Qty, gone: bool, cleared: bool): BookStats
    requires shares <= st.totalQty.At(s) && st.levelCount.At(s) > 0 && st.orderCount > 0
  {
    BookStats(st.totalQty.With(s, st.totalQty.At(s) - shares),
              if cleared then st.levelCount.With(s, st.levelCount.At(s) - 1) else st.levelCount,
              if gone then st.orderCount - 1 else st.orderCount)
  }

  lemma StatsAfterReduce(v: Orders, ref: OrderRef, shares: Qty)
    requires IsBook(v) && Has(v, ref) && shares <= Get(v, ref).qty
    ensures var s, st, v' := Get(v, ref).side, StatsOf(v), Reduce(v, ref, shares);
            && shares <= st.totalQty.At(s) && st.levelCount.At(s) > 0 && st.orderCount > 0
            && StatsOf(v') == Lessened(st, s, shares, shares == Get(v, ref).qty, Clears(v, ref, shares))
            && |v'| == |v| - (if shares == Get(v, ref).qty then 1 else 0)
            && LevelsOf(v) > 0 && LevelsOf(v') == LevelsOf(v) - if Clears(v, ref, shares) then 1 else 0
  {
    hide TotalQty, Prices, IndexOf, Ahead, Behind, Reduce, IsBook, Refs, Clears;
    ReduceTotal(v, ref, shares, Buy);
    ReduceTotal(v, ref, shares, Sell);
    LevelCountAfterReduce(v, ref, shares, Buy);
    LevelCountAfterReduce(v, ref, shares, Sell);
    ReduceIsBook(v, ref, shares);
  }

  lemma LevelCountAfterReduce(v: Orders, ref: OrderRef, shares: Qty, s: Side)
    requires Has(v, ref) && shares <= Get(v, ref).qty
    ensures var r := Get(v, ref); s == r.side ==> |Prices(v, s)| > 0
    ensures var r := Get(v, ref);
            |Prices(Reduce(v, ref, shares), s)| ==
            |Prices(v, s)| - if s == r.side && Clears(v, ref, shares) then 1 else 0
  {
    hide Prices, IndexOf, Reduce, Clears;
    PricesAfterReduce(v, ref, shares, s);
    var ps, p := Prices(v, s), Get(v, ref).price;
    assert ps - {} == ps;
    if p in ps {
      assert ps == (ps - {p}) + {p};
    }
  }

  // The cached best

  /** The update on an add: NO_PRICE doubles as "this side was empty". */
  function Noted(s: Side, cached: Price, p: Price): Price {
    if cached == NO_PRICE || s.Inside(p, cached) then p else cached
  }

  /** An ask at a real price on a side that holds an ask at price zero. */
  predicate BehindZero(s: Side, ps: set<Price>, p: Price) {
    s.Sell? && NO_PRICE in ps && p != NO_PRICE
  }

  /** The update keeps the cached best right, except for exactly those. */
  lemma NotedExact(s: Side, ps: set<Price>, p: Price)
    ensures Noted(s, Best(s, ps), p) == Best(s, ps + {p}) <==> !BehindZero(s, ps, p)
  {
    var b, c := Best(s, ps), Best(s, ps + {p});
    assert p in ps + {p};
    assert c in ps + {p};
    if ps != {} { assert b in ps + {p}; }
  }

  /** Two asks, at price zero and at 5: the cached best is 5, the lowest ask is not. */
  lemma ZeroAskForgotten()
    ensures Noted(Sell, Noted(Sell, NO_PRICE, 0), 5) == 5 && Best(Sell, {0, 5}) == 0
  {
    NotedExact(Sell, {}, 0);
    NotedExact(Sell, {0}, 5);
    var b := Best(Sell, {0, 5});
    assert 0 in {0, 5};
  }

  /** A level cleared behind the top leaves the best as it was. */
  lemma BestAfterClear(s: Side, ps: set<Price>, p: Price)
    requires p in ps && p != Best(s, ps)
    ensures Best(s, ps - {p}) == Best(s, ps)
  {
    var b, c := Best(s, ps), Best(s, ps - {p});
    assert b in ps - {p};
  }

  /** The cached pair of bests after an add. */
  lemma BestsAfterAdd(v: Orders, r: Rec)
    ensures BestsOf(Add(v, r)) == BestsOf(v).With(r.side, Noted(r.side, BestsOf(v).At(r.side), r.price)) <==>
            !BehindZero(r.side, Prices(v, r.side), r.price)
  {
    hide Prices, Best;
    PricesAfterAdd(v, r, Buy);
    PricesAfterAdd(v, r, Sell);
    NotedExact(r.side, Prices(v, r.side), r.price);
    assert forall s :: Prices(v, s) + {} == Prices(v, s);
  }

  /** The cached pair after a reduction: recomputed only when the top level clears. */
  lemma BestsAfterReduce(v: Orders, ref: OrderRef, shares: Qty)
    requires Has(v, ref) && shares <= Get(v, ref).qty
    ensures var r, v' := Get(v, ref), Reduce(v, ref, shares);
            BestsOf(v') == if Clears(v, ref, shares) && r.price == BestsOf(v).At(r.side)
                           then BestsOf(v).With(r.side, Best(r.side, Prices(v', r.side))) else BestsOf(v)
  {
    hide Prices, Best, Reduce, IndexOf, Clears;
    var r := Get(v, ref);
    PricesAfterReduce(v, ref, shares, Buy);
    PricesAfterReduce(v, ref, shares, Sell);
    if Clears(v, ref, shares) && r.price != BestsOf(v).At(r.side) {
      BestAfterClear(r.side, Prices(v, r.side), r.price);
    }
    assert forall s :: Prices(v, s) - {} == Prices(v, s);
  }

  // The counters' widths

  lemma {:induction false} QtysBound(v: Orders)
    ensures Qtys(v) <= |v| * 0xFFFF_FFFF
  {
    if v != [] {
      QtysBound(v[..|v| - 1]);
    }
  }

  lemma {:induction false} OnSideShort(v: Orders, s: Side)
    ensures |OnSide(v, s)| <= |v|
  {
    if v != [] {
      OnSideShort(v[..|v| - 1], s);
    }
  }

  lemma {:induction false} PricesFew(v: Orders, s: Side)
    ensures |Prices(v, s)| <= |v|
  {
    if v == [] {
      NoneBest(s);
    } else {
      var w, r := v[..|v| - 1], v[|v| - 1];
      PricesFew(w, s);
      PricesAfterAdd(w, r, s);
      assert Add(w, r) == v;
    }
  }

  /** No list a pool can hold overflows the counters the records give them: 64-bit sums and 32-bit counts. */
  lemma CountersFit(v: Orders, s: Side)
    requires |v| <= MAX_CAPACITY
    ensures TotalQty(v, s) < 0x1_0000_0000_0000_0000 && |Prices(v, s)| < 0x1_0000_0000 && |v| < 0x1_0000_0000
  {
    hide Prices, OnSide, Qtys;
    OnSideShort(v, s);
    QtysBound(OnSide(v, s));
    PricesFew(v, s);
  }
}
