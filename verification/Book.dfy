/**
 The order book: pooled orders in doubly linked queues, pooled levels, an order index, one price map a side, and
 cached counters and best prices. Every operation is proved to take the step of the flat list.
 */
module Books {
  import opened Core
  import opened Pools
  import opened OrderIndexes
  import opened AvlLevelMaps
  import opened PriceLadders
  import opened LevelMaps
  import opened NaiveSpec
  import opened PriceSets
  import opened BookInvariant
  import opened BookSteps
  import opened BookCounts
  import opened BookRooms

  class Book {
    const orders: Pool<OrderData>
    const levels: Pool<LevelData>
    const index: OrderIndex
    const ladders: PerSide<LevelMap>
    var stats: BookStats
    var bests: PerSide<Price>

    /** The list this book stands for. */
    ghost var view: Orders

    ghost function Repr(): set<object> {
      {this, orders, levels, index, index.slots} + ladders.buy.Repr() + ladders.sell.Repr()
    }

    /** The parts do not share memory. */
    ghost predicate Separate() {
      && (orders as object) != levels
      && ladders.buy.Repr() !! ladders.sell.Repr()
      && {this, orders, levels, index, index.slots} !! ladders.buy.Repr() + ladders.sell.Repr()
      && ladders.buy.Side().Buy? && ladders.sell.Side().Sell?
    }

    ghost predicate Parts()
      reads Repr()
    {
      Separate() && orders.Valid() && levels.Valid() && index.Valid() && ladders.buy.Valid() && ladders.sell.Valid()
    }

    ghost function Keys(s: Side): LevelKeys
      reads Repr()
    {
      Pick(ladders.buy.Contents(), ladders.sell.Contents(), s)
    }

    ghost function Names(): Index
      requires Parts()
      reads Repr()
    {
      index.Map()
    }

    /** The records, the index and the price maps together stand for the list. */
    ghost predicate Shows(v: Orders)
      requires Parts()
      reads Repr()
    {
      Represents(orders.slots, levels.slots, Names(), Keys(Buy), Keys(Sell), v)
    }

    /** Every cached number is what the list gives. */
    ghost predicate Counts(v: Orders)
      reads Repr()
    {
      stats == StatsOf(v) && bests == BestsOf(v) && index.live == orders.live == |v| && levels.live == LevelsOf(v)
    }

    ghost predicate Valid()
      reads Repr()
    {
      Parts() && Shows(view) && Counts(view)
    }

    /** What the parts can still take. */
    ghost function Room(): BookRoom
      reads Repr()
    {
      Sized(orders.Room(), levels.Room(), index.slots.Length, PerSide(ladders.buy.Shape(), ladders.sell.Shape()))
    }

    lemma KeysArePrices(v: Orders, s: Side)
      requires Parts() && Shows(v)
      ensures Keys(s).Keys == Prices(v, s)
    {
      hide Queue, Prices, LevelMap.Valid, LevelMap.Contents, Pool.Valid, OrderIndex.Valid, OrderIndex.Map, Queued,
           Headed, IsBook, Refs, Apart;
      forall p ensures p in Keys(s) <==> p in Prices(v, s) {
        KeyOf(orders.slots, levels.slots, Names(), Keys(Buy), Keys(Sell), v, s, p);
        PricesOfQueues(v, s, p);
      }
    }

    /** Assembles a book from its parts, all of them empty. */
    constructor (orders: Pool<OrderData>, levels: Pool<LevelData>, index: OrderIndex, ladders: PerSide<LevelMap>)
      requires orders.Valid() && orders.live == 0 && levels.Valid() && levels.live == 0
      requires index.Valid() && index.Map() == map[] && index.live == 0
      requires ladders.buy.Valid() && ladders.buy.Contents() == map[] && ladders.buy.Side() == Buy
      requires ladders.sell.Valid() && ladders.sell.Contents() == map[] && ladders.sell.Side() == Sell
      requires (orders as object) != levels && ladders.buy.Repr() !! ladders.sell.Repr()
      requires {orders, levels, index, index.slots} !! ladders.buy.Repr() + ladders.sell.Repr()
      ensures Valid() && view == []
      ensures this.orders == orders && this.levels == levels && this.index == index && this.ladders == ladders
    {
      hide Pool.Valid, OrderIndex.Valid, OrderIndex.Map, LevelMap.Valid, LevelMap.Contents, BestsOf, StatsOf,
           LevelsOf, Represents;
      this.orders := orders;
      this.levels := levels;
      this.index := index;
      this.ladders := ladders;
      stats := BookStats(PerSide(0, 0), PerSide(0, 0), 0);
      bests := PerSide(NO_PRICE, NO_PRICE);
      view := [];
      new;
      EmptyBook(orders.slots, levels.slots);
      BookCounts.Empty();
    }

    // Adding

    // One part at a time

    /** A fresh order record, not yet in any queue. */
    method BlankOrder(ref: OrderRef, side: Side, price: Price, qty: Qty, owner: Owner) returns (oh: Handle)
      requires Parts() && orders.stack != []
      modifies orders
      ensures Parts() && Names() == old(Names()) && forall s :: Keys(s) == old(Keys(s))
      ensures orders.live == old(orders.live) + 1 && index.live == old(index.live)
      ensures levels.slots == old(levels.slots) && levels.live == old(levels.live) && levels.stack == old(levels.stack)
      ensures view == old(view) && stats == old(stats)
      ensures oh.index < |old(orders.slots)| && !old(orders.slots)[oh.index].Live() && LiveIn(orders.slots, oh)
      ensures orders.slots == old(orders.slots)[oh.index := Slot(OrderData(ref, qty, price, NULL, NULL, side, owner),
              NULL, oh.gen)]
      ensures Room() == old(Room()).OrderTaken()
    {
      hide Pool.Valid, OrderIndex.Valid, OrderIndex.Map, LevelMap.Valid, LevelMap.Contents;
      oh := orders.Allocate();
      orders.Put(oh, OrderData(ref, qty, price, NULL, NULL, side, owner), NULL);
    }

    /** The level at this price, made if there is none. */
    method LevelFor(side: Side, price: Price) returns (lh: Handle)
      requires Parts()
      requires price !in Keys(side) ==>
                 levels.stack != [] && ladders.At(side).Shape().Takes(side, Keys(side).Keys, price)
      requires price in Keys(side) ==> LiveIn(levels.slots, Keys(side)[price])
      modifies levels, ladders.At(side).Repr(), this`stats
      ensures Parts() && Names() == old(Names()) && orders.slots == old(orders.slots)
      ensures orders.live == old(orders.live) && index.live == old(index.live) && view == old(view)
      ensures LevelChosen(old(levels.slots), old(Keys(side)), price, lh)
      ensures Keys(side) == old(Keys(side))[price := lh] && Keys(side.Opposite()) == old(Keys(side.Opposite()))
      ensures LiveIn(levels.slots, lh) && LevelsKept(old(levels.slots), levels.slots, lh.index)
      ensures levels.slots[lh.index].data == LevelBefore(old(levels.slots), old(Keys(side)), price, lh)
      ensures var one := if price in old(Keys(side)) then 0 else 1;
              && levels.live == old(levels.live) + one
              && stats == MoreLevels(old(stats), side, one)
      ensures Room() == if price in old(Keys(side)) then old(Room())
                        else old(Room()).LevelMade(side, old(Keys(side)).Keys, price)
    {
      hide Pool.Valid, OrderIndex.Valid, OrderIndex.Map, LevelMap.Valid, LevelMap.Contents;
      lh := ladders.At(side).Find(price);
      if lh.IsNull() {
        lh := MakeLevel(side, price);
      }
    }

    method MakeLevel(side: Side, price: Price) returns (lh: Handle)
      requires Parts()
      requires price !in Keys(side)
      requires levels.stack != [] && ladders.At(side).Shape().Takes(side, Keys(side).Keys, price)
      modifies levels, ladders.At(side).Repr(), this`stats
      ensures Parts() && Names() == old(Names()) && orders.slots == old(orders.slots)
      ensures orders.live == old(orders.live) && index.live == old(index.live) && view == old(view)
      ensures lh.index < |old(levels.slots)| && !old(levels.slots)[lh.index].Live()
      ensures Keys(side) == old(Keys(side))[price := lh] && Keys(side.Opposite()) == old(Keys(side.Opposite()))
      ensures LiveIn(levels.slots, lh) && LevelsKept(old(levels.slots), levels.slots, lh.index)
      ensures levels.slots[lh.index].data == NewLevel(price) && levels.live == old(levels.live) + 1
      ensures stats == MoreLevels(old(stats), side, 1)
      ensures Room() == old(Room()).LevelMade(side, old(Keys(side)).Keys, price)
    {
      hide Pool.Valid, OrderIndex.Valid, OrderIndex.Map, LevelMap.Valid, LevelMap.Contents, MapShape.Takes,
           MapShape.Grown;
      lh := BlankLevel(levels, price);
      ladders.At(side).Insert(price, lh);
      stats := MoreLevels(stats, side, 1);
    }

    /** A fresh order record and the level it is to join. */
    method Settle(ref: OrderRef, side: Side, price: Price, qty: Qty, owner: Owner) returns (oh: Handle, lh: Handle)
      requires Parts() && orders.stack != []
      requires price !in Keys(side) ==>
                 levels.stack != [] && ladders.At(side).Shape().Takes(side, Keys(side).Keys, price)
      requires price in Keys(side) ==> LiveIn(levels.slots, Keys(side)[price])
      modifies orders, levels, ladders.At(side).Repr(), this`stats
      ensures Parts() && Names() == old(Names())
      ensures orders.live == old(orders.live) + 1 && index.live == old(index.live) && view == old(view)
      ensures Settled(old(orders.slots), old(levels.slots), old(Keys(side)), orders.slots, levels.slots, Keys(side),
              Rec(ref, side, price, qty, owner), oh, lh)
      ensures Keys(side.Opposite()) == old(Keys(side.Opposite()))
      ensures var one := if price in old(Keys(side)) then 0 else 1;
              && levels.live == old(levels.live) + one
              && stats == MoreLevels(old(stats), side, one)
      ensures var taken := old(Room()).OrderTaken();
              Room() == if price in old(Keys(side)) then taken
                        else taken.LevelMade(side, old(Keys(side)).Keys, price)
    {
      hide Parts, Keys, Names, Room, BookRoom.OrderTaken, BookRoom.LevelMade, LevelChosen, LevelBefore, LevelsKept,
           MoreLevels, MapShape.Takes;
      oh := BlankOrder(ref, side, price, qty, owner);
      lh := LevelFor(side, price);
    }

    method Enqueue(oh: Handle, lh: Handle)
      requires Parts() && LiveIn(orders.slots, oh) && LiveIn(levels.slots, lh)
      requires orders.slots[oh.index].link == NULL && orders.slots[oh.index].data.prev == NULL
      requires var d := levels.slots[lh.index].data;
               && (d.tail == NULL ==> d.head == NULL)
               && (d.tail != NULL ==> LiveIn(orders.slots, d.tail) && d.tail.index != oh.index)
      modifies orders`slots, levels`slots
      ensures Parts() && Names() == old(Names()) && forall s :: Keys(s) == old(Keys(s))
      ensures index.live == old(index.live) && orders.live == old(orders.live) && levels.live == old(levels.live)
      ensures view == old(view) && stats == old(stats)
      ensures orders.slots == Joined(old(orders.slots), oh, lh, old(levels.slots)[lh.index].data.tail)
      ensures var slot := old(levels.slots)[lh.index];
              levels.slots == old(levels.slots)[lh.index := slot.(data := Grown(slot.data, oh,
              old(orders.slots)[oh.index].data.qty))]
      ensures Room() == old(Room())
    {
      hide Pool.Valid, OrderIndex.Valid, OrderIndex.Map, LevelMap.Valid, LevelMap.Contents;
      PushBack(orders, levels, oh, lh);
    }

    method Name(ref: OrderRef, oh: Handle)
      requires Parts() && oh != NULL && index.live * 2 < index.slots.Length && ref !in Names()
      modifies index, index.slots
      ensures Parts() && Names() == old(Names())[ref := oh] && index.live == old(index.live) + 1
      ensures orders.slots == old(orders.slots) && levels.slots == old(levels.slots) &&
              forall s :: Keys(s) == old(Keys(s))
      ensures orders.live == old(orders.live) && levels.live == old(levels.live) && view == old(view) &&
              stats == old(stats) && Room() == old(Room())
    {
      hide Pool.Valid, OrderIndex.Valid, OrderIndex.Map, LevelMap.Valid, LevelMap.Contents;
      index.Insert(ref, oh);
    }

    /** The order joins the back of its level's queue and gets its entry in the index. */
    method Join(ref: OrderRef, oh: Handle, lh: Handle, ghost os: OrderSlots, ghost ls: LevelSlots, ghost b: LevelKeys,
        ghost a: LevelKeys, ghost v: Orders, ghost r: Rec)
      requires Parts() && |os| <= MAX_CAPACITY && Represents(os, ls, Names(), b, a, v)
      requires Settled(os, ls, Pick(b, a, r.side), orders.slots, levels.slots, Keys(r.side), r, oh, lh)
      requires Keys(r.side.Opposite()) == Pick(b, a, r.side.Opposite())
      requires r.ref == ref && ref !in Names() && r.qty > 0
      requires index.live * 2 < index.slots.Length
      modifies orders`slots, levels`slots, index, index.slots
      ensures Parts() && Shows(NaiveSpec.Add(v, r))
      ensures index.live == old(index.live) + 1 && orders.live == old(orders.live) && levels.live == old(levels.live)
      ensures view == old(view) && stats == old(stats) && Room() == old(Room())
    {
      hide Parts, Keys, Names, Represents, Room, Settled, Joined, Grown;
      ghost var os1, ls1, idx := orders.slots, levels.slots, Names();
      KeysPicked();
      SettledSays(os, ls, idx, b, a, v, os1, ls1, Keys(r.side), r, oh, lh);
      Enqueue(oh, lh);
      Name(ref, oh);
      KeysPicked();
      AdmitStep(os, ls, idx, b, a, v, os1, ls1, orders.slots, levels.slots, Keys(Buy), Keys(Sell), r, oh, lh);
    }

    /** Takes shares off an order and off its level. */
    method Diminish(oh: Handle, lh: Handle, shares: Qty)
      requires Parts() && LiveIn(orders.slots, oh) && LiveIn(levels.slots, lh)
      requires shares <= orders.slots[oh.index].data.qty && shares <= levels.slots[lh.index].data.totalQty
      modifies orders`slots, levels`slots
      ensures orders.slots == Resized(old(orders.slots), oh.index, old(orders.slots)[oh.index].data.qty - shares)
      ensures levels.slots == Lightened(old(levels.slots), lh.index, shares)
      ensures Parts() && Names() == old(Names()) && (forall s :: Keys(s) == old(Keys(s)))
      ensures index.live == old(index.live) && orders.live == old(orders.live) && levels.live == old(levels.live)
      ensures view == old(view) && stats == old(stats) && bests == old(bests)
      ensures Room() == old(Room())
    {
      hide Pool.Valid, OrderIndex.Valid, OrderIndex.Map, LevelMap.Valid, LevelMap.Contents;
      var o := orders.Deref(oh);
      orders.Put(oh, o.data.(qty := o.data.qty - shares), o.link);
      var lvl := levels.Deref(lh);
      levels.Put(lh, lvl.data.(totalQty := lvl.data.totalQty - shares), lvl.link);
    }

    method Unlink(oh: Handle, lh: Handle)
      requires Parts() && LiveIn(orders.slots, oh) && LiveIn(levels.slots, lh) &&
               levels.slots[lh.index].data.orderCount > 0
      requires var prev, next := orders.slots[oh.index].data.prev, orders.slots[oh.index].link;
               && (prev != NULL ==> LiveIn(orders.slots, prev)) && (next != NULL ==> LiveIn(orders.slots, next))
      modifies orders`slots, levels`slots
      ensures Parts() && Names() == old(Names()) && (forall s :: Keys(s) == old(Keys(s)))
      ensures index.live == old(index.live) && orders.live == old(orders.live) && levels.live == old(levels.live)
      ensures view == old(view) && stats == old(stats) && bests == old(bests)
      ensures orders.slots == Unlinked(old(orders.slots), oh.index)
      ensures var slot := old(levels.slots)[lh.index]; var o := old(orders.slots)[oh.index];
              levels.slots == old(levels.slots)[lh.index := slot.(data := Shed(slot.data, o.data.prev, o.link))]
      ensures Room() == old(Room())
    {
      hide Pool.Valid, OrderIndex.Valid, OrderIndex.Map, LevelMap.Valid, LevelMap.Contents;
      UnlinkFrom(orders, levels, oh, lh);
    }

    method Forget(ref: OrderRef)
      requires Parts() && ref in Names()
      modifies index, index.slots
      ensures Parts() && Names() == old(Names()) - {ref} && (forall s :: Keys(s) == old(Keys(s)))
      ensures index.live == old(index.live) - 1 && orders.live == old(orders.live) && levels.live == old(levels.live)
      ensures view == old(view) && stats == old(stats) && bests == old(bests)
      ensures orders.slots == old(orders.slots) && levels.slots == old(levels.slots)
      ensures Room() == old(Room())
    {
      hide Pool.Valid, OrderIndex.Valid, OrderIndex.Map, LevelMap.Valid, LevelMap.Contents;
      index.Erase(ref);
    }

    method DropLevel(side: Side, price: Price, lh: Handle)
      requires Parts() && price in Keys(side) && LiveIn(levels.slots, lh)
      modifies levels, ladders.At(side).Repr()
      ensures Parts() && Names() == old(Names())
      ensures Keys(side) == old(Keys(side)) - {price} && Keys(side.Opposite()) == old(Keys(side.Opposite()))
      ensures index.live == old(index.live) && orders.live == old(orders.live) && levels.live == old(levels.live) - 1
      ensures view == old(view) && stats == old(stats) && bests == old(bests)
      ensures orders.slots == old(orders.slots) && LevelsKept(old(levels.slots), levels.slots, lh.index)
      ensures Room() == old(Room()).Freed(0, 1)
    {
      hide Pool.Valid, OrderIndex.Valid, OrderIndex.Map, LevelMap.Valid, LevelMap.Contents;
      ladders.At(side).Erase(price);
      levels.Free(lh);
    }

    method FreeOrder(oh: Handle)
      requires Parts() && LiveIn(orders.slots, oh)
      modifies orders
      ensures Parts() && Names() == old(Names()) && (forall s :: Keys(s) == old(Keys(s)))
      ensures index.live == old(index.live) && orders.live == old(orders.live) - 1 && levels.live == old(levels.live)
      ensures view == old(view) && stats == old(stats) && bests == old(bests)
      ensures LiveKept(old(orders.slots), orders.slots, {oh.index}) && levels.slots == old(levels.slots)
      ensures Room() == old(Room()).Freed(1, 0)
    {
      hide Pool.Valid, OrderIndex.Valid, OrderIndex.Map, LevelMap.Valid, LevelMap.Contents;
      orders.Free(oh);
    }

    /** Frees an order record, and before it the level that it leaves empty. */
    method Release(side: Side, price: Price, oh: Handle, lh: Handle, cleared: bool)
      requires Parts() && LiveIn(orders.slots, oh)
      requires cleared ==> price in Keys(side) && LiveIn(levels.slots, lh)
      modifies orders, levels, ladders.At(side).Repr()
      ensures Parts() && Names() == old(Names())
      ensures Keys(side) == (if cleared then old(Keys(side)) - {price} else old(Keys(side)))
      ensures Keys(side.Opposite()) == old(Keys(side.Opposite()))
      ensures index.live == old(index.live) && orders.live == old(orders.live) - 1
      ensures levels.live == old(levels.live) - if cleared then 1 else 0
      ensures view == old(view) && stats == old(stats) && bests == old(bests)
      ensures LiveKept(old(orders.slots), orders.slots, {oh.index})
      ensures if cleared then LevelsKept(old(levels.slots), levels.slots, lh.index) else
                levels.slots == old(levels.slots)
      ensures Room() == old(Room()).Freed(1, if cleared then 1 else 0)
    {
      hide Parts, Keys, Names, Room, LiveKept, LevelsKept;
      if cleared {
        DropLevel(side, price, lh);
      }
      FreeOrder(oh);
    }

    // Adding

    /** The cached best after an add. */
    method NoteAdded(s: Side, price: Price)
      modifies this`bests
      ensures bests == old(bests).With(s, Noted(s, old(bests).At(s), price))
    {
      if bests.At(s) == NO_PRICE {
        bests := bests.With(s, price);
        return;
      }
      if s.Inside(price, bests.At(s)) {
        bests := bests.With(s, price);
      }
    }

    /** The cached best after a level has cleared: only a cleared top has it recomputed. */
    method NoteRemoved(s: Side, price: Price)
      requires ladders.At(s).Valid() && ladders.At(s).Side() == s && this !in ladders.At(s).Repr()
      modifies this`bests
      ensures bests == if price == old(bests).At(s)
                       then old(bests).With(s, Best(s, ladders.At(s).Contents().Keys))
                       else old(bests)
    {
      hide LevelMap.Valid, LevelMap.Contents;
      if price != bests.At(s) {
        return;
      }
      var ladder := ladders.At(s);
      if ladder.IsEmpty() {
        bests := bests.With(s, NO_PRICE);
      } else {
        var p := ladder.BestPrice();
        bests := bests.With(s, p);
      }
    }

    lemma NotListed(ref: OrderRef)
      requires Parts() && Shows(view)
      ensures ref in Names() <==> Has(view, ref)
    {
      hide LevelMap.Valid, LevelMap.Contents, Pool.Valid, OrderIndex.Valid, OrderIndex.Map, KeyOk, IsBook, Refs, Apart,
           Has;
      HasIffIn(view, ref);
    }

    lemma ListIsBook()
      requires Parts() && Shows(view)
      ensures IsBook(view)
    {
      hide Parts, Names, Keys;
      RepresentsParts(orders.slots, levels.slots, Names(), Keys(Buy), Keys(Sell), view);
    }

    /** What room for one more order comes to in the parts. */
    lemma RoomNow(side: Side, price: Price)
      requires Valid() && Room().Takes(view, side, price)
      ensures orders.stack != [] && index.live * 2 < index.slots.Length && !BehindZero(side, Prices(view, side), price)
      ensures price !in Keys(side) ==>
                levels.stack != [] && ladders.At(side).Shape().Takes(side, Keys(side).Keys, price)
      ensures price in Keys(side) ==> LiveIn(levels.slots, Keys(side)[price])
      ensures |orders.slots| <= MAX_CAPACITY
    {
      hide LevelMap.Valid, LevelMap.Contents, MapShape.Takes, Pool.Valid, OrderIndex.Valid, OrderIndex.Map,
           Represents, Prices, StatsOf, BestsOf, LevelsOf;
      KeysArePrices(view, side);
      orders.RoomSays();
      levels.RoomSays();
      if price in Keys(side) {
        KeyOf(orders.slots, levels.slots, Names(), Keys(Buy), Keys(Sell), view, side, price);
      }
    }

    method Add(ref: OrderRef, side: Side, price: Price, qty: Qty, owner: Owner)
      requires Valid()
      requires qty > 0 && !Has(view, ref) && Room().Takes(view, side, price)
      modifies Repr()
      ensures Valid()
      ensures view == NaiveSpec.Add(old(view), Rec(ref, side, price, qty, owner))
      ensures Room() == old(Room()).Added(old(view), side, price)
    {
      hide Parts, Shows, Has, Prices, Room, BookRoom.Takes, BookRoom.Added, TotalQty, Best, MoreLevels;
      ghost var r := Rec(ref, side, price, qty, owner);
      ListIsBook();
      RoomNow(side, price);
      StatsAfterAdd(view, r);
      Admit(ref, side, price, qty, owner);
      CountAdded(side, price, qty, r);
    }

    /** The counting half of Add. */
    method CountAdded(side: Side, price: Price, qty: Qty, ghost r: Rec)
      requires Parts() && !BehindZero(side, Prices(view, side), price) && Shows(NaiveSpec.Add(view, r)) &&
               r.side == side && r.price == price && r.qty == qty
      requires index.live == orders.live == |view| + 1 && levels.live == LevelsOf(NaiveSpec.Add(view, r))
      requires stats == MoreLevels(StatsOf(view), side, if price in Prices(view, side) then 0 else 1) &&
               bests == BestsOf(view)
      modifies this`stats, this`bests, this`view
      ensures Valid() && view == NaiveSpec.Add(old(view), r)
      ensures Room() == old(Room())
    {
      hide LevelMap.Valid, LevelMap.Contents, Pool.Valid, OrderIndex.Valid, OrderIndex.Map, Represents, Prices,
           TotalQty, Best;
      StatsAfterAdd(view, r);
      BestsAfterAdd(view, r);
      stats := stats.(totalQty := stats.totalQty.With(side, stats.totalQty.At(side) + qty),
          orderCount := stats.orderCount + 1);
      NoteAdded(side, price);
      view := NaiveSpec.Add(view, r);
    }

    /** The structural half of Add. */
    method Admit(ref: OrderRef, side: Side, price: Price, qty: Qty, owner: Owner)
      requires Valid()
      requires qty > 0 && !Has(view, ref) && Room().Takes(view, side, price)
      modifies Repr() - {this}, this`stats
      ensures Parts() && Shows(NaiveSpec.Add(old(view), Rec(ref, side, price, qty, owner)))
      ensures index.live == old(index.live) + 1 && orders.live == old(orders.live) + 1 && view == old(view)
      ensures var one := if price in Prices(old(view), side) then 0 else 1;
              && levels.live == old(levels.live) + one
              && stats == MoreLevels(old(stats), side, one)
      ensures Room() == old(Room()).Added(old(view), side, price)
    {
      hide Parts, Keys, Names, Represents, Has, Prices, Room, BookRoom.Takes, BookRoom.OrderTaken,
           BookRoom.LevelMade, Counts, Settled, Joined, Grown, Blank, MoreLevels;
      NotListed(ref);
      KeysArePrices(view, side);
      RoomNow(side, price);
      KeysPicked();
      ghost var os, ls, idx, b, a, v := orders.slots, levels.slots, Names(), Keys(Buy), Keys(Sell), view;
      ghost var r := Rec(ref, side, price, qty, owner);
      var oh, lh := Settle(ref, side, price, qty, owner);
      Join(ref, oh, lh, os, ls, b, a, v, r);
    }

    /**
     Queue and free list share one link field, so they must not share a slot: the slot of a listed order is live, is on
     neither the free list nor the quarantine, and its level record is the one the map holds at its price.
     */
    lemma ListedNotFree(ref: OrderRef)
      requires Valid() && Has(view, ref)
      ensures ref in Names()
      ensures var r, h := Get(view, ref), Names()[ref];
              && Stores(h, r) && h.index !in orders.stack && h.index !in orders.quarantine
              && r.price in Keys(r.side) && orders.slots[h.index].data.level == Keys(r.side)[r.price]
    {
      hide Keys, Names, Represents, Has, IndexOf, Ahead, Behind, Counts, LevelMap.Valid, OrderIndex.Valid,
           Pools.IsFreeList, Pools.IsPartition, CountsAllocations, InUseCount, Latest;
      ghost var lh := FoundHere(ref);
      LiveNotListed(orders.slots, orders.stack, orders.quarantine, orders.served, orders.place, Names()[ref].index);
    }

    // Reducing

    /** The body of cancel, execute and remove: takes shares off the order at oh, which leaves if nothing remains. */
    method ReduceAt(oh: Handle, shares: Qty, ghost ref: OrderRef)
      requires Valid() && Has(view, ref)
      requires ref in Names() && oh == Names()[ref] && shares <= Get(view, ref).qty
      modifies Repr()
      ensures Valid()
      ensures view == Reduce(old(view), ref, shares)
      ensures Room() == old(Room()).Shrunk(old(view), view)
    {
      hide Valid, Has, IndexOf, Reduce, LevelsOf, Room, BookRoom.Freed;
      ghost var a, b := Withdraw(oh, shares, ref);
    }

    method Withdraw(oh: Handle, shares: Qty, ghost ref: OrderRef) returns (ghost gone: nat, ghost closed: nat)
      requires Valid() && Has(view, ref)
      requires ref in Names() && oh == Names()[ref] && shares <= Get(view, ref).qty
      modifies Repr()
      ensures Valid()
      ensures view == Reduce(old(view), ref, shares)
      ensures |view| + gone == old(|view|) && LevelsOf(view) + closed == old(LevelsOf(view))
      ensures Room() == old(Room()).Freed(gone, closed)
    {
      hide Parts, Keys, Names, Represents, Has, IndexOf, Reduce, Prices, StatsOf, BestsOf, LevelsOf, Clears, Room;
      ghost var lh := FoundHere(ref);
      ghost var os, ls, idx, b, a, v := orders.slots, levels.slots, Names(), Keys(Buy), Keys(Sell), view;
      ListIsBook();
      StatsAfterReduce(v, ref, shares);
      var o := orders.Deref(oh).data;
      Diminish(oh, o.level, shares);
      if o.qty - shares != 0 {
        DwindleStep(os, ls, idx, b, a, v, ref, oh, o.level, shares);
        CountReduced(o.side, o.price, shares, false, false, ref);
        gone, closed := 0, 0;
      } else {
        var cleared := Leave(oh, o.level, ref, os, ls);
        CountReduced(o.side, o.price, shares, true, cleared, ref);
        gone, closed := 1, if cleared then 1 else 0;
      }
    }

    lemma FoundHere(ref: OrderRef) returns (lh: Handle)
      requires Valid() && Has(view, ref)
      ensures ref in Names() && Found(orders.slots, levels.slots, Names(), Keys(Buy), Keys(Sell), view, ref,
              Names()[ref], lh)
      ensures Standing(orders.slots, levels.slots, view, ref, Names()[ref], lh)
    {
      hide Keys, Names, Represents, Has, IndexOf, Standing, Found, LevelMap.Valid, Pool.Valid, OrderIndex.Valid;
      orders.RoomSays();
      FoundSays(orders.slots, levels.slots, Names(), Keys(Buy), Keys(Sell), view, ref);
      lh := Pick(Keys(Buy), Keys(Sell), Get(view, ref).side)[Get(view, ref).price];
    }

    /** Unlinks and frees an order with nothing left, and its level if that is now empty. */
    method Leave(oh: Handle, lh: Handle, ghost ref: OrderRef, ghost os: OrderSlots,
        ghost ls: LevelSlots) returns (cleared: bool)
      requires Parts() && Has(view, ref)
      requires Found(os, ls, Names(), Keys(Buy), Keys(Sell), view, ref, oh, lh) && Standing(os, ls, view, ref, oh, lh)
      requires orders.slots == Resized(os, oh.index, 0) && levels.slots == Lightened(ls, lh.index, Get(view, ref).qty)
      modifies Repr() - {this}
      ensures Parts() && Shows(NaiveSpec.Remove(view, ref))
      ensures view == old(view) && stats == old(stats) && bests == old(bests)
      ensures cleared == Clears(view, ref, Get(view, ref).qty)
      ensures index.live == old(index.live) - 1 && orders.live == old(orders.live) - 1
      ensures levels.live == old(levels.live) - if cleared then 1 else 0
      ensures Room() == old(Room()).Freed(1, if cleared then 1 else 0)
    {
      hide Parts, Keys, Names, Represents, Has, IndexOf, Reduce, Prices, StatsOf, BestsOf, LevelsOf, Ahead, Behind,
           Room, BookRoom.Freed;
      ghost var idx, b, a, v := Names(), Keys(Buy), Keys(Sell), view;
      var o := orders.Deref(oh);
      Unlink(oh, lh);
      Forget(o.data.ref);
      var lvl := levels.Deref(lh).data;
      cleared := lvl.orderCount == 0;
      assert cleared ==> lvl.totalQty == 0 && lvl.head.IsNull() && lvl.tail.IsNull();
      Release(o.data.side, o.data.price, oh, lh, cleared);
      if cleared {
        CloseStep(os, ls, idx, b, a, v, ref, oh, lh, orders.slots, levels.slots, Keys(Buy), Keys(Sell));
      } else {
        DepartStep(os, ls, idx, b, a, v, ref, oh, lh, orders.slots, levels.slots);
      }
    }

    /** The counting half of a reduction. */
    method CountReduced(side: Side, price: Price, shares: Qty, gone: bool, cleared: bool, ghost ref: OrderRef)
      requires Parts() && IsBook(view) && Has(view, ref) && shares <= Get(view, ref).qty
      requires Get(view, ref).side == side && Get(view, ref).price == price
      requires gone == (shares == Get(view, ref).qty) && cleared == Clears(view, ref, shares)
      requires Shows(Reduce(view, ref, shares)) && stats == StatsOf(view) && bests == BestsOf(view)
      requires var v' := Reduce(view, ref, shares); index.live == orders.live == |v'| && levels.live == LevelsOf(v')
      modifies this`stats, this`bests, this`view
      ensures Valid() && view == Reduce(old(view), ref, shares)
      ensures Room() == old(Room())
    {
      hide LevelMap.Valid, LevelMap.Contents, Pool.Valid, OrderIndex.Valid, OrderIndex.Map, Represents, Prices, Best,
           Has, IndexOf, Reduce, IsBook, StatsOf, BestsOf, LevelsOf, Lessened, Clears;
      StatsAfterReduce(view, ref, shares);
      BestsAfterReduce(view, ref, shares);
      KeysArePrices(Reduce(view, ref, shares), side);
      stats := Lessened(stats, side, shares, gone, cleared);
      if cleared {
        NoteRemoved(side, price);
      }
      view := Reduce(view, ref, shares);
    }

    /** The live record at oh carries order r. */
    ghost predicate Stores(oh: Handle, r: Rec)
      reads orders
    {
      LiveIn(orders.slots, oh) &&
      var o := orders.slots[oh.index].data;
      o == OrderData(r.ref, r.qty, r.price, o.prev, o.level, r.side, r.owner)
    }

    method Require(ref: OrderRef) returns (oh: Handle)
      requires Valid() && Has(view, ref)
      ensures Valid() && ref in Names() && oh == Names()[ref] && Stores(oh, Get(view, ref))
    {
      hide Represents, Has, IndexOf, Ahead, Behind, Found, StatsOf, BestsOf, LevelsOf, LevelMap.Valid,
           LevelMap.Contents, Pool.Valid, OrderIndex.Valid, OrderIndex.Map;
      ghost var lh := FoundHere(ref);
      oh := index.Find(ref);
    }

    method Cancel(ref: OrderRef, shares: Qty)
      requires Valid()
      requires Has(view, ref) && shares <= Get(view, ref).qty
      modifies Repr()
      ensures Valid()
      ensures view == Reduce(old(view), ref, shares)
      ensures Room() == old(Room()).Shrunk(old(view), view)
    {
      hide Valid, Reduce, Has, IndexOf, Room, BookRoom.Shrunk;
      var oh := Require(ref);
      ReduceAt(oh, shares, ref);
    }

    method Execute(ref: OrderRef, shares: Qty) returns (done: Qty)
      requires Valid()
      requires Has(view, ref) && shares <= Get(view, ref).qty
      modifies Repr()
      ensures Valid()
      ensures view == Reduce(old(view), ref, shares) && done == shares
      ensures Room() == old(Room()).Shrunk(old(view), view)
    {
      hide Valid, Reduce, Has, IndexOf, Room, BookRoom.Shrunk;
      var oh := Require(ref);
      ReduceAt(oh, shares, ref);
      done := shares;
    }

    method Remove(ref: OrderRef)
      requires Valid()
      requires Has(view, ref)
      modifies Repr()
      ensures Valid()
      ensures view == NaiveSpec.Remove(old(view), ref)
      ensures Room() == old(Room()).Shrunk(old(view), view)
    {
      hide Valid, Reduce, Has, IndexOf, Room, BookRoom.Shrunk;
      var oh := Require(ref);
      ReduceAt(oh, orders.Deref(oh).data.qty, ref);
    }

    /** The replacement is a new order at the back of its queue. */
    method Replace(oldRef: OrderRef, newRef: OrderRef, price: Price, qty: Qty)
      requires Valid()
      requires Has(view, oldRef) && qty > 0 && !Has(NaiveSpec.Remove(view, oldRef), newRef)
      requires var w := NaiveSpec.Remove(view, oldRef); Room().Shrunk(view, w).Takes(w, Get(view, oldRef).side, price)
      modifies Repr()
      ensures Valid()
      ensures view == NaiveSpec.Replace(old(view), oldRef, newRef, price, qty)
      ensures var v := old(view); var w := NaiveSpec.Remove(v, oldRef);
              Room() == old(Room()).Shrunk(v, w).Added(w, Get(v, oldRef).side, price)
    {
      hide Valid, Reduce, Has, IndexOf, Room, BookRoom.Shrunk, BookRoom.Takes, BookRoom.Added;
      var oh := Require(oldRef);
      var o := orders.Deref(oh).data;
      ReduceAt(oh, o.qty, oldRef);
      Add(newRef, o.side, price, qty, o.owner);
    }

    // Queries

    predicate Empty(s: Side)
      requires Valid()
      reads Repr()
    {
      ladders.At(s).IsEmpty()
    }

    function BestOf(s: Side): Price
      reads this`bests
    {
      bests.At(s)
    }

    predicate IsCrossed()
      requires Valid()
      reads Repr()
    {
      !Empty(Buy) && !Empty(Sell) && BestOf(Buy) >= BestOf(Sell)
    }

    function OrderCount(): nat
      reads index
    {
      index.live
    }

    /** Every cheap answer is the recomputed one. */
    lemma QueriesAgree(s: Side)
      requires Valid()
      ensures Empty(s) <==> Prices(view, s) == {}
      ensures BestOf(s) == Best(s, Prices(view, s))
      ensures IsCrossed() <==>
                exists b, a :: b in view && a in view && b.side == Buy && a.side == Sell && b.price >= a.price
      ensures OrderCount() == |view| && stats == StatsOf(view)
    {
      hide Represents, Prices, Best, StatsOf, LevelsOf, LevelMap.Valid, LevelMap.Contents, LevelMap.IsEmpty,
           Pool.Valid, OrderIndex.Valid, OrderIndex.Map;
      KeysArePrices(view, Buy);
      KeysArePrices(view, Sell);
      CrossedExactly(view);
    }

    lemma LevelHere(s: Side, p: Price)
      requires Valid()
      ensures p in Keys(s) <==> Queue(view, s, p) != []
      ensures p in Keys(s) ==>
                var q, lh := Queue(view, s, p), Keys(s)[p];
                && LiveIn(levels.slots, lh)
                && var d := levels.slots[lh.index].data;
                   && d.totalQty == Qtys(q) && d.orderCount == |q|
                   && d.head != NULL && LiveIn(orders.slots, d.head) && orders.slots[d.head.index].data.ref == q[0].ref
                   && Queued(orders.slots, Names(), q, lh) && d.head == Names()[q[0].ref] &&
                   |orders.slots| <= MAX_CAPACITY
    {
      hide Represents, Queue, Prices, Qtys, Queued, StatsOf, BestsOf, LevelsOf, LevelMap.Valid, LevelMap.Contents,
           Pool.Valid, OrderIndex.Valid, OrderIndex.Map;
      orders.RoomSays();
      KeyOf(orders.slots, levels.slots, Names(), Keys(Buy), Keys(Sell), view, s, p);
      if p in Keys(s) {
        LevelSays(orders.slots, levels.slots, Names(), Keys(Buy), Keys(Sell), view, s, p, Keys(s)[p]);
      }
    }

    method QtyAt(s: Side, p: Price) returns (qty: nat)
      requires Valid()
      ensures qty == Qtys(Queue(view, s, p))
    {
      hide Shows, Counts, Queue, Qtys, Queued, LevelMap.Valid, LevelMap.Contents, Pool.Valid, OrderIndex.Valid,
           OrderIndex.Map;
      LevelHere(s, p);
      NoQtys([]);
      var lh := ladders.At(s).Find(p);
      qty := if lh.IsNull() then 0 else levels.Deref(lh).data.totalQty;
    }

    method OrdersAt(s: Side, p: Price) returns (n: nat)
      requires Valid()
      ensures n == |Queue(view, s, p)|
    {
      hide Shows, Counts, Queue, Qtys, Queued, LevelMap.Valid, LevelMap.Contents, Pool.Valid, OrderIndex.Valid,
           OrderIndex.Map;
      LevelHere(s, p);
      var lh := ladders.At(s).Find(p);
      n := if lh.IsNull() then 0 else levels.Deref(lh).data.orderCount;
    }

    /** The order with time priority at a price; 0 stands for "none". */
    method FrontAt(s: Side, p: Price) returns (ref: OrderRef)
      requires Valid()
      ensures var q := Queue(view, s, p); ref == if q == [] then 0 else q[0].ref
    {
      hide Shows, Counts, Queue, Qtys, Queued, LevelMap.Valid, LevelMap.Contents, Pool.Valid, OrderIndex.Valid,
           OrderIndex.Map;
      LevelHere(s, p);
      var lh := ladders.At(s).Find(p);
      if lh.IsNull() {
        return 0;
      }
      var oh := levels.Deref(lh).data.head;
      ref := 0;
      if !oh.IsNull() {
        ref := orders.Deref(oh).data.ref;
      }
    }

    method Contains(ref: OrderRef) returns (found: bool)
      requires Valid()
      ensures found <==> Has(view, ref)
    {
      hide Shows, Counts, Has, LevelMap.Valid, LevelMap.Contents, Pool.Valid, OrderIndex.Valid, OrderIndex.Map;
      NotListed(ref);
      var oh := index.Find(ref);
      found := !oh.IsNull();
    }

    method Lookup(ref: OrderRef) returns (r: Rec)
      requires Valid() && Has(view, ref)
      ensures r == Get(view, ref)
    {
      hide Valid, Has, IndexOf;
      var oh := Require(ref);
      var o := orders.Deref(oh).data;
      r := Rec(o.ref, o.side, o.price, o.qty, o.owner);
    }

    // Traversal

    /** Levels from the inside outwards, each with its queue in priority order. */
    method ForEachLevel(s: Side) returns (out: seq<Level>)
      requires Valid()
      ensures out == Levels(view, s)
    {
      hide Represents, Counts, Sorted, Prices, Queue, Labelled, Shown, LevelMap.Valid, LevelMap.Contents, Pool.Valid,
           OrderIndex.Valid, OrderIndex.Map;
      ghost var idx, m := Names(), Keys(s);
      KeysArePrices(view, s);
      LevelsShown(s);
      var pairs := ladders.At(s).ForEachLevel();
      out := Gather(orders, levels, pairs, idx, view, s, Sorted(s, Prices(view, s)), m);
    }

    lemma LevelsShown(s: Side)
      requires Valid()
      ensures |orders.slots| <= MAX_CAPACITY
      ensures forall p :: p in Keys(s) ==> Shown(orders.slots, levels.slots, Names(), Queue(view, s, p), Keys(s)[p])
    {
      hide Valid, Keys, Names, Queue, Qtys, Queued;
      SmallPools();
      forall p | p in Keys(s) ensures Shown(orders.slots, levels.slots, Names(), Queue(view, s, p), Keys(s)[p]) {
        LevelHere(s, p);
      }
    }

    lemma SmallPools()
      requires Valid()
      ensures Parts() && |orders.slots| <= MAX_CAPACITY
    {
      hide Pool.Valid, OrderIndex.Valid, LevelMap.Valid, Shows, Counts;
      orders.RoomSays();
    }

    /** The first levels of a side; all of them when depth is 0. */
    method Snapshot(s: Side, depth: nat) returns (out: seq<Level>)
      requires Valid()
      ensures var all := Levels(view, s); out == if depth == 0 || |all| <= depth then all else all[..depth]
    {
      hide Valid, Levels;
      var all := ForEachLevel(s);
      out := [];
      for i := 0 to |all|
        invariant out == if depth == 0 || i <= depth then all[..i] else all[..depth]
      {
        if depth == 0 || |out| < depth {
          out := out + [all[i]];
        }
      }
    }

    lemma KeysPicked()
      ensures forall s :: Pick(Keys(Buy), Keys(Sell), s) == Keys(s)
    {
    }
  }

  method BlankLevel(levels: Pool<LevelData>, price: Price) returns (lh: Handle)
    requires levels.Valid() && levels.stack != []
    modifies levels
    ensures levels.Valid() && levels.live == old(levels.live) + 1 && lh != NULL
    ensures lh.index < |old(levels.slots)| && !old(levels.slots)[lh.index].Live()
    ensures LiveIn(levels.slots, lh) && LevelsKept(old(levels.slots), levels.slots, lh.index)
    ensures levels.slots[lh.index].data == NewLevel(price) && levels.Room() == old(levels.Room()).Taken()
  {
    hide Pool.Valid;
    lh := levels.Allocate();
    levels.Put(lh, NewLevel(price), levels.Deref(lh).link);
  }

  /** The references of one queue, following the forward links from its head. */
  method Walk(orders: Pool<OrderData>, h: Handle, ghost idx: Index, ghost q: Orders,
      ghost lh: Handle) returns (refs: seq<OrderRef>)
    requires q != [] && Queued(orders.slots, idx, q, lh) && h == idx[q[0].ref] && |orders.slots| <= MAX_CAPACITY
    ensures refs == RefList(q)
  {
    var at := h;
    refs := [];
    ghost var i: nat := 0;
    while !at.IsNull()
      invariant i <= |q| && refs == RefList(q[..i])
      invariant at == if i == |q| then NULL else idx[q[i].ref]
      decreases |q| - i
    {
      assert Linked(orders.slots, idx, q, i, lh);
      var o := orders.Deref(at);
      refs := refs + [o.data.ref];
      at := o.link;
      i := i + 1;
    }
    assert i < |q| ==> Linked(orders.slots, idx, q, i, lh);
    assert q[..|q|] == q;
  }

  /** The level record at lh heads the queue q. */
  ghost predicate Shown(os: OrderSlots, ls: LevelSlots, idx: Index, q: Orders, lh: Handle) {
    && q != [] && Queued(os, idx, q, lh) && LiveIn(ls, lh)
    && var d := ls[lh.index].data; d.totalQty == Qtys(q) && d.orderCount == |q| && d.head == idx[q[0].ref]
  }

  /** What for_each_level hands out for these levels, one after another. */
  method Gather(orders: Pool<OrderData>, levels: Pool<LevelData>, pairs: seq<(Price, Handle)>, ghost idx: Index,
      ghost v: Orders,
                ghost s: Side, ghost ps: seq<Price>, ghost m: LevelKeys) returns (out: seq<Level>)
    requires Labelled(pairs, ps, m) && |orders.slots| <= MAX_CAPACITY
    requires forall p :: p in m ==> Shown(orders.slots, levels.slots, idx, Queue(v, s, p), m[p])
    ensures out == LevelsAt(v, s, ps)
  {
    hide Queue, Queued, Qtys;
    out := [];
    for i := 0 to |pairs|
      invariant out == LevelsAt(v, s, ps[..i])
    {
      var (p, lh) := pairs[i];
      assert Shown(orders.slots, levels.slots, idx, Queue(v, s, p), lh);
      var d := levels.Deref(lh).data;
      var refs := Walk(orders, d.head, idx, Queue(v, s, p), lh);
      out := out + [Level(p, d.totalQty, d.orderCount, refs)];
    }
    assert ps[..|ps|] == ps;
  }

  /** Hangs a blank record at the back of a level's queue. */
  method PushBack(orders: Pool<OrderData>, levels: Pool<LevelData>, oh: Handle, lh: Handle)
    requires orders.Valid() && levels.Valid() && (orders as object) != levels
    requires LiveIn(orders.slots, oh) && LiveIn(levels.slots, lh)
    requires orders.slots[oh.index].link == NULL && orders.slots[oh.index].data.prev == NULL
    requires var d := levels.slots[lh.index].data;
             && (d.tail == NULL ==> d.head == NULL)
             && (d.tail != NULL ==> LiveIn(orders.slots, d.tail) && d.tail.index != oh.index)
    modifies orders`slots, levels`slots
    ensures orders.Valid() && levels.Valid()
    ensures orders.slots == Joined(old(orders.slots), oh, lh, old(levels.slots)[lh.index].data.tail)
    ensures var slot := old(levels.slots)[lh.index];
            var qty := old(orders.slots)[oh.index].data.qty;
            levels.slots == old(levels.slots)[lh.index := slot.(data := Grown(slot.data, oh, qty))]
  {
    hide Pool.Valid;
    var lvl := levels.Deref(lh);
    var o := orders.Deref(oh);
    var head := lvl.data.head;
    if lvl.data.tail.IsNull() {
      assert head.IsNull();
      head := oh;
    } else {
      var last := orders.Deref(lvl.data.tail);
      orders.Put(lvl.data.tail, last.data, oh);
    }
    orders.Put(oh, o.data.(level := lh, prev := lvl.data.tail), o.link);
    levels.Put(lh, LevelData(lvl.data.totalQty + o.data.qty, head, oh, lvl.data.price, lvl.data.orderCount + 1),
        lvl.link);
  }

  /** Takes the record at oh out of the queue of lh. */
  method UnlinkFrom(orders: Pool<OrderData>, levels: Pool<LevelData>, oh: Handle, lh: Handle)
    requires orders.Valid() && levels.Valid() && (orders as object) != levels
    requires LiveIn(orders.slots, oh) && LiveIn(levels.slots, lh) && levels.slots[lh.index].data.orderCount > 0
    requires var prev, next := orders.slots[oh.index].data.prev, orders.slots[oh.index].link;
             && (prev != NULL ==> LiveIn(orders.slots, prev)) && (next != NULL ==> LiveIn(orders.slots, next))
    modifies orders`slots, levels`slots
    ensures orders.Valid() && levels.Valid()
    ensures orders.slots == Unlinked(old(orders.slots), oh.index)
    ensures var slot := old(levels.slots)[lh.index]; var o := old(orders.slots)[oh.index];
            levels.slots == old(levels.slots)[lh.index := slot.(data := Shed(slot.data, o.data.prev, o.link))]
  {
    hide Pool.Valid;
    var lvl := levels.Deref(lh);
    var o := orders.Deref(oh);
    var head, tail := lvl.data.head, lvl.data.tail;
    if o.data.prev.IsNull() {
      head := o.link;
    } else {
      var before := orders.Deref(o.data.prev);
      orders.Put(o.data.prev, before.data, o.link);
    }
    if o.link.IsNull() {
      tail := o.data.prev;
    } else {
      var after := orders.Deref(o.link);
      orders.Put(o.link, after.data.(prev := o.data.prev), after.link);
    }
    levels.Put(lh, LevelData(lvl.data.totalQty, head, tail, lvl.data.price, lvl.data.orderCount - 1), lvl.link);
  }

  method NewBook(orderCapacity: nat, levelCapacity: nat, indexCapacity: u32, quarantine: nat, hash: OrderRef -> nat,
      ladder: bool)
    returns (b: Book)
    requires 0 < orderCapacity <= MAX_CAPACITY && 0 < levelCapacity <= MAX_CAPACITY && Sizeable(indexCapacity)
    ensures b.Valid() && b.view == [] && fresh(b.Repr())
    ensures b.orders.capacity == orderCapacity && b.levels.capacity == levelCapacity
    ensures b.orders.quarantineLimit == b.levels.quarantineLimit == quarantine
    ensures b.ladders.buy.OfLadder? == b.ladders.sell.OfLadder? == ladder
    ensures b.Room() == NewRoom(orderCapacity, levelCapacity, indexCapacity, quarantine, ladder)
  {
    hide Pool.Valid, OrderIndex.Valid, OrderIndex.Map, LevelMap.Valid, LevelMap.Contents, Book.Valid;
    var orders := new Pool(orderCapacity, quarantine, OrderData(0, 0, 0, NULL, NULL, Buy, 0));
    var levels := new Pool(levelCapacity, quarantine, NewLevel(NO_PRICE));
    var index := new OrderIndex(hash, indexCapacity);
    var ladders := NewMaps(ladder);
    b := new Book(orders, levels, index, ladders);
  }

  /** The room of a book just made. */
  function NewRoom(orders: nat, levels: nat, index: u32, quarantine: nat, ladder: bool): BookRoom {
    var shape := if ladder then Anchored(0) else Tree;
    Sized(Spare(orders, 0, quarantine), Spare(levels, 0, quarantine), IndexSize(index), PerSide(shape, shape))
  }

  method NewMaps(ladder: bool) returns (m: PerSide<LevelMap>)
    ensures m.buy.Valid() && m.buy.Contents() == map[] && m.buy.Side() == Buy && m.buy.OfLadder? == ladder
    ensures m.buy.Shape() == m.sell.Shape() == if ladder then Anchored(0) else Tree
    ensures m.sell.Valid() && m.sell.Contents() == map[] && m.sell.Side() == Sell && m.sell.OfLadder? == ladder
    ensures fresh(m.buy.Repr()) && fresh(m.sell.Repr()) && m.buy.Repr() !! m.sell.Repr()
  {
    hide LevelMap.Valid, LevelMap.Contents;
    var buy := NewMap(Buy, ladder);
    var sell := NewMap(Sell, ladder);
    m := PerSide(buy, sell);
  }

  method NewMap(side: Side, ladder: bool) returns (m: LevelMap)
    ensures m.Valid() && m.Contents() == map[] && m.Side() == side && fresh(m.Repr()) && m.OfLadder? == ladder
    ensures m.Shape() == if ladder then Anchored(0) else Tree
  {
    hide PriceLadder.Valid, AvlLevelMap.Valid;
    if ladder {
      var l := new PriceLadder(side);
      m := OfLadder(l);
    } else {
      var a := new AvlLevelMap(side);
      m := OfAvl(a);
    }
  }
}
