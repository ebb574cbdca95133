/** Whole runs of book operations on any book, with the room they need and leave followed from step to step. */
module BookRuns {
  import opened Core
  import opened NaiveSpec
  import opened PriceSets
  import opened BookCounts
  import opened BookRooms
  import opened Pools
  import opened LevelMaps
  import opened Books
  import opened AnyBooks
  import opened OrderIndexes
  import opened BookInvariant
  import LadderSpec

  datatype Op =
    | AddOp(ref: OrderRef, side: Side, price: Price, qty: Qty, owner: Owner)
    | CancelOp(ref: OrderRef, shares: Qty)
    | ExecuteOp(ref: OrderRef, shares: Qty)
    | RemoveOp(ref: OrderRef)
    | ReplaceOp(oldRef: OrderRef, newRef: OrderRef, price: Price, qty: Qty)

  /** What every implementation asserts of its callers. */
  predicate Legal(v: Orders, op: Op) {
    match op
    case AddOp(ref, _, price, qty, _) => qty > 0 && !Has(v, ref)
    case CancelOp(ref, shares) => Has(v, ref) && shares <= Get(v, ref).qty
    case ExecuteOp(ref, shares) => Has(v, ref) && shares <= Get(v, ref).qty
    case RemoveOp(ref) => Has(v, ref)
    case ReplaceOp(oldRef, newRef, price, qty) =>
      Has(v, oldRef) && qty > 0 && !Has(Remove(v, oldRef), newRef)
  }

  function Apply(v: Orders, op: Op): Orders
    requires Legal(v, op)
  {
    match op
    case AddOp(ref, side, price, qty, owner) => Add(v, Rec(ref, side, price, qty, owner))
    case CancelOp(ref, shares) => Reduce(v, ref, shares)
    case ExecuteOp(ref, shares) => Reduce(v, ref, shares)
    case RemoveOp(ref) => Remove(v, ref)
    case ReplaceOp(oldRef, newRef, price, qty) => Replace(v, oldRef, newRef, price, qty)
  }

  /** The room an operation needs. Only an order that is new to its queue needs any. */
  ghost predicate OpFits(room: BookRoom, v: Orders, op: Op)
    requires Legal(v, op)
  {
    match op
    case AddOp(_, side, price, _, _) => room.Takes(v, side, price)
    case ReplaceOp(oldRef, _, price, _) =>
      var w := Remove(v, oldRef);
      room.Shrunk(v, w).Takes(w, Get(v, oldRef).side, price)
    case _ => true
  }

  /** The room it leaves. */
  ghost function RoomAfter(room: BookRoom, v: Orders, op: Op): BookRoom
    requires Legal(v, op)
  {
    match op
    case AddOp(_, side, price, _, _) => room.Added(v, side, price)
    case ReplaceOp(oldRef, _, price, _) =>
      var w := Remove(v, oldRef);
      room.Shrunk(v, w).Added(w, Get(v, oldRef).side, price)
    case _ => room.Shrunk(v, Apply(v, op))
  }

  /** Legal operations for which there is room, each where the ones before it leave the list and the room. */
  ghost predicate RunFits(room: BookRoom, v: Orders, ops: seq<Op>)
    decreases |ops|
  {
    ops != [] ==>
      Legal(v, ops[0]) && OpFits(room, v, ops[0]) && RunFits(RoomAfter(room, v, ops[0]), Apply(v, ops[0]), ops[1..])
  }

  ghost function RoomOf(room: BookRoom, v: Orders, ops: seq<Op>): BookRoom
    requires RunLegal(v, ops)
    decreases |ops|
  {
    if ops == [] then room else RoomOf(RoomAfter(room, v, ops[0]), Apply(v, ops[0]), ops[1..])
  }

  ghost predicate RunLegal(v: Orders, ops: seq<Op>)
    decreases |ops|
  {
    ops != [] ==> Legal(v, ops[0]) && RunLegal(Apply(v, ops[0]), ops[1..])
  }

  function RunOf(v: Orders, ops: seq<Op>): Orders
    requires RunLegal(v, ops)
    decreases |ops|
  {
    if ops == [] then v else RunOf(Apply(v, ops[0]), ops[1..])
  }

  lemma ApplyIsBook(v: Orders, op: Op)
    requires IsBook(v) && Legal(v, op)
    ensures IsBook(Apply(v, op))
  {
    hide IsBook, Has, IndexOf, Reduce, Refs;
    match op
    case AddOp(ref, side, price, qty, owner) => AddIsBook(v, Rec(ref, side, price, qty, owner));
    case CancelOp(ref, shares) => ReduceIsBook(v, ref, shares);
    case ExecuteOp(ref, shares) => ReduceIsBook(v, ref, shares);
    case RemoveOp(ref) => ReduceIsBook(v, ref, Get(v, ref).qty);
    case ReplaceOp(oldRef, newRef, price, qty) =>
      ReduceIsBook(v, oldRef, Get(v, oldRef).qty);
      AddIsBook(Remove(v, oldRef), Rec(newRef, Get(v, oldRef).side, price, qty, Get(v, oldRef).owner));
  }

  // Runs

  method Do(b: AnyBook, op: Op)
    requires b.Valid() && Legal(b.View(), op) && OpFits(b.Room(), b.View(), op)
    modifies b.Repr()
    ensures b.Valid() && b.View() == Apply(old(b.View()), op) && b.Room() == RoomAfter(old(b.Room()), old(b.View()), op)
  {
    hide AnyBook.Valid, AnyBook.Room, BookRoom.Takes, BookRoom.Added, BookRoom.Shrunk, Has, IndexOf, Reduce;
    match op {
      case AddOp(ref, side, price, qty, owner) =>
        b.Add(ref, side, price, qty, owner);
      case CancelOp(ref, shares) =>
        b.Cancel(ref, shares);
      case ExecuteOp(ref, shares) =>
        var done := b.Execute(ref, shares);
      case RemoveOp(ref) =>
        b.Remove(ref);
      case ReplaceOp(oldRef, newRef, price, qty) =>
        b.Replace(oldRef, newRef, price, qty);
    }
  }

  lemma {:induction false} FitsIsLegal(room: BookRoom, v: Orders, ops: seq<Op>)
    requires RunFits(room, v, ops)
    ensures RunLegal(v, ops)
    decreases |ops|
  {
    hide Legal, Apply, OpFits, RoomAfter;
    if ops != [] {
      FitsIsLegal(RoomAfter(room, v, ops[0]), Apply(v, ops[0]), ops[1..]);
    }
  }

  /**
   Any legal run that the book has room for leaves any book standing for the list that the run leaves, and with the
   room that the run leaves: what the book can take next is known from the run alone.
   */
  method Perform(b: AnyBook, ops: seq<Op>)
    requires b.Valid() && RunFits(b.Room(), b.View(), ops)
    modifies b.Repr()
    ensures b.Valid() && RunLegal(old(b.View()), ops) && b.View() == RunOf(old(b.View()), ops)
    ensures b.Room() == RoomOf(old(b.Room()), old(b.View()), ops)
  {
    hide AnyBook.Valid, AnyBook.Room, Legal, Apply, OpFits, RoomAfter;
    ghost var v, room := b.View(), b.Room();
    FitsIsLegal(room, v, ops);
    for i := 0 to |ops|
      invariant b.Valid() && RunFits(b.Room(), b.View(), ops[i..]) && RunLegal(b.View(), ops[i..])
      invariant RunOf(b.View(), ops[i..]) == RunOf(v, ops)
      invariant RoomOf(b.Room(), b.View(), ops[i..]) == RoomOf(room, v, ops)
    {
      assert ops[i..][0] == ops[i] && ops[i..][1..] == ops[i + 1..];
      Do(b, ops[i]);
    }
    assert ops[|ops|..] == [];
  }

  // Room from the sizes a book was built with

  /** Slots, quarantine limits and index length, and whether the price maps are ladders. */
  datatype Sizes = Sizes(orders: nat, heldOrders: nat, levels: nat, heldLevels: nat, index: nat, ladder: bool)

  function SizesOf(b: Book): Sizes {
    Sizes(b.orders.capacity, b.orders.quarantineLimit, b.levels.capacity, b.levels.quarantineLimit,
    b.index.slots.Length, b.ladders.buy.OfLadder? || b.ladders.sell.OfLadder?)
  }

  /** Whatever is not listed is free, or held back by a quarantine. */
  ghost predicate Within(room: BookRoom, v: Orders, z: Sizes) {
    room.Sized? ==>
      && room.orders.free + room.orders.held + |v| == z.orders <= MAX_CAPACITY
      && room.orders.held <= room.orders.limit == z.heldOrders
      && room.levels.free + room.levels.held + LevelsOf(v) == z.levels
      && room.levels.held <= room.levels.limit == z.heldLevels
      && room.index == z.index
      && (!z.ladder ==> room.shapes.buy.Tree? && room.shapes.sell.Tree?)
  }

  /** An order that fits whatever has gone before: slots to spare beyond the quarantines, and the inside in the band. */
  ghost predicate Suits(z: Sizes, v: Orders, s: Side, p: Price) {
    && !BehindZero(s, Prices(v, s), p) && |v| + z.heldOrders < z.orders && |v| * 2 < z.index
    && (p !in Prices(v, s) ==> LevelsOf(v) + z.heldLevels < z.levels)
    && (z.ladder ==> p != NO_PRICE && 204_800 <= Best(s, Prices(v, s) + {p}) < 4_294_762_500)
  }

  ghost predicate RunSuits(z: Sizes, v: Orders, ops: seq<Op>)
    decreases |ops|
  {
    ops != [] ==>
      && Legal(v, ops[0])
      && (ops[0].AddOp? ==> Suits(z, v, ops[0].side, ops[0].price))
      && (ops[0].ReplaceOp? ==> Suits(z, Remove(v, ops[0].oldRef), Get(v, ops[0].oldRef).side, ops[0].price))
      && RunSuits(z, Apply(v, ops[0]), ops[1..])
  }

  lemma BookWithin(b: Book)
    requires b.Valid()
    ensures Within(b.Room(), b.view, SizesOf(b))
  {
    hide LevelMap.Valid, LevelMap.Contents, Pool.Valid, OrderIndex.Valid, OrderIndex.Map, Represents, StatsOf, BestsOf,
         LevelsOf;
    b.orders.RoomSays();
    b.levels.RoomSays();
  }

  lemma SuitsIsTaken(room: BookRoom, z: Sizes, v: Orders, s: Side, p: Price)
    requires Within(room, v, z) && Suits(z, v, s, p)
    ensures room.Takes(v, s, p)
  {
    hide Prices, Best, LevelsOf, LadderSpec.Accepts;
    PricesFew(v, s);
    if room.Sized? && room.shapes.At(s).Anchored? {
      LadderSpec.SafeBandAccepts(room.shapes.At(s).base, s, Prices(v, s), p);
    }
  }

  lemma AddedWithin(room: BookRoom, z: Sizes, v: Orders, r: Rec)
    requires Within(room, v, z) && room.Takes(v, r.side, r.price)
    ensures Within(room.Added(v, r.side, r.price), Add(v, r), z)
  {
    hide Prices, TotalQty, LevelsOf, LadderSpec.Accepts, LadderSpec.NextBase;
    StatsAfterAdd(v, r);
  }

  lemma ShrunkWithin(room: BookRoom, z: Sizes, v: Orders, ref: OrderRef, shares: Qty)
    requires Within(room, v, z) && IsBook(v) && Has(v, ref) && shares <= Get(v, ref).qty
    ensures Within(room.Shrunk(v, Reduce(v, ref, shares)), Reduce(v, ref, shares), z)
  {
    hide Prices, StatsOf, LevelsOf, Lessened, Clears, IsBook, IndexOf, Reduce;
    StatsAfterReduce(v, ref, shares);
  }

  /** So a run that stays inside the sizes, and keeps the inside of a ladder in the band, always fits. */
  lemma {:induction false} SuitableRunFits(room: BookRoom, z: Sizes, v: Orders, ops: seq<Op>)
    requires IsBook(v) && Within(room, v, z) && RunSuits(z, v, ops)
    ensures RunFits(room, v, ops)
    decreases |ops|
  {
    hide IsBook, Has, IndexOf, Reduce, Within, Suits, BookRoom.Takes, BookRoom.Added, BookRoom.Shrunk;
    if ops != [] {
      match ops[0] {
        case AddOp(ref, side, price, qty, owner) =>
          SuitsIsTaken(room, z, v, side, price);
          AddedWithin(room, z, v, Rec(ref, side, price, qty, owner));
        case CancelOp(ref, shares) => ShrunkWithin(room, z, v, ref, shares);
        case ExecuteOp(ref, shares) => ShrunkWithin(room, z, v, ref, shares);
        case RemoveOp(ref) => ShrunkWithin(room, z, v, ref, Get(v, ref).qty);
        case ReplaceOp(oldRef, newRef, price, qty) =>
          var w, r := Remove(v, oldRef), Get(v, oldRef);
          ShrunkWithin(room, z, v, oldRef, r.qty);
          SuitsIsTaken(room.Shrunk(v, w), z, w, r.side, price);
          AddedWithin(room.Shrunk(v, w), z, w, Rec(newRef, r.side, price, qty, r.owner));
      }
      ApplyIsBook(v, ops[0]);
      SuitableRunFits(RoomAfter(room, v, ops[0]), z, Apply(v, ops[0]), ops[1..]);
    }
  }

  /** The stub bid at $0.0001 that opens a session, and the first real bid at any price in the band: both fit. */
  lemma StubThenBid(orders: nat, levels: nat, index: u32, held: nat, stub: OrderRef, ref: OrderRef, price: Price,
      qty: Qty)
    requires orders > 1 && levels > 1 && Sizeable(index) && IndexSize(index) > 2 && qty > 0 && stub != ref
    requires 204_800 <= price < 4_294_762_500
    ensures RunFits(NewRoom(orders, levels, index, held, true), [],
            [AddOp(stub, Buy, 1, qty, 0), AddOp(ref, Buy, price, qty, 0)])
  {
    hide IndexSize, Best, LadderSpec.Accepts, LadderSpec.NextBase;
    var room, first, second := NewRoom(orders, levels, index, held, true), AddOp(stub, Buy, 1, qty, 0),
        AddOp(ref, Buy, price, qty, 0);
    var ops := [first, second];
    NoneBest(Buy);
    StubTaken();
    assert OpFits(room, [], first);
    var v, after := Apply([], first), RoomAfter(room, [], first);
    assert v == [Rec(stub, Buy, 1, qty, 0)];
    assert Prices(v, Buy) == {1} by {
      assert v[0] in v;
    }
    BestOfStub(price);
    LadderSpec.SafeBandAccepts(after.shapes.buy.base, Buy, {1}, price);
    assert IndexOf(v, ref) == 1;
    assert Legal(v, second) && OpFits(after, v, second);
    assert ops[1..] == [second] && [second][1..] == [];
    assert RunFits(after, v, [second]);
  }

  lemma BestOfStub(price: Price)
    requires price > 1
    ensures Best(Buy, {1} + {price}) == price
  {
    assert price in {1} + {price};
  }

  lemma StubTaken()
    ensures LadderSpec.Accepts(0, Buy, {}, 1)
  {
    assert Best(Buy, {} + {1}) == 1;
  }
}
