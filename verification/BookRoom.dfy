/**
 Room in a book: what its pools, its index and its price maps can still take, as one value that every operation
 updates. A run can be followed in it without looking at the book.
 */
module BookRooms {
  import opened Core
  import opened Pools
  import opened LevelMaps
  import opened NaiveSpec
  import opened BookCounts

  function Less(a: nat, b: nat): nat {
    if a > b then a - b else 0
  }

  /** A book on standard containers takes everything; a pooled one what its parts take. */
  datatype BookRoom = Boundless | Sized(orders: Spare, levels: Spare, index: nat, shapes: PerSide<MapShape>) {

    /**
     Is there room for one more order at this side and price beside the orders of v? A pooled book needs a free order
     slot, an index no more than half full, a price that its cached best can follow and, for a new level, a free level
     slot and a price map that takes the price.
     */
    ghost predicate Takes(v: Orders, s: Side, p: Price) {
      Sized? ==>
        && orders.free > 0 && |v| * 2 < index && !BehindZero(s, Prices(v, s), p)
        && (p !in Prices(v, s) ==> levels.free > 0 && shapes.At(s).Takes(s, Prices(v, s), p))
    }

    function OrderTaken(): BookRoom {
      if Sized? then this.(orders := orders.Taken()) else this
    }

    ghost function LevelMade(s: Side, keys: set<Price>, p: Price): BookRoom {
      if Sized?
      then this.(levels := levels.Taken(), shapes := shapes.With(s, shapes.At(s).Grown(s, keys, p)))
      else this
    }

    /** The room left once that order has been added. */
    ghost function Added(v: Orders, s: Side, p: Price): BookRoom {
      if p in Prices(v, s) then OrderTaken() else OrderTaken().LevelMade(s, Prices(v, s), p)
    }

    /** After so many orders and levels have been freed. The windows of the ladders stay where they are. */
    function Freed(a: nat, b: nat): BookRoom {
      if Sized? then this.(orders := orders.After(a), levels := levels.After(b)) else this
    }

    /** After the list has shrunk from v to w. */
    function Shrunk(v: Orders, w: Orders): BookRoom {
      Freed(Less(|v|, |w|), Less(LevelsOf(v), LevelsOf(w)))
    }
  }

  /** Shrinking in two steps leaves the room that shrinking at once does, quarantines included. */
  lemma ShrunkTwice(r: BookRoom, v: Orders, w: Orders, x: Orders)
    requires |x| <= |w| <= |v| && LevelsOf(x) <= LevelsOf(w) <= LevelsOf(v)
    ensures r.Shrunk(v, w).Shrunk(w, x) == r.Shrunk(v, x)
  {
    hide LevelsOf;
  }

  lemma NotShrunk(r: BookRoom, v: Orders)
    ensures r.Shrunk(v, v) == r
  {
    hide LevelsOf;
  }
}
