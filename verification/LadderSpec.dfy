/**
 The price ladder as a mathematical object: a window of whole-penny prices starting at a base tick, and an overflow
 map for every other price. The class in PriceLadder.dfy computes exactly these steps on its arrays.
 */
module LadderSpec {
  import opened Core
  import opened PriceSets

  const TICK_UNITS: nat := 100
  const WINDOW_TICKS: nat := 4096
  const REBASE_MARGIN: nat := 512

  function Tick(p: Price): nat {
    p / TICK_UNITS
  }

  /** Penny-aligned, with a tick in the window. */
  predicate InWindow(base: int, p: Price) {
    p % TICK_UNITS == 0 && base <= Tick(p) < base + WINDOW_TICKS
  }

  function SlotOf(base: int, p: Price): int {
    Tick(p) - base
  }

  function SlotPrice(base: int, s: int): int {
    (base + s) * TICK_UNITS
  }

  lemma SlotOfPrice(base: int, p: Price)
    requires InWindow(base, p)
    ensures 0 <= SlotOf(base, p) < WINDOW_TICKS && SlotPrice(base, SlotOf(base, p)) == p
  {
  }

  lemma PriceOfSlot(base: int, s: int, p: Price)
    requires 0 <= s < WINDOW_TICKS && SlotPrice(base, s) == p
    ensures InWindow(base, p) && SlotOf(base, p) == s
  {
  }

  /** Conversion to an unsigned 32-bit word. */
  function Wrap32(x: int): u32 {
    x % 0x1_0000_0000
  }

  datatype Ladder = Ladder(base: int, held: map<Price, Handle>, overflow: map<Price, Handle>) {
    /** What has been inserted and not erased, wherever it is kept. */
    ghost function Contents(): map<Price, Handle> {
      held + overflow
    }

    ghost function Keys(): set<Price> {
      held.Keys + overflow.Keys
    }

    /** One probe: the window slot if the price belongs in the window, the overflow map otherwise. */
    ghost function Find(p: Price): Handle {
      var part := if InWindow(base, p) then held else overflow;
      if p in part then part[p] else NULL
    }

    /** Holds in every reachable state: nothing is kept twice, and the window holds only prices it can represent. */
    ghost predicate Sound() {
      && (forall p :: p in held ==> InWindow(base, p) && held[p] != NULL)
      && (forall p :: p in overflow ==> p !in held && overflow[p] != NULL)
      && NO_PRICE !in Keys()
    }

    /** What makes a single probe enough: nothing that belongs in the window is in the overflow map. */
    ghost predicate Canonical() {
      forall p :: p in overflow ==> !InWindow(base, p)
    }

    ghost function Place(p: Price, h: Handle): Ladder {
      if InWindow(base, p) then this.(held := held[p := h]) else this.(overflow := overflow[p := h])
    }

    ghost function Erase(p: Price): Ladder {
      if InWindow(base, p) then this.(held := held - {p}) else this.(overflow := overflow - {p})
    }

    /** The first and one past the last price the pull-in scan visits, each converted to 32 bits. */
    function PullFrom(): u32 {
      Wrap32(base * TICK_UNITS)
    }

    function PullTo(): u32 {
      Wrap32((base + WINDOW_TICKS) * TICK_UNITS)
    }

    /** The overflow prices below `to` that the scan visits and that belong in the window. */
    ghost function Pulled(to: int): (ps: set<Price>)
      ensures ps <= overflow.Keys
    {
      set p | p in overflow && PullFrom() <= p < to && InWindow(base, p)
    }

    ghost function Move(ps: set<Price>): Ladder
      requires ps <= overflow.Keys
    {
      Ladder(base, held + (map p | p in ps :: overflow[p]), overflow - ps)
    }

    ghost function PullIn(to: int): Ladder {
      Move(Pulled(to))
    }

    /** The window moved to a new base, with what it no longer covers displaced to the overflow map. */
    ghost function Slide(newBase: int): Ladder {
      Ladder(newBase,
             map p | p in held && InWindow(newBase, p) :: held[p],
             overflow + map p | p in held && !InWindow(newBase, p) :: held[p])
    }

    ghost function Rebase(anchor: int): Ladder {
      var slid := Slide(anchor - WINDOW_TICKS / 2);
      slid.PullIn(slid.PullTo())
    }

    /** The inside is too close to an edge of the window, or outside it. */
    predicate Recentres(t: int) {
      !(base + REBASE_MARGIN <= t < base + WINDOW_TICKS - REBASE_MARGIN)
    }

    ghost function Insert(side: Side, p: Price, h: Handle): Ladder {
      var placed := Place(p, h);
      var t := Tick(Best(side, placed.Keys()));
      if placed.Recentres(t) then placed.Rebase(t) else placed
    }
  }

  const INITIAL: Ladder := Ladder(0, map[], map[])

  /** Anchor ticks for which neither bound of the pull-in scan wraps at 32 bits: prices from $20.48 to $429,476.24. */
  predicate ClearRange(t: int) {
    2048 <= t < 42_947_625
  }

  /**
   Whether inserting p into a canonical ladder leaves it canonical, decided from the base and the keys alone:
   either the window stays, or its new bounds do not wrap, or it slides over nothing that was outside it.
   */
  ghost predicate Accepts(base: int, side: Side, keys: set<Price>, p: Price) {
    var keys' := keys + {p};
    var t := Tick(Best(side, keys'));
    || p in keys
    || (base + REBASE_MARGIN <= t < base + WINDOW_TICKS - REBASE_MARGIN)
    || ClearRange(t)
    || forall q :: q in keys' && InWindow(t - WINDOW_TICKS / 2, q) ==> InWindow(base, q)
  }

  /** Where the window is after inserting p beside these keys: the inside alone decides whether it moves. */
  ghost function NextBase(base: int, side: Side, keys: set<Price>, p: Price): int {
    var t := Tick(Best(side, keys + {p}));
    if base + REBASE_MARGIN <= t < base + WINDOW_TICKS - REBASE_MARGIN then base else t - WINDOW_TICKS / 2
  }

  // The best price, and price zero

  /** The answer of a query that asserts something on the way. */
  datatype Asserted = Fails | Answers(price: Price)

  /**
   The best price as it is put together from the prices in the window and in the overflow map. Zero is taken for an
   empty window, and asserted against when the overflow map is empty.
   */
  function Combined(side: Side, window: set<Price>, over: set<Price>): Asserted {
    var w, v := Best(side, window), Best(side, over);
    if over == {} then (if w == NO_PRICE then Fails else Answers(w))
    else if w == NO_PRICE then Answers(v)
    else Answers(if side.Inside(w, v) then w else v)
  }

  /**
   It is right exactly if the window does not hold price zero where zero is its best: not at all on the sell side,
   and on
   the buy side not as the only price there is.
   */
  lemma CombinedExact(side: Side, window: set<Price>, over: set<Price>)
    requires window !! over && window + over != {}
    ensures Combined(side, window, over) == Answers(Best(side, window + over)) <==>
            !(NO_PRICE in window && (side.Sell? || (window == {NO_PRICE} && over == {})))
    ensures Combined(side, window, over).Fails? <==>
              over == {} && NO_PRICE in window && (side.Sell? || window == {NO_PRICE})
  {
    var all := window + over;
    var w, v, b := Best(side, window), Best(side, over), Best(side, all);
    assert b in all;
    assert window != {} ==> w in all;
    assert over != {} ==> v in all;
    if side.Buy? && w == NO_PRICE && window != {} {
      assert window == {NO_PRICE};
    }
  }

  /** The first order at price zero goes into the window of a new ladder, on either side, and best() then fails. */
  lemma LoneZeroFails(side: Side, h: Handle)
    ensures var l := INITIAL.Place(NO_PRICE, h); Combined(side, l.held.Keys, l.overflow.Keys) == Fails
  {
    var l := INITIAL.Place(NO_PRICE, h);
    assert l.held.Keys == {NO_PRICE} && l.overflow.Keys == {};
  }

  // Lookup and the canonical form

  /** The single probe answers every lookup correctly exactly when the ladder is canonical. */
  lemma FindsAllIffCanonical(l: Ladder)
    requires l.Sound()
    ensures l.Canonical() <==>
            forall p: Price :: l.Find(p) == if p in l.Contents() then l.Contents()[p] else NULL
  {
    hide InWindow;
    if !l.Canonical() {
      var p :| p in l.overflow && InWindow(l.base, p);
      assert l.Find(p) == NULL && l.Contents()[p] != NULL;
    }
  }

  // Inserting

  lemma PlaceKeeps(l: Ladder, p: Price, h: Handle)
    requires l.Sound() && p !in l.Keys() && p != NO_PRICE && h != NULL
    ensures l.Place(p, h).Sound() && l.Place(p, h).Contents() == l.Contents()[p := h]
    ensures l.Place(p, h).Keys() == l.Keys() + {p}
    ensures l.Canonical() ==> l.Place(p, h).Canonical()
  {
    hide InWindow;
  }

  lemma SlideKeeps(l: Ladder, newBase: int)
    requires l.Sound()
    ensures l.Slide(newBase).Sound() && l.Slide(newBase).Contents() == l.Contents()
  {
    hide InWindow;
  }

  lemma PullInKeeps(l: Ladder, to: int)
    requires l.Sound()
    ensures l.PullIn(to).Sound() && l.PullIn(to).Contents() == l.Contents()
  {
    hide InWindow;
  }

  /** Every step that moves the window keeps every level and its handle, wrapped bounds or not. */
  lemma RebaseKeeps(l: Ladder, anchor: int)
    requires l.Sound()
    ensures l.Rebase(anchor).Sound() && l.Rebase(anchor).Contents() == l.Contents()
    ensures l.Rebase(anchor).base == anchor - WINDOW_TICKS / 2
  {
    var slid := l.Slide(anchor - WINDOW_TICKS / 2);
    SlideKeeps(l, anchor - WINDOW_TICKS / 2);
    PullInKeeps(slid, slid.PullTo());
  }

  /** Bounds that do not wrap enclose exactly the window; bounds that wrap enclose no window price at all. */
  lemma PullBounds(base: int, p: Price)
    requires -2048 <= base && InWindow(base, p)
    ensures var l := Ladder(base, map[], map[]);
            if ClearRange(base + 2048) then l.PullFrom() <= p < l.PullTo() else !(l.PullFrom() <= p < l.PullTo())
  {
    var from, to := base * 100, (base + 4096) * 100;
    assert from <= p < to;
    if base < 0 {
      assert Wrap32(from) == from + 0x1_0000_0000;
    } else if base + 2048 >= 42_947_625 {
      assert Wrap32(from) == from;
      assert Wrap32(to) == to - 0x1_0000_0000;
    } else {
      assert Wrap32(from) == from && Wrap32(to) == to;
    }
  }

  /** So the scan pulls in all that belongs in the window, or none of it. */
  lemma PullInLeaves(l: Ladder)
    requires -2048 <= l.base
    ensures l.PullIn(l.PullTo()).Canonical() <==> ClearRange(l.base + 2048) || l.Canonical()
  {
    hide InWindow, Wrap32, ClearRange;
    var bounds := Ladder(l.base, map[], map[]);
    assert l.PullFrom() == bounds.PullFrom() && l.PullTo() == bounds.PullTo();
    forall p | p in l.overflow && InWindow(l.base, p)
      ensures p in l.Pulled(l.PullTo()) <==> ClearRange(l.base + 2048)
    {
      PullBounds(l.base, p);
    }
  }

  /** After a rebase the ladder is canonical exactly when the bounds did not wrap or had nothing to pull in. */
  lemma RebaseCanonical(l: Ladder, t: nat)
    requires l.Sound() && l.Canonical()
    ensures l.Rebase(t).Canonical() <==>
            ClearRange(t) || forall q :: q in l.Keys() && InWindow(t - 2048, q) ==> InWindow(l.base, q)
  {
    hide InWindow, ClearRange, Ladder.PullIn, Ladder.PullTo, Ladder.Find, Ladder.Contents;
    var slid := l.Slide(t - 2048);
    assert l.Rebase(t) == slid.PullIn(slid.PullTo());
    PullInLeaves(slid);
    assert slid.Canonical() <==> forall q :: q in l.Keys() && InWindow(t - 2048, q) ==> InWindow(l.base, q);
  }

  /** The ladder stays an ordered map across an insert if and only if Accepts said so beforehand. */
  lemma InsertCanonical(l: Ladder, side: Side, p: Price, h: Handle)
    requires l.Sound() && l.Canonical() && p !in l.Keys() && p != NO_PRICE && h != NULL
    ensures var r := l.Insert(side, p, h);
            && r.Sound() && r.Contents() == l.Contents()[p := h] && r.base == NextBase(l.base, side, l.Keys(), p)
            && (r.Canonical() <==> Accepts(l.base, side, l.Keys(), p))
  {
    hide InWindow, Ladder.Rebase;
    var placed := l.Place(p, h);
    PlaceKeeps(l, p, h);
    var t := Tick(Best(side, placed.Keys()));
    if placed.Recentres(t) {
      RebaseKeeps(placed, t);
      RebaseCanonical(placed, t);
    }
  }

  /** After an insert the inside is at least 512 ticks inside a window of 4096, in the middle of it if it has moved. */
  lemma InsideStaysCentral(l: Ladder, side: Side, p: Price, h: Handle)
    requires l.Sound() && l.Canonical() && p !in l.Keys() && p != NO_PRICE && h != NULL
    ensures var r := l.Insert(side, p, h); var t := Best(side, l.Keys() + {p}) / 100;
            && r.base + 512 <= t < r.base + 3584
            && (r.base == l.base || r.base == t - 2048)
            && (l.base + 512 <= t < l.base + 3584 ==> r.base == l.base)
            && (forall q :: q in r.held ==> q % 100 == 0 && r.base <= q / 100 < r.base + 4096)
  {
    hide Ladder.Insert, Ladder.Canonical;
    InsertCanonical(l, side, p, h);
  }

  /**
   While the inside stays between $20.48 and $429,476.24 nothing is ever stranded, wherever the window is and whatever
   rests behind the inside: an unconditional corollary of the exact condition.
   */
  lemma SafeBandAccepts(base: int, side: Side, keys: set<Price>, p: Price)
    requires 204_800 <= Best(side, keys + {p}) < 4_294_762_500
    ensures Accepts(base, side, keys, p)
  {
    assert 2048 <= Tick(Best(side, keys + {p})) < 42_947_625;
  }

  // Erasing

  lemma EraseKeeps(l: Ladder, p: Price)
    requires l.Sound() && l.Canonical() && p in l.Keys()
    ensures var r := l.Erase(p); r.Sound() && r.Canonical() && r.Contents() == l.Contents() - {p} && r.base == l.base
    ensures if InWindow(l.base, p) then p in l.held else p in l.overflow
  {
    hide InWindow;
  }

  /** The lone best price of a set of one or two. */
  lemma BestOfTwo(side: Side, p: Price, q: Price)
    ensures Best(side, {p}) == p
    ensures !side.Inside(q, p) ==> Best(side, {q, p}) == p
  {
    assert Best(side, {p}) in {p};
    assert Best(side, {q, p}) in {q, p};
    assert p in {q, p} && q in {q, p};
  }

  lemma StubAlone(h: Handle)
    ensures INITIAL.Insert(Sell, 1_999_999_900, h) == Ladder(19_997_951, map[1_999_999_900 := h], map[])
  {
    var p: Price := 1_999_999_900;
    hide Best, Ladder.Contents, Ladder.Find;
    BestOfTwo(Sell, p, p);
    var placed := INITIAL.Place(p, h);
    assert placed == Ladder(0, map[], map[p := h]) && placed.Keys() == {p};
    var slid := placed.Slide(19_997_951);
    assert slid == Ladder(19_997_951, map[], map[p := h]);
    assert slid.PullFrom() == 1_999_795_100 && slid.PullTo() == 2_000_204_700;
    assert slid.PullIn(2_000_204_700) == Ladder(19_997_951, map[p := h], map[]);
  }

  lemma StrandStep(h1: Handle, h2: Handle)
    ensures Ladder(19_997_951, map[1_999_999_900 := h1], map[]).Insert(Sell, 200_000, h2) ==
            Ladder(-48, map[], map[200_000 := h2, 1_999_999_900 := h1])
  {
    var p: Price, q: Price := 1_999_999_900, 200_000;
    BestOfTwo(Sell, q, p);
    var placed := Ladder(19_997_951, map[p := h1], map[]).Place(q, h2);
    assert placed == Ladder(19_997_951, map[p := h1], map[q := h2]) && placed.Keys() == {p, q};
    var slid := placed.Slide(-48);
    assert slid == Ladder(-48, map[], map[q := h2, p := h1]);
    assert slid.PullFrom() == 4_294_962_496 && slid.PullTo() == 404_800;
    assert slid.PullIn(404_800) == slid;
  }

  /**
   A concrete run that leaves the ladder unable to find a level it holds. The second ask pulls the window down to
   base -48; the pull-in bound then wraps to a huge price, and 200000 ($20.00) is stranded in the overflow map.
   */
  lemma StrandedLevel(h1: Handle, h2: Handle)
    requires h1 != NULL && h2 != NULL
    ensures var l := INITIAL.Insert(Sell, 1_999_999_900, h1).Insert(Sell, 200_000, h2);
            l.base == -48 && 200_000 in l.Contents() && l.Find(200_000) == NULL
  {
    hide Ladder.Insert;
    StubAlone(h1);
    StrandStep(h1, h2);
  }
}
