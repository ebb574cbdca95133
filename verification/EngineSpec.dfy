/** A submission as a step between lists of resting orders, and what every run of submissions and cancels keeps. */
module EngineSpec {
  import opened Core
  import opened NaiveSpec
  import opened PriceSets
  import opened BookCounts
  import opened BookRooms
  import opened MatchSpec

  datatype Outcome = Rested | FilledComplete | Cancelled | StpRejected

  datatype Report = Report(outcome: Outcome, restingRef: OrderRef, filled: nat, restingQty: Qty,
      stpCancelledResting: nat)

  /** Only a limit order good for the day rests, and only what is left of it after an unstopped match. */
  predicate Rests(m: Matched, o: NewOrder) {
    !m.stopped && m.remaining > 0 && o.kind.Limit? && o.tif.Day?
  }

  /** What rests is at the order's own limit price. */
  function Resting(m: Matched, o: NewOrder, ref: OrderRef): Rec {
    Rec(ref, o.side, o.price, m.remaining, o.owner)
  }

  function Settled(m: Matched, o: NewOrder, ref: OrderRef): Orders {
    if Rests(m, o) then Add(m.view, Resting(m, o, ref)) else m.view
  }

  /** The room a submission leaves: what matching freed, less what rests. */
  ghost function RoomSettled(room: BookRoom, v: Orders, m: Matched, o: NewOrder): BookRoom {
    var left := room.Shrunk(v, m.view);
    if Rests(m, o) then left.Added(m.view, o.side, o.price) else left
  }

  /** The reference counter is a 64-bit word. */
  function AfterRef(ref: OrderRef): OrderRef {
    (ref + 1) % 0x1_0000_0000_0000_0000
  }

  function ReportOf(m: Matched, o: NewOrder, ref: OrderRef): Report {
    var filled := FillQty(m.fills);
    if m.stopped then Report(StpRejected, 0, filled, 0, |m.pulled|)
    else if m.remaining == 0 then Report(FilledComplete, 0, filled, 0, |m.pulled|)
    else if Rests(m, o) then Report(Rested, ref, filled, m.remaining, |m.pulled|)
    else Report(Cancelled, 0, filled, 0, |m.pulled|)
  }

  predicate WellFormed(o: NewOrder) {
    o.qty > 0 && (o.kind.Market? || o.price > 0)
  }

  // What matching does to the two sides

  lemma {:induction false} MatchShrinks(v: Orders, o: NewOrder, stp: StpMode, remaining: Qty)
    requires IsBook(v)
    ensures var m := Match(v, o, stp, remaining);
            && IsBook(m.view) && |m.view| <= |v| && LevelsOf(m.view) <= LevelsOf(v) && Refs(m.view) <= Refs(v)
            && Prices(m.view, o.side.Opposite()) <= Prices(v, o.side.Opposite())
            && Prices(m.view, o.side) == Prices(v, o.side)
            && m.remaining <= remaining
    decreases |v|, remaining
  {
    hide Prices, Front, Reduce, IsBook, Best, Has, IndexOf, Refs, SelfTrade, LevelsOf;
    var s := o.side.Opposite();
    if GoesOn(v, o, remaining) {
      var r := Front(v, s);
      TakeShrinks(v, s, r.qty);
      TakeShrinks(v, s, Min(remaining, r.qty));
      if SelfTrade(stp, o, r.owner) {
        if stp.CancelOldest? { MatchShrinks(Remove(v, r.ref), o, stp, remaining); }
      } else {
        MatchShrinks(Reduce(v, r.ref, Min(remaining, r.qty)), o, stp, remaining - Min(remaining, r.qty));
      }
    }
  }

  lemma TakeShrinks(v: Orders, s: Side, shares: Qty)
    requires IsBook(v) && Prices(v, s) != {} && shares <= Front(v, s).qty
    ensures var r := Front(v, s);
            && Has(v, r.ref) && Get(v, r.ref) == r
            && var v' := Reduce(v, r.ref, shares);
               && IsBook(v') && |v'| <= |v| && (shares == r.qty ==> |v'| < |v|) && LevelsOf(v') <= LevelsOf(v) &&
               Refs(v') <= Refs(v)
               && Prices(v', s) <= Prices(v, s) && Prices(v', s.Opposite()) == Prices(v, s.Opposite())
  {
    hide Prices, Front, Reduce, IsBook, Best, Has, IndexOf, Refs, Clears, StatsOf, LevelsOf, TotalQty, Lessened, Queue,
         Priority, OnSide, Left;
    FrontStep(v, s, shares);
    var r := Front(v, s);
    ReduceIsBook(v, r.ref, shares);
    StatsAfterReduce(v, r.ref, shares);
    PricesAfterReduce(v, r.ref, shares, s);
    PricesAfterReduce(v, r.ref, shares, s.Opposite());
  }

  /** The loop meets listed orders only. */
  lemma {:induction false} MetListed(v: Orders, o: NewOrder, stp: StpMode, remaining: Qty)
    requires IsBook(v)
    ensures Met(v, o, stp, remaining) <= Refs(v)
    decreases |v|, remaining
  {
    hide Prices, Front, Reduce, IsBook, Best, Has, IndexOf, Refs, SelfTrade, LevelsOf;
    if GoesOn(v, o, remaining) {
      var r, s := Front(v, o.side.Opposite()), o.side.Opposite();
      TakeShrinks(v, s, r.qty);
      TakeShrinks(v, s, Min(remaining, r.qty));
      HasIffIn(v, r.ref);
      if !SelfTrade(stp, o, r.owner) {
        MetListed(Reduce(v, r.ref, Min(remaining, r.qty)), o, stp, remaining - Min(remaining, r.qty));
      } else if stp.CancelOldest? {
        MetListed(Remove(v, r.ref), o, stp, remaining);
      }
    }
  }

  /** Conservation: every share wanted is filled or left over, and the other side gives up just what was filled or
    pulled. */
  lemma {:induction false} MatchConserves(v: Orders, o: NewOrder, stp: StpMode, remaining: Qty)
    requires IsBook(v)
    ensures var m, s := Match(v, o, stp, remaining), o.side.Opposite();
            && FillQty(m.fills) + m.remaining == remaining
            && TotalQty(v, s) == TotalQty(m.view, s) + FillQty(m.fills) + Qtys(m.pulled)
            && TotalQty(v, o.side) == TotalQty(m.view, o.side)
    decreases |v|, remaining
  {
    hide Prices, Front, Reduce, IsBook, Best, Has, IndexOf, SelfTrade, TotalQty, Qtys, Left, Priority, OnSide, Refs,
         LevelsOf, Crosses;
    var s := o.side.Opposite();
    NoQtys([]);
    if GoesOn(v, o, remaining) {
      var r := Front(v, s);
      TakeShrinks(v, s, r.qty);
      FrontStep(v, s, r.qty);
      if SelfTrade(stp, o, r.owner) {
        ReduceTotal(v, r.ref, r.qty, s);
        ReduceTotal(v, r.ref, r.qty, o.side);
        QtysOne(r);
        if stp.CancelOldest? {
          var m := Match(Remove(v, r.ref), o, stp, remaining);
          MatchConserves(Remove(v, r.ref), o, stp, remaining);
          QtysConcat([r], m.pulled);
        }
      } else {
        var t := Min(remaining, r.qty);
        TakeShrinks(v, s, t);
        ReduceTotal(v, r.ref, t, s);
        ReduceTotal(v, r.ref, t, o.side);
        MatchConserves(Reduce(v, r.ref, t), o, stp, remaining - t);
      }
    }
  }

  /** A submission's shares are filled, resting or dropped; each side's total moves by exactly those. */
  lemma SubmitConserves(v: Orders, o: NewOrder, stp: StpMode, ref: OrderRef)
    requires IsBook(v)
    ensures var m := Match(v, o, stp, o.qty); var w, rep, s := Settled(m, o, ref), ReportOf(m, o, ref),
            o.side.Opposite();
            && rep.filled == FillQty(m.fills)
            && o.qty == rep.filled + rep.restingQty + (if rep.outcome == Rested then 0 else m.remaining)
            && TotalQty(v, s) == TotalQty(w, s) + rep.filled + Qtys(m.pulled)
            && TotalQty(w, o.side) == TotalQty(v, o.side) + rep.restingQty
  {
    hide TotalQty, Qtys, Match, FillQty, IsBook;
    var m := Match(v, o, stp, o.qty);
    MatchConserves(v, o, stp, o.qty);
    if Rests(m, o) {
      AddTotal(m.view, Resting(m, o, ref), o.side);
      AddTotal(m.view, Resting(m, o, ref), o.side.Opposite());
    }
  }

  /**
   The fills of a submission: down the tradable orders of the other side in price-time priority without a gap, each at
   the resting order's price, all but the last consuming their orders; and never against the submitter's own orders
   unless self-trade prevention is off.
   */
  lemma SubmitFills(v: Orders, o: NewOrder, stp: StpMode)
    requires IsBook(v)
    ensures var m, q := Match(v, o, stp, o.qty), Priority(v, o.side.Opposite());
            && FillsRun(m.fills, Tradable(q, o, stp), o, stp, m.remaining == 0)
            && forall k :: 0 <= k < |m.fills| && m.fills[k].aggressorOwner == m.fills[k].restingOwner != 0 ==> stp.Off?
  {
    hide Match, Walk, Priority, IsBook, Crosses;
    MatchIsWalk(v, o, stp, o.qty);
    PriorityRests(v, o.side.Opposite());
    WalkFills(Priority(v, o.side.Opposite()), o, stp, o.qty);
  }

  /** How a submission divides the other side's orders, in priority, into what it took, what it pulled and the rest. */
  lemma SubmitDivides(v: Orders, o: NewOrder, stp: StpMode) returns (n: nat, part: Qty)
    requires IsBook(v)
    ensures var m, q, s := Match(v, o, stp, o.qty), Priority(v, o.side.Opposite()), o.side.Opposite();
            && n <= |q|
            && Divides(Walked(Priority(m.view, s), m.fills, m.remaining, m.stopped, m.pulled, m.events), q, o, stp, n,
                       part)
  {
    hide Match, Walk, Priority, IsBook, Divides;
    MatchIsWalk(v, o, stp, o.qty);
    n, part := WalkDivides(Priority(v, o.side.Opposite()), o, stp, o.qty);
  }

  lemma PriorityRests(v: Orders, s: Side)
    requires IsBook(v)
    ensures AllRest(Priority(v, s))
  {
    hide DistinctRefs, Prices, Sorted;
    QueuesRest(v, s, Sorted(s, Prices(v, s)));
  }

  lemma {:induction false} QueuesRest(v: Orders, s: Side, ps: seq<Price>)
    requires AllRest(v)
    ensures AllRest(QueuesAt(v, s, ps))
  {
    hide Queue, AllRest;
    if ps == [] {
      NothingRests();
    } else {
      QueueRests(v, s, ps[0]);
      QueuesRest(v, s, ps[1..]);
      AllRestConcat(Queue(v, s, ps[0]), QueuesAt(v, s, ps[1..]));
    }
  }

  lemma NothingRests()
    ensures AllRest([])
  {
  }

  lemma QueueRests(v: Orders, s: Side, p: Price)
    requires AllRest(v)
    ensures AllRest(Queue(v, s, p))
  {
    QueueMembers(v, s, p);
    hide Queue;
    var q := Queue(v, s, p);
    forall i | 0 <= i < |q| ensures q[i].qty > 0 {
      assert q[i] in q;
      var k :| 0 <= k < |v| && v[k] == q[i];
    }
  }

  // Never crossed

  lemma BestOfSubset(s: Side, ps: set<Price>, qs: set<Price>)
    requires ps <= qs && ps != {}
    ensures !s.Inside(Best(s, ps), Best(s, qs))
  {
  }

  /** Once an unstopped match has something left over, nothing on the other side crosses the order any more. */
  lemma NothingLeftCrosses(v: Orders, o: NewOrder, stp: StpMode, remaining: Qty)
    requires IsBook(v)
    ensures var m, s := Match(v, o, stp, remaining), o.side.Opposite();
            m.remaining > 0 && !m.stopped && Prices(m.view, s) != {} ==> !Crosses(o, Best(s, Prices(m.view, s)))
  {
    hide Prices, Match, Walk, IsBook, Best, Crosses, Front, Has, IndexOf, Reduce, Priority;
    var m, s := Match(v, o, stp, remaining), o.side.Opposite();
    MatchIsWalk(v, o, stp, remaining);
    WalkEnds(Priority(v, s), o, stp, remaining);
    if Prices(m.view, s) != {} {
      FrontStep(m.view, s, 0);
    }
  }

  lemma SubmitUncrossed(v: Orders, o: NewOrder, stp: StpMode, ref: OrderRef)
    requires IsBook(v) && !Crossed(v)
    ensures !Crossed(Settled(Match(v, o, stp, o.qty), o, ref))
  {
    hide Prices, Match, IsBook, Best, BookCounts.StatsOf;
    var m, s := Match(v, o, stp, o.qty), o.side.Opposite();
    var w := Settled(m, o, ref);
    MatchShrinks(v, o, stp, o.qty);
    NothingLeftCrosses(v, o, stp, o.qty);
    var own, there := Prices(m.view, o.side), Prices(m.view, s);
    if there != {} { BestOfSubset(s, there, Prices(v, s)); }
    if Rests(m, o) {
      PricesAfterAdd(m.view, Resting(m, o, ref), o.side);
      PricesAfterAdd(m.view, Resting(m, o, ref), s);
      assert there + {} == there;
      BestOfMore(o.side, own, o.price);
    }
  }

  lemma BestOfMore(s: Side, ps: set<Price>, p: Price)
    ensures Best(s, ps + {p}) == p || (ps != {} && Best(s, ps + {p}) == Best(s, ps))
  {
    var b := Best(s, ps + {p});
    assert p in ps + {p};
    assert b in ps + {p};
    if b != p {
      assert b in ps && Best(s, ps) in ps + {p};
    }
  }

  // Whole runs

  datatype Action = Submit(order: NewOrder) | Withdraw(ref: OrderRef) | SetMode(stp: StpMode)

  datatype Desk = Desk(view: Orders, nextRef: OrderRef, stp: StpMode)

  /**
   What is asked of the caller: a well-formed order, or the reference of a resting one; and what is asked of the book at
   that moment: no order under 0 where the loop gets to, and none under the engine's next reference once it comes to
   rest one there.
   */
  ghost predicate Permits(d: Desk, a: Action)
    requires IsBook(d.view)
  {
    Asks(d, a) &&
    (a.Submit? ==>
      var m := Match(d.view, a.order, d.stp, a.order.qty);
      0 !in Met(d.view, a.order, d.stp, a.order.qty) && (Rests(m, a.order) ==> !Has(m.view, d.nextRef)))
  }

  predicate Asks(d: Desk, a: Action) {
    match a
    case Submit(o) => WellFormed(o)
    case Withdraw(ref) => Has(d.view, ref)
    case SetMode(_) => true
  }

  function Act(d: Desk, a: Action): Desk
    requires IsBook(d.view) && Asks(d, a)
  {
    match a
    case Submit(o) =>
      var m := Match(d.view, o, d.stp, o.qty);
      Desk(Settled(m, o, d.nextRef), if Rests(m, o) then AfterRef(d.nextRef) else d.nextRef, d.stp)
    case Withdraw(ref) => d.(view := Remove(d.view, ref))
    case SetMode(stp) => d.(stp := stp)
  }

  /** The reference an action puts on the book, if any. */
  function AddedBy(d: Desk, a: Action): (got: seq<OrderRef>)
    requires IsBook(d.view)
    ensures |got| <= 1 && (got != [] ==> got[0] == d.nextRef)
  {
    if a.Submit? && Rests(Match(d.view, a.order, d.stp, a.order.qty), a.order) then [d.nextRef] else []
  }

  function SetOfRefs(refs: seq<OrderRef>): set<OrderRef> {
    set ref | ref in refs
  }

  /** An action leaves a book, uncrossed if it was, and puts at most one order on it: under the next reference. */
  lemma ActKeeps(d: Desk, a: Action)
    requires IsBook(d.view) && Permits(d, a)
    ensures IsBook(Act(d, a).view) && (!Crossed(d.view) ==> !Crossed(Act(d, a).view))
    ensures Refs(Act(d, a).view) <= Refs(d.view) + SetOfRefs(AddedBy(d, a))
    ensures Act(d, a).nextRef == if AddedBy(d, a) == [] then d.nextRef else AfterRef(d.nextRef)
  {
    hide IsBook, Crossed, Match, Met, Reduce, Refs, Has, IndexOf, TotalQty, AfterRef;
    match a
    case Submit(o) =>
      var m := Match(d.view, o, d.stp, o.qty);
      MatchShrinks(d.view, o, d.stp, o.qty);
      if !Crossed(d.view) {
        SubmitUncrossed(d.view, o, d.stp, d.nextRef);
      }
      if Rests(m, o) {
        var r := Resting(m, o, d.nextRef);
        AddIsBook(m.view, r);
        RefsConcat(m.view, [r]);
        RefsSmall([r]);
      }
    case Withdraw(ref) =>
      ReduceIsBook(d.view, ref, Get(d.view, ref).qty);
      if !Crossed(d.view) {
        RemoveUncrossed(d.view, ref);
      }
    case SetMode(_) =>
  }

  lemma RemoveUncrossed(v: Orders, ref: OrderRef)
    requires Has(v, ref) && !Crossed(v)
    ensures !Crossed(Remove(v, ref))
  {
    hide Prices, Best, Reduce, Has, IndexOf, Clears;
    PricesAfterReduce(v, ref, Get(v, ref).qty, Buy);
    PricesAfterReduce(v, ref, Get(v, ref).qty, Sell);
    var v' := Remove(v, ref);
    if Prices(v', Buy) != {} { BestOfSubset(Buy, Prices(v', Buy), Prices(v, Buy)); }
    if Prices(v', Sell) != {} { BestOfSubset(Sell, Prices(v', Sell), Prices(v, Sell)); }
  }

  ghost predicate PermitsAll(d: Desk, run: seq<Action>)
    requires IsBook(d.view)
    decreases |run|
  {
    run != [] ==> Permits(d, run[0]) && (ActKeeps(d, run[0]); PermitsAll(Act(d, run[0]), run[1..]))
  }

  /** Where a run of submissions, cancels and mode changes leads: never from an uncrossed book to a crossed one. */
  ghost function RunAll(d: Desk, run: seq<Action>): (e: Desk)
    requires IsBook(d.view) && PermitsAll(d, run)
    ensures IsBook(e.view) && (!Crossed(d.view) ==> !Crossed(e.view))
    decreases |run|
  {
    if run == [] then d else
      ActKeeps(d, run[0]);
      RunAll(Act(d, run[0]), run[1..])
  }

  /** Never crossed: if every resting bid is strictly below every resting ask, so it is after every run. */
  lemma NeverCrossed(d: Desk, run: seq<Action>)
    requires IsBook(d.view) && PermitsAll(d, run)
    requires forall b, a :: b in d.view && a in d.view && b.side == Buy && a.side == Sell ==> b.price < a.price
    ensures var v := RunAll(d, run).view;
            forall b, a :: b in v && a in v && b.side == Buy && a.side == Sell ==> b.price < a.price
  {
    hide Crossed, IsBook;
    CrossedExactly(d.view);
    CrossedExactly(RunAll(d, run).view);
  }

  // References

  /** The references a run puts on the book, in order. */
  ghost function Added(d: Desk, run: seq<Action>): (refs: seq<OrderRef>)
    requires IsBook(d.view) && PermitsAll(d, run)
    ensures |refs| <= |run|
    decreases |run|
  {
    if run == [] then [] else
      ActKeeps(d, run[0]);
      AddedBy(d, run[0]) + Added(Act(d, run[0]), run[1..])
  }

  /** The reference k after this one, as the 64-bit counter counts. */
  function RefAt(ref: OrderRef, k: nat): OrderRef {
    (ref + k) % 0x1_0000_0000_0000_0000
  }

  /** What a run puts on the book it puts there under consecutive references; and nothing else is new at the end. */
  lemma {:induction false} AddedInOrder(d: Desk, run: seq<Action>)
    requires IsBook(d.view) && PermitsAll(d, run)
    ensures var refs, e := Added(d, run), RunAll(d, run);
            && (forall i :: 0 <= i < |refs| ==> refs[i] == RefAt(d.nextRef, i))
            && e.nextRef == RefAt(d.nextRef, |refs|)
            && Refs(e.view) <= Refs(d.view) + SetOfRefs(refs)
    decreases |run|
  {
    hide IsBook, Crossed, Act, AddedBy, Refs, Asks, Match, Met, Rests, RefAt, AfterRef;
    RefNow(d.nextRef);
    if run != [] {
      ActKeeps(d, run[0]);
      var d1, got := Act(d, run[0]), AddedBy(d, run[0]);
      AddedInOrder(d1, run[1..]);
      var later := Added(d1, run[1..]);
      assert Added(d, run) == got + later;
      assert SetOfRefs(got + later) == SetOfRefs(got) + SetOfRefs(later);
      forall k: nat ensures RefAt(AfterRef(d.nextRef), k) == RefAt(d.nextRef, k + 1) {
        RefLater(d.nextRef, k);
      }
    }
  }

  lemma RefNow(ref: OrderRef)
    ensures RefAt(ref, 0) == ref
  {
  }

  lemma RefLater(ref: OrderRef, k: nat)
    ensures RefAt(AfterRef(ref), k) == RefAt(ref, k + 1)
  {
  }

  /** No order rests under 0, nor under any of the next k references. */
  ghost predicate Clear(d: Desk, k: nat) {
    && (k > 0 ==> 0 < d.nextRef && d.nextRef + k <= 0x1_0000_0000_0000_0000)
    && forall ref :: ref in Refs(d.view) ==> ref != 0 && !(d.nextRef <= ref < d.nextRef + k)
  }

  /** The caller's half of PermitsAll. */
  ghost predicate AsksAll(d: Desk, run: seq<Action>)
    requires IsBook(d.view)
    decreases |run|
  {
    run != [] ==> Asks(d, run[0]) && (IsBook(Act(d, run[0]).view) ==> AsksAll(Act(d, run[0]), run[1..]))
  }

  lemma ClearStep(d: Desk, a: Action, k: nat)
    requires IsBook(d.view) && Asks(d, a) && Clear(d, k + 1)
    ensures Permits(d, a) && IsBook(Act(d, a).view) && Clear(Act(d, a), k)
  {
    hide IsBook, Match, Met, Crossed, Refs, Has, IndexOf, LevelsOf, Act;
    if a.Submit? {
      var o := a.order;
      MetListed(d.view, o, d.stp, o.qty);
      MatchShrinks(d.view, o, d.stp, o.qty);
      HasIffIn(Match(d.view, o, d.stp, o.qty).view, d.nextRef);
    }
    ActKeeps(d, a);
  }

  /** A book with that much clear needs no more than well-formed requests, and no run adds a reference twice to it. */
  lemma {:induction false} NeverAddedTwice(d: Desk, run: seq<Action>)
    requires IsBook(d.view) && Clear(d, |run|) && AsksAll(d, run)
    ensures PermitsAll(d, run)
    ensures var refs := Added(d, run);
            && (forall i :: 0 <= i < |refs| ==> refs[i] == d.nextRef + i && refs[i] !in Refs(d.view))
            && Refs(RunAll(d, run).view) <= Refs(d.view) + SetOfRefs(refs)
    decreases |run|
  {
    hide IsBook, Act, Asks, Permits, Refs, Crossed, AddedBy;
    ClearIsPermitted(d, run);
    AddedInOrder(d, run);
  }

  lemma {:induction false} ClearIsPermitted(d: Desk, run: seq<Action>)
    requires IsBook(d.view) && Clear(d, |run|) && AsksAll(d, run)
    ensures PermitsAll(d, run)
    decreases |run|
  {
    hide IsBook, Act, Asks, Permits, Refs, Crossed, Clear;
    if run != [] {
      ClearStep(d, run[0], |run| - 1);
      ClearIsPermitted(Act(d, run[0]), run[1..]);
    }
  }
}
