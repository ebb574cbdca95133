/** The matching engine: a loop over the best resting order of the other side, on any book. */
module Engines {
  import opened Core
  import opened NaiveSpec
  import opened PriceSets
  import opened BookCounts
  import opened BookRooms
  import opened MatchSpec
  import opened EngineSpec
  import opened MatchLaws
  import opened AnyBooks

  datatype EngineStats = EngineStats(submitted: nat, fills: nat, filledQty: nat, rested: nat, cancelled: nat,
      stpEvents: nat)

  function StatsAfter(st: EngineStats, m: Matched, o: NewOrder): EngineStats {
    EngineStats(st.submitted + 1, st.fills + |m.fills|, st.filledQty + FillQty(m.fills),
                if Rests(m, o) then st.rested + 1 else st.rested,
                if m.stopped || (m.remaining > 0 && !Rests(m, o)) then st.cancelled + 1 else st.cancelled,
                st.stpEvents + m.events)
  }

  /** Should anything rest, there is room for it in what matching leaves. */
  ghost predicate RestFits(room: BookRoom, v: Orders, m: Matched, o: NewOrder) {
    Rests(m, o) ==> room.Shrunk(v, m.view).Takes(m.view, o.side, o.price)
  }

  ghost predicate ActFits(room: BookRoom, d: Desk, a: Action)
    requires IsBook(d.view)
  {
    a.Submit? ==> RestFits(room, d.view, Match(d.view, a.order, d.stp, a.order.qty), a.order)
  }

  /** The room an action leaves. */
  ghost function RoomActed(room: BookRoom, d: Desk, a: Action): BookRoom
    requires IsBook(d.view) && Asks(d, a)
  {
    match a
    case Submit(o) => RoomSettled(room, d.view, Match(d.view, o, d.stp, o.qty), o)
    case Withdraw(ref) => room.Shrunk(d.view, NaiveSpec.Remove(d.view, ref))
    case SetMode(_) => room
  }

  /** The book has room for all that rests along a run. */
  ghost predicate AllFit(room: BookRoom, d: Desk, run: seq<Action>)
    requires IsBook(d.view) && PermitsAll(d, run)
    decreases |run|
  {
    run != [] ==>
      && ActFits(room, d, run[0])
      && (ActKeeps(d, run[0]); AllFit(RoomActed(room, d, run[0]), Act(d, run[0]), run[1..]))
  }

  class MatchingEngine {
    const book: AnyBook
    var stp: StpMode
    var nextRef: OrderRef
    var stats: EngineStats

    constructor (book: AnyBook, stp: StpMode)
      ensures this.book == book && this.stp == stp && nextRef == 1 && stats == EngineStats(0, 0, 0, 0, 0, 0)
    {
      this.book := book;
      this.stp := stp;
      nextRef := 1;
      stats := EngineStats(0, 0, 0, 0, 0, 0);
    }

    /**
     Appends the fills of o to fills. That the loop meets no order under reference 0 is the engine's own assertion, that
     its next reference is new the book's; that the list is a book follows from the book being valid.
     */
    method Submit(o: NewOrder, fills: seq<Fill>) returns (report: Report, out: seq<Fill>)
      requires book.Valid() && this !in book.Repr()
      requires WellFormed(o) && IsBook(book.View()) && 0 !in Met(book.View(), o, stp, o.qty)
      requires var m := Match(book.View(), o, stp, o.qty);
               RestFits(book.Room(), book.View(), m, o) && (Rests(m, o) ==> !Has(m.view, nextRef))
      modifies this, book.Repr()
      ensures book.Valid() && IsBook(old(book.View()))
      ensures var m := Match(old(book.View()), o, stp, o.qty);
              && book.View() == Settled(m, o, old(nextRef))
              && report == ReportOf(m, o, old(nextRef)) && out == fills + m.fills
              && stp == old(stp) && nextRef == (if Rests(m, o) then AfterRef(old(nextRef)) else old(nextRef))
              && stats == StatsAfter(old(stats), m, o)
              && book.Room() == RoomSettled(old(book.Room()), old(book.View()), m, o)
    {
      hide AnyBook.Valid, AnyBook.Room, BookRoom.Takes, BookRoom.Added, BookRoom.Shrunk, Has, Match, Met, IsBook, Refs;
      ghost var m := Match(book.View(), o, stp, o.qty);
      MatchConserves(book.View(), o, stp, o.qty);
      var remaining, got, pulled, stopped := RunMatch(o);
      out := fills + got;
      stats := stats.(submitted := stats.submitted + 1);
      if stopped {
        stats := stats.(cancelled := stats.cancelled + 1);
        report := Report(StpRejected, 0, o.qty - remaining, 0, pulled);
      } else if remaining == 0 {
        report := Report(FilledComplete, 0, o.qty, 0, pulled);
      } else if o.kind.Market? || o.tif.Ioc? {
        stats := stats.(cancelled := stats.cancelled + 1);
        report := Report(Outcome.Cancelled, 0, o.qty - remaining, 0, pulled);
      } else {
        var ref := nextRef;
        nextRef := AfterRef(nextRef);
        book.Add(ref, o.side, o.price, remaining, o.owner);
        report := Report(Rested, ref, o.qty - remaining, remaining, pulled);
        stats := stats.(rested := stats.rested + 1);
      }
    }

    /**
     What the loop has done so far, and what it has still to do, together make up the whole match m and the room that
     is left after it.
     */
    ghost predicate Underway(m: Matched, left: BookRoom, o: NewOrder, remaining: Qty, fills: seq<Fill>,
        pulled: seq<Rec>, events: nat)
      reads this`stp, book.Repr()
    {
      && book.Valid() && IsBook(book.View()) && 0 !in Met(book.View(), o, stp, remaining)
      && (var n := Match(book.View(), o, stp, remaining);
          m == Matched(n.view, fills + n.fills, n.remaining, n.stopped, pulled + n.pulled, events + n.events))
      && left == book.Room().Shrunk(book.View(), m.view)
    }

    /** The order with time priority at the touch. */
    method TakeFront(o: NewOrder, ghost m: Matched, ghost left: BookRoom, ghost remaining: Qty, ghost fills: seq<Fill>,
        ghost gone: seq<Rec>, ghost events: nat)
      returns (r: Rec)
      requires Underway(m, left, o, remaining, fills, gone, events) && GoesOn(book.View(), o, remaining)
      ensures Underway(m, left, o, remaining, fills, gone, events) && book.View() == old(book.View())
      ensures r == Front(book.View(), o.side.Opposite())
    {
      hide AnyBook.Valid, AnyBook.Room, BookRoom.Shrunk, Match, Met, Has, IndexOf, IsBook, Prices, Best, Queue, Crosses;
      assert forall b :: b in book.Repr() ==> allocated(b);
      ghost var v := book.View();
      var s := o.side.Opposite();
      FrontListed(v, s);
      MetOnce(v, o, stp, remaining);
      var touch := book.BestOf(s);
      var resting := book.FrontAt(s, touch);
      assert resting != 0;
      r := book.Lookup(resting);
    }

    /** Pulls the submitter's own resting order at the front. */
    method Pull(r: Rec, ghost m: Matched)
      requires book.Valid() && this !in book.Repr()
      requires Has(book.View(), r.ref) && Get(book.View(), r.ref) == r && IsBook(NaiveSpec.Remove(book.View(), r.ref))
      requires |m.view| <= |NaiveSpec.Remove(book.View(), r.ref)| &&
               LevelsOf(m.view) <= LevelsOf(NaiveSpec.Remove(book.View(), r.ref))
      modifies book.Repr()
      ensures book.Valid() && book.View() == NaiveSpec.Remove(old(book.View()), r.ref)
      ensures book.Room().Shrunk(book.View(), m.view) == old(book.Room()).Shrunk(old(book.View()), m.view)
    {
      hide AnyBook.Valid, AnyBook.Room, BookRoom.Shrunk, Has, IndexOf, IsBook, Reduce, LevelsOf;
      book.ViewIsBook();
      ReduceIsBook(book.View(), r.ref, r.qty);
      StatsAfterReduce(book.View(), r.ref, r.qty);
      ShrunkTwice(book.Room(), book.View(), NaiveSpec.Remove(book.View(), r.ref), m.view);
      book.Remove(r.ref);
    }

    /** Trades against the resting order at the front. */
    method Trade(r: Rec, traded: Qty, ghost m: Matched)
      requires book.Valid() && this !in book.Repr()
      requires Has(book.View(), r.ref) && Get(book.View(), r.ref) == r && traded <= r.qty &&
               IsBook(Reduce(book.View(), r.ref, traded))
      requires |m.view| <= |Reduce(book.View(), r.ref, traded)| &&
               LevelsOf(m.view) <= LevelsOf(Reduce(book.View(), r.ref, traded))
      modifies book.Repr()
      ensures book.Valid() && book.View() == Reduce(old(book.View()), r.ref, traded)
      ensures book.Room().Shrunk(book.View(), m.view) == old(book.Room()).Shrunk(old(book.View()), m.view)
    {
      hide AnyBook.Valid, AnyBook.Room, BookRoom.Shrunk, Has, IndexOf, IsBook, Reduce, LevelsOf;
      book.ViewIsBook();
      ReduceIsBook(book.View(), r.ref, traded);
      StatsAfterReduce(book.View(), r.ref, traded);
      ShrunkTwice(book.Room(), book.View(), Reduce(book.View(), r.ref, traded), m.view);
      var done := book.Execute(r.ref, traded);
    }

    /** One round against an order of the same participant. Tells whether matching stops there. */
    method PreventSelfTrade(o: NewOrder, r: Rec, remaining: Qty, ghost m: Matched, ghost left: BookRoom,
        ghost fills: seq<Fill>, ghost gone: seq<Rec>, ghost events: nat)
      returns (pulled: bool, stopped: bool)
      requires this !in book.Repr() && Underway(m, left, o, remaining, fills, gone, events) &&
               GoesOn(book.View(), o, remaining)
      requires r == Front(book.View(), o.side.Opposite()) && SelfTrade(stp, o, r.owner)
      modifies book.Repr(), this`stats
      ensures stats == old(stats).(stpEvents := old(stats).stpEvents + 1) && book.Valid()
      ensures !stopped ==>
                pulled && |book.View()| < old(|book.View()|) &&
                Underway(m, left, o, remaining, fills, gone + [r], events + 1)
      ensures stopped ==> m == Matched(book.View(), fills, remaining, true, if pulled then gone + [r] else gone,
              events + 1) && book.Room() == left
    {
      hide AnyBook.Valid, AnyBook.Room, BookRoom.Shrunk, Has, IndexOf, Match, Met, IsBook, Refs, Reduce, Prices, Front,
           LevelsOf, Best, SelfTrade, Crosses;
      ghost var v := book.View();
      TakeShrinks(v, o.side.Opposite(), r.qty);
      FrontStep(v, o.side.Opposite(), r.qty);
      MetOnce(v, o, stp, remaining);
      NotShrunk(book.Room(), v);
      assert gone + [] == gone && fills + [] == fills;
      stats := stats.(stpEvents := stats.stpEvents + 1);
      match stp {
        case CancelOldest =>
          MatchPulls(v, o, stp, remaining);
          MatchShrinks(NaiveSpec.Remove(v, r.ref), o, stp, remaining);
          Pull(r, m);
          pulled, stopped := true, false;
          ghost var n := Match(book.View(), o, stp, remaining);
          assert gone + ([r] + n.pulled) == gone + [r] + n.pulled;
        case CancelBoth =>
          MatchStops(v, o, stp, remaining);
          Pull(r, m);
          NotShrunk(book.Room(), book.View());
          pulled, stopped := true, true;
        case _ =>
          MatchStops(v, o, stp, remaining);
          pulled, stopped := false, true;
      }
    }

    /** One round against anybody else's order. */
    method Hit(o: NewOrder, r: Rec, remaining: Qty, ghost m: Matched, ghost left: BookRoom, ghost fills: seq<Fill>,
        ghost gone: seq<Rec>, ghost events: nat)
      returns (traded: Qty)
      requires this !in book.Repr() && Underway(m, left, o, remaining, fills, gone, events) &&
               GoesOn(book.View(), o, remaining)
      requires r == Front(book.View(), o.side.Opposite()) && !SelfTrade(stp, o, r.owner)
      modifies book.Repr(), this`stats
      ensures 0 < traded == Min(remaining, r.qty) && |book.View()| <= old(|book.View()|)
      ensures stats == old(stats).(fills := old(stats).fills + 1, filledQty := old(stats).filledQty + traded)
      ensures Underway(m, left, o, remaining - traded, fills + [FillOf(o, r, traded)], gone, events)
    {
      hide AnyBook.Valid, AnyBook.Room, BookRoom.Shrunk, Has, IndexOf, Match, Met, IsBook, Refs, Reduce, Prices, Front,
           LevelsOf, Best, SelfTrade, Crosses;
      ghost var v := book.View();
      traded := Min(remaining, r.qty);
      FrontStep(v, o.side.Opposite(), traded);
      TakeShrinks(v, o.side.Opposite(), traded);
      MatchOnce(v, o, stp, remaining);
      MetOnce(v, o, stp, remaining);
      MatchShrinks(Reduce(v, r.ref, traded), o, stp, remaining - traded);
      stats := stats.(fills := stats.fills + 1, filledQty := stats.filledQty + traded);
      Trade(r, traded, m);
      ghost var n := Match(book.View(), o, stp, remaining - traded);
      assert fills + ([FillOf(o, r, traded)] + n.fills) == fills + [FillOf(o, r, traded)] + n.fills;
    }

    /** The matching loop: what is left of the order, its fills, how many resting orders were pulled, and whether it
      was stopped. */
    method RunMatch(o: NewOrder) returns (remaining: Qty, fills: seq<Fill>, pulled: nat, stopped: bool)
      requires book.Valid() && this !in book.Repr()
      requires IsBook(book.View()) && 0 !in Met(book.View(), o, stp, o.qty)
      modifies this`stats, book.Repr()
      ensures book.Valid() && IsBook(old(book.View()))
      ensures var m := Match(old(book.View()), o, stp, o.qty);
              && book.View() == m.view && remaining == m.remaining && fills == m.fills && pulled == |m.pulled| &&
              stopped == m.stopped
              && book.Room() == old(book.Room()).Shrunk(old(book.View()), m.view)
              && stats == Counted(old(stats), m.fills, m.events)
    {
      hide AnyBook.Valid, AnyBook.Room, BookRoom.Shrunk, Has, IndexOf, Match, Met, IsBook, Refs, Reduce, Prices, Front,
           LevelsOf, Best, SelfTrade, Crosses, FillQty;
      ghost var m := Match(book.View(), o, stp, o.qty);
      ghost var left := book.Room().Shrunk(book.View(), m.view);
      ghost var gone: seq<Rec>, events: nat := [], 0;
      var other := o.side.Opposite();
      remaining, fills, pulled, stopped := o.qty, [], 0, false;
      NoFillQty();
      while remaining > 0 && !book.Empty(other)
        invariant Underway(m, left, o, remaining, fills, gone, events) && pulled == |gone| && !stopped
        invariant stats == Counted(old(stats), fills, events)
        decreases |book.View()|, remaining
      {
        if !Crosses(o, book.BestOf(other)) {
          break;
        }
        var r := TakeFront(o, m, left, remaining, fills, gone, events);
        if SelfTrade(stp, o, r.owner) {
          var took, stop := PreventSelfTrade(o, r, remaining, m, left, fills, gone, events);
          events := events + 1;
          if took {
            pulled := pulled + 1;
            gone := gone + [r];
          }
          if stop {
            stopped := true;
            break;
          }
        } else {
          var traded := Hit(o, r, remaining, m, left, fills, gone, events);
          FillQtySnoc(fills, FillOf(o, r, traded));
          fills := fills + [FillOf(o, r, traded)];
          remaining := remaining - traded;
        }
      }
      if !stopped {
        MatchIdle(book.View(), o, stp, remaining);
        NotShrunk(book.Room(), book.View());
      }
    }

    method Cancel(ref: OrderRef)
      requires book.Valid() && this !in book.Repr() && Has(book.View(), ref)
      modifies this`stats, book.Repr()
      ensures book.Valid() && book.View() == NaiveSpec.Remove(old(book.View()), ref)
      ensures stats == old(stats).(cancelled := old(stats).cancelled + 1)
      ensures book.Room() == old(book.Room()).Shrunk(old(book.View()), book.View())
    {
      hide AnyBook.Valid, AnyBook.Room, BookRoom.Shrunk, Has, IndexOf, Reduce;
      book.Remove(ref);
      stats := stats.(cancelled := stats.cancelled + 1);
    }

    method SetStpMode(mode: StpMode)
      modifies this`stp
      ensures stp == mode
    {
      stp := mode;
    }

    ghost function Now(): Desk
      reads this`nextRef, this`stp, book.Repr()
    {
      Desk(book.View(), nextRef, stp)
    }

    /** One action on any book, whoever has put the orders there. */
    method Perform(a: Action)
      requires book.Valid() && this !in book.Repr() && IsBook(Now().view) && Permits(Now(), a) &&
               ActFits(book.Room(), Now(), a)
      modifies this, book.Repr()
      ensures book.Valid() && IsBook(old(Now()).view) && Now() == Act(old(Now()), a) && IsBook(Now().view)
      ensures book.Room() == RoomActed(old(book.Room()), old(Now()), a)
    {
      hide AnyBook.Valid, AnyBook.Room, BookRoom.Shrunk, Match, Met, Has, IndexOf, Reduce, IsBook, Refs, Crossed,
           RestFits, RoomSettled;
      ActKeeps(Now(), a);
      match a {
        case Submit(o) =>
          var report, fills := Submit(o, []);
        case Withdraw(ref) =>
          Cancel(ref);
        case SetMode(mode) =>
          SetStpMode(mode);
      }
    }

    /** A whole run on any book: it goes where the pure run goes, and if the book was uncrossed it still is. */
    method PerformAll(run: seq<Action>)
      requires book.Valid() && this !in book.Repr() && IsBook(Now().view) && PermitsAll(Now(), run) &&
               AllFit(book.Room(), Now(), run)
      modifies this, book.Repr()
      ensures book.Valid() && IsBook(old(Now()).view) && PermitsAll(old(Now()), run)
      ensures Now() == RunAll(old(Now()), run)
      ensures (forall b, a :: b in old(book.View()) && a in old(book.View()) && b.side == Buy && a.side == Sell ==>
                b.price < a.price) ==>
                forall b, a :: b in book.View() && a in book.View() && b.side == Buy && a.side == Sell ==>
                  b.price < a.price
    {
      hide AnyBook.Valid, AnyBook.Room, Permits, Asks, ActFits, Act, RoomActed, Crossed, IsBook;
      ghost var d := Now();
      for i := 0 to |run|
        invariant book.Valid() && IsBook(Now().view)
        invariant PermitsAll(Now(), run[i..]) && AllFit(book.Room(), Now(), run[i..])
        invariant RunAll(Now(), run[i..]) == RunAll(d, run)
      {
        assert run[i..][0] == run[i] && run[i..][1..] == run[i + 1..];
        Perform(run[i]);
      }
      assert run[|run|..] == [];
      if forall b, a :: b in d.view && a in d.view && b.side == Buy && a.side == Sell ==> b.price < a.price {
        NeverCrossed(d, run);
      }
    }
  }

  /** The statistics follow the reports: each submission counts once, under its outcome. */
  lemma StatsFollowReport(st: EngineStats, v: Orders, o: NewOrder, stp: StpMode, ref: OrderRef)
    requires IsBook(v)
    ensures var m := Match(v, o, stp, o.qty); var rep, t := ReportOf(m, o, ref), StatsAfter(st, m, o);
            && t.submitted == st.submitted + 1 && t.fills == st.fills + |m.fills|
            && t.filledQty == st.filledQty + rep.filled
            && t.rested == st.rested + (if rep.outcome == Rested then 1 else 0)
            && t.cancelled == st.cancelled + (if rep.outcome == Cancelled || rep.outcome == StpRejected then 1 else 0)
            && t.stpEvents == st.stpEvents + rep.stpCancelledResting +
                              (if m.stopped && stp == CancelNewest then 1 else 0)
  {
    hide Match, IsBook, FillQty;
    Outcomes(v, o, stp, ref);
    OwnOrdersOnly(v, o, stp);
  }

  function Counted(st: EngineStats, fills: seq<Fill>, events: nat): EngineStats {
    st.(fills := st.fills + |fills|, filledQty := st.filledQty + FillQty(fills), stpEvents := st.stpEvents + events)
  }

  lemma NoFillQty()
    ensures FillQty([]) == 0
  {
  }
}
