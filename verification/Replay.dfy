/** The replay driver: message handlers over any book, and the observer that checks conservation and feeds the
  journal. */
module Replays {
  import opened Core
  import opened NaiveSpec
  import opened PriceSets
  import opened BookCounts
  import opened BookRuns
  import opened AnyBooks
  import opened Digests
  import opened BookFeeds
  import opened ReplaySpec

  // The canonical fold over a book

  method FeedRefs(d: Digest, refs: seq<OrderRef>)
    modifies d
    ensures d.h == FeedAll(old(d.h), RefWords(refs))
  {
    hide FeedOne, WordOf;
    for i := 0 to |refs|
      invariant d.h == FeedAll(old(d.h), RefWords(refs[..i]))
    {
      FeedSnoc(old(d.h), RefWords(refs[..i]), WordOf(refs[i]));
      assert RefWords(refs[..i + 1]) == RefWords(refs[..i]) + [WordOf(refs[i])];
      d.Feed(WordOf(refs[i]));
    }
    assert refs[..|refs|] == refs;
  }

  lemma FeedSnoc(h: Word, xs: seq<Word>, x: Word)
    ensures FeedAll(h, xs + [x]) == FeedOne(FeedAll(h, xs), x)
  {
    hide FeedOne;
    assert (xs + [x])[..|xs|] == xs;
  }

  method FeedLevel(d: Digest, l: Level)
    modifies d
    ensures d.h == FeedAll(old(d.h), LevelWords(l))
  {
    hide FeedOne, FeedAll, WordOf;
    ghost var h := d.h;
    FeedThree(h, WordOf(l.price), WordOf(l.qty), WordOf(l.orders));
    d.Feed(WordOf(l.price));
    d.Feed(WordOf(l.qty));
    d.Feed(WordOf(l.orders));
    FeedConcat(h, [WordOf(l.price), WordOf(l.qty), WordOf(l.orders)], RefWords(l.refs));
    FeedRefs(d, l.refs);
  }

  lemma FeedThree(h: Word, x: Word, y: Word, z: Word)
    ensures FeedAll(h, [x, y, z]) == FeedOne(FeedOne(FeedOne(h, x), y), z)
  {
    hide FeedOne;
    FeedSnoc(h, [x, y], z);
    FeedSnoc(h, [x], y);
    FeedSnoc(h, [], x);
    assert [x, y] + [z] == [x, y, z] && [x] + [y] == [x, y] && [] + [x] == [x];
  }

  method FeedLevels(d: Digest, ls: seq<Level>)
    modifies d
    ensures d.h == FeedAll(old(d.h), LevelsWords(ls))
  {
    hide FeedOne, LevelWords;
    for i := 0 to |ls|
      invariant d.h == FeedAll(old(d.h), LevelsWords(ls[..i]))
    {
      assert ls[..i + 1][..i] == ls[..i];
      FeedConcat(old(d.h), LevelsWords(ls[..i]), LevelWords(ls[i]));
      FeedLevel(d, ls[i]);
    }
    assert ls[..|ls|] == ls;
  }

  method FeedSide(d: Digest, book: AnyBook, s: Side)
    requires book.Valid() && d !in book.Repr()
    modifies d
    ensures book.Valid() && book.View() == old(book.View())
    ensures d.h == FeedAll(old(d.h), SideWords(book.View(), s))
  {
    hide AnyBook.Valid, FeedOne, FeedAll, WordOf, LevelsWords, Levels;
    assert forall b :: b in book.Repr() ==> allocated(b);
    var head := WordOf(if s.Buy? then 0 else 1);
    SideFed(d.h, head, Levels(book.View(), s));
    d.Feed(head);
    var ls := book.ForEachLevel(s);
    FeedLevels(d, ls);
    d.Feed(SIDE_END);
  }

  lemma SideFed(h: Word, head: Word, ls: seq<Level>)
    ensures FeedAll(h, [head] + LevelsWords(ls) + [SIDE_END]) == FeedOne(FeedAll(FeedOne(h, head), LevelsWords(ls)),
            SIDE_END)
  {
    hide FeedOne, LevelsWords;
    FeedSnoc(h, [], head);
    assert [] + [head] == [head];
    FeedConcat(h, [head], LevelsWords(ls));
    FeedSnoc(h, [head] + LevelsWords(ls), SIDE_END);
  }

  /** Feeds a book's full state into a digest of its own: the two sides, the levels inside out, the queues by
    priority. */
  method BookDigestOf(book: AnyBook) returns (w: Word)
    requires book.Valid()
    ensures book.Valid() && book.View() == old(book.View())
    ensures w == BookDigest(book.View())
  {
    hide AnyBook.Valid, FeedOne, FeedAll, SideWords;
    assert forall b :: b in book.Repr() ==> allocated(b);
    var d := new Digest();
    FeedNothing();
    FeedSide(d, book, Buy);
    FeedConcat(SEED, SideWords(book.View(), Buy), SideWords(book.View(), Sell));
    FeedSide(d, book, Sell);
    w := d.h;
  }

  lemma FeedNothing()
    ensures forall h :: FeedAll(h, []) == h
  {
  }

  // The observer

  datatype ReplayCounters = ReplayCounters(applied: nat, fullValidations: nat, crossedStates: nat, peakOrders: nat,
      peakLevels: nat,
                                           expected: PerSide<nat>)

  function Max(a: nat, b: nat): (m: nat)
    ensures m >= a && m >= b && (m == a || m == b)
  {
    if a > b then a else b
  }

  lemma StatsSay(v: Orders, e: PerSide<nat>)
    requires Conserved(e, v)
    ensures var st := StatsOf(v);
            st.orderCount == |v| && st.levelCount.buy + st.levelCount.sell == LevelsOf(v) &&
            st.totalQty.At(Buy) == e.At(Buy) && st.totalQty.At(Sell) == e.At(Sell)
  {
    hide TotalQty, Prices;
  }

  lemma QuotientStep(n: nat, k: nat)
    requires k > 0
    ensures (n + 1) / k == n / k + if (n + 1) % k == 0 then 1 else 0
  {
    var q, r := n / k, n % k;
    assert n == k * q + r;
    if r + 1 == k {
      assert n + 1 == k * (q + 1);
      Quotient(n + 1, k, q + 1, 0);
    } else {
      Quotient(n + 1, k, q, r + 1);
    }
  }

  lemma Quotient(n: nat, k: nat, q: nat, r: nat)
    requires r < k && n == k * q + r
    ensures n / k == q && n % k == r
  {
    var d := n / k - q;
    assert k * d == r - n % k;
    assert d >= 1 ==> k * d >= k;
    assert d <= -1 ==> k * d + k <= 0;
  }

  class ReplayObserver {
    const digest: Digest
    const validateEvery: nat
    const strict: bool
    var counters: ReplayCounters

    /** Every word fed so far. */
    ghost var journal: seq<Word>

    ghost predicate Fed()
      reads this`journal, digest
    {
      digest.h == FeedAll(SEED, journal)
    }

    /** The digest is that of the journal, and every validateEvery-th message has been checked in full. */
    ghost predicate Valid()
      reads this, digest
    {
      && Fed()
      && counters.fullValidations == Checks(counters.applied)
    }

    /** How many of n messages are checked in full. */
    ghost function Checks(n: nat): nat {
      if validateEvery == 0 then 0 else n / validateEvery
    }

    constructor (validateEvery: nat, strict: bool)
      ensures Valid() && fresh(digest) && journal == [] && this.validateEvery == validateEvery && this.strict == strict
      ensures counters == ReplayCounters(0, 0, 0, 0, 0, PerSide(0, 0))
    {
      this.validateEvery := validateEvery;
      this.strict := strict;
      digest := new Digest();
      counters := ReplayCounters(0, 0, 0, 0, 0, PerSide(0, 0));
      journal := [];
    }

    method BeforeAdd(side: Side, qty: Qty)
      modifies this`counters
      ensures counters == old(counters).(expected := Raised(old(counters).expected, side, qty))
    {
      counters := counters.(expected := Raised(counters.expected, side, qty));
    }

    /** The requires is the observer's own assertion: no more is ever removed than was added. */
    method NoteReduction(side: Side, qty: Qty)
      requires qty <= counters.expected.At(side)
      modifies this`counters
      ensures counters == old(counters).(expected := Lowered(old(counters).expected, side, qty))
    {
      counters := counters.(expected := Lowered(counters.expected, side, qty));
    }

    /** Is the full structural check due after the n-th applied message? */
    predicate Due(n: nat) {
      validateEvery != 0 && n % validateEvery == 0
    }

    lemma DueCounts(n: nat)
      ensures Checks(n + 1) == Checks(n) + if Due(n + 1) then 1 else 0
    {
      if validateEvery != 0 {
        QuotientStep(n, validateEvery);
      }
    }

    method AfterApply(book: AnyBook, ts: Timestamp)
      requires Valid() && book.Valid() && this !in book.Repr() && digest !in book.Repr()
      requires strict ==> !Crossed(book.View())
      requires Conserved(counters.expected, book.View())
      modifies this, digest
      ensures Valid() && book.Valid() && book.View() == old(book.View()) && book.Room() == old(book.Room())
      ensures journal == old(journal) + EntryWords(book.View(), ts, old(counters.applied) + 1)
      ensures var v, c := book.View(), old(counters);
              counters == ReplayCounters(c.applied + 1,
                                         c.fullValidations + (if Due(c.applied + 1) then 1 else 0),
                                         c.crossedStates + (if Crossed(v) then 1 else 0),
                                         Max(|v|, c.peakOrders), Max(LevelsOf(v), c.peakLevels), c.expected)
    {
      hide AnyBook.Valid, Fed, Checks, FeedOne, FeedAll, WordOf, Prices, Best, TotalQty, BookDigest, StatsOf, LevelsOf,
           Conserved, EntryWords, Due, AnyBook.Empty, AnyBook.BestOf, AnyBook.Stats;
      StatsSay(book.View(), counters.expected);
      DueCounts(counters.applied);
      counters := counters.(applied := counters.applied + 1);
      var bid, ask, st := book.BestOf(Buy), book.BestOf(Sell), book.Stats();
      var crossed := !book.Empty(Buy) && !book.Empty(Sell) && bid >= ask;
      assert st.totalQty.At(Buy) == counters.expected.At(Buy) && st.totalQty.At(Sell) == counters.expected.At(Sell);
      NoteState(crossed, st);
      FeedEntry(book, ts, bid, ask, st);
      if Due(counters.applied) {
        counters := counters.(fullValidations := counters.fullValidations + 1);
      }
    }

    method NoteState(crossed: bool, st: BookStats)
      requires strict ==> !crossed
      modifies this`counters
      ensures var c := old(counters);
              counters == c.(crossedStates := c.crossedStates + (if crossed then 1 else 0),
              peakOrders := Max(st.orderCount, c.peakOrders),
                             peakLevels := Max(st.levelCount.buy + st.levelCount.sell, c.peakLevels))
    {
      if crossed {
        counters := counters.(crossedStates := counters.crossedStates + 1);
        assert !strict;
      }
      counters := counters.(peakOrders := Max(st.orderCount, counters.peakOrders));
      counters := counters.(peakLevels := Max(st.levelCount.buy + st.levelCount.sell, counters.peakLevels));
    }

    /** The journal entry: named fields in a fixed order, and now and then the whole book. */
    method FeedEntry(book: AnyBook, ts: Timestamp, bid: Price, ask: Price, st: BookStats)
      requires Fed() && book.Valid() && this !in book.Repr() && digest !in book.Repr()
      requires st == StatsOf(book.View()) && bid == BestsOf(book.View()).buy && ask == BestsOf(book.View()).sell
      modifies digest, this`journal
      ensures Fed() && book.Valid() && book.View() == old(book.View()) && book.Room() == old(book.Room())
      ensures journal == old(journal) + EntryWords(book.View(), ts, counters.applied)
    {
      hide AnyBook.Valid, FeedOne, FeedAll, FieldWords, StatsOf, BestsOf, BookDigest;
      var fields := FieldWords(ts, PerSide(bid, ask), st);
      if counters.applied % STRUCTURAL_INTERVAL == 0 {
        var w := BookDigestOf(book);
        fields := fields + [w];
      } else {
        assert fields + [] == fields;
      }
      FeedWords(fields);
    }

    method FeedWords(xs: seq<Word>)
      requires Fed()
      modifies digest, this`journal
      ensures Fed() && journal == old(journal) + xs
    {
      hide Fed;
      for i := 0 to |xs|
        invariant Fed() && journal == old(journal) + xs[..i]
      {
        FeedWord(xs[i]);
        assert xs[..i + 1] == xs[..i] + [xs[i]];
      }
      assert xs[..|xs|] == xs;
    }

    method FeedWord(x: Word)
      requires Fed()
      modifies digest, this`journal
      ensures Fed() && journal == old(journal) + [x]
    {
      hide FeedOne, FeedAll;
      FeedSnoc(SEED, journal, x);
      digest.Feed(x);
      journal := journal + [x];
    }
  }

  // The builder

  datatype BuilderStats = BuilderStats(messages: nat, applied: nat, adds: nat, executions: nat, cancels: nat,
      deletes: nat, replaced: nat,
                                       executedShares: nat, tradesIgnored: nat, crossesIgnored: nat,
                                       firstTs: Timestamp, lastTs: Timestamp)

  const NO_STATS: BuilderStats := BuilderStats(0, 0, 0, 0, 0, 0, 0, 0, 0, 0, 0, 0)

  function Seen(st: BuilderStats, ts: Timestamp): BuilderStats {
    st.(messages := st.messages + 1, firstTs := if st.messages == 0 then ts else st.firstTs, lastTs := ts)
  }

  function CountedAs(st: BuilderStats, m: Message): BuilderStats {
    match m
    case StockDirectory(_, _, _) => st
    case AddOrder(_, _, _, _, _, _) => st.(adds := st.adds + 1, applied := st.applied + 1)
    case AddOrderWithMpid(_, _, _, _, _, _) => st.(adds := st.adds + 1, applied := st.applied + 1)
    case OrderExecuted(_, _, _, shares) =>
      st.(executions := st.executions + 1, executedShares := st.executedShares + shares, applied := st.applied + 1)
    case OrderExecutedWithPrice(_, _, _, shares, _) =>
      st.(executions := st.executions + 1, executedShares := st.executedShares + shares, applied := st.applied + 1)
    case OrderCancel(_, _, _, _) => st.(cancels := st.cancels + 1, applied := st.applied + 1)
    case OrderDelete(_, _, _) => st.(deletes := st.deletes + 1, applied := st.applied + 1)
    case OrderReplace(_, _, _, _, _, _) => st.(replaced := st.replaced + 1, applied := st.applied + 1)
    case TradeNonCross(_, _) => st.(tradesIgnored := st.tradesIgnored + 1)
    case CrossTrade(_, _) => st.(crossesIgnored := st.crossesIgnored + 1)
    case BrokenTrade(_, _) => st.(tradesIgnored := st.tradesIgnored + 1)
  }

  /** Every message counts in one way, and the applied ones are those that move the book. */
  lemma CountsOnce(st: BuilderStats, m: Message)
    ensures var u := CountedAs(st, m);
            && u.messages == st.messages && u.firstTs == st.firstTs && u.lastTs == st.lastTs
            && u.adds == st.adds + (if m.AddOrder? || m.AddOrderWithMpid? then 1 else 0)
            && u.executions == st.executions + (if m.OrderExecuted? || m.OrderExecutedWithPrice? then 1 else 0)
            && u.executedShares ==
               st.executedShares + (if m.OrderExecuted? || m.OrderExecutedWithPrice? then m.shares else 0)
            && u.cancels == st.cancels + (if m.OrderCancel? then 1 else 0)
            && u.deletes == st.deletes + (if m.OrderDelete? then 1 else 0)
            && u.replaced == st.replaced + (if m.OrderReplace? then 1 else 0)
            && u.tradesIgnored == st.tradesIgnored + (if m.TradeNonCross? || m.BrokenTrade? then 1 else 0)
            && u.crossesIgnored == st.crossesIgnored + (if m.CrossTrade? then 1 else 0)
            && u.applied - st.applied ==
               u.adds - st.adds + u.executions - st.executions + u.cancels - st.cancels + u.deletes - st.deletes +
               u.replaced - st.replaced
  {
  }

  class BookBuilder {
    const book: AnyBook
    const observer: ReplayObserver
    var symbol: string
    var locate: u16
    var resolved: bool
    var stats: BuilderStats

    ghost function Repr(): set<object> {
      {this, observer, observer.digest} + book.Repr()
    }

    ghost predicate Valid()
      reads Repr()
    {
      && {this, observer, observer.digest} !! book.Repr() && (this as object) != observer
      && book.Valid() && observer.Valid()
      && Conserved(observer.counters.expected, book.View())
    }

    /** The replay so far, as the messages alone determine it. */
    ghost function Now(): Tape
      reads Repr()
    {
      Tape(book.View(), observer.counters.expected, observer.counters.applied, observer.journal, symbol, locate,
      resolved)
    }

    constructor (book: AnyBook, symbol: string, observer: ReplayObserver)
      requires book.Valid() && book.View() == [] && observer.Valid() && {observer, observer.digest} !! book.Repr()
      requires observer.journal == [] && observer.counters == ReplayCounters(0, 0, 0, 0, 0, PerSide(0, 0))
      ensures this.book == book && this.observer == observer
      ensures Valid() && Now() == Blank(symbol) && stats == NO_STATS
    {
      hide AnyBook.Valid, ReplayObserver.Valid;
      this.book := book;
      this.observer := observer;
      this.symbol := symbol;
      locate := 0;
      resolved := false;
      stats := NO_STATS;
      new;
      BlankRuns(symbol);
    }

    lemma NowRuns()
      requires Valid()
      ensures Running(Now())
    {
      hide AnyBook.Valid, ReplayObserver.Valid, Conserved;
      book.ViewIsBook();
    }

    /** One message. Anything but a book message of the followed security leaves the book and the journal alone. */
    method On(m: Message)
      requires Valid() && Follows(Now(), m, observer.strict) && Follows(Now(), m, false)
      requires MessageFits(book.Room(), Now(), m)
      modifies Repr()
      ensures book.Room() == RoomNext(old(book.Room()), old(Now()), m)
      ensures Valid() && Running(old(Now())) && Now() == Next(old(Now()), m)
      ensures var seen := Seen(old(stats), m.ts); stats == if Mine(old(Now()), m) then CountedAs(seen, m) else seen
    {
      hide AnyBook.Valid, AnyBook.Room, ReplayObserver.Valid, Conserved, Legal, Apply, OpFits, RoomAfter, Crossed,
           EntryWords, Expected, Trimmed;
      NowRuns();
      stats := Seen(stats, m.ts);
      if m.StockDirectory? {
        if !resolved && (symbol == "" || Trimmed(m.stock) == symbol) {
          symbol := Trimmed(m.stock);
          locate := m.locate;
          resolved := true;
        }
      } else if resolved && m.locate == locate {
        stats := CountedAs(stats, m);
        var op := OpOf(m);
        if op.Some? {
          Handle(op.value, m.ts);
        }
      }
    }

    /** A whole stream. Where it ends depends on the messages alone: not on the book, nor on how often it is
      validated. */
    method Play(ms: seq<Message>)
      requires Valid() && Running(Now()) && Stream(Now(), ms, observer.strict) && StreamFits(book.Room(), Now(), ms)
      modifies Repr()
      ensures Valid() && Running(old(Now())) && Stream(old(Now()), ms, false) && Now() == Played(old(Now()), ms)
      ensures observer.digest.h == FeedAll(SEED, Now().journal)
      ensures stats.messages == old(stats).messages + |ms|
      ensures ms != [] ==> stats.lastTs == ms[|ms| - 1].ts && (old(stats).messages == 0 ==> stats.firstTs == ms[0].ts)
    {
      hide AnyBook.Valid, AnyBook.Room, Conserved, Running, Follows, Next, Applies, MessageFits, RoomNext, FeedAll, Now,
           Mine, CountedAs;
      StrictIsStream(Now(), ms, observer.strict);
      ghost var t := Now();
      for i := 0 to |ms|
        invariant Valid() && Running(Now()) && Stream(Now(), ms[i..], observer.strict) &&
                  StreamFits(book.Room(), Now(), ms[i..])
        invariant Stream(Now(), ms[i..], false) && Played(Now(), ms[i..]) == Played(t, ms)
        invariant stats.messages == old(stats).messages + i
        invariant i > 0 ==> stats.lastTs == ms[i - 1].ts && (old(stats).messages == 0 ==> stats.firstTs == ms[0].ts)
      {
        assert ms[i..][0] == ms[i] && ms[i..][1..] == ms[i + 1..];
        FollowsAnyhow(Now(), ms[i], observer.strict);
        NextRuns(Now(), ms[i]);
        NowIs();
        CountsOnce(Seen(stats, ms[i].ts), ms[i]);
        On(ms[i]);
      }
      NowIs();
      assert ms[|ms|..] == [];
    }

    lemma Exists()
      ensures (forall o :: o in Repr() ==> allocated(o)) && book.Repr() <= Repr()
    {
    }

    lemma NowIs()
      requires Valid()
      ensures Now().view == book.View() && Now().journal == observer.journal &&
              observer.digest.h == FeedAll(SEED, observer.journal)
    {
      hide AnyBook.Valid, Conserved, FeedAll;
    }

    /** The shared shape of the book handlers: tell the observer the quantities, move the book, journal the result. */
    method Handle(op: Op, ts: Timestamp)
      requires Valid() && Legal(book.View(), op) && OpFits(book.Room(), book.View(), op)
      requires observer.strict ==> !Crossed(Apply(book.View(), op))
      modifies observer, observer.digest, book.Repr()
      ensures Valid()
      ensures book.View() == Apply(old(book.View()), op)
      ensures book.Room() == RoomAfter(old(book.Room()), old(book.View()), op)
      ensures observer.counters.expected == Expected(old(observer.counters.expected), old(book.View()), op)
      ensures observer.counters.applied == old(observer.counters.applied) + 1
      ensures observer.journal == old(observer.journal) + EntryWords(book.View(), ts, observer.counters.applied)
    {
      hide AnyBook.Valid, AnyBook.Room, ReplayObserver.Valid, Conserved, Apply, OpFits, RoomAfter, Crossed, EntryWords,
           Has, IndexOf;
      ExpectedConserved(observer.counters.expected, book.View(), op);
      Note(op);
      Do(book, op);
      observer.AfterApply(book, ts);
    }

    method Note(op: Op)
      requires Valid() && Legal(book.View(), op)
      modifies observer`counters
      ensures book.Valid() && observer.Valid() && book.View() == old(book.View()) && book.Room() == old(book.Room())
      ensures observer.counters == old(observer.counters).(expected := Expected(old(observer.counters).expected,
              book.View(), op))
    {
      hide AnyBook.Valid, AnyBook.Room, Conserved, FeedAll, Has, IndexOf, Reduce;
      assert forall b :: b in book.Repr() ==> allocated(b);
      if op.AddOp? {
        observer.BeforeAdd(op.side, op.qty);
      } else {
        TakenCovered(observer.counters.expected, book.View(), op);
        var ref := if op.ReplaceOp? then op.oldRef else op.ref;
        var r := book.Lookup(ref);
        observer.NoteReduction(r.side, if op.RemoveOp? || op.ReplaceOp? then r.qty else op.shares);
        if op.ReplaceOp? {
          observer.BeforeAdd(r.side, op.qty);
        }
      }
    }
  }

  /** The journal digest is the same for any two books, any two validation intervals, and a strict or a lenient
    observer. */
  method PlayBoth(a: BookBuilder, b: BookBuilder, ms: seq<Message>)
    requires a.Valid() && b.Valid() && a.Repr() !! b.Repr() && a.Now() == b.Now() && Running(a.Now())
    requires Stream(a.Now(), ms, a.observer.strict) && Stream(b.Now(), ms, b.observer.strict)
    requires StreamFits(a.book.Room(), a.Now(), ms) && StreamFits(b.book.Room(), b.Now(), ms)
    modifies a.Repr(), b.Repr()
    ensures a.Valid() && b.Valid() && a.Now() == b.Now()
    ensures a.observer.digest.h == b.observer.digest.h
    ensures a.book.View() == b.book.View()
  {
    hide BookBuilder.Valid, BookBuilder.Now, BookBuilder.Repr, Running, Stream, StreamFits, Played, FeedAll,
         AnyBook.Room;
    a.Exists();
    b.Exists();
    a.Play(ms);
    b.Play(ms);
    a.NowIs();
    b.NowIs();
  }
}
