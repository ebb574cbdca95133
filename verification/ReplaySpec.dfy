/**
 A replay as a function of the messages: the list of orders they leave, the quantities they promise, and the words the
 journal is fed. No book implementation and no run-time knob occurs here.
 */
module ReplaySpec {
  import opened Core
  import opened NaiveSpec
  import opened BookCounts
  import opened BookRooms
  import opened BookRuns
  import opened Digests
  import opened BookFeeds

  /** The messages a book builder handles, by their ITCH type: R, A, F, E, C, X, D, U, P, Q and B. */
  datatype Message =
    | StockDirectory(ts: Timestamp, locate: u16, stock: string)
    | AddOrder(ts: Timestamp, locate: u16, ref: OrderRef, indicator: char, shares: Qty, price: Price)
    | AddOrderWithMpid(ts: Timestamp, locate: u16, ref: OrderRef, indicator: char, shares: Qty, price: Price)
    | OrderExecuted(ts: Timestamp, locate: u16, ref: OrderRef, shares: Qty)
    | OrderExecutedWithPrice(ts: Timestamp, locate: u16, ref: OrderRef, shares: Qty, printPrice: Price)
    | OrderCancel(ts: Timestamp, locate: u16, ref: OrderRef, shares: Qty)
    | OrderDelete(ts: Timestamp, locate: u16, ref: OrderRef)
    | OrderReplace(ts: Timestamp, locate: u16, oldRef: OrderRef, newRef: OrderRef, shares: Qty, price: Price)
    | TradeNonCross(ts: Timestamp, locate: u16)
    | CrossTrade(ts: Timestamp, locate: u16)
    | BrokenTrade(ts: Timestamp, locate: u16)

  datatype Option<T> = None | Some(value: T)

  function SideOf(indicator: char): Side {
    if indicator == 'B' then Buy else Sell
  }

  predicate ValidIndicator(m: Message) {
    m.AddOrder? || m.AddOrderWithMpid? ==> m.indicator == 'B' || m.indicator == 'S'
  }

  /** What a message does to the book. Trade reports do nothing: the executions behind them have already moved it. */
  function OpOf(m: Message): Option<Op> {
    match m
    case AddOrder(_, _, ref, indicator, shares, price) => Some(AddOp(ref, SideOf(indicator), price, shares, 0))
    case AddOrderWithMpid(_, _, ref, indicator, shares, price) => Some(AddOp(ref, SideOf(indicator), price, shares, 0))
    case OrderExecuted(_, _, ref, shares) => Some(ExecuteOp(ref, shares))
    case OrderExecutedWithPrice(_, _, ref, shares, _) => Some(ExecuteOp(ref, shares))
    case OrderCancel(_, _, ref, shares) => Some(CancelOp(ref, shares))
    case OrderDelete(_, _, ref) => Some(RemoveOp(ref))
    case OrderReplace(_, _, oldRef, newRef, shares, price) => Some(ReplaceOp(oldRef, newRef, price, shares))
    case _ => None
  }

  // Quantities promised by the messages

  function Raised(e: PerSide<nat>, s: Side, qty: Qty): PerSide<nat> {
    e.With(s, e.At(s) + qty)
  }

  function Lowered(e: PerSide<nat>, s: Side, qty: Qty): PerSide<nat>
    requires qty <= e.At(s)
  {
    e.With(s, e.At(s) - qty)
  }

  ghost predicate Conserved(e: PerSide<nat>, v: Orders) {
    forall s: Side :: e.At(s) == TotalQty(v, s)
  }

  /** How many shares op takes off its order, and from which side. */
  function Taken(v: Orders, op: Op): (Side, Qty)
    requires Legal(v, op) && !op.AddOp?
  {
    match op
    case CancelOp(ref, shares) => (Get(v, ref).side, shares)
    case ExecuteOp(ref, shares) => (Get(v, ref).side, shares)
    case RemoveOp(ref) => (Get(v, ref).side, Get(v, ref).qty)
    case ReplaceOp(oldRef, _, _, _) => (Get(v, oldRef).side, Get(v, oldRef).qty)
  }

  /** The subtraction never goes below zero. */
  lemma TakenCovered(e: PerSide<nat>, v: Orders, op: Op)
    requires Conserved(e, v) && Legal(v, op) && !op.AddOp?
    ensures Taken(v, op).1 <= e.At(Taken(v, op).0)
  {
    hide TotalQty, IndexOf, Reduce;
    match op
    case CancelOp(ref, shares) => ReduceTotal(v, ref, shares, Get(v, ref).side);
    case ExecuteOp(ref, shares) => ReduceTotal(v, ref, shares, Get(v, ref).side);
    case RemoveOp(ref) => ReduceTotal(v, ref, Get(v, ref).qty, Get(v, ref).side);
    case ReplaceOp(ref, _, _, _) => ReduceTotal(v, ref, Get(v, ref).qty, Get(v, ref).side);
  }

  /** The expected quantities after op, from the sides and shares the messages name. */
  function Expected(e: PerSide<nat>, v: Orders, op: Op): PerSide<nat>
    requires Conserved(e, v) && Legal(v, op)
  {
    if op.AddOp? then Raised(e, op.side, op.qty) else
      TakenCovered(e, v, op);
      var (s, qty) := Taken(v, op);
      var lowered := Lowered(e, s, qty);
      if op.ReplaceOp? then Raised(lowered, s, op.qty) else lowered
  }

  /** Conservation: what the messages promise is what rests, on each side. */
  lemma ExpectedConserved(e: PerSide<nat>, v: Orders, op: Op)
    requires Conserved(e, v) && Legal(v, op)
    ensures Conserved(Expected(e, v, op), Apply(v, op))
  {
    hide TotalQty, IndexOf, Reduce;
    forall s: Side ensures Expected(e, v, op).At(s) == TotalQty(Apply(v, op), s) {
      match op
      case AddOp(ref, side, price, qty, owner) => AddTotal(v, Rec(ref, side, price, qty, owner), s);
      case CancelOp(ref, shares) => ReduceTotal(v, ref, shares, s);
      case ExecuteOp(ref, shares) => ReduceTotal(v, ref, shares, s);
      case RemoveOp(ref) => ReduceTotal(v, ref, Get(v, ref).qty, s);
      case ReplaceOp(oldRef, newRef, price, qty) =>
        ReduceTotal(v, oldRef, Get(v, oldRef).qty, s);
        AddTotal(Remove(v, oldRef), Rec(newRef, Get(v, oldRef).side, price, qty, Get(v, oldRef).owner), s);
    }
  }

  // The journal

  const STRUCTURAL_INTERVAL: nat := 65536

  /** The named fields of one journal entry, in their fixed order. */
  function FieldWords(ts: Timestamp, bests: PerSide<Price>, st: BookStats): seq<Word> {
    [WordOf(ts), WordOf(bests.buy), WordOf(bests.sell), WordOf(st.totalQty.buy), WordOf(st.totalQty.sell),
     WordOf(st.levelCount.buy), WordOf(st.levelCount.sell), WordOf(st.orderCount)]
  }

  /** What the journal is fed after the n-th applied message. */
  function EntryWords(v: Orders, ts: Timestamp, n: nat): seq<Word> {
    FieldWords(ts, BestsOf(v), StatsOf(v)) + if n % STRUCTURAL_INTERVAL == 0 then [BookDigest(v)] else []
  }

  // Runs

  /** A replay in progress, seen from the messages: the list, the promised quantities, how many have applied, the
    journal. */
  datatype Tape = Tape(view: Orders, expected: PerSide<nat>, applied: nat, journal: seq<Word>, symbol: string,
      locate: u16, resolved: bool)

  function Blank(symbol: string): Tape {
    Tape([], PerSide(0, 0), 0, [], symbol, 0, false)
  }

  predicate Mine(t: Tape, m: Message) {
    t.resolved && m.locate == t.locate
  }

  predicate Applies(t: Tape, m: Message) {
    Mine(t, m) && OpOf(m).Some?
  }

  ghost predicate Running(t: Tape) {
    IsBook(t.view) && Conserved(t.expected, t.view)
  }

  /** A message the feed may send next: its order rests, or is new; and, strictly, it leaves the book uncrossed. */
  ghost predicate Follows(t: Tape, m: Message, strict: bool) {
    Applies(t, m) ==>
      ValidIndicator(m) && Legal(t.view, OpOf(m).value) && (strict ==> !Crossed(Apply(t.view, OpOf(m).value)))
  }

  /** The first directory message of the wanted symbol resolves its locate code; an empty symbol takes the first of
    all. */
  function Directory(t: Tape, m: Message): Tape
    requires m.StockDirectory?
  {
    if t.resolved || (t.symbol != "" && Trimmed(m.stock) != t.symbol) then t
    else t.(symbol := Trimmed(m.stock), locate := m.locate, resolved := true)
  }

  /** Symbols are padded on the right with spaces. */
  function Trimmed(s: string): string {
    if s != [] && s[|s| - 1] == ' ' then Trimmed(s[..|s| - 1]) else s
  }

  ghost function Next(t: Tape, m: Message): Tape
    requires Running(t) && Follows(t, m, false)
  {
    if m.StockDirectory? then Directory(t, m)
    else if !Applies(t, m) then t
    else
      var op := OpOf(m).value;
      var v := Apply(t.view, op);
      t.(view := v, expected := Expected(t.expected, t.view, op), applied := t.applied + 1,
         journal := t.journal + EntryWords(v, m.ts, t.applied + 1))
  }

  lemma NextRuns(t: Tape, m: Message)
    requires Running(t) && Follows(t, m, false)
    ensures Running(Next(t, m))
  {
    hide IsBook, Apply, Legal, Conserved, EntryWords, Trimmed;
    if Applies(t, m) && !m.StockDirectory? {
      ApplyIsBook(t.view, OpOf(m).value);
      ExpectedConserved(t.expected, t.view, OpOf(m).value);
    }
  }

  /** A stream the feed may send from here on. */
  ghost predicate Stream(t: Tape, ms: seq<Message>, strict: bool)
    requires Running(t)
    decreases |ms|
  {
    ms != [] ==> Follows(t, ms[0], strict) && (NextRuns(t, ms[0]); Stream(Next(t, ms[0]), ms[1..], strict))
  }

  /** The room a message needs and leaves. */
  ghost predicate MessageFits(room: BookRoom, t: Tape, m: Message)
    requires Follows(t, m, false)
  {
    Applies(t, m) ==> OpFits(room, t.view, OpOf(m).value)
  }

  ghost function RoomNext(room: BookRoom, t: Tape, m: Message): BookRoom
    requires Follows(t, m, false)
  {
    if Applies(t, m) then RoomAfter(room, t.view, OpOf(m).value) else room
  }

  /** ... and one that never asks a book for more room than it has. */
  ghost predicate StreamFits(room: BookRoom, t: Tape, ms: seq<Message>)
    requires Running(t)
    decreases |ms|
  {
    ms != [] && Follows(t, ms[0], false) ==>
      && MessageFits(room, t, ms[0])
      && (NextRuns(t, ms[0]); StreamFits(RoomNext(room, t, ms[0]), Next(t, ms[0]), ms[1..]))
  }

  /** Conservation over whole streams: at every point of every valid stream the promised quantities are the resting
    ones. */
  ghost function Played(t: Tape, ms: seq<Message>): (r: Tape)
    requires Running(t) && Stream(t, ms, false)
    ensures IsBook(r.view) && Conserved(r.expected, r.view)
    decreases |ms|
  {
    if ms == [] then t else
      NextRuns(t, ms[0]);
      Played(Next(t, ms[0]), ms[1..])
  }

  lemma {:induction false} StrictIsStream(t: Tape, ms: seq<Message>, strict: bool)
    requires Running(t) && Stream(t, ms, strict)
    ensures Stream(t, ms, false)
    decreases |ms|
  {
    hide Running, Next, Follows;
    if ms != [] {
      FollowsAnyhow(t, ms[0], strict);
      NextRuns(t, ms[0]);
      StrictIsStream(Next(t, ms[0]), ms[1..], strict);
    }
  }

  lemma FollowsAnyhow(t: Tape, m: Message, strict: bool)
    requires Follows(t, m, strict)
    ensures Follows(t, m, false)
  {
    hide Legal, Apply, Crossed;
  }

  lemma BlankRuns(symbol: string)
    ensures Running(Blank(symbol))
  {
    forall s: Side ensures PerSide(0, 0).At(s) == TotalQty([], s) {
    }
  }
}
