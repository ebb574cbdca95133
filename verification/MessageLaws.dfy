/** What each message does to the list of resting orders and to the rest of a replay, message by message. */
module MessageLaws {
  import opened Core
  import opened NaiveSpec
  import opened PriceSets
  import opened BookCounts
  import opened BookRuns
  import opened Digests
  import opened BookFeeds
  import opened ReplaySpec

  /** A book message of the security that the replay follows. */
  ghost predicate Handled(t: Tape, m: Message) {
    Running(t) && Follows(t, m, false) && t.resolved && m.locate == t.locate
  }

  /** An add with 'B' joins the back of the buy queue at its price, one with 'S' that of the sell queue. */
  lemma AddLaw(t: Tape, m: Message)
    requires Handled(t, m) && (m.AddOrder? || m.AddOrderWithMpid?)
    ensures m.indicator == 'B' || m.indicator == 'S'
    ensures var v, w := t.view, Next(t, m).view;
            && (m.indicator == 'B' ==> Joins(v, w, Rec(m.ref, Buy, m.price, m.shares, 0)))
            && (m.indicator == 'S' ==> Joins(v, w, Rec(m.ref, Sell, m.price, m.shares, 0)))
  {
    hide Queue, EntryWords, Expected;
    var r := Rec(m.ref, if m.indicator == 'B' then Buy else Sell, m.price, m.shares, 0);
    JoinsBack(t.view, r);
  }

  /** The order r stands last in its queue, and no other queue is touched. */
  ghost predicate Joins(v: Orders, w: Orders, r: Rec) {
    && w == v + [r]
    && Queue(w, r.side, r.price) == Queue(v, r.side, r.price) + [r]
    && forall s, p :: s != r.side || p != r.price ==> Queue(w, s, p) == Queue(v, s, p)
  }

  lemma JoinsBack(v: Orders, r: Rec)
    ensures Joins(v, v + [r], r)
  {
    hide Queue;
    forall s, p ensures Queue(v + [r], s, p) == Queue(v, s, p) + if s == r.side && p == r.price then [r] else [] {
      QueueConcat(v, [r], s, p);
      QueueOne(r, s, p);
    }
  }

  /** Executions and cancels take exactly their shares off their order where it stands; at zero it is gone. */
  lemma ReduceLaw(t: Tape, m: Message) returns (i: nat)
    requires Handled(t, m)
    requires m.OrderExecuted? || m.OrderExecutedWithPrice? || m.OrderCancel?
    ensures i < |t.view| && t.view[i].ref == m.ref && m.shares <= t.view[i].qty
    ensures var v, left := t.view, t.view[i].qty - m.shares;
            Next(t, m).view == v[..i] + (if left == 0 then [] else [v[i].(qty := left)]) + v[i + 1..]
  {
    hide EntryWords, Expected, IndexOf;
    i := IndexOf(t.view, m.ref);
  }

  /** A delete removes its order and nothing else. */
  lemma DeleteLaw(t: Tape, m: Message) returns (i: nat)
    requires Handled(t, m) && m.OrderDelete?
    ensures i < |t.view| && t.view[i].ref == m.ref
    ensures Next(t, m).view == t.view[..i] + t.view[i + 1..]
  {
    hide EntryWords, Expected, IndexOf;
    i := IndexOf(t.view, m.ref);
    assert t.view[..i] + [] == t.view[..i];
  }

  /** A replace removes its order, and puts the new one last at the new price on the same side. */
  lemma ReplaceLaw(t: Tape, m: Message) returns (i: nat)
    requires Handled(t, m) && m.OrderReplace?
    ensures i < |t.view| && t.view[i].ref == m.oldRef
    ensures var v := t.view;
            Joins(v[..i] + v[i + 1..], Next(t, m).view, Rec(m.newRef, v[i].side, m.price, m.shares, v[i].owner))
  {
    hide EntryWords, Expected, IndexOf, Joins;
    i := IndexOf(t.view, m.oldRef);
    var v := t.view;
    assert v[..i] + [] == v[..i];
    JoinsBack(v[..i] + v[i + 1..], Rec(m.newRef, v[i].side, m.price, m.shares, v[i].owner));
  }

  /** Every other message leaves the list and the journal alone, and so does one of another security. */
  lemma OtherLaw(t: Tape, m: Message)
    requires Running(t) && Follows(t, m, false)
    requires m.StockDirectory? || m.TradeNonCross? || m.CrossTrade? || m.BrokenTrade? || !t.resolved ||
             m.locate != t.locate
    ensures var u := Next(t, m);
            u.view == t.view && u.expected == t.expected && u.applied == t.applied && u.journal == t.journal
    ensures !m.StockDirectory? ==> Next(t, m) == t
  {
    hide Trimmed, Running, Legal, Apply, Crossed, EntryWords, Expected;
  }

  /** A directory message resolves the security once: the first of all if none is asked for, or of its name. */
  lemma DirectoryLaw(t: Tape, m: Message)
    requires Running(t) && Follows(t, m, false) && m.StockDirectory?
    ensures t.resolved ==> Next(t, m) == t
    ensures !t.resolved && (t.symbol == "" || t.symbol == Trimmed(m.stock)) ==>
              Next(t, m) == t.(symbol := Trimmed(m.stock), locate := m.locate, resolved := true)
    ensures !t.resolved && t.symbol != "" && t.symbol != Trimmed(m.stock) ==> Next(t, m) == t
  {
    hide Trimmed;
  }

  /** Trimming takes off exactly the spaces at the end. */
  lemma {:induction false} TrimmedExactly(s: string)
    ensures var r := Trimmed(s);
            && r <= s && (forall i :: |r| <= i < |s| ==> s[i] == ' ')
            && (r == [] || r[|r| - 1] != ' ')
  {
    if s != [] && s[|s| - 1] == ' ' {
      TrimmedExactly(s[..|s| - 1]);
    }
  }

  // What the feed may send

  /** What a valid stream must respect, message by message; in a strict replay no result is crossed besides. */
  lemma FollowsExactly(t: Tape, m: Message)
    requires Running(t) && t.resolved && m.locate == t.locate
    ensures m.AddOrder? || m.AddOrderWithMpid? ==>
              (Follows(t, m, false) <==>
               (m.indicator == 'B' || m.indicator == 'S') && m.shares > 0 &&
               forall r :: r in t.view ==> r.ref != m.ref)
    ensures m.OrderExecuted? || m.OrderExecutedWithPrice? || m.OrderCancel? ==>
              (Follows(t, m, false) <==> exists r :: r in t.view && r.ref == m.ref && m.shares <= r.qty)
    ensures m.OrderDelete? ==> (Follows(t, m, false) <==> exists r :: r in t.view && r.ref == m.ref)
    ensures m.OrderReplace? ==>
              (Follows(t, m, false) <==>
               m.shares > 0 && (exists r :: r in t.view && r.ref == m.oldRef) &&
               forall r :: r in t.view && r.ref != m.oldRef ==> r.ref != m.newRef)
    ensures m.StockDirectory? || m.TradeNonCross? || m.CrossTrade? || m.BrokenTrade? ==> Follows(t, m, false)
    ensures Follows(t, m, true) <==>
              Follows(t, m, false) &&
              (m.StockDirectory? || m.TradeNonCross? || m.CrossTrade? || m.BrokenTrade? || !Crossed(Next(t, m).view))
  {
    hide IndexOf, Has, Reduce, Crossed, Conserved, EntryWords, Expected;
    forall ref, r | r in t.view && r.ref == ref ensures Has(t.view, ref) && Get(t.view, ref) == r {
      var i :| 0 <= i < |t.view| && t.view[i] == r;
      IndexOfDistinct(t.view, i);
    }
    forall ref | Has(t.view, ref) ensures Get(t.view, ref) in t.view && Get(t.view, ref).ref == ref {
      Listed(t.view, ref);
    }
    if m.OrderReplace? && Has(t.view, m.oldRef) {
      HasAfterRemove(t.view, m.oldRef, m.newRef);
    }
  }

  lemma Listed(v: Orders, ref: OrderRef)
    requires Has(v, ref)
    ensures Get(v, ref) in v && Get(v, ref).ref == ref
  {
    hide IndexOf;
  }

  lemma HasAfterRemove(v: Orders, ref: OrderRef, other: OrderRef)
    requires IsBook(v) && Has(v, ref)
    ensures Has(Remove(v, ref), other) <==> exists r :: r in v && r.ref == other && r.ref != ref
  {
    hide IndexOf, IsBook, Has, Reduce, Refs;
    ReduceIsBook(v, ref, Get(v, ref).qty);
    HasIffIn(Remove(v, ref), other);
    RefsOfMembers(v, other);
  }

  lemma RefsOfMembers(v: Orders, ref: OrderRef)
    ensures ref in Refs(v) <==> exists r :: r in v && r.ref == ref
  {
    if r :| r in v && r.ref == ref {
      var i :| 0 <= i < |v| && v[i] == r;
    }
  }

  // What is counted and journalled

  /** A handled message that moves the book counts once, and one entry is written; what is expected is what rests. */
  lemma EntryLaw(t: Tape, m: Message)
    requires Handled(t, m)
    requires !(m.StockDirectory? || m.TradeNonCross? || m.CrossTrade? || m.BrokenTrade?)
    ensures var u := Next(t, m);
            && u.applied == t.applied + 1
            && u.expected == PerSide(TotalQty(u.view, Buy), TotalQty(u.view, Sell))
            && u.journal == t.journal + EntryWords(u.view, m.ts, u.applied)
  {
    hide TotalQty, Apply, Legal, EntryWords, Conserved, IsBook;
    NextRuns(t, m);
    ExpectedIsResting(Next(t, m).expected, Next(t, m).view);
  }

  lemma ExpectedIsResting(e: PerSide<nat>, v: Orders)
    requires Conserved(e, v)
    ensures e == PerSide(TotalQty(v, Buy), TotalQty(v, Sell))
  {
    hide TotalQty;
    assert e.At(Buy) == TotalQty(v, Buy) && e.At(Sell) == TotalQty(v, Sell);
  }

  /** The fields of an entry, and the digest of the whole book after every 65536th message. */
  lemma EntryFields(v: Orders, ts: Timestamp, n: nat)
    ensures var e := EntryWords(v, ts, n);
            && |e| == (if n % 65536 == 0 then 9 else 8)
            && e[0] == WordOf(ts)
            && e[1] == WordOf(Best(Buy, Prices(v, Buy))) && e[2] == WordOf(Best(Sell, Prices(v, Sell)))
            && e[3] == WordOf(TotalQty(v, Buy)) && e[4] == WordOf(TotalQty(v, Sell))
            && e[5] == WordOf(|Prices(v, Buy)|) && e[6] == WordOf(|Prices(v, Sell)|) && e[7] == WordOf(|v|)
            && (n % 65536 == 0 ==> e[8] == BookDigest(v))
  {
    hide WordOf, Prices, Best, TotalQty, BookDigest;
  }

  /** Equal entries mean equal times, best prices, totals and counts, as long as the totals fit 64 bits. */
  lemma EntryTells(v: Orders, w: Orders, ts: Timestamp, us: Timestamp, n: nat)
    requires |v| < 0x1_0000_0000 && |w| < 0x1_0000_0000 && EntryWords(v, ts, n) == EntryWords(w, us, n)
    ensures ts == us && |v| == |w|
    ensures forall s: Side ::
              && Best(s, Prices(v, s)) == Best(s, Prices(w, s))
              && TotalQty(v, s) == TotalQty(w, s)
              && |Prices(v, s)| == |Prices(w, s)|
    ensures n % 65536 == 0 ==> BookDigest(v) == BookDigest(w)
  {
    hide WordOf, Prices, Best, TotalQty, BookDigest, EntryWords;
    EntryFields(v, ts, n);
    EntryFields(w, us, n);
    WordInjective(ts, us);
    WordInjective(|v|, |w|);
    forall s: Side
      ensures Best(s, Prices(v, s)) == Best(s, Prices(w, s)) && TotalQty(v, s) == TotalQty(w, s) &&
              |Prices(v, s)| == |Prices(w, s)|
    {
      CountsFit64(v, s);
      CountsFit64(w, s);
      assert s == Buy || s == Sell;
      WordInjective(Best(s, Prices(v, s)), Best(s, Prices(w, s)));
      WordInjective(TotalQty(v, s), TotalQty(w, s));
      WordInjective(|Prices(v, s)|, |Prices(w, s)|);
    }
  }

  lemma CountsFit64(v: Orders, s: Side)
    requires |v| < 0x1_0000_0000
    ensures TotalQty(v, s) < 0x1_0000_0000_0000_0000 && |Prices(v, s)| < 0x1_0000_0000
  {
    hide Prices, OnSide, Qtys;
    OnSideShort(v, s);
    QtysBound(OnSide(v, s));
    PricesFew(v, s);
  }
}
