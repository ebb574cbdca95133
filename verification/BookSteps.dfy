/**
 The three updates of the book as steps between values: an order joins the back of a queue, an order shrinks where it
 stands, an order leaves. Each step keeps the representation of the list, which takes the same step.
 */
module BookSteps {
  import opened Core
  import opened Pools
  import opened NaiveSpec
  import opened BookInvariant

  type LevelKeys = map<Price, Handle>

  /** An empty book: no order, no level, nothing in the index. */
  lemma EmptyBook(os: OrderSlots, ls: LevelSlots)
    ensures Represents(os, ls, map[], map[], map[], [])
  {
    forall s, p ensures KeyOk(os, ls, map[], Pick(map[], map[], s), [], s, p) {
      QueueNil(s, p);
    }
  }

  // Joining

  /** A record that was free is now live at the back of a queue, and the former tail links to it. */
  ghost predicate Enqueued(os: OrderSlots, os': OrderSlots, oh: Handle, d: OrderData, tail: Handle) {
    && oh.index < |os| && !os[oh.index].Live() && LiveIn(os', oh) && os'[oh.index].data == d &&
    os'[oh.index].link == NULL
    && LiveKept(os, os', if tail == NULL then {} else {tail.index})
    && (tail != NULL ==> tail.index < |os| && os'[tail.index] == os[tail.index].(link := oh))
  }

  function NewLevel(p: Price): LevelData {
    LevelData(0, NULL, NULL, p, 0)
  }

  function Grown(d: LevelData, oh: Handle, qty: Qty): LevelData {
    LevelData(d.totalQty + qty, if d.tail == NULL then oh else d.head, oh, d.price, d.orderCount + 1)
  }

  /** The order records after oh has been given its level and hung behind the tail. */
  function Joined(os: OrderSlots, oh: Handle, lh: Handle, tail: Handle): OrderSlots
    requires oh.index < |os| && (tail != NULL ==> tail.index < |os|)
  {
    var os1 := if tail == NULL then os else os[tail.index := os[tail.index].(link := oh)];
    os1[oh.index := os1[oh.index].(data := os1[oh.index].data.(level := lh, prev := tail))]
  }

  lemma JoinedIsEnqueued(os: OrderSlots, os': OrderSlots, oh: Handle, d: OrderData, lh: Handle, tail: Handle)
    requires oh.index < |os| && !os[oh.index].Live() && oh.gen % 2 == 1
    requires tail != NULL ==> LiveIn(os, tail)
    requires os' == Joined(os[oh.index := Slot(d, NULL, oh.gen)], oh, lh, tail)
    ensures Enqueued(os, os', oh, d.(level := lh, prev := tail), tail)
  {
  }

  /** The level record an order at this side and price joins: the one the map names, or a blank one. */
  ghost function LevelBefore(ls: LevelSlots, m: LevelKeys, p: Price, lh: Handle): LevelData
    requires p in m ==> lh.index < |ls|
  {
    if p in m then ls[lh.index].data else NewLevel(p)
  }

  ghost predicate LevelChosen(ls: LevelSlots, m: LevelKeys, p: Price, lh: Handle) {
    if p in m then lh == m[p] && lh.index < |ls| else lh.index < |ls| && !ls[lh.index].Live()
  }

  /** What a level record says of its queue, and that its tail is a live order of that queue. */
  lemma LevelSays(os: OrderSlots, ls: LevelSlots, idx: Index, bids: LevelKeys, asks: LevelKeys, v: Orders, s: Side,
      p: Price, lh: Handle)
    requires Represents(os, ls, idx, bids, asks, v) && |os| <= MAX_CAPACITY
    requires LevelChosen(ls, Pick(bids, asks, s), p, lh)
    ensures var q, d, m := Queue(v, s, p), LevelBefore(ls, Pick(bids, asks, s), p, lh), Pick(bids, asks, s);
            && Queued(os, idx, q, lh) && Indexed(idx, q) && (q != [] <==> p in m) &&
            (q != [] ==> Headed(ls, idx, q, p, lh))
            && d.totalQty == Qtys(q) && d.orderCount == |q| && d.price == p
            && (if q == [] then d.head == d.tail == NULL else d.head == idx[q[0].ref] && d.tail == idx[q[|q| - 1].ref])
            && (q != [] ==>
                  LiveIn(os, d.tail) && d.tail != NULL &&
                  os[d.tail.index].data.side == s && os[d.tail.index].data.price == p)
            && (q != [] ==> LiveIn(os, d.head) && d.head != NULL && os[d.head.index].data.ref == q[0].ref)
  {
    hide Queue, IsBook, Apart, Refs, KeyOk;
    var q, m := Queue(v, s, p), Pick(bids, asks, s);
    KeyOf(os, ls, idx, bids, asks, v, s, p);
    QueueMembers(v, s, p);
    if q != [] {
      assert Linked(os, idx, q, |q| - 1, lh) && Linked(os, idx, q, 0, lh);
      assert q[|q| - 1] in q;
    }
  }

  lemma AddStep(os: OrderSlots, ls: LevelSlots, idx: Index, bids: LevelKeys, asks: LevelKeys, v: Orders,
                os': OrderSlots, ls': LevelSlots, bids': LevelKeys, asks': LevelKeys, r: Rec, oh: Handle, lh: Handle)
    requires Represents(os, ls, idx, bids, asks, v) && |os| <= MAX_CAPACITY
    requires r.ref !in idx && r.qty > 0
    requires LevelChosen(ls, Pick(bids, asks, r.side), r.price, lh)
    requires var d := LevelBefore(ls, Pick(bids, asks, r.side), r.price, lh);
             && LiveIn(ls', lh) && ls'[lh.index].data == Grown(d, oh, r.qty) && LevelsKept(ls, ls', lh.index)
             && Enqueued(os, os', oh, OrderData(r.ref, r.qty, r.price, d.tail, lh, r.side, r.owner), d.tail)
    requires Pick(bids', asks', r.side) == Pick(bids, asks, r.side)[r.price := lh]
    requires Pick(bids', asks', r.side.Opposite()) == Pick(bids, asks, r.side.Opposite())
    ensures Represents(os', ls', idx[r.ref := oh], bids', asks', Add(v, r))
  {
    hide Queue, IsBook, Apart, Refs, KeyOk, Queued, Headed, Represents, OrdersKept, DistinctRefs, Qtys;
    var s, p := r.side, r.price;
    var q, m, v', idx' := Queue(v, s, p), Pick(bids, asks, s), Add(v, r), idx[r.ref := oh];
    LevelSays(os, ls, idx, bids, asks, v, s, p, lh);
    AddedIsBook(os, ls, idx, bids, asks, v, r, oh);
    QueueConcat(v, [r], s, p);
    QueueOne(r, s, p);
    RepresentsParts(os, ls, idx, bids, asks, v);
    QueueDistinct(v, s, p);
    AppendQueued(os, os', idx, q, r, oh, lh);
    AppendHeaded(ls, ls', idx, q, r, oh, p, lh);
    AppendApart(os, ls, idx, bids, asks, v, bids', asks', s, p, lh);
    AppendOrdersKept(os, os', oh, LevelBefore(ls, m, p, lh).tail, os'[oh.index].data, s, p);
    KeyMade(os', ls', idx', Pick(bids', asks', s), v', s, p);
    forall s', p' | !(s' == s && p' == p) ensures Queue(v', s', p') == Queue(v, s', p') {
      QueueConcat(v, [r], s', p');
      QueueOne(r, s', p');
    }
    Rebuild(os, ls, idx, bids, asks, v, os', ls', idx', bids', asks', v', s, p, lh.index);
  }

  function Blank(r: Rec): OrderData {
    OrderData(r.ref, r.qty, r.price, NULL, NULL, r.side, r.owner)
  }

  /** A fresh record at oh holds r, and lh is the level it is to join, made and mapped if there was none. */
  ghost predicate Settled(os: OrderSlots, ls: LevelSlots, m: LevelKeys, os': OrderSlots, ls': LevelSlots,
      m': LevelKeys, r: Rec, oh: Handle, lh: Handle) {
    && oh.index < |os| && !os[oh.index].Live() && LiveIn(os', oh) && os' == os[oh.index := Slot(Blank(r), NULL, oh.gen)]
    && LevelChosen(ls, m, r.price, lh) && LiveIn(ls', lh) && LevelsKept(ls, ls', lh.index)
    && ls'[lh.index].data == LevelBefore(ls, m, r.price, lh) && m' == m[r.price := lh]
  }

  /** What the two records say before they are hung together. */
  lemma SettledSays(os: OrderSlots, ls: LevelSlots, idx: Index, bids: LevelKeys, asks: LevelKeys, v: Orders,
      os': OrderSlots, ls': LevelSlots, m': LevelKeys, r: Rec, oh: Handle, lh: Handle)
    requires Represents(os, ls, idx, bids, asks, v) && |os| <= MAX_CAPACITY
    requires Settled(os, ls, Pick(bids, asks, r.side), os', ls', m', r, oh, lh)
    ensures LiveIn(os', oh) && LiveIn(ls', lh) && os'[oh.index].link == NULL && os'[oh.index].data == Blank(r) &&
            oh != NULL
    ensures var d := ls'[lh.index].data;
            && (d.tail == NULL ==> d.head == NULL)
            && (d.tail != NULL ==> LiveIn(os', d.tail) && d.tail.index != oh.index)
  {
    hide Represents, Queued, Headed, Queue, Qtys;
    LevelSays(os, ls, idx, bids, asks, v, r.side, r.price, lh);
  }

  /** AddStep from what the book does: blank record, level record, then the two hung together. */
  lemma AdmitStep(os: OrderSlots, ls: LevelSlots, idx: Index, bids: LevelKeys, asks: LevelKeys, v: Orders,
                  os1: OrderSlots, ls1: LevelSlots, os': OrderSlots, ls': LevelSlots, bids': LevelKeys,
                  asks': LevelKeys, r: Rec, oh: Handle, lh: Handle)
    requires Represents(os, ls, idx, bids, asks, v) && |os| <= MAX_CAPACITY
    requires r.ref !in idx && r.qty > 0
    requires Settled(os, ls, Pick(bids, asks, r.side), os1, ls1, Pick(bids', asks', r.side), r, oh, lh)
    requires LiveIn(os1, oh) && LiveIn(ls1, lh)
    requires var d := ls1[lh.index].data;
             && (d.tail != NULL ==> d.tail.index < |os1|)
             && os' == Joined(os1, oh, lh, d.tail)
             && ls' == ls1[lh.index := ls1[lh.index].(data := Grown(d, oh, r.qty))]
    requires Pick(bids', asks', r.side.Opposite()) == Pick(bids, asks, r.side.Opposite())
    ensures Represents(os', ls', idx[r.ref := oh], bids', asks', Add(v, r))
  {
    hide Queue, IsBook, Apart, Refs, KeyOk, Queued, Headed, Represents, OrdersKept, DistinctRefs, Qtys, Joined,
         Enqueued;
    var d := LevelBefore(ls, Pick(bids, asks, r.side), r.price, lh);
    LevelSays(os, ls, idx, bids, asks, v, r.side, r.price, lh);
    JoinedIsEnqueued(os, os', oh, Blank(r), lh, d.tail);
    AddStep(os, ls, idx, bids, asks, v, os', ls', bids', asks', r, oh, lh);
  }

  lemma KeyMade(os: OrderSlots, ls: LevelSlots, idx: Index, m: LevelKeys, v: Orders, s: Side, p: Price)
    requires var q := Queue(v, s, p);
             && (p in m <==> q != [])
             && (p in m ==> Queued(os, idx, q, m[p]) && Headed(ls, idx, q, p, m[p]))
    ensures KeyOk(os, ls, idx, m, v, s, p)
  {
  }

  lemma RepresentsParts(os: OrderSlots, ls: LevelSlots, idx: Index, bids: LevelKeys, asks: LevelKeys, v: Orders)
    requires Represents(os, ls, idx, bids, asks, v)
    ensures IsBook(v) && DistinctRefs(v) && AllRest(v) && idx.Keys == Refs(v) && Apart(bids, asks)
  {
    hide KeyOk, Refs, Apart, DistinctRefs, AllRest;
  }

  lemma AddedIsBook(os: OrderSlots, ls: LevelSlots, idx: Index, bids: LevelKeys, asks: LevelKeys, v: Orders, r: Rec,
      oh: Handle)
    requires Represents(os, ls, idx, bids, asks, v) && r.ref !in idx && r.qty > 0
    ensures IsBook(Add(v, r)) && idx[r.ref := oh].Keys == Refs(Add(v, r))
  {
    hide KeyOk, Refs, Apart, DistinctRefs, AllRest, Has;
    HasIffIn(v, r.ref);
    AddIsBook(v, r);
    RefsConcat(v, [r]);
    RefsSmall([r]);
  }

  lemma AppendApart(os: OrderSlots, ls: LevelSlots, idx: Index, bids: LevelKeys, asks: LevelKeys, v: Orders,
                    bids': LevelKeys, asks': LevelKeys, s: Side, p: Price, lh: Handle)
    requires Represents(os, ls, idx, bids, asks, v) && LevelChosen(ls, Pick(bids, asks, s), p, lh)
    requires Pick(bids', asks', s) == Pick(bids, asks, s)[p := lh]
    requires Pick(bids', asks', s.Opposite()) == Pick(bids, asks, s.Opposite())
    ensures Apart(bids', asks') && KeysKept(bids, asks, bids', asks', s, p) &&
            LevelConcerned(ls, bids, asks, s, p, lh.index)
  {
    hide Queue, Refs, Queued, IsBook;
    var o := s.Opposite();
    forall q | q in Pick(bids, asks, o) ensures LiveIn(ls, Pick(bids, asks, o)[q]) {
      KeyOf(os, ls, idx, bids, asks, v, o, q);
    }
  }

  lemma AppendOrdersKept(os: OrderSlots, os': OrderSlots, oh: Handle, tail: Handle, d: OrderData, s: Side, p: Price)
    requires Enqueued(os, os', oh, d, tail)
    requires tail != NULL ==> os[tail.index].data.side == s && os[tail.index].data.price == p
    ensures OrdersKept(os, os', s, p)
  {
  }

  // Where a listed order stands

  function LastOf(idx: Index, pre: Orders): Handle
    requires pre != [] ==> pre[|pre| - 1].ref in idx
  {
    if pre == [] then NULL else idx[pre[|pre| - 1].ref]
  }

  function FirstOf(idx: Index, post: Orders): Handle
    requires post != [] ==> post[0].ref in idx
  {
    if post == [] then NULL else idx[post[0].ref]
  }

  /** Everything known about order ref, whose queue is pre + [r] + post under level record lh. */
  ghost predicate Stands(os: OrderSlots, ls: LevelSlots, idx: Index, pre: Orders, r: Rec, post: Orders, lh: Handle) {
    && DistinctRefs(pre + [r] + post) && Indexed(idx, pre) && Indexed(idx, post) && r.ref in idx
    && Queued(os, idx, pre + [r] + post, lh) && Headed(ls, idx, pre + [r] + post, r.price, lh)
  }

  lemma Whereabouts(os: OrderSlots, ls: LevelSlots, idx: Index, bids: LevelKeys, asks: LevelKeys, v: Orders,
      ref: OrderRef)
    requires Represents(os, ls, idx, bids, asks, v) && Has(v, ref)
    ensures var r, m := Get(v, ref), Pick(bids, asks, Get(v, ref).side);
            && r.price in m && r.qty > 0 && r.ref == ref
            && Queue(v, r.side, r.price) == Ahead(v, ref) + [r] + Behind(v, ref)
            && Stands(os, ls, idx, Ahead(v, ref), r, Behind(v, ref), m[r.price])
  {
    hide Queue, Apart, Refs, KeyOk, Linked, Headed, DistinctRefs, IndexOf;
    var i := IndexOf(v, ref);
    var r := v[i];
    var k := RecordOf(os, ls, idx, bids, asks, v, i);
    QueueOfReplaced(v, i, [], r.side, r.price);
    QueueDistinct(v, r.side, r.price);
    IndexedParts(idx, Ahead(v, ref), r, Behind(v, ref));
  }

  lemma IndexedParts(idx: Index, pre: Orders, r: Rec, post: Orders)
    requires Indexed(idx, pre + [r] + post)
    ensures Indexed(idx, pre) && Indexed(idx, post) && r.ref in idx
  {
    var q := pre + [r] + post;
    assert q[|pre|] == r;
    assert forall i :: 0 <= i < |pre| ==> pre[i] == q[i];
    assert forall i :: 0 <= i < |post| ==> post[i] == q[|pre| + 1 + i];
  }

  /** The record of an order that stands in its queue, and the two records it is linked to. */
  lemma RecordSays(os: OrderSlots, ls: LevelSlots, idx: Index, pre: Orders, r: Rec, post: Orders, lh: Handle)
    requires Stands(os, ls, idx, pre, r, post, lh) && |os| <= MAX_CAPACITY
    ensures var h, prev, next := idx[r.ref], LastOf(idx, pre), FirstOf(idx, post);
            && LiveIn(os, h) && os[h.index].data == OrderData(r.ref, r.qty, r.price, prev, lh, r.side, r.owner) &&
            os[h.index].link == next
            && (pre != [] ==> prev != NULL && LiveIn(os, prev) && prev.index != h.index)
            && (post != [] ==> next != NULL && LiveIn(os, next) && next.index != h.index)
            && (pre != [] && post != [] ==> prev.index != next.index)
  {
    hide DistinctRefs, Headed;
    var q, n := pre + [r] + post, |pre|;
    assert q[n] == r;
    assert Linked(os, idx, q, n, lh);
    if pre != [] {
      assert q[n - 1] == pre[n - 1];
      assert Linked(os, idx, q, n - 1, lh);
      SlotsDiffer(os, idx, q, lh, n - 1, n);
    }
    if post != [] {
      assert q[n + 1] == post[0];
      assert Linked(os, idx, q, n + 1, lh);
      SlotsDiffer(os, idx, q, lh, n + 1, n);
      if pre != [] { SlotsDiffer(os, idx, q, lh, n - 1, n + 1); }
    }
  }

  /** The level record over an order that stands in its queue. */
  lemma LevelOver(os: OrderSlots, ls: LevelSlots, idx: Index, pre: Orders, r: Rec, post: Orders, lh: Handle)
    requires Stands(os, ls, idx, pre, r, post, lh)
    ensures LiveIn(ls, lh)
    ensures var d := ls[lh.index].data;
            && d.totalQty == Qtys(pre + post) + r.qty && d.orderCount == |pre + post| + 1 && d.price == r.price
            && d.head == (if pre == [] then idx[r.ref] else idx[pre[0].ref])
            && d.tail == (if post == [] then idx[r.ref] else idx[post[|post| - 1].ref])
  {
    hide DistinctRefs, Queued, Qtys;
    var q := pre + [r] + post;
    QtysThree(pre, r, post);
    assert q[0] == if pre == [] then r else pre[0];
    assert q[|q| - 1] == if post == [] then r else post[|post| - 1];
  }

  // Shrinking and leaving

  lemma OneSlotOrdersKept(os: OrderSlots, os': OrderSlots, but: set<nat>, s: Side, p: Price)
    requires LiveKept(os, os', but)
    requires forall i :: i in but ==> i < |os| && os[i].data.side == s && os[i].data.price == p
    ensures OrdersKept(os, os', s, p)
  {
  }

  lemma ShrinkStep(os: OrderSlots, ls: LevelSlots, idx: Index, bids: LevelKeys, asks: LevelKeys, v: Orders,
                   os': OrderSlots, ls': LevelSlots, ref: OrderRef, shares: Qty, lh: Handle)
    requires Represents(os, ls, idx, bids, asks, v) && |os| <= MAX_CAPACITY && Has(v, ref) && shares < Get(v, ref).qty
    requires Get(v, ref).price in Pick(bids, asks, Get(v, ref).side) &&
             lh == Pick(bids, asks, Get(v, ref).side)[Get(v, ref).price]
    requires Stands(os, ls, idx, Ahead(v, ref), Get(v, ref), Behind(v, ref), lh)
    requires var h := idx[ref].index;
             h < |os| && os' == os[h := os[h].(data := os[h].data.(qty := Get(v, ref).qty - shares))]
    requires LiveIn(ls, lh) && ls[lh.index].data.totalQty >= shares &&
             var d := ls[lh.index].data;
             ls' == ls[lh.index := ls[lh.index].(data := d.(totalQty := d.totalQty - shares))]
    ensures Represents(os', ls', idx, bids, asks, Reduce(v, ref, shares))
  {
    hide Queue, IsBook, Apart, Refs, KeyOk, Queued, Headed, Represents, OrdersKept, DistinctRefs, Qtys, IndexOf,
         Reduce, Linked;
    var r, pre, post, v' := Get(v, ref), Ahead(v, ref), Behind(v, ref), Reduce(v, ref, shares);
    RepresentsParts(os, ls, idx, bids, asks, v);
    RecordSays(os, ls, idx, pre, r, post, lh);
    ReduceIsBook(v, ref, shares);
    ReplacedElsewhere(v, ref, shares);
    ShrinkQueued(os, os', idx, pre, r, post, r.qty - shares, lh);
    ShrinkHeaded(ls, ls', idx, pre, r, post, r.qty - shares, r.price, lh);
    OneSlotOrdersKept(os, os', {idx[ref].index}, r.side, r.price);
    KeyMade(os', ls', idx, Pick(bids, asks, r.side), v', r.side, r.price);
    Rebuild(os, ls, idx, bids, asks, v, os', ls', idx, bids, asks, v', r.side, r.price, lh.index);
  }

  function Ends(prev: Handle, next: Handle): set<nat> {
    (if prev == NULL then {} else {prev.index}) + (if next == NULL then {} else {next.index})
  }

  /** The record at h is gone from between prev and next, which are linked to each other. */
  ghost predicate Spliced(os: OrderSlots, os': OrderSlots, h: nat, prev: Handle, next: Handle) {
    && LiveKept(os, os', Ends(prev, next) + {h})
    && (prev != NULL ==> prev.index < |os| && os'[prev.index] == os[prev.index].(link := next))
    && (next != NULL ==>
          next.index < |os| && os'[next.index] == os[next.index].(data := os[next.index].data.(prev := prev)))
  }

  /** The order records after the neighbours of slot h have been linked to each other. */
  function Unlinked(os: OrderSlots, h: nat): OrderSlots
    requires h < |os|
    requires os[h].data.prev != NULL ==> os[h].data.prev.index < |os|
    requires os[h].link != NULL ==> os[h].link.index < |os|
  {
    var prev, next := os[h].data.prev, os[h].link;
    var os1 := if prev == NULL then os else os[prev.index := os[prev.index].(link := next)];
    if next == NULL then os1 else os1[next.index := os1[next.index].(data := os1[next.index].data.(prev := prev))]
  }

  /** The level record after the same. */
  function Shed(d: LevelData, prev: Handle, next: Handle): LevelData
    requires d.orderCount > 0
  {
    LevelData(d.totalQty, if prev == NULL then next else d.head, if next == NULL then prev else d.tail, d.price,
    d.orderCount - 1)
  }

  /** Unlinking slot h, once its quantity has been overwritten, and then freeing it. */
  lemma UnlinkedIsSpliced(os: OrderSlots, os': OrderSlots, h: nat, qty: Qty)
    requires h < |os| && var prev, next := os[h].data.prev, os[h].link;
             && (prev != NULL ==> LiveIn(os, prev) && prev.index != h) &&
             (next != NULL ==> LiveIn(os, next) && next.index != h)
             && (prev != NULL && next != NULL ==> prev.index != next.index)
    requires LiveKept(Unlinked(os[h := os[h].(data := os[h].data.(qty := qty))], h), os', {h})
    ensures Spliced(os, os', h, os[h].data.prev, os[h].link)
  {
  }

  /** An order leaves a queue that goes on. */
  lemma LeaveStep(os: OrderSlots, ls: LevelSlots, idx: Index, bids: LevelKeys, asks: LevelKeys, v: Orders,
                  os': OrderSlots, ls': LevelSlots, ref: OrderRef, lh: Handle)
    requires Represents(os, ls, idx, bids, asks, v) && |os| <= MAX_CAPACITY && Has(v, ref)
    requires Get(v, ref).price in Pick(bids, asks, Get(v, ref).side) &&
             lh == Pick(bids, asks, Get(v, ref).side)[Get(v, ref).price]
    requires Stands(os, ls, idx, Ahead(v, ref), Get(v, ref), Behind(v, ref), lh) && Ahead(v, ref) + Behind(v, ref) != []
    requires var h := idx[ref].index; h < |os| && Spliced(os, os', h, os[h].data.prev, os[h].link)
    requires LiveIn(ls, lh) && LiveIn(ls', lh) && LevelsKept(ls, ls', lh.index)
    requires var r, d, prev, next := Get(v, ref), ls[lh.index].data, os[idx[ref].index].data.prev,
             os[idx[ref].index].link;
             d.totalQty >= r.qty && d.orderCount > 0 &&
             ls'[lh.index].data == LevelData(d.totalQty - r.qty, if prev == NULL then next else d.head,
                                             if next == NULL then prev else d.tail, d.price, d.orderCount - 1)
    ensures Represents(os', ls', idx - {ref}, bids, asks, Remove(v, ref))
  {
    hide Queue, IsBook, Apart, Refs, KeyOk, Queued, Headed, Represents, OrdersKept, DistinctRefs, Qtys, IndexOf,
         Reduce, Linked;
    var r, pre, post, v' := Get(v, ref), Ahead(v, ref), Behind(v, ref), Remove(v, ref);
    RepresentsParts(os, ls, idx, bids, asks, v);
    RecordSays(os, ls, idx, pre, r, post, lh);
    AllAt(v, ref);
    NeighboursHere(os, ls, idx, pre, r, post, lh);
    ReduceIsBook(v, ref, r.qty);
    ReplacedElsewhere(v, ref, r.qty);
    assert pre + [] + post == pre + post;
    UnlinkQueued(os, os', idx, pre, r, post, lh);
    UnlinkHeaded(ls, ls', idx, pre, r, post, r.price, lh);
    OneSlotOrdersKept(os, os', Neighbours(idx, pre, post) + {idx[ref].index}, r.side, r.price);
    KeyMade(os', ls', idx - {ref}, Pick(bids, asks, r.side), v', r.side, r.price);
    Rebuild(os, ls, idx, bids, asks, v, os', ls', idx - {ref}, bids, asks, v', r.side, r.price, lh.index);
  }

  lemma AllAt(v: Orders, ref: OrderRef)
    requires Has(v, ref)
    ensures forall i :: 0 <= i < |Ahead(v, ref)| ==> Ahead(v, ref)[i].At(Get(v, ref).side, Get(v, ref).price)
    ensures forall i :: 0 <= i < |Behind(v, ref)| ==> Behind(v, ref)[i].At(Get(v, ref).side, Get(v, ref).price)
  {
    hide Queue, IndexOf;
    QueueMembers(v[..IndexOf(v, ref)], Get(v, ref).side, Get(v, ref).price);
    QueueMembers(v[IndexOf(v, ref) + 1..], Get(v, ref).side, Get(v, ref).price);
  }

  lemma NeighboursHere(os: OrderSlots, ls: LevelSlots, idx: Index, pre: Orders, r: Rec, post: Orders, lh: Handle)
    requires Stands(os, ls, idx, pre, r, post, lh)
    requires forall i :: 0 <= i < |pre| ==> pre[i].At(r.side, r.price)
    requires forall i :: 0 <= i < |post| ==> post[i].At(r.side, r.price)
    ensures forall i :: i in Neighbours(idx, pre, post) ==>
              i < |os| && os[i].data.side == r.side && os[i].data.price == r.price
  {
    hide DistinctRefs, Headed;
    var q, n := pre + [r] + post, |pre|;
    if pre != [] {
      assert q[n - 1] == pre[n - 1] && Linked(os, idx, q, n - 1, lh);
    }
    if post != [] {
      assert q[n + 1] == post[0] && Linked(os, idx, q, n + 1, lh);
    }
  }

  /** The last order of a level leaves, and the level with it. */
  lemma ClearStep(os: OrderSlots, ls: LevelSlots, idx: Index, bids: LevelKeys, asks: LevelKeys, v: Orders,
                  os': OrderSlots, ls': LevelSlots, bids': LevelKeys, asks': LevelKeys, ref: OrderRef, lh: Handle)
    requires Represents(os, ls, idx, bids, asks, v) && |os| <= MAX_CAPACITY && Has(v, ref)
    requires Get(v, ref).price in Pick(bids, asks, Get(v, ref).side) &&
             lh == Pick(bids, asks, Get(v, ref).side)[Get(v, ref).price]
    requires Stands(os, ls, idx, Ahead(v, ref), Get(v, ref), Behind(v, ref), lh) && Ahead(v, ref) + Behind(v, ref) == []
    requires var h := idx[ref].index; h < |os| && LiveKept(os, os', {h}) && LevelsKept(ls, ls', lh.index)
    requires var r := Get(v, ref);
             && Pick(bids', asks', r.side) == Pick(bids, asks, r.side) - {r.price}
             && Pick(bids', asks', r.side.Opposite()) == Pick(bids, asks, r.side.Opposite())
    ensures Represents(os', ls', idx - {ref}, bids', asks', Remove(v, ref))
  {
    hide Queue, IsBook, Refs, KeyOk, Queued, Headed, Represents, OrdersKept, DistinctRefs, Qtys, IndexOf,
         Reduce,
         Linked;
    var r, v' := Get(v, ref), Remove(v, ref);
    RepresentsParts(os, ls, idx, bids, asks, v);
    RecordSays(os, ls, idx, Ahead(v, ref), r, Behind(v, ref), lh);
    ReduceIsBook(v, ref, r.qty);
    ReplacedElsewhere(v, ref, r.qty);
    OneSlotOrdersKept(os, os', {idx[ref].index}, r.side, r.price);
    KeyMade(os', ls', idx - {ref}, Pick(bids', asks', r.side), v', r.side, r.price);
    Rebuild(os, ls, idx, bids, asks, v, os', ls', idx - {ref}, bids', asks', v', r.side, r.price, lh.index);
  }

  // The same from what the book does: shrink the order and its level record, unlink, then free

  /** The order records once the quantity at slot h has been overwritten. */
  function Resized(os: OrderSlots, h: nat, qty: Qty): OrderSlots
    requires h < |os|
  {
    os[h := os[h].(data := os[h].data.(qty := qty))]
  }

  function Lightened(ls: LevelSlots, l: nat, shares: Qty): LevelSlots
    requires l < |ls| && shares <= ls[l].data.totalQty
  {
    ls[l := ls[l].(data := ls[l].data.(totalQty := ls[l].data.totalQty - shares))]
  }

  /** Where order ref's records are, in the terms of a book that represents v. */
  ghost predicate Found(os: OrderSlots, ls: LevelSlots, idx: Index, bids: LevelKeys, asks: LevelKeys, v: Orders,
      ref: OrderRef,
                        oh: Handle, lh: Handle) {
    && Has(v, ref) && |os| <= MAX_CAPACITY && Represents(os, ls, idx, bids, asks, v)
    && ref in idx && oh == idx[ref]
    && Get(v, ref).price in Pick(bids, asks, Get(v, ref).side) &&
    lh == Pick(bids, asks, Get(v, ref).side)[Get(v, ref).price]
  }

  /** What the two records of a listed order say, before anything is done to them. */
  ghost predicate Standing(os: OrderSlots, ls: LevelSlots, v: Orders, ref: OrderRef, oh: Handle, lh: Handle)
    requires Has(v, ref)
  {
    LiveIn(os, oh) && LiveIn(ls, lh) &&
    var r, o, d := Get(v, ref), os[oh.index], ls[lh.index].data;
    && r.ref == ref && o.data == OrderData(ref, r.qty, r.price, o.data.prev, lh, r.side, r.owner)
    && (o.data.prev != NULL ==> LiveIn(os, o.data.prev) && o.data.prev.index != oh.index)
    && (o.link != NULL ==> LiveIn(os, o.link) && o.link.index != oh.index)
    && (o.data.prev != NULL && o.link != NULL ==> o.data.prev.index != o.link.index)
    && d.totalQty >= r.qty > 0 && d.orderCount > 0
    && (d.orderCount == 1 <==> Ahead(v, ref) + Behind(v, ref) == [])
    && (d.orderCount == 1 ==> d.totalQty == r.qty && d.head == d.tail == oh && o.data.prev == o.link == NULL)
  }

  lemma FoundSays(os: OrderSlots, ls: LevelSlots, idx: Index, bids: LevelKeys, asks: LevelKeys, v: Orders,
      ref: OrderRef)
    requires Has(v, ref) && |os| <= MAX_CAPACITY && Represents(os, ls, idx, bids, asks, v)
    ensures var r := Get(v, ref);
            && ref in idx && r.price in Pick(bids, asks, r.side)
            && Found(os, ls, idx, bids, asks, v, ref, idx[ref], Pick(bids, asks, r.side)[r.price])
            && Standing(os, ls, v, ref, idx[ref], Pick(bids, asks, r.side)[r.price])
  {
    hide Queue, Apart, Refs, KeyOk, Queued, Headed, DistinctRefs, IndexOf, Represents, Qtys, Ahead, Behind;
    Whereabouts(os, ls, idx, bids, asks, v, ref);
    var r, pre, post := Get(v, ref), Ahead(v, ref), Behind(v, ref);
    var lh := Pick(bids, asks, r.side)[r.price];
    RecordSays(os, ls, idx, pre, r, post, lh);
    LevelOver(os, ls, idx, pre, r, post, lh);
    if pre + post == [] {
      assert pre == [] && post == [];
      NoQtys(pre + post);
    }
  }

  lemma DwindleStep(os: OrderSlots, ls: LevelSlots, idx: Index, bids: LevelKeys, asks: LevelKeys, v: Orders,
      ref: OrderRef,
                    oh: Handle, lh: Handle, shares: Qty)
    requires Found(os, ls, idx, bids, asks, v, ref, oh, lh) && shares < Get(v, ref).qty
    requires oh.index < |os| && lh.index < |ls| && shares <= ls[lh.index].data.totalQty
    ensures Represents(Resized(os, oh.index, Get(v, ref).qty - shares), Lightened(ls, lh.index, shares), idx, bids,
            asks, Reduce(v, ref, shares))
  {
    hide Queue, IsBook, Apart, Refs, KeyOk, Queued, Headed, Represents, DistinctRefs, Qtys, IndexOf, Reduce;
    Whereabouts(os, ls, idx, bids, asks, v, ref);
    LevelOver(os, ls, idx, Ahead(v, ref), Get(v, ref), Behind(v, ref), lh);
    ShrinkStep(os, ls, idx, bids, asks, v, Resized(os, oh.index, Get(v, ref).qty - shares),
        Lightened(ls, lh.index, shares), ref, shares, lh);
  }

  /** The order records may differ from the unlinked ones only in slots that are not live, and at the slot freed. */
  lemma DepartStep(os: OrderSlots, ls: LevelSlots, idx: Index, bids: LevelKeys, asks: LevelKeys, v: Orders,
      ref: OrderRef,
                   oh: Handle, lh: Handle, os': OrderSlots, ls': LevelSlots)
    requires Found(os, ls, idx, bids, asks, v, ref, oh, lh) && Ahead(v, ref) + Behind(v, ref) != []
    requires LiveIn(os, oh) && LiveIn(ls, lh) && ls[lh.index].data.totalQty >= Get(v, ref).qty &&
             ls[lh.index].data.orderCount > 0
    requires var o := os[oh.index];
             && (o.data.prev != NULL ==> LiveIn(os, o.data.prev)) && (o.link != NULL ==> LiveIn(os, o.link))
             && LiveKept(Unlinked(Resized(os, oh.index, 0), oh.index), os', {oh.index})
    requires var ls1 := Lightened(ls, lh.index, Get(v, ref).qty);
             var shed := Shed(ls1[lh.index].data, os[oh.index].data.prev, os[oh.index].link);
             ls' == ls1[lh.index := ls1[lh.index].(data := shed)]
    ensures Represents(os', ls', idx - {ref}, bids, asks, Remove(v, ref))
  {
    hide Queue, IsBook, Apart, Refs, KeyOk, Queued, Headed, Represents, DistinctRefs, Qtys, IndexOf, Reduce,
         Unlinked,
         LiveKept;
    Whereabouts(os, ls, idx, bids, asks, v, ref);
    RecordSays(os, ls, idx, Ahead(v, ref), Get(v, ref), Behind(v, ref), lh);
    UnlinkedIsSpliced(os, os', oh.index, 0);
    LeaveStep(os, ls, idx, bids, asks, v, os', ls', ref, lh);
  }

  lemma CloseStep(os: OrderSlots, ls: LevelSlots, idx: Index, bids: LevelKeys, asks: LevelKeys, v: Orders,
      ref: OrderRef,
                  oh: Handle, lh: Handle, os': OrderSlots, ls': LevelSlots, bids': LevelKeys, asks': LevelKeys)
    requires Found(os, ls, idx, bids, asks, v, ref, oh, lh) && Ahead(v, ref) + Behind(v, ref) == []
    requires LiveIn(os, oh) && LiveKept(os, os', {oh.index}) && LevelsKept(ls, ls', lh.index)
    requires var r := Get(v, ref);
             && Pick(bids', asks', r.side) == Pick(bids, asks, r.side) - {r.price}
             && Pick(bids', asks', r.side.Opposite()) == Pick(bids, asks, r.side.Opposite())
    ensures Represents(os', ls', idx - {ref}, bids', asks', Remove(v, ref))
  {
    hide Queue, IsBook, Apart, Refs, KeyOk, Queued, Headed, Represents, DistinctRefs, Qtys, IndexOf, Reduce,
         LiveKept,
         LevelsKept, Ahead, Behind;
    Whereabouts(os, ls, idx, bids, asks, v, ref);
    ClearStep(os, ls, idx, bids, asks, v, os', ls', bids', asks', ref, lh);
  }
}
