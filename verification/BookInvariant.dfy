/**
 What it means for the pooled records, the order index and the two price maps to represent a list of orders, and why
 each elementary update of those structures represents the corresponding update of the list. No heap here: every
 statement is about values.
 */
module BookInvariant {
  import opened Core
  import opened Pools
  import opened NaiveSpec

  /** An order record. Its forward queue link is the link of the pool slot that stores it. */
  datatype OrderData = OrderData(ref: OrderRef, qty: Qty, price: Price, prev: Handle, level: Handle, side: Side,
      owner: Owner)

  datatype LevelData = LevelData(totalQty: nat, head: Handle, tail: Handle, price: Price, orderCount: nat)

  type OrderSlots = seq<Slot<OrderData>>
  type LevelSlots = seq<Slot<LevelData>>
  type Index = map<OrderRef, Handle>

  // One queue

  function Prev(idx: Index, q: Orders, i: nat): Handle
    requires i < |q| && (i > 0 ==> q[i - 1].ref in idx)
  {
    if i == 0 then NULL else idx[q[i - 1].ref]
  }

  function Next(idx: Index, q: Orders, i: nat): Handle
    requires i < |q| && (i + 1 < |q| ==> q[i + 1].ref in idx)
  {
    if i + 1 == |q| then NULL else idx[q[i + 1].ref]
  }

  ghost predicate Indexed(idx: Index, q: Orders) {
    forall i :: 0 <= i < |q| ==> q[i].ref in idx
  }

  /** The i-th order of the queue is live in its slot, says what the list says, and links to its two neighbours. */
  ghost predicate Linked(os: OrderSlots, idx: Index, q: Orders, i: nat, level: Handle)
    requires i < |q| && Indexed(idx, q)
  {
    var h := idx[q[i].ref];
    LiveIn(os, h) &&
    os[h.index].data == OrderData(q[i].ref, q[i].qty, q[i].price, Prev(idx, q, i), level, q[i].side, q[i].owner) &&
    os[h.index].link == Next(idx, q, i)
  }

  ghost predicate Queued(os: OrderSlots, idx: Index, q: Orders, level: Handle) {
    Indexed(idx, q) && forall i :: 0 <= i < |q| ==> Linked(os, idx, q, i, level)
  }

  /** The level record: head and tail of the queue, and its sums. */
  ghost predicate Headed(ls: LevelSlots, idx: Index, q: Orders, p: Price, level: Handle) {
    && q != [] && Indexed(idx, q) && LiveIn(ls, level)
    && ls[level.index].data == LevelData(Qtys(q), idx[q[0].ref], idx[q[|q| - 1].ref], p, |q|)
  }

  // The whole book

  ghost predicate KeyOk(os: OrderSlots, ls: LevelSlots, idx: Index, m: map<Price, Handle>, v: Orders, s: Side,
      p: Price) {
    var q := Queue(v, s, p);
    && (p in m <==> q != [])
    && (p in m ==> Queued(os, idx, q, m[p]) && Headed(ls, idx, q, p, m[p]))
  }

  function Pick(bids: map<Price, Handle>, asks: map<Price, Handle>, s: Side): map<Price, Handle> {
    if s.Buy? then bids else asks
  }

  ghost predicate Apart(bids: map<Price, Handle>, asks: map<Price, Handle>) {
    forall p, q :: p in bids && q in asks ==> bids[p].index != asks[q].index
  }

  /**
   The structural invariant. Every listed order is in exactly one queue, at its own side and price, in order of
   arrival, doubly linked; the index names exactly the listed orders; the maps name exactly the occupied levels.
   */
  ghost predicate Represents(os: OrderSlots, ls: LevelSlots, idx: Index,
                             bids: map<Price, Handle>, asks: map<Price, Handle>, v: Orders) {
    && IsBook(v)
    && idx.Keys == Refs(v)
    && Apart(bids, asks)
    && forall s, p :: KeyOk(os, ls, idx, Pick(bids, asks, s), v, s, p)
  }

  // Consequences

  lemma KeyOf(os: OrderSlots, ls: LevelSlots, idx: Index, bids: map<Price, Handle>, asks: map<Price, Handle>,
      v: Orders, s: Side, p: Price)
    requires Represents(os, ls, idx, bids, asks, v)
    ensures var m := Pick(bids, asks, s); var q := Queue(v, s, p);
            (p in m <==> q != []) && (p in m ==> Queued(os, idx, q, m[p]) && Headed(ls, idx, q, p, m[p]))
  {
    hide Queued, Headed, Queue, IsBook, Apart, Refs;
    assert KeyOk(os, ls, idx, Pick(bids, asks, s), v, s, p);
  }

  /** The record behind a listed order's handle. */
  lemma RecordOf(os: OrderSlots, ls: LevelSlots, idx: Index, bids: map<Price, Handle>, asks: map<Price, Handle>,
      v: Orders, k: nat)
    returns (i: nat)
    requires Represents(os, ls, idx, bids, asks, v) && k < |v|
    ensures var r := v[k]; var q := Queue(v, r.side, r.price); var m := Pick(bids, asks, r.side);
            r.ref in idx && r.price in m && i < |q| && q[i] == r &&
            Queued(os, idx, q, m[r.price]) && Headed(ls, idx, q, r.price, m[r.price]) &&
            Linked(os, idx, q, i, m[r.price])
  {
    hide Headed, Queue, IsBook, Apart, Linked;
    var r := v[k];
    var q := Queue(v, r.side, r.price);
    QueueMembers(v, r.side, r.price);
    assert r in v;
    i :| 0 <= i < |q| && q[i] == r;
    KeyOf(os, ls, idx, bids, asks, v, r.side, r.price);
    assert r.ref in Refs(v);
  }

  /** A live level record belongs to one side and one price only. */
  lemma LevelOwner(os: OrderSlots, ls: LevelSlots, idx: Index, bids: map<Price, Handle>, asks: map<Price, Handle>,
      v: Orders,
                   s: Side, p: Price, s': Side, p': Price)
    requires Represents(os, ls, idx, bids, asks, v)
    requires p in Pick(bids, asks, s) && p' in Pick(bids, asks, s')
    requires Pick(bids, asks, s)[p].index == Pick(bids, asks, s')[p'].index
    ensures s == s' && p == p'
  {
    hide Queued, Queue, IsBook, Refs;
    KeyOf(os, ls, idx, bids, asks, v, s, p);
    KeyOf(os, ls, idx, bids, asks, v, s', p');
  }

  // Queues that an update does not concern

  /** Live records of other sides or prices are as they were. */
  ghost predicate OrdersKept(os: OrderSlots, os': OrderSlots, s: Side, p: Price) {
    && |os'| == |os|
    && forall i :: 0 <= i < |os| && os[i].Live() && !(os[i].data.side == s && os[i].data.price == p) ==> os'[i] == os[i]
  }

  ghost predicate LevelsKept(ls: LevelSlots, ls': LevelSlots, level: nat) {
    && |ls'| == |ls|
    && forall i :: 0 <= i < |ls| && ls[i].Live() && i != level ==> ls'[i] == ls[i]
  }

  lemma OtherKey(os: OrderSlots, ls: LevelSlots, idx: Index, m: map<Price, Handle>, v: Orders,
                 os': OrderSlots, ls': LevelSlots, idx': Index, m': map<Price, Handle>, v': Orders,
                 s: Side, p: Price, s0: Side, p0: Price, level: nat)
    requires KeyOk(os, ls, idx, m, v, s, p) && !(s == s0 && p == p0)
    requires Queue(v', s, p) == Queue(v, s, p) && (p in m' <==> p in m) &&
             (p in m ==> m'[p] == m[p] && m[p].index != level)
    requires OrdersKept(os, os', s0, p0) && LevelsKept(ls, ls', level)
    requires forall i :: 0 <= i < |Queue(v, s, p)| && Queue(v, s, p)[i].ref in idx ==>
               Queue(v, s, p)[i].ref in idx' && idx'[Queue(v, s, p)[i].ref] == idx[Queue(v, s, p)[i].ref]
    ensures KeyOk(os', ls', idx', m', v', s, p)
  {
    var q := Queue(v, s, p);
    QueueMembers(v, s, p);
    hide Queue;
    if p in m {
      forall i | 0 <= i < |q| ensures q[i].ref in idx' && Linked(os', idx', q, i, m[p]) {
        assert q[i] in q;
        assert Linked(os, idx, q, i, m[p]);
      }
    }
  }

  /** Outside one side and price the two maps are as they were. */
  ghost predicate KeysKept(bids: map<Price, Handle>, asks: map<Price, Handle>, bids': map<Price, Handle>,
      asks': map<Price, Handle>,
                           s0: Side, p0: Price) {
    forall s: Side, p: Price :: !(s == s0 && p == p0) ==>
      (p in Pick(bids', asks', s) <==> p in Pick(bids, asks, s)) &&
      (p in Pick(bids, asks, s) ==> Pick(bids', asks', s)[p] == Pick(bids, asks, s)[p])
  }

  /** The level record in play is the one of the key concerned, or was not in use. */
  ghost predicate LevelConcerned(ls: LevelSlots, bids: map<Price, Handle>, asks: map<Price, Handle>, s: Side, p: Price,
      level: nat) {
    || (p in Pick(bids, asks, s) && Pick(bids, asks, s)[p].index == level)
    || (level < |ls| && !ls[level].Live())
  }

  /** An update that is right at one key, and keeps its hands off every other, is right. */
  lemma Rebuild(os: OrderSlots, ls: LevelSlots, idx: Index, bids: map<Price, Handle>, asks: map<Price, Handle>,
      v: Orders,
                os': OrderSlots, ls': LevelSlots, idx': Index, bids': map<Price, Handle>, asks': map<Price, Handle>,
                v': Orders,
                s0: Side, p0: Price, level: nat)
    requires Represents(os, ls, idx, bids, asks, v)
    requires IsBook(v') && idx'.Keys == Refs(v') && Apart(bids', asks')
    requires KeyOk(os', ls', idx', Pick(bids', asks', s0), v', s0, p0)
    requires OrdersKept(os, os', s0, p0) && LevelsKept(ls, ls', level) && LevelConcerned(ls, bids, asks, s0, p0, level)
    requires KeysKept(bids, asks, bids', asks', s0, p0)
    requires forall s, p :: !(s == s0 && p == p0) ==> Queue(v', s, p) == Queue(v, s, p)
    requires forall ref :: ref in idx && ref in idx' ==> idx'[ref] == idx[ref]
    ensures Represents(os', ls', idx', bids', asks', v')
  {
    hide Queue, IsBook, Apart, Refs, KeyOk, OrdersKept, LevelsKept, Queued;
    forall s, p ensures KeyOk(os', ls', idx', Pick(bids', asks', s), v', s, p) {
      if !(s == s0 && p == p0) {
        var m, q := Pick(bids, asks, s), Queue(v, s, p);
        KeyOf(os, ls, idx, bids, asks, v, s, p);
        assert KeyOk(os, ls, idx, m, v, s, p);
        if p in m && p0 in Pick(bids, asks, s0) && Pick(bids, asks, s0)[p0].index == level && m[p].index == level {
          LevelOwner(os, ls, idx, bids, asks, v, s, p, s0, p0);
        }
        QueueRefs(v', s, p);
        OtherKey(os, ls, idx, m, v, os', ls', idx', Pick(bids', asks', s), v', s, p, s0, p0, level);
      }
    }
  }

  lemma QueueRefs(v: Orders, s: Side, p: Price)
    ensures forall i :: 0 <= i < |Queue(v, s, p)| ==> Queue(v, s, p)[i].ref in Refs(v)
  {
    var q := Queue(v, s, p);
    QueueMembers(v, s, p);
    hide Queue;
    forall i | 0 <= i < |q| ensures q[i].ref in Refs(v) {
      assert q[i] in q;
      var k :| 0 <= k < |v| && v[k] == q[i];
    }
  }

  // What happens at the key concerned

  /** Every live record but one (or two) is as it was. */
  ghost predicate LiveKept(os: OrderSlots, os': OrderSlots, but: set<nat>) {
    && |os'| == |os|
    && forall i :: 0 <= i < |os| && os[i].Live() && i !in but ==> os'[i] == os[i]
  }

  /** Different orders of a queue are in different slots. */
  lemma SlotsDiffer(os: OrderSlots, idx: Index, q: Orders, level: Handle, i: nat, j: nat)
    requires Queued(os, idx, q, level) && DistinctRefs(q) && i < |q| && j < |q| && i != j
    ensures idx[q[i].ref].index != idx[q[j].ref].index
  {
    assert Linked(os, idx, q, i, level) && Linked(os, idx, q, j, level);
  }

  /** A new order joins at the back. */
  lemma AppendQueued(os: OrderSlots, os': OrderSlots, idx: Index, q: Orders, r: Rec, oh: Handle, level: Handle)
    requires Queued(os, idx, q, level) && DistinctRefs(q) && r.ref !in idx
    requires oh.index < |os| && !os[oh.index].Live() && LiveIn(os', oh)
    requires os'[oh.index].data ==
               OrderData(r.ref, r.qty, r.price, if q == [] then NULL else idx[q[|q| - 1].ref], level, r.side, r.owner)
    requires os'[oh.index].link == NULL
    requires LiveKept(os, os', if q == [] then {} else {idx[q[|q| - 1].ref].index})
    requires q != [] ==> var t := idx[q[|q| - 1].ref].index; t < |os| && os'[t] == os[t].(link := oh)
    ensures Queued(os', idx[r.ref := oh], q + [r], level)
  {
    var idx', q', n := idx[r.ref := oh], q + [r], |q|;
    forall i | 0 <= i < |q'| ensures q'[i].ref in idx' {
    }
    forall i | 0 <= i < |q'| ensures Linked(os', idx', q', i, level) {
      if i < n {
        assert Linked(os, idx, q, i, level);
        if i + 1 < n { SlotsDiffer(os, idx, q, level, i, n - 1); }
      }
    }
  }

  lemma AppendHeaded(ls: LevelSlots, ls': LevelSlots, idx: Index, q: Orders, r: Rec, oh: Handle, p: Price,
      level: Handle)
    requires Indexed(idx, q) && r.ref !in idx && LiveIn(ls', level)
    requires q != [] ==> Headed(ls, idx, q, p, level)
    requires ls'[level.index].data ==
               if q == [] then LevelData(r.qty, oh, oh, p, 1)
               else ls[level.index].data.(totalQty := ls[level.index].data.totalQty + r.qty, tail := oh,
                                          orderCount := ls[level.index].data.orderCount + 1)
    ensures Headed(ls', idx[r.ref := oh], q + [r], p, level)
  {
    QtysConcat(q, [r]);
    QtysOne(r);
  }

  /** An order in the middle of its queue shrinks where it stands. */
  lemma ShrinkQueued(os: OrderSlots, os': OrderSlots, idx: Index, pre: Orders, r: Rec, post: Orders, qty: Qty,
      level: Handle)
    requires Queued(os, idx, pre + [r] + post, level) && DistinctRefs(pre + [r] + post) && r.ref in idx
    requires var h := idx[r.ref].index;
             h < |os| && LiveKept(os, os', {h}) && os'[h] == os[h].(data := os[h].data.(qty := qty))
    ensures Queued(os', idx, pre + [r.(qty := qty)] + post, level)
  {
    var q, q', n := pre + [r] + post, pre + [r.(qty := qty)] + post, |pre|;
    assert forall i :: 0 <= i < |q| ==> q'[i] == if i == n then q[i].(qty := qty) else q[i];
    forall i | 0 <= i < |q'| ensures q'[i].ref in idx && Linked(os', idx, q', i, level) {
      assert Linked(os, idx, q, i, level);
      if i != n { SlotsDiffer(os, idx, q, level, i, n); }
    }
  }

  lemma ShrinkHeaded(ls: LevelSlots, ls': LevelSlots, idx: Index, pre: Orders, r: Rec, post: Orders, qty: Qty,
      p: Price, level: Handle)
    requires Headed(ls, idx, pre + [r] + post, p, level) && qty <= r.qty && LiveIn(ls', level)
    requires ls[level.index].data.totalQty >= r.qty - qty ==>
               ls'[level.index].data == ls[level.index].data.(totalQty := ls[level.index].data.totalQty - (r.qty - qty))
    ensures Headed(ls', idx, pre + [r.(qty := qty)] + post, p, level)
  {
    var q, q', n := pre + [r] + post, pre + [r.(qty := qty)] + post, |pre|;
    assert forall i :: 0 <= i < |q| ==> q'[i] == if i == n then q[i].(qty := qty) else q[i];
    QtysThree(pre, r, post);
    QtysThree(pre, r.(qty := qty), post);
  }

  /** An order leaves the middle of its queue: its two neighbours are linked to each other. */
  lemma UnlinkQueued(os: OrderSlots, os': OrderSlots, idx: Index, pre: Orders, r: Rec, post: Orders, level: Handle)
    requires Queued(os, idx, pre + [r] + post, level) && DistinctRefs(pre + [r] + post) && Indexed(idx, pre) &&
             Indexed(idx, post) && r.ref in idx
    requires LiveKept(os, os', Neighbours(idx, pre, post) + {idx[r.ref].index})
    requires pre != [] ==>
               var h := idx[pre[|pre| - 1].ref].index;
               h < |os| && os'[h] == os[h].(link := if post == [] then NULL else idx[post[0].ref])
    requires post != [] ==>
               var h := idx[post[0].ref].index;
               h < |os| &&
               os'[h] == os[h].(data := os[h].data.(prev := if pre == [] then NULL else idx[pre[|pre| - 1].ref]))
    ensures Queued(os', idx - {r.ref}, pre + post, level)
  {
    var q, q', n, idx' := pre + [r] + post, pre + post, |pre|, idx - {r.ref};
    assert q[n] == r;
    forall i | 0 <= i < |q'| ensures q'[i].ref in idx' && idx'[q'[i].ref] == idx[q'[i].ref] {
      assert q'[i] == q[if i < n then i else i + 1];
    }
    forall i | 0 <= i < |q'| ensures Linked(os', idx', q', i, level) {
      UnlinkOne(os, os', idx, pre, r, post, level, i);
    }
  }

  ghost function Neighbours(idx: Index, pre: Orders, post: Orders): set<nat>
    requires Indexed(idx, pre) && Indexed(idx, post)
  {
    (if pre == [] then {} else {idx[pre[|pre| - 1].ref].index}) + (if post == [] then {} else {idx[post[0].ref].index})
  }

  lemma UnlinkOne(os: OrderSlots, os': OrderSlots, idx: Index, pre: Orders, r: Rec, post: Orders, level: Handle, i: nat)
    requires Queued(os, idx, pre + [r] + post, level) && DistinctRefs(pre + [r] + post) && Indexed(idx, pre) &&
             Indexed(idx, post) && r.ref in idx
    requires LiveKept(os, os', Neighbours(idx, pre, post) + {idx[r.ref].index})
    requires pre != [] ==>
               var h := idx[pre[|pre| - 1].ref].index;
               h < |os| && os'[h] == os[h].(link := if post == [] then NULL else idx[post[0].ref])
    requires post != [] ==>
               var h := idx[post[0].ref].index;
               h < |os| &&
               os'[h] == os[h].(data := os[h].data.(prev := if pre == [] then NULL else idx[pre[|pre| - 1].ref]))
    requires i < |pre + post| && Indexed(idx - {r.ref}, pre + post)
    ensures Linked(os', idx - {r.ref}, pre + post, i, level)
  {
    hide DistinctRefs;
    var q, q', n := pre + [r] + post, pre + post, |pre|;
    var k := if i < n then i else i + 1;
    assert q'[i] == q[k] && q[n] == r;
    assert pre != [] ==> pre[n - 1] == q[n - 1];
    assert post != [] ==> post[0] == q[n + 1];
    assert i > 0 ==> q'[i - 1] == q[if i - 1 < n then i - 1 else i];
    assert i + 1 < |q'| ==> q'[i + 1] == q[if i + 1 < n then i + 1 else i + 2];
    assert Linked(os, idx, q, k, level);
    SlotsDiffer(os, idx, q, level, k, n);
    if n > 0 && k != n - 1 { SlotsDiffer(os, idx, q, level, k, n - 1); }
    if n + 1 < |q| && k != n + 1 { SlotsDiffer(os, idx, q, level, k, n + 1); }
  }

  lemma UnlinkHeaded(ls: LevelSlots, ls': LevelSlots, idx: Index, pre: Orders, r: Rec, post: Orders, p: Price,
      level: Handle)
    requires Headed(ls, idx, pre + [r] + post, p, level) && DistinctRefs(pre + [r] + post) && pre + post != [] &&
             LiveIn(ls', level)
    requires Indexed(idx, pre) && Indexed(idx, post)
    requires var d := ls[level.index].data;
             d.totalQty >= r.qty && d.orderCount > 0 ==>
               ls'[level.index].data == LevelData(d.totalQty - r.qty,
                                                  if pre == [] then idx[post[0].ref] else d.head,
                                                  if post == [] then idx[pre[|pre| - 1].ref] else d.tail,
                                                  d.price, d.orderCount - 1)
    ensures Headed(ls', idx - {r.ref}, pre + post, p, level)
  {
    var q, q', n := pre + [r] + post, pre + post, |pre|;
    QtysThree(pre, r, post);
    assert q[n] == r;
    forall i | 0 <= i < |q'| ensures q'[i].ref in idx && q'[i].ref != r.ref {
      assert q'[i] == q[if i < n then i else i + 1];
    }
    assert q'[0] == if pre == [] then post[0] else q[0];
    assert q'[|q'| - 1] == if post == [] then pre[n - 1] else q[|q| - 1];
  }
}
