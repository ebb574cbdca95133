/**
 The book as a flat list of resting orders in order of arrival, every answer recomputed from the list. This is the
 specification the other books are proved against. (Orders also carry the owner that the engine needs.)
 */
module NaiveSpec {
  import opened Core
  import opened PriceSets

  datatype Rec = Rec(ref: OrderRef, side: Side, price: Price, qty: Qty, owner: Owner) {
    predicate At(s: Side, p: Price) {
      side == s && price == p
    }
  }

  type Orders = seq<Rec>

  ghost predicate DistinctRefs(v: Orders) {
    forall i, j :: 0 <= i < j < |v| ==> v[i].ref != v[j].ref
  }

  /** References are unique, and nothing rests with no quantity. */
  ghost predicate IsBook(v: Orders) {
    DistinctRefs(v) && AllRest(v)
  }

  ghost predicate AllRest(v: Orders) {
    forall i :: 0 <= i < |v| ==> v[i].qty > 0
  }

  /** Position of a reference; the length of the list when it is absent. */
  function IndexOf(v: Orders, ref: OrderRef): (i: nat)
    ensures i <= |v|
    ensures i < |v| ==> v[i].ref == ref
    ensures forall j :: 0 <= j < i ==> v[j].ref != ref
  {
    if v == [] || v[0].ref == ref then 0 else 1 + IndexOf(v[1..], ref)
  }

  predicate Has(v: Orders, ref: OrderRef) {
    IndexOf(v, ref) < |v|
  }

  function Get(v: Orders, ref: OrderRef): Rec
    requires Has(v, ref)
  {
    v[IndexOf(v, ref)]
  }

  // Mutations

  function Add(v: Orders, r: Rec): Orders {
    v + [r]
  }

  /** A cancel or an execution: the order keeps its place unless nothing of it is left. */
  function Reduce(v: Orders, ref: OrderRef, shares: Qty): Orders
    requires Has(v, ref) && shares <= Get(v, ref).qty
  {
    var i := IndexOf(v, ref);
    v[..i] + Left(v[i], shares) + v[i + 1..]
  }

  function Left(r: Rec, shares: Qty): (m: Orders)
    requires shares <= r.qty
    ensures |m| <= 1
  {
    if r.qty == shares then [] else [r.(qty := r.qty - shares)]
  }

  function Remove(v: Orders, ref: OrderRef): Orders
    requires Has(v, ref)
  {
    Reduce(v, ref, Get(v, ref).qty)
  }

  /** A new order at the back: side and owner are inherited, time priority is not. */
  function Replace(v: Orders, oldRef: OrderRef, newRef: OrderRef, price: Price, qty: Qty): Orders
    requires Has(v, oldRef)
  {
    var r := Get(v, oldRef);
    Add(Remove(v, oldRef), Rec(newRef, r.side, price, qty, r.owner))
  }

  // Queries

  /** The orders at one side and price, oldest first. */
  function Queue(v: Orders, s: Side, p: Price): Orders {
    if v == [] then [] else
      var n := |v| - 1;
      Queue(v[..n], s, p) + if v[n].At(s, p) then [v[n]] else []
  }

  function Prices(v: Orders, s: Side): set<Price> {
    set r | r in v && r.side == s :: r.price
  }

  function Qtys(v: Orders): nat {
    if v == [] then 0 else Qtys(v[..|v| - 1]) + v[|v| - 1].qty
  }

  function OnSide(v: Orders, s: Side): Orders {
    if v == [] then [] else
      var n := |v| - 1;
      OnSide(v[..n], s) + if v[n].side == s then [v[n]] else []
  }

  function TotalQty(v: Orders, s: Side): nat {
    Qtys(OnSide(v, s))
  }

  function RefList(q: Orders): (refs: seq<OrderRef>)
    ensures |refs| == |q| && forall i :: 0 <= i < |q| ==> refs[i] == q[i].ref
  {
    seq(|q|, i requires 0 <= i < |q| => q[i].ref)
  }

  /** One level as a traversal shows it: its price, its sums, and its orders oldest first. */
  datatype Level = Level(price: Price, qty: nat, orders: nat, refs: seq<OrderRef>)

  function LevelAt(v: Orders, s: Side, p: Price): Level {
    var q := Queue(v, s, p);
    Level(p, Qtys(q), |q|, RefList(q))
  }

  /** The levels at these prices, in this order. */
  function LevelsAt(v: Orders, s: Side, ps: seq<Price>): (ls: seq<Level>)
    ensures |ls| == |ps| && forall i :: 0 <= i < |ps| ==> ls[i] == LevelAt(v, s, ps[i])
  {
    seq(|ps|, i requires 0 <= i < |ps| => LevelAt(v, s, ps[i]))
  }

  /** The whole side from the inside outwards. */
  function Levels(v: Orders, s: Side): seq<Level> {
    LevelsAt(v, s, Sorted(s, Prices(v, s)))
  }

  predicate Crossed(v: Orders) {
    Prices(v, Buy) != {} && Prices(v, Sell) != {} && Best(Buy, Prices(v, Buy)) >= Best(Sell, Prices(v, Sell))
  }

  /** Crossed is: some bid is at or above some ask. */
  lemma CrossedExactly(v: Orders)
    ensures Crossed(v) <==> exists b, a :: b in v && a in v && b.side == Buy && a.side == Sell && b.price >= a.price
  {
    hide Best;
    var bids, asks := Prices(v, Buy), Prices(v, Sell);
    BestBounds(bids);
    BestBounds(asks);
    if Crossed(v) {
      var b :| b in v && b.side == Buy && b.price == Best(Buy, bids);
      var a :| a in v && a.side == Sell && a.price == Best(Sell, asks);
      assert b.price >= a.price;
    }
    forall b, a | b in v && a in v && b.side == Buy && a.side == Sell && b.price >= a.price ensures Crossed(v) {
      assert b.price in bids && a.price in asks;
    }
  }

  /** The orders of one side by price, inside first, and by arrival within a price. */
  ghost function Priority(v: Orders, s: Side): Orders {
    QueuesAt(v, s, Sorted(s, Prices(v, s)))
  }

  ghost function QueuesAt(v: Orders, s: Side, ps: seq<Price>): Orders {
    if ps == [] then [] else Queue(v, s, ps[0]) + QueuesAt(v, s, ps[1..])
  }

  // Positions and references

  ghost function Refs(v: Orders): set<OrderRef> {
    set i | 0 <= i < |v| :: v[i].ref
  }

  lemma IndexOfDistinct(v: Orders, i: nat)
    requires DistinctRefs(v) && i < |v|
    ensures IndexOf(v, v[i].ref) == i && Has(v, v[i].ref) && Get(v, v[i].ref) == v[i]
  {
    hide IndexOf;
    assert IndexOf(v, v[i].ref) <= i;
  }

  lemma HasIffIn(v: Orders, ref: OrderRef)
    ensures Has(v, ref) <==> ref in Refs(v)
  {
    hide IndexOf;
  }

  lemma RefsConcat(a: Orders, b: Orders)
    ensures Refs(a + b) == Refs(a) + Refs(b)
  {
    assert forall i :: 0 <= i < |b| ==> (a + b)[|a| + i] == b[i];
    assert forall i :: 0 <= i < |a| ==> (a + b)[i] == a[i];
  }

  lemma DistinctConcat(a: Orders, b: Orders)
    ensures DistinctRefs(a + b) <==> DistinctRefs(a) && DistinctRefs(b) && Refs(a) !! Refs(b)
  {
    var c := a + b;
    assert forall i :: 0 <= i < |a| ==> c[i] == a[i];
    assert forall i :: 0 <= i < |b| ==> c[|a| + i] == b[i];
    if DistinctRefs(c) {
      forall i, j | 0 <= i < |a| && 0 <= j < |b| ensures a[i].ref != b[j].ref {
        assert c[i].ref != c[|a| + j].ref;
      }
      forall i, j | 0 <= i < j < |b| ensures b[i].ref != b[j].ref {
        assert c[|a| + i].ref != c[|a| + j].ref;
      }
    }
    if DistinctRefs(a) && DistinctRefs(b) && Refs(a) !! Refs(b) {
      forall i, j | 0 <= i < j < |c| ensures c[i].ref != c[j].ref {
        if i < |a| <= j {
          assert a[i].ref in Refs(a) && b[j - |a|].ref in Refs(b);
        }
      }
    }
  }

  lemma RefsSmall(m: Orders)
    requires |m| <= 1
    ensures Refs(m) == (if m == [] then {} else {m[0].ref}) && DistinctRefs(m)
  {
  }

  // Queues of concatenations

  lemma {:induction false} QueueConcat(a: Orders, b: Orders, s: Side, p: Price)
    ensures Queue(a + b, s, p) == Queue(a, s, p) + Queue(b, s, p)
  {
    if b == [] {
      assert a + b == a;
    } else {
      var n := |b| - 1;
      QueueConcat(a, b[..n], s, p);
      assert (a + b)[..|a + b| - 1] == a + b[..n];
    }
  }

  lemma QueueOne(r: Rec, s: Side, p: Price)
    ensures Queue([r], s, p) == if r.side == s && r.price == p then [r] else []
  {
    assert [r][..0] == [];
  }

  /** Replacing one order by what is left of it changes its own queue at its own place, and no other queue. */
  lemma QueueOfReplaced(v: Orders, i: nat, m: Orders, s: Side, p: Price)
    requires i < |v| && |m| <= 1 && (m != [] ==> m[0].At(v[i].side, v[i].price))
    ensures var pre, post := Queue(v[..i], s, p), Queue(v[i + 1..], s, p);
            if v[i].At(s, p)
            then Queue(v, s, p) == pre + [v[i]] + post && Queue(v[..i] + m + v[i + 1..], s, p) == pre + m + post
            else Queue(v, s, p) == pre + post == Queue(v[..i] + m + v[i + 1..], s, p)
  {
    hide Queue;
    assert v == v[..i] + [v[i]] + v[i + 1..];
    QueueConcat(v[..i] + [v[i]], v[i + 1..], s, p);
    QueueConcat(v[..i], [v[i]], s, p);
    QueueConcat(v[..i] + m, v[i + 1..], s, p);
    QueueConcat(v[..i], m, s, p);
    QueueOne(v[i], s, p);
    if m != [] {
      assert m == [m[0]];
      QueueOne(m[0], s, p);
    } else {
      QueueNil(s, p);
    }
  }

  lemma QueueNil(s: Side, p: Price)
    ensures Queue([], s, p) == []
  {
  }

  /** A queue holds exactly the orders of the list at that side and price. */
  lemma {:induction false} QueueMembers(v: Orders, s: Side, p: Price)
    ensures forall r :: r in Queue(v, s, p) <==> r in v && r.At(s, p)
  {
    if v != [] {
      var n := |v| - 1;
      QueueMembers(v[..n], s, p);
      assert v == v[..n] + [v[n]];
    }
  }

  /** And it holds them in their order of arrival. */
  lemma {:induction false} QueueArrival(v: Orders, s: Side, p: Price, i: nat, j: nat)
    requires i < j < |Queue(v, s, p)|
    ensures Arrives(v, Queue(v, s, p)[i], Queue(v, s, p)[j])
  {
    var n := |v| - 1;
    var q := Queue(v[..n], s, p);
    if j < |q| {
      QueueArrival(v[..n], s, p, i, j);
    } else {
      QueueMembers(v[..n], s, p);
      assert q[i] in q;
      var k :| 0 <= k < n && v[k] == q[i];
      assert v[n] == Queue(v, s, p)[j];
    }
  }

  /** Order a stands before order b in the list. */
  ghost predicate Arrives(v: Orders, a: Rec, b: Rec) {
    exists k, l :: 0 <= k < l < |v| && v[k] == a && v[l] == b
  }

  lemma {:induction false} QueueDistinct(v: Orders, s: Side, p: Price)
    requires DistinctRefs(v)
    ensures DistinctRefs(Queue(v, s, p))
  {
    if v != [] {
      var n := |v| - 1;
      QueueDistinct(v[..n], s, p);
      QueueMembers(v[..n], s, p);
      var q := Queue(v[..n], s, p);
      forall i | 0 <= i < |q| ensures q[i].ref != v[n].ref {
        assert q[i] in q;
      }
    }
  }

  lemma PricesOfQueues(v: Orders, s: Side, p: Price)
    ensures p in Prices(v, s) <==> Queue(v, s, p) != []
  {
    QueueMembers(v, s, p);
    hide Queue;
    if Queue(v, s, p) != [] { assert Queue(v, s, p)[0] in Queue(v, s, p); }
  }

  /** The orders before, and after, a listed order in its queue. */
  function Ahead(v: Orders, ref: OrderRef): Orders
    requires Has(v, ref)
  {
    Queue(v[..IndexOf(v, ref)], Get(v, ref).side, Get(v, ref).price)
  }

  function Behind(v: Orders, ref: OrderRef): Orders
    requires Has(v, ref)
  {
    Queue(v[IndexOf(v, ref) + 1..], Get(v, ref).side, Get(v, ref).price)
  }

  /** The rest of the book while one order of one queue is replaced by m. */
  lemma ReplacedElsewhere(v: Orders, ref: OrderRef, shares: Qty)
    requires Has(v, ref) && shares <= Get(v, ref).qty
    ensures var r, v' := Get(v, ref), Reduce(v, ref, shares);
            && Queue(v', r.side, r.price) == Ahead(v, ref) + Left(r, shares) + Behind(v, ref)
            && (forall s, p :: !(s == r.side && p == r.price) ==> Queue(v', s, p) == Queue(v, s, p))
  {
    hide Queue, IndexOf;
    var i := IndexOf(v, ref);
    var r := v[i];
    QueueOfReplaced(v, i, Left(r, shares), r.side, r.price);
    forall s, p | !(s == r.side && p == r.price) ensures Queue(Reduce(v, ref, shares), s, p) == Queue(v, s, p) {
      QueueOfReplaced(v, i, Left(r, shares), s, p);
    }
  }

  /** A replacement stands behind every order already at its price, and those keep their order among themselves. */
  lemma ReplacementIsLast(v: Orders, oldRef: OrderRef, newRef: OrderRef, price: Price, qty: Qty)
    requires Has(v, oldRef)
    ensures var r, w := Get(v, oldRef), Replace(v, oldRef, newRef, price, qty);
            var before := if r.price == price then Ahead(v, oldRef) + Behind(v, oldRef) else Queue(v, r.side, price);
            Queue(w, r.side, price) == before + [Rec(newRef, r.side, price, qty, r.owner)]
  {
    hide Queue, IndexOf;
    var r := Get(v, oldRef);
    var n := Rec(newRef, r.side, price, qty, r.owner);
    ReplacedElsewhere(v, oldRef, r.qty);
    assert Ahead(v, oldRef) + [] + Behind(v, oldRef) == Ahead(v, oldRef) + Behind(v, oldRef);
    QueueConcat(Remove(v, oldRef), [n], r.side, price);
    QueueOne(n, r.side, price);
  }

  /** A reduced order keeps its place in its queue, or leaves it without disturbing the others. */
  lemma ReductionKeepsPlace(v: Orders, ref: OrderRef, shares: Qty)
    requires Has(v, ref) && shares <= Get(v, ref).qty
    ensures var r := Get(v, ref);
            && Queue(v, r.side, r.price) == Ahead(v, ref) + [r] + Behind(v, ref)
            && Queue(Reduce(v, ref, shares), r.side, r.price) ==
               Ahead(v, ref) + (if shares == r.qty then [] else [r.(qty := r.qty - shares)]) + Behind(v, ref)
  {
    hide Queue, IndexOf;
    QueueOfReplaced(v, IndexOf(v, ref), [], Get(v, ref).side, Get(v, ref).price);
    ReplacedElsewhere(v, ref, shares);
  }

  // Sums

  lemma {:induction false} QtysConcat(a: Orders, b: Orders)
    ensures Qtys(a + b) == Qtys(a) + Qtys(b)
  {
    if b == [] {
      assert a + b == a;
    } else {
      QtysConcat(a, b[..|b| - 1]);
      assert (a + b)[..|a + b| - 1] == a + b[..|b| - 1];
    }
  }

  lemma QtysOne(r: Rec)
    ensures Qtys([r]) == r.qty
  {
    assert [r][..0] == [];
  }

  lemma NoQtys(v: Orders)
    requires v == []
    ensures Qtys(v) == 0
  {
  }

  lemma QtysThree(pre: Orders, r: Rec, post: Orders)
    ensures Qtys(pre + [r] + post) == Qtys(pre) + r.qty + Qtys(post)
    ensures Qtys(pre + post) == Qtys(pre) + Qtys(post)
  {
    hide Qtys;
    QtysConcat(pre + [r], post);
    QtysConcat(pre, [r]);
    QtysOne(r);
    QtysConcat(pre, post);
  }

  lemma {:induction false} OnSideConcat(a: Orders, b: Orders, s: Side)
    ensures OnSide(a + b, s) == OnSide(a, s) + OnSide(b, s)
  {
    if b == [] {
      assert a + b == a;
    } else {
      OnSideConcat(a, b[..|b| - 1], s);
      assert (a + b)[..|a + b| - 1] == a + b[..|b| - 1];
    }
  }

  lemma TotalConcat(a: Orders, b: Orders, s: Side)
    ensures TotalQty(a + b, s) == TotalQty(a, s) + TotalQty(b, s)
  {
    OnSideConcat(a, b, s);
    QtysConcat(OnSide(a, s), OnSide(b, s));
  }

  lemma TotalOne(r: Rec, s: Side)
    ensures TotalQty([r], s) == if r.side == s then r.qty else 0
  {
    assert [r][..0] == [];
    if r.side == s {
      QtysOne(r);
      assert OnSide([r], s) == [r];
    } else {
      assert OnSide([r][..0], s) == [];
      assert OnSide([r], s) == [];
    }
  }

  lemma LeftQty(r: Rec, shares: Qty, s: Side)
    requires shares <= r.qty
    ensures Qtys(Left(r, shares)) == r.qty - shares
    ensures TotalQty(Left(r, shares), s) == if r.side == s then r.qty - shares else 0
  {
    if r.qty != shares {
      QtysOne(r.(qty := r.qty - shares));
      TotalOne(r.(qty := r.qty - shares), s);
    }
  }

  /** Conservation: a reduction takes exactly its shares from its side's total and nothing from the other side's. */
  lemma ReduceTotal(v: Orders, ref: OrderRef, shares: Qty, s: Side)
    requires Has(v, ref) && shares <= Get(v, ref).qty
    ensures TotalQty(Reduce(v, ref, shares), s) + (if Get(v, ref).side == s then shares else 0) == TotalQty(v, s)
  {
    hide TotalQty, Left, Qtys;
    var i := IndexOf(v, ref);
    assert v == v[..i] + [v[i]] + v[i + 1..];
    TotalConcat(v[..i] + [v[i]], v[i + 1..], s);
    TotalConcat(v[..i], [v[i]], s);
    TotalOne(v[i], s);
    TotalConcat(v[..i] + Left(v[i], shares), v[i + 1..], s);
    TotalConcat(v[..i], Left(v[i], shares), s);
    LeftQty(v[i], shares, s);
  }

  lemma AddTotal(v: Orders, r: Rec, s: Side)
    ensures TotalQty(Add(v, r), s) == TotalQty(v, s) + if r.side == s then r.qty else 0
  {
    TotalConcat(v, [r], s);
    TotalOne(r, s);
  }

  // The book stays a book

  lemma AddIsBook(v: Orders, r: Rec)
    requires IsBook(v) && !Has(v, r.ref) && r.qty > 0
    ensures IsBook(Add(v, r))
  {
    hide IndexOf;
  }

  lemma ReduceIsBook(v: Orders, ref: OrderRef, shares: Qty)
    requires IsBook(v) && Has(v, ref) && shares <= Get(v, ref).qty
    ensures IsBook(Reduce(v, ref, shares))
    ensures Refs(Reduce(v, ref, shares)) == Refs(v) - if shares < Get(v, ref).qty then {} else {ref}
    ensures |Reduce(v, ref, shares)| == |v| - if shares < Get(v, ref).qty then 0 else 1
  {
    hide IndexOf, DistinctRefs, Refs, AllRest;
    var i := IndexOf(v, ref);
    var m := Left(v[i], shares);
    RefsSmall([v[i]]);
    RefsSmall(m);
    Bracketed(v[..i], [v[i]], v[i + 1..]);
    Bracketed(v[..i], m, v[i + 1..]);
    LeftRests(v[i], shares);
    assert v == v[..i] + [v[i]] + v[i + 1..];
  }

  lemma LeftRests(r: Rec, shares: Qty)
    requires shares <= r.qty
    ensures AllRest([r]) ==> AllRest(Left(r, shares))
  {
    assert [r][0] == r;
  }

  lemma AllRestConcat(a: Orders, b: Orders)
    ensures AllRest(a + b) <==> AllRest(a) && AllRest(b)
  {
    var c := a + b;
    assert forall i :: 0 <= i < |a| ==> c[i] == a[i];
    assert forall i :: 0 <= i < |b| ==> c[|a| + i] == b[i];
  }

  lemma Bracketed(a: Orders, m: Orders, b: Orders)
    ensures Refs(a + m + b) == Refs(a) + Refs(m) + Refs(b)
    ensures DistinctRefs(a + m + b) <==>
              DistinctRefs(a) && DistinctRefs(m) && DistinctRefs(b) &&
              Refs(a) !! Refs(m) && (Refs(a) + Refs(m)) !! Refs(b)
    ensures AllRest(a + m + b) <==> AllRest(a) && AllRest(m) && AllRest(b)
  {
    hide DistinctRefs, Refs, AllRest;
    AllRestConcat(a + m, b);
    AllRestConcat(a, m);
    RefsConcat(a + m, b);
    RefsConcat(a, m);
    DistinctConcat(a + m, b);
    DistinctConcat(a, m);
  }

  lemma {:induction false} RefsCount(v: Orders)
    requires DistinctRefs(v)
    ensures |Refs(v)| == |v|
  {
    if v != [] {
      var w, r := v[..|v| - 1], v[|v| - 1];
      RefsCount(w);
      RefsConcat(w, [r]);
      RefsSmall([r]);
      assert v == w + [r];
      DistinctConcat(w, [r]);
    }
  }
}
