/** The AVL tree of price levels as a mathematical object, each node remembering the vector slot that stores it. */
module AvlSpec {
  import opened Core
  import opened PriceSets

  datatype Tree = Leaf | Node(slot: nat, price: Price, level: Handle, left: Tree, right: Tree, height: nat)

  function Height(t: Tree): nat {
    if t.Leaf? then 0 else t.height
  }

  function Max(a: nat, b: nat): nat {
    if a > b then a else b
  }

  function Balance(t: Tree): int {
    if t.Leaf? then 0 else Height(t.left) - Height(t.right)
  }

  function Retune(t: Tree): Tree
    requires t.Node?
  {
    t.(height := 1 + Max(Height(t.left), Height(t.right)))
  }

  function RotateRight(y: Tree): (x: Tree)
    requires y.Node? && y.left.Node?
    ensures x.Node?
  {
    Retune(y.left.(right := Retune(y.(left := y.left.right))))
  }

  function RotateLeft(x: Tree): (y: Tree)
    requires x.Node? && x.right.Node?
    ensures y.Node?
  {
    Retune(x.right.(left := Retune(x.(right := x.right.left))))
  }

  function Rebalance(t: Tree): Tree
    requires Tilted(t)
  {
    TiltedCanRotate(t);
    var n := Retune(t);
    if Balance(n) > 1 then
      RotateRight(if Balance(n.left) < 0 then n.(left := RotateLeft(n.left)) else n)
    else if Balance(n) < -1 then
      RotateLeft(if Balance(n.right) > 0 then n.(right := RotateRight(n.right)) else n)
    else n
  }

  // What a tree stands for

  ghost function Contents(t: Tree): map<Price, Handle> {
    if t.Leaf? then map[] else Contents(t.left) + map[t.price := t.level] + Contents(t.right)
  }

  ghost function Slots(t: Tree): set<nat> {
    if t.Leaf? then {} else Slots(t.left) + {t.slot} + Slots(t.right)
  }

  /** Strict search-tree order. */
  ghost predicate Ordered(t: Tree) {
    t.Node? ==>
      && Ordered(t.left) && Ordered(t.right)
      && (forall k :: k in Contents(t.left) ==> k < t.price)
      && (forall k :: k in Contents(t.right) ==> t.price < k)
  }

  /** No vector slot is used twice. */
  ghost predicate Separate(t: Tree) {
    t.Node? ==>
      && Separate(t.left) && Separate(t.right)
      && Slots(t.left) !! Slots(t.right)
      && t.slot !in Slots(t.left) && t.slot !in Slots(t.right)
  }

  /** Stored heights are right, and no node leans by more than one. */
  ghost predicate Balanced(t: Tree) {
    t.Node? ==>
      && Balanced(t.left) && Balanced(t.right)
      && t.height == 1 + Max(Height(t.left), Height(t.right))
      && -1 <= Balance(t) <= 1
  }

  /** A tree whose root may lean by two, as it does between an update below it and its own rebalance. */
  ghost predicate Tilted(t: Tree) {
    t.Node? && Balanced(t.left) && Balanced(t.right) && -2 <= Balance(t) <= 2
  }

  lemma EmptyHeight(t: Tree)
    requires Balanced(t)
    ensures Height(t) == 0 <==> t.Leaf?
  {
  }

  lemma TiltedCanRotate(t: Tree)
    requires Tilted(t)
    ensures Balance(t) > 1 ==> t.left.Node? && (Balance(t.left) < 0 ==> t.left.right.Node?)
    ensures Balance(t) < -1 ==> t.right.Node? && (Balance(t.right) > 0 ==> t.right.left.Node?)
  {
    EmptyHeight(t.left);
    EmptyHeight(t.right);
    if t.left.Node? { EmptyHeight(t.left.right); EmptyHeight(t.left.left); }
    if t.right.Node? { EmptyHeight(t.right.left); EmptyHeight(t.right.right); }
  }

  // One unfolding at a time

  lemma Unfold(t: Tree)
    requires t.Node?
    ensures Contents(t) == Contents(t.left) + map[t.price := t.level] + Contents(t.right)
    ensures Slots(t) == Slots(t.left) + {t.slot} + Slots(t.right)
    ensures Ordered(t) <==>
              Ordered(t.left) && Ordered(t.right) && AllBelow(Contents(t.left), t.price) &&
              AllAbove(Contents(t.right), t.price)
    ensures Separate(t) <==>
              Separate(t.left) && Separate(t.right) && Slots(t.left) !! Slots(t.right) &&
              t.slot !in Slots(t.left) && t.slot !in Slots(t.right)
  {
  }

  ghost predicate AllBelow(m: map<Price, Handle>, p: Price) {
    forall k :: k in m ==> k < p
  }

  ghost predicate AllAbove(m: map<Price, Handle>, p: Price) {
    forall k :: k in m ==> p < k
  }

  // Rotations change the shape and nothing else

  ghost predicate SameBut(t: Tree, u: Tree) {
    && Contents(u) == Contents(t)
    && Slots(u) == Slots(t)
    && (Ordered(t) ==> Ordered(u))
    && (Separate(t) ==> Separate(u))
  }

  lemma JoinAssociative(a: map<Price, Handle>, x: map<Price, Handle>, b: map<Price, Handle>, y: map<Price, Handle>,
      c: map<Price, Handle>)
    ensures (a + x + b) + y + c == a + x + (b + y + c)
  {
  }

  /** Both bracketings of three subtrees around two prices hold the same levels in the same order. */
  lemma Regroup(a: map<Price, Handle>, p: Price, g: Handle, b: map<Price, Handle>, q: Price, h: Handle,
      c: map<Price, Handle>)
    ensures (a + map[p := g] + b) + map[q := h] + c == a + map[p := g] + (b + map[q := h] + c)
    ensures AllBelow(a, p) && AllAbove(b, p) && AllBelow(a + map[p := g] + b, q) && AllAbove(c, q) ==>
              AllBelow(b, q) && AllAbove(b + map[q := h] + c, p)
    ensures AllBelow(b, q) && AllAbove(c, q) && AllAbove(b + map[q := h] + c, p) && AllBelow(a, p) ==>
              AllAbove(b, p) && AllBelow(a + map[p := g] + b, q)
  {
    hide AllBelow, AllAbove;
    JoinAssociative(a, map[p := g], b, map[q := h], c);
    var l, r := a + map[p := g] + b, b + map[q := h] + c;
    assert l.Keys == a.Keys + {p} + b.Keys && r.Keys == b.Keys + {q} + c.Keys;
    OrderRight(a, p, b, q, c, l, r);
    OrderLeft(a, p, b, q, c, l, r);
  }

  lemma OrderRight(a: map<Price, Handle>, p: Price, b: map<Price, Handle>, q: Price, c: map<Price, Handle>,
                   l: map<Price, Handle>, r: map<Price, Handle>)
    requires l.Keys == a.Keys + {p} + b.Keys && r.Keys == b.Keys + {q} + c.Keys
    ensures AllBelow(a, p) && AllAbove(b, p) && AllBelow(l, q) && AllAbove(c, q) ==> AllBelow(b, q) && AllAbove(r, p)
  {
    assert p in l.Keys;
    assert forall k: Price :: k in b.Keys ==> k in l.Keys;
    assert forall k: Price :: k in r.Keys ==> k in b.Keys || k == q || k in c.Keys;
  }

  lemma OrderLeft(a: map<Price, Handle>, p: Price, b: map<Price, Handle>, q: Price, c: map<Price, Handle>,
                  l: map<Price, Handle>, r: map<Price, Handle>)
    requires l.Keys == a.Keys + {p} + b.Keys && r.Keys == b.Keys + {q} + c.Keys
    ensures AllBelow(b, q) && AllAbove(c, q) && AllAbove(r, p) && AllBelow(a, p) ==> AllAbove(b, p) && AllBelow(l, q)
  {
    assert q in r.Keys;
    assert forall k: Price :: k in b.Keys ==> k in r.Keys;
    assert forall k: Price :: k in l.Keys ==> k in b.Keys || k == p || k in a.Keys;
  }

  lemma RotateRightKeeps(y: Tree)
    requires y.Node? && y.left.Node?
    ensures SameBut(y, RotateRight(y))
  {
    hide Contents, Slots, Ordered, Separate, AllBelow, AllAbove;
    var x, r := y.left, RotateRight(y);
    Unfold(y);
    Unfold(x);
    Unfold(r);
    Unfold(r.right);
    Regroup(Contents(x.left), x.price, x.level, Contents(x.right), y.price, y.level, Contents(y.right));
  }

  lemma RotateLeftKeeps(x: Tree)
    requires x.Node? && x.right.Node?
    ensures SameBut(x, RotateLeft(x))
  {
    hide Contents, Slots, Ordered, Separate, AllBelow, AllAbove;
    var y, r := x.right, RotateLeft(x);
    Unfold(x);
    Unfold(y);
    Unfold(r);
    Unfold(r.left);
    Regroup(Contents(x.left), x.price, x.level, Contents(y.left), y.price, y.level, Contents(y.right));
  }

  /** Replacing a child by one that stands for the same levels and slots. */
  lemma ReplaceLeft(t: Tree, l: Tree)
    requires t.Node? && SameBut(t.left, l)
    ensures SameBut(t, t.(left := l))
  {
    hide Contents, Slots, Ordered, Separate, AllBelow, AllAbove;
    Unfold(t);
    Unfold(t.(left := l));
  }

  lemma ReplaceRight(t: Tree, r: Tree)
    requires t.Node? && SameBut(t.right, r)
    ensures SameBut(t, t.(right := r))
  {
    hide Contents, Slots, Ordered, Separate, AllBelow, AllAbove;
    Unfold(t);
    Unfold(t.(right := r));
  }

  lemma RetuneKeeps(t: Tree)
    requires t.Node?
    ensures SameBut(t, Retune(t))
  {
    hide Contents, Slots, Ordered, Separate, AllBelow, AllAbove;
    Unfold(t);
    Unfold(Retune(t));
  }

  lemma RebalanceKeeps(t: Tree)
    requires Tilted(t)
    ensures SameBut(t, Rebalance(t))
  {
    hide Contents, Slots, Ordered, Separate;
    TiltedCanRotate(t);
    var n := Retune(t);
    RetuneKeeps(t);
    if Balance(n) > 1 {
      if Balance(n.left) < 0 {
        RotateLeftKeeps(n.left);
        ReplaceLeft(n, RotateLeft(n.left));
        RotateRightKeeps(n.(left := RotateLeft(n.left)));
      } else {
        RotateRightKeeps(n);
      }
    } else if Balance(n) < -1 {
      if Balance(n.right) > 0 {
        RotateRightKeeps(n.right);
        ReplaceRight(n, RotateRight(n.right));
        RotateLeftKeeps(n.(right := RotateRight(n.right)));
      } else {
        RotateLeftKeeps(n);
      }
    }
  }

  /** Rebalancing a root that leans by two restores balance, and costs at most one level of height. */
  lemma RebalanceBalances(t: Tree)
    requires Tilted(t)
    ensures Balanced(Rebalance(t))
    ensures var h := 1 + Max(Height(t.left), Height(t.right));
            if -1 <= Balance(t) <= 1 then Height(Rebalance(t)) == h else h - 1 <= Height(Rebalance(t)) <= h
  {
    TiltedCanRotate(t);
    if Balance(t) > 1 {
      LeanLeft(t);
    } else if Balance(t) < -1 {
      LeanRight(t);
    }
  }

  lemma LeanLeft(t: Tree)
    requires Tilted(t) && Balance(t) == 2 && t.left.Node? && (Balance(t.left) < 0 ==> t.left.right.Node?)
    ensures Balanced(Rebalance(t)) && Height(t.left) <= Height(Rebalance(t)) <= Height(t.left) + 1
  {
    var r := Rebalance(t);
    if Balance(t.left) < 0 {
      assert Balanced(t.left.right) && Balanced(t.left.left);
      assert Balanced(r.left) && Balanced(r.right);
    } else {
      assert Balanced(r.right);
    }
  }

  lemma LeanRight(t: Tree)
    requires Tilted(t) && Balance(t) == -2 && t.right.Node? && (Balance(t.right) > 0 ==> t.right.left.Node?)
    ensures Balanced(Rebalance(t)) && Height(t.right) <= Height(Rebalance(t)) <= Height(t.right) + 1
  {
    var r := Rebalance(t);
    if Balance(t.right) > 0 {
      assert Balanced(t.right.left) && Balanced(t.right.right);
      assert Balanced(r.left) && Balanced(r.right);
    } else {
      assert Balanced(r.left);
    }
  }

  // Insertion

  function Insert(t: Tree, p: Price, h: Handle, slot: nat): (u: Tree)
    requires Balanced(t)
    ensures Balanced(u) && Height(t) <= Height(u) <= Height(t) + 1
  {
    if t.Leaf? then Node(slot, p, h, Leaf, Leaf, 1)
    else if p < t.price then
      var n := t.(left := Insert(t.left, p, h, slot));
      RebalanceBalances(n);
      Rebalance(n)
    else
      var n := t.(right := Insert(t.right, p, h, slot));
      RebalanceBalances(n);
      Rebalance(n)
  }

  lemma {:induction false} InsertKeeps(t: Tree, p: Price, h: Handle, slot: nat)
    requires Balanced(t) && Ordered(t) && Separate(t) && p !in Contents(t) && slot !in Slots(t)
    ensures var u := Insert(t, p, h, slot);
            Ordered(u) && Separate(u) && Contents(u) == Contents(t)[p := h] && Slots(u) == Slots(t) + {slot}
  {
    hide Contents, Slots, Ordered, Separate, Balanced;
    if t.Leaf? {
      Unfold(Insert(t, p, h, slot));
      LeafEmpty();
    } else {
      Unfold(t);
      BalancedNode(t);
      if p < t.price {
        InsertKeeps(t.left, p, h, slot);
        InsertLeft(t, p, h, slot);
      } else {
        InsertKeeps(t.right, p, h, slot);
        InsertRight(t, p, h, slot);
      }
    }
  }

  lemma BalancedNode(t: Tree)
    requires t.Node? && Balanced(t)
    ensures Balanced(t.left) && Balanced(t.right)
  {
  }

  lemma InsertLeft(t: Tree, p: Price, h: Handle, slot: nat)
    requires t.Node? && Balanced(t) && Ordered(t) && Separate(t) && p < t.price && p !in Contents(t) &&
             slot !in Slots(t)
    requires var l := Insert(t.left, p, h, slot);
             Ordered(l) && Separate(l) && Contents(l) == Contents(t.left)[p := h] && Slots(l) == Slots(t.left) + {slot}
    ensures var u := Insert(t, p, h, slot);
            Ordered(u) && Separate(u) && Contents(u) == Contents(t)[p := h] && Slots(u) == Slots(t) + {slot}
  {
    hide Contents, Slots, Ordered, Separate, Rebalance;
    Unfold(t);
    var n := t.(left := Insert(t.left, p, h, slot));
    Unfold(n);
    RebalanceKeeps(n);
  }

  lemma InsertRight(t: Tree, p: Price, h: Handle, slot: nat)
    requires t.Node? && Balanced(t) && Ordered(t) && Separate(t) && p > t.price && p !in Contents(t) &&
             slot !in Slots(t)
    requires var r := Insert(t.right, p, h, slot);
             Ordered(r) && Separate(r) && Contents(r) == Contents(t.right)[p := h] &&
             Slots(r) == Slots(t.right) + {slot}
    ensures var u := Insert(t, p, h, slot);
            Ordered(u) && Separate(u) && Contents(u) == Contents(t)[p := h] && Slots(u) == Slots(t) + {slot}
  {
    hide Contents, Slots, Ordered, Separate, Rebalance;
    Unfold(t);
    var n := t.(right := Insert(t.right, p, h, slot));
    Unfold(n);
    RebalanceKeeps(n);
  }

  lemma LeafEmpty()
    ensures Contents(Leaf) == map[] && Slots(Leaf) == {} && Ordered(Leaf) && Separate(Leaf) && Balanced(Leaf)
  {
  }

  // Deletion

  /** The in-order successor within a right subtree. */
  function Leftmost(t: Tree): (m: Tree)
    requires t.Node?
    ensures m.Node?
  {
    if t.left.Leaf? then t else Leftmost(t.left)
  }

  function Erase(t: Tree, p: Price): (u: Tree)
    requires Balanced(t)
    ensures Balanced(u) && Height(t) - 1 <= Height(u) <= Height(t)
  {
    if t.Leaf? then t
    else if p == t.price && (t.left.Leaf? || t.right.Leaf?) then
      EmptyHeight(t.left);
      EmptyHeight(t.right);
      if t.left.Leaf? then t.right else t.left
    else
      var n :=
        if p < t.price then t.(left := Erase(t.left, p))
        else if p > t.price then t.(right := Erase(t.right, p))
        else
          var s := Leftmost(t.right);
          t.(right := Erase(t.right, s.price), price := s.price, level := s.level);
      RebalanceBalances(n);
      Rebalance(n)
  }

  /** The vector slot a deletion releases: not the node holding p when that node has two children, but its successor. */
  ghost function Freed(t: Tree, p: Price): nat
    requires t.Node?
  {
    if p < t.price then (if t.left.Leaf? then t.slot else Freed(t.left, p))
    else if p > t.price then (if t.right.Leaf? then t.slot else Freed(t.right, p))
    else if t.left.Leaf? || t.right.Leaf? then t.slot
    else Freed(t.right, Leftmost(t.right).price)
  }

  lemma {:induction false} LeftmostIsLeast(t: Tree)
    requires t.Node? && Ordered(t)
    ensures var m := Leftmost(t);
            m.price in Contents(t) && Contents(t)[m.price] == m.level && forall k :: k in Contents(t) ==> m.price <= k
  {
    hide Contents, Slots, Ordered, Separate;
    Unfold(t);
    if t.left.Node? {
      LeftmostIsLeast(t.left);
    } else {
      LeafEmpty();
    }
  }

  /** What one update below the root does to the tree as a whole. */
  lemma {:induction false} EraseKeeps(t: Tree, p: Price)
    requires Balanced(t) && Ordered(t) && Separate(t) && p in Contents(t)
    ensures t.Node?
    ensures var u := Erase(t, p);
            Ordered(u) && Separate(u) && Contents(u) == Contents(t) - {p} &&
            Freed(t, p) in Slots(t) && Slots(u) == Slots(t) - {Freed(t, p)}
  {
    hide Contents, Slots, Ordered, Separate, Rebalance;
    LeafEmpty();
    Unfold(t);
    if p < t.price {
      EraseKeeps(t.left, p);
      EraseLeft(t, p, Erase(t.left, p), Freed(t.left, p));
    } else if p > t.price {
      EraseKeeps(t.right, p);
      EraseRight(t, p, Erase(t.right, p), Freed(t.right, p));
    } else if t.left.Node? && t.right.Node? {
      LeftmostIsLeast(t.right);
      var s := Leftmost(t.right);
      EraseKeeps(t.right, s.price);
      EraseRoot(t, s, Erase(t.right, s.price), Freed(t.right, s.price));
    } else {
      EraseEnd(t);
    }
  }

  lemma EraseEnd(t: Tree)
    requires t.Node? && Ordered(t) && Separate(t) && (t.left.Leaf? || t.right.Leaf?)
    ensures var u := if t.left.Leaf? then t.right else t.left;
            Ordered(u) && Separate(u) && Contents(u) == Contents(t) - {t.price} && Slots(u) == Slots(t) - {t.slot}
    ensures t.slot in Slots(t)
  {
    hide Contents, Slots, Ordered, Separate;
    LeafEmpty();
    Unfold(t);
  }

  lemma EraseLeft(t: Tree, p: Price, l: Tree, freed: nat)
    requires t.Node? && Ordered(t) && Separate(t) && Balanced(t) && p < t.price && p in Contents(t)
    requires Ordered(l) && Separate(l) && Contents(l) == Contents(t.left) - {p}
    requires freed in Slots(t.left) && Slots(l) == Slots(t.left) - {freed}
    requires Balanced(l) && Height(t.left) - 1 <= Height(l) <= Height(t.left)
    ensures var n := t.(left := l); var u := Rebalance(n);
            Ordered(u) && Separate(u) && Contents(u) == Contents(t) - {p} && freed in Slots(t) &&
            Slots(u) == Slots(t) - {freed}
  {
    hide Contents, Slots, Ordered, Separate, Rebalance;
    var n := t.(left := l);
    Unfold(t);
    Unfold(n);
    RebalanceKeeps(n);
  }

  lemma EraseRight(t: Tree, p: Price, r: Tree, freed: nat)
    requires t.Node? && Ordered(t) && Separate(t) && Balanced(t) && p > t.price && p in Contents(t)
    requires Ordered(r) && Separate(r) && Contents(r) == Contents(t.right) - {p}
    requires freed in Slots(t.right) && Slots(r) == Slots(t.right) - {freed}
    requires Balanced(r) && Height(t.right) - 1 <= Height(r) <= Height(t.right)
    ensures var n := t.(right := r); var u := Rebalance(n);
            Ordered(u) && Separate(u) && Contents(u) == Contents(t) - {p} && freed in Slots(t) &&
            Slots(u) == Slots(t) - {freed}
  {
    hide Contents, Slots, Ordered, Separate, Rebalance;
    var n := t.(right := r);
    Unfold(t);
    Unfold(n);
    RebalanceKeeps(n);
  }

  lemma EraseRoot(t: Tree, s: Tree, r: Tree, freed: nat)
    requires t.Node? && Ordered(t) && Separate(t) && Balanced(t) && s.Node?
    requires s.price in Contents(t.right) && Contents(t.right)[s.price] == s.level
    requires forall k :: k in Contents(t.right) ==> s.price <= k
    requires Ordered(r) && Separate(r) && Contents(r) == Contents(t.right) - {s.price}
    requires freed in Slots(t.right) && Slots(r) == Slots(t.right) - {freed}
    requires Balanced(r) && Height(t.right) - 1 <= Height(r) <= Height(t.right)
    ensures var n := t.(right := r, price := s.price, level := s.level); var u := Rebalance(n);
            Ordered(u) && Separate(u) && Contents(u) == Contents(t) - {t.price} && freed in Slots(t) &&
            Slots(u) == Slots(t) - {freed}
  {
    hide Contents, Slots, Ordered, Separate, Rebalance, AllBelow, AllAbove;
    var n := t.(right := r, price := s.price, level := s.level);
    Unfold(t);
    Unfold(n);
    SuccessorUp(Contents(t.left), Contents(t.right), t.price, t.level, s.price, s.level);
    RebalanceKeeps(n);
  }

  /** The successor's binding in place of the root's. */
  lemma SuccessorUp(a: map<Price, Handle>, b: map<Price, Handle>, p: Price, h: Handle, q: Price, g: Handle)
    requires AllBelow(a, p) && AllAbove(b, p) && q in b && b[q] == g && forall k :: k in b ==> q <= k
    ensures AllBelow(a, q) && AllAbove(b - {q}, q)
    ensures a + map[q := g] + (b - {q}) == (a + map[p := h] + b) - {p}
  {
  }

  // Traversal

  /** In-order for asks, reverse in-order for bids: from the inside outwards. */
  ghost function InOrder(side: Side, t: Tree): seq<(Price, Handle)> {
    if t.Leaf? then []
    else if side.Buy? then InOrder(side, t.right) + [(t.price, t.level)] + InOrder(side, t.left)
    else InOrder(side, t.left) + [(t.price, t.level)] + InOrder(side, t.right)
  }

  ghost function InOrderPrices(side: Side, t: Tree): seq<Price> {
    if t.Leaf? then []
    else if side.Buy? then InOrderPrices(side, t.right) + [t.price] + InOrderPrices(side, t.left)
    else InOrderPrices(side, t.left) + [t.price] + InOrderPrices(side, t.right)
  }

  lemma {:induction false} InOrderLabelled(side: Side, t: Tree)
    requires Ordered(t)
    ensures Labelled(InOrder(side, t), InOrderPrices(side, t), Contents(t))
  {
    hide Contents, Ordered, Slots, Separate, Labelled;
    LabelledNone(Contents(t));
    if t.Node? {
      Unfold(t);
      var all, here := Contents(t), map[t.price := t.level];
      assert here == map[][t.price := t.level];
      InOrderLabelled(side, t.left);
      InOrderLabelled(side, t.right);
      LabelledNone(here);
      LabelledSnoc([], [], here, t.price, t.level);
      assert [] + [(t.price, t.level)] == [(t.price, t.level)];
      RootContents(t);
      if side.Buy? {
        LabelledConcat(InOrder(side, t.right), InOrderPrices(side, t.right), Contents(t.right), [(t.price, t.level)],
            [t.price], here, all);
        LabelledConcat(InOrder(side, t.right) + [(t.price, t.level)], InOrderPrices(side, t.right) + [t.price], all,
                       InOrder(side, t.left), InOrderPrices(side, t.left), Contents(t.left), all);
      } else {
        LabelledConcat(InOrder(side, t.left), InOrderPrices(side, t.left), Contents(t.left), [(t.price, t.level)],
            [t.price], here, all);
        LabelledConcat(InOrder(side, t.left) + [(t.price, t.level)], InOrderPrices(side, t.left) + [t.price], all,
                       InOrder(side, t.right), InOrderPrices(side, t.right), Contents(t.right), all);
      }
    }
  }

  /** Search order keeps the three parts of a node's contents apart, so none hides another. */
  lemma RootContents(t: Tree)
    requires t.Node? && Ordered(t)
    ensures t.price in Contents(t) && Contents(t)[t.price] == t.level
    ensures forall p :: p in Contents(t.left) ==>
              p < t.price && p in Contents(t) && Contents(t)[p] == Contents(t.left)[p]
    ensures forall p :: p in Contents(t.right) ==>
              t.price < p && p in Contents(t) && Contents(t)[p] == Contents(t.right)[p]
    ensures forall p :: p in Contents(t) ==> p == t.price || p in Contents(t.left) || p in Contents(t.right)
  {
    hide Contents, Ordered, Slots, Separate;
    Unfold(t);
  }

  lemma {:induction false} InOrderSorted(side: Side, t: Tree)
    requires Ordered(t)
    ensures InsideOut(side, InOrderPrices(side, t)) && Lists(InOrderPrices(side, t), Contents(t).Keys)
  {
    hide Contents, Ordered, Slots, Separate, InsideOut, Lists;
    if t.Node? {
      Unfold(t);
      RootContents(t);
      InOrderSorted(side, t.left);
      InOrderSorted(side, t.right);
      var l, r := Contents(t.left).Keys, Contents(t.right).Keys;
      if side.Buy? {
        JoinSorted(side, InOrderPrices(side, t.right), r, t.price, InOrderPrices(side, t.left), l);
        assert Contents(t).Keys == r + {t.price} + l;
      } else {
        JoinSorted(side, InOrderPrices(side, t.left), l, t.price, InOrderPrices(side, t.right), r);
        assert Contents(t).Keys == l + {t.price} + r;
      }
    } else {
      LeafEmpty();
      NoPrices(side);
      assert Contents(t).Keys == {};
    }
  }

  lemma NoPrices(side: Side)
    ensures InsideOut(side, []) && Lists([], {})
  {
  }

  lemma JoinSorted(side: Side, a: seq<Price>, ps: set<Price>, p: Price, b: seq<Price>, qs: set<Price>)
    requires InsideOut(side, a) && Lists(a, ps) && InsideOut(side, b) && Lists(b, qs)
    requires forall k :: k in ps ==> side.Inside(k, p)
    requires forall k :: k in qs ==> side.Inside(p, k)
    ensures InsideOut(side, a + [p] + b) && Lists(a + [p] + b, ps + {p} + qs)
  {
    assert forall i :: 0 <= i < |a| ==> a[i] in a;
    assert forall i :: 0 <= i < |b| ==> b[i] in b;
  }

  /** The traversal emits every level exactly once, strictly from the inside outwards, each with its own handle. */
  lemma InOrderIsSorted(side: Side, t: Tree)
    requires Ordered(t)
    ensures Labelled(InOrder(side, t), Sorted(side, Contents(t).Keys), Contents(t))
  {
    hide Contents, Ordered, Labelled, InsideOut, Lists;
    InOrderLabelled(side, t);
    InOrderSorted(side, t);
    SortedUnique(side, Contents(t).Keys, InOrderPrices(side, t));
  }

  // Height

  function Fib(n: nat): nat {
    if n == 0 then 0 else if n == 1 then 1 else Fib(n - 1) + Fib(n - 2)
  }

  lemma FibStep(h: nat)
    ensures Fib(h + 3) == Fib(h + 2) + Fib(h + 1) && Fib(h + 1) <= Fib(h + 2)
    ensures Fib(2) == Fib(1) == 1
  {
  }

  lemma OrderedNode(t: Tree)
    requires t.Node? && Ordered(t)
    ensures Ordered(t.left) && Ordered(t.right)
  {
  }

  lemma FibPair(a: nat, b: nat)
    requires -1 <= a - b <= 1
    ensures Fib(a + 2) + Fib(b + 2) >= Fib(Max(a, b) + 3)
  {
    hide Fib;
    var h := Max(a, b);
    FibStep(h);
    if a < h {
      assert a + 2 == h + 1 && b == h;
    } else if b < h {
      assert b + 2 == h + 1;
    }
  }

  /** In numbers: no side that a pool can fill needs more than 34 comparisons. */
  lemma HeightInNumbers(t: Tree)
    requires Balanced(t) && Ordered(t) && |Contents(t)| <= MAX_CAPACITY
    ensures Height(t) <= 34
  {
    hide Contents, Ordered, Fib, Height, Balanced;
    HeightBound(t);
    FibThirtySeven();
    if Height(t) > 34 {
      FibGrows(37, Height(t) + 2);
    }
  }

  lemma FibThirtySeven()
    ensures Fib(37) == 24_157_817
  {
    assert Fib(8) == 21 && Fib(9) == 34;
    assert Fib(16) == 987 && Fib(17) == 1597;
    assert Fib(24) == 46_368 && Fib(25) == 75_025;
    assert Fib(32) == 2_178_309 && Fib(33) == 3_524_578;
  }

  lemma {:induction false} FibGrows(a: nat, b: nat)
    requires 1 <= a <= b
    ensures Fib(a) <= Fib(b)
    decreases b
  {
    if a < b {
      FibGrows(a, b - 1);
    }
  }

  /** A tree of height h holds at least Fib(h + 2) - 1 levels, so its height is logarithmic in their number. */
  lemma {:induction false} HeightBound(t: Tree)
    requires Balanced(t) && Ordered(t)
    ensures Fib(Height(t) + 2) - 1 <= |Contents(t)|
  {
    hide Contents, Ordered, Fib;
    FibStep(0);
    if t.Leaf? {
      LeafEmpty();
    } else {
      OrderedNode(t);
      HeightBound(t.left);
      HeightBound(t.right);
      CountNode(t);
      FibPair(Height(t.left), Height(t.right));
    }
  }

  lemma CountNode(t: Tree)
    requires t.Node? && Ordered(t)
    ensures |Contents(t)| == |Contents(t.left)| + 1 + |Contents(t.right)|
  {
    hide Contents, Ordered, Slots, Separate;
    RootContents(t);
    var l, r := Contents(t.left).Keys, Contents(t.right).Keys;
    assert Contents(t).Keys == l + {t.price} + r;
    assert |l + {t.price} + r| == |l| + 1 + |r|;
  }

  lemma {:induction false} SlotCount(t: Tree)
    requires Ordered(t) && Separate(t)
    ensures |Slots(t)| == |Contents(t)|
  {
    hide Contents, Ordered, Slots, Separate;
    LeafEmpty();
    if t.Node? {
      Unfold(t);
      SlotCount(t.left);
      SlotCount(t.right);
      CountNode(t);
      assert |Slots(t.left) + {t.slot} + Slots(t.right)| == |Slots(t.left)| + 1 + |Slots(t.right)|;
    }
  }

  // The two ends and the explicit-stack walk

  /** The child a traversal from the inside visits first, and the one it visits last. */
  function Near(side: Side, t: Tree): Tree
    requires t.Node?
  {
    if side.Buy? then t.right else t.left
  }

  function Far(side: Side, t: Tree): Tree
    requires t.Node?
  {
    if side.Buy? then t.left else t.right
  }

  lemma BestDescends(side: Side, t: Tree)
    requires t.Node? && Ordered(t)
    ensures Near(side, t).Node? ==> Best(side, Contents(Near(side, t)).Keys) == Best(side, Contents(t).Keys)
    ensures Near(side, t).Leaf? ==> Best(side, Contents(t).Keys) == t.price
  {
    hide Contents, Ordered;
    LeafEmpty();
    RootContents(t);
    var near := Near(side, t);
    if near.Node? {
      NodeNonEmpty(near);
      assert Best(side, Contents(near).Keys) in Contents(t).Keys;
    }
    assert Best(side, Contents(t).Keys) in Contents(t).Keys;
  }

  lemma NodeNonEmpty(t: Tree)
    requires t.Node?
    ensures t.price in Contents(t)
  {
  }

  /** What the nodes on the explicit stack still have to emit, top of the stack first. */
  ghost function Pending(side: Side, trees: seq<Tree>): seq<(Price, Handle)>
    requires forall k :: 0 <= k < |trees| ==> trees[k].Node?
  {
    if trees == [] then [] else
      var n := |trees| - 1;
      [(trees[n].price, trees[n].level)] + InOrder(side, Far(side, trees[n])) + Pending(side, trees[..n])
  }

  lemma InOrderParts(side: Side, t: Tree)
    requires t.Node?
    ensures InOrder(side, t) == InOrder(side, Near(side, t)) + [(t.price, t.level)] + InOrder(side, Far(side, t))
  {
  }

  lemma PendingStart(side: Side, t: Tree)
    ensures [] + (InOrder(side, t) + Pending(side, [])) == InOrder(side, t)
  {
  }

  lemma Bracket<T>(a: seq<T>, b: seq<T>, c: seq<T>, d: seq<T>)
    ensures a + (b + c + d) == (a + b + c) + d
    ensures a + (b + c) == (a + b) + c
  {
  }

  lemma PendingPush(side: Side, t: Tree, trees: seq<Tree>)
    requires t.Node? && forall k :: 0 <= k < |trees| ==> trees[k].Node?
    ensures InOrder(side, Near(side, t)) + Pending(side, trees + [t]) == InOrder(side, t) + Pending(side, trees)
  {
    hide InOrder;
    InOrderParts(side, t);
    assert (trees + [t])[..|trees|] == trees;
    Bracket(InOrder(side, Near(side, t)), [(t.price, t.level)], InOrder(side, Far(side, t)), Pending(side, trees));
  }

  lemma PendingPop(side: Side, leaf: Tree, trees: seq<Tree>, out: seq<(Price, Handle)>)
    requires leaf.Leaf? && trees != [] && forall k :: 0 <= k < |trees| ==> trees[k].Node?
    ensures var n := |trees| - 1;
            out + (InOrder(side, leaf) + Pending(side, trees)) ==
              out + [(trees[n].price, trees[n].level)] +
              (InOrder(side, Far(side, trees[n])) + Pending(side, trees[..n])) &&
            |InOrder(side, leaf) + Pending(side, trees)| ==
              1 + |InOrder(side, Far(side, trees[n])) + Pending(side, trees[..n])|
  {
    var n := |trees| - 1;
    var top, rest := [(trees[n].price, trees[n].level)], InOrder(side, Far(side, trees[n])) + Pending(side, trees[..n]);
    PendingTop(side, leaf, trees);
    hide InOrder, Pending;
    Bracket([], top, InOrder(side, Far(side, trees[n])), Pending(side, trees[..n]));
    assert InOrder(side, leaf) + Pending(side, trees) == top + rest;
    Bracket(out, top, rest, []);
  }

  lemma PendingTop(side: Side, leaf: Tree, trees: seq<Tree>)
    requires leaf.Leaf? && trees != [] && forall k :: 0 <= k < |trees| ==> trees[k].Node?
    ensures var n := |trees| - 1;
            && InOrder(side, leaf) == []
            && Pending(side, trees) == [(trees[n].price, trees[n].level)] + InOrder(side, Far(side, trees[n])) +
                                       Pending(side, trees[..n])
  {
  }

  lemma PendingEnd(side: Side, leaf: Tree, trees: seq<Tree>)
    requires leaf.Leaf? && trees == []
    ensures InOrder(side, leaf) + Pending(side, trees) == []
  {
  }
}
