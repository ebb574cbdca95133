/** A hand-written AVL tree of price levels, its nodes in one vector with a free list threaded through them. */
module AvlLevelMaps {
  import opened Core
  import opened PriceSets
  import A = AvlSpec

  const NONE: nat := 0xFFFF_FFFF

  datatype AvlNode = AvlNode(price: Price, level: Handle, left: nat, right: nat, height: nat)

  function Root(t: A.Tree): nat {
    if t.Leaf? then NONE else t.slot
  }

  function Record(t: A.Tree): AvlNode
    requires t.Node?
  {
    AvlNode(t.price, t.level, Root(t.left), Root(t.right), t.height)
  }

  /** The vector stores the tree, node by node. */
  ghost predicate Stored(nodes: seq<AvlNode>, t: A.Tree) {
    && |nodes| <= NONE
    && (t.Node? ==>
          && t.slot < |nodes| && nodes[t.slot] == Record(t)
          && Stored(nodes, t.left) && Stored(nodes, t.right))
  }

  /** Only the slots of one tree may have changed. */
  ghost predicate ChangedOnly(before: seq<AvlNode>, after: seq<AvlNode>, slots: set<nat>) {
    && |before| <= |after|
    && forall i :: 0 <= i < |before| && i !in slots ==> after[i] == before[i]
  }

  lemma {:induction false} StoredElsewhere(before: seq<AvlNode>, after: seq<AvlNode>, slots: set<nat>, t: A.Tree)
    requires Stored(before, t) && ChangedOnly(before, after, slots) && slots !! A.Slots(t) && |after| <= NONE
    ensures Stored(after, t)
  {
    hide A.Slots;
    if t.Node? {
      A.Unfold(t);
      StoredElsewhere(before, after, slots, t.left);
      StoredElsewhere(before, after, slots, t.right);
    }
  }

  lemma StoredParts(nodes: seq<AvlNode>, t: A.Tree)
    requires Stored(nodes, t) && t.Node?
    ensures t.slot < |nodes| <= NONE && nodes[t.slot] == Record(t)
    ensures Stored(nodes, t.left) && Stored(nodes, t.right)
  {
  }

  lemma StoredJoin(nodes: seq<AvlNode>, t: A.Tree)
    requires t.Node? && t.slot < |nodes| <= NONE && nodes[t.slot] == Record(t)
    requires Stored(nodes, t.left) && Stored(nodes, t.right)
    ensures Stored(nodes, t)
  {
  }

  lemma {:induction false} SlotsInRange(nodes: seq<AvlNode>, t: A.Tree)
    requires Stored(nodes, t)
    ensures forall i :: i in A.Slots(t) ==> i < |nodes|
  {
    if t.Node? {
      SlotsInRange(nodes, t.left);
      SlotsInRange(nodes, t.right);
    }
  }

  // The free list

  /** The slot below depth k of the free stack; NONE at the bottom. */
  ghost function Below(stack: seq<nat>, k: nat): nat
    requires k <= |stack|
  {
    if k == 0 then NONE else stack[k - 1]
  }

  ghost predicate IsFreeList(nodes: seq<AvlNode>, free: nat, stack: seq<nat>) {
    && free == Below(stack, |stack|)
    && (forall k {:trigger stack[k]} :: 0 <= k < |stack| ==> stack[k] < |nodes| <= NONE)
    && (forall k, l :: 0 <= k < l < |stack| ==> stack[k] != stack[l])
    && (forall k {:trigger nodes[stack[k]].left} :: 0 <= k < |stack| ==> nodes[stack[k]].left == Below(stack, k))
  }

  ghost function SetOf(stack: seq<nat>): set<nat> {
    set k | 0 <= k < |stack| :: stack[k]
  }

  lemma FreeElsewhere(before: seq<AvlNode>, after: seq<AvlNode>, slots: set<nat>, free: nat, stack: seq<nat>)
    requires IsFreeList(before, free, stack) && ChangedOnly(before, after, slots) && slots !! SetOf(stack) &&
             |after| <= NONE
    ensures IsFreeList(after, free, stack)
  {
    assert forall k :: 0 <= k < |stack| ==> stack[k] in SetOf(stack);
  }

  lemma FreePop(nodes: seq<AvlNode>, free: nat, stack: seq<nat>)
    requires IsFreeList(nodes, free, stack) && stack != []
    ensures free < |nodes| && free == stack[|stack| - 1] && free in SetOf(stack)
    ensures IsFreeList(nodes, nodes[free].left, stack[..|stack| - 1])
    ensures SetOf(stack[..|stack| - 1]) == SetOf(stack) - {free}
  {
    var n := |stack| - 1;
    assert forall x :: x in SetOf(stack[..n]) ==> x in SetOf(stack);
    assert forall x :: x in SetOf(stack) && x != free ==> x in SetOf(stack[..n]) by {
      forall x | x in SetOf(stack) && x != free ensures x in SetOf(stack[..n]) {
        var k :| 0 <= k < |stack| && stack[k] == x;
        assert stack[..n][k] == x;
      }
    }
  }

  lemma FreePush(nodes: seq<AvlNode>, free: nat, stack: seq<nat>, i: nat)
    requires IsFreeList(nodes, free, stack) && i < |nodes| <= NONE && i !in SetOf(stack)
    ensures IsFreeList(nodes[i := nodes[i].(left := free)], i, stack + [i])
    ensures SetOf(stack + [i]) == SetOf(stack) + {i}
  {
    var nodes', stack' := nodes[i := nodes[i].(left := free)], stack + [i];
    assert forall k :: 0 <= k < |stack| ==> stack[k] in SetOf(stack) && stack'[k] == stack[k];
    assert stack'[|stack|] == i;
    assert forall x :: x in SetOf(stack) ==> x in SetOf(stack') by {
      forall x | x in SetOf(stack) ensures x in SetOf(stack') {
        var k :| 0 <= k < |stack| && stack[k] == x;
        assert stack'[k] == x;
      }
    }
  }

  // Writing nodes

  lemma WriteRoot(nodes: seq<AvlNode>, t: A.Tree)
    requires t.Node? && t.slot < |nodes| <= NONE && Stored(nodes, t.left) && Stored(nodes, t.right)
    requires t.slot !in A.Slots(t.left) && t.slot !in A.Slots(t.right)
    ensures Stored(nodes[t.slot := Record(t)], t)
    ensures ChangedOnly(nodes, nodes[t.slot := Record(t)], {t.slot})
  {
    hide A.Slots;
    var nodes' := nodes[t.slot := Record(t)];
    StoredElsewhere(nodes, nodes', {t.slot}, t.left);
    StoredElsewhere(nodes, nodes', {t.slot}, t.right);
  }

  lemma ChangedTwice(a: seq<AvlNode>, b: seq<AvlNode>, c: seq<AvlNode>, r: set<nat>, s: set<nat>, u: set<nat>)
    requires ChangedOnly(a, b, r) && ChangedOnly(b, c, s) && r <= u && s <= u
    ensures ChangedOnly(a, c, u)
  {
  }

  function HeightIn(nodes: seq<AvlNode>, n: nat): nat
    requires n != NONE ==> n < |nodes|
  {
    if n == NONE then 0 else nodes[n].height
  }

  lemma HeightStored(nodes: seq<AvlNode>, t: A.Tree)
    requires Stored(nodes, t)
    ensures |nodes| <= NONE && (Root(t) != NONE <==> t.Node?)
    ensures Root(t) != NONE ==> Root(t) < |nodes|
    ensures HeightIn(nodes, Root(t)) == A.Height(t)
  {
  }

  class AvlLevelMap {
    const side: Side
    var nodes: seq<AvlNode>
    var root: nat
    var free: nat
    var size: nat

    ghost var tree: A.Tree
    ghost var stack: seq<nat>

    /** 1 + max of the children's heights, stored in place. */
    method Retune(n: nat, ghost t: A.Tree)
      requires t.Node? && t.slot == n && Stored(nodes, t) && n !in A.Slots(t.left) && n !in A.Slots(t.right)
      modifies this`nodes
      ensures Stored(nodes, A.Retune(t)) && ChangedOnly(old(nodes), nodes, {n}) && |nodes| == old(|nodes|)
    {
      hide Stored, ChangedOnly, A.Slots;
      StoredParts(nodes, t);
      HeightStored(nodes, t.left);
      HeightStored(nodes, t.right);
      WriteRoot(nodes, A.Retune(t));
      nodes := nodes[n := nodes[n].(height := 1 + A.Max(HeightIn(nodes, nodes[n].left),
          HeightIn(nodes, nodes[n].right)))];
    }

    /** nodes_[n].left = v, the vector then storing t. */
    method LinkLeft(n: nat, v: nat, ghost was: A.Tree, ghost t: A.Tree)
      requires t.Node? && was.Node? && t.slot == n == was.slot && n < |nodes| && Stored(nodes, t.left) &&
               Stored(nodes, t.right)
      requires nodes[n] == Record(was) && Record(t) == Record(was).(left := v)
      requires n !in A.Slots(t.left) && n !in A.Slots(t.right)
      modifies this`nodes
      ensures Stored(nodes, t) && ChangedOnly(old(nodes), nodes, {n}) && |nodes| == old(|nodes|)
    {
      hide ChangedOnly, A.Slots;
      WriteRoot(nodes, t);
      nodes := nodes[n := nodes[n].(left := v)];
    }

    method LinkRight(n: nat, v: nat, ghost was: A.Tree, ghost t: A.Tree)
      requires t.Node? && was.Node? && t.slot == n == was.slot && n < |nodes| && Stored(nodes, t.left) &&
               Stored(nodes, t.right)
      requires nodes[n] == Record(was) && Record(t) == Record(was).(right := v)
      requires n !in A.Slots(t.left) && n !in A.Slots(t.right)
      modifies this`nodes
      ensures Stored(nodes, t) && ChangedOnly(old(nodes), nodes, {n}) && |nodes| == old(|nodes|)
    {
      hide ChangedOnly, A.Slots;
      WriteRoot(nodes, t);
      nodes := nodes[n := nodes[n].(right := v)];
    }

    method RotateRight(y: nat, ghost t: A.Tree) returns (x: nat)
      requires t.Node? && t.left.Node? && t.slot == y && Stored(nodes, t) && A.Separate(t)
      modifies this`nodes
      ensures Stored(nodes, A.RotateRight(t)) && x == Root(A.RotateRight(t))
      ensures ChangedOnly(old(nodes), nodes, A.Slots(t)) && |nodes| == old(|nodes|)
    {
      hide Stored, ChangedOnly, A.Slots, A.Separate, A.Contents, A.Ordered;
      ghost var l := t.left;
      A.Unfold(t);
      A.Unfold(l);
      StoredParts(nodes, t);
      StoredParts(nodes, l);
      HeightStored(nodes, l);
      x := nodes[y].left;

      ghost var n0 := nodes;
      ghost var t1 := t.(left := l.right);
      LinkLeft(y, nodes[x].right, t, t1);
      StoredElsewhere(n0, nodes, {y}, l.left);
      SlotKept(n0, nodes, {y}, x);
      A.Unfold(t1);

      ghost var n1 := nodes;
      ghost var l1 := l.(right := t1);
      LinkRight(x, y, l, l1);
      A.Unfold(l1);
      StoredParts(nodes, l1);

      ghost var n2 := nodes;
      Retune(y, t1);
      ghost var l2 := l1.(right := A.Retune(t1));
      A.Unfold(l2.right);
      A.Unfold(l2);
      StoredElsewhere(n2, nodes, {y}, l.left);
      SlotKept(n2, nodes, {y}, x);
      StoredJoin(nodes, l2);

      ghost var n3 := nodes;
      Retune(x, l2);
      ChangedTwice(n0, n1, n2, {y}, {x}, A.Slots(t));
      ChangedTwice(n2, n3, nodes, {y}, {x}, A.Slots(t));
      ChangedTwice(n0, n2, nodes, A.Slots(t), A.Slots(t), A.Slots(t));
    }

    method RotateLeft(x: nat, ghost t: A.Tree) returns (y: nat)
      requires t.Node? && t.right.Node? && t.slot == x && Stored(nodes, t) && A.Separate(t)
      modifies this`nodes
      ensures Stored(nodes, A.RotateLeft(t)) && y == Root(A.RotateLeft(t))
      ensures ChangedOnly(old(nodes), nodes, A.Slots(t)) && |nodes| == old(|nodes|)
    {
      hide Stored, ChangedOnly, A.Slots, A.Separate, A.Contents, A.Ordered;
      ghost var r := t.right;
      A.Unfold(t);
      A.Unfold(r);
      StoredParts(nodes, t);
      StoredParts(nodes, r);
      HeightStored(nodes, r);
      y := nodes[x].right;

      ghost var n0 := nodes;
      ghost var t1 := t.(right := r.left);
      LinkRight(x, nodes[y].left, t, t1);
      StoredElsewhere(n0, nodes, {x}, r.right);
      SlotKept(n0, nodes, {x}, y);
      A.Unfold(t1);

      ghost var n1 := nodes;
      ghost var r1 := r.(left := t1);
      LinkLeft(y, x, r, r1);
      A.Unfold(r1);
      StoredParts(nodes, r1);

      ghost var n2 := nodes;
      Retune(x, t1);
      ghost var r2 := r1.(left := A.Retune(t1));
      A.Unfold(r2.left);
      A.Unfold(r2);
      StoredElsewhere(n2, nodes, {x}, r.right);
      SlotKept(n2, nodes, {x}, y);
      StoredJoin(nodes, r2);

      ghost var n3 := nodes;
      Retune(y, r2);
      ChangedTwice(n0, n1, n2, {x}, {y}, A.Slots(t));
      ChangedTwice(n2, n3, nodes, {x}, {y}, A.Slots(t));
      ChangedTwice(n0, n2, nodes, A.Slots(t), A.Slots(t), A.Slots(t));
    }

    function BalanceOf(n: nat): int
      requires n != NONE ==> n < |nodes| && (nodes[n].left != NONE ==> nodes[n].left < |nodes|) &&
                             (nodes[n].right != NONE ==> nodes[n].right < |nodes|)
      reads this`nodes
    {
      if n == NONE then 0 else HeightIn(nodes, nodes[n].left) - HeightIn(nodes, nodes[n].right)
    }

    method Rebalance(n: nat, ghost t: A.Tree) returns (m: nat)
      requires A.Tilted(t) && t.slot == n && Stored(nodes, t) && A.Separate(t)
      modifies this`nodes
      ensures Stored(nodes, A.Rebalance(t)) && m == Root(A.Rebalance(t))
      ensures ChangedOnly(old(nodes), nodes, A.Slots(t)) && |nodes| == old(|nodes|)
    {
      hide Stored, ChangedOnly, A.Slots, A.Separate, A.Contents, A.Ordered;
      A.TiltedCanRotate(t);
      A.Unfold(t);
      ghost var u := A.Retune(t);
      Retune(n, t);
      A.Unfold(u);
      WidenTo(old(nodes), nodes, {n}, A.Slots(t));
      BalanceStored(u);
      ghost var n1 := nodes;
      var b := BalanceOf(n);
      if b > 1 {
        m := LeanLeft(n, u);
        ChangedTwice(old(nodes), n1, nodes, A.Slots(t), A.Slots(t), A.Slots(t));
      } else if b < -1 {
        m := LeanRight(n, u);
        ChangedTwice(old(nodes), n1, nodes, A.Slots(t), A.Slots(t), A.Slots(t));
      } else {
        m := n;
      }
    }

    lemma BalanceStored(t: A.Tree)
      requires Stored(nodes, t) && t.Node?
      ensures var n := Root(t);
              n < |nodes| && n != NONE && nodes[n].left == Root(t.left) && nodes[n].right == Root(t.right) &&
              (nodes[n].left != NONE ==> nodes[n].left < |nodes|) &&
              (nodes[n].right != NONE ==> nodes[n].right < |nodes|) &&
              BalanceOf(n) == A.Balance(t)
    {
      HeightStored(nodes, t.left);
      HeightStored(nodes, t.right);
    }

    method LeanLeft(n: nat, ghost t: A.Tree) returns (m: nat)
      requires t.Node? && t.left.Node? && (A.Balance(t.left) < 0 ==> t.left.right.Node?)
      requires t.slot == n && Stored(nodes, t) && A.Separate(t)
      modifies this`nodes
      ensures var u := A.RotateRight(if A.Balance(t.left) < 0 then t.(left := A.RotateLeft(t.left)) else t);
              Stored(nodes, u) && m == Root(u)
      ensures ChangedOnly(old(nodes), nodes, A.Slots(t)) && |nodes| == old(|nodes|)
    {
      hide Stored, ChangedOnly, A.Slots, A.Separate, A.Contents, A.Ordered, A.RotateLeft, A.RotateRight;
      ghost var u := t;
      BalanceStored(t);
      StoredParts(nodes, t);
      BalanceStored(t.left);
      A.Unfold(t);
      if BalanceOf(nodes[n].left) < 0 {
        A.RotateLeftKeeps(t.left);
        var l := RotateLeft(nodes[n].left, t.left);
        u := t.(left := A.RotateLeft(t.left));
        ghost var n1 := nodes;
        StoredElsewhere(old(nodes), nodes, A.Slots(t.left), t.right);
        SlotKept(old(nodes), nodes, A.Slots(t.left), n);
        LinkLeft(n, l, t, u);
        A.Unfold(u);
        ChangedTwice(old(nodes), n1, nodes, A.Slots(t.left), {n}, A.Slots(t));
      } else {
        NothingChanged(nodes, A.Slots(t));
      }
      ghost var n2 := nodes;
      m := RotateRight(n, u);
      ChangedTwice(old(nodes), n2, nodes, A.Slots(t), A.Slots(t), A.Slots(t));
    }

    method LeanRight(n: nat, ghost t: A.Tree) returns (m: nat)
      requires t.Node? && t.right.Node? && (A.Balance(t.right) > 0 ==> t.right.left.Node?)
      requires t.slot == n && Stored(nodes, t) && A.Separate(t)
      modifies this`nodes
      ensures var u := A.RotateLeft(if A.Balance(t.right) > 0 then t.(right := A.RotateRight(t.right)) else t);
              Stored(nodes, u) && m == Root(u)
      ensures ChangedOnly(old(nodes), nodes, A.Slots(t)) && |nodes| == old(|nodes|)
    {
      hide Stored, ChangedOnly, A.Slots, A.Separate, A.Contents, A.Ordered, A.RotateLeft, A.RotateRight;
      ghost var u := t;
      BalanceStored(t);
      StoredParts(nodes, t);
      BalanceStored(t.right);
      A.Unfold(t);
      if BalanceOf(nodes[n].right) > 0 {
        A.RotateRightKeeps(t.right);
        var r := RotateRight(nodes[n].right, t.right);
        u := t.(right := A.RotateRight(t.right));
        ghost var n1 := nodes;
        StoredElsewhere(old(nodes), nodes, A.Slots(t.right), t.left);
        SlotKept(old(nodes), nodes, A.Slots(t.right), n);
        LinkRight(n, r, t, u);
        A.Unfold(u);
        ChangedTwice(old(nodes), n1, nodes, A.Slots(t.right), {n}, A.Slots(t));
      } else {
        NothingChanged(nodes, A.Slots(t));
      }
      ghost var n2 := nodes;
      m := RotateLeft(n, u);
      ChangedTwice(old(nodes), n2, nodes, A.Slots(t), A.Slots(t), A.Slots(t));
    }

    // Nodes from the vector and back

    /** Where the next node will be stored. */
    ghost function NextSlot(): nat
      reads this
    {
      if stack == [] then |nodes| else free
    }

    ghost predicate RoomForOne()
      reads this
    {
      stack == [] ==> |nodes| < NONE
    }

    method NewNode(p: Price, h: Handle) returns (i: nat)
      requires IsFreeList(nodes, free, stack) && |nodes| <= NONE && RoomForOne()
      modifies this`nodes, this`free, this`stack
      ensures i == old(NextSlot()) && i < |nodes| <= NONE && nodes[i] == AvlNode(p, h, NONE, NONE, 1)
      ensures IsFreeList(nodes, free, stack) && SetOf(stack) == old(SetOf(stack)) - {i}
      ensures ChangedOnly(old(nodes), nodes, {i})
      ensures |nodes| == old(|nodes|) + if old(stack) == [] then 1 else 0
    {
      hide IsFreeList, SetOf;
      StackInRange(nodes, free, stack);
      if free != NONE {
        FreePop(nodes, free, stack);
        i := free;
        free := nodes[i].left;
        stack := stack[..|stack| - 1];
      } else {
        i := |nodes|;
        nodes := nodes + [AvlNode(p, h, NONE, NONE, 1)];
        StackInRange(old(nodes), free, stack);
      }
      nodes := nodes[i := AvlNode(p, h, NONE, NONE, 1)];
      FreeElsewhere(old(nodes), nodes, {i}, free, stack);
    }

    method ReleaseNode(i: nat)
      requires IsFreeList(nodes, free, stack) && i < |nodes| <= NONE && i !in SetOf(stack)
      modifies this`nodes, this`free, this`stack
      ensures IsFreeList(nodes, free, stack) && SetOf(stack) == old(SetOf(stack)) + {i}
      ensures ChangedOnly(old(nodes), nodes, {i}) && |nodes| == old(|nodes|)
    {
      hide IsFreeList, SetOf;
      FreePush(nodes, free, stack, i);
      nodes := nodes[i := nodes[i].(left := free)];
      free := i;
      stack := stack + [i];
    }

    // Insertion

    ghost predicate CanInsert(n: nat, p: Price, t: A.Tree)
      reads this
    {
      && Stored(nodes, t) && n == Root(t) && A.Balanced(t) && A.Ordered(t) && A.Separate(t) && p !in A.Contents(t)
      && IsFreeList(nodes, free, stack) && SetOf(stack) !! A.Slots(t) && NextSlot() !in A.Slots(t) && RoomForOne()
    }

    /** What every insertion step leaves: u stored, one slot taken from the free list or appended, nothing else
      touched. */
    twostate predicate Inserted(u: A.Tree, m: nat, slots: set<nat>)
      reads this
    {
      && Stored(nodes, u) && m == Root(u)
      && IsFreeList(nodes, free, stack) && SetOf(stack) == old(SetOf(stack)) - {old(NextSlot())}
      && ChangedOnly(old(nodes), nodes, slots + {old(NextSlot())})
      && |nodes| == old(|nodes|) + if old(stack) == [] then 1 else 0
    }

    method InsertAt(n: nat, p: Price, h: Handle, ghost t: A.Tree) returns (m: nat)
      requires CanInsert(n, p, t)
      modifies this`nodes, this`free, this`stack
      ensures Inserted(A.Insert(t, p, h, old(NextSlot())), m, A.Slots(t))
      decreases t, 1
    {
      hide Stored, ChangedOnly, IsFreeList, SetOf, A.Slots, A.Separate, A.Contents, A.Ordered, A.Rebalance;
      HeightStored(nodes, t);
      if n == NONE {
        A.LeafEmpty();
        m := NewNode(p, h);
        StackInRange(nodes, free, stack);
        LeafStored(nodes);
        StoredJoin(nodes, A.Insert(t, p, h, old(NextSlot())));
        WidenTo(old(nodes), nodes, {m}, A.Slots(t) + {m});
        return;
      }
      StoredParts(nodes, t);
      A.Unfold(t);
      if p < nodes[n].price {
        m := InsertBelowLeft(n, p, h, t);
      } else {
        m := InsertBelowRight(n, p, h, t);
      }
    }

    method InsertBelowLeft(n: nat, p: Price, h: Handle, ghost t: A.Tree) returns (m: nat)
      requires t.Node? && p < t.price && CanInsert(n, p, t)
      modifies this`nodes, this`free, this`stack
      ensures Inserted(A.Insert(t, p, h, old(NextSlot())), m, A.Slots(t))
      decreases t, 0
    {
      hide Stored, ChangedOnly, IsFreeList, SetOf, A.Slots, A.Separate, A.Contents, A.Ordered, A.Rebalance;
      ghost var slot := NextSlot();
      A.Unfold(t);
      StoredParts(nodes, t);
      A.InsertKeeps(t.left, p, h, slot);
      var l := InsertAt(nodes[n].left, p, h, t.left);
      ghost var n1, changed := nodes, A.Slots(t.left) + {slot};
      ghost var u := t.(left := A.Insert(t.left, p, h, slot));
      StoredElsewhere(old(nodes), nodes, changed, t.right);
      SlotKept(old(nodes), nodes, changed, n);
      LinkLeft(n, l, t, u);
      A.Unfold(u);
      ghost var n2 := nodes;
      m := Rebalance(n, u);
      ChangedThrice(old(nodes), n1, n2, nodes, changed, {n}, A.Slots(u), A.Slots(t) + {slot});
      FreeElsewhere(n1, nodes, A.Slots(t) + {slot}, free, stack);
    }

    method InsertBelowRight(n: nat, p: Price, h: Handle, ghost t: A.Tree) returns (m: nat)
      requires t.Node? && p > t.price && CanInsert(n, p, t)
      modifies this`nodes, this`free, this`stack
      ensures Inserted(A.Insert(t, p, h, old(NextSlot())), m, A.Slots(t))
      decreases t, 0
    {
      hide Stored, ChangedOnly, IsFreeList, SetOf, A.Slots, A.Separate, A.Contents, A.Ordered, A.Rebalance;
      ghost var slot := NextSlot();
      A.Unfold(t);
      StoredParts(nodes, t);
      A.InsertKeeps(t.right, p, h, slot);
      var r := InsertAt(nodes[n].right, p, h, t.right);
      ghost var n1, changed := nodes, A.Slots(t.right) + {slot};
      ghost var u := t.(right := A.Insert(t.right, p, h, slot));
      StoredElsewhere(old(nodes), nodes, changed, t.left);
      SlotKept(old(nodes), nodes, changed, n);
      LinkRight(n, r, t, u);
      A.Unfold(u);
      ghost var n2 := nodes;
      m := Rebalance(n, u);
      ChangedThrice(old(nodes), n1, n2, nodes, changed, {n}, A.Slots(u), A.Slots(t) + {slot});
      FreeElsewhere(n1, nodes, A.Slots(t) + {slot}, free, stack);
    }

    // Deletion

    ghost predicate CanErase(n: nat, p: Price, t: A.Tree)
      reads this
    {
      && Stored(nodes, t) && n == Root(t) && A.Balanced(t) && A.Ordered(t) && A.Separate(t) && p in A.Contents(t)
      && IsFreeList(nodes, free, stack) && SetOf(stack) !! A.Slots(t) && size > 0
    }

    /** What every deletion step leaves: u stored, one slot moved to the free list, the size counted down once. */
    twostate predicate Erased(u: A.Tree, m: nat, freed: nat, slots: set<nat>)
      reads this
    {
      && Stored(nodes, u) && m == Root(u)
      && IsFreeList(nodes, free, stack) && SetOf(stack) == old(SetOf(stack)) + {freed}
      && ChangedOnly(old(nodes), nodes, slots) && |nodes| == old(|nodes|)
      && size == old(size) - 1
    }

    method EraseAt(n: nat, p: Price, ghost t: A.Tree) returns (m: nat)
      requires t.Node? && CanErase(n, p, t)
      modifies this`nodes, this`free, this`stack, this`size
      ensures Erased(A.Erase(t, p), m, A.Freed(t, p), A.Slots(t))
      decreases t, 1
    {
      hide Stored, ChangedOnly, IsFreeList, SetOf, A.Slots, A.Separate, A.Contents, A.Ordered, A.Rebalance, Erased,
           A.Balanced;
      HeightStored(nodes, t);
      StoredParts(nodes, t);
      A.RootContents(t);
      A.LeafEmpty();
      if p < nodes[n].price {
        m := EraseBelowLeft(n, p, t);
      } else if p > nodes[n].price {
        m := EraseBelowRight(n, p, t);
      } else {
        m := EraseHere(n, t);
      }
    }

    method EraseBelowLeft(n: nat, p: Price, ghost t: A.Tree) returns (m: nat)
      requires t.Node? && t.left.Node? && p < t.price && CanErase(n, p, t) && p in A.Contents(t.left)
      modifies this`nodes, this`free, this`stack, this`size
      ensures Erased(A.Erase(t, p), m, A.Freed(t, p), A.Slots(t))
      decreases t, 0
    {
      hide Stored, ChangedOnly, IsFreeList, SetOf, A.Slots, A.Separate, A.Contents, A.Ordered, A.Rebalance;
      A.Unfold(t);
      StoredParts(nodes, t);
      A.EraseKeeps(t.left, p);
      var l := EraseAt(nodes[n].left, p, t.left);
      ghost var n1, u := nodes, t.(left := A.Erase(t.left, p));
      StoredElsewhere(old(nodes), nodes, A.Slots(t.left), t.right);
      SlotKept(old(nodes), nodes, A.Slots(t.left), n);
      LinkLeft(n, l, t, u);
      A.Unfold(u);
      ghost var n2 := nodes;
      m := Rebalance(n, u);
      ChangedThrice(old(nodes), n1, n2, nodes, A.Slots(t.left), {n}, A.Slots(u), A.Slots(t));
      ChangedTwice(n1, n2, nodes, {n}, A.Slots(u), A.Slots(u));
      FreeElsewhere(n1, nodes, A.Slots(u), free, stack);
    }

    method EraseBelowRight(n: nat, p: Price, ghost t: A.Tree) returns (m: nat)
      requires t.Node? && t.right.Node? && p > t.price && CanErase(n, p, t) && p in A.Contents(t.right)
      modifies this`nodes, this`free, this`stack, this`size
      ensures Erased(A.Erase(t, p), m, A.Freed(t, p), A.Slots(t))
      decreases t, 0
    {
      hide Stored, ChangedOnly, IsFreeList, SetOf, A.Slots, A.Separate, A.Contents, A.Ordered, A.Rebalance;
      A.Unfold(t);
      StoredParts(nodes, t);
      A.EraseKeeps(t.right, p);
      var r := EraseAt(nodes[n].right, p, t.right);
      ghost var n1, u := nodes, t.(right := A.Erase(t.right, p));
      StoredElsewhere(old(nodes), nodes, A.Slots(t.right), t.left);
      SlotKept(old(nodes), nodes, A.Slots(t.right), n);
      LinkRight(n, r, t, u);
      A.Unfold(u);
      ghost var n2 := nodes;
      m := Rebalance(n, u);
      ChangedThrice(old(nodes), n1, n2, nodes, A.Slots(t.right), {n}, A.Slots(u), A.Slots(t));
      ChangedTwice(n1, n2, nodes, {n}, A.Slots(u), A.Slots(u));
      FreeElsewhere(n1, nodes, A.Slots(u), free, stack);
    }

    /** The node holds the price itself: unlink it, or overwrite it with its in-order successor and delete that. */
    method EraseHere(n: nat, ghost t: A.Tree) returns (m: nat)
      requires t.Node? && CanErase(n, t.price, t)
      modifies this`nodes, this`free, this`stack, this`size
      ensures Erased(A.Erase(t, t.price), m, A.Freed(t, t.price), A.Slots(t))
      decreases t, 0
    {
      hide Stored, ChangedOnly, IsFreeList, SetOf, A.Slots, A.Separate, A.Contents, A.Ordered, A.Rebalance;
      A.Unfold(t);
      StoredParts(nodes, t);
      HeightStored(nodes, t.left);
      HeightStored(nodes, t.right);
      size := size - 1;
      var l, r := nodes[n].left, nodes[n].right;
      if l == NONE || r == NONE {
        ReleaseNode(n);
        StoredElsewhere(old(nodes), nodes, {n}, t.left);
        StoredElsewhere(old(nodes), nodes, {n}, t.right);
        WidenTo(old(nodes), nodes, {n}, A.Slots(t));
        return if l == NONE then r else l;
      }
      var s := Successor(r, t.right);
      ghost var next := A.Leftmost(t.right);
      A.LeftmostIsLeast(t.right);
      A.EraseKeeps(t.right, next.price);
      var sp, sh := nodes[s].price, nodes[s].level;
      size := size + 1;
      r := EraseAt(r, sp, t.right);
      ghost var n1, u := nodes, t.(right := A.Erase(t.right, sp));
      StoredElsewhere(old(nodes), nodes, A.Slots(t.right), t.left);
      SlotKept(old(nodes), nodes, A.Slots(t.right), n);
      LinkRight(n, r, t, u);
      ghost var n2, v := nodes, u.(price := sp, level := sh);
      Overwrite(n, sp, sh, u);
      A.Unfold(v);
      ghost var n3 := nodes;
      m := Rebalance(n, v);
      ChangedThrice(n1, n2, n3, nodes, {n}, {n}, A.Slots(v), A.Slots(v));
      ChangedTwice(old(nodes), n1, nodes, A.Slots(t.right), A.Slots(v), A.Slots(t));
      FreeElsewhere(n1, nodes, A.Slots(v), free, stack);
    }

    /** nodes_[n].price and .level overwritten, links and height untouched. */
    method Overwrite(n: nat, p: Price, h: Handle, ghost t: A.Tree)
      requires t.Node? && t.slot == n && Stored(nodes, t) && n !in A.Slots(t.left) && n !in A.Slots(t.right)
      modifies this`nodes
      ensures Stored(nodes, t.(price := p, level := h)) && ChangedOnly(old(nodes), nodes, {n}) &&
              |nodes| == old(|nodes|)
    {
      hide Stored, ChangedOnly, A.Slots;
      StoredParts(nodes, t);
      WriteRoot(nodes, t.(price := p, level := h));
      nodes := nodes[n := nodes[n].(price := p, level := h)];
    }

    method Successor(r: nat, ghost t: A.Tree) returns (s: nat)
      requires t.Node? && Stored(nodes, t) && r == Root(t)
      ensures s == A.Leftmost(t).slot && s < |nodes| && nodes[s] == Record(A.Leftmost(t))
    {
      hide Stored;
      s := r;
      ghost var at := t;
      StoredParts(nodes, t);
      HeightStored(nodes, t.left);
      while nodes[s].left != NONE
        invariant at.Node? && Stored(nodes, at) && s == at.slot && s < |nodes| && nodes[s] == Record(at)
        invariant nodes[s].left != NONE <==> at.left.Node?
        invariant A.Leftmost(at) == A.Leftmost(t)
        decreases at
      {
        StoredParts(nodes, at);
        at := at.left;
        s := nodes[s].left;
        StoredParts(nodes, at);
        HeightStored(nodes, at.left);
      }
    }

    // The map

    ghost predicate Valid()
      reads this
    {
      && Stored(nodes, tree) && root == Root(tree)
      && A.Balanced(tree) && A.Ordered(tree) && A.Separate(tree)
      && IsFreeList(nodes, free, stack)
      && IsPartition(|nodes|, A.Slots(tree), SetOf(stack))
      && size == |Contents()|
      && forall p :: p in Contents() ==> Contents()[p] != NULL
    }

    /** The key-to-level map. */
    ghost function Contents(): map<Price, Handle>
      reads this
    {
      A.Contents(tree)
    }

    constructor (side: Side)
      ensures Valid() && Contents() == map[] && this.side == side
    {
      hide IsPartition;
      this.side := side;
      nodes := [];
      root := NONE;
      free := NONE;
      size := 0;
      tree := A.Leaf;
      stack := [];
      new;
      EmptyPartition();
    }

    method Insert(p: Price, h: Handle)
      requires Valid()
      requires h != NULL && p !in Contents() && |Contents()| < NONE
      modifies this
      ensures Valid()
      ensures Contents() == old(Contents())[p := h]
    {
      hide Stored, ChangedOnly, IsFreeList, SetOf, IsPartition, CanInsert, A.Slots, A.Separate, A.Contents, A.Ordered,
           A.Balanced, A.Insert;
      InsertReady(p);
      ghost var slot := NextSlot();
      A.InsertKeeps(tree, p, h, slot);
      root := InsertAt(root, p, h, tree);
      tree := A.Insert(tree, p, h, slot);
      size := size + 1;
      PartitionInsert(old(|nodes|), |nodes|, old(A.Slots(tree)), old(SetOf(stack)), slot, old(stack) == []);
    }

    lemma InsertReady(p: Price)
      requires Valid() && p !in Contents() && |Contents()| < NONE
      ensures CanInsert(root, p, tree) && NextSlot() !in A.Slots(tree)
      ensures if stack == [] then NextSlot() == |nodes| else NextSlot() in SetOf(stack)
    {
      hide Stored, IsFreeList, SetOf, IsPartition, A.Slots, A.Separate, A.Contents, A.Ordered, A.Balanced;
      PartitionFacts(|nodes|, A.Slots(tree), SetOf(stack));
      A.SlotCount(tree);
      StackInRange(nodes, free, stack);
      HeightStored(nodes, tree);
      SlotsInRange(nodes, tree);
      EmptyStack(stack);
      PartitionCount(|nodes|, A.Slots(tree), SetOf(stack));
    }

    method Erase(p: Price)
      requires Valid()
      requires p in Contents()
      modifies this
      ensures Valid()
      ensures Contents() == old(Contents()) - {p}
    {
      hide Stored, ChangedOnly, IsFreeList, SetOf, IsPartition, A.Slots, A.Separate, A.Contents, A.Ordered, A.Balanced,
           A.Erase, A.Freed;
      PartitionFacts(|nodes|, A.Slots(tree), SetOf(stack));
      A.LeafEmpty();
      A.EraseKeeps(tree, p);
      SizeDrops(Contents(), p);
      ghost var freed := A.Freed(tree, p);
      root := EraseAt(root, p, tree);
      tree := A.Erase(tree, p);
      PartitionErase(|nodes|, old(A.Slots(tree)), old(SetOf(stack)), freed);
    }

    /** A lookup takes at most as many comparisons as the tree is high. */
    method Find(p: Price) returns (h: Handle, ghost steps: nat)
      requires Valid()
      ensures h == if p in Contents() then Contents()[p] else NULL
      ensures steps <= A.Height(tree)
    {
      hide Stored, IsFreeList, A.Slots, A.Contents, A.Ordered, IsPartition, SetOf, A.Separate;
      var n: nat := root;
      ghost var at := tree;
      steps := 0;
      A.LeafEmpty();
      HeightStored(nodes, at);
      while n != NONE
        invariant Stored(nodes, at) && n == Root(at) && A.Ordered(at) && A.Balanced(at)
        invariant n != NONE <==> at.Node?
        invariant p in Contents() <==> p in A.Contents(at)
        invariant p in Contents() ==> Contents()[p] == A.Contents(at)[p]
        invariant steps + A.Height(at) <= A.Height(tree)
        decreases at
      {
        StoredParts(nodes, at);
        A.RootContents(at);
        A.OrderedNode(at);
        var node := nodes[n];
        if p == node.price {
          return node.level, steps + 1;
        }
        at := if p < node.price then at.left else at.right;
        n := if p < node.price then node.left else node.right;
        HeightStored(nodes, at);
        steps := steps + 1;
      }
      return NULL, steps;
    }

    predicate IsEmpty()
      reads this
    {
      size == 0
    }

    /** The rightmost node for bids, the leftmost for asks. */
    method BestPrice() returns (p: Price)
      requires Valid() && size > 0
      ensures p == Best(side, Contents().Keys)
    {
      hide Stored, IsFreeList, A.Slots, A.Contents, A.Ordered, IsPartition, SetOf, A.Separate, A.Balanced;
      var n: nat := root;
      ghost var at := tree;
      A.LeafEmpty();
      HeightStored(nodes, at);
      StoredParts(nodes, at);
      NearStored(at);
      while (if side.Buy? then nodes[n].right else nodes[n].left) != NONE
        invariant at.Node? && Stored(nodes, at) && n == Root(at) && n < |nodes| && A.Ordered(at)
        invariant (if side.Buy? then nodes[n].right else nodes[n].left) == Root(A.Near(side, at))
        invariant Root(A.Near(side, at)) != NONE <==> A.Near(side, at).Node?
        invariant Best(side, A.Contents(at).Keys) == Best(side, Contents().Keys)
        decreases at
      {
        A.BestDescends(side, at);
        A.OrderedNode(at);
        StoredParts(nodes, at);
        n := if side.Buy? then nodes[n].right else nodes[n].left;
        at := A.Near(side, at);
        StoredParts(nodes, at);
        NearStored(at);
      }
      A.BestDescends(side, at);
      StoredParts(nodes, at);
      p := nodes[n].price;
    }

    lemma NearStored(t: A.Tree)
      requires t.Node? && Stored(nodes, t)
      ensures Root(A.Near(side, t)) != NONE <==> A.Near(side, t).Node?
    {
      HeightStored(nodes, t.left);
      HeightStored(nodes, t.right);
    }

    /** The iterative traversal: an explicit stack of nodes whose near side has been walked. */
    method ForEachLevel() returns (out: seq<(Price, Handle)>)
      requires Valid()
      ensures Labelled(out, Sorted(side, Contents().Keys), Contents())
    {
      hide Stored, IsFreeList, A.Slots, A.Contents, A.Ordered, IsPartition, SetOf, A.Separate, A.Balanced, A.InOrder,
           A.Pending, Labelled, Sorted;
      var path: seq<nat> := [];
      ghost var trees: seq<A.Tree> := [];
      var n: nat := root;
      ghost var at := tree;
      out := [];
      HeightStored(nodes, at);
      A.PendingStart(side, tree);
      while n != NONE || path != []
        invariant PathStored(nodes, path, trees) && Stored(nodes, at) && n == Root(at) && (n != NONE <==> at.Node?)
        invariant out + (A.InOrder(side, at) + A.Pending(side, trees)) == A.InOrder(side, tree)
        decreases |A.InOrder(side, at) + A.Pending(side, trees)|
      {
        ghost var pending := A.InOrder(side, at) + A.Pending(side, trees);
        while n != NONE
          invariant PathStored(nodes, path, trees) && Stored(nodes, at) && n == Root(at) && (n != NONE <==> at.Node?)
          invariant n == NONE ==> path != []
          invariant A.InOrder(side, at) + A.Pending(side, trees) == pending
          decreases at
        {
          StoredParts(nodes, at);
          PathPush(nodes, path, trees, n, at);
          A.PendingPush(side, at, trees);
          path := path + [n];
          trees := trees + [at];
          n := if side.Buy? then nodes[n].right else nodes[n].left;
          at := A.Near(side, at);
          HeightStored(nodes, at);
        }
        ghost var top := trees[|trees| - 1];
        PathPop(nodes, path, trees);
        StoredParts(nodes, top);
        A.PendingPop(side, at, trees, out);
        n := path[|path| - 1];
        path := path[..|path| - 1];
        trees := trees[..|trees| - 1];
        out := out + [(nodes[n].price, nodes[n].level)];
        n := if side.Buy? then nodes[n].left else nodes[n].right;
        at := A.Far(side, top);
        HeightStored(nodes, at);
      }
      A.PendingEnd(side, at, trees);
      assert out + [] == out;
      A.InOrderIsSorted(side, tree);
    }
  }

  /** The explicit stack names the nodes of these trees, outermost last. */
  ghost predicate PathStored(nodes: seq<AvlNode>, path: seq<nat>, trees: seq<A.Tree>) {
    && |path| == |trees|
    && forall k :: 0 <= k < |trees| ==> trees[k].Node? && Stored(nodes, trees[k]) && path[k] == trees[k].slot
  }

  lemma PathPush(nodes: seq<AvlNode>, path: seq<nat>, trees: seq<A.Tree>, n: nat, t: A.Tree)
    requires PathStored(nodes, path, trees) && t.Node? && Stored(nodes, t) && n == t.slot
    ensures PathStored(nodes, path + [n], trees + [t])
  {
    hide Stored;
  }

  lemma PathPop(nodes: seq<AvlNode>, path: seq<nat>, trees: seq<A.Tree>)
    requires PathStored(nodes, path, trees) && path != []
    ensures |path| == |trees| && PathStored(nodes, path[..|path| - 1], trees[..|trees| - 1])
    ensures var t := trees[|trees| - 1]; t.Node? && Stored(nodes, t) && path[|path| - 1] == t.slot
  {
    hide Stored;
  }

  // Tree slots and free slots partition the node vector

  ghost predicate IsPartition(n: nat, used: set<nat>, spare: set<nat>) {
    && used !! spare
    && forall i: nat :: i in used || i in spare <==> i < n
  }

  lemma PartitionFacts(n: nat, used: set<nat>, spare: set<nat>)
    requires IsPartition(n, used, spare)
    ensures used !! spare
  {
  }

  lemma EmptyPartition()
    ensures A.Slots(A.Leaf) == {} && SetOf([]) == {} && IsPartition(0, A.Slots(A.Leaf), SetOf([]))
  {
  }

  lemma EmptyStack(stack: seq<nat>)
    ensures stack == [] ==> SetOf(stack) == {}
  {
  }

  ghost function Upto(n: nat): (r: set<nat>)
    ensures |r| == n
    ensures forall i: nat :: i in r <==> i < n
  {
    if n == 0 then {} else Upto(n - 1) + {n - 1}
  }

  lemma PartitionCount(n: nat, used: set<nat>, spare: set<nat>)
    requires IsPartition(n, used, spare)
    ensures |used| + |spare| == n
  {
    assert used + spare == Upto(n);
  }

  lemma PartitionInsert(n: nat, n': nat, used: set<nat>, spare: set<nat>, slot: nat, grown: bool)
    requires IsPartition(n, used, spare)
    requires if grown then slot == n && n' == n + 1 else slot in spare && n' == n
    ensures IsPartition(n', used + {slot}, spare - {slot})
  {
  }

  lemma PartitionErase(n: nat, used: set<nat>, spare: set<nat>, slot: nat)
    requires IsPartition(n, used, spare) && slot in used
    ensures IsPartition(n, used - {slot}, spare + {slot})
  {
  }

  lemma SizeDrops(m: map<Price, Handle>, p: Price)
    requires p in m
    ensures |m - {p}| == |m| - 1
  {
    assert m == (m - {p})[p := m[p]];
  }

  lemma ChangedThrice(a: seq<AvlNode>, b: seq<AvlNode>, c: seq<AvlNode>, d: seq<AvlNode>,
                      r: set<nat>, s: set<nat>, q: set<nat>, u: set<nat>)
    requires ChangedOnly(a, b, r) && ChangedOnly(b, c, s) && ChangedOnly(c, d, q) && r <= u && s <= u && q <= u
    ensures ChangedOnly(a, d, u) && ChangedOnly(b, d, u)
  {
  }

  lemma LeafStored(nodes: seq<AvlNode>)
    requires |nodes| <= NONE
    ensures Stored(nodes, A.Leaf)
  {
  }

  lemma StackInRange(nodes: seq<AvlNode>, free: nat, stack: seq<nat>)
    requires IsFreeList(nodes, free, stack)
    ensures stack == [] <==> free == NONE
    ensures free != NONE ==> free < |nodes| && free in SetOf(stack)
    ensures forall i :: i in SetOf(stack) ==> i < |nodes|
  {
    if stack != [] {
      assert stack[|stack| - 1] == free;
    }
  }

  lemma NothingChanged(nodes: seq<AvlNode>, slots: set<nat>)
    ensures ChangedOnly(nodes, nodes, slots)
  {
  }

  lemma WidenTo(before: seq<AvlNode>, after: seq<AvlNode>, r: set<nat>, s: set<nat>)
    requires ChangedOnly(before, after, r) && r <= s
    ensures ChangedOnly(before, after, s)
  {
  }

  lemma SlotKept(before: seq<AvlNode>, after: seq<AvlNode>, slots: set<nat>, i: nat)
    requires ChangedOnly(before, after, slots) && i < |before| && i !in slots
    ensures i < |after| && after[i] == before[i]
  {
  }
}
