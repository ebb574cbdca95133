/**
 Either price map, behind one contract. The book is written and proved against this contract once, so swapping the
 ladder for the tree changes nothing above it.
 */
module LevelMaps {
  import opened Core
  import opened PriceSets
  import opened AvlLevelMaps
  import opened PriceLadders
  import LadderSpec

  /** What decides which prices a map takes: where a ladder's window is, and nothing at all for a tree. */
  datatype MapShape = Anchored(base: int) | Tree {
    /**
     Does a map with these keys take price p? A ladder needs a price above zero and the exact condition on its window; a
     tree needs a 32-bit node count.
     */
    ghost predicate Takes(side: Side, keys: set<Price>, p: Price) {
      if Anchored? then p != NO_PRICE && LadderSpec.Accepts(base, side, keys, p) else p in keys || |keys| < NONE
    }

    /** The shape once the map has taken it. */
    ghost function Grown(side: Side, keys: set<Price>, p: Price): MapShape {
      if Anchored? then Anchored(LadderSpec.NextBase(base, side, keys, p)) else Tree
    }
  }

  datatype LevelMap = OfLadder(ladder: PriceLadder) | OfAvl(avl: AvlLevelMap) {

    ghost function Repr(): set<object> {
      match this
      case OfLadder(l) => {l, l.slots, l.words}
      case OfAvl(a) => {a}
    }

    function Side(): Side {
      if OfLadder? then ladder.side else avl.side
    }

    /** For the ladder this includes that its single probe is enough: every lookup finds what is there. */
    ghost predicate Valid()
      reads Repr()
    {
      match this
      case OfLadder(l) => l.Valid() && l.State().Canonical()
      case OfAvl(a) => a.Valid()
    }

    ghost function Contents(): map<Price, Handle>
      reads Repr()
    {
      match this
      case OfLadder(l) => l.State().Contents()
      case OfAvl(a) => a.Contents()
    }

    ghost function Shape(): MapShape
      reads Repr()
    {
      match this
      case OfLadder(l) => Anchored(l.base)
      case OfAvl(a) => Tree
    }

    method Find(p: Price) returns (h: Handle)
      requires Valid()
      ensures h == if p in Contents() then Contents()[p] else NULL
      ensures h != NULL <==> p in Contents()
    {
      hide PriceLadder.Valid, LadderSpec.InWindow;
      match this
      case OfLadder(l) =>
        h := l.Find(p);
        LadderKnows(l);
      case OfAvl(a) =>
        ghost var steps;
        h, steps := a.Find(p);
    }

    lemma LadderKnows(l: PriceLadder)
      requires l.Valid() && l.State().Canonical()
      ensures forall p: Price ::
                l.State().Find(p) == if p in l.State().Contents() then l.State().Contents()[p] else NULL
      ensures forall p :: p in l.State().Contents() ==> l.State().Contents()[p] != NULL
      ensures l.State().Keys() == l.State().Contents().Keys
      ensures l.IsEmpty() <==> l.State().Contents() == map[]
    {
      hide LadderSpec.InWindow, Window;
      LadderSpec.FindsAllIffCanonical(l.State());
      SizesAdd(l.held, l.overflow);
    }

    method Insert(p: Price, h: Handle)
      requires Valid()
      requires h != NULL && p !in Contents() && Shape().Takes(Side(), Contents().Keys, p)
      modifies Repr()
      ensures Valid()
      ensures Contents() == old(Contents())[p := h]
      ensures Shape() == old(Shape()).Grown(Side(), old(Contents()).Keys, p)
    {
      hide PriceLadder.Valid, LadderSpec.InWindow, LadderSpec.Accepts, LadderSpec.NextBase, AvlLevelMap.Valid,
           AvlLevelMap.Contents;
      match this
      case OfLadder(l) =>
        LadderKnows(l);
        InsertKeeps(l, p, h);
        l.Insert(p, h);
      case OfAvl(a) =>
        a.Insert(p, h);
    }

    lemma InsertKeeps(l: PriceLadder, p: Price, h: Handle)
      requires l.Valid() && l.State().Canonical() && p !in l.State().Keys() && p != NO_PRICE && h != NULL
      requires LadderSpec.Accepts(l.base, l.side, l.State().Keys(), p)
      ensures var r := l.State().Insert(l.side, p, h);
              && r.Canonical() && r.Contents() == l.State().Contents()[p := h]
              && r.base == LadderSpec.NextBase(l.base, l.side, l.State().Keys(), p)
    {
      LadderSpec.InsertCanonical(l.State(), l.side, p, h);
    }

    method Erase(p: Price)
      requires Valid()
      requires p in Contents()
      modifies Repr()
      ensures Valid()
      ensures Contents() == old(Contents()) - {p}
      ensures Shape() == old(Shape())
    {
      hide PriceLadder.Valid, LadderSpec.InWindow, AvlLevelMap.Valid, AvlLevelMap.Contents;
      match this
      case OfLadder(l) =>
        LadderKnows(l);
        EraseKeeps(l, p);
        l.Erase(p);
      case OfAvl(a) =>
        a.Erase(p);
    }

    lemma EraseKeeps(l: PriceLadder, p: Price)
      requires l.Valid() && l.State().Canonical() && p in l.State().Keys()
      ensures var r := l.State().Erase(p); r.Contents() == l.State().Contents() - {p} && r.base == l.base
    {
      LadderSpec.EraseKeeps(l.State(), p);
    }

    predicate IsEmpty()
      requires Valid()
      reads Repr()
      ensures IsEmpty() <==> Contents() == map[]
    {
      match this
      case OfLadder(l) => LadderKnows(l); l.IsEmpty()
      case OfAvl(a) => a.IsEmpty()
    }

    method BestPrice() returns (p: Price)
      requires Valid() && Contents() != map[]
      ensures p == Best(Side(), Contents().Keys)
    {
      hide PriceLadder.Valid, LadderSpec.InWindow;
      match this
      case OfLadder(l) =>
        LadderKnows(l);
        p := l.BestPrice();
      case OfAvl(a) =>
        p := a.BestPrice();
    }

    /** Every level exactly once, strictly from the inside outwards. */
    method ForEachLevel() returns (out: seq<(Price, Handle)>)
      requires Valid()
      ensures Labelled(out, Sorted(Side(), Contents().Keys), Contents())
    {
      hide PriceLadder.Valid, LadderSpec.InWindow, Labelled, Sorted;
      match this
      case OfLadder(l) =>
        LadderKnows(l);
        out := l.ForEachLevel();
      case OfAvl(a) =>
        out := a.ForEachLevel();
    }
  }
}
