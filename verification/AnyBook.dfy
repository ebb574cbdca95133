/**
 Any of the book implementations, behind one contract: each stands for a list of orders, and each operation takes the
 step of the list. What is proved over this type holds of the ladder book, the tree book and the map book alike.
 */
module AnyBooks {
  import opened Core
  import opened NaiveSpec
  import opened PriceSets
  import opened BookCounts
  import opened BookRooms
  import opened Books
  import opened MapBooks

  datatype AnyBook = Pooled(book: Book) | Mapped(plain: MapBook) {

    ghost function Repr(): set<object> {
      match this
      case Pooled(b) => b.Repr()
      case Mapped(m) => {m}
    }

    ghost predicate Valid()
      reads Repr()
    {
      match this
      case Pooled(b) => b.Valid()
      case Mapped(m) => m.Valid()
    }

    /** The list this book stands for. */
    ghost function View(): Orders
      reads Repr()
    {
      match this
      case Pooled(b) => b.view
      case Mapped(m) => m.view
    }

    /** What it can still take; the map book's containers have no fixed capacity. */
    ghost function Room(): BookRoom
      reads Repr()
    {
      match this
      case Pooled(b) => b.Room()
      case Mapped(m) => Boundless
    }

    lemma ViewIsBook()
      requires Valid()
      ensures IsBook(View())
    {
      match this
      case Pooled(b) =>
        hide Book.Parts, Book.Shows, Book.Counts;
        b.ListIsBook();
      case Mapped(m) =>
    }

    method Add(ref: OrderRef, side: Side, price: Price, qty: Qty, owner: Owner)
      requires Valid()
      requires qty > 0 && !Has(View(), ref) && Room().Takes(View(), side, price)
      modifies Repr()
      ensures Valid()
      ensures View() == NaiveSpec.Add(old(View()), Rec(ref, side, price, qty, owner))
      ensures Room() == old(Room()).Added(old(View()), side, price)
    {
      hide Book.Valid, Book.Room, MapBook.Valid, Has, Prices;
      match this
      case Pooled(b) => b.Add(ref, side, price, qty, owner);
      case Mapped(m) => m.Add(ref, side, price, qty, owner);
    }

    method Cancel(ref: OrderRef, shares: Qty)
      requires Valid()
      requires Has(View(), ref) && shares <= Get(View(), ref).qty
      modifies Repr()
      ensures Valid()
      ensures View() == Reduce(old(View()), ref, shares)
      ensures Room() == old(Room()).Shrunk(old(View()), View())
    {
      hide Book.Valid, Book.Room, MapBook.Valid, Has, IndexOf, Reduce, LevelsOf;
      match this
      case Pooled(b) => b.Cancel(ref, shares);
      case Mapped(m) => m.Cancel(ref, shares);
    }

    method Execute(ref: OrderRef, shares: Qty) returns (done: Qty)
      requires Valid()
      requires Has(View(), ref) && shares <= Get(View(), ref).qty
      modifies Repr()
      ensures Valid()
      ensures View() == Reduce(old(View()), ref, shares) && done == shares
      ensures Room() == old(Room()).Shrunk(old(View()), View())
    {
      hide Book.Valid, Book.Room, MapBook.Valid, Has, IndexOf, Reduce, LevelsOf;
      match this
      case Pooled(b) => done := b.Execute(ref, shares);
      case Mapped(m) => done := m.Execute(ref, shares);
    }

    method Remove(ref: OrderRef)
      requires Valid()
      requires Has(View(), ref)
      modifies Repr()
      ensures Valid()
      ensures View() == NaiveSpec.Remove(old(View()), ref)
      ensures Room() == old(Room()).Shrunk(old(View()), View())
    {
      hide Book.Valid, Book.Room, MapBook.Valid, Has, IndexOf, Reduce, LevelsOf;
      match this
      case Pooled(b) => b.Remove(ref);
      case Mapped(m) => m.Remove(ref);
    }

    method Replace(oldRef: OrderRef, newRef: OrderRef, price: Price, qty: Qty)
      requires Valid()
      requires Has(View(), oldRef) && qty > 0 && !Has(NaiveSpec.Remove(View(), oldRef), newRef)
      requires var w := NaiveSpec.Remove(View(), oldRef);
               Room().Shrunk(View(), w).Takes(w, Get(View(), oldRef).side, price)
      modifies Repr()
      ensures Valid()
      ensures View() == NaiveSpec.Replace(old(View()), oldRef, newRef, price, qty)
      ensures var v := old(View()); var w := NaiveSpec.Remove(v, oldRef);
              Room() == old(Room()).Shrunk(v, w).Added(w, Get(v, oldRef).side, price)
    {
      hide Book.Valid, Book.Room, MapBook.Valid, Has, IndexOf, Reduce, LevelsOf, Prices;
      match this
      case Pooled(b) => b.Replace(oldRef, newRef, price, qty);
      case Mapped(m) => m.Replace(oldRef, newRef, price, qty);
    }

    predicate Empty(s: Side)
      requires Valid()
      reads Repr()
      ensures Empty(s) <==> Prices(View(), s) == {}
    {
      match this
      case Pooled(b) => b.QueriesAgree(s); b.Empty(s)
      case Mapped(m) => m.QueriesAgree(s); m.Empty(s)
    }

    function BestOf(s: Side): (p: Price)
      requires Valid()
      reads Repr()
      ensures p == Best(s, Prices(View(), s))
    {
      match this
      case Pooled(b) => b.QueriesAgree(s); b.BestOf(s)
      case Mapped(m) => m.QueriesAgree(s); m.BestOf(s)
    }

    function Stats(): (st: BookStats)
      requires Valid()
      reads Repr()
      ensures st == StatsOf(View())
    {
      match this
      case Pooled(b) => b.stats
      case Mapped(m) => m.stats
    }

    method FrontAt(s: Side, p: Price) returns (ref: OrderRef)
      requires Valid()
      ensures Valid() && View() == old(View()) && Room() == old(Room())
      ensures var q := Queue(View(), s, p); ref == if q == [] then 0 else q[0].ref
    {
      hide Book.Valid, MapBook.Valid, Queue;
      assert forall o :: o in Repr() ==> allocated(o);
      match this
      case Pooled(b) => ref := b.FrontAt(s, p);
      case Mapped(m) => ref := m.FrontAt(s, p);
    }

    method Contains(ref: OrderRef) returns (found: bool)
      requires Valid()
      ensures Valid() && View() == old(View()) && Room() == old(Room())
      ensures found <==> Has(View(), ref)
    {
      hide Book.Valid, MapBook.Valid, Has;
      assert forall o :: o in Repr() ==> allocated(o);
      match this
      case Pooled(b) => found := b.Contains(ref);
      case Mapped(m) => found := m.Contains(ref);
    }

    /** Side, price, quantity and owner of a resting order. */
    method Lookup(ref: OrderRef) returns (r: Rec)
      requires Valid() && Has(View(), ref)
      ensures Valid() && View() == old(View()) && Room() == old(Room())
      ensures r == Get(View(), ref)
    {
      hide Book.Valid, MapBook.Valid, Has, IndexOf;
      assert forall o :: o in Repr() ==> allocated(o);
      match this
      case Pooled(b) => r := b.Lookup(ref);
      case Mapped(m) => r := m.Lookup(ref);
    }

    method ForEachLevel(s: Side) returns (out: seq<Level>)
      requires Valid()
      ensures Valid() && View() == old(View()) && Room() == old(Room())
      ensures out == Levels(View(), s)
    {
      hide Book.Valid, MapBook.Valid, Levels;
      assert forall o :: o in Repr() ==> allocated(o);
      match this
      case Pooled(b) => out := b.ForEachLevel(s);
      case Mapped(m) => out := m.ForEachLevel(s);
    }
  }
}
