/**
 A book's full state as the words its digest is fed, and what those words tell: they can be read back into the levels
 of both sides, but not into the quantities of single orders.
 */
module BookFeeds {
  import opened Core
  import opened NaiveSpec
  import opened PriceSets
  import opened BookCounts
  import opened Endian
  import opened Digests

  const SIDE_END: Word := 0xFFFF_FFFF_FFFF_FFFF

  function RefWords(refs: seq<OrderRef>): (xs: seq<Word>)
    ensures |xs| == |refs|
  {
    seq(|refs|, i requires 0 <= i < |refs| => WordOf(refs[i]))
  }

  function LevelWords(l: Level): seq<Word> {
    [WordOf(l.price), WordOf(l.qty), WordOf(l.orders)] + RefWords(l.refs)
  }

  function LevelsWords(ls: seq<Level>): seq<Word> {
    if ls == [] then [] else LevelsWords(ls[..|ls| - 1]) + LevelWords(ls[|ls| - 1])
  }

  function SideWords(v: Orders, s: Side): seq<Word> {
    [WordOf(if s.Buy? then 0 else 1)] + LevelsWords(Levels(v, s)) + [SIDE_END]
  }

  /** The canonical order of a book's full state: each side, its levels inside out, each level's queue by priority. */
  function BookWords(v: Orders): seq<Word> {
    SideWords(v, Buy) + SideWords(v, Sell)
  }

  function BookDigest(v: Orders): Word {
    FeedAll(SEED, BookWords(v))
  }

  /** The words of a book of one order: side, price, sum, count, reference, end; for the empty side number and end. */
  lemma OneOrderWords(r: Rec)
    ensures r.side == Buy ==>
              SideWords([r], Buy) == [WordOf(0), WordOf(r.price), WordOf(r.qty), WordOf(1), WordOf(r.ref), SIDE_END] &&
              SideWords([r], Sell) == [WordOf(1), SIDE_END]
    ensures r.side == Sell ==>
              SideWords([r], Buy) == [WordOf(0), SIDE_END] &&
              SideWords([r], Sell) == [WordOf(1), WordOf(r.price), WordOf(r.qty), WordOf(1), WordOf(r.ref), SIDE_END]
    ensures BookWords([r]) == SideWords([r], Buy) + SideWords([r], Sell)
  {
    hide WordOf, Levels, LevelsWords, LevelWords;
    OneOrderLevels(r);
    var l := Level(r.price, r.qty, 1, [r.ref]);
    NoLevels();
    LevelsWordsCons(l, []);
    OneLevelWords(l);
    assert [l] + [] == [l];
  }

  lemma OneLevelWords(l: Level)
    requires |l.refs| == 1
    ensures LevelWords(l) == [WordOf(l.price), WordOf(l.qty), WordOf(l.orders), WordOf(l.refs[0])]
  {
    hide WordOf;
  }

  lemma OneOrderLevels(r: Rec)
    ensures Levels([r], r.side) == [Level(r.price, r.qty, 1, [r.ref])]
    ensures forall s: Side :: s != r.side ==> Levels([r], s) == []
  {
    hide Sorted, Queue, Prices, Qtys;
    forall s: Side ensures Sorted(s, Prices([r], s)) == if s == r.side then [r.price] else [] {
      OnePrice(r, s);
      SortedUnique(s, Prices([r], s), if s == r.side then [r.price] else []);
    }
    QueueOne(r, r.side, r.price);
    QtysOne(r);
    assert RefList([r]) == [r.ref];
    assert Levels([r], r.side)[0] == LevelAt([r], r.side, r.price);
  }

  lemma OnePrice(r: Rec, s: Side)
    ensures Prices([r], s) == if s == r.side then {r.price} else {}
  {
    assert [r][0] == r;
  }

  // Reading the words back

  /** Every number of a level survives its conversion to a 64-bit word, and the count is the number of references. */
  ghost predicate Readable(ls: seq<Level>) {
    forall i :: 0 <= i < |ls| ==> ls[i].qty < 0x1_0000_0000_0000_0000 && ls[i].orders == |ls[i].refs| < 0x1_0000_0000
  }

  lemma {:induction false} LevelsWordsCons(l: Level, ls: seq<Level>)
    ensures LevelsWords([l] + ls) == LevelWords(l) + LevelsWords(ls)
  {
    hide LevelWords;
    if ls == [] {
      assert [l] + ls == [l] && [l][..0] == [];
    } else {
      var n := |ls| - 1;
      LevelsWordsCons(l, ls[..n]);
      assert ([l] + ls)[..n + 1] == [l] + ls[..n];
    }
  }

  /** The terminator is the largest word, which no price is. */
  lemma NoPriceEnds(p: Price)
    ensures WordOf(p) != SIDE_END
  {
    hide WordOf;
    EndIsLargest();
    if WordOf(p) == SIDE_END {
      WordInjective(p, 0xFFFF_FFFF_FFFF_FFFF);
    }
  }

  lemma EndIsLargest()
    ensures WordOf(0xFFFF_FFFF_FFFF_FFFF) == SIDE_END
  {
    hide ToBig, Pow256, Octet, Word8;
    EightBytes();
    AllOnes(8);
    TopOctet();
    AllOnesWord();
  }

  lemma {:induction false} AllOnes(n: nat)
    ensures Pow256(n) > 0 && ToBig(Pow256(n) - 1, n) == seq(n, _ => 0xFF)
  {
    if n > 0 {
      AllOnes(n - 1);
      assert (Pow256(n) - 1) / 0x100 == Pow256(n - 1) - 1;
    }
  }

  lemma TopOctet()
    ensures Octet(0xFF) == 0xFF
  {
  }

  lemma AllOnesWord()
    ensures Word8(0xFF, 0xFF, 0xFF, 0xFF, 0xFF, 0xFF, 0xFF, 0xFF) == SIDE_END
  {
  }

  /** Two levels whose words begin two equal sequences are the same level. */
  lemma LevelRead(l: Level, m: Level, xs: seq<Word>, ys: seq<Word>)
    requires Readable([l]) && Readable([m])
    requires LevelWords(l) + xs == LevelWords(m) + ys
    ensures l == m && xs == ys
  {
    hide WordOf;
    var a, b := LevelWords(l) + xs, LevelWords(m) + ys;
    assert [l][0] == l && [m][0] == m;
    assert a[0] == WordOf(l.price) && b[0] == WordOf(m.price);
    assert a[1] == WordOf(l.qty) && b[1] == WordOf(m.qty);
    assert a[2] == WordOf(l.orders) && b[2] == WordOf(m.orders);
    WordInjective(l.price, m.price);
    WordInjective(l.qty, m.qty);
    WordInjective(l.orders, m.orders);
    var n := |l.refs|;
    forall i | 0 <= i < n ensures l.refs[i] == m.refs[i] {
      assert a[3 + i] == WordOf(l.refs[i]) && b[3 + i] == WordOf(m.refs[i]);
      WordInjective(l.refs[i], m.refs[i]);
    }
    assert l.refs == m.refs;
    assert xs == a[3 + n..] && ys == b[3 + n..];
  }

  /** So are two sides whose words, up to the terminator, begin two equal sequences. */
  lemma {:induction false} SideRead(ls: seq<Level>, ms: seq<Level>, xs: seq<Word>, ys: seq<Word>)
    requires Readable(ls) && Readable(ms)
    requires LevelsWords(ls) + [SIDE_END] + xs == LevelsWords(ms) + [SIDE_END] + ys
    ensures ls == ms && xs == ys
  {
    hide LevelWords, LevelsWords, WordOf;
    var a, b := LevelsWords(ls) + [SIDE_END] + xs, LevelsWords(ms) + [SIDE_END] + ys;
    NoLevels();
    assert a[0] == if ls == [] then SIDE_END else LevelsWords(ls)[0] by {
      if ls != [] { FirstWord(ls); }
    }
    assert b[0] == if ms == [] then SIDE_END else LevelsWords(ms)[0] by {
      if ms != [] { FirstWord(ms); }
    }
    if ls != [] && ms != [] {
      var l, m, ls', ms' := ls[0], ms[0], ls[1..], ms[1..];
      LevelsWordsCons(l, ls');
      LevelsWordsCons(m, ms');
      assert ls == [l] + ls' && ms == [m] + ms';
      var xs', ys' := LevelsWords(ls') + [SIDE_END] + xs, LevelsWords(ms') + [SIDE_END] + ys;
      assert a == LevelWords(l) + xs' && b == LevelWords(m) + ys';
      LevelRead(l, m, xs', ys');
      SideRead(ls', ms', xs, ys);
    } else if ls != [] {
      FirstWord(ls);
      NoPriceEnds(ls[0].price);
      assert false;
    } else if ms != [] {
      FirstWord(ms);
      NoPriceEnds(ms[0].price);
      assert false;
    } else {
      assert xs == a[1..] && ys == b[1..];
    }
  }

  lemma NoLevels()
    ensures LevelsWords([]) == []
  {
  }

  lemma FirstWord(ls: seq<Level>)
    requires ls != []
    ensures LevelsWords(ls) != [] && LevelsWords(ls)[0] == WordOf(ls[0].price)
  {
    hide LevelsWords, WordOf;
    LevelsWordsCons(ls[0], ls[1..]);
    assert ls == [ls[0]] + ls[1..];
  }

  ghost predicate BothReadable(v: Orders) {
    Readable(Levels(v, Buy)) && Readable(Levels(v, Sell))
  }

  /**
   Two books are fed as the same words exactly if they show the same levels on both sides: prices, sums, counts, and
   the references of every queue in time priority.
   */
  lemma SameWordsSameLevels(v: Orders, w: Orders)
    requires BothReadable(v) && BothReadable(w)
    ensures BookWords(v) == BookWords(w) <==> Levels(v, Buy) == Levels(w, Buy) && Levels(v, Sell) == Levels(w, Sell)
  {
    hide LevelsWords, Levels, Readable, WordOf;
    if BookWords(v) == BookWords(w) {
      var a, b := BookWords(v), BookWords(w);
      var bids, asks, bids', asks' := Levels(v, Buy), Levels(v, Sell), Levels(w, Buy), Levels(w, Sell);
      assert a[1..] == LevelsWords(bids) + [SIDE_END] + SideWords(v, Sell);
      assert b[1..] == LevelsWords(bids') + [SIDE_END] + SideWords(w, Sell);
      SideRead(bids, bids', SideWords(v, Sell), SideWords(w, Sell));
      assert SideWords(v, Sell)[1..] == LevelsWords(asks) + [SIDE_END] + [];
      assert SideWords(w, Sell)[1..] == LevelsWords(asks') + [SIDE_END] + [];
      SideRead(asks, asks', [], []);
    }
  }

  /** Any list shorter than 2 to the 32 is readable. */
  lemma ShortIsReadable(v: Orders)
    requires |v| < 0x1_0000_0000
    ensures BothReadable(v)
  {
    hide Queue, Qtys, Sorted, Prices;
    forall s: Side, i | 0 <= i < |Levels(v, s)|
      ensures var l := Levels(v, s)[i]; l.qty < 0x1_0000_0000_0000_0000 && l.orders == |l.refs| < 0x1_0000_0000
    {
      var p := Sorted(s, Prices(v, s))[i];
      QueueShort(v, s, p);
      QtysBound(Queue(v, s, p));
    }
  }

  lemma {:induction false} QueueShort(v: Orders, s: Side, p: Price)
    ensures |Queue(v, s, p)| <= |v|
  {
    if v != [] {
      QueueShort(v[..|v| - 1], s, p);
    }
  }

  /**
   The words tell a level's sum and not its orders' quantities, so books that agree on them may still differ: two
   orders of one queue with their quantities exchanged.
   */
  lemma SameWordsOtherBook()
    ensures var v := [Rec(1, Buy, 100, 10, 0), Rec(2, Buy, 100, 20, 0)];
            var w := [Rec(1, Buy, 100, 20, 0), Rec(2, Buy, 100, 10, 0)];
            v != w && IsBook(v) && IsBook(w) && BookWords(v) == BookWords(w)
  {
    hide LevelsWords, Sorted, WordOf;
    var v := [Rec(1, Buy, 100, 10, 0), Rec(2, Buy, 100, 20, 0)];
    var w := [Rec(1, Buy, 100, 20, 0), Rec(2, Buy, 100, 10, 0)];
    TwoBids(10, 20);
    TwoBids(20, 10);
    LevelsByLevel(v, w, Buy);
    LevelsByLevel(v, w, Sell);
  }

  /** Sides with the same prices and the same level at each are the same. */
  lemma LevelsByLevel(v: Orders, w: Orders, s: Side)
    requires Prices(v, s) == Prices(w, s)
    requires forall p :: p in Prices(v, s) ==> LevelAt(v, s, p) == LevelAt(w, s, p)
    ensures Levels(v, s) == Levels(w, s)
  {
    hide LevelAt, Prices;
    var ps := Sorted(s, Prices(v, s));
    forall i | 0 <= i < |ps| ensures Levels(v, s)[i] == Levels(w, s)[i] {
      assert ps[i] in ps;
    }
  }

  lemma TwoBids(x: Qty, y: Qty)
    ensures var v := [Rec(1, Buy, 100, x, 0), Rec(2, Buy, 100, y, 0)];
            && Prices(v, Buy) == {100} && Prices(v, Sell) == {}
            && LevelAt(v, Buy, 100) == Level(100, x + y, 2, [1, 2])
  {
    var a, b := Rec(1, Buy, 100, x, 0), Rec(2, Buy, 100, y, 0);
    var v := [a, b];
    assert v[0] == a && v[1] == b && a in v;
    QueueConcat([a], [b], Buy, 100);
    QueueOne(a, Buy, 100);
    QueueOne(b, Buy, 100);
    assert [a] + [b] == v;
    QtysConcat([a], [b]);
    QtysOne(a);
    QtysOne(b);
  }
}
