/** Price to level lookup: a sliding flat window with an occupancy bitset, plus an ordered overflow map. */
module PriceLadders {
  import opened Core
  import opened PriceSets
  import opened LadderSpec
  import opened BitWords

  const WORDS: nat := 64

  /**
   The arrays represent held: a bit is set exactly for the slots of held prices, and those slots carry their handles.
   */
  ghost predicate Window(base: int, words: seq<bv64>, slots: seq<Handle>, held: map<Price, Handle>) {
    && |words| == WORDS && |slots| == WINDOW_TICKS
    && (forall p :: p in held ==> InWindow(base, p) && slots[SlotOf(base, p)] == held[p])
    && (forall w, b :: 0 <= w < WORDS && 0 <= b < 64 ==>
          (b in Bits(words[w]) <==> SlotPrice(base, 64 * w + b) in held))
  }

  lemma SlotParts(base: int, p: Price)
    requires InWindow(base, p)
    ensures var s := SlotOf(base, p);
            0 <= s < WINDOW_TICKS && 0 <= s / 64 < WORDS && 0 <= s % 64 < 64 &&
            SlotPrice(base, 64 * (s / 64) + s % 64) == p
  {
    SlotOfPrice(base, p);
  }

  lemma SamePart(base: int, p: Price, w: int, b: int)
    requires InWindow(base, p) && 0 <= w < WORDS && 0 <= b < 64
    ensures SlotPrice(base, 64 * w + b) == p <==> w == SlotOf(base, p) / 64 && b == SlotOf(base, p) % 64
  {
    SlotOfPrice(base, p);
    assert SlotPrice(base, 64 * w + b) == p <==> 64 * w + b == SlotOf(base, p);
  }

  lemma WindowHas(base: int, words: seq<bv64>, slots: seq<Handle>, held: map<Price, Handle>, p: Price)
    requires Window(base, words, slots, held) && InWindow(base, p)
    ensures var s := SlotOf(base, p);
            0 <= s < WINDOW_TICKS == |slots| && |words| == WORDS && (Test(words[s / 64], s % 64) <==> p in held) &&
            (p in held ==> slots[s] == held[p])
  {
    hide InWindow, SlotOf, SlotPrice, Bit, Test;
    SlotParts(base, p);
    var w, b := SlotOf(base, p) / 64, SlotOf(base, p) % 64;
    assert b in Bits(words[w]) <==> SlotPrice(base, 64 * w + b) in held;
  }

  lemma WindowPut(base: int, words: seq<bv64>, slots: seq<Handle>, held: map<Price, Handle>, p: Price, h: Handle)
    requires Window(base, words, slots, held) && InWindow(base, p)
    ensures var s := SlotOf(base, p);
            0 <= s < WINDOW_TICKS == |slots| && |words| == WORDS &&
            Window(base, words[s / 64 := SetBit(words[s / 64], s % 64)], slots[s := h], held[p := h])
  {
    hide InWindow, SlotOf, SlotPrice, Bits, SetBit;
    SlotParts(base, p);
    var s := SlotOf(base, p);
    var words' := words[s / 64 := SetBit(words[s / 64], s % 64)];
    forall w, b | 0 <= w < WORDS && 0 <= b < 64
      ensures b in Bits(words'[w]) <==> SlotPrice(base, 64 * w + b) in held[p := h]
    {
      SamePart(base, p, w, b);
      assert b in Bits(words[w]) <==> SlotPrice(base, 64 * w + b) in held;
    }
    forall q | q in held && q != p ensures 0 <= SlotOf(base, q) < WINDOW_TICKS && SlotOf(base, q) != s {
      SlotOfPrice(base, q);
    }
  }

  lemma WindowDrop(base: int, words: seq<bv64>, slots: seq<Handle>, held: map<Price, Handle>, p: Price)
    requires Window(base, words, slots, held) && InWindow(base, p)
    ensures var s := SlotOf(base, p);
            0 <= s < WINDOW_TICKS == |slots| && |words| == WORDS &&
            Window(base, words[s / 64 := ClearBit(words[s / 64], s % 64)], slots[s := NULL], held - {p})
  {
    hide InWindow, SlotOf, SlotPrice, Bits, ClearBit;
    SlotParts(base, p);
    var s := SlotOf(base, p);
    var words' := words[s / 64 := ClearBit(words[s / 64], s % 64)];
    forall w, b | 0 <= w < WORDS && 0 <= b < 64
      ensures b in Bits(words'[w]) <==> SlotPrice(base, 64 * w + b) in held - {p}
    {
      SamePart(base, p, w, b);
      assert b in Bits(words[w]) <==> SlotPrice(base, 64 * w + b) in held;
    }
    forall q | q in held && q != p ensures 0 <= SlotOf(base, q) < WINDOW_TICKS && SlotOf(base, q) != s {
      SlotOfPrice(base, q);
    }
  }

  lemma WindowEmpty(base: int, words: seq<bv64>, slots: seq<Handle>)
    requires |words| == WORDS && |slots| == WINDOW_TICKS && forall w :: 0 <= w < WORDS ==> words[w] == 0
    ensures Window(base, words, slots, map[])
  {
    hide Bits;
    forall w | 0 <= w < WORDS ensures Bits(words[w]) == {} {
      ZeroHasNoBits(words[w]);
    }
  }

  // Scans over the bitset, tracked by a cutoff slot

  /** price_of_slot, with its conversion to 32 bits. */
  function PriceAt(base: int, s: int): u32 {
    Wrap32(SlotPrice(base, s))
  }

  /** The held prices in slots below, or from, a cutoff. */
  ghost function Below(base: int, held: map<Price, Handle>, cut: int): set<Price> {
    set p | p in held && SlotOf(base, p) < cut
  }

  ghost function From(base: int, held: map<Price, Handle>, cut: int): set<Price> {
    set p | p in held && SlotOf(base, p) >= cut
  }

  /** The unread bits of word w are exactly its bits from, or below, the cutoff. */
  ghost predicate UnreadUp(word: bv64, w: int, bits: bv64, cut: int) {
    forall b :: 0 <= b < 64 ==> (b in Bits(bits) <==> b in Bits(word) && 64 * w + b >= cut)
  }

  ghost predicate UnreadDown(word: bv64, w: int, bits: bv64, cut: int) {
    forall b :: 0 <= b < 64 ==> (b in Bits(bits) <==> b in Bits(word) && 64 * w + b < cut)
  }

  lemma HeldSlot(base: int, words: seq<bv64>, slots: seq<Handle>, held: map<Price, Handle>, w: int, b: int)
    requires Window(base, words, slots, held) && 0 <= w < WORDS && 0 <= b < 64 && b in Bits(words[w])
    ensures var p := PriceAt(base, 64 * w + b);
            p in held && InWindow(base, p) && SlotOf(base, p) == 64 * w + b && slots[64 * w + b] == held[p]
  {
    hide InWindow, SlotOf, SlotPrice, Bits;
    var x := SlotPrice(base, 64 * w + b);
    assert x in held;
    var p: Price := x;
    PriceOfSlot(base, 64 * w + b, p);
  }

  lemma SlotBit(base: int, words: seq<bv64>, slots: seq<Handle>, held: map<Price, Handle>, p: Price)
    requires Window(base, words, slots, held) && p in held
    ensures var s := SlotOf(base, p);
            0 <= s < WINDOW_TICKS && s % 64 in Bits(words[s / 64]) && PriceAt(base, s) == p
  {
    hide InWindow, SlotOf, SlotPrice, Bits;
    SlotParts(base, p);
    SlotOfPrice(base, p);
  }

  /** One ascending step: the lowest unread bit is the next held slot, and no held slot is skipped. */
  lemma StepUp(base: int, words: seq<bv64>, slots: seq<Handle>, held: map<Price, Handle>, w: nat, bits: bv64, cut: nat)
    requires Window(base, words, slots, held) && w < WORDS && bits != 0
    requires UnreadUp(words[w], w, bits, cut) && cut >= 64 * w
    ensures var s := 64 * w + Lowest(bits); var p := PriceAt(base, s);
            Lowest(bits) < 64 && cut <= s && p in held && SlotOf(base, p) == s && slots[s] == held[p] &&
            UnreadUp(words[w], w, DropLowest(bits), s + 1) &&
            Below(base, held, s + 1) == Below(base, held, cut) + {p}
  {
    hide InWindow, SlotOf, SlotPrice, Bits, Lowest, DropLowest, PriceAt;
    var low := Lowest(bits);
    BitBound(bits, low);
    HeldSlot(base, words, slots, held, w, low);
    var s := 64 * w + low;
    forall p | p in held && cut <= SlotOf(base, p) < s + 1 ensures p == PriceAt(base, s) {
      SlotBit(base, words, slots, held, p);
      assert SlotOf(base, p) / 64 == w;
      assert SlotOf(base, p) % 64 in Bits(bits);
    }
  }

  lemma BitBound(w: bv64, b: nat)
    requires b in Bits(w)
    ensures b < 64
  {
    hide Test;
  }

  lemma WordReadUp(base: int, words: seq<bv64>, slots: seq<Handle>, held: map<Price, Handle>, w: nat, cut: nat)
    requires Window(base, words, slots, held) && w < WORDS
    requires UnreadUp(words[w], w, 0, cut) && 64 * w <= cut <= 64 * (w + 1)
    ensures Below(base, held, 64 * (w + 1)) == Below(base, held, cut)
  {
    hide InWindow, SlotOf, SlotPrice, Bits, PriceAt;
    ZeroHasNoBits(0);
    forall p | p in held && SlotOf(base, p) < 64 * (w + 1) ensures SlotOf(base, p) < cut {
      SlotBit(base, words, slots, held, p);
      var v, b := SlotOf(base, p) / 64, SlotOf(base, p) % 64;
      assert b !in Bits(0);
      assert v == w ==> 64 * w + b < cut;
    }
  }

  lemma StepDown(base: int, words: seq<bv64>, slots: seq<Handle>, held: map<Price, Handle>, w: nat, bits: bv64,
      cut: nat)
    requires Window(base, words, slots, held) && w < WORDS && bits != 0
    requires UnreadDown(words[w], w, bits, cut) && cut <= 64 * (w + 1)
    ensures var top := Highest(bits); var s := 64 * w + top; var p := PriceAt(base, s);
            top < 64 && s < cut && p in held && SlotOf(base, p) == s && slots[s] == held[p] &&
            UnreadDown(words[w], w, ClearBit(bits, top), s) &&
            From(base, held, s) == From(base, held, cut) + {p}
  {
    hide InWindow, SlotOf, SlotPrice, Bits, Highest, ClearBit, PriceAt;
    var top := Highest(bits);
    BitBound(bits, top);
    HeldSlot(base, words, slots, held, w, top);
    var s := 64 * w + top;
    forall p | p in held && s <= SlotOf(base, p) < cut ensures p == PriceAt(base, s) {
      SlotBit(base, words, slots, held, p);
      assert SlotOf(base, p) / 64 == w;
      assert SlotOf(base, p) % 64 in Bits(bits);
    }
  }

  lemma WordReadDown(base: int, words: seq<bv64>, slots: seq<Handle>, held: map<Price, Handle>, w: nat, cut: nat)
    requires Window(base, words, slots, held) && w < WORDS
    requires UnreadDown(words[w], w, 0, cut) && 64 * w <= cut <= 64 * (w + 1)
    ensures From(base, held, 64 * w) == From(base, held, cut)
  {
    hide InWindow, SlotOf, SlotPrice, Bits, PriceAt;
    ZeroHasNoBits(0);
    forall p | p in held && 64 * w <= SlotOf(base, p) ensures SlotOf(base, p) >= cut {
      SlotBit(base, words, slots, held, p);
      var v, b := SlotOf(base, p) / 64, SlotOf(base, p) % 64;
      assert b !in Bits(0);
      assert v == w ==> 64 * w + b >= cut;
    }
  }

  /** Extending an ascending, or descending, listing by the next slot. */
  lemma ListUp(base: int, held: map<Price, Handle>, out: seq<Price>, cut: nat, p: Price)
    requires InsideOut(Sell, out) && Lists(out, Below(base, held, cut)) && SlotOf(base, p) >= cut
    requires forall q :: q in held + map[p := NULL] ==> InWindow(base, q)
    ensures InsideOut(Sell, out + [p]) && Lists(out + [p], Below(base, held, cut) + {p})
  {
    forall i | 0 <= i < |out| ensures out[i] < p {
      assert out[i] in out;
      assert out[i] in Below(base, held, cut) && InWindow(base, out[i]) && InWindow(base, p);
    }
  }

  lemma ListDown(base: int, held: map<Price, Handle>, out: seq<Price>, cut: nat, p: Price)
    requires InsideOut(Buy, out) && Lists(out, From(base, held, cut)) && SlotOf(base, p) < cut
    requires forall q :: q in held + map[p := NULL] ==> InWindow(base, q)
    ensures InsideOut(Buy, out + [p]) && Lists(out + [p], From(base, held, cut) + {p})
  {
    forall i | 0 <= i < |out| ensures out[i] > p {
      assert out[i] in out;
      assert out[i] in From(base, held, cut) && InWindow(base, out[i]) && InWindow(base, p);
    }
  }

  // What the scratch list of a rebase carries

  ghost function PairsMap(pairs: seq<(Price, Handle)>): map<Price, Handle> {
    if pairs == [] then map[] else
      var n := |pairs| - 1;
      PairsMap(pairs[..n])[pairs[n].0 := pairs[n].1]
  }

  lemma PairsSnoc(pairs: seq<(Price, Handle)>, p: Price, h: Handle)
    ensures PairsMap(pairs + [(p, h)]) == PairsMap(pairs)[p := h]
  {
    assert (pairs + [(p, h)])[..|pairs|] == pairs;
  }

  ghost function Restrict(m: map<Price, Handle>, ps: set<Price>): map<Price, Handle> {
    map p | p in m && p in ps :: m[p]
  }

  /** std::map::emplace: an existing key is left alone. */
  function Emplace(m: map<Price, Handle>, p: Price, h: Handle): map<Price, Handle> {
    if p in m then m else m[p := h]
  }

  /** std::map::lower_bound over ascending keys: how many of them lie below lo. */
  function LowerBound(keys: seq<Price>, lo: Price): (k: nat)
    requires InsideOut(Sell, keys)
    ensures k <= |keys|
    ensures forall i :: 0 <= i < |keys| ==> (keys[i] < lo <==> i < k)
  {
    if keys == [] then 0 else
      var n := |keys| - 1;
      if keys[n] < lo then n + 1 else LowerBound(keys[..n], lo)
  }

  ghost predicate DistinctKeys(pairs: seq<(Price, Handle)>) {
    forall i, j :: 0 <= i < j < |pairs| ==> pairs[i].0 != pairs[j].0
  }

  lemma PairsNil()
    ensures PairsMap([]) == map[]
  {
  }

  lemma {:induction false} PairsKeys(pairs: seq<(Price, Handle)>, p: Price)
    ensures p in PairsMap(pairs) <==> exists i :: 0 <= i < |pairs| && pairs[i].0 == p
  {
    if pairs != [] {
      var n := |pairs| - 1;
      PairsKeys(pairs[..n], p);
      if p in PairsMap(pairs[..n]) {
        var i :| 0 <= i < n && pairs[..n][i].0 == p;
        assert pairs[i].0 == p;
      }
      if i :| 0 <= i < |pairs| && pairs[i].0 == p {
        if i < n { assert pairs[..n][i].0 == p; }
      }
    }
  }

  lemma NotYet(pairs: seq<(Price, Handle)>, k: nat)
    requires k < |pairs| && DistinctKeys(pairs)
    ensures pairs[k].0 !in PairsMap(pairs[..k]) && pairs[k].0 in PairsMap(pairs)
  {
    PairsKeys(pairs[..k], pairs[k].0);
    PairsKeys(pairs, pairs[k].0);
  }

  // Facts about the ladder's two parts

  lemma SoundParts(l: Ladder)
    requires l.Sound()
    ensures l.held.Keys !! l.overflow.Keys
    ensures forall p :: p in l.held ==>
              InWindow(l.base, p) && p in l.Contents() && l.Contents()[p] == l.held[p] && p != NO_PRICE
    ensures forall p :: p in l.overflow ==> p in l.Contents() && l.Contents()[p] == l.overflow[p] && p != NO_PRICE
  {
    hide InWindow;
  }

  lemma SizesAdd(a: map<Price, Handle>, b: map<Price, Handle>)
    requires a.Keys !! b.Keys
    ensures |a| + |b| == |a + b| == |a.Keys + b.Keys|
  {
    assert (a + b).Keys == a.Keys + b.Keys;
    assert |a.Keys| == |a| && |b.Keys| == |b| && |(a + b).Keys| == |a + b|;
  }

  lemma SizeDrops(m: map<Price, Handle>, p: Price)
    requires p in m
    ensures |m - {p}| == |m| - 1
  {
    assert m == (m - {p})[p := m[p]];
  }

  /** What an erasure leaves, counted. */
  lemma OneFewer(l: Ladder, p: Price)
    requires l.Sound() && l.Canonical() && p in l.Keys()
    ensures var r := l.Erase(p);
            && r.Sound() && r.Canonical() && r.base == l.base
            && |r.held| + |r.overflow| + 1 == |l.held| + |l.overflow|
  {
    hide InWindow, Ladder.Sound, Ladder.Canonical, Ladder.Contents;
    EraseKeeps(l, p);
    SizeDrops(if InWindow(l.base, p) then l.held else l.overflow, p);
  }

  lemma BestOfUnion(side: Side, a: set<Price>, b: set<Price>)
    ensures a == {} ==> Best(side, a + b) == Best(side, b)
    ensures b == {} ==> Best(side, a + b) == Best(side, a)
    ensures a != {} && b != {} ==>
              Best(side, a + b) == if side.Inside(Best(side, a), Best(side, b)) then Best(side, a) else Best(side, b)
  {
    assert a == {} ==> a + b == b;
    assert b == {} ==> a + b == a;
    if a != {} && b != {} {
      assert Best(side, a) in a + b && Best(side, b) in a + b;
      assert Best(side, a + b) in a + b;
    }
  }

  lemma BestNonEmpty(side: Side, a: set<Price>)
    requires NO_PRICE !in a
    ensures Best(side, a) == NO_PRICE <==> a == {}
  {
  }

  lemma RebaseSize(l: Ladder, anchor: int)
    requires l.Sound()
    ensures |l.Rebase(anchor).held| + |l.Rebase(anchor).overflow| == |l.held| + |l.overflow|
  {
    hide Ladder.Rebase, Ladder.Sound;
    RebaseKeeps(l, anchor);
    SoundParts(l);
    SoundParts(l.Rebase(anchor));
    SizesAdd(l.held, l.overflow);
    SizesAdd(l.Rebase(anchor).held, l.Rebase(anchor).overflow);
  }

  lemma WindowMoved(base: int, newBase: int, words: seq<bv64>, slots: seq<Handle>)
    requires Window(base, words, slots, map[])
    ensures Window(newBase, words, slots, map[])
  {
  }

  // The lift

  ghost predicate Lifted(base: int, held: map<Price, Handle>, slots: seq<Handle>, scratch: seq<(Price, Handle)>,
      cut: int) {
    && |slots| == WINDOW_TICKS
    && PairsMap(scratch) == Restrict(held, Below(base, held, cut))
    && DistinctKeys(scratch)
    && (forall p :: p in held && SlotOf(base, p) >= cut ==>
          0 <= SlotOf(base, p) < WINDOW_TICKS && slots[SlotOf(base, p)] == held[p])
  }

  lemma LiftStart(base: int, words: seq<bv64>, slots: seq<Handle>, held: map<Price, Handle>)
    requires Window(base, words, slots, held)
    ensures Lifted(base, held, slots, [], 0)
  {
    PairsNil();
    WindowPrices(base, words, slots, held);
  }

  lemma LiftStep(base: int, held: map<Price, Handle>, slots: seq<Handle>, scratch: seq<(Price, Handle)>, cut: nat,
      s: nat, p: Price)
    requires Lifted(base, held, slots, scratch, cut) && cut <= s < WINDOW_TICKS
    requires p in held && SlotOf(base, p) == s && Below(base, held, s + 1) == Below(base, held, cut) + {p}
    ensures slots[s] == held[p]
    ensures Lifted(base, held, slots[s := NULL], scratch + [(p, slots[s])], s + 1)
  {
    hide PairsMap;
    PairsSnoc(scratch, p, slots[s]);
    forall i | 0 <= i < |scratch| ensures scratch[i].0 != p {
      PairsKeys(scratch, scratch[i].0);
      assert scratch[i].0 in Below(base, held, cut);
    }
  }

  lemma LiftedSame(base: int, held: map<Price, Handle>, slots: seq<Handle>, scratch: seq<(Price, Handle)>, cut: int,
      cut': int)
    requires Lifted(base, held, slots, scratch, cut) && cut <= cut' && Below(base, held, cut') == Below(base, held, cut)
    ensures Lifted(base, held, slots, scratch, cut')
  {
    hide PairsMap;
  }

  lemma LiftEnd(base: int, held: map<Price, Handle>, slots: seq<Handle>, scratch: seq<(Price, Handle)>)
    requires Lifted(base, held, slots, scratch, 64 * WORDS) && Below(base, held, 64 * WORDS) == held.Keys
    ensures PairsMap(scratch) == held && DistinctKeys(scratch)
  {
    hide PairsMap;
  }

  // Putting back

  ghost function Kept(base: int, m: map<Price, Handle>): map<Price, Handle> {
    map p | p in m && InWindow(base, p) :: m[p]
  }

  ghost function Displaced(base: int, m: map<Price, Handle>): map<Price, Handle> {
    map p | p in m && !InWindow(base, p) :: m[p]
  }

  lemma KeptStep(base: int, m: map<Price, Handle>, p: Price, h: Handle)
    requires InWindow(base, p)
    ensures Kept(base, m[p := h]) == Kept(base, m)[p := h] && Displaced(base, m[p := h]) == Displaced(base, m)
  {
    hide InWindow;
  }

  lemma DisplacedStep(base: int, m: map<Price, Handle>, overflow: map<Price, Handle>, p: Price, h: Handle)
    requires !InWindow(base, p) && p !in m && p !in overflow
    ensures Kept(base, m[p := h]) == Kept(base, m)
    ensures overflow + Displaced(base, m[p := h]) == Emplace(overflow + Displaced(base, m), p, h)
  {
    hide InWindow;
  }

  // Pulling in

  ghost function KeyAt(keys: seq<Price>, k: nat): int {
    if k < |keys| then keys[k] else 0x1_0000_0000
  }

  lemma PullNothing(slid: Ladder, keys: seq<Price>, k: nat)
    requires Lists(keys, slid.overflow.Keys) && InsideOut(Sell, keys) && k <= |keys|
    requires forall i :: 0 <= i < |keys| ==> (keys[i] < slid.PullFrom() <==> i < k)
    ensures slid.PullIn(KeyAt(keys, k)) == slid
  {
    hide InWindow, Wrap32;
    forall p | p in slid.overflow && slid.PullFrom() <= p ensures p >= KeyAt(keys, k) {
      assert p in keys;
      var i :| 0 <= i < |keys| && keys[i] == p;
    }
    assert slid.Pulled(KeyAt(keys, k)) == {};
  }

  lemma NextKey(ps: set<Price>, keys: seq<Price>, k: nat, p: Price)
    requires Lists(keys, ps) && InsideOut(Sell, keys) && k < |keys| && p in ps && p != keys[k]
    ensures p < keys[k] <==> p < KeyAt(keys, k + 1)
  {
    assert p in keys;
    var i :| 0 <= i < |keys| && keys[i] == p;
  }

  /** Between two neighbouring keys there is only the first of them to pull. */
  lemma PullOne(slid: Ladder, keys: seq<Price>, k: nat)
    requires Lists(keys, slid.overflow.Keys) && InsideOut(Sell, keys) && k < |keys| && keys[k] >= slid.PullFrom()
    ensures var p := keys[k]; var l := slid.PullIn(p);
            p in l.overflow &&
            slid.PullIn(KeyAt(keys, k + 1)) ==
              if InWindow(slid.base, p) then Ladder(l.base, l.held[p := l.overflow[p]], l.overflow - {p}) else l
  {
    hide InWindow, Ladder.Move, Ladder.PullFrom, InsideOut, Lists;
    var p := keys[k];
    ListedIn(keys, slid.overflow.Keys, k);
    LastKey(keys, k);
    forall q | q in slid.overflow && q != p ensures q < p <==> q < KeyAt(keys, k + 1) {
      NextKey(slid.overflow.Keys, keys, k, q);
    }
    assert slid.Pulled(KeyAt(keys, k + 1)) == slid.Pulled(p) + if InWindow(slid.base, p) then {p} else {};
    MoveOne(slid, slid.Pulled(p), p);
  }

  lemma LastKey(keys: seq<Price>, k: nat)
    requires InsideOut(Sell, keys) && k < |keys|
    ensures keys[k] < KeyAt(keys, k + 1)
  {
  }

  lemma MoveOne(l: Ladder, ps: set<Price>, p: Price)
    requires ps <= l.overflow.Keys && p in l.overflow && p !in ps
    ensures var m := l.Move(ps);
            p in m.overflow && l.Move(ps + {p}) == Ladder(m.base, m.held[p := m.overflow[p]], m.overflow - {p})
    ensures l.Move(ps + {}) == l.Move(ps)
  {
    assert ps + {} == ps;
  }

  lemma PullDone(slid: Ladder, keys: seq<Price>, k: nat, hi: Price)
    requires Lists(keys, slid.overflow.Keys) && InsideOut(Sell, keys) && k <= |keys|
    requires k < |keys| ==> keys[k] >= hi
    requires forall i :: 0 <= i < k ==> keys[i] < slid.PullFrom() || keys[i] < hi
    ensures slid.PullIn(KeyAt(keys, k)) == slid.PullIn(hi)
  {
    hide InWindow, Ladder.Move, Ladder.PullFrom;
    forall p | p in slid.overflow && p >= slid.PullFrom() ensures p < KeyAt(keys, k) <==> p < hi {
      assert p in keys;
      var i :| 0 <= i < |keys| && keys[i] == p;
    }
    assert slid.Pulled(KeyAt(keys, k)) == slid.Pulled(hi);
  }

  // Merging

  lemma NothingListed(side: Side)
    ensures InsideOut(side, []) && Lists([], {})
  {
  }

  lemma ListedIn(s: seq<Price>, ps: set<Price>, i: nat)
    requires Lists(s, ps) && i < |s|
    ensures s[i] in ps
  {
    assert s[i] in s;
  }

  ghost predicate Merged(side: Side, prices: seq<Price>, win: seq<Price>, over: seq<Price>, wi: nat, oi: nat)
    requires wi <= |win| && oi <= |over|
  {
    && InsideOut(side, prices + win[wi..])
    && InsideOut(side, prices + over[oi..])
    && forall p: Price :: p in prices <==> p in win[..wi] || p in over[..oi]
  }

  lemma MergeStart(side: Side, win: seq<Price>, over: seq<Price>)
    requires InsideOut(side, win) && InsideOut(side, over)
    ensures Merged(side, [], win, over, 0, 0)
  {
    assert [] + win[0..] == win && [] + over[0..] == over;
  }

  /** Taking the inner of the two heads keeps the output ahead of both remainders. */
  lemma MergeHead(side: Side, prices: seq<Price>, mine: seq<Price>, other: seq<Price>, i: nat, j: nat)
    requires i < |mine| && j <= |other|
    requires InsideOut(side, prices + mine[i..]) && InsideOut(side, prices + other[j..])
    requires j < |other| ==> side.Inside(mine[i], other[j])
    ensures InsideOut(side, prices + [mine[i]] + mine[i + 1..]) && InsideOut(side, prices + [mine[i]] + other[j..])
  {
    var n := |prices|;
    assert prices + [mine[i]] + mine[i + 1..] == prices + mine[i..];
    var s := prices + [mine[i]] + other[j..];
    forall a, b | 0 <= a < b < |s| ensures side.Inside(s[a], s[b]) {
      if a < n && b == n {
        assert (prices + mine[i..])[a] == s[a] && (prices + mine[i..])[n] == s[b];
      } else if a == n {
        assert s[b] == (prices + other[j..])[b - 1] && (prices + other[j..])[n] == other[j];
        assert b - 1 > n ==> side.Inside((prices + other[j..])[n], (prices + other[j..])[b - 1]);
      } else {
        var b' := if b < n then b else b - 1;
        var a' := if a < n then a else a - 1;
        assert s[a] == (prices + other[j..])[a'] && s[b] == (prices + other[j..])[b'];
      }
    }
  }

  lemma MergeWindow(side: Side, prices: seq<Price>, win: seq<Price>, over: seq<Price>, wi: nat, oi: nat)
    requires wi < |win| && oi <= |over| && Merged(side, prices, win, over, wi, oi)
    requires oi < |over| ==> side.Inside(win[wi], over[oi])
    ensures Merged(side, prices + [win[wi]], win, over, wi + 1, oi)
  {
    MergeHead(side, prices, win, over, wi, oi);
    hide InsideOut;
    assert win[..wi + 1] == win[..wi] + [win[wi]];
  }

  lemma MergeOverflow(side: Side, prices: seq<Price>, win: seq<Price>, over: seq<Price>, wi: nat, oi: nat)
    requires wi <= |win| && oi < |over| && Merged(side, prices, win, over, wi, oi)
    requires wi < |win| ==> !side.Inside(win[wi], over[oi]) && win[wi] != over[oi]
    ensures Merged(side, prices + [over[oi]], win, over, wi, oi + 1)
  {
    hide InsideOut;
    MergeHead(side, prices, over, win, oi, wi);
    assert over[..oi + 1] == over[..oi] + [over[oi]];
  }

  lemma MergeEnd(side: Side, prices: seq<Price>, win: seq<Price>, over: seq<Price>, a: set<Price>, b: set<Price>)
    requires Merged(side, prices, win, over, |win|, |over|) && Lists(win, a) && Lists(over, b)
    ensures prices == Sorted(side, a + b)
  {
    hide InsideOut;
    assert prices + win[|win|..] == prices;
    assert win[..|win|] == win && over[..|over|] == over;
    SortedUnique(side, a + b, prices);
  }

  class PriceLadder {
    const side: Side
    var base: int
    const slots: array<Handle>
    const words: array<bv64>
    var overflow: map<Price, Handle>
    var levels: nat

    /** The levels whose handles sit in the window. */
    ghost var held: map<Price, Handle>

    ghost predicate Valid()
      reads this, slots, words
    {
      && Window(base, words[..], slots[..], held)
      && State().Sound()
      && levels == |held| + |overflow|
      && -2048 <= base
    }

    ghost function State(): Ladder
      reads this
    {
      Ladder(base, held, overflow)
    }

    constructor (side: Side)
      ensures Valid() && State() == INITIAL && this.side == side && fresh(slots) && fresh(words)
    {
      hide Window, Bits;
      this.side := side;
      base := 0;
      slots := new Handle[WINDOW_TICKS](_ => NULL);
      words := new bv64[WORDS](_ => 0);
      overflow := map[];
      levels := 0;
      held := map[];
      new;
      WindowEmpty(0, words[..], slots[..]);
    }

    method Find(p: Price) returns (h: Handle)
      requires Valid()
      ensures h == State().Find(p)
    {
      hide Window, InWindow, SlotOf, SlotPrice, Bit, Bits;
      if InWindow(base, p) {
        WindowHas(base, words[..], slots[..], held, p);
        var s := SlotOf(base, p);
        if Test(words[s / 64], s % 64) {
          h := slots[s];
        } else {
          h := NULL;
        }
      } else {
        h := if p in overflow then overflow[p] else NULL;
      }
    }

    /** slots_[s] = h and set_bit(s). */
    method PutSlot(p: Price, h: Handle)
      requires Window(base, words[..], slots[..], held) && InWindow(base, p)
      modifies slots, words, this`held
      ensures Window(base, words[..], slots[..], held) && held == old(held)[p := h]
    {
      hide Window, InWindow, SlotOf, SlotPrice, SetBit, Bits;
      WindowPut(base, words[..], slots[..], held, p, h);
      var s := SlotOf(base, p);
      slots[s] := h;
      words[s / 64] := SetBit(words[s / 64], s % 64);
      held := held[p := h];
      assert slots[..] == old(slots[..])[s := h];
      assert words[..] == old(words[..])[s / 64 := SetBit(old(words[..])[s / 64], s % 64)];
    }

    method DropSlot(p: Price)
      requires Window(base, words[..], slots[..], held) && InWindow(base, p)
      modifies slots, words, this`held
      ensures Window(base, words[..], slots[..], held) && held == old(held) - {p}
    {
      hide Window, InWindow, SlotOf, SlotPrice, ClearBit, Bits;
      WindowDrop(base, words[..], slots[..], held, p);
      var s := SlotOf(base, p);
      words[s / 64] := ClearBit(words[s / 64], s % 64);
      slots[s] := NULL;
      held := held - {p};
      assert slots[..] == old(slots[..])[s := NULL];
      assert words[..] == old(words[..])[s / 64 := ClearBit(old(words[..])[s / 64], s % 64)];
    }

    method Insert(p: Price, h: Handle)
      requires Valid()
      requires h != NULL && p != NO_PRICE && p !in State().Keys()
      modifies this, slots, words
      ensures Valid()
      ensures State() == old(State()).Insert(side, p, h)
    {
      hide Window, InWindow, Ladder.Rebase, Ladder.Sound, Ladder.Recentres, Ladder.Place, Ladder.Find, Ladder.Contents;
      PlaceKeeps(State(), p, h);
      PlaceLevel(p, h);
      levels := levels + 1;
      MaybeRebase();
    }

    method PlaceLevel(p: Price, h: Handle)
      requires Window(base, words[..], slots[..], held) && p !in State().Keys()
      modifies slots, words, this`held, this`overflow
      ensures Window(base, words[..], slots[..], held)
      ensures State() == old(State()).Place(p, h)
      ensures |held| + |overflow| == old(|held| + |overflow|) + 1
    {
      hide Window, InWindow;
      if InWindow(base, p) {
        PutSlot(p, h);
      } else {
        overflow := overflow[p := h];
      }
    }

    method Erase(p: Price)
      requires Valid() && State().Canonical()
      requires p in State().Keys()
      modifies this, slots, words
      ensures Valid() && State().Canonical()
      ensures State() == old(State()).Erase(p)
    {
      hide Window, InWindow, Ladder.Sound, Ladder.Canonical, Ladder.Erase, Ladder.Find, Ladder.Keys, Ladder.Contents;
      OneFewer(State(), p);
      TakeOut(p);
      levels := levels - 1;
    }

    method TakeOut(p: Price)
      requires Window(base, words[..], slots[..], held)
      modifies slots, words, this`held, this`overflow
      ensures Window(base, words[..], slots[..], held)
      ensures State() == old(State()).Erase(p)
    {
      hide Window, InWindow, Ladder.Find, Ladder.Keys, Ladder.Contents, Ladder.Sound;
      if InWindow(base, p) {
        DropSlot(p);
      } else {
        overflow := overflow - {p};
      }
    }

    predicate IsEmpty()
      reads this
    {
      levels == 0
    }

    method BestPrice() returns (p: Price)
      requires Valid() && levels > 0
      ensures State().Keys() != {} && p == Best(side, State().Keys())
      ensures Combined(side, held.Keys, overflow.Keys) == Answers(p)
    {
      hide Window, InWindow, Ladder.Sound, IsBest, Combined;
      SoundParts(State());
      CombinedExact(side, held.Keys, overflow.Keys);
      BestNonEmpty(side, held.Keys);
      var fromWindow := BestInWindow();
      SizesAdd(held, overflow);
      BestOfUnion(side, held.Keys, overflow.Keys);
      if overflow == map[] {
        assert fromWindow != NO_PRICE;
        return fromWindow;
      }
      var fromOverflow := Best(side, overflow.Keys);
      if fromWindow == NO_PRICE {
        return fromOverflow;
      }
      p := if side.Inside(fromWindow, fromOverflow) then fromWindow else fromOverflow;
    }

    /** Highest set bit for bids, lowest for asks. */
    method BestInWindow() returns (p: Price)
      requires Window(base, words[..], slots[..], held)
      ensures p == Best(side, held.Keys)
    {
      hide Window, InWindow, Below, From, UnreadUp, UnreadDown, SlotOf, PriceAt, Bits, Highest, Lowest, Best;
      WindowPrices(base, words[..], slots[..], held);
      if side.Buy? {
        for w := WORDS downto 0
          invariant From(base, held, 64 * w) == {}
        {
          WordUnread(words[w], w);
          if words[w] != 0 {
            StepDown(base, words[..], slots[..], held, w, words[w], 64 * (w + 1));
            var s := 64 * w + Highest(words[w]);
            TopIsBest(base, held, 64 * (w + 1), s, PriceAt(base, s));
            return PriceAt(base, s);
          }
          WordReadDown(base, words[..], slots[..], held, w, 64 * (w + 1));
        }
      } else {
        for w := 0 to WORDS
          invariant Below(base, held, 64 * w) == {}
        {
          WordUnread(words[w], w);
          if words[w] != 0 {
            StepUp(base, words[..], slots[..], held, w, words[w], 64 * w);
            var s := 64 * w + Lowest(words[w]);
            LowIsBest(base, held, 64 * w, s, PriceAt(base, s));
            return PriceAt(base, s);
          }
          WordReadUp(base, words[..], slots[..], held, w, 64 * w);
        }
      }
      NoHeldBest(side, held);
      return NO_PRICE;
    }

    /** The window's prices in the order of the side, read off the bitset word by word. */
    method CollectWindow() returns (out: seq<Price>)
      requires Window(base, words[..], slots[..], held)
      ensures InsideOut(side, out) && Lists(out, held.Keys)
    {
      hide Window, InWindow, Below, From, UnreadUp, UnreadDown, SlotOf, PriceAt, Bits, Highest, Lowest, ClearBit,
           DropLowest, InsideOut, Lists;
      WindowPrices(base, words[..], slots[..], held);
      out := [];
      NothingListed(side);
      if side.Buy? {
        for w := WORDS downto 0
          invariant InsideOut(Buy, out) && Lists(out, From(base, held, 64 * w))
        {
          var bits: bv64 := words[w];
          ghost var cut: nat := 64 * (w + 1);
          WordUnread(words[w], w);
          while bits != 0
            invariant 64 * w <= cut <= 64 * (w + 1) && UnreadDown(words[w], w, bits, cut)
            invariant InsideOut(Buy, out) && Lists(out, From(base, held, cut))
            decreases cut
          {
            StepDown(base, words[..], slots[..], held, w, bits, cut);
            var top := Highest(bits);
            var p := PriceAt(base, 64 * w + top);
            ListDown(base, held, out, cut, p);
            bits := ClearBit(bits, top);
            cut := 64 * w + top;
            out := out + [p];
          }
          WordReadDown(base, words[..], slots[..], held, w, cut);
        }
      } else {
        for w := 0 to WORDS
          invariant InsideOut(Sell, out) && Lists(out, Below(base, held, 64 * w))
        {
          var bits: bv64 := words[w];
          ghost var cut: nat := 64 * w;
          WordUnread(words[w], w);
          while bits != 0
            invariant 64 * w <= cut <= 64 * (w + 1) && UnreadUp(words[w], w, bits, cut)
            invariant InsideOut(Sell, out) && Lists(out, Below(base, held, cut))
            decreases 64 * (w + 1) - cut
          {
            StepUp(base, words[..], slots[..], held, w, bits, cut);
            var low := Lowest(bits);
            var p := PriceAt(base, 64 * w + low);
            ListUp(base, held, out, cut, p);
            bits := DropLowest(bits);
            cut := 64 * w + low + 1;
            out := out + [p];
          }
          WordReadUp(base, words[..], slots[..], held, w, cut);
        }
      }
    }

    /** Levels from the inside outwards: a two-way merge of the window with the ordered overflow map. */
    method ForEachLevel() returns (out: seq<(Price, Handle)>)
      requires Valid()
      ensures Labelled(out, Sorted(side, State().Keys()), State().Contents())
    {
      hide Window, InWindow, SlotOf, Ladder.Sound, Ladder.Contents, InsideOut, Lists, Sorted, Best, Merged, Labelled;
      ghost var contents := State().Contents();
      SoundParts(State());
      var win := CollectWindow();
      var over := Sorted(side, overflow.Keys);
      var wi: nat, oi: nat := 0, 0;
      out := [];
      ghost var prices: seq<Price> := [];
      MergeStart(side, win, over);
      LabelledNone(contents);
      while wi < |win| || oi < |over|
        invariant wi <= |win| && oi <= |over|
        invariant Merged(side, prices, win, over, wi, oi)
        invariant Labelled(out, prices, contents)
        decreases |win| - wi + |over| - oi
      {
        if wi < |win| {
          ListedIn(win, held.Keys, wi);
          WindowHas(base, words[..], slots[..], held, win[wi]);
        }
        if oi < |over| { ListedIn(over, overflow.Keys, oi); }
        if oi == |over| || (wi < |win| && side.Inside(win[wi], over[oi])) {
          var h := slots[SlotOf(base, win[wi])];
          MergeWindow(side, prices, win, over, wi, oi);
          LabelledSnoc(out, prices, contents, win[wi], h);
          out := out + [(win[wi], h)];
          prices := prices + [win[wi]];
          wi := wi + 1;
        } else {
          MergeOverflow(side, prices, win, over, wi, oi);
          LabelledSnoc(out, prices, contents, over[oi], overflow[over[oi]]);
          out := out + [(over[oi], overflow[over[oi]])];
          prices := prices + [over[oi]];
          oi := oi + 1;
        }
      }
      MergeEnd(side, prices, win, over, held.Keys, overflow.Keys);
    }

    /** Puts the window around the inside again once the inside is within the margin of an end, or beyond it. */
    method MaybeRebase()
      requires Valid() && levels > 0
      modifies this, slots, words
      ensures Valid()
      ensures var l := old(State()); var t := Tick(Best(side, l.Keys()));
              State() == if l.Recentres(t) then l.Rebase(t) else l
    {
      hide Window, InWindow, Ladder.Rebase, Ladder.Sound, Ladder.Keys, Ladder.Contents;
      var p := BestPrice();
      var t := Tick(p);
      if base + REBASE_MARGIN <= t < base + WINDOW_TICKS - REBASE_MARGIN {
        return;
      }
      Rebase(t);
    }

    method Rebase(anchor: nat)
      requires Valid()
      modifies this, slots, words
      ensures Valid()
      ensures State() == if anchor == old(base) + WINDOW_TICKS / 2 then old(State()) else old(State()).Rebase(anchor)
    {
      hide Window, InWindow, Ladder.Sound, Ladder.Slide, Ladder.PullIn, Ladder.Contents, Ladder.Keys, Ladder.PullTo;
      var newBase := anchor - WINDOW_TICKS / 2;
      if newBase == base {
        return;
      }
      RebaseKeeps(State(), anchor);
      RebaseSize(State(), anchor);
      ghost var before := State();
      SlideTo(newBase);
      Pull(before.Slide(newBase));
    }

    method SlideTo(newBase: int)
      requires Valid()
      modifies slots, words, this`base, this`held, this`overflow
      ensures Window(base, words[..], slots[..], held) && State() == old(State()).Slide(newBase)
    {
      hide Window, InWindow, Ladder.Sound, Ladder.Slide;
      ghost var before := State();
      var scratch := Lift();
      WindowMoved(base, newBase, words[..], slots[..]);
      base := newBase;
      PutBack(scratch, before);
    }

    /** Empties the window into a scratch list, lowest slot first. */
    method Lift() returns (scratch: seq<(Price, Handle)>)
      requires Window(base, words[..], slots[..], held)
      modifies slots, words, this`held
      ensures Window(base, words[..], slots[..], held) && held == map[]
      ensures PairsMap(scratch) == old(held) && DistinctKeys(scratch)
      ensures forall w :: 0 <= w < WORDS ==> words[w] == 0
    {
      hide Window, InWindow, Below, UnreadUp, SlotOf, PriceAt, Bits, Lowest, DropLowest, Lifted;
      ghost var h0, s0, w0 := held, slots[..], words[..];
      scratch := [];
      WindowPrices(base, w0, s0, h0);
      LiftStart(base, w0, s0, h0);
      for w := 0 to WORDS
        invariant words[..] == w0 && Lifted(base, h0, slots[..], scratch, 64 * w)
      {
        var bits: bv64 := words[w];
        ghost var cut: nat := 64 * w;
        WordUnread(words[w], w);
        while bits != 0
          invariant 64 * w <= cut <= 64 * (w + 1) && UnreadUp(w0[w], w, bits, cut)
          invariant words[..] == w0 && Lifted(base, h0, slots[..], scratch, cut)
          decreases 64 * (w + 1) - cut
        {
          StepUp(base, w0, s0, h0, w, bits, cut);
          var s := 64 * w + Lowest(bits);
          LiftStep(base, h0, slots[..], scratch, cut, s, PriceAt(base, s));
          bits := DropLowest(bits);
          cut := s + 1;
          scratch := scratch + [(PriceAt(base, s), slots[s])];
          slots[s] := NULL;
        }
        WordReadUp(base, w0, s0, h0, w, cut);
        LiftedSame(base, h0, slots[..], scratch, cut, 64 * (w + 1));
      }
      LiftEnd(base, h0, slots[..], scratch);
      for w := 0 to WORDS
        invariant forall v :: 0 <= v < w ==> words[v] == 0
      {
        words[w] := 0;
      }
      held := map[];
      WindowEmpty(base, words[..], slots[..]);
    }

    /** Puts the lifted levels back where they now belong: in the window, or in the overflow map. */
    method PutBack(scratch: seq<(Price, Handle)>, ghost before: Ladder)
      requires Window(base, words[..], slots[..], held) && held == map[] && overflow == before.overflow
      requires PairsMap(scratch) == before.held && DistinctKeys(scratch) && before.Sound()
      modifies slots, words, this`held, this`overflow
      ensures Window(base, words[..], slots[..], held) && State() == before.Slide(base)
    {
      hide Window, InWindow, Ladder.Sound, PairsMap;
      PairsNil();
      for k := 0 to |scratch|
        invariant Window(base, words[..], slots[..], held)
        invariant held == Kept(base, PairsMap(scratch[..k]))
        invariant overflow == before.overflow + Displaced(base, PairsMap(scratch[..k]))
      {
        var (p, h) := scratch[k];
        NotYet(scratch, k);
        SoundParts(before);
        PairsSnoc(scratch[..k], p, h);
        assert scratch[..k] + [(p, h)] == scratch[..k + 1];
        if InWindow(base, p) {
          KeptStep(base, PairsMap(scratch[..k]), p, h);
          PutSlot(p, h);
        } else {
          DisplacedStep(base, PairsMap(scratch[..k]), before.overflow, p, h);
          overflow := Emplace(overflow, p, h);
        }
      }
      assert scratch[..|scratch|] == scratch;
    }

    /** Pulls in what the window has slid over, scanning the overflow map between the two converted bounds. */
    method Pull(ghost slid: Ladder)
      requires Window(base, words[..], slots[..], held) && State() == slid
      modifies slots, words, this`held, this`overflow
      ensures Window(base, words[..], slots[..], held) && State() == slid.PullIn(slid.PullTo())
    {
      hide Window, InWindow, Wrap32, Sorted, InsideOut, Lists, Ladder.PullIn;
      var lo := Wrap32(base * TICK_UNITS);
      var hi := Wrap32((base + WINDOW_TICKS) * TICK_UNITS);
      var keys := Sorted(Sell, overflow.Keys);
      var k: nat := LowerBound(keys, lo);
      PullNothing(slid, keys, k);
      while k < |keys| && keys[k] < hi
        invariant k <= |keys| && Window(base, words[..], slots[..], held)
        invariant State() == slid.PullIn(KeyAt(keys, k))
        invariant forall i :: k <= i < |keys| ==> keys[i] >= lo
        invariant forall i :: 0 <= i < k ==> keys[i] < lo || keys[i] < hi
      {
        PullOne(slid, keys, k);
        if InWindow(base, keys[k]) {
          PutSlot(keys[k], overflow[keys[k]]);
          overflow := overflow - {keys[k]};
        }
        k := k + 1;
      }
      PullDone(slid, keys, k, hi);
    }
  }

  /** The inside of the window is the outermost scanned slot once everything beyond it is known to be empty. */
  lemma TopIsBest(base: int, held: map<Price, Handle>, cut: nat, s: nat, p: Price)
    requires forall q :: q in held ==> InWindow(base, q)
    requires p in held && SlotOf(base, p) == s
    requires From(base, held, s) == From(base, held, cut) + {p} && From(base, held, cut) == {}
    ensures held != map[] && p == Best(Buy, held.Keys)
  {
    forall q | q in held ensures q <= p {
      if SlotOf(base, q) >= s { assert q in From(base, held, s); }
      assert InWindow(base, q) && InWindow(base, p);
    }
  }

  lemma LowIsBest(base: int, held: map<Price, Handle>, cut: nat, s: nat, p: Price)
    requires forall q :: q in held ==> InWindow(base, q)
    requires p in held && SlotOf(base, p) == s
    requires Below(base, held, s + 1) == Below(base, held, cut) + {p} && Below(base, held, cut) == {}
    ensures held != map[] && p == Best(Sell, held.Keys)
  {
    forall q | q in held ensures q >= p {
      if SlotOf(base, q) <= s { assert q in Below(base, held, s + 1); }
      assert InWindow(base, q) && InWindow(base, p);
    }
  }

  lemma WindowPrices(base: int, words: seq<bv64>, slots: seq<Handle>, held: map<Price, Handle>)
    requires Window(base, words, slots, held)
    ensures |words| == WORDS && |slots| == WINDOW_TICKS
    ensures forall q :: q in held ==> InWindow(base, q)
    ensures Below(base, held, 0) == {} && From(base, held, 64 * WORDS) == {}
    ensures Below(base, held, 64 * WORDS) == held.Keys && From(base, held, 0) == held.Keys
  {
  }

  lemma WordUnread(word: bv64, w: nat)
    ensures UnreadUp(word, w, word, 64 * w) && UnreadDown(word, w, word, 64 * (w + 1))
  {
    hide Bits;
  }

  lemma NoHeldBest(side: Side, held: map<Price, Handle>)
    requires held.Keys == {}
    ensures Best(side, held.Keys) == NO_PRICE
  {
  }
}
