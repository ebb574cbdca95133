/** One 64-bit word of an occupancy bitset, and what each bit trick does to the set of positions it holds. */
module BitWords {

  /** (w >> b) & 1 */
  predicate Bit(w: bv64, b: bv6) {
    (w >> b) & 1 == 1
  }

  predicate Test(w: bv64, s: nat)
    requires s < 64
  {
    Bit(w, s as bv6)
  }

  /** The positions whose bit is set. */
  ghost function Bits(w: bv64): set<nat> {
    set s: nat | s < 64 && Test(w, s)
  }

  lemma PositionRoundTrip(s: nat)
    requires s < 64
    ensures (s as bv6) as nat == s
  {
  }

  lemma SetOne(w: bv64, b: bv6, t: bv6)
    ensures Bit(w | (1 << b), t) <==> t == b || Bit(w, t)
  {
  }

  lemma ClearOne(w: bv64, b: bv6, t: bv6)
    ensures Bit(w & !((1 as bv64) << b), t) <==> t != b && Bit(w, t)
  {
  }

  lemma ShiftRight(w: bv64, t: bv6)
    ensures t > 0 ==> (Bit(w, t) <==> Bit(w >> 1, t - 1))
    ensures Bit(w, 0) <==> w & 1 == 1
    ensures t == 63 ==> !Bit(w >> 1, t)
  {
  }

  function Half(w: bv64): bv64 {
    w >> 1
  }

  predicate Odd(w: bv64) {
    w & 1 == 1
  }

  /** w & (w - 1) */
  function Drop(w: bv64): bv64 {
    w & (w - 1)
  }

  lemma DropOddWord(w: bv64)
    requires Odd(w)
    ensures Drop(w) == w & !(1 as bv64)
  {
  }

  lemma DropEvenWord(w: bv64)
    requires !Odd(w) && w != 0
    ensures Half(Drop(w)) == Drop(Half(w))
  {
  }

  lemma DropKeepsEven(w: bv64)
    requires !Odd(w)
    ensures !Odd(Drop(w))
  {
  }

  lemma HalfSmaller(w: bv64)
    requires w != 0
    ensures Half(w) < w
    ensures !Odd(w) ==> Half(w) != 0
  {
  }

  /** Bits of the shifted word: every position one lower, position zero gone. */
  lemma HalfBits(w: bv64, s: nat)
    ensures s + 1 in Bits(w) <==> s in Bits(Half(w))
    ensures 0 in Bits(w) <==> Odd(w)
  {
    hide Bit;
    ShiftRight(w, 0);
    LowPosition();
    if s < 63 {
      PositionRoundTrip(s);
      PositionRoundTrip(s + 1);
      Successor(s as bv6, (s + 1) as bv6);
      ShiftRight(w, (s + 1) as bv6);
    } else if s == 63 {
      PositionRoundTrip(63);
      ShiftRight(w, 63);
    }
  }

  lemma LowPosition()
    ensures (0 as nat) as bv6 == 0
  {
  }

  lemma Successor(a: bv6, b: bv6)
    requires b as nat == a as nat + 1
    ensures b > 0 && b - 1 == a
  {
  }

  lemma ZeroHasNoBits(w: bv64)
    requires w == 0
    ensures Bits(w) == {}
  {
    forall s: nat | s < 64 ensures !Test(w, s) {
      NoBit(s as bv6);
    }
  }

  lemma NoBit(b: bv6)
    ensures !Bit(0, b)
  {
  }

  /** countr_zero: the lowest position set. */
  function Lowest(w: bv64): (low: nat)
    requires w != 0
    ensures low in Bits(w) && forall s :: s in Bits(w) ==> low <= s
    decreases w
  {
    HalfBits(w, 0);
    HalfSmaller(w);
    if Odd(w) then 0 else
      var low := Lowest(Half(w));
      HalfBits(w, low);
      LowestStep(w, low);
      low + 1
  }

  lemma LowestStep(w: bv64, low: nat)
    requires 0 !in Bits(w) && forall s :: s in Bits(Half(w)) ==> low <= s
    ensures forall s :: s in Bits(w) ==> low + 1 <= s
  {
    hide Bits, Half, Odd;
    forall s | s in Bits(w) ensures low + 1 <= s {
      if s > 0 { HalfBits(w, s - 1); }
    }
  }

  /** 63 - countl_zero: the highest position set. */
  function Highest(w: bv64): (high: nat)
    requires w != 0
    ensures high in Bits(w) && forall s :: s in Bits(w) ==> s <= high
    decreases w
  {
    HalfBits(w, 0);
    HalfSmaller(w);
    if Half(w) == 0 then
      ZeroHasNoBits(Half(w));
      HighestStep(w, -1);
      0
    else
      var high := Highest(Half(w));
      HalfBits(w, high);
      HighestStep(w, high);
      high + 1
  }

  lemma HighestStep(w: bv64, high: int)
    requires high >= -1 && forall s :: s in Bits(Half(w)) ==> s <= high
    ensures forall s :: s in Bits(w) ==> s <= high + 1
  {
    hide Bits, Half, Odd;
    forall s | s in Bits(w) ensures s <= high + 1 {
      if s > 0 { HalfBits(w, s - 1); }
    }
  }

  /** w |= 1 << s */
  function SetBit(w: bv64, s: nat): (r: bv64)
    requires s < 64
    ensures Bits(r) == Bits(w) + {s}
  {
    var b := s as bv6;
    var r := w | (1 << b);
    SetBits(w, s, b, r);
    r
  }

  lemma SamePosition(s: nat, t: nat)
    requires s < 64 && t < 64
    ensures s as bv6 == t as bv6 <==> s == t
  {
    PositionRoundTrip(s);
    PositionRoundTrip(t);
  }

  lemma SetBitAt(w: bv64, s: nat, t: nat, b: bv6, r: bv64)
    requires s < 64 && t < 64 && b == s as bv6 && r == w | (1 << b)
    ensures Test(r, t) <==> t == s || Test(w, t)
  {
    SetSeen(w, b, t as bv6, r);
    SamePosition(s, t);
  }

  lemma SetSeen(w: bv64, b: bv6, c: bv6, r: bv64)
    requires r == w | (1 << b)
    ensures Bit(r, c) <==> c == b || Bit(w, c)
  {
    SetOne(w, b, c);
  }

  lemma SetBits(w: bv64, s: nat, b: bv6, r: bv64)
    requires s < 64 && b == s as bv6 && r == w | (1 << b)
    ensures Bits(r) == Bits(w) + {s}
  {
    hide Test;
    forall t: nat | t < 64 ensures Test(r, t) <==> t == s || Test(w, t) {
      SetBitAt(w, s, t, b, r);
    }
  }

  /** w &= ~(1 << s) */
  function ClearBit(w: bv64, s: nat): (r: bv64)
    requires s < 64
    ensures Bits(r) == Bits(w) - {s}
  {
    var b := s as bv6;
    var r := w & !((1 as bv64) << b);
    ClearBits(w, s, b, r);
    r
  }

  lemma ClearBitAt(w: bv64, s: nat, t: nat, b: bv6, r: bv64)
    requires s < 64 && t < 64 && b == s as bv6 && r == w & !((1 as bv64) << b)
    ensures Test(r, t) <==> t != s && Test(w, t)
  {
    ClearSeen(w, b, t as bv6, r);
    SamePosition(s, t);
  }

  lemma ClearSeen(w: bv64, b: bv6, c: bv6, r: bv64)
    requires r == w & !((1 as bv64) << b)
    ensures Bit(r, c) <==> c != b && Bit(w, c)
  {
    ClearOne(w, b, c);
  }

  lemma ClearBits(w: bv64, s: nat, b: bv6, r: bv64)
    requires s < 64 && b == s as bv6 && r == w & !((1 as bv64) << b)
    ensures Bits(r) == Bits(w) - {s}
  {
    hide Test;
    forall t: nat | t < 64 ensures Test(r, t) <==> t != s && Test(w, t) {
      ClearBitAt(w, s, t, b, r);
    }
  }

  /** bits &= bits - 1 */
  function DropLowest(w: bv64): (r: bv64)
    requires w != 0
    ensures Bits(r) == Bits(w) - {Lowest(w)}
  {
    DropBits(w);
    Drop(w)
  }

  lemma {:induction false} DropBits(w: bv64)
    requires w != 0
    ensures Bits(Drop(w)) == Bits(w) - {Lowest(w)}
    decreases Highest(w)
  {
    hide Bits, Half, Odd, Drop;
    if Odd(w) {
      OddDrop(w);
    } else {
      HalfSmaller(w);
      DropEvenWord(w);
      DropKeepsEven(w);
      DropBits(Half(w));
      EvenDrop(w, Drop(w));
    }
  }

  lemma OddDrop(w: bv64)
    requires w != 0 && Odd(w)
    ensures Bits(Drop(w)) == Bits(w) - {Lowest(w)}
  {
    hide Bits, Half, Odd, Drop;
    DropOddWord(w);
    ClearLow(w, Drop(w));
  }

  lemma ClearLow(w: bv64, r: bv64)
    requires r == w & !(1 as bv64)
    ensures Bits(r) == Bits(w) - {0}
  {
    hide Bits;
    LowPosition();
    ClearBits(w, 0, 0, r);
  }

  lemma EvenDrop(w: bv64, r: bv64)
    requires w != 0 && !Odd(w) && !Odd(r) && Half(w) != 0
    requires Bits(Half(r)) == Bits(Half(w)) - {Lowest(Half(w))}
    ensures Bits(r) == Bits(w) - {Lowest(w)}
  {
    hide Bits, Half, Odd;
    HalfBits(r, 0);
    HalfBits(w, 0);
    forall s: nat ensures s in Bits(r) <==> s in Bits(w) && s != Lowest(Half(w)) + 1 {
      if s > 0 {
        HalfBits(r, s - 1);
        HalfBits(w, s - 1);
      }
    }
  }
}
