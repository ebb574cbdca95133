/** Order reference to handle: open addressing, linear probing, deletion by backward shift. */
module OrderIndexes {
  import opened Core

  datatype Entry = Entry(ref: OrderRef, handle: Handle) {
    predicate Full() {
      handle != NULL
    }
  }

  /** One probe step around a table of n slots; a mask of n - 1 in a table whose size is a power of two. */
  function Step(i: nat, n: nat): nat
    requires i < n
    ensures Step(i, n) < n
  {
    if i + 1 == n then 0 else i + 1
  }

  /** Probe steps from slot a to slot b. */
  function Dist(a: nat, b: nat, n: nat): nat
    requires a < n && b < n
    ensures Dist(a, b, n) < n
  {
    if a <= b then b - a else b + n - a
  }

  /** Does the probe from slot k pass over slot x before it reaches slot m? */
  predicate OnPath(k: nat, x: nat, m: nat) {
    if k <= m then k <= x < m else k <= x || x < m
  }

  /** The slot a reference hashes to. */
  function Home(hash: OrderRef -> nat, ref: OrderRef, n: nat): nat
    requires n > 0
    ensures Home(hash, ref, n) < n
  {
    hash(ref) % n
  }

  /**
   What linear probing promises: no empty slot lies between an entry and its home. The hole, if it names a slot,
   is the one place where the promise is suspended while a deletion is under way.
   */
  ghost predicate Probes(s: seq<Entry>, hash: OrderRef -> nat, hole: int) {
    forall m, x :: 0 <= m < |s| && 0 <= x < |s| && s[m].Full() && OnPath(Home(hash, s[m].ref, |s|), x, m) ==>
      s[x].Full() || x == hole
  }

  /** pos says where each indexed reference sits; in particular no reference sits in two slots. */
  ghost predicate Located(s: seq<Entry>, pos: map<OrderRef, nat>) {
    && (forall r :: r in pos ==> pos[r] < |s| && s[pos[r]].Full() && s[pos[r]].ref == r)
    && (forall i :: 0 <= i < |s| && s[i].Full() ==> s[i].ref in pos && pos[s[i].ref] == i)
  }

  /** The table read as a finite map. */
  ghost function Contents(s: seq<Entry>, pos: map<OrderRef, nat>): map<OrderRef, Handle>
    requires Located(s, pos)
  {
    map r | r in pos :: s[pos[r]].handle
  }

  function Empty(ref: OrderRef): Entry {
    Entry(ref, NULL)
  }

  // Finding

  /** Probing from home has passed d slots, all full and none of them holding ref. */
  ghost predicate Passed(s: seq<Entry>, home: nat, d: nat, ref: OrderRef)
    requires home < |s|
  {
    forall x :: 0 <= x < |s| && Dist(home, x, |s|) < d ==> s[x].Full() && s[x].ref != ref
  }

  lemma StartProbe(s: seq<Entry>, home: nat, ref: OrderRef)
    requires home < |s|
    ensures Dist(home, home, |s|) == 0 && Passed(s, home, 0, ref)
  {
  }

  lemma Here(s: seq<Entry>, pos: map<OrderRef, nat>, i: nat)
    requires i < |s| && Located(s, pos) && s[i].Full()
    ensures s[i].ref in pos && pos[s[i].ref] == i && Contents(s, pos)[s[i].ref] == s[i].handle
  {
  }

  lemma PassOne(s: seq<Entry>, home: nat, d: nat, i: nat, ref: OrderRef)
    requires home < |s| && i < |s| && d < |s| && Dist(home, i, |s|) == d
    requires Passed(s, home, d, ref) && s[i].Full() && s[i].ref != ref
    ensures Passed(s, home, d + 1, ref)
    ensures d + 1 < |s| ==> Dist(home, Step(i, |s|), |s|) == d + 1
  {
    forall x | 0 <= x < |s| && Dist(home, x, |s|) < d + 1
      ensures s[x].Full() && s[x].ref != ref
    {
      if Dist(home, x, |s|) == d { assert x == i; }
    }
  }

  lemma PassAll(s: seq<Entry>, home: nat, ref: OrderRef, e: nat)
    requires home < |s| && e < |s| && Passed(s, home, |s|, ref)
    ensures s[e].Full()
  {
    assert Dist(home, e, |s|) < |s|;
  }

  /** An indexed reference is met before any empty slot; so the first empty slot proves a reference absent. */
  lemma ProbeHit(s: seq<Entry>, hash: OrderRef -> nat, pos: map<OrderRef, nat>, ref: OrderRef, i: nat)
    requires |s| > 0 && i < |s| && ref in pos
    requires Probes(s, hash, -1) && Located(s, pos)
    requires Passed(s, Home(hash, ref, |s|), Dist(Home(hash, ref, |s|), i, |s|), ref)
    ensures s[i].Full()
  {
    hide Home;
    var home, m := Home(hash, ref, |s|), pos[ref];
    assert s[m].ref == ref;
    assert Dist(home, i, |s|) <= Dist(home, m, |s|);
    if m != i {
      assert OnPath(home, i, m);
    }
  }

  // Inserting

  lemma InsertProbes(s: seq<Entry>, hash: OrderRef -> nat, i: nat, e: Entry)
    requires i < |s| && Probes(s, hash, -1) && e.Full()
    requires Passed(s, Home(hash, e.ref, |s|), Dist(Home(hash, e.ref, |s|), i, |s|), e.ref)
    ensures Probes(s[i := e], hash, -1)
  {
    hide Home;
    var s' := s[i := e];
    var home := Home(hash, e.ref, |s|);
    forall m, x | 0 <= m < |s| && 0 <= x < |s| && s'[m].Full() && OnPath(Home(hash, s'[m].ref, |s|), x, m)
      ensures s'[x].Full()
    {
      if m == i {
        assert Dist(home, x, |s|) < Dist(home, i, |s|);
      } else {
        assert s[m].Full();
      }
    }
  }

  lemma InsertLocated(s: seq<Entry>, pos: map<OrderRef, nat>, i: nat, e: Entry)
    requires i < |s| && !s[i].Full() && e.Full() && Located(s, pos) && e.ref !in pos
    ensures Located(s[i := e], pos[e.ref := i])
    ensures Contents(s[i := e], pos[e.ref := i]) == Contents(s, pos)[e.ref := e.handle]
    ensures |pos[e.ref := i]| == |pos| + 1
  {
  }

  // Erasing

  lemma RemoveLocated(s: seq<Entry>, pos: map<OrderRef, nat>, i: nat)
    requires i < |s| && s[i].Full() && Located(s, pos)
    ensures Located(s[i := Empty(s[i].ref)], pos - {s[i].ref})
    ensures Contents(s[i := Empty(s[i].ref)], pos - {s[i].ref}) == Contents(s, pos) - {s[i].ref}
  {
  }

  lemma OpenHole(s: seq<Entry>, hash: OrderRef -> nat, i: nat)
    requires i < |s| && Probes(s, hash, -1)
    ensures Probes(s[i := Empty(s[i].ref)], hash, i)
  {
    hide Home, OnPath;
  }

  /** Entries strictly after the hole i, up to and including slot j, were reached without crossing the hole. */
  ghost predicate Scanned(s: seq<Entry>, hash: OrderRef -> nat, i: nat, j: nat)
    requires i < |s| && j < |s|
  {
    forall m :: 0 <= m < |s| && m != i && Dist(i, m, |s|) <= Dist(i, j, |s|) && s[m].Full() ==>
      !OnPath(Home(hash, s[m].ref, |s|), i, m)
  }

  /** The cyclic-interval test: does home k lie in (i, j]? If so the entry at j stays where it is. */
  predicate Stays(i: nat, k: nat, j: nat) {
    if i <= j then i < k <= j else i < k || k <= j
  }

  lemma StaysIffNotCrossing(i: nat, k: nat, j: nat)
    requires i != j
    ensures Stays(i, k, j) <==> !OnPath(k, i, j)
  {
  }

  lemma NothingScanned(s: seq<Entry>, hash: OrderRef -> nat, i: nat)
    requires i < |s|
    ensures Scanned(s, hash, i, i)
  {
  }

  lemma ScanOne(s: seq<Entry>, hash: OrderRef -> nat, i: nat, j: nat)
    requires i < |s| && j < |s| && Scanned(s, hash, i, j)
    requires var j' := Step(j, |s|); j' != i && s[j'].Full() && !OnPath(Home(hash, s[j'].ref, |s|), i, j')
    ensures Scanned(s, hash, i, Step(j, |s|))
  {
    hide Home, OnPath;
    var j' := Step(j, |s|);
    forall m | 0 <= m < |s| && m != i && Dist(i, m, |s|) <= Dist(i, j', |s|) && s[m].Full()
      ensures !OnPath(Home(hash, s[m].ref, |s|), i, m)
    {
      if m != j' { assert Dist(i, m, |s|) <= Dist(i, j, |s|); }
    }
  }

  lemma BeyondScan(s: seq<Entry>, hash: OrderRef -> nat, i: nat, j: nat, m: nat)
    requires i < |s| && j < |s| && m < |s| && !s[i].Full() && Probes(s, hash, i) && Scanned(s, hash, i, j)
    requires !s[Step(j, |s|)].Full() && s[m].Full()
    ensures !OnPath(Home(hash, s[m].ref, |s|), i, m)
  {
    hide Home;
    var k, j' := Home(hash, s[m].ref, |s|), Step(j, |s|);
    if Dist(i, m, |s|) > Dist(i, j, |s|) {
      assert m != j';
      assert OnPath(k, i, m) ==> OnPath(k, j', m);
    }
  }

  /** When the scan meets an empty slot, nothing beyond it can be crossing the hole either. */
  lemma CloseHole(s: seq<Entry>, hash: OrderRef -> nat, i: nat, j: nat)
    requires i < |s| && j < |s| && !s[i].Full() && Probes(s, hash, i) && Scanned(s, hash, i, j)
    requires !s[Step(j, |s|)].Full()
    ensures Probes(s, hash, -1)
  {
    hide Home, OnPath, Step, Dist, Scanned;
    forall m, x | 0 <= m < |s| && 0 <= x < |s| && s[m].Full() && OnPath(Home(hash, s[m].ref, |s|), x, m)
      ensures s[x].Full()
    {
      BeyondScan(s, hash, i, j, m);
    }
  }

  /** The entry at j, whose probe crosses the hole, moves into the hole; its old slot becomes the hole. */
  function Shift(s: seq<Entry>, i: nat, j: nat): seq<Entry>
    requires i < |s| && j < |s|
  {
    s[i := s[j]][j := Empty(s[j].ref)]
  }

  lemma ShiftProbes(s: seq<Entry>, hash: OrderRef -> nat, i: nat, j: nat)
    requires i < |s| && j < |s| && i != j && !s[i].Full() && s[j].Full() && Probes(s, hash, i)
    requires OnPath(Home(hash, s[j].ref, |s|), i, j)
    ensures Probes(Shift(s, i, j), hash, j)
  {
    hide Home;
    var s' := Shift(s, i, j);
    var k := Home(hash, s[j].ref, |s|);
    forall m, x | 0 <= m < |s| && 0 <= x < |s| && s'[m].Full() && OnPath(Home(hash, s'[m].ref, |s|), x, m)
      ensures s'[x].Full() || x == j
    {
      if m == i {
        assert OnPath(k, x, j) && x != i;
        assert s[x].Full();
      } else {
        assert s[m].Full();
        assert s[x].Full() || x == i;
      }
    }
  }

  lemma ShiftLocated(s: seq<Entry>, pos: map<OrderRef, nat>, i: nat, j: nat)
    requires i < |s| && j < |s| && i != j && !s[i].Full() && s[j].Full() && Located(s, pos)
    ensures Located(Shift(s, i, j), pos[s[j].ref := i])
    ensures Contents(Shift(s, i, j), pos[s[j].ref := i]) == Contents(s, pos)
    ensures |pos[s[j].ref := i]| == |pos|
  {
    assert pos[s[j].ref] == j;
    SizeMoved(pos, s[j].ref, i);
  }

  lemma SizeWithout(pos: map<OrderRef, nat>, ref: OrderRef)
    requires ref in pos
    ensures |pos - {ref}| == |pos| - 1
  {
    assert pos == (pos - {ref})[ref := pos[ref]];
  }

  lemma SizeMoved(pos: map<OrderRef, nat>, ref: OrderRef, i: nat)
    requires ref in pos
    ensures |pos[ref := i]| == |pos|
  {
    assert pos[ref := i].Keys == pos.Keys;
    assert |pos.Keys| == |pos| && |pos[ref := i].Keys| == |pos[ref := i]|;
  }

  lemma DistStep(j: nat, e: nat, n: nat)
    requires j < n && e < n && j != e
    ensures Step(j, n) < n && Dist(Step(j, n), e, n) == Dist(j, e, n) - 1
  {
  }

  // A table that is not full has an empty slot

  /** The references in the first n slots of a full stretch, each of which the position map knows. */
  ghost function RefsOfPrefix(s: seq<Entry>, pos: map<OrderRef, nat>, n: nat): (refs: set<OrderRef>)
    requires n <= |s| && Located(s, pos) && forall i :: 0 <= i < n ==> s[i].Full()
    ensures |refs| == n && refs <= pos.Keys
    ensures forall r :: r in refs ==> pos[r] < n
  {
    if n == 0 then {} else
      assert pos[s[n - 1].ref] == n - 1;
      RefsOfPrefix(s, pos, n - 1) + {s[n - 1].ref}
  }

  lemma {:induction false} SubsetSize<T>(a: set<T>, b: set<T>)
    requires a <= b
    ensures |a| <= |b|
  {
    if a != {} {
      var x :| x in a;
      SubsetSize(a - {x}, b - {x});
    }
  }

  lemma EmptySlotExists(s: seq<Entry>, pos: map<OrderRef, nat>) returns (e: nat)
    requires Located(s, pos) && |pos| < |s|
    ensures e < |s| && !s[e].Full()
  {
    assert |pos.Keys| == |pos|;
    if forall i :: 0 <= i < |s| ==> s[i].Full() {
      SubsetSize(RefsOfPrefix(s, pos, |s|), pos.Keys);
      assert false;
    }
    e :| e < |s| && !s[e].Full();
  }

  function BitCeil(n: nat, from: nat): nat
    requires from > 0
    ensures BitCeil(n, from) >= n && BitCeil(n, from) >= from
    ensures from < n || from % 2 == 0 ==> BitCeil(n, from) % 2 == 0
    decreases n - from
  {
    if n <= from then from else BitCeil(n, 2 * from)
  }

  /** How many slots a hint asks for, doubled in 32 bits. */
  function Wanted(capacityHint: u32): u32 {
    if capacityHint < 8 then 16 else capacityHint * 2 % 0x1_0000_0000
  }

  /** Slots for so many orders at half load: the next power of two. */
  function IndexSize(capacityHint: u32): (n: nat)
    ensures n >= Wanted(capacityHint)
    ensures Wanted(capacityHint) > 0 ==> n % 2 == 0
  {
    BitCeil(Wanted(capacityHint), 1)
  }

  /** An entry's ideal slot is the remainder of its hash. */
  lemma HomeIsRemainder(hash: OrderRef -> nat, ref: OrderRef, n: nat, q: nat, r: nat)
    requires r < n && hash(ref) == n * q + r
    ensures Home(hash, ref, n) == r
  {
    var d := hash(ref) / n - q;
    assert n * d == r - hash(ref) % n;
    assert d >= 1 ==> n * d >= n;
    assert d <= -1 ==> n * d + n <= 0;
  }

  ghost predicate PowerOfTwo(n: nat) {
    n == 1 || (n > 1 && n % 2 == 0 && PowerOfTwo(n / 2))
  }

  /** The size is the least power of two that is enough, so that masking by one less is taking the remainder. */
  lemma IndexSizeExact(capacityHint: u32)
    ensures var n := IndexSize(capacityHint);
            && PowerOfTwo(n) && n >= Wanted(capacityHint) && (n == 1 || n / 2 < Wanted(capacityHint))
    ensures capacityHint < 8 ==> IndexSize(capacityHint) == 16
  {
    BitCeilExact(Wanted(capacityHint), 1);
  }

  lemma {:induction false} BitCeilExact(n: nat, from: nat)
    requires from > 0 && PowerOfTwo(from)
    ensures PowerOfTwo(BitCeil(n, from)) && (BitCeil(n, from) == from || BitCeil(n, from) / 2 < n)
    decreases n - from
  {
    if n > from {
      assert 2 * from / 2 == from;
      BitCeilExact(n, 2 * from);
    }
  }

  /** Rounding up is defined, and gives more than the one slot in which no probe could end. */
  predicate Sizeable(capacityHint: u32) {
    0 < Wanted(capacityHint) <= 0x8000_0000
  }

  /** The table holds what it was asked for exactly when the doubling does not wrap. */
  lemma HintHonoured(capacityHint: u32)
    requires Sizeable(capacityHint)
    ensures IndexSize(capacityHint) >= 2 * capacityHint <==> capacityHint <= 0x4000_0000
  {
    var want := Wanted(capacityHint);
    if capacityHint >= 0x8000_0000 {
      assert want == 2 * capacityHint - 0x1_0000_0000;
      BitCeilLow(want, 1);
    }
  }

  /** Rounding up less than doubles. */
  lemma {:induction false} BitCeilLow(n: nat, from: nat)
    requires from > 0
    ensures BitCeil(n, from) == from || BitCeil(n, from) < 2 * n
    decreases n - from
  {
    if n > from {
      BitCeilLow(n, 2 * from);
    }
  }

  /** A hint of 2 to the 31 gives a table of one slot. */
  lemma HintWraps()
    ensures IndexSize(0x8000_0000) == 1
  {
  }

  class OrderIndex {
    const hash: OrderRef -> nat
    const slots: array<Entry>
    var live: nat
    ghost var pos: map<OrderRef, nat>

    ghost predicate Valid()
      reads this, slots
    {
      && slots.Length > 0 && slots.Length % 2 == 0
      && Located(slots[..], pos)
      && Probes(slots[..], hash, -1)
      && live == |pos|
      && live * 2 <= slots.Length
    }

    /** The map the table stands for. */
    ghost function Map(): map<OrderRef, Handle>
      requires Valid()
      reads this, slots
    {
      Contents(slots[..], pos)
    }

    constructor (hash: OrderRef -> nat, capacityHint: u32)
      requires Sizeable(capacityHint)
      ensures Valid() && Map() == map[] && live == 0 && fresh(slots)
      ensures slots.Length == IndexSize(capacityHint) && this.hash == hash
    {
      var want := IndexSize(capacityHint);
      this.hash := hash;
      slots := new Entry[want](_ => Entry(0, NULL));
      live := 0;
      pos := map[];
    }

    method Insert(ref: OrderRef, h: Handle)
      requires Valid() && h != NULL
      requires live * 2 < slots.Length
      requires ref !in Map()
      modifies this, slots
      ensures Valid()
      ensures Map() == old(Map())[ref := h] && live == old(live) + 1
    {
      hide Home, OnPath, Probes, Located, Passed, Dist, Step;
      ghost var home, t, d: nat, p: map<OrderRef, nat> := Home(hash, ref, slots.Length), slots[..], 0, pos;
      ghost var e := EmptySlotExists(t, p);
      var i: nat := Home(hash, ref, slots.Length);
      StartProbe(t, home, ref);
      while slots[i].Full()
        invariant i < slots.Length && d < slots.Length && Dist(home, i, slots.Length) == d
        invariant slots[..] == t && pos == p && live == old(live)
        invariant Passed(t, home, d, ref)
        decreases slots.Length - d
      {
        Here(t, p, i);
        PassOne(t, home, d, i, ref);
        if d + 1 == slots.Length { PassAll(t, home, ref, e); }
        i := Step(i, slots.Length);
        d := d + 1;
      }
      InsertProbes(t, hash, i, Entry(ref, h));
      InsertLocated(t, p, i, Entry(ref, h));
      slots[i] := Entry(ref, h);
      assert slots[..] == t[i := Entry(ref, h)];
      pos := pos[ref := i];
      live := live + 1;
    }

    method Find(ref: OrderRef) returns (h: Handle)
      requires Valid()
      ensures h == if ref in Map() then Map()[ref] else NULL
      ensures h != NULL <==> ref in Map()
    {
      var i := Locate(ref);
      h := slots[i].handle;
    }

    /** The probe loop shared by find and erase: it ends at the entry, or at the first empty slot. */
    method Locate(ref: OrderRef) returns (i: nat)
      requires Valid()
      ensures i < slots.Length
      ensures slots[i].Full() <==> ref in Map()
      ensures slots[i].Full() ==> slots[i].ref == ref && pos[ref] == i && slots[i].handle == Map()[ref]
    {
      hide Home, OnPath, Probes, Located, Passed, Dist, Step;
      ghost var home := Home(hash, ref, slots.Length);
      ghost var e := EmptySlotExists(slots[..], pos);
      ghost var d: nat := 0;
      i := Home(hash, ref, slots.Length);
      StartProbe(slots[..], home, ref);
      while slots[i].Full() && slots[i].ref != ref
        invariant i < slots.Length && d < slots.Length && Dist(home, i, slots.Length) == d
        invariant Passed(slots[..], home, d, ref)
        decreases slots.Length - d
      {
        PassOne(slots[..], home, d, i, ref);
        if d + 1 == slots.Length { PassAll(slots[..], home, ref, e); }
        i := Step(i, slots.Length);
        d := d + 1;
      }
      if slots[i].Full() {
        Here(slots[..], pos, i);
      } else if ref in pos {
        ProbeHit(slots[..], hash, pos, ref, i);
        assert false;
      }
    }

    method Erase(ref: OrderRef)
      requires Valid()
      requires ref in Map()
      modifies this, slots
      ensures Valid()
      ensures Map() == old(Map()) - {ref} && live == old(live) - 1
    {
      hide Home, OnPath, Probes, Located, Contents;
      var i := Locate(ref);
      EraseAt(i, ref);
      live := live - 1;
    }

    /** Backward-shift deletion. Entries whose probe crosses the hole are moved back into it, one after another. */
    method EraseAt(at: nat, ghost ref: OrderRef)
      requires Valid()
      requires at < slots.Length && slots[at].Full() && slots[at].ref == ref && ref in Map()
      modifies slots, this`pos
      ensures Located(slots[..], pos) && Probes(slots[..], hash, -1)
      ensures Contents(slots[..], pos) == old(Map()) - {ref} && |pos| == old(|pos|) - 1
    {
      hide Home, OnPath, Probes, Located, Scanned, Contents, Dist, Step, Stays;
      var i: nat, j: nat := at, at;
      ghost var p: map<OrderRef, nat> := pos;
      ghost var e := EmptySlotExists(slots[..], p);
      ghost var t := slots[..][i := Empty(slots[i].ref)];
      RemoveLocated(slots[..], p, i);
      OpenHole(slots[..], hash, i);
      NothingScanned(t, hash, i);
      Here(slots[..], p, i);
      SizeWithout(p, ref);
      p := p - {ref};

      while true
        invariant i == j < slots.Length == |t| && slots[..][i := Empty(slots[i].ref)] == t
        invariant Located(t, p) && Contents(t, p) == old(Map()) - {ref} && |p| == old(|pos|) - 1
        invariant Probes(t, hash, i) && Scanned(t, hash, i, j)
        invariant e < |t| && !t[e].Full() && e != i
        decreases Dist(j, e, slots.Length)
      {
        slots[i] := Empty(slots[i].ref);
        assert slots[..] == t;
        j := ScanFrom(i, e, t);
        if !slots[j].Full() {
          pos := p;
          return;
        }
        ShiftProbes(t, hash, i, j);
        ShiftLocated(t, p, i, j);
        p := p[slots[j].ref := i];
        t := Shift(t, i, j);
        slots[i] := slots[j];
        assert slots[..][j := Empty(slots[j].ref)] == t;
        i := j;
        NothingScanned(t, hash, i);
      }
    }

    /** The inner loop: the next entry that must move into the hole at i, or the empty slot that ends the scan. */
    method ScanFrom(i: nat, ghost e: nat, ghost t: seq<Entry>) returns (j: nat)
      requires i < slots.Length && e < slots.Length && e != i && slots[..] == t
      requires !t[i].Full() && !t[e].Full() && Probes(t, hash, i)
      ensures j < slots.Length && Dist(j, e, slots.Length) < Dist(i, e, slots.Length)
      ensures t[j].Full() ==> j != i && OnPath(Home(hash, t[j].ref, |t|), i, j)
      ensures !t[j].Full() ==> Probes(t, hash, -1)
    {
      hide Home, OnPath, Probes, Scanned, Dist, Step, Stays;
      j := i;
      NothingScanned(t, hash, i);
      while true
        invariant j < slots.Length && j != e && Scanned(t, hash, i, j)
        invariant Dist(j, e, slots.Length) <= Dist(i, e, slots.Length)
        decreases Dist(j, e, slots.Length)
      {
        DistStep(j, e, slots.Length);
        ghost var last := j;
        j := Step(j, slots.Length);
        if !slots[j].Full() {
          CloseHole(t, hash, i, last);
          return;
        }
        var k: nat := Home(hash, slots[j].ref, slots.Length);
        StaysIffNotCrossing(i, k, j);
        if !Stays(i, k, j) {
          return;
        }
        ScanOne(t, hash, i, last);
      }
    }
  }
}
