/** A pool of slots: what is free is chained through the slots themselves, and handles carry a generation to check. */
module Pools {
  import opened Core

  /**
   A pooled record. The link is lent to the pool while the slot is free; while the slot is live it belongs
   to the record (an order uses it as its forward queue link). The low bit of gen is the live flag.
   */
  datatype Slot<T> = Slot(data: T, link: Handle, gen: u8) {
    predicate Live() {
      gen % 2 == 1
    }
  }

  /** The generation counter steps by one on every allocate and on every free, and wraps at eight bits. */
  function NextGen(g: u8): u8 {
    (g + 1) % 0x100
  }

  /** The check every dereference makes: index in bounds, generations equal. */
  predicate Accepts<T>(slots: seq<Slot<T>>, h: Handle) {
    h.index < |slots| && slots[h.index].gen == h.gen
  }

  /** An accepted handle to a live slot. */
  predicate LiveIn<T>(slots: seq<Slot<T>>, h: Handle) {
    Accepts(slots, h) && slots[h.index].Live()
  }

  /** Where a slot is: in use, at a depth of the free stack, or held with a quarantine ticket. */
  datatype Place = InUse | Stacked(depth: nat) | Held(ticket: nat)

  /** The handle the free list stores to name the slot below depth k of the free stack; NULL at the bottom. */
  ghost function BelowTop<T>(slots: seq<Slot<T>>, stack: seq<nat>, k: nat): Handle
    requires k <= |stack|
    requires k > 0 ==> stack[k - 1] < |slots|
  {
    if k == 0 then NULL else Handle(stack[k - 1], slots[stack[k - 1]].gen)
  }

  /** head starts a singly linked list through exactly the slots of the stack, last pushed first. */
  ghost predicate IsFreeList<T>(slots: seq<Slot<T>>, head: Handle, stack: seq<nat>) {
    && (forall k :: 0 <= k < |stack| ==> stack[k] < |slots|)
    && head == BelowTop(slots, stack, |stack|)
    && (forall k {:trigger slots[stack[k]].link} :: 0 <= k < |stack| ==>
          slots[stack[k]].link == BelowTop(slots, stack, k))
  }

  /** Every slot is live, or on the free list, or quarantined, and is so exactly once. */
  ghost predicate IsPartition<T>(slots: seq<Slot<T>>, stack: seq<nat>, held: seq<nat>, served: nat, place: seq<Place>) {
    && |place| == |slots|
    && (forall k :: 0 <= k < |stack| ==> stack[k] < |slots| && place[stack[k]] == Stacked(k))
    && (forall k :: 0 <= k < |held| ==> held[k] < |slots| && place[held[k]] == Held(served + k))
    && (forall i {:trigger slots[i]} {:trigger place[i]} :: 0 <= i < |slots| ==>
          match place[i]
          case InUse => slots[i].Live()
          case Stacked(k) => !slots[i].Live() && k < |stack| && stack[k] == i
          case Held(t) => !slots[i].Live() && served <= t < served + |held| && held[t - served] == i)
  }

  ghost function InUseCount(place: seq<Place>): nat {
    if place == [] then 0 else InUseCount(place[..|place| - 1]) + if place[|place| - 1].InUse? then 1 else 0
  }

  lemma {:induction false} InUseStep(place: seq<Place>, i: nat, p: Place)
    requires i < |place|
    ensures place[i].InUse? ==> InUseCount(place) > 0
    ensures InUseCount(place[i := p]) + (if place[i].InUse? then 1 else 0) ==
            InUseCount(place) + if p.InUse? then 1 else 0
  {
    var n := |place| - 1;
    if i < n {
      InUseStep(place[..n], i, p);
      assert place[i := p][..n] == place[..n][i := p];
    } else {
      assert place[i := p][..n] == place[..n];
    }
  }

  lemma {:induction false} NoneInUse(place: seq<Place>)
    requires forall i :: 0 <= i < |place| ==> !place[i].InUse?
    ensures InUseCount(place) == 0
  {
    if place != [] {
      NoneInUse(place[..|place| - 1]);
    }
  }

  /**
   allocs[i] counts the allocations slot i has ever had. Two generation steps each, less the one still owed by a
   live slot, and less 256 for every time the eight-bit counter has wrapped.
   */
  ghost predicate CountsAllocations<T>(slots: seq<Slot<T>>, allocs: seq<nat>, wraps: seq<nat>) {
    && |allocs| == |wraps| == |slots|
    && forall i :: 0 <= i < |slots| ==>
        slots[i].gen + 0x100 * wraps[i] + (if slots[i].Live() then 1 else 0) == 2 * allocs[i]
  }

  // What each step needs about the free list, the partition and the counts, one predicate at a time.

  lemma LiveNotListed<T>(slots: seq<Slot<T>>, stack: seq<nat>, held: seq<nat>, served: nat, place: seq<Place>, i: nat)
    requires IsPartition(slots, stack, held, served, place) && i < |slots| && slots[i].Live()
    ensures |place| == |slots| && place[i] == InUse
    ensures forall k :: 0 <= k < |stack| ==> stack[k] < |slots|
    ensures forall k :: 0 <= k < |stack| ==> stack[k] != i
    ensures forall k :: 0 <= k < |held| ==> held[k] != i
  {
  }

  /** Live, free-listed and quarantined slots partition the pool: each slot is exactly one of the three, and listed
    once. */
  lemma ExactlyOnce<T>(slots: seq<Slot<T>>, stack: seq<nat>, held: seq<nat>, served: nat, place: seq<Place>)
    requires IsPartition(slots, stack, held, served, place)
    ensures forall i :: 0 <= i < |slots| ==> (slots[i].Live() <==> i !in stack && i !in held)
    ensures forall i :: i in stack || i in held ==> i < |slots| && !(i in stack && i in held)
    ensures forall j, k :: 0 <= j < k < |stack| ==> stack[j] != stack[k]
    ensures forall j, k :: 0 <= j < k < |held| ==> held[j] != held[k]
  {
    forall i | 0 <= i < |slots| ensures slots[i].Live() <==> i !in stack && i !in held {
      match place[i]
      case InUse =>
      case Stacked(k) => assert stack[k] == i;
      case Held(t) => assert held[t - served] == i;
    }
  }

  lemma KeepFreeList<T>(slots: seq<Slot<T>>, slots': seq<Slot<T>>, head: Handle, stack: seq<nat>)
    requires IsFreeList(slots, head, stack) && |slots'| == |slots|
    requires forall k :: 0 <= k < |stack| ==> slots'[stack[k]] == slots[stack[k]]
    ensures IsFreeList(slots', head, stack)
  {
  }

  lemma PushFreeList<T>(slots: seq<Slot<T>>, head: Handle, stack: seq<nat>, i: nat)
    requires IsFreeList(slots, head, stack) && i < |slots|
    requires forall k :: 0 <= k < |stack| ==> stack[k] != i
    ensures IsFreeList(slots[i := slots[i].(link := head)], Handle(i, slots[i].gen), stack + [i])
  {
    var slots' := slots[i := slots[i].(link := head)];
    KeepFreeList(slots, slots', head, stack);
    assert slots'[i].link == BelowTop(slots', stack + [i], |stack|);
  }

  lemma PopFreeList<T>(slots: seq<Slot<T>>, head: Handle, stack: seq<nat>)
    requires IsFreeList(slots, head, stack) && stack != []
    ensures head.index == stack[|stack| - 1] < |slots|
    ensures IsFreeList(slots, slots[head.index].link, stack[..|stack| - 1])
  {
  }

  lemma KeepPartition<T>(slots: seq<Slot<T>>, slots': seq<Slot<T>>, stack: seq<nat>, held: seq<nat>, served: nat,
      place: seq<Place>)
    requires IsPartition(slots, stack, held, served, place) && |slots'| == |slots|
    requires forall i :: 0 <= i < |slots| ==> slots'[i].Live() == slots[i].Live()
    ensures IsPartition(slots', stack, held, served, place)
  {
  }

  lemma KeepCounts<T>(slots: seq<Slot<T>>, slots': seq<Slot<T>>, allocs: seq<nat>, wraps: seq<nat>)
    requires CountsAllocations(slots, allocs, wraps) && |slots'| == |slots|
    requires forall i :: 0 <= i < |slots| ==> slots'[i].gen == slots[i].gen
    ensures CountsAllocations(slots', allocs, wraps)
  {
  }

  /** Slot i is taken from, or put on, the live side: one generation step, wrapping at 0xFF. */
  lemma CountStep<T>(slots: seq<Slot<T>>, allocs: seq<nat>, wraps: seq<nat>, i: nat)
    requires CountsAllocations(slots, allocs, wraps) && i < |slots|
    ensures var slots' := slots[i := slots[i].(gen := NextGen(slots[i].gen))];
            slots'[i].Live() == !slots[i].Live() &&
            if slots[i].Live()
            then CountsAllocations(slots', allocs, if slots[i].gen == 0xFF then wraps[i := wraps[i] + 1] else wraps)
            else CountsAllocations(slots', allocs[i := allocs[i] + 1], wraps)
  {
    var g := slots[i].gen;
    assert g < 0xFF ==> NextGen(g) == g + 1;
  }

  lemma NotInUse<T>(slots: seq<Slot<T>>, stack: seq<nat>, held: seq<nat>, served: nat, place: seq<Place>)
    requires IsPartition(slots, stack, held, served, place) && stack != []
    ensures !slots[stack[|stack| - 1]].Live()
  {
    assert place[stack[|stack| - 1]] == Stacked(|stack| - 1);
  }

  lemma PopPartition<T>(slots: seq<Slot<T>>, stack: seq<nat>, held: seq<nat>, served: nat, place: seq<Place>,
    slot: Slot<T>)
    requires IsPartition(slots, stack, held, served, place) && stack != [] && slot.Live()
    ensures var i := stack[|stack| - 1];
            i < |slots| == |place| && !slots[i].Live() && place[i] != InUse &&
            (forall k :: 0 <= k < |stack| - 1 ==> stack[k] < |slots| && stack[k] != i) &&
            IsPartition(slots[i := slot], stack[..|stack| - 1], held, served, place[i := InUse])
  {
    var i := stack[|stack| - 1];
    assert place[i] == Stacked(|stack| - 1);
  }

  lemma HoldPartition<T>(slots: seq<Slot<T>>, stack: seq<nat>, held: seq<nat>, served: nat, place: seq<Place>, i: nat,
    slot: Slot<T>)
    requires IsPartition(slots, stack, held, served, place) && i < |slots| && slots[i].Live() && !slot.Live()
    ensures IsPartition(slots[i := slot], stack, held + [i], served, place[i := Held(served + |held|)])
  {
    LiveNotListed(slots, stack, held, served, place, i);
  }

  lemma StackPartition<T>(slots: seq<Slot<T>>, stack: seq<nat>, held: seq<nat>, served: nat, place: seq<Place>, i: nat,
    slot: Slot<T>)
    requires IsPartition(slots, stack, held, served, place) && i < |slots| && slots[i].Live() && !slot.Live()
    ensures IsPartition(slots[i := slot], stack + [i], held, served, place[i := Stacked(|stack|)])
  {
    LiveNotListed(slots, stack, held, served, place, i);
  }

  lemma ServePartition<T>(slots: seq<Slot<T>>, stack: seq<nat>, held: seq<nat>, served: nat, place: seq<Place>)
    requires IsPartition(slots, stack, held, served, place) && held != []
    ensures held[0] < |slots| == |place| && place[held[0]] != InUse && !slots[held[0]].Live()
    ensures forall k :: 0 <= k < |stack| ==> stack[k] != held[0]
    ensures IsPartition(slots, stack + [held[0]], held[1..], served + 1, place[held[0] := Stacked(|stack|)])
  {
    assert place[held[0]] == Held(served);
  }

  function FreshSlots<T>(capacity: nat, blank: T): (slots: seq<Slot<T>>)
    requires 0 < capacity <= MAX_CAPACITY
    ensures |slots| == capacity
    ensures forall i :: 0 <= i < capacity ==>
              slots[i] == Slot(blank, if i + 1 < capacity then Handle(i + 1, 0) else NULL, 0)
  {
    seq(capacity, i requires 0 <= i < capacity => Slot(blank, if i + 1 < capacity then Handle(i + 1, 0) else NULL, 0))
  }

  /** Slot 0 on top, so that the first allocations walk forward through memory. */
  ghost function FreshStack(capacity: nat): (stack: seq<nat>)
    ensures |stack| == capacity
    ensures forall k :: 0 <= k < capacity ==> stack[k] == capacity - 1 - k
  {
    seq(capacity, k requires 0 <= k < capacity => capacity - 1 - k)
  }

  ghost function FreshPlace(capacity: nat): (place: seq<Place>)
    ensures |place| == capacity
    ensures forall i :: 0 <= i < capacity ==> place[i] == Stacked(capacity - 1 - i)
  {
    seq(capacity, i requires 0 <= i < capacity => Stacked(capacity - 1 - i))
  }

  ghost function Zeros(n: nat): (s: seq<nat>)
    ensures |s| == n
    ensures forall i :: 0 <= i < n ==> s[i] == 0
  {
    seq(n, i => 0)
  }

  lemma FreshFreeList<T>(capacity: nat, blank: T)
    requires 0 < capacity <= MAX_CAPACITY
    ensures IsFreeList(FreshSlots(capacity, blank), Handle(0, 0), FreshStack(capacity))
  {
    var slots, stack := FreshSlots(capacity, blank), FreshStack(capacity);
    hide FreshSlots, FreshStack;
    forall k {:trigger slots[stack[k]].link} | 0 <= k < |stack| ensures slots[stack[k]].link == BelowTop(slots, stack,
        k) {
    }
  }

  lemma FreshPartition<T>(capacity: nat, blank: T)
    requires 0 < capacity <= MAX_CAPACITY
    ensures IsPartition(FreshSlots(capacity, blank), FreshStack(capacity), [], 0, FreshPlace(capacity))
  {
    hide FreshSlots, FreshStack, FreshPlace;
  }

  lemma FreshCounts<T>(capacity: nat, blank: T)
    requires 0 < capacity <= MAX_CAPACITY
    ensures CountsAllocations(FreshSlots(capacity, blank), Zeros(capacity), Zeros(capacity))
  {
    hide FreshSlots, Zeros;
  }

  /** What is held back is what was freed last, as many as the limit allows, in the order it was freed. */
  ghost predicate Latest(freed: seq<nat>, held: seq<nat>, limit: nat) {
    && |held| == (if |freed| < limit then |freed| else limit)
    && held == freed[|freed| - |held|..]
  }

  /** What a free puts on the free stack: the slot freed `limit` frees before it, if there are that many. */
  ghost function Recycled(freed: seq<nat>, limit: nat): seq<nat> {
    if |freed| > limit then [freed[|freed| - 1 - limit]] else []
  }

  /** First in, first out: one more slot goes to the back, and what is over the limit leaves at the front. */
  lemma HeldIsLatest(held: seq<nat>, limit: nat, freed: seq<nat>, index: nat)
    requires Latest(freed, held, limit)
    ensures var queue := held + [index];
            Latest(freed + [index], if |queue| <= limit then queue else queue[1..], limit)
    ensures Recycled(freed + [index], limit) == if |held| + 1 > limit then [(held + [index])[0]] else []
    ensures |held| <= limit
  {
  }

  /**
   What a pool has to give: slots on its free list, and slots held in a quarantine of a given limit. A freed slot goes
   to the quarantine, which passes on what is over its limit.
   */
  datatype Spare = Spare(free: nat, held: nat, limit: nat) {
    function Taken(): Spare {
      if free > 0 then this.(free := free - 1) else this
    }

    /** After k more slots have been freed. */
    function After(k: nat): Spare {
      if k == 0 || held + k <= limit then this.(held := held + k)
      else Spare(free + held + k - limit, limit, limit)
    }
  }

  /** The generation that a slot's n-th allocation issues, folded into eight bits. */
  function IssuedGen(n: nat): u8
    requires n > 0
  {
    (2 * n - 1) % 0x100
  }

  lemma IssuedHere<T>(slots: seq<Slot<T>>, allocs: seq<nat>, wraps: seq<nat>, i: nat)
    requires CountsAllocations(slots, allocs, wraps) && i < |slots| && slots[i].Live()
    ensures allocs[i] > 0 && slots[i].gen == IssuedGen(allocs[i])
  {
  }

  class Pool<T(0)> {
    var slots: seq<Slot<T>>
    var quarantine: seq<nat>
    const quarantineLimit: nat
    const capacity: nat
    var freeHead: Handle
    var live: nat
    var highWater: nat

    ghost var stack: seq<nat>

    /** Every index ever freed, in order. */
    ghost var freed: seq<nat>
    ghost var place: seq<Place>
    ghost var served: nat
    ghost var allocs: seq<nat>
    ghost var wraps: seq<nat>

    ghost predicate Valid()
      reads this
    {
      && 0 < |slots| == capacity <= MAX_CAPACITY
      && |place| == |allocs| == |wraps| == |slots|
      && IsFreeList(slots, freeHead, stack)
      && IsPartition(slots, stack, quarantine, served, place)
      && CountsAllocations(slots, allocs, wraps)
      && |quarantine| <= quarantineLimit && Latest(freed, quarantine, quarantineLimit)
      && live == InUseCount(place)
      && live + |stack| + |quarantine| == |slots|
      && live <= highWater <= |slots|
    }

    constructor (capacity: nat, quarantineLimit: nat, blank: T)
      requires 0 < capacity <= MAX_CAPACITY
      ensures Valid()
      ensures |slots| == capacity == |stack| && live == 0 && quarantine == freed == []
      ensures this.quarantineLimit == quarantineLimit && this.capacity == capacity
      ensures forall i :: 0 <= i < capacity ==> !slots[i].Live() && allocs[i] == 0
    {
      hide IsFreeList, IsPartition, CountsAllocations, InUseCount, FreshSlots, FreshStack, FreshPlace, Zeros;
      this.quarantineLimit := quarantineLimit;
      this.capacity := capacity;
      slots := FreshSlots(capacity, blank);
      quarantine := [];
      freed := [];
      freeHead := Handle(0, 0);
      live := 0;
      highWater := 0;
      stack := FreshStack(capacity);
      place := FreshPlace(capacity);
      served := 0;
      allocs := Zeros(capacity);
      wraps := Zeros(capacity);
      new;
      FreshFreeList(capacity, blank);
      FreshPartition(capacity, blank);
      FreshCounts(capacity, blank);
      NoneInUse(place);
    }

    method Allocate() returns (h: Handle)
      requires Valid()
      requires stack != []
      modifies this
      ensures Valid()
      ensures h.index < |slots| == |old(slots)| && !old(slots)[h.index].Live()
      ensures LiveIn(slots, h) && h != NULL
      ensures h == Handle(old(stack)[|old(stack)| - 1], NextGen(old(slots)[h.index].gen))
      ensures slots == old(slots)[h.index := old(slots)[h.index].(gen := h.gen)]
      ensures stack == old(stack)[..|old(stack)| - 1] && quarantine == old(quarantine) && live == old(live) + 1
      ensures freed == old(freed)
      ensures allocs == old(allocs)[h.index := old(allocs)[h.index] + 1]
      ensures h.gen == IssuedGen(allocs[h.index]) && Room() == old(Room()).Taken()
      ensures highWater == if live > old(highWater) then live else old(highWater)
    {
      hide IsFreeList, IsPartition, CountsAllocations, InUseCount, Latest;
      h := Pop();
      allocs := allocs[h.index := allocs[h.index] + 1];
      InUseStep(place, h.index, InUse);
      place := place[h.index := InUse];
      stack := stack[..|stack| - 1];
      IssuedHere(slots, allocs, wraps, h.index);
    }

    /** Takes the head off the free list and turns it live. */
    method Pop() returns (h: Handle)
      requires Valid() && stack != []
      modifies this`slots, this`freeHead, this`live, this`highWater
      ensures h.index < |old(slots)| == |slots| == |allocs| == |place| && place[h.index] != InUse
      ensures h == Handle(stack[|stack| - 1], NextGen(old(slots)[h.index].gen))
      ensures !old(slots)[h.index].Live() && slots == old(slots)[h.index := old(slots)[h.index].(gen := h.gen)]
      ensures LiveIn(slots, h) && h != NULL
      ensures live == old(live) + 1 && highWater == if live > old(highWater) then live else old(highWater)
      ensures IsFreeList(slots, freeHead, stack[..|stack| - 1])
      ensures IsPartition(slots, stack[..|stack| - 1], quarantine, served, place[h.index := InUse])
      ensures CountsAllocations(slots, allocs[h.index := allocs[h.index] + 1], wraps)
    {
      hide IsFreeList, IsPartition, CountsAllocations, InUseCount, Latest;
      PopFreeList(slots, freeHead, stack);
      var index := freeHead.index;
      var slot := slots[index];
      NotInUse(slots, stack, quarantine, served, place);
      CountStep(slots, allocs, wraps, index);
      PopPartition(slots, stack, quarantine, served, place, slot.(gen := NextGen(slot.gen)));
      freeHead := slot.link;
      slots := slots[index := slot.(gen := NextGen(slot.gen))];
      live := live + 1;
      highWater := if live > highWater then live else highWater;
      h := Handle(index, slots[index].gen);
      KeepFreeList(old(slots), slots, freeHead, stack[..|stack| - 1]);
    }

    /** Pushes a slot that is not on the free list onto it. */
    method Release(index: nat)
      requires index < |slots|
      requires IsFreeList(slots, freeHead, stack)
      requires forall k :: 0 <= k < |stack| ==> stack[k] != index
      modifies this`slots, this`freeHead, this`stack
      ensures IsFreeList(slots, freeHead, stack)
      ensures stack == old(stack) + [index]
      ensures slots == old(slots)[index := old(slots)[index].(link := old(freeHead))]
    {
      hide IsFreeList;
      PushFreeList(slots, freeHead, stack, index);
      slots := slots[index := slots[index].(link := freeHead)];
      freeHead := Handle(index, slots[index].gen);
      stack := stack + [index];
    }

    method Free(h: Handle)
      requires Valid() && LiveIn(slots, h)
      modifies this
      ensures Valid()
      ensures |slots| == |old(slots)| && !slots[h.index].Live()
      ensures forall i :: 0 <= i < |slots| && i != h.index && old(slots)[i].Live() ==> slots[i] == old(slots)[i]
      ensures slots[h.index].gen == NextGen(old(slots)[h.index].gen)
      ensures freed == old(freed) + [h.index]
      ensures stack == old(stack) + Recycled(freed, quarantineLimit)
      ensures live == old(live) - 1 && allocs == old(allocs) && highWater == old(highWater)
      ensures Room() == old(Room()).After(1)
    {
      hide IsFreeList, IsPartition, CountsAllocations, InUseCount, Latest, Recycled;
      ghost var was := slots;
      Retire(h);
      Park(was, h.index);
      freed := freed + [h.index];
    }

    /** The generation step of Free: the slot is no longer live and not yet listed anywhere. */
    method Retire(h: Handle)
      requires Valid() && LiveIn(slots, h)
      modifies this`slots, this`live, this`wraps
      ensures |slots| == |wraps| == |old(slots)| && !slots[h.index].Live()
      ensures slots == old(slots)[h.index := old(slots)[h.index].(gen := NextGen(old(slots)[h.index].gen))]
      ensures old(live) > 0 && live == old(live) - 1
      ensures IsFreeList(slots, freeHead, stack) && CountsAllocations(slots, allocs, wraps)
    {
      hide IsFreeList, IsPartition, CountsAllocations, InUseCount, Latest;
      LiveNotListed(slots, stack, quarantine, served, place, h.index);
      InUseStep(place, h.index, InUse);
      CountStep(slots, allocs, wraps, h.index);
      var slot := slots[h.index];
      slots := slots[h.index := slot.(gen := NextGen(slot.gen))];
      live := live - 1;
      if slot.gen == 0xFF {
        wraps := wraps[h.index := wraps[h.index] + 1];
      }
      KeepFreeList(old(slots), slots, freeHead, stack);
    }

    /** The listing step of Free: straight to the free list, or to the back of the quarantine queue. */
    method Park(ghost was: seq<Slot<T>>, index: nat)
      requires index < |slots| == |was| == |place| && !slots[index].Live() && was[index].Live()
      requires forall i :: 0 <= i < |slots| && i != index ==> slots[i] == was[i]
      requires IsFreeList(slots, freeHead, stack) && CountsAllocations(slots, allocs, wraps)
      requires IsPartition(was, stack, quarantine, served, place) && InUseCount(place) == live + 1
      requires Latest(freed, quarantine, quarantineLimit)
      modifies this`slots, this`freeHead, this`stack, this`quarantine, this`served, this`place
      ensures IsFreeList(slots, freeHead, stack) && CountsAllocations(slots, allocs, wraps)
      ensures IsPartition(slots, stack, quarantine, served, place) && InUseCount(place) == live
      ensures |slots| == |was| == |place| && slots[index].gen == old(slots)[index].gen
      ensures forall i :: 0 <= i < |slots| && i != index && was[i].Live() ==> slots[i] == was[i]
      ensures Latest(freed + [index], quarantine, quarantineLimit)
      ensures stack == old(stack) + Recycled(freed + [index], quarantineLimit)
      ensures |quarantine| + |stack| == old(|quarantine| + |stack|) + 1
      ensures |quarantine| == if old(|quarantine|) + 1 > quarantineLimit then quarantineLimit else old(|quarantine|) + 1
    {
      hide IsFreeList, IsPartition, CountsAllocations, InUseCount, Latest, Recycled;
      LiveNotListed(was, stack, quarantine, served, place, index);
      HeldIsLatest(quarantine, quarantineLimit, freed, index);
      assert was[index := slots[index]] == slots;
      if quarantineLimit > 0 {
        // The slot waits here first: whoever still has a handle to it will find a later generation in it.
        HoldPartition(was, stack, quarantine, served, place, index, slots[index]);
        InUseStep(place, index, Held(served + |quarantine|));
        quarantine := quarantine + [index];
        place := place[index := Held(served + |quarantine| - 1)];
        if |quarantine| > quarantineLimit {
          var front := quarantine[0];
          ServePartition(slots, stack, quarantine, served, place);
          InUseStep(place, front, Stacked(|stack|));
          quarantine := quarantine[1..];
          served := served + 1;
          place := place[front := Stacked(|stack|)];
          Recycle(front);
        }
      } else {
        StackPartition(was, stack, quarantine, served, place, index, slots[index]);
        InUseStep(place, index, Stacked(|stack|));
        place := place[index := Stacked(|stack|)];
        Recycle(index);
      }
    }

    /** Release, seen from the bookkeeping: a free slot's link is all that changes. */
    method Recycle(index: nat)
      requires index < |slots| && !slots[index].Live()
      requires IsFreeList(slots, freeHead, stack)
      requires forall k :: 0 <= k < |stack| ==> stack[k] != index
      requires IsPartition(slots, stack + [index], quarantine, served, place)
      requires CountsAllocations(slots, allocs, wraps)
      modifies this`slots, this`freeHead, this`stack
      ensures IsFreeList(slots, freeHead, stack)
      ensures IsPartition(slots, stack, quarantine, served, place)
      ensures CountsAllocations(slots, allocs, wraps)
      ensures stack == old(stack) + [index] && |slots| == |old(slots)| && slots[index].gen == old(slots)[index].gen
      ensures forall i :: 0 <= i < |slots| && i != index ==> slots[i] == old(slots)[i]
    {
      hide IsFreeList, IsPartition, CountsAllocations;
      Release(index);
      KeepPartition(old(slots), slots, stack, quarantine, served, place);
      KeepCounts(old(slots), slots, allocs, wraps);
    }

    /** Reads a live record through a checked handle. */
    function Deref(h: Handle): Slot<T>
      requires LiveIn(slots, h)
      reads this`slots
    {
      slots[h.index]
    }

    /** Rewrites a live record through a checked handle; the pool's own bookkeeping is out of reach. */
    method Put(h: Handle, data: T, link: Handle)
      requires Valid() && LiveIn(slots, h)
      modifies this`slots
      ensures Valid()
      ensures slots == old(slots)[h.index := Slot(data, link, h.gen)]
    {
      hide IsFreeList, IsPartition, CountsAllocations, InUseCount, Latest;
      LiveNotListed(slots, stack, quarantine, served, place, h.index);
      slots := slots[h.index := Slot(data, link, slots[h.index].gen)];
      KeepFreeList(old(slots), slots, freeHead, stack);
      KeepPartition(old(slots), slots, stack, quarantine, served, place);
      KeepCounts(old(slots), slots, allocs, wraps);
    }

    ghost function Room(): Spare
      reads this`stack, this`quarantine
    {
      Spare(|stack|, |quarantine|, quarantineLimit)
    }

    /** A freed slot is neither live nor handed out again before as many further frees as the quarantine holds. */
    lemma HeldBack(k: nat)
      requires Valid() && |freed| - quarantineLimit <= k < |freed|
      ensures freed[k] < |slots| && !slots[freed[k]].Live() && freed[k] !in stack
    {
      hide IsFreeList, IsPartition, CountsAllocations, InUseCount;
      var i := k - (|freed| - |quarantine|);
      assert 0 <= i < |quarantine| && quarantine[i] == freed[k] && quarantine[i] in quarantine;
      ExactlyOnce(slots, stack, quarantine, served, place);
    }

    lemma RoomSays()
      requires Valid()
      ensures Room().free == |stack| && Room().held <= Room().limit == quarantineLimit
      ensures Room().free + Room().held + live == capacity == |slots| <= MAX_CAPACITY
    {
      hide IsFreeList, IsPartition, CountsAllocations, InUseCount, Latest;
    }
  }

  /**
   The documented limit of the eight-bit generation, exactly: a handle issued by a slot's n-th allocation (Allocate
   says with which generation) is accepted if and only if the slot is live and has been allocated a multiple of 128
   times since.
   */
  lemma StaleHandleBound<T>(slots: seq<Slot<T>>, allocs: seq<nat>, wraps: seq<nat>, h: Handle, n: nat)
    requires CountsAllocations(slots, allocs, wraps)
    requires h.index < |slots| && 0 < n <= allocs[h.index] && h.gen == IssuedGen(n)
    ensures Accepts(slots, h) <==> slots[h.index].Live() && (allocs[h.index] - n) % 128 == 0
  {
    var a, g, issuedWraps := allocs[h.index], slots[h.index].gen, (2 * n - 1) / 0x100;
    assert h.gen + 0x100 * issuedWraps == 2 * n - 1;
    if slots[h.index].Live() {
      assert g + 0x100 * wraps[h.index] == 2 * a - 1;
      assert g == h.gen <==> a - n == 128 * (wraps[h.index] - issuedWraps);
    }
  }
}
