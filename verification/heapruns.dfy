/** The heap over whole runs, and exactly when a growth keeps its invariant. */
module HeapRuns {
  import opened Words
  import opened Arena
  import opened FreeLists
  import opened Heap

  // ---------- Runs of allocations and releases ----------

  datatype Arrangement = Arrangement(first: int, brk: int, slots: seq<Slot>)

  datatype Call =
    | Allocated(size: u32)
    | Refused(size: u32)
    | RefusedAfterStart(start: int)
    | GrewAndAllocated(size: u32, start: int)
    | ToppedAndAllocated(size: u32, twice: bool)
    | RefusedAfterTopping(size: u32)
    | Freed(index: nat)

  /** The slots after one or two growths behind the topmost free slot. */
  function Topped(slots: seq<Slot>, brk: int, units: nat, twice: bool): (r: seq<Slot>)
    requires !NoneFree(slots)
    ensures LastFree(slots) < |r|
  {
    var j, pages := LastFree(slots), AlignUp(units * UNIT, PAGE);
    var once := Behind(slots, j, brk, brk + pages);
    if twice then Behind(once, j, brk + pages, brk + 2 * pages) else once
  }

  function ToppedBrk(brk: int, units: nat, twice: bool): int {
    brk + (if twice then 2 else 1) * AlignUp(units * UNIT, PAGE)
  }

  /** What one call may do while no growth happens below a block in use. */
  ghost predicate Does(h: Arrangement, c: Call, h': Arrangement) {
    match c
    case Allocated(size) =>
      && Units(size) <= MAX_UNITS && FirstFit(h.slots, Units(size), 0).At?
      && h' == h.(slots := Take(h.slots, FirstFit(h.slots, Units(size), 0).index, Units(size)))
    case Refused(_) => h' == h
    case RefusedAfterStart(start) =>
      h.brk == 0 && 0 < start <= BRK_LIMIT && OnUnit(start) && h' == Arrangement(start, start, [])
    case GrewAndAllocated(size, start) =>
      && Units(size) <= MAX_UNITS && NoneFree(h.slots)
      && (if h.brk == 0 then 0 < start && OnUnit(start) && h'.first == start else start == h.brk && h'.first == h.first)
      && h'.brk == start + AlignUp(Units(size) * UNIT, PAGE) <= BRK_LIMIT
      && h'.slots == Take(Extended(h.slots, start, h'.brk), |h.slots|, Units(size))
    case ToppedAndAllocated(size, twice) =>
      && Units(size) <= MAX_UNITS && TopFree(h.slots) && FirstFit(h.slots, Units(size), 0).NoFit?
      && h'.first == h.first && h'.brk == ToppedBrk(h.brk, Units(size), twice) <= BRK_LIMIT
      && (twice <==> FirstFit(Topped(h.slots, h.brk, Units(size), false), Units(size), 0).NoFit?)
      && h'.slots == Take(Topped(h.slots, h.brk, Units(size), twice), LastFree(h.slots), Units(size))
    case RefusedAfterTopping(size) =>
      && Units(size) <= MAX_UNITS && TopFree(h.slots) && FirstFit(h.slots, Units(size), 0).NoFit?
      && h'.first == h.first && h'.brk == ToppedBrk(h.brk, Units(size), false) <= BRK_LIMIT
      && h'.slots == Topped(h.slots, h.brk, Units(size), false) && FirstFit(h'.slots, Units(size), 0).NoFit?
    case Freed(i) => i < |h.slots| && h.slots[i].LiveSlot? && h' == h.(slots := Release(h.slots, i))
  }

  ghost predicate IsRun(states: seq<Arrangement>, calls: seq<Call>) {
    && |states| == |calls| + 1 && states[0] == Arrangement(0, 0, [])
    && (forall k :: 0 <= k < |calls| ==> Does(states[k], calls[k], states[k + 1]))
  }

  ghost predicate Sound(h: Arrangement) {
    && Shaped(h.slots, h.first, h.brk) && 0 <= h.first <= h.brk <= BRK_LIMIT && OnUnit(h.brk)
    && (h.first == 0 ==> h.brk == 0) && (h.brk == 0 ==> h.slots == [])
  }

  /** One growth behind the topmost free slot. */
  lemma OnceShape(slots: seq<Slot>, first: int, brk: int, pages: int)
    requires Shaped(slots, first, brk) && TopFree(slots) && OnUnit(brk) && OnUnit(brk + pages) && pages > 0
    ensures
      var j := LastFree(slots);
      var t := Behind(slots, j, brk, brk + pages);
      && Shaped(t, first, brk + pages) && TopFree(t) && LastFree(t) == j && Live(t) == Live(slots)
      && t[j] == FreeSlot(slots[j].start, brk)
  {
    hide Shaped, OnUnit, Live, Behind, LastFree;
    var j := LastFree(slots);
    BehindShaped(slots, first, brk, j, brk + pages);
    BehindLast(slots, j, brk, brk + pages);
    BehindLive(slots, j, brk, brk + pages);
  }

  /** Growing behind the topmost free slot keeps shape and live blocks; the slot then fits when it
      was grown twice, or once with success. */
  lemma ToppedShape(h: Arrangement, units: nat, twice: bool)
    requires Sound(h) && TopFree(h.slots) && 0 < units <= MAX_UNITS && ToppedBrk(h.brk, units, twice) <= BRK_LIMIT
    requires FirstFit(h.slots, units, 0).NoFit?
    requires twice ==> FirstFit(Topped(h.slots, h.brk, units, false), units, 0).NoFit?
    ensures
      var t, brk := Topped(h.slots, h.brk, units, twice), ToppedBrk(h.brk, units, twice);
      var j := LastFree(h.slots);
      && Shaped(t, h.first, brk) && Tiled(t, h.first, brk) && OnUnit(brk) && h.brk < brk && h.brk > 0
      && Live(t) == Live(h.slots)
      && t[j].FreeSlot? && t[j].start == h.slots[j].start >= 0
      && (!FirstFit(t, units, 0).NoFit? || twice ==>
            FirstFit(t, units, 0) == At(j) && t[j].start + units * UNIT <= t[j].end)
  {
    hide Shaped, FirstFit, Live, OnUnit, AlignUp, Behind, LastFree, OnlyLostAbove, NoneFree;
    var j, pages := LastFree(h.slots), AlignUp(units * UNIT, PAGE);
    PageRoom(units);
    PagesOnUnits(h.brk, units * UNIT);
    PagesOnUnits(h.brk + pages, units * UNIT);
    UnshapedFacts(h);
    Bounds(h.slots, h.first, h.brk, j);
    var once := Behind(h.slots, j, h.brk, h.brk + pages);
    OnceShape(h.slots, h.first, h.brk, pages);
    OnlyTopFits(h.slots, h.first, h.brk, j, h.brk + pages, units);
    if twice {
      OnceShape(once, h.first, h.brk + pages, pages);
      SecondGrowthFits(h.slots, h.first, h.brk, j, units);
    }
    var t, brk := Topped(h.slots, h.brk, units, twice), ToppedBrk(h.brk, units, twice);
    ShapedIsTiled(t, h.first, brk);
    hide Tiled, Topped;
    FirstFitIsLowest(t, h.first, brk, units, 0);
  }

  lemma CallKeepsSound(h: Arrangement, c: Call, h': Arrangement)
    requires Sound(h) && Does(h, c, h')
    ensures Sound(h')
  {
    hide Shaped, Take, Release, FirstFit, OnUnit, Units, AlignUp, Extended, Topped, ToppedBrk, TopFree, LastFree;
    UnshapedFacts(h);
    match c {
      case Allocated(size) =>
        var units := Units(size);
        UnitsPositive(size);
        FirstFitIsLowest(h.slots, h.first, h.brk, units, 0);
        TakeShaped(h.slots, h.first, h.brk, FirstFit(h.slots, units, 0).index, units);
      case Refused(_) =>
      case RefusedAfterStart(start) =>
        NoSlotsShaped(start);
      case GrewAndAllocated(size, start) =>
        var units := Units(size);
        UnitsPositive(size);
        StartSound(h, start, h'.first);
        GrowthSuffices(h.slots, h'.first, start, units);
        PagesOnUnits(start, units * UNIT);
        ExtendedShaped(h.slots, h'.first, start, h'.brk);
        ShapedIsTiled(Extended(h.slots, start, h'.brk), h'.first, h'.brk);
        FirstFitIsLowest(Extended(h.slots, start, h'.brk), h'.first, h'.brk, units, 0);
        TakeShaped(Extended(h.slots, start, h'.brk), h'.first, h'.brk, |h.slots|, units);
      case ToppedAndAllocated(size, twice) =>
        UnitsPositive(size);
        ToppedShape(h, Units(size), twice);
        TakeShaped(Topped(h.slots, h.brk, Units(size), twice), h.first, h'.brk, LastFree(h.slots), Units(size));
      case RefusedAfterTopping(size) =>
        UnitsPositive(size);
        ToppedShape(h, Units(size), false);
      case Freed(i) =>
        ReleaseShaped(h.slots, h.first, h.brk, i);
    }
  }

  lemma UnshapedFacts(h: Arrangement)
    requires Sound(h)
    ensures Tiled(h.slots, h.first, h.brk)
  {
  }

  lemma TopIsFree(slots: seq<Slot>)
    requires TopFree(slots)
    ensures !NoneFree(slots)
  {
  }

  lemma StartSound(h: Arrangement, start: int, first: int)
    requires Sound(h)
    requires (if h.brk == 0 then 0 < start && OnUnit(start) && first == start else start == h.brk && first == h.first)
    ensures Shaped(h.slots, first, start) && OnUnit(start) && 0 <= first <= start && first > 0
  {
  }

  lemma UnitsPositive(size: u32)
    ensures Units(size) > 0
  {
  }

  /** In every reachable state the slots tile the arena up to the break, free neighbours are
      merged, the free list is sorted, live blocks are pairwise disjoint, and free plus live
      bytes make up the arena. */
  lemma {:induction false} ReachableHeapsSound(states: seq<Arrangement>, calls: seq<Call>, k: nat)
    requires IsRun(states, calls) && k < |states|
    ensures Sound(states[k])
    ensures var s := states[k].slots;
      SpanOf(s, Free) + SpanOf(s, Used) + SpanOf(s, Lost) == states[k].brk - states[k].first
    ensures var live := Live(states[k].slots);
      forall a, b :: a in live && b in live && a != b ==> a.1 <= b.0 || b.1 <= a.0
    ensures var list := FreeList(states[k].slots); forall i, j :: 0 <= i < j < |list| ==> list[i] < list[j]
  {
    hide Shaped, Take, Release, FirstFit, Live, SpanOf, FreeList;
    if k > 0 {
      ReachableHeapsSound(states, calls, k - 1);
      CallKeepsSound(states[k - 1], calls[k - 1], states[k]);
    } else {
      NoSlotsShaped(0);
    }
    var h := states[k];
    UnshapedFacts(h);
    Conservation(h.slots, h.first, h.brk);
    FreeListSorted(h.slots, h.first, h.brk);
    forall a, b | a in Live(h.slots) && b in Live(h.slots) && a != b
      ensures a.1 <= b.0 || b.1 <= a.0
    {
      LiveDisjoint(h.slots, h.first, h.brk, a, b);
    }
  }

  lemma NoSlotsShaped(at: int)
    ensures Shaped([], at, at)
  {
  }

  /** The slot a call hands out. */
  function NewIndex(h: Arrangement, c: Call): nat {
    match c
    case Allocated(size) =>
      var fit := FirstFit(h.slots, Units(size), 0);
      if fit.At? then fit.index else 0
    case GrewAndAllocated(_, _) => |h.slots|
    case ToppedAndAllocated(_, _) => if NoneFree(h.slots) then 0 else LastFree(h.slots)
    case _ => 0
  }

  /** The new live blocks are the old ones and slot `k`, which was not live and is large enough. */
  ghost predicate AddsBlock(slots: seq<Slot>, slots': seq<Slot>, k: nat, size: u32) {
    k < |slots'| &&
    var b := (slots'[k].start, slots'[k].end);
    slots'[k].LiveSlot? && b !in Live(slots) && Live(slots') == Live(slots) + {b} && b.1 - b.0 >= Units(size) * UNIT
  }

  /** A call that allocates adds one live block, a call that frees removes one, and no other live
      block changes. */
  lemma CallChangesOneBlock(h: Arrangement, c: Call, h': Arrangement)
    requires Sound(h) && Does(h, c, h')
    ensures match c
      case Allocated(size) => AddsBlock(h.slots, h'.slots, NewIndex(h, c), size)
      case Refused(_) => Live(h'.slots) == Live(h.slots)
      case RefusedAfterStart(_) => Live(h'.slots) == Live(h.slots)
      case GrewAndAllocated(size, _) => AddsBlock(h.slots, h'.slots, NewIndex(h, c), size)
      case ToppedAndAllocated(size, _) => AddsBlock(h.slots, h'.slots, NewIndex(h, c), size)
      case RefusedAfterTopping(_) => Live(h'.slots) == Live(h.slots)
      case Freed(i) => Live(h'.slots) == Live(h.slots) - {(h.slots[i].start, h.slots[i].end)}
  {
    hide Shaped, Take, Release, FirstFit, Live, Units, OnUnit, AlignUp, Extended, Topped, ToppedBrk, TopFree, LastFree;
    UnshapedFacts(h);
    match c {
      case Allocated(size) =>
        UnitsPositive(size);
        FirstFitIsLowest(h.slots, h.first, h.brk, Units(size), 0);
        TakenBlock(h.slots, h.first, h.brk, NewIndex(h, c), size);
      case Refused(_) =>
      case RefusedAfterStart(_) =>
        assert h'.slots == h.slots;
      case GrewAndAllocated(size, start) =>
        UnitsPositive(size);
        StartSound(h, start, h'.first);
        PagesOnUnits(start, Units(size) * UNIT);
        ExtendedShaped(h.slots, h'.first, start, h'.brk);
        ShapedIsTiled(Extended(h.slots, start, h'.brk), h'.first, h'.brk);
        GrowthSuffices(h.slots, h'.first, start, Units(size));
        FirstFitIsLowest(Extended(h.slots, start, h'.brk), h'.first, h'.brk, Units(size), 0);
        ExtendedLive(h.slots, start, h'.brk);
        TakenBlock(Extended(h.slots, start, h'.brk), h'.first, h'.brk, |h.slots|, size);
      case ToppedAndAllocated(size, twice) =>
        UnitsPositive(size);
        ToppedShape(h, Units(size), twice);
        TopIsFree(h.slots);
        TakenBlock(Topped(h.slots, h.brk, Units(size), twice), h.first, h'.brk, LastFree(h.slots), size);
      case RefusedAfterTopping(size) =>
        UnitsPositive(size);
        ToppedShape(h, Units(size), false);
      case Freed(i) =>
        ReleaseRemovesOne(h.slots, h.first, h.brk, i);
    }
  }

  lemma ExtendedLive(slots: seq<Slot>, brk: int, newBrk: int)
    ensures Live(Extended(slots, brk, newBrk)) == Live(slots)
  {
    var more := Extended(slots, brk, newBrk);
    forall b | b in Live(slots) ensures b in Live(more) {
      var k :| 0 <= k < |slots| && slots[k].LiveSlot? && b == (slots[k].start, slots[k].end);
      assert more[k] == slots[k];
      LiveMember(more, k);
    }
    forall b | b in Live(more) ensures b in Live(slots) {
      var k :| 0 <= k < |more| && more[k].LiveSlot? && b == (more[k].start, more[k].end);
      assert more[k] == slots[k];
      LiveMember(slots, k);
    }
  }

  lemma TakenBlock(slots: seq<Slot>, first: int, brk: int, k: nat, size: u32)
    requires Tiled(slots, first, brk) && k < |slots| && slots[k].FreeSlot?
    requires Units(size) > 0 && slots[k].end - slots[k].start >= Units(size) * UNIT
    ensures AddsBlock(slots, Take(slots, k, Units(size)), k, size)
  {
    hide Units;
    TakeAddsOne(slots, k, Units(size));
    var t := Take(slots, k, Units(size))[k];
    if (t.start, t.end) in Live(slots) {
      var j :| 0 <= j < |slots| && slots[j].LiveSlot? && (t.start, t.end) == (slots[j].start, slots[j].end);
      StartsDistinct(slots, first, brk, j, k);
    }
  }

  /** No growth behind a free slot. */
  predicate NeverTops(calls: seq<Call>) {
    forall k :: 0 <= k < |calls| ==> !calls[k].ToppedAndAllocated? && !calls[k].RefusedAfterTopping?
  }

  lemma CallLosesNothing(h: Arrangement, c: Call, h': Arrangement)
    requires Does(h, c, h') && NoneLost(h.slots) && !c.ToppedAndAllocated? && !c.RefusedAfterTopping?
    ensures NoneLost(h'.slots)
  {
    hide FirstFit, Units, OnUnit, AlignUp;
  }

  /** While the arena only grows on an empty free list nothing is lost: the headers lead from the
      first slot exactly to the break, and free plus live bytes make up the arena. */
  lemma {:induction false} RunLosesNothing(states: seq<Arrangement>, calls: seq<Call>, k: nat)
    requires IsRun(states, calls) && NeverTops(calls) && k < |states|
    ensures NoneLost(states[k].slots)
    ensures SpanOf(states[k].slots, Free) + SpanOf(states[k].slots, Used) == states[k].brk - states[k].first
  {
    hide SpanOf, Does;
    if k > 0 {
      RunLosesNothing(states, calls, k - 1);
      CallLosesNothing(states[k - 1], calls[k - 1], states[k]);
    }
    ReachableHeapsSound(states, calls, k);
    NothingLost(states[k].slots);
  }

  // ---------- Growth ----------

  /** The words describe a heap up to the break in which exactly `live` is in use. */
  ghost predicate Describes(first: int, brk: int, nextSlot: map<int, int>, nextFree: map<int, int>,
                            anchor: int, live: set<(int, int)>)
  {
    exists slots :: HeapShape(slots, first, brk, nextSlot, nextFree, anchor) && Live(slots) == live
  }

  /** What a granted growth leaves of the words. */
  ghost predicate WordsGrown(last: int, brk: int, newBrk: int, nextSlot: map<int, int>,
                             nextFree: map<int, int>, anchor: int,
                             nextSlot': map<int, int>, nextFree': map<int, int>, anchor': int)
  {
    if last != 0 then nextSlot' == nextSlot[last := brk] && nextFree' == nextFree && anchor' == anchor
    else nextSlot' == nextSlot[brk := newBrk] && nextFree' == nextFree[brk := 0] && anchor' == brk
  }

  /** A granted growth leaves every block in use out of the free memory exactly when no slot was
      free or nothing in use lay above the last free one. */
  lemma GrowthKeepsLive(slots: seq<Slot>, first: int, brk: int, newBrk: int, nextSlot: map<int, int>,
                        nextFree: map<int, int>, anchor: int, units: nat, nextSlot': map<int, int>,
                        nextFree': map<int, int>, anchor': int)
    requires HeapShape(slots, first, brk, nextSlot, nextFree, anchor) && brk > 0
    requires 0 < units <= MAX_UNITS && newBrk == brk + AlignUp(units * UNIT, PAGE) <= BRK_LIMIT
    requires WordsGrown(LastNode(FreeList(slots)), brk, newBrk, nextSlot, nextFree, anchor,
                        nextSlot', nextFree', anchor')
    ensures Describes(first, newBrk, nextSlot', nextFree', anchor', Live(slots)) <==> NoneFree(slots) || TopFree(slots)
  {
    hide FreeList, AlignUp, Live, Behind, LastFree;
    HeapWalkable(slots, first, brk, nextSlot, nextFree, anchor);
    NoLastNode(slots, nextSlot, nextFree, anchor);
    if NoneFree(slots) {
      GrownShape(slots, first, brk, newBrk, nextSlot, nextFree, anchor, units);
      ExtendedLive(slots, brk, newBrk);
    } else if TopFree(slots) {
      BehindShape(slots, first, brk, nextSlot, nextFree, anchor, units);
      BehindLive(slots, LastFree(slots), brk, newBrk);
    } else if Describes(first, newBrk, nextSlot', nextFree', anchor', Live(slots)) {
      var other :| HeapShape(other, first, newBrk, nextSlot', nextFree', anchor') && Live(other) == Live(slots);
      ClaimedNotLive(slots, other, first, brk, newBrk, nextSlot, nextFree, anchor);
    }
  }

  /** Two chains over the same links have the same nodes. */
  lemma {:induction false} SameNodes(a: seq<int>, b: seq<int>, nextFree: map<int, int>, anchor: int, i: nat)
    requires Chain(a, nextFree, anchor) && Chain(b, nextFree, anchor) && 0 !in a && i < |a|
    ensures i < |b| && a[i] == b[i]
  {
    if i == 0 {
      assert NodeAt(b, 0) == a[0] != 0;
    } else {
      SameNodes(a, b, nextFree, anchor, i - 1);
      assert NodeAt(b, i) == NodeAt(a, i) == a[i] != 0;
    }
  }

  lemma ChainUnique(a: seq<int>, b: seq<int>, nextFree: map<int, int>, anchor: int)
    requires Chain(a, nextFree, anchor) && Chain(b, nextFree, anchor) && 0 !in a && 0 !in b
    ensures a == b
  {
    hide Chain;
    if |a| > 0 {
      SameNodes(a, b, nextFree, anchor, |a| - 1);
    }
    if |b| > 0 {
      SameNodes(b, a, nextFree, anchor, |b| - 1);
    }
    forall i: nat | i < |a| ensures a[i] == b[i] {
      SameNodes(a, b, nextFree, anchor, i);
    }
  }

  /** With the last free slot moved up to the old break, no heap over the words keeps a block in use
      above that slot. */
  lemma ClaimedNotLive(slots: seq<Slot>, other: seq<Slot>, first: int, brk: int, newBrk: int, nextSlot: map<int, int>,
                       nextFree: map<int, int>, anchor: int)
    requires HeapShape(slots, first, brk, nextSlot, nextFree, anchor) && !NoneFree(slots)
    requires HeapShape(other, first, newBrk, nextSlot[LastNode(FreeList(slots)) := brk], nextFree, anchor)
    requires Live(other) == Live(slots)
    ensures TopFree(slots)
  {
    hide FreeList, OnUnit, LastFree, Coalesced;
    NodesPositive(slots, first, brk);
    NodesPositive(other, first, newBrk);
    ChainUnique(FreeList(slots), FreeList(other), nextFree, anchor);
    NoneInList(slots);
    NoneInList(other);
    LastNodeIsLastFree(slots);
    LastNodeIsLastFree(other);
    var j, top := LastFree(slots), LastFree(other);
    assert EndHolds(other[top], nextSlot[LastNode(FreeList(slots)) := brk]);
    forall k: nat | j < k < |slots| ensures slots[k].LostSlot? {
      Ordered(slots, first, brk, j, k);
      Bounds(slots, first, brk, k);
      if slots[k].LiveSlot? {
        LiveMember(slots, k);
        var block := (slots[k].start, slots[k].end);
        var m :| 0 <= m < |other| && other[m].LiveSlot? && (other[m].start, other[m].end) == block;
        if m < top {
          Ordered(other, first, newBrk, m, top);
        } else {
          Ordered(other, first, newBrk, top, m);
        }
      }
    }
  }

  lemma InsideAbove(slots: seq<Slot>, first: int, brk: int, j: nat, b: (int, int))
    requires Tiled(slots, first, brk) && j < |slots| && slots[j].FreeSlot?
    requires b in Live(slots) && slots[j].start <= b.0
    ensures !OnlyLostAbove(slots, j)
  {
    var i :| 0 <= i < |slots| && slots[i].LiveSlot? && b == (slots[i].start, slots[i].end);
    if i < j {
      Bounds(slots, first, brk, i);
      Ordered(slots, first, brk, i, j);
    }
    assert !slots[i].LostSlot?;
  }

  /** The append branch moves the last free slot's end to the old break. A block in use lies inside
      that slot then, exactly when one lay above it; and while nothing is lost, exactly when the
      slot did not end at the break. */
  lemma AppendClaimsLive(slots: seq<Slot>, first: int, brk: int)
    requires Tiled(slots, first, brk) && !NoneFree(slots)
    ensures
      var moved := FreeSlot(slots[LastFree(slots)].start, brk);
      !TopFree(slots) <==> exists b :: b in Live(slots) && moved.start <= b.0 && b.1 <= moved.end
    ensures NoneLost(slots) ==> (!TopFree(slots) <==> slots[LastFree(slots)].end < brk)
  {
    hide Live, LastFree, OnUnit;
    var j := LastFree(slots);
    Bounds(slots, first, brk, j);
    if !TopFree(slots) {
      var i :| j < i < |slots| && !slots[i].LostSlot?;
      Bounds(slots, first, brk, i);
      Ordered(slots, first, brk, j, i);
      LiveMember(slots, i);
    }
    if b :| b in Live(slots) && slots[j].start <= b.0 && b.1 <= brk {
      InsideAbove(slots, first, brk, j, b);
    }
  }

  /** Index of the first slot from `i` on that is not lost. */
  function FirstKept(slots: seq<Slot>, i: nat): (k: nat)
    requires i <= |slots|
    ensures i <= k <= |slots|
    ensures forall j :: i <= j < k ==> slots[j].LostSlot?
    ensures k < |slots| ==> !slots[k].LostSlot?
    decreases |slots| - i
  {
    if i < |slots| && slots[i].LostSlot? then FirstKept(slots, i + 1) else i
  }

  /** Some block in use shares bytes with `[from, to)`. */
  ghost predicate OverlapsLive(slots: seq<Slot>, from: int, to: int) {
    exists b :: b in Live(slots) && from < b.1 && b.0 < to
  }

  /** After a growth below a block in use, what is handed out starts at the last free slot. It
      overlaps a block in use exactly when it reaches the first one above that slot; while nothing is
      lost it always does, because the slot was too small. */
  lemma HandedOutOverlaps(slots: seq<Slot>, first: int, brk: int, units: nat)
    requires Tiled(slots, first, brk) && 0 <= first && brk <= BRK_LIMIT && 0 < units <= MAX_UNITS
    requires !NoneFree(slots) && !TopFree(slots) && FirstFit(slots, units, 0).NoFit?
    ensures
      var j := LastFree(slots);
      var k := FirstKept(slots, j + 1);
      && k < |slots|
      && (OverlapsLive(slots, slots[j].start, slots[j].start + units * UNIT) <==>
            slots[k].start < slots[j].start + units * UNIT)
    ensures
      var from := slots[LastFree(slots)].start;
      NoneLost(slots) ==> OverlapsLive(slots, from, from + units * UNIT)
  {
    hide OnUnit, FirstFit, Live;
    var j := LastFree(slots);
    var k := FirstKept(slots, j + 1);
    FirstFitIsLowest(slots, first, brk, units, 0);
    hide SlotFits;
    Bounds(slots, first, brk, j);
    Bounds(slots, first, brk, k);
    Ordered(slots, first, brk, j, k);
    LiveMember(slots, k);
    var from, to := slots[j].start, slots[j].start + units * UNIT;
    if OverlapsLive(slots, from, to) {
      var b :| b in Live(slots) && from < b.1 && b.0 < to;
      LiveAtLeast(slots, first, brk, j, k, b);
    }
    if NoneLost(slots) {
      assert k == j + 1 && slots[j].end == slots[k].start;
    }
  }

  lemma LiveAtLeast(slots: seq<Slot>, first: int, brk: int, j: nat, k: nat, b: (int, int))
    requires Tiled(slots, first, brk) && j < k < |slots| && slots[j].FreeSlot? && b in Live(slots)
    requires (forall i :: j < i < k ==> !slots[i].LiveSlot?) && slots[j].start < b.1
    ensures slots[k].start <= b.0
  {
    var i :| 0 <= i < |slots| && slots[i].LiveSlot? && b == (slots[i].start, slots[i].end);
    if i < j {
      Ordered(slots, first, brk, i, j);
    } else if i > k {
      Ordered(slots, first, brk, k, i);
      Bounds(slots, first, brk, k);
    }
  }

  /** The words describe a heap without lost space: the headers alone lead from the first slot
      exactly to the break. */
  ghost predicate DescribesWhole(first: int, brk: int, nextSlot: map<int, int>, nextFree: map<int, int>, anchor: int) {
    exists slots :: HeapShape(slots, first, brk, nextSlot, nextFree, anchor) && NoneLost(slots)
  }

  /** Following `next_slot` words that agree up to slot `j` visits the same starts. */
  lemma {:induction false} SameStarts(a: seq<Slot>, b: seq<Slot>, first: int, brkA: int, brkB: int,
                                      wordsA: map<int, int>, wordsB: map<int, int>, i: nat)
    requires Tiled(a, first, brkA) && Tiled(b, first, brkB) && EndsHold(a, wordsA) && EndsHold(b, wordsB)
    requires i < |a| && |b| > 0 && brkA < brkB && NoneLost(b)
    requires forall k :: 0 <= k < i ==> a[k].start in wordsB && wordsB[a[k].start] == a[k].end
    ensures i < |b| && b[i].start == a[i].start
  {
    hide OnUnit;
    if i > 0 {
      SameStarts(a, b, first, brkA, brkB, wordsA, wordsB, i - 1);
      Bounds(a, first, brkA, i - 1);
      assert EndHolds(b[i - 1], wordsB);
      assert b[i - 1].end == a[i - 1].end;
    }
  }

  /** A slot that ends below the break is followed by a slot with a header of its own. */
  lemma EndsBefore(slots: seq<Slot>, first: int, brk: int, j: nat, nextSlot: map<int, int>)
    requires Tiled(slots, first, brk) && EndsHold(slots, nextSlot) && NoneLost(slots) && j < |slots|
    ensures slots[j].end < brk ==> slots[j].end in nextSlot
  {
    if j + 1 < |slots| {
      assert slots[j + 1].start == slots[j].end && EndHolds(slots[j + 1], nextSlot);
    }
  }

  lemma NotDescribed(slots: seq<Slot>, other: seq<Slot>, first: int, brk: int, newBrk: int,
                     nextSlot: map<int, int>, nextSlot': map<int, int>)
    requires Tiled(slots, first, brk) && EndsHold(slots, nextSlot) && NoneLost(slots) && brk < newBrk
    requires FreeList(slots) != []
    requires nextSlot' == nextSlot[LastNode(FreeList(slots)) := brk] && brk !in nextSlot
    ensures !(Tiled(other, first, newBrk) && EndsHold(other, nextSlot') && NoneLost(other))
  {
    hide FreeList, OnUnit;
    var j := ListedSlot(slots, LastNode(FreeList(slots)));
    forall k: nat | k < j ensures slots[k].start in nextSlot' && nextSlot'[slots[k].start] == slots[k].end {
      StartsDistinct(slots, first, brk, k, j);
      assert EndHolds(slots[k], nextSlot);
    }
    Bounds(slots, first, brk, j);
    if Tiled(other, first, newBrk) && EndsHold(other, nextSlot') && NoneLost(other) {
      SameStarts(slots, other, first, brk, newBrk, nextSlot, nextSlot', j);
      assert EndHolds(other[j], nextSlot');
      EndsBefore(other, first, newBrk, j, nextSlot');
    }
  }

  /** A granted growth leaves headers that lead exactly to the new break if and only if no slot was
      free. With a free slot left, its end word is moved to the old break, and nothing reaches the
      new one. */
  lemma GrowthKeepsShape(slots: seq<Slot>, first: int, brk: int, newBrk: int, nextSlot: map<int, int>,
                         nextFree: map<int, int>, anchor: int, units: nat, nextSlot': map<int, int>,
                         nextFree': map<int, int>, anchor': int)
    requires HeapShape(slots, first, brk, nextSlot, nextFree, anchor) && NoneLost(slots) && brk > 0
    requires 0 < units <= MAX_UNITS && newBrk == brk + AlignUp(units * UNIT, PAGE) <= BRK_LIMIT
    requires WordsGrown(LastNode(FreeList(slots)), brk, newBrk, nextSlot, nextFree, anchor,
                        nextSlot', nextFree', anchor')
    ensures DescribesWhole(first, newBrk, nextSlot', nextFree', anchor') <==> NoneFree(slots)
  {
    hide FreeList, AlignUp;
    HeapWalkable(slots, first, brk, nextSlot, nextFree, anchor);
    NoLastNode(slots, nextSlot, nextFree, anchor);
    if NoneFree(slots) {
      GrownShape(slots, first, brk, newBrk, nextSlot, nextFree, anchor, units);
      assert NoneLost(Extended(slots, brk, newBrk));
    } else if DescribesWhole(first, newBrk, nextSlot', nextFree', anchor') {
      var other :| HeapShape(other, first, newBrk, nextSlot', nextFree', anchor') && NoneLost(other);
      NotDescribed(slots, other, first, brk, newBrk, nextSlot, nextSlot');
    }
  }

  // ---------- The allocator's own runs ----------

  ghost function Arranged(a: Allocator): Arrangement
    reads a
  {
    Arrangement(a.firstSlot, a.arenaBrk, a.slots)
  }

  lemma ShapeIsSound(slots: seq<Slot>, first: int, brk: int, nextSlot: map<int, int>,
                     nextFree: map<int, int>, anchor: int)
    requires HeapShape(slots, first, brk, nextSlot, nextFree, anchor)
    ensures Sound(Arrangement(first, brk, slots))
    ensures |slots| == 0 ==> first == brk
    ensures |slots| > 0 ==> slots[0].start == first && OnUnit(first)
    ensures forall k :: 0 <= k < |slots| ==> slots[k].start >= first
  {
    forall k: nat | k < |slots| ensures slots[k].start >= first {
      Bounds(slots, first, brk, k);
    }
    if |slots| > 0 {
      Bounds(slots, first, brk, 0);
    }
  }

  predicate HandsOut(c: Call) {
    c.Allocated? || c.GrewAndAllocated? || c.ToppedAndAllocated?
  }

  lemma FirstStart(slots: seq<Slot>, start: int, newBrk: int, units: nat)
    requires start + units * UNIT <= newBrk
    ensures
      var t := Take(Extended(slots, start, newBrk), |slots|, units);
      |t| > |slots| && t[|slots|].start == start && t[0].start == if |slots| > 0 then slots[0].start else start
  {
  }

  lemma TakeStart(slots: seq<Slot>, k: nat, units: nat)
    requires k < |slots|
    ensures k < |Take(slots, k, units)| && Take(slots, k, units)[k].start == slots[k].start
  {
  }

  lemma FitOrNot(h: Arrangement, units: nat)
    requires Sound(h) && units <= MAX_UNITS
    ensures units > 0 ==> !FirstFit(h.slots, units, 0).Wraps?
  {
    if units > 0 {
      NeverWraps(h.slots, h.first, h.brk, units, 0);
    }
  }

  /** The call an allocation without a free slot was. */
  lemma AfterGrowth(h: Arrangement, h': Arrangement, size: u32, ptr: int, a: Allocator) returns (c: Call)
    requires a.Valid() && h' == Arranged(a) && Sound(h) && NoneFree(h.slots) && Units(size) <= MAX_UNITS
    requires |h.slots| == 0 ==> h.first == h.brk
    requires |h.slots| > 0 ==> h.slots[0].start == h.first
    requires
      var start := if h.brk == 0 then a.firstSlot else h.brk;
      if ptr == 0 then a.slots == h.slots && a.arenaBrk == start
      else a.GrownAndTaken(h.slots, start, Units(size)) && ptr == start + UNIT
    ensures Does(h, c, h') && (ptr != 0 <==> HandsOut(c)) && !c.Freed?
    ensures ptr != 0 ==> var k := NewIndex(h, c); k < |h'.slots| && ptr == h'.slots[k].start + UNIT
  {
    hide HeapShape, Take, FirstFit, Extended, Units, Shaped, AlignUp;
    ShapeIsSound(a.slots, a.firstSlot, a.arenaBrk, a.nextSlot, a.nextFree, a.freeAnchor);
    UnitsPositive(size);
    c := Refused(size);
    if ptr != 0 {
      var start := if h.brk == 0 then a.firstSlot else h.brk;
      c := GrewAndAllocated(size, start);
      PageRoom(Units(size));
      FirstStart(h.slots, start, a.arenaBrk, Units(size));
    } else if a.arenaBrk != h.brk {
      c := RefusedAfterStart(a.firstSlot);
    }
  }

  /** The call an allocation behind the topmost free slot was. */
  lemma AfterTopping(h: Arrangement, size: u32, ptr: int, a: Allocator) returns (c: Call)
    requires a.Valid() && Sound(h) && TopFree(h.slots) && Units(size) <= MAX_UNITS
    requires FirstFit(h.slots, Units(size), 0).NoFit?
    requires a.ServedBehind(h.slots, h.first, h.brk, Units(size), ptr) && ptr >= 0
    ensures Does(h, c, Arranged(a)) && (ptr != 0 <==> HandsOut(c)) && !c.Freed?
    ensures ptr != 0 ==> var k := NewIndex(h, c); k < |a.slots| && ptr == a.slots[k].start + UNIT
  {
    hide HeapShape, Take, FirstFit, Units, Shaped, AlignUp, Behind, LastFree, Live, OnUnit;
    ShapeIsSound(a.slots, a.firstSlot, a.arenaBrk, a.nextSlot, a.nextFree, a.freeAnchor);
    UnitsPositive(size);
    PageRoom(Units(size));
    UnshapedFacts(h);
    Bounds(h.slots, h.first, h.brk, LastFree(h.slots));
    c := Refused(size);
    if a.arenaBrk != h.brk {
      if ptr == 0 {
        c := RefusedAfterTopping(size);
      } else {
        var twice := FirstFit(Topped(h.slots, h.brk, Units(size), false), Units(size), 0).NoFit?;
        c := ToppedAndAllocated(size, twice);
        ToppedShape(h, Units(size), twice);
        TakeStart(Topped(h.slots, h.brk, Units(size), twice), LastFree(h.slots), Units(size));
      }
    }
  }

  lemma Overlapping(h: Arrangement, size: u32)
    requires Sound(h) && !NoneFree(h.slots) && !TopFree(h.slots) && Units(size) <= MAX_UNITS
    ensures FirstFit(h.slots, Units(size), 0).NoFit? && NoneLost(h.slots) ==>
      var from := h.slots[LastFree(h.slots)].start;
      OverlapsLive(h.slots, from, from + Units(size) * UNIT)
  {
    hide FirstFit, Units, OverlapsLive, Shaped;
    UnitsPositive(size);
    UnshapedFacts(h);
    if FirstFit(h.slots, Units(size), 0).NoFit? {
      HandedOutOverlaps(h.slots, h.first, h.brk, Units(size));
    }
  }

  /** Unless it grew the arena below a block in use, an allocation is one of the described calls,
      and its result points behind the header of the slot handed out. If it did, the slot handed out
      starts at the last free one and, while nothing was lost, overlaps a block in use. */
  method Allocate(a: Allocator, size: u32) returns (ptr: int, ghost c: Call)
    requires a.Valid()
    modifies a
    ensures NoneFree(old(a.slots)) || TopFree(old(a.slots)) || a.arenaBrk == old(a.arenaBrk) ==>
      && a.Valid() && Does(old(Arranged(a)), c, Arranged(a))
      && (ptr != 0 <==> HandsOut(c)) && !c.Freed?
      && (ptr != 0 ==> var k := NewIndex(old(Arranged(a)), c); k < |a.slots| && ptr == a.slots[k].start + UNIT)
      && HeadersOnly(old(a.nextSlot), old(a.nextFree), a.nextSlot, a.nextFree, Starts(a.slots))
    ensures !NoneFree(old(a.slots)) && !TopFree(old(a.slots)) && a.arenaBrk != old(a.arenaBrk) && ptr != 0 ==>
      && ptr == old(a.slots)[LastFree(old(a.slots))].start + UNIT
      && (NoneLost(old(a.slots)) ==> OverlapsLive(old(a.slots), ptr - UNIT, ptr - UNIT + Units(size) * UNIT))
  {
    hide HeapShape, Take, FirstFit, Extended, Units, Shaped, AlignUp, Behind, LastFree, NoneFree, OnlyLostAbove;
    ghost var h := Arranged(a);
    ShapeIsSound(a.slots, a.firstSlot, a.arenaBrk, a.nextSlot, a.nextFree, a.freeAnchor);
    ptr := a.Alloc(size);
    c := Refused(size);
    if NoneFree(h.slots) || TopFree(h.slots) || a.arenaBrk == h.brk {
      UnitsPositive(size);
      if Units(size) <= MAX_UNITS {
        FitOrNot(h, Units(size));
        if FirstFit(h.slots, Units(size), 0).At? {
          c := Allocated(size);
          TakeStart(h.slots, NewIndex(h, c), Units(size));
        } else if NoneFree(h.slots) {
          c := AfterGrowth(h, Arranged(a), size, ptr, a);
        } else if TopFree(h.slots) {
          c := AfterTopping(h, size, ptr, a);
        }
      }
    } else {
      UnitsPositive(size);
      FitOrNot(h, Units(size));
      Overlapping(h, size);
    }
  }

  // A client's handle is the pointer it was given, or zero after giving it back.
  datatype Request = Want(size: u32) | GiveBack(handle: nat)

  ghost predicate Held(slots: seq<Slot>, ptr: int) {
    exists i :: 0 <= i < |slots| && HoldsAt(slots, i, ptr)
  }

  ghost predicate HoldsAt(slots: seq<Slot>, i: nat, ptr: int)
    requires i < |slots|
  {
    slots[i].LiveSlot? && slots[i].start == ptr - UNIT
  }

  /** The pointers not given back are exactly those of the live blocks, and no two are the same. */
  ghost predicate HandlesLive(slots: seq<Slot>, handles: seq<int>) {
    && (forall k :: 0 <= k < |handles| && handles[k] != 0 ==> Held(slots, handles[k]))
    && (forall j, k :: 0 <= j < k < |handles| && handles[j] != 0 ==> handles[j] != handles[k])
    && (forall i :: 0 <= i < |slots| && slots[i].LiveSlot? ==> slots[i].start + UNIT in handles)
  }

  ghost predicate StartsOne(live: set<(int, int)>, start: int) {
    exists b :: b in live && b.0 == start
  }

  lemma HeldIsLive(slots: seq<Slot>, ptr: int)
    ensures Held(slots, ptr) <==> StartsOne(Live(slots), ptr - UNIT)
  {
    if Held(slots, ptr) {
      var i :| 0 <= i < |slots| && HoldsAt(slots, i, ptr);
      LiveMember(slots, i);
    }
    if b :| b in Live(slots) && b.0 == ptr - UNIT {
      var i :| 0 <= i < |slots| && slots[i].LiveSlot? && b == (slots[i].start, slots[i].end);
      assert HoldsAt(slots, i, ptr);
    }
  }

  lemma LiveHasHandle(slots: seq<Slot>, handles: seq<int>, b: (int, int))
    requires HandlesLive(slots, handles) && b in Live(slots)
    ensures b.0 + UNIT in handles
  {
    var i :| 0 <= i < |slots| && slots[i].LiveSlot? && b == (slots[i].start, slots[i].end);
  }

  lemma AllocationKeepsHandles(h: Arrangement, c: Call, h': Arrangement, handles: seq<int>, ptr: int)
    requires Sound(h) && Does(h, c, h') && HandlesLive(h.slots, handles) && !c.Freed?
    requires ptr != 0 <==> HandsOut(c)
    requires ptr != 0 ==> var k := NewIndex(h, c); k < |h'.slots| && ptr == h'.slots[k].start + UNIT
    ensures HandlesLive(h'.slots, handles + [ptr])
  {
    hide Shaped, Take, FirstFit, Live, Units, Does, Held;
    CallKeepsSound(h, c, h');
    CallChangesOneBlock(h, c, h');
    var more := handles + [ptr];
    if ptr != 0 {
      var n := NewIndex(h, c);
      HeldIsLive(h'.slots, ptr);
      assert (h'.slots[n].start, h'.slots[n].end) in Live(h'.slots);
      forall k | 0 <= k < |handles| && handles[k] != 0 ensures handles[k] != ptr {
        HeldIsLive(h.slots, handles[k]);
        NewHandleDiffers(h, h', n, handles[k]);
      }
    }
    forall k | 0 <= k < |handles| && handles[k] != 0 ensures Held(h'.slots, handles[k]) {
      HeldIsLive(h.slots, handles[k]);
      HeldIsLive(h'.slots, handles[k]);
    }
    forall i: nat | i < |h'.slots| && h'.slots[i].LiveSlot? ensures h'.slots[i].start + UNIT in more {
      var b := (h'.slots[i].start, h'.slots[i].end);
      LiveMember(h'.slots, i);
      if b in Live(h.slots) {
        LiveHasHandle(h.slots, handles, b);
      } else {
        assert ptr == b.0 + UNIT && ptr == more[|handles|];
      }
    }
  }

  lemma NewHandleDiffers(h: Arrangement, h': Arrangement, n: nat, ptr: int)
    requires Sound(h') && n < |h'.slots| && Live(h.slots) <= Live(h'.slots)
    requires (h'.slots[n].start, h'.slots[n].end) !in Live(h.slots) && StartsOne(Live(h.slots), ptr - UNIT)
    ensures ptr != h'.slots[n].start + UNIT
  {
    hide OnUnit;
    var b :| b in Live(h.slots) && b.0 == ptr - UNIT;
    assert b in Live(h'.slots);
    var j :| 0 <= j < |h'.slots| && h'.slots[j].LiveSlot? && b == (h'.slots[j].start, h'.slots[j].end);
    if j != n {
      StartsDistinct(h'.slots, h'.first, h'.brk, j, n);
    }
  }

  lemma OneStart(h: Arrangement, b: (int, int), i: nat)
    requires Sound(h) && b in Live(h.slots) && i < |h.slots| && b != (h.slots[i].start, h.slots[i].end)
    ensures b.0 != h.slots[i].start
  {
    var j :| 0 <= j < |h.slots| && h.slots[j].LiveSlot? && b == (h.slots[j].start, h.slots[j].end);
    StartsDistinct(h.slots, h.first, h.brk, i, j);
  }

  lemma ReleaseKeepsHandles(h: Arrangement, i: nat, h': Arrangement, handles: seq<int>, k: nat)
    requires Sound(h) && Does(h, Freed(i), h') && HandlesLive(h.slots, handles)
    requires k < |handles| && handles[k] != 0 && i < |h.slots| && HoldsAt(h.slots, i, handles[k])
    ensures HandlesLive(h'.slots, handles[k := 0])
  {
    hide Shaped, Release, Live, Held, Does;
    CallChangesOneBlock(h, Freed(i), h');
    forall j | 0 <= j < |handles| && handles[j] != 0 && j != k ensures Held(h'.slots, handles[j]) {
      HeldIsLive(h.slots, handles[j]);
      HeldIsLive(h'.slots, handles[j]);
      assert handles[j] != handles[k];
    }
    CallKeepsSound(h, Freed(i), h');
    forall m: nat | m < |h'.slots| && h'.slots[m].LiveSlot? ensures h'.slots[m].start + UNIT in handles[k := 0] {
      var b := (h'.slots[m].start, h'.slots[m].end);
      LiveMember(h'.slots, m);
      LiveHasHandle(h.slots, handles, b);
      OneStart(h, b, i);
      var n :| 0 <= n < |handles| && handles[n] == b.0 + UNIT;
      assert handles[k := 0][n] == b.0 + UNIT;
    }
  }

  lemma AnchorOfList(slots: seq<Slot>, first: int, brk: int, nextSlot: map<int, int>,
                     nextFree: map<int, int>, anchor: int)
    requires HeapShape(slots, first, brk, nextSlot, nextFree, anchor)
    ensures anchor == 0 <==> NoneFree(slots)
  {
    hide FreeList;
    NodesPositive(slots, first, brk);
    NoneInList(slots);
  }

  lemma NoHandles()
    ensures HandlesLive([], [])
  {
  }

  lemma FreedDoes(h: Arrangement, i: nat)
    requires i < |h.slots| && h.slots[i].LiveSlot?
    ensures Does(h, Freed(i), h.(slots := Release(h.slots, i)))
  {
  }

  /** The last node of the free list, or zero. */
  method TopNode(a: Allocator) returns (last: int)
    requires a.Valid()
    ensures last == LastNode(FreeList(a.slots))
  {
    hide FreeList, Walkable, HeapShape;
    HeapWalkable(a.slots, a.firstSlot, a.arenaBrk, a.nextSlot, a.nextFree, a.freeAnchor);
    WalkStarts(a.slots, a.nextSlot, a.nextFree, a.freeAnchor);
    var curr := a.freeAnchor;
    ghost var k := FreeIndex(a.slots, 0);
    last := 0;
    while curr != 0
      invariant k <= |a.slots| && FreeIndex(a.slots, k) == k
      invariant curr == StartOf(a.slots, k) && last == LastNode(FreeList(a.slots[..k]))
      decreases |a.slots| - k
    {
      StandingAt(a.slots, a.nextSlot, a.nextFree, a.freeAnchor, k);
      last, curr := curr, a.FreeAfter(curr);
      k := FreeIndex(a.slots, k + 1);
    }
    assert a.slots[..k] == a.slots;
  }

  ghost predicate AnyAbove(handles: seq<int>, last: int) {
    exists k :: 0 <= k < |handles| && handles[k] - UNIT > last
  }

  method FindAbove(handles: seq<int>, last: int) returns (found: bool)
    ensures found <==> AnyAbove(handles, last)
  {
    for k := 0 to |handles|
      invariant forall i :: 0 <= i < k ==> handles[i] - UNIT <= last
    {
      if handles[k] - UNIT > last {
        return true;
      }
    }
    return false;
  }

  lemma HeldIndex(slots: seq<Slot>, handles: seq<int>, k: nat) returns (i: nat)
    requires HandlesLive(slots, handles) && k < |handles| && handles[k] != 0
    ensures i < |slots| && HoldsAt(slots, i, handles[k])
  {
    i :| 0 <= i < |slots| && HoldsAt(slots, i, handles[k]);
  }

  lemma HandleAbove(h: Arrangement, handles: seq<int>, j: nat, k: nat)
    requires Sound(h) && HandlesLive(h.slots, handles) && j < |h.slots| && k < |handles|
    requires handles[k] - UNIT > h.slots[j].start
    ensures !OnlyLostAbove(h.slots, j)
  {
    hide Shaped, Tiled, HandlesLive;
    UnshapedFacts(h);
    Bounds(h.slots, h.first, h.brk, j);
    var i := HeldIndex(h.slots, handles, k);
    Bounds(h.slots, h.first, h.brk, i);
    if i < j {
      Ordered(h.slots, h.first, h.brk, i, j);
    }
    assert !h.slots[i].LostSlot?;
  }

  lemma LiveAbove(h: Arrangement, handles: seq<int>, j: nat, i: nat)
    requires Sound(h) && HandlesLive(h.slots, handles) && j < i < |h.slots| && h.slots[i].LiveSlot?
    ensures AnyAbove(handles, h.slots[j].start)
  {
    hide Shaped, Tiled;
    UnshapedFacts(h);
    Bounds(h.slots, h.first, h.brk, j);
    Ordered(h.slots, h.first, h.brk, j, i);
    var k :| 0 <= k < |handles| && handles[k] == h.slots[i].start + UNIT;
  }

  /** With free slots, something in use lies above the last one exactly when a handle does. */
  lemma HandleAboveTop(h: Arrangement, handles: seq<int>)
    requires Sound(h) && HandlesLive(h.slots, handles) && !NoneFree(h.slots)
    ensures TopFree(h.slots) <==> !AnyAbove(handles, LastNode(FreeList(h.slots)))
    ensures LastNode(FreeList(h.slots)) != 0
  {
    hide FreeList, Shaped, HandlesLive;
    var j := LastFree(h.slots);
    LastNodeIsLastFree(h.slots);
    TopPositive(h, j);
    if !OnlyLostAbove(h.slots, j) {
      var i :| j < i < |h.slots| && !h.slots[i].LostSlot?;
      LiveAbove(h, handles, j, i);
    }
    if AnyAbove(handles, h.slots[j].start) {
      var k :| 0 <= k < |handles| && handles[k] - UNIT > h.slots[j].start;
      HandleAbove(h, handles, j, k);
    }
  }

  lemma TopPositive(h: Arrangement, j: nat)
    requires Sound(h) && j < |h.slots|
    ensures h.slots[j].start > 0
  {
    Bounds(h.slots, h.first, h.brk, j);
  }

  lemma RunStarts()
    ensures IsRun([Arrangement(0, 0, [])], [])
  {
  }

  lemma RunExtends(states: seq<Arrangement>, calls: seq<Call>, c: Call, h: Arrangement)
    requires IsRun(states, calls) && Does(states[|calls|], c, h)
    ensures |states| == |calls| + 1 && IsRun(states + [h], calls + [c])
  {
    hide Does;
  }

  /** Serves requests from an empty heap until one grows the arena below a block in use. Up to then
      the heap goes through the described calls only, and the pointers handed out and not given back
      are exactly those of the live blocks. */
  method Serve(a: Allocator, requests: seq<Request>)
    returns (handles: seq<int>, clean: bool, ghost states: seq<Arrangement>, ghost calls: seq<Call>)
    requires a.Valid() && Arranged(a) == Arrangement(0, 0, [])
    modifies a
    ensures IsRun(states, calls) && |states| == |calls| + 1
    ensures clean ==> a.Valid() && states[|calls|] == Arranged(a) && HandlesLive(a.slots, handles)
    ensures !clean ==> !NoneFree(states[|calls|].slots) && !TopFree(states[|calls|].slots)
  {
    hide HeapShape, HandlesLive, Does, Held, FreeList, TopFree, NoneFree, AnyAbove, IsRun, Sound;
    handles, states, calls, clean := [], [Arranged(a)], [], true;
    NoHandles();
    RunStarts();
    var n := 0;
    while n < |requests|
      invariant n <= |requests| && clean
      invariant a.Valid() && IsRun(states, calls) && |states| == |calls| + 1 && states[|calls|] == Arranged(a)
      invariant HandlesLive(a.slots, handles)
    {
      ghost var h := Arranged(a);
      ShapeIsSound(a.slots, a.firstSlot, a.arenaBrk, a.nextSlot, a.nextFree, a.freeAnchor);
      match requests[n] {
        case Want(size) =>
          AnchorOfList(a.slots, a.firstSlot, a.arenaBrk, a.nextSlot, a.nextFree, a.freeAnchor);
          var wasEmpty, brk := a.freeAnchor == 0, a.arenaBrk;
          var last := TopNode(a);
          var above := FindAbove(handles, last);
          if !wasEmpty {
            HandleAboveTop(h, handles);
          }
          var ptr;
          ghost var c;
          ptr, c := Allocate(a, size);
          clean := wasEmpty || !above || a.arenaBrk == brk;
          if !clean {
            return;
          }
          AllocationKeepsHandles(h, c, Arranged(a), handles, ptr);
          RunExtends(states, calls, c, Arranged(a));
          handles, states, calls := handles + [ptr], states + [Arranged(a)], calls + [c];
        case GiveBack(k) =>
          if k < |handles| && handles[k] != 0 {
            ghost var i := HeldIndex(a.slots, handles, k);
            a.Free(handles[k], i);
            FreedDoes(h, i);
            ReleaseKeepsHandles(h, i, Arranged(a), handles, k);
            RunExtends(states, calls, Freed(i), Arranged(a));
            handles, states, calls := handles[k := 0], states + [Arranged(a)], calls + [Freed(i)];
          }
      }
      n := n + 1;
    }
  }

  // ---------- The round trip ----------

  /** The slots determine the anchor, the links of the free list and the headers. */
  lemma ShapeDetermines(slots: seq<Slot>, first: int, brk: int, nextSlot: map<int, int>,
                        nextFree: map<int, int>, anchor: int,
                        nextSlot': map<int, int>, nextFree': map<int, int>, anchor': int)
    requires HeapShape(slots, first, brk, nextSlot, nextFree, anchor)
    requires HeapShape(slots, first, brk, nextSlot', nextFree', anchor')
    ensures anchor' == anchor
    ensures forall n :: n in FreeList(slots) ==> n in nextFree && n in nextFree' && nextFree'[n] == nextFree[n]
    ensures forall i :: 0 <= i < |slots| && !slots[i].LostSlot? ==>
      slots[i].start in nextSlot && slots[i].start in nextSlot' && nextSlot'[slots[i].start] == nextSlot[slots[i].start]
  {
    hide FreeList, Shaped;
    assert forall i :: 0 <= i < |slots| ==> EndHolds(slots[i], nextSlot) && EndHolds(slots[i], nextSlot');
  }

  /** Allocating without growth and freeing the result leaves the slots, the anchor, every link of
      the free list and every header as they were. */
  method AllocThenFree(a: Allocator, size: u32)
    requires a.Valid() && Units(size) <= MAX_UNITS && FirstFit(a.slots, Units(size), 0).At?
    modifies a
    ensures a.Valid() && Arranged(a) == old(Arranged(a)) && a.freeAnchor == old(a.freeAnchor)
    ensures forall n :: n in FreeList(a.slots) ==> n in a.nextFree && a.FreeAfter(n) == old(a.FreeAfter(n))
    ensures forall i :: 0 <= i < |a.slots| && !a.slots[i].LostSlot? ==>
      a.slots[i].start in a.nextSlot && a.EndOf(a.slots[i].start) == old(a.EndOf(a.slots[i].start))
  {
    hide FreeList, FirstFit, Units, HeapShape, Shaped, Take, Release;
    ghost var h, units := Arranged(a), Units(size);
    ghost var nextSlot0, nextFree0, anchor0 := a.nextSlot, a.nextFree, a.freeAnchor;
    ghost var k := FirstFit(a.slots, units, 0).index;
    UnitsPositive(size);
    ShapeFacts(h.slots, h.first, h.brk, nextSlot0, nextFree0, anchor0, units);
    TakeThenRelease(h.slots, h.first, h.brk, k, units);
    TakeStart(h.slots, k, units);
    TakeAddsOne(h.slots, k, units);
    var ptr := a.Alloc(size);
    a.Free(ptr, k);
    ShapeDetermines(h.slots, h.first, h.brk, nextSlot0, nextFree0, anchor0, a.nextSlot, a.nextFree, a.freeAnchor);
  }
}
