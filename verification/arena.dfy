/** The allocator on values: an arena tiled by slots, first fit with splitting, and release with
    coalescing on both sides. */
module Arena {
  import opened Words

  const UNIT := 8
  const PAGE := 4096
  const MAX_UNITS := 0xFF_FFFF

  // A slot spans [start, end); its header is the first unit.
  // Lost space belongs to the arena, but no header covers it: growth behind a free slot leaves it.
  datatype Slot =
    | FreeSlot(start: int, end: int)
    | LiveSlot(start: int, end: int)
    | LostSlot(start: int, end: int)

  /** Units taken by a request: the rounded size plus one for the header. The rounding wraps. */
  function Units(size: u32): nat {
    AlignWord(size, UNIT) / UNIT + 1
  }

  predicate OnUnit(x: int) {
    x % UNIT == 0
  }

  predicate SlotFits(s: Slot) {
    s.start < s.end && OnUnit(s.start) && OnUnit(s.end)
  }

  /** Slots follow each other without gaps from `first` to `brk`, on unit boundaries. */
  ghost predicate Tiled(slots: seq<Slot>, first: int, brk: int) {
    && (forall i :: 0 <= i < |slots| ==> SlotFits(slots[i]))
    && (forall i :: 0 < i < |slots| ==> slots[i - 1].end == slots[i].start)
    && (if |slots| == 0 then first == brk else slots[0].start == first && slots[|slots| - 1].end == brk)
  }

  ghost predicate Coalesced(slots: seq<Slot>) {
    forall i :: 0 < i < |slots| ==> !(slots[i - 1].FreeSlot? && slots[i].FreeSlot?)
  }

  ghost predicate Shaped(slots: seq<Slot>, first: int, brk: int) {
    Tiled(slots, first, brk) && Coalesced(slots)
  }

  datatype Fit = At(index: nat) | NoFit | Wraps

  /** The first free slot from `i` on with room for `units`. The source gives up when the end of
      the wanted block wraps. */
  function FirstFit(slots: seq<Slot>, units: nat, i: nat): (r: Fit)
    ensures r.At? ==> i <= r.index < |slots| && slots[r.index].FreeSlot?
    ensures r.At? ==> slots[r.index].end >= Wrap(slots[r.index].start + units * UNIT)
    decreases |slots| - i
  {
    if i >= |slots| then NoFit
    else if !slots[i].FreeSlot? then FirstFit(slots, units, i + 1)
    else
      var newSlot := Wrap(slots[i].start + units * UNIT);
      if newSlot <= slots[i].start then Wraps
      else if slots[i].end < newSlot then FirstFit(slots, units, i + 1)
      else At(i)
  }

  /** Hands out `units` from slot `i`, splitting when more than one unit would be left over. */
  function Take(slots: seq<Slot>, i: nat, units: nat): seq<Slot>
    requires i < |slots|
  {
    var s := slots[i];
    var cut := s.start + units * UNIT;
    if s.end > cut + UNIT then slots[..i] + [LiveSlot(s.start, cut), FreeSlot(cut, s.end)] + slots[i + 1..]
    else slots[i := LiveSlot(s.start, s.end)]
  }

  function JoinsLeft(slots: seq<Slot>, i: nat): bool
    requires i < |slots|
  {
    i > 0 && slots[i - 1].FreeSlot?
  }

  function JoinsRight(slots: seq<Slot>, i: nat): bool
    requires i < |slots|
  {
    i + 1 < |slots| && slots[i + 1].FreeSlot?
  }

  /** Frees slot `i` and merges it with free neighbours. */
  function Release(slots: seq<Slot>, i: nat): seq<Slot>
    requires i < |slots|
  {
    var lo := if JoinsLeft(slots, i) then i - 1 else i;
    var hi := if JoinsRight(slots, i) then i + 1 else i;
    slots[..lo] + [FreeSlot(slots[lo].start, slots[hi].end)] + slots[hi + 1..]
  }

  function Extended(slots: seq<Slot>, brk: int, newBrk: int): seq<Slot> {
    slots + [FreeSlot(brk, newBrk)]
  }

  predicate NoneFree(slots: seq<Slot>) {
    forall i :: 0 <= i < |slots| ==> !slots[i].FreeSlot?
  }

  predicate NoneLost(slots: seq<Slot>) {
    forall i :: 0 <= i < |slots| ==> !slots[i].LostSlot?
  }

  function LastFree(slots: seq<Slot>): (j: nat)
    requires !NoneFree(slots)
    ensures j < |slots| && slots[j].FreeSlot?
    ensures forall k :: j < k < |slots| ==> !slots[k].FreeSlot?
  {
    if slots[|slots| - 1].FreeSlot? then |slots| - 1
    else
      assert !NoneFree(slots[..|slots| - 1]) by {
        var i :| 0 <= i < |slots| && slots[i].FreeSlot?;
        assert slots[..|slots| - 1][i] == slots[i];
      }
      LastFree(slots[..|slots| - 1])
  }

  /** Nothing in use lies above slot `j`. */
  predicate OnlyLostAbove(slots: seq<Slot>, j: nat) {
    forall k :: j < k < |slots| ==> slots[k].LostSlot?
  }

  /** A growth behind the topmost slot `j`: the slot reaches up to the old break, and the new pages
      are lost until the next such growth. */
  function Behind(slots: seq<Slot>, j: nat, brk: int, newBrk: int): seq<Slot>
    requires j < |slots|
  {
    slots[..j] + [FreeSlot(slots[j].start, brk), LostSlot(brk, newBrk)]
  }

  /** There is a free slot, and nothing in use lies above the last one. */
  predicate TopFree(slots: seq<Slot>) {
    !NoneFree(slots) && OnlyLostAbove(slots, LastFree(slots))
  }

  // ---------- Shape ----------

  lemma {:induction false} Ordered(slots: seq<Slot>, first: int, brk: int, i: nat, j: nat)
    requires Tiled(slots, first, brk) && i < j < |slots|
    ensures slots[i].end <= slots[j].start
    decreases j
  {
    if i < j - 1 {
      Ordered(slots, first, brk, i, j - 1);
    }
  }

  lemma Bounds(slots: seq<Slot>, first: int, brk: int, i: nat)
    requires Tiled(slots, first, brk) && i < |slots|
    ensures first <= slots[i].start < slots[i].end <= brk
  {
    if i > 0 {
      Ordered(slots, first, brk, 0, i);
    }
    if i + 1 < |slots| {
      Ordered(slots, first, brk, i, |slots| - 1);
    }
  }

  /** Below the user-space limit a block's end never wraps. */
  lemma {:induction false} NeverWraps(slots: seq<Slot>, first: int, brk: int, units: nat, i: nat)
    requires Tiled(slots, first, brk) && 0 <= first && brk <= 0xC000_0000 && 0 < units <= MAX_UNITS
    ensures !FirstFit(slots, units, i).Wraps?
    decreases |slots| - i
  {
    hide OnUnit, Tiled;
    if i < |slots| {
      Bounds(slots, first, brk, i);
      NeverWraps(slots, first, brk, units, i + 1);
    }
  }

  /** First fit: the chosen slot is free and large enough, every free slot below it is too small,
      and there is no answer exactly when no free slot is large enough. */
  lemma {:induction false} FirstFitIsLowest(slots: seq<Slot>, first: int, brk: int, units: nat, i: nat)
    requires Tiled(slots, first, brk) && 0 <= first && brk <= 0xC000_0000 && 0 < units <= MAX_UNITS && i <= |slots|
    ensures
      var r := FirstFit(slots, units, i);
      var end := if r.At? then r.index else |slots|;
      && (r.At? ==> slots[r.index].FreeSlot? && slots[r.index].end - slots[r.index].start >= units * UNIT)
      && (forall j :: i <= j < end && slots[j].FreeSlot? ==> slots[j].end - slots[j].start < units * UNIT)
    decreases |slots| - i
  {
    hide OnUnit, Tiled;
    if i < |slots| {
      Bounds(slots, first, brk, i);
      FirstFitIsLowest(slots, first, brk, units, i + 1);
    }
  }

  lemma SplitTiled(slots: seq<Slot>, first: int, brk: int, i: nat)
    requires Tiled(slots, first, brk) && i < |slots|
    ensures Tiled(slots[..i], first, slots[i].start) && Tiled(slots[i + 1..], slots[i].end, brk)
  {
    hide OnUnit;
  }

  lemma JoinTiled(a: seq<Slot>, b: seq<Slot>, first: int, mid: int, brk: int)
    requires Tiled(a, first, mid) && Tiled(b, mid, brk)
    ensures Tiled(a + b, first, brk)
  {
    hide OnUnit;
    var c := a + b;
    assert forall i :: 0 <= i < |a| ==> c[i] == a[i];
    assert forall i :: |a| <= i < |c| ==> c[i] == b[i - |a|];
  }

  /** Replacing a stretch of slots by others covering the same span keeps the arena tiled. */
  lemma ReplaceTiled(slots: seq<Slot>, first: int, brk: int, lo: nat, hi: nat, mid: seq<Slot>)
    requires Tiled(slots, first, brk) && lo <= hi < |slots| && Tiled(mid, slots[lo].start, slots[hi].end)
    ensures Tiled(slots[..lo] + mid + slots[hi + 1..], first, brk)
  {
    hide Tiled;
    SplitTiled(slots, first, brk, lo);
    SplitTiled(slots, first, brk, hi);
    JoinTiled(slots[..lo], mid, first, slots[lo].start, slots[hi].end);
    JoinTiled(slots[..lo] + mid, slots[hi + 1..], first, slots[hi].end, brk);
  }

  lemma TakeShaped(slots: seq<Slot>, first: int, brk: int, i: nat, units: nat)
    requires Shaped(slots, first, brk) && i < |slots| && slots[i].FreeSlot?
    requires 0 < units && slots[i].start + units * UNIT <= slots[i].end
    ensures Shaped(Take(slots, i, units), first, brk)
  {
    hide OnUnit;
    var s := slots[i];
    var cut := s.start + units * UNIT;
    UnitsAway(s.start, units);
    var mid := if s.end > cut + UNIT then [LiveSlot(s.start, cut), FreeSlot(cut, s.end)]
               else [LiveSlot(s.start, s.end)];
    assert Take(slots, i, units) == slots[..i] + mid + slots[i + 1..];
    ReplaceTiled(slots, first, brk, i, i, mid);
    TakeCoalesced(slots, i, units);
  }

  lemma ShapedIsTiled(slots: seq<Slot>, first: int, brk: int)
    requires Shaped(slots, first, brk)
    ensures Tiled(slots, first, brk)
  {
  }

  lemma UnitsAway(x: int, units: nat)
    requires OnUnit(x)
    ensures OnUnit(x + units * UNIT)
  {
  }

  lemma TakeCoalesced(slots: seq<Slot>, i: nat, units: nat)
    requires Coalesced(slots) && i < |slots| && slots[i].FreeSlot?
    ensures Coalesced(Take(slots, i, units))
  {
    var t := Take(slots, i, units);
    var shift := |t| - |slots|;
    assert forall k :: 0 <= k < i ==> t[k] == slots[k];
    assert forall k :: i + shift < k < |t| ==> t[k] == slots[k - shift];
  }

  lemma ReleaseShaped(slots: seq<Slot>, first: int, brk: int, i: nat)
    requires Shaped(slots, first, brk) && i < |slots| && slots[i].LiveSlot?
    ensures Shaped(Release(slots, i), first, brk)
  {
    hide OnUnit;
    var lo := if JoinsLeft(slots, i) then i - 1 else i;
    var hi := if JoinsRight(slots, i) then i + 1 else i;
    ReplaceTiled(slots, first, brk, lo, hi, [FreeSlot(slots[lo].start, slots[hi].end)]);
    ReleaseCoalesced(slots, i);
  }

  lemma ReleaseCoalesced(slots: seq<Slot>, i: nat)
    requires Coalesced(slots) && i < |slots| && slots[i].LiveSlot?
    ensures Coalesced(Release(slots, i))
  {
    var lo := if JoinsLeft(slots, i) then i - 1 else i;
    var hi := if JoinsRight(slots, i) then i + 1 else i;
    var r := Release(slots, i);
    assert forall k :: 0 <= k < lo ==> r[k] == slots[k];
    assert forall k :: lo < k < |r| ==> r[k] == slots[k + hi - lo];
  }

  lemma ExtendedShaped(slots: seq<Slot>, first: int, brk: int, newBrk: int)
    requires Shaped(slots, first, brk) && NoneFree(slots)
    requires brk < newBrk && OnUnit(brk) && OnUnit(newBrk)
    ensures Shaped(Extended(slots, brk, newBrk), first, newBrk)
  {
  }

  /** Alloc/free round trip: releasing the slot just taken restores every slot. */
  lemma TakeThenRelease(slots: seq<Slot>, first: int, brk: int, i: nat, units: nat)
    requires Shaped(slots, first, brk) && i < |slots| && slots[i].FreeSlot?
    requires 0 < units && slots[i].start + units * UNIT <= slots[i].end
    ensures i < |Take(slots, i, units)| && Release(Take(slots, i, units), i) == slots
  {
    var t := Take(slots, i, units);
    assert i > 0 ==> !slots[i - 1].FreeSlot?;
    assert i + 1 < |slots| ==> !slots[i + 1].FreeSlot?;
  }

  /** A growth behind the topmost free slot keeps the arena's shape. */
  lemma BehindShaped(slots: seq<Slot>, first: int, brk: int, j: nat, newBrk: int)
    requires Shaped(slots, first, brk) && j < |slots| && slots[j].FreeSlot?
    requires brk < newBrk && OnUnit(brk) && OnUnit(newBrk)
    ensures Shaped(Behind(slots, j, brk, newBrk), first, newBrk)
  {
    hide OnUnit;
    Bounds(slots, first, brk, j);
    SplitTiled(slots, first, brk, j);
    var top := [FreeSlot(slots[j].start, brk), LostSlot(brk, newBrk)];
    assert Tiled(top, slots[j].start, newBrk);
    JoinTiled(slots[..j], top, first, slots[j].start, newBrk);
  }

  lemma BehindLast(slots: seq<Slot>, j: nat, brk: int, newBrk: int)
    requires j < |slots|
    ensures var b := Behind(slots, j, brk, newBrk);
      && |b| == j + 2 && b[j] == FreeSlot(slots[j].start, brk)
      && TopFree(b) && LastFree(b) == j
  {
    var b := Behind(slots, j, brk, newBrk);
    assert b[j].FreeSlot? && b[j + 1].LostSlot?;
  }

  /** No live block is touched by a growth behind a slot with nothing in use above it. */
  lemma BehindLive(slots: seq<Slot>, j: nat, brk: int, newBrk: int)
    requires j < |slots| && slots[j].FreeSlot? && OnlyLostAbove(slots, j)
    ensures Live(Behind(slots, j, brk, newBrk)) == Live(slots)
  {
    var b := Behind(slots, j, brk, newBrk);
    forall x | x in Live(slots) ensures x in Live(b) {
      var k :| 0 <= k < |slots| && slots[k].LiveSlot? && x == (slots[k].start, slots[k].end);
      assert b[k] == slots[k];
      LiveMember(b, k);
    }
    forall x | x in Live(b) ensures x in Live(slots) {
      var k :| 0 <= k < |b| && b[k].LiveSlot? && x == (b[k].start, b[k].end);
      assert b[k] == slots[k];
      LiveMember(slots, k);
    }
  }

  /** A growth behind slot `j` makes at most slot `j` fit. */
  lemma OnlyTopFits(slots: seq<Slot>, first: int, brk: int, j: nat, newBrk: int, units: nat)
    requires Shaped(slots, first, brk) && j < |slots| && slots[j].FreeSlot? && 0 <= first
    requires brk < newBrk <= 0xC000_0000 && OnUnit(brk) && OnUnit(newBrk)
    requires 0 < units <= MAX_UNITS && FirstFit(slots, units, 0).NoFit?
    ensures
      var fit := FirstFit(Behind(slots, j, brk, newBrk), units, 0);
      (fit.NoFit? && brk - slots[j].start < units * UNIT) || fit == At(j)
  {
    hide OnUnit, Shaped, FirstFit;
    var b := Behind(slots, j, brk, newBrk);
    BehindShaped(slots, first, brk, j, newBrk);
    ShapedIsTiled(slots, first, brk);
    ShapedIsTiled(b, first, newBrk);
    NeverWraps(b, first, newBrk, units, 0);
    FirstFitIsLowest(slots, first, brk, units, 0);
    FirstFitIsLowest(b, first, newBrk, units, 0);
    assert forall k :: 0 <= k < j ==> b[k] == slots[k];
    assert b[j] == FreeSlot(slots[j].start, brk) && b[j + 1].LostSlot?;
  }

  /** After a first growth that did not help, a second one does: the slot takes over the pages of
      the first. */
  lemma SecondGrowthFits(slots: seq<Slot>, first: int, brk: int, j: nat, units: nat)
    requires Shaped(slots, first, brk) && j < |slots| && slots[j].FreeSlot? && OnUnit(brk) && 0 <= first
    requires 0 < units <= MAX_UNITS && brk + 2 * AlignUp(units * UNIT, PAGE) <= 0xC000_0000
    requires FirstFit(Behind(slots, j, brk, brk + AlignUp(units * UNIT, PAGE)), units, 0).NoFit?
    ensures
      var pages := AlignUp(units * UNIT, PAGE);
      var once := Behind(slots, j, brk, brk + pages);
      FirstFit(Behind(once, j, brk + pages, brk + 2 * pages), units, 0) == At(j)
  {
    hide OnUnit, AlignUp, Shaped, FirstFit;
    var pages := AlignUp(units * UNIT, PAGE);
    PagesOnUnits(brk, units * UNIT);
    PagesOnUnits(brk + pages, units * UNIT);
    PageRoom(units);
    ShapedIsTiled(slots, first, brk);
    Bounds(slots, first, brk, j);
    BehindShaped(slots, first, brk, j, brk + pages);
    var once := Behind(slots, j, brk, brk + pages);
    OnlyTopFits(once, first, brk + pages, j, brk + 2 * pages, units);
  }

  // ---------- Conservation and the live blocks ----------

  datatype Use = Free | Used | Lost

  function UseOf(s: Slot): Use {
    match s
    case FreeSlot(_, _) => Free
    case LiveSlot(_, _) => Used
    case LostSlot(_, _) => Lost
  }

  function SpanOf(slots: seq<Slot>, use: Use): int {
    if |slots| == 0 then 0
    else
      var last := slots[|slots| - 1];
      SpanOf(slots[..|slots| - 1], use) + if UseOf(last) == use then last.end - last.start else 0
  }

  /** Free, live and lost bytes are always the whole arena. */
  lemma {:induction false} Conservation(slots: seq<Slot>, first: int, brk: int)
    requires Tiled(slots, first, brk)
    ensures SpanOf(slots, Free) + SpanOf(slots, Used) + SpanOf(slots, Lost) == brk - first
  {
    if |slots| > 0 {
      var front := slots[..|slots| - 1];
      Conservation(front, first, slots[|slots| - 1].start);
    }
  }

  lemma {:induction false} NothingLost(slots: seq<Slot>)
    requires NoneLost(slots)
    ensures SpanOf(slots, Lost) == 0
  {
    if |slots| > 0 {
      NothingLost(slots[..|slots| - 1]);
    }
  }

  /** The live blocks: start and end of every slot in use. */
  function Live(slots: seq<Slot>): set<(int, int)> {
    set i | 0 <= i < |slots| && slots[i].LiveSlot? :: (slots[i].start, slots[i].end)
  }

  lemma LiveDisjoint(slots: seq<Slot>, first: int, brk: int, a: (int, int), b: (int, int))
    requires Tiled(slots, first, brk) && a in Live(slots) && b in Live(slots) && a != b
    ensures a.1 <= b.0 || b.1 <= a.0
  {
    var i :| 0 <= i < |slots| && slots[i].LiveSlot? && a == (slots[i].start, slots[i].end);
    var j :| 0 <= j < |slots| && slots[j].LiveSlot? && b == (slots[j].start, slots[j].end);
    if i < j {
      Ordered(slots, first, brk, i, j);
    } else {
      Ordered(slots, first, brk, j, i);
    }
  }

  lemma LiveMember(slots: seq<Slot>, i: nat)
    requires i < |slots| && slots[i].LiveSlot?
    ensures (slots[i].start, slots[i].end) in Live(slots)
  {
  }

  /** Allocation adds exactly the new block to the live blocks. */
  lemma TakeAddsOne(slots: seq<Slot>, i: nat, units: nat)
    requires i < |slots| && slots[i].FreeSlot?
    ensures i < |Take(slots, i, units)| && Take(slots, i, units)[i].LiveSlot?
    ensures var t := Take(slots, i, units);
      Live(t) == Live(slots) + {(t[i].start, t[i].end)}
  {
    var t := Take(slots, i, units);
    var shift := |t| - |slots|;
    forall b | b in Live(t) ensures b in Live(slots) + {(t[i].start, t[i].end)} {
      var k :| 0 <= k < |t| && t[k].LiveSlot? && b == (t[k].start, t[k].end);
      if k < i {
        LiveMember(slots, k);
      } else if k > i {
        assert t[k] == slots[k - shift];
        LiveMember(slots, k - shift);
      }
    }
    forall b | b in Live(slots) ensures b in Live(t) {
      var k :| 0 <= k < |slots| && slots[k].LiveSlot? && b == (slots[k].start, slots[k].end);
      if k < i {
        assert t[k] == slots[k];
        LiveMember(t, k);
      } else {
        assert t[k + shift] == slots[k];
        LiveMember(t, k + shift);
      }
    }
    LiveMember(t, i);
  }

  lemma StartsDistinct(slots: seq<Slot>, first: int, brk: int, i: nat, j: nat)
    requires Tiled(slots, first, brk) && i < |slots| && j < |slots| && i != j
    ensures slots[i].start != slots[j].start
  {
    if i < j {
      Ordered(slots, first, brk, i, j);
    } else {
      Ordered(slots, first, brk, j, i);
    }
  }

  /** Collapsing slots `lo` to `lo + shift`, all free but `i`, into one free slot. */
  lemma CollapseRemovesOne(slots: seq<Slot>, r: seq<Slot>, i: nat, lo: nat, shift: nat)
    requires lo <= i <= lo + shift < |slots| && |r| == |slots| - shift && slots[i].LiveSlot? && r[lo].FreeSlot?
    requires forall k :: 0 <= k < lo ==> r[k] == slots[k]
    requires forall k :: lo < k < |r| ==> r[k] == slots[k + shift]
    requires forall k :: lo <= k <= lo + shift && k != i ==> slots[k].FreeSlot?
    requires forall k :: 0 <= k < |slots| && k != i ==> slots[k].start != slots[i].start
    ensures Live(r) == Live(slots) - {(slots[i].start, slots[i].end)}
  {
    forall b | b in Live(r) ensures b in Live(slots) - {(slots[i].start, slots[i].end)} {
      var k :| 0 <= k < |r| && r[k].LiveSlot? && b == (r[k].start, r[k].end);
      LiveMember(slots, if k < lo then k else k + shift);
    }
    forall b | b in Live(slots) - {(slots[i].start, slots[i].end)} ensures b in Live(r) {
      var k :| 0 <= k < |slots| && slots[k].LiveSlot? && b == (slots[k].start, slots[k].end);
      LiveMember(r, if k < lo then k else k - shift);
    }
  }

  /** Release removes exactly the freed block from the live blocks. */
  lemma ReleaseRemovesOne(slots: seq<Slot>, first: int, brk: int, i: nat)
    requires Tiled(slots, first, brk) && i < |slots| && slots[i].LiveSlot?
    ensures Live(Release(slots, i)) == Live(slots) - {(slots[i].start, slots[i].end)}
  {
    hide Tiled, Live;
    forall k: nat | k < |slots| && k != i ensures slots[k].start != slots[i].start {
      StartsDistinct(slots, first, brk, k, i);
    }
    var lo := if JoinsLeft(slots, i) then i - 1 else i;
    CollapseRemovesOne(slots, Release(slots, i), i, lo, |slots| - |Release(slots, i)|);
  }

  /** A block has room for the request behind its header, exactly when the size does not wrap. */
  lemma UnitsHoldRequest(size: u32)
    ensures (Units(size) - 1) * UNIT >= size <==> size as int + UNIT - 1 < 0x1_0000_0000
  {
    AlignedToUnit(size);
    if size + UNIT - 1 < 0x1_0000_0000 {
      AlignWordIsAlignUp(size, UNIT);
    }
  }

  /** A request takes the fewest units that hold it, and one for the header. */
  lemma UnitsExact(size: u32)
    requires size as int + 7 < 0x1_0000_0000
    ensures 8 * (Units(size) - 1) - 8 < size <= 8 * (Units(size) - 1)
  {
    AlignWordIsAlignUp(size, UNIT);
    AlignedToUnit(size);
  }

  /** Requests above 2^27 - 16 bytes are too large. */
  lemma RequestLimit(size: u32)
    requires size as int + 7 < 0x1_0000_0000
    ensures Units(size) <= MAX_UNITS <==> size <= 0x800_0000 - 16
  {
    UnitsExact(size);
  }

  /** A growth takes the fewest whole pages. */
  lemma PagesExact(units: nat)
    ensures AlignUp(units * UNIT, PAGE) % 4096 == 0 && 0 <= AlignUp(units * UNIT, PAGE) - 8 * units < 4096
  {
    AlignedToPage(units * UNIT);
  }

  /** The block handed out begins where the slot did. It is as long as asked for, or one unit longer
      when exactly one more was there; anything longer is cut, and the rest stays free behind it. */
  lemma TakeExact(slots: seq<Slot>, i: nat, units: nat)
    requires i < |slots| && OnUnit(slots[i].start) && OnUnit(slots[i].end)
    requires slots[i].end >= slots[i].start + 8 * units
    ensures
      var s, t := slots[i], Take(slots, i, units);
      var room := s.end - s.start - 8 * units;
      && t[i].LiveSlot? && t[i].start == s.start && t[..i] == slots[..i]
      && t[i].end == (if room <= 8 then s.end else s.start + 8 * units)
      && (room <= 8 ==> room in {0, 8} && t[i + 1..] == slots[i + 1..])
      && (room > 8 ==> t[i + 1] == FreeSlot(t[i].end, s.end) && t[i + 2..] == slots[i + 1..])
  {
  }

  /** A release leaves one free slot from where the free space in front begins to where the one behind
      ends, and everything else as it was. */
  lemma ReleaseExact(slots: seq<Slot>, i: nat)
    requires i < |slots|
    ensures
      var lo := if i > 0 && slots[i - 1].FreeSlot? then i - 1 else i;
      var hi := if i + 1 < |slots| && slots[i + 1].FreeSlot? then i + 1 else i;
      && |Release(slots, i)| == |slots| - (hi - lo)
      && Release(slots, i)[lo] == FreeSlot(slots[lo].start, slots[hi].end)
      && (forall k :: 0 <= k < lo ==> Release(slots, i)[k] == slots[k])
      && (forall k :: lo < k < |Release(slots, i)| ==> Release(slots, i)[k] == slots[k + (hi - lo)])
  {
  }

  /** One growth by whole pages always makes room for the block that did not fit. */
  lemma GrowthSuffices(slots: seq<Slot>, first: int, brk: int, units: nat)
    requires Shaped(slots, first, brk) && NoneFree(slots) && 0 <= first && OnUnit(brk) && 0 < units <= MAX_UNITS
    requires brk + AlignUp(units * UNIT, PAGE) <= 0xC000_0000
    ensures FirstFit(Extended(slots, brk, brk + AlignUp(units * UNIT, PAGE)), units, 0) == At(|slots|)
  {
    hide OnUnit;
    var newBrk := brk + AlignUp(units * UNIT, PAGE);
    PagesOnUnits(brk, units * UNIT);
    ExtendedShaped(slots, first, brk, newBrk);
    FirstFitIsLowest(Extended(slots, brk, newBrk), first, newBrk, units, 0);
    NeverWraps(Extended(slots, brk, newBrk), first, newBrk, units, 0);
  }

  lemma PagesOnUnits(x: int, bytes: int)
    requires OnUnit(x)
    ensures OnUnit(x + AlignUp(bytes, PAGE))
  {
    hide AlignUp;
    AlignedToPage(bytes);
    var pages := AlignUp(bytes, PAGE) / PAGE;
    assert AlignUp(bytes, PAGE) == 8 * (512 * pages);
  }

  lemma PageRoom(units: nat)
    ensures AlignUp(units * UNIT, PAGE) >= units * UNIT
  {
  }
}
