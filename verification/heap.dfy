/** The allocator as it runs: slot headers and list links are rewritten in place. */
module Heap {
  import opened Words
  import opened Arena
  import opened FreeLists

  // No break above this address is granted to a user process on the target.
  const BRK_LIMIT := 0xC000_0000

  /** What the allocator's words must satisfy between calls: the slots tile the arena, free
      neighbours are merged, and the headers and the anchor spell out exactly these slots. */
  ghost predicate HeapShape(slots: seq<Slot>, first: int, brk: int, nextSlot: map<int, int>,
                            nextFree: map<int, int>, anchor: int) {
    && Shaped(slots, first, brk)
    && EndsHold(slots, nextSlot) && Chain(FreeList(slots), nextFree, anchor)
    && 0 <= first <= brk <= BRK_LIMIT && OnUnit(brk) && (first == 0 ==> brk == 0)
    && (forall a :: a in nextSlot ==> a < brk)
  }

  /** A slot sequence whose links can be walked, whether or not it tiles the arena. */
  ghost predicate Walkable(list: seq<Slot>, nextSlot: map<int, int>, nextFree: map<int, int>, anchor: int) {
    && EndsHold(list, nextSlot) && Chain(FreeList(list), nextFree, anchor)
    && (forall i :: 0 <= i < |list| ==> 0 < list[i].start < 0x1_0000_0000)
    && (forall i, j :: 0 <= i < j < |list| ==> list[i].start != list[j].start)
  }

  lemma HeapWalkable(slots: seq<Slot>, first: int, brk: int, nextSlot: map<int, int>,
                     nextFree: map<int, int>, anchor: int)
    requires HeapShape(slots, first, brk, nextSlot, nextFree, anchor)
    ensures Walkable(slots, nextSlot, nextFree, anchor)
  {
    forall i: nat | i < |slots| ensures 0 < slots[i].start < 0x1_0000_0000 {
      Bounds(slots, first, brk, i);
    }
    forall i: nat, j: nat | i < j < |slots| ensures slots[i].start != slots[j].start {
      StartsDistinct(slots, first, brk, i, j);
    }
  }

  lemma {:induction false} SkipUsed(slots: seq<Slot>, units: nat, i: nat)
    requires i <= |slots|
    ensures FirstFit(slots, units, i) == FirstFit(slots, units, FreeIndex(slots, i))
    decreases |slots| - i
  {
    if i < |slots| && !slots[i].FreeSlot? {
      SkipUsed(slots, units, i + 1);
    }
  }

  /** The address a walk holds when it stands at slot `k`: zero behind the last slot. */
  function StartOf(list: seq<Slot>, k: nat): int {
    if k < |list| then list[k].start else 0
  }

  lemma WalkStarts(list: seq<Slot>, nextSlot: map<int, int>, nextFree: map<int, int>, anchor: int)
    requires Walkable(list, nextSlot, nextFree, anchor)
    ensures var n := FreeIndex(list, 0);
      FreeIndex(list, n) == n && anchor == StartOf(list, n) && LastNode(FreeList(list[..n])) == 0
    ensures forall k :: 0 <= k < |list| ==> list[k].start != 0
  {
    hide FreeList;
    FirstNode(list);
  }

  /** Standing at a free slot: its header holds its end, and its link leads to the next free slot. */
  lemma StandingAt(list: seq<Slot>, nextSlot: map<int, int>, nextFree: map<int, int>, anchor: int, k: nat)
    requires Walkable(list, nextSlot, nextFree, anchor) && k < |list| && list[k].FreeSlot?
    ensures 0 < list[k].start < 0x1_0000_0000 && EndHolds(list[k], nextSlot)
    ensures var n := FreeIndex(list, k + 1);
      && FreeIndex(list, n) == n
      && list[k].start in nextFree && nextFree[list[k].start] == StartOf(list, n)
      && LastNode(FreeList(list[..n])) == list[k].start
  {
    hide FreeList;
    NodeOfSlot(list, k);
    UsedStretch(list, k + 1);
    ChainNext(FreeList(list), nextFree, anchor, |FreeList(list[..k])|);
  }

  // ---------- Which words are written ----------

  /** Starts of the slots that have a header. */
  function Starts(slots: seq<Slot>): set<int> {
    set i | 0 <= i < |slots| && !slots[i].LostSlot? :: slots[i].start
  }

  /** The words differ at these addresses only. */
  ghost predicate OnlyAt(words: map<int, int>, words': map<int, int>, at: set<int>) {
    forall a :: a !in at ==> (a in words' <==> a in words) && (a in words ==> words'[a] == words[a])
  }

  ghost predicate HeadersOnly(nextSlot: map<int, int>, nextFree: map<int, int>,
                              nextSlot': map<int, int>, nextFree': map<int, int>, at: set<int>) {
    OnlyAt(nextSlot, nextSlot', at) && OnlyAt(nextFree, nextFree', at)
  }

  lemma HeadersOnward(slot0: map<int, int>, free0: map<int, int>, slot1: map<int, int>, free1: map<int, int>,
                      slot2: map<int, int>, free2: map<int, int>, at: set<int>, more: set<int>)
    requires HeadersOnly(slot0, free0, slot1, free1, at) && HeadersOnly(slot1, free1, slot2, free2, more) && at <= more
    ensures HeadersOnly(slot0, free0, slot2, free2, more)
  {
  }

  lemma NoneWritten(nextSlot: map<int, int>, nextFree: map<int, int>, at: set<int>)
    ensures HeadersOnly(nextSlot, nextFree, nextSlot, nextFree, at)
  {
  }

  lemma SplitWritten(nextSlot: map<int, int>, nextFree: map<int, int>, curr: int, newSlot: int, end: int, link: int)
    ensures HeadersOnly(nextSlot, nextFree, nextSlot[newSlot := end][curr := newSlot],
                        nextFree[newSlot := link][curr := newSlot], {curr, newSlot})
  {
  }

  /** What a growth writes: the last free slot's end, or the header of the new pages. */
  lemma GrowthWritten(nextSlot: map<int, int>, nextFree: map<int, int>, at: int, end: int, starts: set<int>)
    requires at in starts
    ensures HeadersOnly(nextSlot, nextFree, nextSlot[at := end], nextFree, starts)
    ensures HeadersOnly(nextSlot, nextFree, nextSlot[at := end], nextFree[at := 0], starts)
  {
  }

  lemma StartMember(slots: seq<Slot>, k: nat)
    requires k < |slots| && !slots[k].LostSlot?
    ensures slots[k].start in Starts(slots)
  {
  }

  /** A take keeps every header and adds the one behind the cut. */
  lemma TakeStarts(slots: seq<Slot>, k: nat, units: nat)
    requires k < |slots| && slots[k].FreeSlot?
    ensures Starts(slots) <= Starts(Take(slots, k, units))
    ensures slots[k].end > slots[k].start + units * UNIT + UNIT ==>
      slots[k].start + units * UNIT in Starts(Take(slots, k, units))
  {
    var t := Take(slots, k, units);
    var shift := |t| - |slots|;
    forall i: nat | i < |slots| && !slots[i].LostSlot? ensures slots[i].start in Starts(t) {
      StartMember(t, if i <= k then i else i + shift);
    }
    if shift > 0 {
      StartMember(t, k + 1);
    }
  }

  lemma ExtendedStarts(slots: seq<Slot>, brk: int, newBrk: int)
    ensures Starts(Extended(slots, brk, newBrk)) == Starts(slots) + {brk}
  {
    var t := Extended(slots, brk, newBrk);
    forall a | a in Starts(slots) + {brk} ensures a in Starts(t) {
      if a in Starts(slots) {
        var i :| 0 <= i < |slots| && !slots[i].LostSlot? && a == slots[i].start;
        assert t[i] == slots[i];
        StartMember(t, i);
      } else {
        StartMember(t, |slots|);
      }
    }
  }

  lemma BehindStarts(slots: seq<Slot>, brk: int, newBrk: int)
    requires TopFree(slots)
    ensures Starts(slots) <= Starts(Behind(slots, LastFree(slots), brk, newBrk))
    ensures slots[LastFree(slots)].start in Starts(slots)
  {
    var j := LastFree(slots);
    StartMember(slots, j);
    forall i: nat | i < |slots| && !slots[i].LostSlot?
      ensures slots[i].start in Starts(Behind(slots, j, brk, newBrk))
    {
      StartMember(Behind(slots, j, brk, newBrk), i);
    }
  }

  lemma NodeStarts(slots: seq<Slot>)
    ensures LastNode(FreeList(slots)) == 0 || LastNode(FreeList(slots)) in Starts(slots)
  {
    hide FreeList;
    if FreeList(slots) != [] {
      var i := ListedSlot(slots, LastNode(FreeList(slots)));
      StartMember(slots, i);
    }
  }

  lemma PartStarts(slots: seq<Slot>, from: nat, to: nat)
    requires from <= to <= |slots|
    ensures Starts(slots[from..to]) <= Starts(slots)
  {
    forall a | a in Starts(slots[from..to]) ensures a in Starts(slots) {
      var i :| 0 <= i < to - from && !slots[from..to][i].LostSlot? && a == slots[from..to][i].start;
      StartMember(slots, from + i);
    }
  }

  /** What a take writes are headers of slots before or after it. */
  lemma CarveStarts(slots: seq<Slot>, prev: int, k: nat, units: nat)
    requires k < |slots| && slots[k].FreeSlot? && prev == LastNode(FreeList(slots[..k]))
    ensures
      var starts := Starts(Take(slots, k, units));
      && slots[k].start in starts && (prev == 0 || prev in starts)
      && (slots[k].end > slots[k].start + units * UNIT + UNIT ==> slots[k].start + units * UNIT in starts)
  {
    hide FreeList;
    TakeStarts(slots, k, units);
    StartMember(slots, k);
    NodeStarts(slots[..k]);
    PartStarts(slots, 0, k);
    assert slots[0..k] == slots[..k];
  }

  lemma CutWritten(slot0: map<int, int>, free0: map<int, int>, slot1: map<int, int>, free1: map<int, int>,
                   free2: map<int, int>, prev: int, curr: int, newSlot: int, larger: bool, at: set<int>)
    requires HeadersOnly(slot0, free0, slot1, free1, if larger then {curr, newSlot} else {})
    requires OnlyAt(free1, free2, if prev != 0 then {prev, curr} else {curr})
    requires curr in at && (prev == 0 || prev in at) && (larger ==> newSlot in at)
    ensures HeadersOnly(slot0, free0, slot1, free2, at)
  {
  }

  lemma ReleaseStarts(slots: seq<Slot>, prev: int, i: nat)
    requires i < |slots| && slots[i].LiveSlot? && prev == LastNode(FreeList(slots[..i]))
    ensures slots[i].start in Starts(slots) && (prev == 0 || prev in Starts(slots))
  {
    hide FreeList;
    StartMember(slots, i);
    NodeStarts(slots[..i]);
    PartStarts(slots, 0, i);
    assert slots[0..i] == slots[..i];
  }

  lemma FreedWritten(slot0: map<int, int>, free0: map<int, int>, slot1: map<int, int>, free1: map<int, int>,
                     slot2: map<int, int>, free2: map<int, int>, prev: int, node: int, merged: int, at: set<int>)
    requires node in at && (prev == 0 || prev in at) && (merged == node || merged == prev != 0)
    requires OnlyAt(slot0, slot1, if merged == prev then {prev} else {})
    requires OnlyAt(free0, free1, if prev != 0 then {prev, node} else {node})
    requires OnlyAt(slot1, slot2, {merged}) && OnlyAt(free1, free2, {merged})
    ensures HeadersOnly(slot0, free0, slot2, free2, at)
  {
  }

  class Allocator {
    var nextSlot: map<int, int>
    var nextFree: map<int, int>
    var freeAnchor: int
    var firstSlot: int
    var arenaBrk: int
    ghost var slots: seq<Slot>

    ghost predicate Valid()
      reads this
    {
      HeapShape(slots, firstSlot, arenaBrk, nextSlot, nextFree, freeAnchor)
    }

    constructor ()
      ensures Valid() && slots == [] && arenaBrk == 0
    {
      nextSlot, nextFree, freeAnchor, firstSlot, arenaBrk, slots := map[], map[], 0, 0, 0, [];
    }

    // A header word that was never written reads as zero, as fresh pages do.
    function EndOf(slot: int): int
      reads this
    {
      if slot in nextSlot then nextSlot[slot] else 0
    }

    function FreeAfter(slot: int): int
      reads this
    {
      if slot in nextFree then nextFree[slot] else 0
    }

    /** Walks the free list for the first slot with room; `prev` trails one node behind. */
    method FindFit(units: nat, ghost list: seq<Slot>) returns (prev: int, curr: int, wraps: bool, ghost k: nat)
      requires Walkable(list, nextSlot, nextFree, freeAnchor) && 0 < units <= MAX_UNITS
      ensures k <= |list| && prev == LastNode(FreeList(list[..k]))
      ensures wraps <==> FirstFit(list, units, 0).Wraps?
      ensures !wraps ==> (curr == 0 <==> FirstFit(list, units, 0).NoFit?) && (curr == 0 ==> k == |list|)
      ensures !wraps && curr != 0 ==> FirstFit(list, units, 0) == At(k) && curr == list[k].start
    {
      hide FreeList, Walkable;
      prev, curr, wraps := 0, freeAnchor, false;
      k := FreeIndex(list, 0);
      SkipUsed(list, units, 0);
      WalkStarts(list, nextSlot, nextFree, freeAnchor);
      while curr != 0
        invariant k <= |list| && FreeIndex(list, k) == k
        invariant curr == StartOf(list, k)
        invariant prev == LastNode(FreeList(list[..k]))
        invariant FirstFit(list, units, 0) == FirstFit(list, units, k)
        decreases |list| - k
      {
        StandingAt(list, nextSlot, nextFree, freeAnchor, k);
        var newSlot := Wrap(curr + units * UNIT);
        if newSlot <= curr {
          wraps := true;
          return;
        }
        if EndOf(curr) >= newSlot {
          return;
        }
        SkipUsed(list, units, k + 1);
        prev, curr := curr, FreeAfter(curr);
        k := FreeIndex(list, k + 1);
      }
    }

    ghost predicate CanTake(prev: int, curr: int, units: nat, k: nat)
      reads this
    {
      && Valid() && 0 < units && k < |slots| && slots[k].FreeSlot? && slots[k].start == curr
      && curr + units * UNIT <= slots[k].end && prev == LastNode(FreeList(slots[..k]))
    }

    /** Takes `units` from the free slot `curr`, splitting it when enough is left, and unlinks it. */
    method Carve(prev: int, curr: int, units: nat, ghost k: nat)
      modifies this`nextSlot, this`nextFree, this`freeAnchor, this`slots
      ensures old(CanTake(prev, curr, units, k)) ==> Valid() && slots == Take(old(slots), k, units)
      ensures old(CanTake(prev, curr, units, k)) ==>
        HeadersOnly(old(nextSlot), old(nextFree), nextSlot, nextFree, Starts(slots))
    {
      hide HeapShape, FreeList, Take, Chain, Apart;
      ghost var taking := CanTake(prev, curr, units, k);
      ghost var front := if taking then FreeList(slots[..k]) else [];
      ghost var back := if taking then FreeList(slots[k + 1..]) else [];
      var newSlot := curr + units * UNIT;
      if taking {
        BeforeCarve(slots, firstSlot, arenaBrk, nextSlot, nextFree, freeAnchor, k, newSlot);
      }
      ghost var after := SplitSlot(curr, newSlot, front, back);
      ghost var slot1, free1 := nextSlot, nextFree;
      Unlink(prev, curr, front, after);
      if taking {
        CarveStarts(old(slots), prev, k, units);
        CutWritten(old(nextSlot), old(nextFree), slot1, free1, nextFree, prev, curr, newSlot,
                   old(EndOf(curr)) > newSlot + UNIT, Starts(Take(old(slots), k, units)));
        AfterCarve(slots, firstSlot, arenaBrk, old(nextSlot), old(nextFree), old(freeAnchor), k, units,
                   nextSlot, nextFree, freeAnchor);
        slots := Take(slots, k, units);
      }
    }

    ghost predicate Node(front: seq<int>, curr: int, back: seq<int>)
      reads this
    {
      Chain(front + [curr] + back, nextFree, freeAnchor) && Apart(front + [curr] + back)
    }

    ghost predicate CanSplit(front: seq<int>, curr: int, back: seq<int>, newSlot: int)
      reads this
    {
      && Node(front, curr, back) && curr in nextSlot
      && (nextSlot[curr] > newSlot ==> newSlot !in front + [curr] + back)
    }

    /** When more than one unit is left behind the cut, writes the header of the slot there and
        makes it follow `curr` in both chains. */
    method SplitSlot(curr: int, newSlot: int,
                     ghost front: seq<int>, ghost back: seq<int>) returns (ghost after: seq<int>)
      modifies this`nextSlot, this`nextFree
      ensures
        old(CanSplit(front, curr, back, newSlot)) ==>
          var larger := old(nextSlot)[curr] > newSlot + UNIT;
          && nextSlot == (if larger then old(nextSlot)[newSlot := old(nextSlot)[curr]][curr := newSlot]
                          else old(nextSlot))
          && after == (if larger then [newSlot] else []) + back
          && Node(front, curr, after)
      ensures HeadersOnly(old(nextSlot), old(nextFree), nextSlot, nextFree,
                          if old(EndOf(curr)) > newSlot + UNIT then {curr, newSlot} else {})
    {
      hide Chain, Apart, HeadersOnly;
      NoneWritten(nextSlot, nextFree, {});
      SplitWritten(nextSlot, nextFree, curr, newSlot, EndOf(curr), FreeAfter(curr));
      after := [] + back;
      assert after == back;
      if EndOf(curr) > newSlot + UNIT {
        if Node(front, curr, back) && curr in nextSlot && newSlot !in front + [curr] + back {
          ghost var list, m := front + [curr] + back, |front|;
          ChainNext(list, nextFree, freeAnchor, m);
          ChainInsert(list, nextFree, freeAnchor, m + 1, newSlot,
                      nextFree[curr := newSlot][newSlot := FreeAfter(curr)], freeAnchor);
          InsertApart(list, m + 1, newSlot);
          after := [newSlot] + back;
          assert list[..m + 1] + [newSlot] + list[m + 1..] == front + [curr] + after;
        }
        nextSlot := nextSlot[newSlot := EndOf(curr)];
        nextFree := nextFree[newSlot := FreeAfter(curr)];
        nextSlot := nextSlot[curr := newSlot];
        nextFree := nextFree[curr := newSlot];
        assert curr != newSlot ==> nextFree == old(nextFree)[curr := newSlot][newSlot := old(FreeAfter(curr))];
      }
    }

    method Unlink(prev: int, curr: int, ghost front: seq<int>, ghost back: seq<int>)
      modifies this`nextFree, this`freeAnchor
      ensures old(Node(front, curr, back)) && prev == LastNode(front) && 0 !in front ==>
        Chain(front + back, nextFree, freeAnchor)
      ensures nextSlot == old(nextSlot)
      ensures OnlyAt(old(nextFree), nextFree, if prev != 0 then {prev, curr} else {curr})
    {
      hide Chain, Apart;
      if Node(front, curr, back) && prev == LastNode(front) && 0 !in front {
        ghost var list, m := front + [curr] + back, |front|;
        ChainNext(list, nextFree, freeAnchor, m);
        assert m > 0 ==> list[m - 1] == prev && prev in front;
        ChainRemove(list, nextFree, freeAnchor, m,
                    if m > 0 then nextFree[list[m - 1] := NodeAt(list, m + 1)][curr := 0] else nextFree[curr := 0],
                    if m > 0 then freeAnchor else NodeAt(list, 1));
        assert list[..m] + list[m + 1..] == front + back;
      }
      if prev != 0 {
        nextFree := nextFree[prev := FreeAfter(curr)];
      } else {
        freeAnchor := FreeAfter(curr);
      }
      nextFree := nextFree[curr := 0];
    }

    // ---------- Growth ----------

    /** The kernel moves the break as asked or answers with something else. */
    method SysBrk(request: int) returns (r: int)
      ensures r == request ==> request <= BRK_LIMIT
    {
      r := *;
      if r == request && request > BRK_LIMIT {
        r := -1;
      }
    }

    /** The break before the first growth, on a page boundary. */
    method InitialBrk() returns (r: int)
      ensures 0 < r <= BRK_LIMIT && OnUnit(r)
    {
      var raw: int := *;
      if !(0 < raw <= BRK_LIMIT - PAGE) {
        raw := PAGE;
      }
      r := AlignUp(raw, PAGE);
      PagesOnUnits(0, raw);
    }

    /** What a growth does to the words: the new pages become the only free slot, or, when there
        is a last free slot, that slot's end is moved to the old break. */
    ghost predicate Grown(start: int, lastFree: int, nextSlot0: map<int, int>, nextFree0: map<int, int>, anchor0: int)
      reads this
    {
      if lastFree != 0 then nextSlot == nextSlot0[lastFree := start] && nextFree == nextFree0 && freeAnchor == anchor0
      else nextSlot == nextSlot0[start := arenaBrk] && nextFree == nextFree0[start := 0] && freeAnchor == start
    }

    /** Asks for whole pages behind the arena. */
    method Grow(units: nat, lastFree: int) returns (ok: bool)
      requires 0 <= arenaBrk <= BRK_LIMIT && 0 < units
      modifies this`nextSlot, this`nextFree, this`freeAnchor, this`firstSlot, this`arenaBrk
      ensures old(arenaBrk) != 0 ==> firstSlot == old(firstSlot)
      ensures old(arenaBrk) == 0 ==> 0 < firstSlot <= BRK_LIMIT && OnUnit(firstSlot)
      ensures
        var start := if old(arenaBrk) == 0 then firstSlot else old(arenaBrk);
        if ok then arenaBrk == start + AlignUp(units * UNIT, PAGE) <= BRK_LIMIT
                && Grown(start, lastFree, old(nextSlot), old(nextFree), old(freeAnchor))
        else
          && arenaBrk == start && nextSlot == old(nextSlot)
          && nextFree == old(nextFree) && freeAnchor == old(freeAnchor)
    {
      if arenaBrk == 0 {
        arenaBrk := InitialBrk();
        firstSlot := arenaBrk;
      }
      var newSlot := arenaBrk;
      var newBrk := arenaBrk + AlignUp(units * UNIT, PAGE);
      var answer := SysBrk(newBrk);
      if newSlot == answer {
        return false;
      }
      if newBrk != answer {
        return false;
      }
      arenaBrk := answer;
      if lastFree != 0 {
        nextSlot := nextSlot[lastFree := newSlot];
      } else {
        nextSlot := nextSlot[newSlot := answer];
        nextFree := nextFree[newSlot := 0];
        freeAnchor := newSlot;
      }
      ok := true;
    }

    // ---------- Allocation ----------

    ghost predicate Same(slots0: seq<Slot>, first0: int, brk0: int)
      reads this
    {
      Valid() && slots == slots0 && firstSlot == first0 && arenaBrk == brk0
    }

    /** The slot list was grown from `slots0` by pages at `start`, and the new slot was then taken. */
    ghost predicate GrownAndTaken(slots0: seq<Slot>, start: int, units: nat)
      reads this
    {
      && Valid() && arenaBrk == start + AlignUp(units * UNIT, PAGE)
      && slots == Take(Extended(slots0, start, arenaBrk), |slots0|, units)
    }

    /** What a request that does not fit behind a topmost free slot leaves: the slot takes over what
        is lost above it with a first growth and the pages of the first with a second one, which is
        made only when the first does not help. */
    ghost predicate ServedBehind(slots0: seq<Slot>, first0: int, brk0: int, units: nat, ptr: int)
      reads this
      requires TopFree(slots0)
    {
      var j, pages := LastFree(slots0), AlignUp(units * UNIT, PAGE);
      var once := Behind(slots0, j, brk0, brk0 + pages);
      var twice := Behind(once, j, brk0 + pages, brk0 + 2 * pages);
      && Valid() && firstSlot == first0
      && (if arenaBrk == brk0 then slots == slots0 && ptr == 0
          else if arenaBrk == brk0 + pages && FirstFit(once, units, 0).NoFit? then slots == once && ptr == 0
          else
            && slots0[j].start + UNIT == ptr
            && (if arenaBrk == brk0 + pages then FirstFit(once, units, 0) == At(j) && slots == Take(once, j, units)
                else arenaBrk == brk0 + 2 * pages && FirstFit(once, units, 0).NoFit? && slots == Take(twice, j, units)))
    }

    /** Where the loop stands while no live block has been harmed. */
    ghost predicate Progress(slots0: seq<Slot>, first0: int, brk0: int, units: nat)
      reads this
    {
      if arenaBrk == brk0 then slots == slots0 && firstSlot == first0
      else
        && FirstFit(slots0, units, 0).NoFit?
        && (if NoneFree(slots0) then GrownOnce(slots0, brk0, units)
            else TopFree(slots0) && firstSlot == first0 && brk0 > 0 && GrownBehind(slots0, brk0, units))
    }

    /** The first turn found nothing in `slots0`, none of which was free, and new pages followed. */
    ghost predicate GrownOnce(slots0: seq<Slot>, brk0: int, units: nat)
      reads this
    {
      var start := if brk0 == 0 then firstSlot else brk0;
      && arenaBrk == start + AlignUp(units * UNIT, PAGE)
      && slots == Extended(slots0, start, arenaBrk) && FirstFit(slots, units, 0) == At(|slots0|)
    }

    ghost predicate GrownBehind(slots0: seq<Slot>, brk0: int, units: nat)
      reads this
      requires TopFree(slots0)
    {
      var j, pages := LastFree(slots0), AlignUp(units * UNIT, PAGE);
      var once := Behind(slots0, j, brk0, brk0 + pages);
      || (arenaBrk == brk0 + pages && slots == once
          && (FirstFit(once, units, 0).NoFit? || FirstFit(once, units, 0) == At(j)))
      || (arenaBrk == brk0 + 2 * pages && FirstFit(once, units, 0).NoFit? && FirstFit(slots, units, 0) == At(j)
          && slots == Behind(once, j, brk0 + pages, brk0 + 2 * pages))
    }

    lemma ProgressTops(slots0: seq<Slot>, first0: int, brk0: int, units: nat)
      requires Progress(slots0, first0, brk0, units) && arenaBrk != brk0
      ensures NoneFree(slots0) ==>
        |slots| == |slots0| + 1 && slots[|slots0|].start == if brk0 == 0 then firstSlot else brk0
      ensures TopFree(slots0) ==>
        && TopFree(slots) && LastFree(slots) == LastFree(slots0)
        && slots[LastFree(slots)].start == slots0[LastFree(slots0)].start
    {
      hide FirstFit, Behind, AlignUp, NoneFree, OnlyLostAbove, LastFree;
      if TopFree(slots0) {
        var j, pages := LastFree(slots0), AlignUp(units * UNIT, PAGE);
        var once := Behind(slots0, j, brk0, brk0 + pages);
        BehindLast(slots0, j, brk0, brk0 + pages);
        BehindLast(once, j, brk0 + pages, brk0 + 2 * pages);
      }
    }

    /** The state at the head of the allocation loop. `list` is what the links lead through; it is
        the arena's slots while `intact`; once a growth has harmed a live block it is those slots with
        the last free one reaching further. */
    ghost predicate Looping(list: seq<Slot>, intact: bool, slots0: seq<Slot>, first0: int, brk0: int, units: nat)
      reads this
    {
      && 0 <= arenaBrk <= BRK_LIMIT && Walkable(list, nextSlot, nextFree, freeAnchor)
      && (if intact then Valid() && slots == list && Progress(slots0, first0, brk0, units)
          else
            && FirstFit(slots0, units, 0).NoFit? && !NoneFree(slots0) && !TopFree(slots0)
            && arenaBrk > brk0 > 0 && EndChanged(slots0, list))
    }

    /** One growth inside the loop. When it is refused nothing changes but a first arena start. */
    method GrowOnceMore(units: nat, prev: int, ghost list: seq<Slot>, ghost intact: bool, ghost slots0: seq<Slot>,
                        ghost first0: int, ghost brk0: int)
      returns (ok: bool, ghost list': seq<Slot>, ghost intact': bool)
      requires Looping(list, intact, slots0, first0, brk0, units) && 0 < units <= MAX_UNITS
      requires FirstFit(list, units, 0).NoFit? && prev == LastNode(FreeList(list))
      requires Shaped(slots0, first0, brk0) && OnUnit(brk0) && 0 <= first0 <= brk0 && (brk0 == 0 ==> slots0 == [])
      modifies this
      ensures if ok then Looping(list', intact', slots0, first0, brk0, units) && arenaBrk > old(arenaBrk)
        else
          && slots == old(slots) && arenaBrk == (if old(arenaBrk) == 0 then firstSlot else old(arenaBrk))
          && (old(arenaBrk) != 0 ==> firstSlot == old(firstSlot)) && (intact ==> Valid())
      ensures intact && (ok ==> intact') ==>
        && HeadersOnly(old(nextSlot), old(nextFree), nextSlot, nextFree, Starts(slots))
        && Starts(old(slots)) <= Starts(slots)
      ensures !intact ==> !intact'
    {
      hide HeapShape, Walkable, FreeList, FirstFit, Shaped, Behind, Extended, AlignUp, OnUnit, TopFree, LastFree;
      hide HeadersOnly, Starts;
      list', intact' := list, intact;
      ghost var nextSlot0, nextFree0, anchor0, first, brk := nextSlot, nextFree, freeAnchor, firstSlot, arenaBrk;
      NoLastNode(list, nextSlot0, nextFree0, anchor0);
      if intact {
        ShapeFacts(slots, first, brk, nextSlot0, nextFree0, anchor0, units);
        if brk != brk0 {
          ProgressTops(slots0, first0, brk0, units);
        }
      }
      ok := Grow(units, prev);
      PageRoom(units);
      ghost var start := if brk == 0 then firstSlot else brk;
      if intact {
        StartShape(slots, first, brk, nextSlot0, nextFree0, anchor0, start);
      }
      if !ok {
        NoneWritten(nextSlot, nextFree, Starts(slots));
        return;
      }
      if prev == 0 {
        ExtendedStarts(slots, start, arenaBrk);
        GrowthWritten(nextSlot0, nextFree0, start, arenaBrk, Starts(Extended(slots, start, arenaBrk)));
        GrownShape(slots, firstSlot, start, arenaBrk, nextSlot0, nextFree0, anchor0, units);
        slots := Extended(slots, start, arenaBrk);
        list' := slots;
        HeapWalkable(slots, firstSlot, arenaBrk, nextSlot, nextFree, freeAnchor);
      } else if intact && TopFree(slots) {
        BehindShape(slots, firstSlot, start, nextSlot0, nextFree0, anchor0, units);
        PagesOnUnits(start, units * UNIT);
        if brk == brk0 {
          OnlyTopFits(slots0, firstSlot, brk0, LastFree(slots0), arenaBrk, units);
        } else {
          SecondGrowthFits(slots0, firstSlot, brk0, LastFree(slots0), units);
        }
        BehindStarts(slots, start, arenaBrk);
        LastNodeIsLastFree(slots);
        GrowthWritten(nextSlot0, nextFree0, prev, start, Starts(Behind(slots, LastFree(slots), start, arenaBrk)));
        slots := Behind(slots, LastFree(slots), start, arenaBrk);
        list' := slots;
        HeapWalkable(slots, firstSlot, arenaBrk, nextSlot, nextFree, freeAnchor);
      } else {
        list' := EndMoved(list, nextSlot0, nextFree0, anchor0, prev, start);
        if intact {
          Unchanged(list);
        }
        ChangedAgain(slots0, list, start);
        intact' := false;
      }
    }

    /** What a request of `units` that started from `slots0` is answered with and leaves behind. */
    ghost predicate Answers(slots0: seq<Slot>, first0: int, brk0: int, units: nat, ptr: int)
      reads this
    {
      && (FirstFit(slots0, units, 0).At? ==>
            var k := FirstFit(slots0, units, 0).index;
            Same(Take(slots0, k, units), first0, brk0) && ptr == slots0[k].start + UNIT)
      && (!FirstFit(slots0, units, 0).At? && NoneFree(slots0) ==>
            var start := if brk0 == 0 then firstSlot else brk0;
            if ptr == 0 then Valid() && slots == slots0 && arenaBrk == start
            else GrownAndTaken(slots0, start, units) && ptr == start + UNIT)
      && (!FirstFit(slots0, units, 0).At? && TopFree(slots0) ==> ServedBehind(slots0, first0, brk0, units, ptr))
      && (!FirstFit(slots0, units, 0).At? && !NoneFree(slots0) ==>
            (arenaBrk == brk0 ==> ptr == 0 && Same(slots0, first0, brk0)))
      && (!FirstFit(slots0, units, 0).At? && !NoneFree(slots0) && !TopFree(slots0) && ptr != 0 ==>
            ptr == slots0[LastFree(slots0)].start + UNIT)
    }

    /** Handing out nothing is right where the walk meets a wrapping block. */
    lemma WrapsAnswered(list: seq<Slot>, intact: bool, slots0: seq<Slot>, first0: int, brk0: int, units: nat)
      requires Looping(list, intact, slots0, first0, brk0, units) && 0 < units <= MAX_UNITS
      ensures FirstFit(list, units, 0).Wraps? ==> !intact && Answers(slots0, first0, brk0, units, 0)
    {
      hide HeapShape, Walkable, FreeList, FirstFit, Take, Shaped, Behind, Extended, AlignUp, OnUnit;
      if intact {
        ShapeFacts(slots, firstSlot, arenaBrk, nextSlot, nextFree, freeAnchor, units);
      }
    }

    /** Hands out the slot the walk found. */
    method Deliver(prev: int, curr: int, units: nat, ghost k: nat, ghost list: seq<Slot>, ghost intact: bool,
                   ghost slots0: seq<Slot>, ghost first0: int, ghost brk0: int)
      returns (ptr: int)
      requires Looping(list, intact, slots0, first0, brk0, units) && 0 < units <= MAX_UNITS
      requires FirstFit(list, units, 0) == At(k) && curr == list[k].start && prev == LastNode(FreeList(list[..k]))
      modifies this`nextSlot, this`nextFree, this`freeAnchor, this`slots
      ensures Answers(slots0, first0, brk0, units, ptr)
      ensures intact ==> HeadersOnly(old(nextSlot), old(nextFree), nextSlot, nextFree, Starts(slots))
      ensures intact ==> Starts(old(slots)) <= Starts(slots)
    {
      hide HeapShape, Walkable, FreeList, FirstFit, Take, Shaped, Behind, Extended, AlignUp, OnUnit;
      hide HeadersOnly, Starts;
      if intact {
        ShapeFacts(slots, firstSlot, arenaBrk, nextSlot, nextFree, freeAnchor, units);
        if arenaBrk != brk0 {
          ProgressTops(slots0, first0, brk0, units);
        }
        TakeStarts(list, k, units);
      } else {
        OnlyChangedFits(slots0, list, units);
      }
      Carve(prev, curr, units, k);
      ptr := curr + UNIT;
    }

    /** Allocates `size` bytes. A request that fits takes the lowest fitting slot. With no free
        slot at all one growth suffices, or the call fails and nothing but a first arena start
        changes. With free slots that are all too small and nothing in use above the last one, at
        most two growths suffice. With something in use above the last free slot the call fails
        cleanly when the break does not move; when it does, what is handed out starts at the last
        free slot, which then reaches over that block. */
    method Alloc(size: u32) returns (ptr: int)
      requires Valid()
      modifies this
      ensures Units(size) > MAX_UNITS ==> ptr == 0 && Same(old(slots), old(firstSlot), old(arenaBrk))
      ensures Units(size) <= MAX_UNITS ==>
        Answers(old(slots), old(firstSlot), old(arenaBrk), Units(size), ptr)
      ensures NoneFree(old(slots)) || TopFree(old(slots)) || arenaBrk == old(arenaBrk) ==>
        HeadersOnly(old(nextSlot), old(nextFree), nextSlot, nextFree, Starts(slots))
    {
      hide HeadersOnly, Starts;
      NoneWritten(nextSlot, nextFree, Starts(slots));
      hide HeapShape, Walkable, FreeList, FirstFit, Take, Shaped, Behind, Extended, AlignUp, OnUnit;
      var units := AlignWord(size, UNIT) / UNIT + 1;
      if units > MAX_UNITS {
        return 0;
      }
      ghost var list, intact := slots, true;
      ghost var slots0, first0, brk0 := slots, firstSlot, arenaBrk;
      ShapeFacts(slots0, first0, brk0, nextSlot, nextFree, freeAnchor, units);
      while true
        invariant Looping(list, intact, slots0, first0, brk0, units)
        invariant intact ==> HeadersOnly(old(nextSlot), old(nextFree), nextSlot, nextFree, Starts(slots))
        decreases BRK_LIMIT - arenaBrk
      {
        ghost var nextSlot1, nextFree1, starts := nextSlot, nextFree, Starts(slots);
        WrapsAnswered(list, intact, slots0, first0, brk0, units);
        var prev, curr, wraps;
        ghost var k;
        prev, curr, wraps, k := FindFit(units, list);
        if wraps {
          return 0;
        }
        if curr != 0 {
          ptr := Deliver(prev, curr, units, k, list, intact, slots0, first0, brk0);
          if intact {
            HeadersOnward(old(nextSlot), old(nextFree), nextSlot1, nextFree1, nextSlot, nextFree, starts,
                          Starts(slots));
          }
          return;
        }
        assert list[..k] == list;
        var ok;
        ghost var before := intact;
        ok, list, intact := GrowOnceMore(units, prev, list, intact, slots0, first0, brk0);
        if before && (ok ==> intact) {
          HeadersOnward(old(nextSlot), old(nextFree), nextSlot1, nextFree1, nextSlot, nextFree, starts, Starts(slots));
        }
        if !ok {
          return 0;
        }
      }
    }

    // ---------- Release ----------

    ghost predicate LiveAt(i: nat, ptr: int)
      reads this
    {
      i < |slots| && slots[i].LiveSlot? && slots[i].start == ptr - UNIT
    }

    /** Finds where address `node` belongs in the free list. */
    method FindPlace(node: int, ghost i: nat) returns (prev: int, next: int)
      requires Valid() && i < |slots| && slots[i].LiveSlot? && slots[i].start == node
      ensures prev == LastNode(FreeList(slots[..i])) && next == NodeAt(FreeList(slots[i + 1..]), 0)
    {
      hide FreeList, Tiled, Coalesced, EndsHold;
      ghost var list, m := FreeList(slots), 0;
      FreeListSorted(slots, firstSlot, arenaBrk);
      SplitAround(slots, firstSlot, arenaBrk, i);
      NodesPositive(slots, firstSlot, arenaBrk);
      ghost var front, back := FreeList(slots[..i]), FreeList(slots[i + 1..]);
      prev, next := 0, freeAnchor;
      while next != 0 && next < node
        invariant m <= |front| && next == NodeAt(list, m)
        invariant prev == LastNode(list[..m])
        decreases |front| - m
      {
        assert m < |front|;
        prev, next := next, FreeAfter(next);
        m := m + 1;
      }
      assert m == |front|;
      assert list[..m] == front;
      assert NodeAt(list, m) == NodeAt(back, 0);
    }

    /** Frees a block: links its slot in address order, then merges it with a free slot on either
        side. */
    method Free(ptr: int, ghost i: nat)
      requires Valid() && (ptr != 0 ==> LiveAt(i, ptr))
      modifies this`nextSlot, this`nextFree, this`freeAnchor, this`slots
      ensures Valid()
      ensures slots == if ptr == 0 then old(slots) else Release(old(slots), i)
      ensures HeadersOnly(old(nextSlot), old(nextFree), nextSlot, nextFree, Starts(old(slots)))
    {
      hide HeadersOnly, Starts;
      NoneWritten(nextSlot, nextFree, Starts(slots));
      hide HeapShape, FreeList, Release, Chain, Apart;
      if ptr == 0 {
        return;
      }
      var node := ptr - UNIT;
      ReleaseFacts(slots, firstSlot, arenaBrk, nextSlot, nextFree, freeAnchor, i);
      var prev, next := FindPlace(node, i);
      ghost var front, back := FreeList(slots[..i]), FreeList(slots[i + 1..]);
      ReleaseStarts(slots, prev, i);
      node := LinkFreed(node, prev, next, front, back);
      ghost var linked, slot1, free1 := if node == prev then front else front + [node], nextSlot, nextFree;
      MergeNext(node, next, linked, back);
      FreedWritten(old(nextSlot), old(nextFree), slot1, free1, nextSlot, nextFree, prev, ptr - UNIT, node,
                   Starts(slots));
      AfterRelease(slots, firstSlot, arenaBrk, old(nextSlot), old(nextFree), old(freeAnchor), i,
                   nextSlot, nextFree, freeAnchor);
      slots := Release(slots, i);
    }

    /** Puts the node behind `prev`, or merges it into `prev` when that slot ends where it starts. */
    method LinkFreed(node: int, prev: int, next: int, ghost front: seq<int>, ghost back: seq<int>) returns (merged: int)
      requires Chain(front + back, nextFree, freeAnchor) && Apart(front + back) && 0 !in front
      requires node !in front + back && prev == LastNode(front) && next == NodeAt(back, 0)
      requires node in nextSlot && (prev != 0 ==> prev in nextSlot) && node != 0
      modifies this`nextSlot, this`nextFree, this`freeAnchor
      ensures merged == if prev != 0 && old(nextSlot)[prev] == node then prev else node
      ensures nextSlot == if merged == prev then old(nextSlot)[prev := old(nextSlot)[node]] else old(nextSlot)
      ensures Chain((if merged == prev then front else front + [node]) + back, nextFree, freeAnchor)
      ensures OnlyAt(old(nextFree), nextFree, if prev != 0 then {prev, node} else {node})
    {
      hide Chain, Apart;
      ghost var list, m := front + back, |front|;
      ghost var anchor0 := freeAnchor;
      assert m > 0 ==> list[m - 1] == prev && prev in front;
      assert NodeAt(list, m) == next;
      merged := node;
      if prev != 0 {
        nextFree := nextFree[prev := node];
        if EndOf(prev) == node {
          nextSlot := nextSlot[prev := EndOf(node)];
          merged := prev;
        }
      } else {
        freeAnchor := node;
      }
      nextFree := nextFree[merged := next];
      if merged == prev {
        ChainNext(list, old(nextFree), anchor0, m - 1);
        assert nextFree == old(nextFree);
      } else {
        ChainInsert(list, old(nextFree), anchor0, m, node, nextFree, freeAnchor);
        assert list[..m] + [node] + list[m..] == front + [node] + back;
      }
    }

    /** Swallows the next free slot when it starts where this one ends. */
    method MergeNext(node: int, next: int, ghost linked: seq<int>, ghost back: seq<int>)
      requires Chain(linked + back, nextFree, freeAnchor) && Apart(linked + back) && 0 !in back
      requires |linked| > 0 && node == LastNode(linked) && next == NodeAt(back, 0)
      requires node in nextSlot && (next != 0 ==> next in nextSlot)
      modifies this`nextSlot, this`nextFree
      ensures var joins := next != 0 && old(nextSlot)[node] == next;
        && nextSlot == (if joins then old(nextSlot)[node := old(nextSlot)[next]] else old(nextSlot))
        && Chain(linked + (if joins then back[1..] else back), nextFree, freeAnchor)
      ensures OnlyAt(old(nextFree), nextFree, {node})
    {
      hide Chain, Apart;
      if next != 0 {
        if EndOf(node) == next {
          ghost var list, m := linked + back, |linked|;
          assert list[m - 1] == node && list[m] == next;
          ChainNext(list, nextFree, freeAnchor, m);
          ChainSkip(list, nextFree, freeAnchor, m);
          assert list[..m] + list[m + 1..] == linked + back[1..];
          nextSlot := nextSlot[node := EndOf(next)];
          nextFree := nextFree[node := FreeAfter(next)];
        }
      }
    }
  }

  /** An arena that has not been started becomes an empty one at `start`; any other is as it was. */
  lemma StartShape(slots: seq<Slot>, first: int, brk: int, nextSlot: map<int, int>, nextFree: map<int, int>,
                   anchor: int, start: int)
    requires HeapShape(slots, first, brk, nextSlot, nextFree, anchor)
    requires if brk == 0 then 0 < start <= BRK_LIMIT && OnUnit(start) else start == brk
    ensures HeapShape(slots, if brk == 0 then start else first, start, nextSlot, nextFree, anchor)
  {
    if |slots| > 0 {
      Bounds(slots, first, brk, 0);
    }
  }

  /** A growth with no free slot adds one free slot made of the new pages, and it fits. */
  lemma GrownShape(slots: seq<Slot>, first: int, brk: int, newBrk: int, nextSlot: map<int, int>,
                   nextFree: map<int, int>, anchor: int, units: nat)
    requires HeapShape(slots, first, brk, nextSlot, nextFree, anchor) && FreeList(slots) == [] && brk > 0
    requires 0 < units <= MAX_UNITS && newBrk == brk + AlignUp(units * UNIT, PAGE) <= BRK_LIMIT
    ensures HeapShape(Extended(slots, brk, newBrk), first, newBrk, nextSlot[brk := newBrk], nextFree[brk := 0], brk)
    ensures FirstFit(Extended(slots, brk, newBrk), units, 0) == At(|slots|)
  {
    hide FreeList, OnUnit, Tiled, Coalesced, AlignUp;
    NoneInList(slots);
    PagesOnUnits(brk, units * UNIT);
    ExtendedShaped(slots, first, brk, newBrk);
    GrowthSuffices(slots, first, brk, units);
    var more := [FreeSlot(brk, newBrk)];
    FreeConcat(slots, more);
    SingleList(more[0]);
    EndsAppend(slots, first, brk, newBrk, nextSlot);
  }

  /** A growth behind the topmost free slot leaves words that describe the longer slot. */
  lemma BehindShape(slots: seq<Slot>, first: int, brk: int, nextSlot: map<int, int>, nextFree: map<int, int>,
                    anchor: int, units: nat)
    requires HeapShape(slots, first, brk, nextSlot, nextFree, anchor) && TopFree(slots)
    requires 0 < units && brk + AlignUp(units * UNIT, PAGE) <= BRK_LIMIT
    ensures
      var newBrk := brk + AlignUp(units * UNIT, PAGE);
      HeapShape(Behind(slots, LastFree(slots), brk, newBrk), first, newBrk,
                nextSlot[LastNode(FreeList(slots)) := brk], nextFree, anchor)
  {
    hide FreeList, OnUnit, Tiled, Coalesced, AlignUp, Behind;
    var j, newBrk := LastFree(slots), brk + AlignUp(units * UNIT, PAGE);
    PageRoom(units);
    PagesOnUnits(brk, units * UNIT);
    BehindShaped(slots, first, brk, j, newBrk);
    BehindList(slots, j, brk, newBrk);
    BehindEnds(slots, first, brk, nextSlot, j, newBrk);
    LastNodeIsLastFree(slots);
    Bounds(slots, first, brk, j);
  }

  lemma EndsAppend(slots: seq<Slot>, first: int, brk: int, newBrk: int, nextSlot: map<int, int>)
    requires Tiled(slots, first, brk) && EndsHold(slots, nextSlot)
    ensures EndsHold(Extended(slots, brk, newBrk), nextSlot[brk := newBrk])
  {
    forall i: nat | i < |slots| ensures slots[i].start != brk {
      Bounds(slots, first, brk, i);
    }
  }

  lemma NoLastNode(list: seq<Slot>, nextSlot: map<int, int>, nextFree: map<int, int>, anchor: int)
    requires Walkable(list, nextSlot, nextFree, anchor)
    ensures LastNode(FreeList(list)) == 0 <==> FreeList(list) == []
    ensures FreeList(list) == [] <==> NoneFree(list)
  {
    hide FreeList;
    NoneInList(list);
    if FreeList(list) != [] {
      var i := ListedSlot(list, LastNode(FreeList(list)));
    }
  }

  /** `list` is `slots` but for the end of the last free slot. */
  ghost predicate EndChanged(slots: seq<Slot>, list: seq<Slot>)
    requires !NoneFree(slots)
  {
    var j := LastFree(slots);
    |list| == |slots| && list == slots[j := FreeSlot(slots[j].start, list[j].end)]
  }

  lemma {:induction false} ChangedFit(slots: seq<Slot>, j: nat, end: int, units: nat, i: nat)
    requires j < |slots| && FirstFit(slots, units, i).NoFit?
    ensures
      var fit := FirstFit(slots[j := FreeSlot(slots[j].start, end)], units, i);
      fit.At? ==> fit.index == j
    decreases |slots| - i
  {
    if i < |slots| {
      ChangedFit(slots, j, end, units, i + 1);
    }
  }

  lemma OnlyChangedFits(slots: seq<Slot>, list: seq<Slot>, units: nat)
    requires !NoneFree(slots) && EndChanged(slots, list) && FirstFit(slots, units, 0).NoFit?
    ensures FirstFit(list, units, 0).At? ==>
      FirstFit(list, units, 0) == At(LastFree(slots)) && list[LastFree(slots)].start == slots[LastFree(slots)].start
  {
    ChangedFit(slots, LastFree(slots), list[LastFree(slots)].end, units, 0);
  }

  lemma ChangedAgain(slots: seq<Slot>, list: seq<Slot>, end: int)
    requires !NoneFree(slots) && EndChanged(slots, list)
    ensures !NoneFree(list) && LastFree(list) == LastFree(slots)
    ensures EndChanged(slots, list[LastFree(list) := FreeSlot(list[LastFree(list)].start, end)])
  {
    assert list[LastFree(slots)].FreeSlot?;
  }

  lemma Unchanged(slots: seq<Slot>)
    requires !NoneFree(slots)
    ensures EndChanged(slots, slots)
  {
    var j := LastFree(slots);
    assert slots[j := FreeSlot(slots[j].start, slots[j].end)] == slots;
  }

  /** After the append branch the links can still be walked, but the last free slot now claims
      everything up to the old break. */
  lemma EndMoved(list: seq<Slot>, nextSlot: map<int, int>, nextFree: map<int, int>, anchor: int, prev: int, start: int)
    returns (moved: seq<Slot>)
    requires Walkable(list, nextSlot, nextFree, anchor) && prev == LastNode(FreeList(list)) && prev != 0
    ensures Walkable(moved, nextSlot[prev := start], nextFree, anchor)
    ensures !NoneFree(list) && moved == list[LastFree(list) := FreeSlot(list[LastFree(list)].start, start)]
  {
    hide FreeList, LastFree;
    NoneInList(list);
    LastNodeIsLastFree(list);
    var j := LastFree(list);
    moved := list[j := FreeSlot(prev, start)];
    FreeSplit(list, j);
    FreeSplit(moved, j);
    NodeOfSlot(list, j);
    NodeOfSlot(moved, j);
    assert moved[..j] == list[..j] && moved[j + 1..] == list[j + 1..];
  }

  /** Free slots below a live slot precede it in the list, those above follow. */
  lemma SplitAround(slots: seq<Slot>, first: int, brk: int, i: nat)
    requires Tiled(slots, first, brk) && i < |slots| && slots[i].LiveSlot?
    ensures FreeList(slots) == FreeList(slots[..i]) + FreeList(slots[i + 1..])
    ensures var front, back := FreeList(slots[..i]), FreeList(slots[i + 1..]);
      && (forall k :: 0 <= k < |front| ==> front[k] < slots[i].start)
      && (forall k :: 0 <= k < |back| ==> back[k] >= slots[i].end > slots[i].start)
  {
    hide FreeList, OnUnit;
    FreeSplit(slots, i);
    assert slots[i..] == [slots[i]] + slots[i + 1..];
    FreeConcat([slots[i]], slots[i + 1..]);
    SingleList(slots[i]);
    SplitTiled(slots, first, brk, i);
    FreeListSorted(slots[..i], first, slots[i].start);
    FreeListSorted(slots[i + 1..], slots[i].end, brk);
  }

  lemma ReleaseFacts(slots: seq<Slot>, first: int, brk: int, nextSlot: map<int, int>, nextFree: map<int, int>,
                     anchor: int, i: nat)
    requires HeapShape(slots, first, brk, nextSlot, nextFree, anchor) && i < |slots| && slots[i].LiveSlot?
    ensures var front, back, node := FreeList(slots[..i]), FreeList(slots[i + 1..]), slots[i].start;
      && Chain(front + back, nextFree, anchor) && Apart(front + back) && Apart(front + [node] + back)
      && node !in front + back && 0 !in front && 0 !in back && node != 0
      && node in nextSlot
      && (LastNode(front) != 0 ==> LastNode(front) in nextSlot)
      && (NodeAt(back, 0) != 0 ==> NodeAt(back, 0) in nextSlot)
  {
    hide FreeList, Tiled, Coalesced, Chain, Apart;
    var front, back, node := FreeList(slots[..i]), FreeList(slots[i + 1..]), slots[i].start;
    SplitAround(slots, first, brk, i);
    ListApart(slots, first, brk);
    NodesPositive(slots, first, brk);
    assert 0 !in front && 0 !in back;
    Bounds(slots, first, brk, i);
    assert node !in front && node !in back;
    InsertApart(front + back, |front|, node);
    assert (front + back)[..|front|] + [node] + (front + back)[|front|..] == front + [node] + back;
    if |front| > 0 {
      var j := ListedSlot(slots, LastNode(front));
    }
    if |back| > 0 {
      var j := ListedSlot(slots, back[0]);
    }
  }

  /** The slot below is merged exactly when it is free and adjacent, which the code reads off
      the end of the last free slot below. */
  lemma LeftJoin(slots: seq<Slot>, first: int, brk: int, nextSlot: map<int, int>, i: nat)
    requires Tiled(slots, first, brk) && 0 <= first && (first == 0 ==> brk == 0)
    requires EndsHold(slots, nextSlot) && i < |slots| && slots[i].LiveSlot?
    ensures var prev := LastNode(FreeList(slots[..i]));
      && (JoinsLeft(slots, i) <==> prev != 0 && prev in nextSlot && nextSlot[prev] == slots[i].start)
      && (JoinsLeft(slots, i) ==>
            prev == slots[i - 1].start && FreeList(slots[..i]) == FreeList(slots[..i - 1]) + [prev])
  {
    hide FreeList, OnUnit;
    var front := FreeList(slots[..i]);
    if JoinsLeft(slots, i) {
      assert slots[..i] == slots[..i - 1] + [slots[i - 1]];
      FreeConcat(slots[..i - 1], [slots[i - 1]]);
      SingleList(slots[i - 1]);
      Bounds(slots, first, brk, i - 1);
    } else if |front| > 0 {
      var j := ListedSlot(slots[..i], LastNode(front));
      assert slots[..i][j] == slots[j];
      if j < i - 1 {
        Ordered(slots, first, brk, j, i - 1);
      }
    }
  }

  /** The slot above is merged exactly when it is free and adjacent. */
  lemma RightJoin(slots: seq<Slot>, first: int, brk: int, i: nat)
    requires Tiled(slots, first, brk) && 0 <= first && (first == 0 ==> brk == 0)
    requires i < |slots| && slots[i].LiveSlot?
    ensures var next := NodeAt(FreeList(slots[i + 1..]), 0);
      && (JoinsRight(slots, i) <==> next != 0 && next == slots[i].end)
      && (JoinsRight(slots, i) ==>
            next == slots[i + 1].start && FreeList(slots[i + 1..]) == [next] + FreeList(slots[i + 2..]))
  {
    hide FreeList, OnUnit;
    var back := FreeList(slots[i + 1..]);
    if JoinsRight(slots, i) {
      assert slots[i + 1..] == [slots[i + 1]] + slots[i + 2..];
      FreeConcat([slots[i + 1]], slots[i + 2..]);
      SingleList(slots[i + 1]);
      Bounds(slots, first, brk, i + 1);
    } else if |back| > 0 {
      var j := ListedSlot(slots[i + 1..], back[0]);
      assert slots[i + 1..][j] == slots[i + 1 + j];
      Bounds(slots, first, brk, i);
      if j > 0 {
        Ordered(slots, first, brk, i + 1, i + 1 + j);
      }
    }
  }

  /** The words after linking and merging, given those before. */
  ghost predicate Released(slots: seq<Slot>, i: nat, nextSlot: map<int, int>, nextSlot': map<int, int>,
                           nextFree': map<int, int>, anchor': int)
    requires i < |slots|
  {
    var front, back, node := FreeList(slots[..i]), FreeList(slots[i + 1..]), slots[i].start;
    var prev, next := LastNode(front), NodeAt(back, 0);
    var left := prev != 0 && prev in nextSlot && nextSlot[prev] == node;
    var at := if left then prev else node;
    && node in nextSlot && (next != 0 ==> next in nextSlot)
    && (var linked := if left then nextSlot[prev := nextSlot[node]] else nextSlot;
        var right := next != 0 && linked[at] == next;
        && nextSlot' == (if right then linked[at := linked[next]] else linked)
        && Chain((if left then front else front + [node]) + (if right then back[1..] else back), nextFree', anchor'))
  }

  lemma AfterRelease(slots: seq<Slot>, first: int, brk: int, nextSlot: map<int, int>, nextFree: map<int, int>,
                     anchor: int, i: nat, nextSlot': map<int, int>, nextFree': map<int, int>, anchor': int)
    requires HeapShape(slots, first, brk, nextSlot, nextFree, anchor) && i < |slots| && slots[i].LiveSlot?
    requires Released(slots, i, nextSlot, nextSlot', nextFree', anchor')
    ensures HeapShape(Release(slots, i), first, brk, nextSlot', nextFree', anchor')
  {
    hide FreeList, Tiled, Coalesced, Chain, Release;
    ReleaseShaped(slots, first, brk, i);
    var lo := if JoinsLeft(slots, i) then i - 1 else i;
    Bounds(slots, first, brk, lo);
    ReleasedEnds(slots, first, brk, nextSlot, i, nextSlot', nextFree', anchor');
    ReleasedList(slots, first, brk, nextSlot, i, nextSlot', nextFree', anchor');
  }

  lemma ReleasedEnds(slots: seq<Slot>, first: int, brk: int, nextSlot: map<int, int>, i: nat,
                     nextSlot': map<int, int>, nextFree': map<int, int>, anchor': int)
    requires Tiled(slots, first, brk) && 0 <= first && (first == 0 ==> brk == 0)
    requires EndsHold(slots, nextSlot) && i < |slots| && slots[i].LiveSlot?
    requires Released(slots, i, nextSlot, nextSlot', nextFree', anchor')
    ensures var lo, hi := if JoinsLeft(slots, i) then i - 1 else i, if JoinsRight(slots, i) then i + 1 else i;
      nextSlot' == if lo == hi then nextSlot else nextSlot[slots[lo].start := slots[hi].end]
    ensures EndsHold(Release(slots, i), nextSlot')
  {
    hide FreeList, Chain;
    LeftJoin(slots, first, brk, nextSlot, i);
    RightJoin(slots, first, brk, i);
    var lo := if JoinsLeft(slots, i) then i - 1 else i;
    var hi := if JoinsRight(slots, i) then i + 1 else i;
    hide Tiled;
    EndsReplace(slots, first, brk, nextSlot, lo, hi, [FreeSlot(slots[lo].start, slots[hi].end)], nextSlot');
  }

  lemma ReleasedList(slots: seq<Slot>, first: int, brk: int, nextSlot: map<int, int>, i: nat,
                     nextSlot': map<int, int>, nextFree': map<int, int>, anchor': int)
    requires Tiled(slots, first, brk) && 0 <= first && (first == 0 ==> brk == 0)
    requires EndsHold(slots, nextSlot) && i < |slots| && slots[i].LiveSlot?
    requires Released(slots, i, nextSlot, nextSlot', nextFree', anchor')
    ensures Chain(FreeList(Release(slots, i)), nextFree', anchor')
  {
    hide FreeList, Chain;
    LeftJoin(slots, first, brk, nextSlot, i);
    RightJoin(slots, first, brk, i);
    var lo := if JoinsLeft(slots, i) then i - 1 else i;
    var hi := if JoinsRight(slots, i) then i + 1 else i;
    var mid := FreeSlot(slots[lo].start, slots[hi].end);
    FreeConcat(slots[..lo], [mid]);
    FreeConcat(slots[..lo] + [mid], slots[hi + 1..]);
    SingleList(mid);
  }

  lemma ShapeFacts(slots: seq<Slot>, first: int, brk: int, nextSlot: map<int, int>, nextFree: map<int, int>,
                   anchor: int, units: nat)
    requires HeapShape(slots, first, brk, nextSlot, nextFree, anchor) && 0 < units <= MAX_UNITS
    ensures Shaped(slots, first, brk) && OnUnit(brk) && (|slots| > 0 ==> brk > 0)
    ensures forall k :: 0 <= k < |slots| ==> slots[k].start > 0
    ensures 0 <= first <= brk <= BRK_LIMIT && Walkable(slots, nextSlot, nextFree, anchor)
    ensures !FirstFit(slots, units, 0).Wraps?
    ensures FirstFit(slots, units, 0).At? ==>
      var s := slots[FirstFit(slots, units, 0).index]; s.FreeSlot? && s.start + units * UNIT <= s.end
  {
    hide Walkable, Chain, EndsHold;
    HeapWalkable(slots, first, brk, nextSlot, nextFree, anchor);
    forall k: nat | k < |slots| ensures slots[k].start > 0 && brk > 0 {
      Bounds(slots, first, brk, k);
    }
    NeverWraps(slots, first, brk, units, 0);
    FirstFitIsLowest(slots, first, brk, units, 0);
  }

  /** Where the chosen slot sits in the free list. */
  lemma BeforeCarve(slots: seq<Slot>, first: int, brk: int, nextSlot: map<int, int>, nextFree: map<int, int>,
                    anchor: int, k: nat, cut: int)
    requires HeapShape(slots, first, brk, nextSlot, nextFree, anchor) && k < |slots| && slots[k].FreeSlot?
    requires slots[k].start < cut
    ensures var list := FreeList(slots[..k]) + [slots[k].start] + FreeList(slots[k + 1..]);
      && Chain(list, nextFree, anchor) && Apart(list) && 0 !in list
      && slots[k].start in nextSlot && nextSlot[slots[k].start] == slots[k].end
      && (slots[k].end > cut ==> cut !in list)
  {
    hide FreeList, Tiled, Apart;
    NodeOfSlot(slots, k);
    ListApart(slots, first, brk);
    NodesPositive(slots, first, brk);
    CutNotListed(slots, first, brk, k, cut);
  }

  /** The words written for a take describe the slots after it. */
  lemma AfterCarve(slots: seq<Slot>, first: int, brk: int, nextSlot: map<int, int>, nextFree: map<int, int>,
                   anchor: int, k: nat, units: nat, nextSlot': map<int, int>, nextFree': map<int, int>, anchor': int)
    requires HeapShape(slots, first, brk, nextSlot, nextFree, anchor) && k < |slots| && slots[k].FreeSlot?
    requires 0 < units && slots[k].start + units * UNIT <= slots[k].end
    requires var cut := slots[k].start + units * UNIT;
      var larger := slots[k].end > cut + UNIT;
      && nextSlot' == (if larger then nextSlot[cut := slots[k].end][slots[k].start := cut] else nextSlot)
      && Chain(FreeList(slots[..k]) + ((if larger then [cut] else []) + FreeList(slots[k + 1..])), nextFree', anchor')
    ensures HeapShape(Take(slots, k, units), first, brk, nextSlot', nextFree', anchor')
  {
    hide FreeList, Tiled, Coalesced, Take, EndsHold, Chain;
    TakeShaped(slots, first, brk, k, units);
    Bounds(slots, first, brk, k);
    TakeLinks(slots, first, brk, k, units, nextSlot, nextSlot');
    var cut := slots[k].start + units * UNIT;
    var more := if slots[k].end > cut + UNIT then [cut] else [];
    var front, back := FreeList(slots[..k]), FreeList(slots[k + 1..]);
    assert front + (more + back) == front + more + back;
  }

  lemma NodesPositive(slots: seq<Slot>, first: int, brk: int)
    requires Tiled(slots, first, brk) && 0 <= first && (first == 0 ==> brk == 0)
    ensures 0 !in FreeList(slots)
  {
    FreeListSorted(slots, first, brk);
    if |slots| > 0 {
      Bounds(slots, first, brk, 0);
    }
  }

  /** An address strictly inside a slot is no node of the free list. */
  lemma CutNotListed(slots: seq<Slot>, first: int, brk: int, k: nat, cut: int)
    requires Tiled(slots, first, brk) && k < |slots| && slots[k].start < cut
    ensures cut < slots[k].end ==> cut !in FreeList(slots)
  {
    hide FreeList;
    if cut < slots[k].end && cut in FreeList(slots) {
      var i := ListedSlot(slots, cut);
      if i < k {
        Ordered(slots, first, brk, i, k);
      } else if i > k {
        Ordered(slots, first, brk, k, i);
      }
    }
  }

  /** The slots a take puts in place of slot `k`. */
  function Taken(s: Slot, units: nat): (mid: seq<Slot>)
    ensures |mid| > 0
  {
    var cut := s.start + units * UNIT;
    if s.end > cut + UNIT then [LiveSlot(s.start, cut), FreeSlot(cut, s.end)] else [LiveSlot(s.start, s.end)]
  }

  lemma TakenList(s: Slot, units: nat)
    ensures var cut := s.start + units * UNIT;
      FreeList(Taken(s, units)) == if s.end > cut + UNIT then [cut] else []
  {
    hide FreeList;
    var mid := Taken(s, units);
    SingleList(mid[0]);
    if |mid| == 2 {
      SingleList(mid[1]);
      FreeConcat([mid[0]], [mid[1]]);
      assert mid == [mid[0]] + [mid[1]];
    }
  }

  /** The words and the list of the slots after a take. */
  lemma TakeLinks(slots: seq<Slot>, first: int, brk: int, k: nat, units: nat,
                  nextSlot: map<int, int>, nextSlot': map<int, int>)
    requires Tiled(slots, first, brk) && EndsHold(slots, nextSlot) && k < |slots| && slots[k].FreeSlot?
    requires 0 < units && slots[k].start + units * UNIT <= slots[k].end
    requires var cut := slots[k].start + units * UNIT;
      nextSlot' == if slots[k].end > cut + UNIT then nextSlot[cut := slots[k].end][slots[k].start := cut] else nextSlot
    ensures EndsHold(Take(slots, k, units), nextSlot')
    ensures var cut := slots[k].start + units * UNIT;
      FreeList(Take(slots, k, units)) ==
      FreeList(slots[..k]) + (if slots[k].end > cut + UNIT then [cut] else []) + FreeList(slots[k + 1..])
  {
    hide FreeList, Tiled;
    var mid := Taken(slots[k], units);
    TakenList(slots[k], units);
    assert Take(slots, k, units) == slots[..k] + mid + slots[k + 1..];
    FreeConcat(slots[..k], mid);
    FreeConcat(slots[..k] + mid, slots[k + 1..]);
    EndsReplace(slots, first, brk, nextSlot, k, k, mid, nextSlot');
  }
}
