/** The free list threaded through the slots, as a chain of addresses. */
module FreeLists {
  import opened Arena

  /** Addresses of the free slots, in order. */
  function FreeList(slots: seq<Slot>): seq<int> {
    if |slots| == 0 then []
    else
      var last := slots[|slots| - 1];
      FreeList(slots[..|slots| - 1]) + if last.FreeSlot? then [last.start] else []
  }

  function NodeAt(list: seq<int>, i: nat): int {
    if i < |list| then list[i] else 0
  }

  function LastNode(list: seq<int>): int {
    if |list| == 0 then 0 else list[|list| - 1]
  }

  /** The anchor and the `next_free` words spell out the list; zero ends it. */
  ghost predicate Chain(list: seq<int>, nextFree: map<int, int>, anchor: int) {
    && anchor == NodeAt(list, 0)
    && (forall i :: 0 <= i < |list| ==> list[i] in nextFree && nextFree[list[i]] == NodeAt(list, i + 1))
  }

  /** The `next_slot` words hold the end of every slot that has a header. */
  ghost predicate EndsHold(slots: seq<Slot>, nextSlot: map<int, int>) {
    forall i :: 0 <= i < |slots| ==> EndHolds(slots[i], nextSlot)
  }

  predicate EndHolds(s: Slot, nextSlot: map<int, int>) {
    !s.LostSlot? ==> s.start in nextSlot && nextSlot[s.start] == s.end
  }

  ghost predicate Apart(list: seq<int>) {
    forall i, j :: 0 <= i < j < |list| ==> list[i] != list[j]
  }

  lemma ChainNext(list: seq<int>, nextFree: map<int, int>, anchor: int, m: nat)
    requires Chain(list, nextFree, anchor) && m < |list|
    ensures list[m] in nextFree && nextFree[list[m]] == NodeAt(list, m + 1)
  {
  }

  // ---------- Chain surgery ----------

  /** Unlinking node `m` by redirecting its predecessor, or the anchor. */
  lemma ChainRemove(list: seq<int>, nextFree: map<int, int>, anchor: int, m: nat,
                    nextFree': map<int, int>, anchor': int)
    requires Chain(list, nextFree, anchor) && Apart(list) && m < |list|
    requires m > 0 ==> nextFree' == nextFree[list[m - 1] := NodeAt(list, m + 1)][list[m] := 0] && anchor' == anchor
    requires m == 0 ==> nextFree' == nextFree[list[m] := 0] && anchor' == NodeAt(list, 1)
    ensures Chain(list[..m] + list[m + 1..], nextFree', anchor')
  {
    var l := list[..m] + list[m + 1..];
    forall i | 0 <= i < |l| ensures l[i] in nextFree' && nextFree'[l[i]] == NodeAt(l, i + 1) {
      var j := if i < m then i else i + 1;
      assert l[i] == list[j] && list[j] != list[m];
    }
  }

  /** Linking a new node in front of position `m`. */
  lemma ChainInsert(list: seq<int>, nextFree: map<int, int>, anchor: int, m: nat, node: int,
                    nextFree': map<int, int>, anchor': int)
    requires Chain(list, nextFree, anchor) && Apart(list) && m <= |list| && node !in list
    requires m > 0 ==> nextFree' == nextFree[list[m - 1] := node][node := NodeAt(list, m)] && anchor' == anchor
    requires m == 0 ==> nextFree' == nextFree[node := NodeAt(list, m)] && anchor' == node
    ensures Chain(list[..m] + [node] + list[m..], nextFree', anchor')
  {
    var l := list[..m] + [node] + list[m..];
    forall i | 0 <= i < |l| ensures l[i] in nextFree' && nextFree'[l[i]] == NodeAt(l, i + 1) {
      if i < m {
        assert l[i] == list[i];
      } else if i > m {
        assert l[i] == list[i - 1];
      }
    }
  }

  /** Redirecting node `m - 1` past node `m`. */
  lemma ChainSkip(list: seq<int>, nextFree: map<int, int>, anchor: int, m: nat)
    requires Chain(list, nextFree, anchor) && Apart(list) && 0 < m < |list|
    ensures Chain(list[..m] + list[m + 1..], nextFree[list[m - 1] := NodeAt(list, m + 1)], anchor)
  {
    var l := list[..m] + list[m + 1..];
    var nextFree' := nextFree[list[m - 1] := NodeAt(list, m + 1)];
    forall i | 0 <= i < |l| ensures l[i] in nextFree' && nextFree'[l[i]] == NodeAt(l, i + 1) {
      assert l[i] == list[if i < m then i else i + 1];
    }
  }

  lemma InsertApart(list: seq<int>, m: nat, node: int)
    requires Apart(list) && m <= |list| && node !in list
    ensures Apart(list[..m] + [node] + list[m..])
  {
    var l := list[..m] + [node] + list[m..];
    assert forall i :: 0 <= i < m ==> l[i] == list[i];
    assert forall i :: m < i < |l| ==> l[i] == list[i - 1];
  }

  // ---------- The list of a slot sequence ----------

  lemma SingleList(s: Slot)
    ensures FreeList([s]) == if s.FreeSlot? then [s.start] else []
  {
    assert [s][..0] == [];
  }

  lemma {:induction false} FreeConcat(a: seq<Slot>, b: seq<Slot>)
    ensures FreeList(a + b) == FreeList(a) + FreeList(b)
  {
    if |b| == 0 {
      assert a + b == a;
    } else {
      var c := a + b;
      FreeConcat(a, b[..|b| - 1]);
      assert c[..|c| - 1] == a + b[..|b| - 1];
    }
  }

  lemma FreeSplit(slots: seq<Slot>, k: nat)
    requires k <= |slots|
    ensures FreeList(slots) == FreeList(slots[..k]) + FreeList(slots[k..])
  {
    FreeConcat(slots[..k], slots[k..]);
    assert slots == slots[..k] + slots[k..];
  }

  lemma {:induction false} NoneInList(slots: seq<Slot>)
    ensures NoneFree(slots) <==> FreeList(slots) == []
  {
    if |slots| > 0 {
      NoneInList(slots[..|slots| - 1]);
    }
  }

  lemma {:induction false} ListedSlot(slots: seq<Slot>, a: int) returns (i: nat)
    requires a in FreeList(slots)
    ensures i < |slots| && slots[i].FreeSlot? && slots[i].start == a
  {
    if slots[|slots| - 1].FreeSlot? && slots[|slots| - 1].start == a {
      i := |slots| - 1;
    } else {
      i := ListedSlot(slots[..|slots| - 1], a);
    }
  }

  /** The free list is strictly sorted by address and lies inside the arena. */
  lemma {:induction false} FreeListSorted(slots: seq<Slot>, first: int, brk: int)
    requires Tiled(slots, first, brk)
    ensures forall i, j :: 0 <= i < j < |FreeList(slots)| ==> FreeList(slots)[i] < FreeList(slots)[j]
    ensures forall i :: 0 <= i < |FreeList(slots)| ==> first <= FreeList(slots)[i] < brk
  {
    if |slots| > 0 {
      var front := slots[..|slots| - 1];
      FreeListSorted(front, first, slots[|slots| - 1].start);
      Bounds(slots, first, brk, |slots| - 1);
    }
  }

  lemma ListApart(slots: seq<Slot>, first: int, brk: int)
    requires Tiled(slots, first, brk)
    ensures Apart(FreeList(slots))
  {
    FreeListSorted(slots, first, brk);
  }

  /** Index of the first free slot from `i` on. */
  function FreeIndex(slots: seq<Slot>, i: nat): (r: nat)
    requires i <= |slots|
    ensures i <= r <= |slots|
    ensures forall j :: i <= j < r ==> !slots[j].FreeSlot?
    ensures r < |slots| ==> slots[r].FreeSlot?
    decreases |slots| - i
  {
    if i < |slots| && !slots[i].FreeSlot? then FreeIndex(slots, i + 1) else i
  }

  /** A used stretch contributes nothing to the list. */
  lemma UsedStretch(slots: seq<Slot>, i: nat)
    requires i <= |slots|
    ensures FreeList(slots[..FreeIndex(slots, i)]) == FreeList(slots[..i])
  {
    var k := FreeIndex(slots, i);
    var gap := slots[i..k];
    assert slots[..k] == slots[..i] + gap;
    FreeConcat(slots[..i], gap);
    NoneInList(gap);
  }

  /** Standing at free slot `k`: it is the next node of the list, and the node after it is the
      next free slot. */
  lemma NodeOfSlot(slots: seq<Slot>, k: nat)
    requires k < |slots| && slots[k].FreeSlot?
    ensures FreeList(slots) == FreeList(slots[..k]) + [slots[k].start] + FreeList(slots[k + 1..])
    ensures FreeList(slots[..k + 1]) == FreeList(slots[..k]) + [slots[k].start]
    ensures var n := FreeIndex(slots, k + 1);
      NodeAt(FreeList(slots), |FreeList(slots[..k])| + 1) == if n < |slots| then slots[n].start else 0
  {
    assert slots[..k + 1][..k] == slots[..k];
    FreeSplit(slots, k + 1);
    var n := FreeIndex(slots, k + 1);
    UsedStretch(slots, k + 1);
    FreeSplit(slots, n);
    if n < |slots| {
      var rest := slots[n..];
      assert rest == [rest[0]] + rest[1..];
      FreeConcat([rest[0]], rest[1..]);
      assert FreeList([rest[0]]) == [rest[0].start] by {
        assert [rest[0]][..0] == [];
      }
    }
  }

  lemma FirstNode(slots: seq<Slot>)
    ensures var n := FreeIndex(slots, 0);
      NodeAt(FreeList(slots), 0) == (if n < |slots| then slots[n].start else 0) && FreeList(slots[..n]) == []
  {
    var n := FreeIndex(slots, 0);
    UsedStretch(slots, 0);
    assert slots[..0] == [];
    if n < |slots| {
      NodeOfSlot(slots, n);
    } else {
      assert slots[..n] == slots;
    }
  }

  // ---------- Ends ----------

  lemma EndsConcat(a: seq<Slot>, b: seq<Slot>, nextSlot: map<int, int>)
    ensures EndsHold(a + b, nextSlot) <==> EndsHold(a, nextSlot) && EndsHold(b, nextSlot)
  {
    var c := a + b;
    assert forall i :: 0 <= i < |a| ==> c[i] == a[i];
    assert forall i :: 0 <= i < |b| ==> b[i] == c[|a| + i];
  }

  /** Replacing a stretch: the new slots' ends must hold, the others' words must be unchanged. */
  lemma EndsReplace(slots: seq<Slot>, first: int, brk: int, nextSlot: map<int, int>, lo: nat, hi: nat,
                    mid: seq<Slot>, nextSlot': map<int, int>)
    requires Tiled(slots, first, brk) && EndsHold(slots, nextSlot) && lo <= hi < |slots|
    requires EndsHold(mid, nextSlot')
    requires forall a :: a in nextSlot && (a < slots[lo].start || slots[hi].end <= a) ==>
      a in nextSlot' && nextSlot'[a] == nextSlot[a]
    ensures EndsHold(slots[..lo] + mid + slots[hi + 1..], nextSlot')
  {
    forall i | 0 <= i < lo ensures EndHolds(slots[i], nextSlot') {
      Ordered(slots, first, brk, i, lo);
    }
    forall i | hi < i < |slots| ensures EndHolds(slots[i], nextSlot') {
      Ordered(slots, first, brk, hi, i);
    }
    EndsConcat(slots[..lo], mid, nextSlot');
    EndsConcat(slots[..lo] + mid, slots[hi + 1..], nextSlot');
  }

  // ---------- Growth behind the topmost free slot ----------

  /** The last node of the list is the last free slot. */
  lemma {:induction false} LastNodeIsLastFree(slots: seq<Slot>)
    requires !NoneFree(slots)
    ensures FreeList(slots) != [] && LastNode(FreeList(slots)) == slots[LastFree(slots)].start
  {
    var front := slots[..|slots| - 1];
    if !slots[|slots| - 1].FreeSlot? {
      var j := LastFree(slots);
      assert front[j] == slots[j];
      LastNodeIsLastFree(front);
      assert LastFree(front) == j;
    }
  }

  /** The list does not change: the topmost node only gets a longer slot. */
  lemma BehindList(slots: seq<Slot>, j: nat, brk: int, newBrk: int)
    requires j < |slots| && slots[j].FreeSlot? && forall k :: j < k < |slots| ==> !slots[k].FreeSlot?
    ensures FreeList(Behind(slots, j, brk, newBrk)) == FreeList(slots)
  {
    var b := Behind(slots, j, brk, newBrk);
    assert b[..j] == slots[..j];
    NodeOfSlot(slots, j);
    NodeOfSlot(b, j);
    NoneInList(slots[j + 1..]);
    NoneInList(b[j + 1..]);
  }

  lemma BehindEnds(slots: seq<Slot>, first: int, brk: int, nextSlot: map<int, int>, j: nat, newBrk: int)
    requires Tiled(slots, first, brk) && EndsHold(slots, nextSlot) && j < |slots|
    ensures EndsHold(Behind(slots, j, brk, newBrk), nextSlot[slots[j].start := brk])
  {
    var b := Behind(slots, j, brk, newBrk);
    forall i | 0 <= i < |b| ensures EndHolds(b[i], nextSlot[slots[j].start := brk]) {
      if i < j {
        assert b[i] == slots[i] && EndHolds(slots[i], nextSlot);
        StartsDistinct(slots, first, brk, i, j);
      }
    }
  }
}
