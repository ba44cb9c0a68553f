/** Element removal from the binary heap of binaryheap/remove.go, with the
    mutex removed and values taken to be integers.

    The heap is its backing array, its value-to-index table and its size
    counter. The helpers the removal code calls but which live outside
    remove.go are modelled as follows: `swap` as the plain exchange of two
    positions with both table entries rewritten; `bubble` as a parameter
    constrained by `IsBubble`; `getIndex` as the table lookup with -1 for a
    missing key; `getValue` as array indexing; `isEmpty` as a zero size;
    `isOutOfBounds` as an index outside [0, size); `removeFromTable` as the
    deletion of the value's key. */
module BinaryHeap {
  import opened Optional

  datatype Heap = Heap(arr: seq<int>, table: map<int, int>, size: int)

  /* ---------------------------------------------------------------------- */
  /* Invariants                                                              */
  /* ---------------------------------------------------------------------- */

  /** Every live element is recorded in the table at its current position. */
  predicate Tracks(h: Heap) {
    forall i :: 0 <= i < |h.arr| ==> h.arr[i] in h.table && h.table[h.arr[i]] == i
  }

  /** The index-table invariant: the array is exactly `size` long, every live
      element is tracked, and the table holds no other value. */
  predicate Consistent(h: Heap) {
    && |h.arr| == h.size
    && Tracks(h)
    && (forall v :: v in h.table ==> v in h.arr)
  }

  /** What the removal code needs in order not to index outside the array:
      the array length agrees with the counter and the table holds no
      negative index. */
  predicate WellFormed(h: Heap) {
    && |h.arr| == h.size
    && (forall v :: v in h.table ==> h.table[v] >= 0)
  }

  /** In a consistent heap the table lookup of a stored value is a valid
      position that holds that value. */
  lemma ConsistentLookup(h: Heap, v: int)
    requires Consistent(h) && v in h.table
    ensures 0 <= h.table[v] < |h.arr| && h.arr[h.table[v]] == v
  {
  }

  lemma ConsistentIsWellFormed(h: Heap)
    requires Consistent(h)
    ensures WellFormed(h)
  {
  }

  /* ---------------------------------------------------------------------- */
  /* bubble, by contract                                                     */
  /* ---------------------------------------------------------------------- */

  /** What `bubble(idx)` may do: reorder the live elements while keeping the
      table in step with every element it moves; leave stale table entries
      (keys that are no longer live) alone; and do nothing at all when `idx`
      is at or past the end of the array. */
  ghost predicate BubbleOk(before: Heap, idx: int, after: Heap) {
    && after.size == before.size
    && |after.arr| == |before.arr|
    && multiset(after.arr) == multiset(before.arr)
    && (Tracks(before) ==> after.table.Keys == before.table.Keys)
    && (Tracks(before) ==> Tracks(after))
    && (forall v :: v in before.table && v !in before.arr ==> v in after.table && after.table[v] == before.table[v])
    && (idx >= |before.arr| ==> after == before)
  }

  ghost predicate IsBubble(bubble: (Heap, int) -> Heap) {
    forall h, idx :: BubbleOk(h, idx, bubble(h, idx))
  }

  /** The contract admits sifts built from `Swap`: one step that exchanges
      `idx` with its successor is a `bubble`. */
  lemma SwapStepIsBubble()
    ensures IsBubble((h: Heap, i: int) => if 0 <= i && i + 1 < |h.arr| then Swap(h, i, i + 1) else h)
  {
  }

  /* ---------------------------------------------------------------------- */
  /* swap, removeLast                                                        */
  /* ---------------------------------------------------------------------- */

  /** `swap(i, j)`: exchange two positions and rewrite both table entries. */
  function Swap(h: Heap, i: int, j: int): (r: Heap)
    requires 0 <= i < |h.arr| && 0 <= j < |h.arr|
    ensures r.size == h.size && |r.arr| == |h.arr|
    ensures r.arr[i] == h.arr[j] && r.arr[j] == h.arr[i]
    ensures forall k :: 0 <= k < |h.arr| && k != i && k != j ==> r.arr[k] == h.arr[k]
    ensures multiset(r.arr) == multiset(h.arr)
    ensures Tracks(h) ==> Tracks(r)
    ensures r.table.Keys == h.table.Keys + {h.arr[i], h.arr[j]}
    ensures forall v :: v in h.table && v != h.arr[i] && v != h.arr[j] ==> r.table[v] == h.table[v]
  {
    var a := h.arr[i := h.arr[j]][j := h.arr[i]];
    var r := Heap(a, h.table[h.arr[i] := j][h.arr[j] := i], h.size);
    SwapMultiset(h.arr, i, j);
    r
  }

  lemma SwapMultiset(s: seq<int>, i: int, j: int)
    requires 0 <= i < |s| && 0 <= j < |s|
    ensures multiset(s[i := s[j]][j := s[i]]) == multiset(s)
  {
  }

  /** `removeLast`: cut the array down to its first `size - 1` elements. */
  function RemoveLast(h: Heap): (r: Heap)
    requires 1 <= h.size <= |h.arr| + 1
    ensures |r.arr| == h.size - 1 && r.arr <= h.arr
    ensures r.table == h.table && r.size == h.size
  {
    h.(arr := h.arr[..h.size - 1])
  }

  /* ---------------------------------------------------------------------- */
  /* remove                                                                  */
  /* ---------------------------------------------------------------------- */

  /** Lines 12-16 of `remove(idx)`: everything before `bubble`. Unless `idx`
      is already the last position the element there is swapped with the
      last one; then the array is cut by one and the counter decremented. */
  function TakeOut(h: Heap, idx: int): (r: Heap)
    requires |h.arr| == h.size >= 1 && idx >= 0
    ensures r.size == h.size - 1 && |r.arr| == |h.arr| - 1
    ensures idx < |h.arr| ==> multiset(r.arr) == multiset(h.arr) - multiset{h.arr[idx]}
    ensures idx < |h.arr| - 1 ==>
      && r.arr[idx] == h.arr[|h.arr| - 1]
      && forall k :: 0 <= k < |r.arr| && k != idx ==> r.arr[k] == h.arr[k]
    ensures idx >= |h.arr| - 1 ==> r.arr == h.arr[..|h.arr| - 1] && r.table == h.table
    ensures Tracks(h) ==> Tracks(r) && r.table.Keys == h.table.Keys
    ensures Tracks(h) && idx < |h.arr| ==> h.arr[idx] !in r.arr && r.table[h.arr[idx]] == |r.arr|
    ensures forall v :: v in h.table && v !in h.arr ==> v in r.table && r.table[v] == h.table[v]
  {
    var s := if idx < |h.arr| - 1 then Swap(h, idx, h.size - 1) else h;
    var r := RemoveLast(s);
    CutDropsRemoved(h, idx, s, r);
    CutKeepsTable(h, idx, s, r);
    CutPositions(h, idx, s, r);
    r.(size := r.size - 1)
  }

  /** Proof step of `TakeOut`: where the remaining elements sit after the
      swap and the cut. */
  lemma CutPositions(h: Heap, idx: int, s: Heap, r: Heap)
    requires |h.arr| == h.size >= 1 && idx >= 0
    requires s == if idx < |h.arr| - 1 then Swap(h, idx, h.size - 1) else h
    requires r == RemoveLast(s)
    ensures |r.arr| == |h.arr| - 1 && r.size == h.size
    ensures idx < |h.arr| - 1 ==>
      && r.arr[idx] == h.arr[|h.arr| - 1]
      && forall k :: 0 <= k < |r.arr| && k != idx ==> r.arr[k] == h.arr[k]
    ensures idx >= |h.arr| - 1 ==> r.arr == h.arr[..|h.arr| - 1] && r.table == h.table
  {
  }

  /** Proof step of `TakeOut`: the table after the swap and the cut. Live
      elements stay tracked, no key appears or disappears, the removed
      element's entry points at the vacated slot, and stale entries are
      untouched. */
  lemma CutKeepsTable(h: Heap, idx: int, s: Heap, r: Heap)
    requires |h.arr| == h.size >= 1 && idx >= 0
    requires s == if idx < |h.arr| - 1 then Swap(h, idx, h.size - 1) else h
    requires r == RemoveLast(s)
    ensures Tracks(h) ==> Tracks(r) && r.table.Keys == h.table.Keys
    ensures Tracks(h) && idx < |h.arr| ==> r.table[h.arr[idx]] == |r.arr|
    ensures forall v :: v in h.table && v !in h.arr ==> v in r.table && r.table[v] == h.table[v]
  {
  }

  /** The cut of `TakeOut` drops exactly the element that was at `idx`. */
  lemma CutDropsRemoved(h: Heap, idx: int, s: Heap, r: Heap)
    requires |h.arr| == h.size >= 1 && idx >= 0
    requires s == if idx < |h.arr| - 1 then Swap(h, idx, h.size - 1) else h
    requires r == RemoveLast(s)
    ensures idx < |h.arr| ==> multiset(r.arr) == multiset(h.arr) - multiset{h.arr[idx]}
    ensures Tracks(h) && idx < |h.arr| ==> h.arr[idx] !in r.arr
  {
    var last := |h.arr| - 1;
    assert s.arr == r.arr + [s.arr[last]];
    if idx < |h.arr| {
      assert s.arr[last] == h.arr[idx];
      assert multiset(s.arr) == multiset(h.arr);
      assert multiset(s.arr) == multiset(r.arr) + multiset{h.arr[idx]};
      if Tracks(h) {
        CutLeavesNoCopy(h, idx, s, r);
      }
    }
  }

  lemma CutLeavesNoCopy(h: Heap, idx: int, s: Heap, r: Heap)
    requires |h.arr| == h.size >= 1 && 0 <= idx < |h.arr|
    requires Tracks(h)
    requires s == if idx < |h.arr| - 1 then Swap(h, idx, h.size - 1) else h
    requires r == RemoveLast(s)
    ensures h.arr[idx] !in r.arr
  {
    assert Tracks(s);
    forall k | 0 <= k < |r.arr| ensures r.arr[k] != h.arr[idx] {
      assert r.arr[k] == s.arr[k];
      assert s.table[s.arr[k]] == k;
    }
  }

  /** `remove(idx)`: take the element out as above, then `bubble(idx)`. The
      source tests `idx < len(arr) - 1` but swaps with and cuts at
      `size - 1`; the two agree because `len(arr) == size` is required. */
  function RemoveAtIndex(h: Heap, idx: int, bubble: (Heap, int) -> Heap): (r: Heap)
    requires IsBubble(bubble)
    requires |h.arr| == h.size >= 1 && idx >= 0
    ensures r.size == h.size - 1 && |r.arr| == |h.arr| - 1
    ensures idx < |h.arr| ==> multiset(r.arr) == multiset(h.arr) - multiset{h.arr[idx]}
    ensures idx >= |h.arr| - 1 ==> r.arr == h.arr[..|h.arr| - 1] && r.table == h.table
    ensures Tracks(h) ==> Tracks(r) && r.table.Keys == h.table.Keys
    ensures Tracks(h) && idx < |h.arr| ==> h.arr[idx] !in r.arr && r.table[h.arr[idx]] == |r.arr|
  {
    var t := TakeOut(h, idx);
    assert BubbleOk(t, idx, bubble(t, idx));
    bubble(t, idx)
  }

  /** When `idx` was the last position `bubble` receives the new size as its
      index and changes nothing, so `remove` is exactly the cut. */
  lemma RemoveLastPositionSkipsBubble(h: Heap, bubble: (Heap, int) -> Heap)
    requires IsBubble(bubble)
    requires |h.arr| == h.size >= 1
    ensures RemoveAtIndex(h, h.size - 1, bubble) == TakeOut(h, h.size - 1)
  {
  }

  /* ---------------------------------------------------------------------- */
  /* Table helpers                                                           */
  /* ---------------------------------------------------------------------- */

  /** `getIndex`: the table lookup, -1 for a value with no entry. */
  function GetIndex(h: Heap, v: int): (i: int)
    ensures v in h.table ==> i == h.table[v]
    ensures v !in h.table ==> i == -1
    ensures WellFormed(h) ==> (i == -1 <==> v !in h.table)
  {
    if v in h.table then h.table[v] else -1
  }

  /** `isEmpty`: the counter is zero; with a right counter that means no
      element is live, and in a consistent heap that the table is empty. */
  function IsEmpty(h: Heap): (r: bool)
    ensures |h.arr| == h.size ==> (r <==> h.arr == [])
    ensures Consistent(h) ==> (r <==> h.table == map[])
  {
    ConsistentTableEmpty(h);
    h.size == 0
  }

  /** In a consistent heap the table is empty exactly when the array is. */
  lemma ConsistentTableEmpty(h: Heap)
    ensures Consistent(h) ==> (h.arr == [] <==> h.table == map[])
  {
    if Consistent(h) && h.arr != [] {
      assert h.arr[0] in h.table;
    }
    if Consistent(h) && h.arr == [] {
      assert forall v :: v in h.table ==> v in h.arr;
      assert h.table.Keys == {};
    }
  }

  /** `isOutOfBounds(idx)`: with a right counter, an index is in bounds
      exactly when it is a position of the array. */
  function IsOutOfBounds(h: Heap, idx: int): (r: bool)
    ensures |h.arr| == h.size ==> (!r <==> 0 <= idx < |h.arr|)
  {
    idx < 0 || idx >= h.size
  }

  /** `removeFromTable`: forget the value's entry. */
  function RemoveFromTable(h: Heap, v: int): (r: Heap)
    ensures v !in r.table && r.table.Keys == h.table.Keys - {v}
    ensures forall w :: w in r.table ==> r.table[w] == h.table[w]
    ensures r.arr == h.arr && r.size == h.size
  {
    h.(table := h.table - {v})
  }

  /* ---------------------------------------------------------------------- */
  /* Remove, RemoveAt                                                        */
  /* ---------------------------------------------------------------------- */

  /** `Remove(val)`: nothing happens on an empty heap or for a value without
      a table entry; otherwise the value's position is removed and its table
      entry deleted. */
  function RemoveValue(h: Heap, v: int, bubble: (Heap, int) -> Heap): (r: Heap)
    requires IsBubble(bubble)
    requires WellFormed(h)
    ensures IsEmpty(h) || v !in h.table ==> r == h
    ensures !IsEmpty(h) && v in h.table ==>
      && r.size == h.size - 1
      && |r.arr| == |h.arr| - 1
      && v !in r.table
  {
    if IsEmpty(h) then h
    else
      var idx := GetIndex(h, v);
      if idx == -1 then h
      else RemoveFromTable(RemoveAtIndex(h, idx, bubble), v)
  }

  /** On a consistent heap `Remove` of a stored value takes out exactly that
      value and leaves the heap consistent. */
  lemma RemoveValueKeepsConsistent(h: Heap, v: int, bubble: (Heap, int) -> Heap)
    requires IsBubble(bubble)
    requires Consistent(h)
    ensures WellFormed(h)
    ensures var r := RemoveValue(h, v, bubble);
      && Consistent(r)
      && multiset(r.arr) == multiset(h.arr) - multiset{v}
  {
    ConsistentIsWellFormed(h);
    if v in h.table {
      ConsistentLookup(h, v);
      var idx := h.table[v];
      var m := RemoveAtIndex(h, idx, bubble);
      var r := RemoveFromTable(m, v);
      assert r == RemoveValue(h, v, bubble);
      forall w | w in r.table ensures w in r.arr {
        assert w in h.arr && w != v;
        assert w in multiset(h.arr) - multiset{v};
        assert w in multiset(m.arr);
      }
      assert Tracks(r) by {
        forall i | 0 <= i < |r.arr| ensures r.arr[i] in r.table && r.table[r.arr[i]] == i {
          assert r.arr[i] != v;
        }
      }
    } else {
      forall i | 0 <= i < |h.arr| ensures h.arr[i] != v {
        assert h.arr[i] in h.table;
      }
      assert v !in multiset(h.arr);
    }
  }

  /** `RemoveAt(idx)` as written: the nil sentinel and no change for an
      empty heap or an index outside [0, size); otherwise the element at
      `idx` is returned and its position removed. The table entry of the
      returned element is left in place. */
  function RemoveAt(h: Heap, idx: int, bubble: (Heap, int) -> Heap): (r: (Heap, Option<int>))
    requires IsBubble(bubble)
    requires |h.arr| == h.size
    ensures r.1.None? <==> h.size == 0 || idx < 0 || idx >= h.size
    ensures r.1.None? ==> r.0 == h
    ensures r.1.Some? ==>
      && r.1.value == h.arr[idx]
      && r.0.size == h.size - 1
      && |r.0.arr| == |h.arr| - 1
      && multiset(r.0.arr) == multiset(h.arr) - multiset{h.arr[idx]}
  {
    if IsEmpty(h) || IsOutOfBounds(h, idx) then (h, None)
    else
      var val := h.arr[idx];
      (RemoveAtIndex(h, idx, bubble), Some(val))
  }

  /** The returned value keeps a table entry, which now points one past the
      end of the array, so the heap is no longer consistent. */
  lemma RemoveAtLeavesStaleEntry(h: Heap, idx: int, bubble: (Heap, int) -> Heap)
    requires IsBubble(bubble)
    requires Consistent(h) && 0 <= idx < h.size
    ensures var (r, val) := RemoveAt(h, idx, bubble);
      && val == Some(h.arr[idx])
      && h.arr[idx] in r.table
      && r.table[h.arr[idx]] == |r.arr|
      && !Consistent(r)
  {
  }

  /** The stale entry misleads a later `Remove`: after `RemoveAt(0)` on the
      consistent heap [1, 2], `Remove(1)` finds index 1 in the table, which
      is past the end, so no swap happens and the cut drops the live 2. */
  lemma RemoveAtThenRemoveDropsLiveValue(bubble: (Heap, int) -> Heap)
    requires IsBubble(bubble)
    ensures var h0 := Heap([1, 2], map[1 := 0, 2 := 1], 2);
      && Consistent(h0)
      && var (h1, val) := RemoveAt(h0, 0, bubble);
      && val == Some(1)
      && h1.arr == [2]
      && WellFormed(h1)
      && RemoveValue(h1, 1, bubble).arr == []
  {
    var h0 := Heap([1, 2], map[1 := 0, 2 := 1], 2);
    var t := TakeOut(h0, 0);
    assert t.arr == [2];
    assert BubbleOk(t, 0, bubble(t, 0));
    var h1 := RemoveAt(h0, 0, bubble).0;
    assert multiset(h1.arr) == multiset{2};
    assert h1.arr[0] in multiset(h1.arr);
    assert h1.arr == [2];
    assert h1.table.Keys == {1, 2};
    assert h1.table[1] == 1;
  }

  /** `RemoveAt` as evidently intended: like `Remove`, it also deletes the
      returned value's table entry. */
  function RemoveAtIntended(h: Heap, idx: int, bubble: (Heap, int) -> Heap): (r: (Heap, Option<int>))
    requires IsBubble(bubble)
    requires |h.arr| == h.size
    ensures r.1.None? <==> h.size == 0 || idx < 0 || idx >= h.size
    ensures r.1.None? ==> r.0 == h
    ensures r.1.Some? ==>
      && r.1.value == h.arr[idx]
      && r.0.size == h.size - 1
      && |r.0.arr| == |h.arr| - 1
      && multiset(r.0.arr) == multiset(h.arr) - multiset{h.arr[idx]}
      && r.1.value !in r.0.table
  {
    if IsEmpty(h) || IsOutOfBounds(h, idx) then (h, None)
    else
      var val := h.arr[idx];
      (RemoveFromTable(RemoveAtIndex(h, idx, bubble), val), Some(val))
  }

  /** The intended `RemoveAt` is `Remove` of the value at `idx`, so it keeps
      the heap consistent. */
  lemma RemoveAtIntendedKeepsConsistent(h: Heap, idx: int, bubble: (Heap, int) -> Heap)
    requires IsBubble(bubble)
    requires Consistent(h)
    ensures var (r, val) := RemoveAtIntended(h, idx, bubble);
      && Consistent(r)
      && (val.Some? ==> WellFormed(h) && r == RemoveValue(h, val.value, bubble))
  {
    if !IsEmpty(h) && !IsOutOfBounds(h, idx) {
      ConsistentIsWellFormed(h);
      var v := h.arr[idx];
      assert h.table[v] == idx;
      RemoveValueKeepsConsistent(h, v, bubble);
    }
  }
}
