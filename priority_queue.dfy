/** The binary min-heap `PriorityQueue<TimerJob>`: an array of indexed items and
    a size, ordered by the job's due time and then by the insertion id. */
module PriorityQueues {
  import opened Utils

  /** `IndexedItem`: the stored job reference `job`, the job's `ExecutedTicks`
      as the comparison reads it (`due`), and the insertion `id`. */
  datatype Entry = Entry(due: int, job: nat, id: int)

  /** The queue order: earlier due time first, the smaller insertion id on a tie. */
  predicate Before(a: Entry, b: Entry)
  {
    a.due < b.due || (a.due == b.due && a.id < b.id)
  }

  /** `IndexedItem.CompareTo`: the value (due time) first, the id breaks ties;
      negative exactly when `a` comes before `b`. */
  function CompareTo(a: Entry, b: Entry): (c: int)
    ensures c < 0 <==> Before(a, b)
    ensures c > 0 <==> Before(b, a)
    ensures c == 0 <==> a.due == b.due && a.id == b.id
  {
    var c := CompareNumbers(a.due, b.due);
    if c == 0 then CompareNumbers(a.id, b.id) else c
  }

  /** Over entries with distinct ids, `Before` is a strict total order. */
  lemma BeforeIsStrictTotalOrder(a: Entry, b: Entry, c: Entry)
    ensures !Before(a, a)
    ensures Before(a, b) ==> !Before(b, a)
    ensures Before(a, b) && Before(b, c) ==> Before(a, c)
    ensures a.id != b.id ==> Before(a, b) || Before(b, a)
  {
  }

  /** The parent slot as C# computes `(index - 1) / 2`: the division truncates
      toward zero, so slot 0 is its own parent. */
  function Parent(i: nat): (p: nat)
    ensures i == 0 ==> p == 0
    ensures 0 < i ==> p < i && (i == 2 * p + 1 || i == 2 * p + 2)
  {
    if i == 0 then 0 else (i - 1) / 2
  }

  /** Every slot at index `lo` or beyond, other than the root, does not come
      before its parent. `lo == 1` is the heap property; `lo == 3` exempts the
      two edges into the root. */
  ghost predicate HeapFrom(s: seq<Entry>, lo: nat)
  {
    forall i :: lo <= i < |s| && 0 < i ==> !Before(s[i], s[Parent(i)])
  }

  ghost predicate IsHeap(s: seq<Entry>)
  {
    HeapFrom(s, 1)
  }

  lemma {:induction false} NotBeforeRoot(s: seq<Entry>, i: nat)
    requires IsHeap(s) && i < |s|
    ensures !Before(s[i], s[0])
    decreases i
  {
    if 0 < i {
      NotBeforeRoot(s, Parent(i));
    }
  }

  /** In a heap the root is the minimum: no entry comes before it, so it has the
      earliest due time and, among equal due times, the smallest insertion id. */
  lemma HeapRootIsMinimal(s: seq<Entry>)
    requires IsHeap(s) && 0 < |s|
    ensures forall e | e in s :: !Before(e, s[0])
    ensures forall e | e in s :: s[0].due <= e.due && (e.due == s[0].due ==> s[0].id <= e.id)
  {
    forall e | e in s
      ensures !Before(e, s[0])
    {
      var i :| 0 <= i < |s| && s[i] == e;
      NotBeforeRoot(s, i);
    }
  }

  /** The first slot of `s` whose job is `job`, or -1 (`List.FindIndex`-style). */
  function IndexOfJob(s: seq<Entry>, job: nat): (k: int)
    ensures -1 <= k < |s|
    ensures k == -1 <==> forall i :: 0 <= i < |s| ==> s[i].job != job
    ensures 0 <= k ==> s[k].job == job && forall i :: 0 <= i < k ==> s[i].job != job
  {
    if |s| == 0 then -1
    else if s[0].job == job then 0
    else
      var k := IndexOfJob(s[1..], job);
      if k == -1 then -1 else k + 1
  }

  /** Replacing slot `i` by the last slot and dropping the last slot removes
      exactly `s[i]` from the multiset. */
  lemma RemoveSlotMultiset(s: seq<Entry>, i: nat)
    requires i < |s|
    ensures multiset(s[i := s[|s| - 1]][..|s| - 1]) == multiset(s) - multiset{s[i]}
  {
    var n := |s|;
    assert s == s[..n - 1] + [s[n - 1]];
    if i < n - 1 {
      assert s[i := s[n - 1]][..n - 1] == s[..n - 1][i := s[n - 1]];
    } else {
      assert s[i := s[n - 1]][..n - 1] == s[..n - 1];
    }
  }

  /** `s` with slots `i` and `j` exchanged. */
  function Swapped(s: seq<Entry>, i: nat, j: nat): (t: seq<Entry>)
    requires i < |s| && j < |s|
    ensures |t| == |s| && t[i] == s[j] && t[j] == s[i]
    ensures forall m :: 0 <= m < |s| && m != i && m != j ==> t[m] == s[m]
  {
    s[i := s[j]][j := s[i]]
  }

  /** Ready to sift up from `k`: every edge from `lo` on holds except the one
      from `k` to its parent; the children of `k` do not come before the parent
      of `k`; and with `lo == 3` the entry at `k` does not come before the root. */
  ghost predicate SiftUpReady(s: seq<Entry>, k: nat, lo: nat)
  {
    && (lo == 1 || lo == 3)
    && k < |s|
    && (forall i :: lo <= i < |s| && 0 < i && i != k ==> !Before(s[i], s[Parent(i)]))
    && (lo <= k ==> forall c :: 0 < c < |s| && Parent(c) == k ==> !Before(s[c], s[Parent(k)]))
    && (lo == 3 ==> 0 < k && !Before(s[k], s[0]))
  }

  lemma SiftUpStep(s: seq<Entry>, k: nat, lo: nat)
    requires SiftUpReady(s, k, lo) && 0 < k && Before(s[k], s[Parent(k)])
    ensures SiftUpReady(Swapped(s, k, Parent(k)), Parent(k), lo)
  {
  }

  lemma SiftUpDone(s: seq<Entry>, k: nat, lo: nat)
    requires SiftUpReady(s, k, lo) && (k == 0 || !Before(s[k], s[Parent(k)]))
    ensures HeapFrom(s, lo)
  {
  }

  /** Ready to sift down from `k`: every edge holds except those into `k`, and
      the children of `k` do not come before the parent of `k`. */
  ghost predicate SiftDownReady(s: seq<Entry>, k: nat)
  {
    && (forall i :: 0 < i < |s| && Parent(i) != k ==> !Before(s[i], s[Parent(i)]))
    && (0 < k < |s| ==> forall c :: 0 < c < |s| && Parent(c) == k ==> !Before(s[c], s[Parent(k)]))
  }

  lemma SiftDownStep(s: seq<Entry>, k: nat, f: nat)
    requires SiftDownReady(s, k) && f < |s| && (f == 2 * k + 1 || f == 2 * k + 2)
    requires Before(s[f], s[k])
    requires forall c :: 0 < c < |s| && Parent(c) == k ==> !Before(s[c], s[f])
    ensures SiftDownReady(Swapped(s, k, f), f)
  {
    var t := Swapped(s, k, f);
    forall i | 0 < i < |t| && Parent(i) != f
      ensures !Before(t[i], t[Parent(i)])
    {
      if Parent(i) == k {
        assert t[Parent(i)] == s[f];
      } else if i == k {
        assert t[i] == s[f];
      }
    }
  }

  lemma SiftDownDone(s: seq<Entry>, k: nat)
    requires SiftDownReady(s, k)
    requires forall c :: 0 < c < |s| && Parent(c) == k ==> !Before(s[c], s[k])
    ensures IsHeap(s)
  {
  }

  /** After the root is replaced by the last slot, the rest of a heap below the
      root is ready to be sifted down from the root. */
  lemma RemoveRootReady(s: seq<Entry>)
    requires HeapFrom(s, 3) && 0 < |s|
    ensures SiftDownReady(s[0 := s[|s| - 1]][..|s| - 1], 0)
  {
    var t := s[0 := s[|s| - 1]][..|s| - 1];
    forall i | 0 < i < |t| && Parent(i) != 0
      ensures !Before(t[i], t[Parent(i)])
    {
      assert 3 <= i;
    }
  }

  /** A new last slot is ready to be sifted up, in a heap (`lo == 1`) or in a
      heap below a root that the new entry does not precede (`lo == 3`). */
  lemma AppendReady(s: seq<Entry>, x: Entry, lo: nat)
    requires lo == 1 ==> IsHeap(s)
    requires lo == 3 ==> HeapFrom(s, 3) && 0 < |s| && !Before(x, s[0])
    requires lo == 1 || lo == 3
    ensures SiftUpReady(s + [x], |s|, lo)
  {
    var t := s + [x];
    forall i | lo <= i < |t| && 0 < i && i != |s|
      ensures !Before(t[i], t[Parent(i)])
    {
      assert t[i] == s[i] && t[Parent(i)] == s[Parent(i)];
    }
  }

  /** Every entry of `m` is stored once, carries an id in `1..lastId`, and no
      other entry shares its id. */
  /** The id of an entry, as the term on which distinctness of ids is
      instantiated. */
  ghost function IdOf(e: Entry): int
  {
    e.id
  }

  ghost predicate IdsDistinct(m: multiset<Entry>, lastId: nat)
  {
    && (forall e | e in m :: 1 <= e.id <= lastId && m[e] == 1)
    && (forall a, b {:trigger IdOf(a), IdOf(b)} | a in m && b in m && IdOf(a) == IdOf(b) :: a == b)
  }

  /** Two different entries of a queue carry different ids. */
  lemma IdsApart(m: multiset<Entry>, lastId: nat, a: Entry, b: Entry)
    requires IdsDistinct(m, lastId) && a in m && b in m && a != b
    ensures a.id != b.id
  {
    assert IdOf(a) != IdOf(b);
  }

  lemma AddFreshId(m: multiset<Entry>, lastId: nat, x: Entry)
    requires IdsDistinct(m, lastId) && x.id == lastId + 1
    ensures IdsDistinct(m + multiset{x}, lastId + 1)
    ensures forall e | e in m :: e.id < x.id
  {
    assert x !in m;
  }

  lemma RemoveKeepsIds(m: multiset<Entry>, lastId: nat, x: Entry)
    requires IdsDistinct(m, lastId)
    ensures IdsDistinct(m - multiset{x}, lastId)
  {
    forall e | e in m - multiset{x}
      ensures e in m
    {
    }
  }

  lemma ReplaceKeepsIds(m: multiset<Entry>, lastId: nat, x: Entry, y: Entry)
    requires IdsDistinct(m, lastId) && x in m && y.id == x.id
    ensures IdsDistinct(m - multiset{x} + multiset{y}, lastId)
  {
    var r := m - multiset{x};
    RemoveKeepsIds(m, lastId, x);
    forall z | z in r
      ensures IdOf(z) != IdOf(y)
    {
      assert z in m && z != x && IdOf(y) == IdOf(x);
    }
  }

  class PriorityQueue {
    var items: array<Entry>
    var size: nat
    /** The number of ids this queue has handed out: the source's `_count`,
        counted from its start value, so the first id is 1. */
    var lastId: nat

    ghost function Contents(): multiset<Entry>
      reads this, items
      requires size <= items.Length
    {
      multiset(items[..size])
    }

    /** Structural invariant: room for the entries, and every stored entry is
        stored once, carries an id already issued, and no other entry has it. */
    ghost predicate Valid()
      reads this, items
    {
      && 0 < items.Length
      && size <= items.Length
      && IdsDistinct(Contents(), lastId)
    }

    /** `PriorityQueue(capacity)`; doubling needs a positive capacity. */
    constructor (capacity: nat)
      requires 0 < capacity
      ensures Valid() && IsHeap(items[..size])
      ensures fresh(items) && items.Length == capacity
      ensures size == 0 && lastId == 0 && Contents() == multiset{}
    {
      items := new Entry[capacity];
      size := 0;
      lastId := 0;
    }

    /** `Count`: the number of stored entries. */
    function Count(): (n: nat)
      reads this, items
      requires Valid()
      ensures n == |Contents()|
    {
      size
    }

    method Swap(i: nat, j: nat)
      requires size <= items.Length && i < size && j < size
      modifies items
      ensures items[..] == old(items[..])[i := old(items[j])][j := old(items[i])]
      ensures multiset(items[..size]) == old(multiset(items[..size]))
    {
      var temp := items[i];
      items[i] := items[j];
      items[j] := temp;
      assert items[..size] == old(items[..size])[i := old(items[j])][j := old(items[i])];
    }

    /** `IsHigherPriority`: the entry in slot `left` comes strictly before the
        one in slot `right` under (due time, id). */
    predicate IsHigherPriority(left: nat, right: nat)
      reads this, items
      requires left < items.Length && right < items.Length
      ensures IsHigherPriority(left, right) <==> Before(items[left], items[right])
    {
      CompareTo(items[left], items[right]) < 0
    }

    /** Sift-up (`Percolate`): swaps the entry at `index` with its parent while it
        comes before it. */
    method Percolate(index: int, ghost lo: nat)
      requires size <= items.Length
      modifies items
      ensures multiset(items[..size]) == old(multiset(items[..size]))
      ensures old(0 <= index && SiftUpReady(items[..size], index, lo)) ==> HeapFrom(items[..size], lo)
      ensures old(0 < index < size && !Before(items[index], items[0])) ==> items[0] == old(items[0])
      decreases if index < 0 then 0 else index
    {
      if index >= size || index < 0 {
        return;
      }
      // The source also returns when the parent is negative, which it never is.
      var parent := Parent(index);
      if parent == index {
        if SiftUpReady(items[..size], index, lo) {
          SiftUpDone(items[..size], index, lo);
        }
        return;
      }
      if IsHigherPriority(index, parent) {
        ghost var s := items[..size];
        Swap(index, parent);
        assert items[..size] == Swapped(s, index, parent);
        if SiftUpReady(s, index, lo) {
          SiftUpStep(s, index, lo);
        }
        Percolate(parent, lo);
      } else if SiftUpReady(items[..size], index, lo) {
        SiftUpDone(items[..size], index, lo);
      }
    }

    /** Sift-down (`Heapify`): swaps the entry at `index` with its first child
        while a child comes before it. */
    method Heapify(index: int)
      requires size <= items.Length
      modifies items
      ensures multiset(items[..size]) == old(multiset(items[..size]))
      ensures old(0 <= index && SiftDownReady(items[..size], index)) ==> IsHeap(items[..size])
      decreases size - index
    {
      if index >= size || index < 0 {
        if 0 <= index && SiftDownReady(items[..size], index) {
          SiftDownDone(items[..size], index);
        }
        return;
      }
      var left := 2 * index + 1;
      var right := 2 * index + 2;
      var first := index;
      if left < size && IsHigherPriority(left, first) {
        first := left;
      }
      if right < size && IsHigherPriority(right, first) {
        first := right;
      }
      ghost var s := items[..size];
      assert forall c :: 0 < c < size && Parent(c) == index ==> c == left || c == right;
      if first != index {
        Swap(index, first);
        assert items[..size] == Swapped(s, index, first);
        if SiftDownReady(s, index) {
          SiftDownStep(s, index, first);
        }
        Heapify(first);
      } else if SiftDownReady(s, index) {
        SiftDownDone(s, index);
      }
    }

    /** `Peek`: the root's entry, or `None` (the source's `default(T)`) when empty. */
    method Peek() returns (r: Option<Entry>)
      requires Valid()
      ensures size == 0 ==> r == None
      ensures 0 < size ==> r == Some(items[0])
      ensures IsHeap(items[..size]) && r.Some? ==> forall e | e in Contents() :: !Before(e, r.value)
    {
      if size == 0 {
        return None;
      }
      if IsHeap(items[..size]) {
        HeapRootIsMinimal(items[..size]);
      }
      return Some(items[0]);
    }

    /** `RemoveAt`: the last entry moves into `index`, then the heap is sifted
        from the root. Only for `index == 0` does that restore the heap. */
    method RemoveAt(index: nat)
      requires Valid() && index < size
      modifies this, items
      ensures Valid() && items == old(items) && lastId == old(lastId)
      ensures size == old(size) - 1
      ensures Contents() == old(Contents()) - multiset{old(items[index])}
      ensures index == 0 && old(HeapFrom(items[..size], 3)) ==> IsHeap(items[..size])
    {
      ghost var s := items[..size];
      ghost var ready := index == 0 && HeapFrom(s, 3);
      MoveLastInto(index);
      if ready {
        RemoveRootReady(s);
        assert items[..size] == s[0 := s[|s| - 1]][..|s| - 1];
        assert SiftDownReady(items[..size], 0);
      }
      Heapify(0);
      assert ready ==> IsHeap(items[..size]);
    }

    /** The first half of `RemoveAt`: the last entry moves into `index` and its
        old slot is cleared. */
    method MoveLastInto(index: nat)
      requires Valid() && index < size
      modifies this, items
      ensures Valid() && items == old(items) && lastId == old(lastId) && size == old(size) - 1
      ensures items[..size] == old(items[..size])[index := old(items[size - 1])][..size]
      ensures Contents() == old(Contents()) - multiset{old(items[index])}
    {
      ghost var s := items[..size];
      RemoveKeepsIds(multiset(s), lastId, s[index]);
      size := size - 1;
      items[index] := items[size];
      items[size] := Entry(0, 0, 0);
      assert items[..size] == s[index := s[|s| - 1]][..|s| - 1];
      RemoveSlotMultiset(s, index);
    }

    /** `Clear`: a fresh array of the same capacity; the id counter goes on. */
    method Clear()
      requires Valid()
      modifies this
      ensures Valid() && IsHeap(items[..size])
      ensures fresh(items) && items.Length == old(items.Length)
      ensures size == 0 && lastId == old(lastId) && Contents() == multiset{}
    {
      items := new Entry[items.Length];
      size := 0;
    }

    /** `Dequeue`: returns the root and removes it. On an empty queue the source
        indexes slot -1, so the call requires an entry. */
    method Dequeue() returns (r: Entry)
      requires Valid() && 0 < size
      modifies this, items
      ensures Valid() && items == old(items) && lastId == old(lastId)
      ensures r == old(items[0])
      ensures size == old(size) - 1
      ensures Contents() == old(Contents()) - multiset{r}
      ensures old(HeapFrom(items[..size], 3)) ==> IsHeap(items[..size])
      ensures old(IsHeap(items[..size])) ==> forall e | e in old(Contents()) :: !Before(e, r)
    {
      var top := Peek();
      r := top.value;
      RemoveAt(0);
    }

    /** The growth step of `Enqueue`: a new array of twice the length, with the
        old entries copied (`Array.Copy`). */
    method Grow()
      requires Valid() && size == items.Length
      modifies this
      ensures Valid() && fresh(items) && items.Length == 2 * old(items.Length)
      ensures size == old(size) && lastId == old(lastId)
      ensures items[..size] == old(items[..size])
    {
      var temp := items;
      ghost var s := temp[..];
      assert s == temp[..size];
      assert IdsDistinct(multiset(s), lastId);
      items := new Entry[items.Length * 2];
      forall i | 0 <= i < temp.Length {
        items[i] := temp[i];
      }
      assert temp[..] == s;
      assert items[..size] == s;
      assert Contents() == multiset(s);
    }

    /** The part of `Enqueue` after any growth: the job with the next id goes
        into the first free slot and is sifted up. With `lo == 1` the queue is a
        heap and stays one; with `lo == 3` only the edges into the root may be
        broken, and a new entry that does not precede the root keeps it so. */
    method Insert(job: nat, due: int, ghost lo: nat)
      requires Valid() && size < items.Length && (lo == 1 || lo == 3)
      requires lo == 1 ==> IsHeap(items[..size])
      requires lo == 3 ==> 0 < size && HeapFrom(items[..size], 3) && !Before(Entry(due, job, lastId + 1), items[0])
      modifies this, items
      ensures Valid() && items == old(items)
      ensures size == old(size) + 1 && lastId == old(lastId) + 1
      ensures Contents() == old(Contents()) + multiset{Entry(due, job, lastId)}
      ensures forall e | e in old(Contents()) :: e.id < lastId
      ensures HeapFrom(items[..size], lo)
      ensures lo == 3 ==> items[0] == old(items[0])
    {
      ghost var s := items[..size];
      var x := Place(job, due);
      AppendReady(s, x, lo);
      assert SiftUpReady(items[..size], size - 1, lo);
      assert items[size - 1] == items[..size][size - 1] == x;
      if lo == 3 {
        assert items[0] == items[..size][0] == s[0];
      }
      ghost var m := Contents();
      Percolate(size - 1, lo);
      assert Contents() == m;
    }

    /** The first half of `Insert`: the job with the next id goes into the first
        free slot. */
    method Place(job: nat, due: int) returns (x: Entry)
      requires Valid() && size < items.Length
      modifies this, items
      ensures Valid() && items == old(items) && size == old(size) + 1 && lastId == old(lastId) + 1
      ensures x == Entry(due, job, lastId)
      ensures items[..size] == old(items[..size]) + [x]
      ensures Contents() == old(Contents()) + multiset{x}
      ensures forall e | e in old(Contents()) :: e.id < lastId
    {
      ghost var s := items[..size];
      var index := size;
      size := size + 1;
      lastId := lastId + 1;
      x := Entry(due, job, lastId);
      items[index] := x;
      assert items[..size] == s + [x];
      AddFreshId(multiset(s), lastId - 1, x);
    }

    /** `Enqueue`: doubles the array when it is full, then stores the job with
        the next id in the first free slot and sifts it up (`lo` as for
        `Insert`). */
    method Enqueue(job: nat, due: int, ghost lo: nat)
      requires Valid() && (lo == 1 || lo == 3)
      requires lo == 1 ==> IsHeap(items[..size])
      requires lo == 3 ==> 0 < size && HeapFrom(items[..size], 3) && !Before(Entry(due, job, lastId + 1), items[0])
      modifies this, items
      ensures Valid()
      ensures size == old(size) + 1 && lastId == old(lastId) + 1
      ensures Contents() == old(Contents()) + multiset{Entry(due, job, lastId)}
      ensures forall e | e in old(Contents()) :: e.id < lastId
      ensures old(size) < old(items.Length) ==> items == old(items)
      ensures old(size) == old(items.Length) ==> fresh(items) && items.Length == 2 * old(items.Length)
      ensures HeapFrom(items[..size], lo)
      ensures lo == 3 ==> items[0] == old(items[0])
    {
      ghost var s := items[..size];
      assert Contents() == multiset(s);
      if size >= items.Length {
        Grow();
      }
      assert items[..size] == s && Contents() == multiset(s);
      assert 0 < size ==> items[0] == s[0];
      Insert(job, due, lo);
    }

    /** A change to the root job's `ExecutedTicks`. The slot holds a reference
        to that job, so the comparison sees the new due time at once; this
        happens when an interval job reschedules itself while it is the root. */
    method SetRootDue(due: int)
      requires Valid() && 0 < size
      modifies items
      ensures Valid()
      ensures items[0] == old(items[0]).(due := due)
      ensures items[1..size] == old(items[1..size])
      ensures Contents() == old(Contents()) - multiset{old(items[0])} + multiset{items[0]}
      ensures old(IsHeap(items[..size])) ==> HeapFrom(items[..size], 3)
    {
      ghost var s := items[..size];
      items[0] := items[0].(due := due);
      assert items[..size] == s[0 := items[0]];
      ReplaceKeepsIds(multiset(s), lastId, s[0], items[0]);
    }

    /** An interval job at the root reschedules itself: its due time moves to
        `due` in place (`SetRootDue`), and `Enqueue` then adds a second entry
        for it under the next id, which sorts after the root it sits below. */
    method RescheduleRoot(due: int) returns (x: Entry)
      requires Valid() && IsHeap(items[..size]) && 0 < size
      modifies this, items
      ensures Valid() && HeapFrom(items[..size], 3) && 0 < size
      ensures x == Entry(due, old(items[0].job), lastId) && lastId == old(lastId) + 1
      ensures items[0] == old(items[0]).(due := due)
      ensures Contents() == old(Contents()) - multiset{old(items[0])} + multiset{old(items[0]).(due := due)} + multiset{x}
      ensures fresh(items) || items == old(items)
    {
      var e := items[0];
      assert items[..size][0] == e;
      assert e.id <= lastId;
      SetRootDue(due);
      assert !Before(Entry(due, e.job, lastId + 1), items[0]);
      Enqueue(e.job, due, 3);
      x := Entry(due, e.job, lastId);
    }

    /** `Remove`: scans the slots in array order and removes the first entry
        holding `job`; the heap is sifted from the root only. */
    method Remove(job: nat) returns (found: bool)
      requires Valid()
      modifies this, items
      ensures Valid() && items == old(items) && lastId == old(lastId)
      ensures found <==> IndexOfJob(old(items[..size]), job) != -1
      ensures !found ==> size == old(size) && items[..] == old(items[..])
      ensures found ==> size == old(size) - 1
      ensures found ==> Contents() == old(Contents()) - multiset{old(items[IndexOfJob(items[..size], job)])}
      ensures found && IndexOfJob(old(items[..size]), job) == 0 && old(IsHeap(items[..size])) ==> IsHeap(items[..size])
    {
      var i := 0;
      while i < size
        invariant 0 <= i <= size
        invariant forall j :: 0 <= j < i ==> items[j].job != job
      {
        if items[i].job == job {
          assert IndexOfJob(items[..size], job) == i;
          RemoveAt(i);
          return true;
        }
        i := i + 1;
      }
      return false;
    }
  }
}
