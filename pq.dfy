/**
 * A binary min-heap priority queue over (value, priority) entries.
 *
 * The entries live in a growable array (the `heap` field, which only ever
 * grows by appending at the end and shrinks by removing the last slot) in
 * heap order: the parent of slot i is slot (i - 1) / 2, and the children of
 * slot i are slots 2i + 1 and 2i + 2.  A LOWER priority value means the entry
 * comes out FIRST.
 */
module PriorityQueue {

  /** One queue entry: an opaque value and its priority. */
  datatype Entry<V> = Entry(value: V, priority: int)

  /** Slot j holds a child of slot i. */
  predicate IsChild(i: int, j: int) {
    j == 2 * i + 1 || j == 2 * i + 2
  }

  /** Min-heap order: no slot has a smaller priority than its parent. */
  ghost predicate IsHeap<V>(h: seq<Entry<V>>) {
    forall i, j :: 0 <= i < |h| && 0 <= j < |h| && IsChild(i, j) ==> h[i].priority <= h[j].priority
  }

  /**
   * Heap order except between slot k and its parent, and k's parent is no
   * larger than k's children: the state bubble-up works on.
   */
  ghost predicate HeapExceptUp<V>(h: seq<Entry<V>>, k: nat) {
    && (forall i, j :: 0 <= i < |h| && 0 <= j < |h| && IsChild(i, j) && j != k ==> h[i].priority <= h[j].priority)
    && (forall i, c :: 0 <= i < |h| && 0 <= c < |h| && IsChild(i, k) && IsChild(k, c) ==> h[i].priority <= h[c].priority)
  }

  /**
   * Heap order except between slot k and its children, and k's parent is no
   * larger than k's children: the state bubble-down works on.
   */
  ghost predicate HeapExceptDown<V>(h: seq<Entry<V>>, k: nat) {
    && (forall i, j :: 0 <= i < |h| && 0 <= j < |h| && IsChild(i, j) && i != k ==> h[i].priority <= h[j].priority)
    && (forall i, c :: 0 <= i < |h| && 0 <= c < |h| && IsChild(i, k) && IsChild(k, c) ==> h[i].priority <= h[c].priority)
  }

  /** In a heap, the root has the least priority of all entries. */
  lemma {:induction false} RootIsMinimum<V>(h: seq<Entry<V>>, i: nat)
    requires IsHeap(h)
    requires i < |h|
    ensures h[0].priority <= h[i].priority
    decreases i
  {
    if 0 < i {
      RootIsMinimum(h, (i - 1) / 2);
    }
  }

  /** The same, stated over the contents of the heap. */
  lemma RootIsMinimumOfContents<V>(h: seq<Entry<V>>)
    requires IsHeap(h)
    requires 0 < |h|
    ensures forall e :: e in multiset(h) ==> h[0].priority <= e.priority
  {
    forall e | e in multiset(h)
      ensures h[0].priority <= e.priority
    {
      var i :| 0 <= i < |h| && h[i] == e;
      RootIsMinimum(h, i);
    }
  }

  /** One bubble-up swap of slot k with its larger parent moves the defect to the parent. */
  lemma SiftUpStep<V>(h: seq<Entry<V>>, k: nat)
    requires 0 < k < |h|
    requires HeapExceptUp(h, k)
    requires h[k].priority < h[(k - 1) / 2].priority
    ensures HeapExceptUp(h[k := h[(k - 1) / 2]][(k - 1) / 2 := h[k]], (k - 1) / 2)
  {
    assert IsChild((k - 1) / 2, k);
  }

  /** Bubble-up may stop at the root, or where the parent is no larger. */
  lemma SiftUpDone<V>(h: seq<Entry<V>>, k: nat)
    requires k < |h|
    requires HeapExceptUp(h, k)
    requires k == 0 || h[(k - 1) / 2].priority <= h[k].priority
    ensures IsHeap(h)
  {
  }

  /**
   * One bubble-down swap of slot k with its smaller child m (no larger than
   * k's other child) moves the defect to m.
   */
  lemma SiftDownStep<V>(h: seq<Entry<V>>, k: nat, m: nat)
    requires m < |h| && IsChild(k, m)
    requires HeapExceptDown(h, k)
    requires h[m].priority < h[k].priority
    requires 2 * k + 1 < |h| ==> h[m].priority <= h[2 * k + 1].priority
    requires 2 * k + 2 < |h| ==> h[m].priority <= h[2 * k + 2].priority
    ensures HeapExceptDown(h[k := h[m]][m := h[k]], m)
  {
  }

  /** Bubble-down may stop where no child is smaller. */
  lemma SiftDownDone<V>(h: seq<Entry<V>>, k: nat)
    requires k < |h|
    requires HeapExceptDown(h, k)
    requires 2 * k + 1 < |h| ==> h[k].priority <= h[2 * k + 1].priority
    requires 2 * k + 2 < |h| ==> h[k].priority <= h[2 * k + 2].priority
    ensures IsHeap(h)
  {
  }

  /**
   * Moving the last entry to the root and dropping the last slot leaves a
   * heap whose only defect is at the root, holding all entries but the old
   * root.
   */
  lemma RemoveRootStep<V>(h: seq<Entry<V>>)
    requires IsHeap(h)
    requires 0 < |h|
    ensures HeapExceptDown(h[0 := h[|h| - 1]][..|h| - 1], 0)
    ensures multiset(h[0 := h[|h| - 1]][..|h| - 1]) == multiset(h) - multiset{h[0]}
  {
    var n := |h|;
    var h' := h[0 := h[n - 1]][..n - 1];
    if 1 < n {
      assert h == [h[0]] + h[1..n - 1] + [h[n - 1]];
      assert h' == [h[n - 1]] + h[1..n - 1];
    }
  }

  /** Swapping two slots of a sequence keeps its multiset of elements. */
  lemma SwapKeepsContents<T>(s: seq<T>, i: nat, j: nat)
    requires i < |s| && j < |s|
    ensures multiset(s[i := s[j]][j := s[i]]) == multiset(s)
  {
  }

  class PQ<V> {
    /** The backing dynamic array, in heap order. */
    var heap: seq<Entry<V>>

    ghost predicate Valid()
      reads this
    {
      IsHeap(heap)
    }

    /** The entries in the queue, ignoring their arrangement. */
    ghost function Contents(): multiset<Entry<V>>
      reads this
    {
      multiset(heap)
    }

    /** A fresh queue is empty. */
    constructor ()
      ensures Valid()
      ensures heap == []
    {
      heap := [];
    }

    /** The queue holds no entries. */
    predicate IsEmpty()
      reads this
      ensures IsEmpty() <==> Contents() == multiset{}
    {
      |heap| == 0
    }

    /**
     * Moves the entry in slot `index` up towards the root, swapping it with
     * its parent while the parent's priority is greater than its own.
     */
    method BubbleUp(index: nat)
      requires index < |heap|
      requires HeapExceptUp(heap, index)
      modifies this
      ensures Valid()
      ensures |heap| == old(|heap|)
      ensures Contents() == old(Contents())
    {
      var i: nat := index;
      while 0 < i
        invariant i < |heap| == old(|heap|)
        invariant HeapExceptUp(heap, i)
        invariant Contents() == old(Contents())
        decreases i
      {
        var parent := (i - 1) / 2;
        var current, parentNode := heap[i], heap[parent];
        if parentNode.priority <= current.priority {
          SiftUpDone(heap, i);
          break;
        }
        SiftUpStep(heap, i);
        SwapKeepsContents(heap, i, parent);
        heap := heap[i := parentNode];
        heap := heap[parent := current];
        i := parent;
      }
      SiftUpDone(heap, i);
    }

    /**
     * Moves the entry in slot `index` down towards the leaves, swapping it
     * with its child of strictly smaller priority (the left child when both
     * children have the same priority) until no child is smaller.
     */
    method BubbleDown(index: nat)
      requires index < |heap|
      requires HeapExceptDown(heap, index)
      modifies this
      ensures Valid()
      ensures |heap| == old(|heap|)
      ensures Contents() == old(Contents())
    {
      var size := |heap|;
      var i: nat := index;
      while true
        invariant i < size == |heap|
        invariant HeapExceptDown(heap, i)
        invariant Contents() == old(Contents())
        decreases size - i
      {
        var left, right := 2 * i + 1, 2 * i + 2;
        var smallest := i;
        if left < size && heap[left].priority < heap[smallest].priority {
          smallest := left;
        }
        if right < size && heap[right].priority < heap[smallest].priority {
          smallest := right;
        }
        if smallest == i {
          SiftDownDone(heap, i);
          break;
        }
        var nodeIndex, nodeSmallest := heap[i], heap[smallest];
        SiftDownStep(heap, i, smallest);
        SwapKeepsContents(heap, i, smallest);
        heap := heap[i := nodeSmallest];
        heap := heap[smallest := nodeIndex];
        i := smallest;
      }
    }

    /** Appends an entry at the end of the array and bubbles it up. */
    method Insert(value: V, priority: int)
      requires Valid()
      modifies this
      ensures Valid()
      ensures |heap| == old(|heap|) + 1
      ensures Contents() == old(Contents()) + multiset{Entry(value, priority)}
    {
      heap := heap + [Entry(value, priority)];
      BubbleUp(|heap| - 1);
    }

    /** The value of the root entry, whose priority is the least in the queue. */
    method First() returns (value: V)
      requires Valid()
      requires 0 < |heap|
      ensures value == heap[0].value
      ensures forall e :: e in Contents() ==> heap[0].priority <= e.priority
    {
      RootIsMinimumOfContents(heap);
      value := heap[0].value;
    }

    /** The least priority in the queue, that of the root entry. */
    method FirstPriority() returns (priority: int)
      requires Valid()
      requires 0 < |heap|
      ensures priority == heap[0].priority
      ensures forall e :: e in Contents() ==> priority <= e.priority
    {
      RootIsMinimumOfContents(heap);
      priority := heap[0].priority;
    }

    /**
     * Removes the root entry and returns its value: the last entry moves to
     * the root, the array shrinks by one and the new root bubbles down.
     */
    method RemoveFirst() returns (value: V)
      requires Valid()
      requires 0 < |heap|
      modifies this
      ensures Valid()
      ensures |heap| == old(|heap|) - 1
      ensures value == old(heap[0]).value
      ensures Contents() == old(Contents()) - multiset{old(heap[0])}
      ensures forall e :: e in old(Contents()) ==> old(heap[0]).priority <= e.priority
    {
      RootIsMinimumOfContents(heap);
      var size := |heap|;
      var firstNode := heap[0];
      value := firstNode.value;
      var lastNode := heap[size - 1];
      RemoveRootStep(heap);
      heap := heap[0 := lastNode];
      heap := heap[..size - 1];
      if 0 < |heap| {
        BubbleDown(0);
      }
    }
  }

  /**
   * The drained prefix is ordered, lies at or below `floor`, and (once
   * non-empty) no entry left in the queue lies below `floor`.
   */
  ghost predicate DrainedBelow<V>(drained: seq<Entry<V>>, floor: int, rest: multiset<Entry<V>>) {
    && (forall i, j :: 0 <= i < j < |drained| ==> drained[i].priority <= drained[j].priority)
    && (forall i :: 0 <= i < |drained| ==> drained[i].priority <= floor)
    && (0 < |drained| ==> forall e :: e in rest ==> floor <= e.priority)
  }

  /** Moving a least entry of the queue to the end of the drained prefix keeps the order. */
  lemma DrainStep<V>(drained: seq<Entry<V>>, floor: int, rest: multiset<Entry<V>>, root: Entry<V>)
    requires DrainedBelow(drained, floor, rest)
    requires root in rest
    requires forall e :: e in rest ==> root.priority <= e.priority
    ensures DrainedBelow(drained + [root], root.priority, rest - multiset{root})
    ensures multiset(drained + [root]) + (rest - multiset{root}) == multiset(drained) + rest
  {
  }

  /** Inserts each entry in turn into an empty queue. */
  method InsertAll<V>(q: PQ<V>, entries: seq<Entry<V>>)
    requires q.Valid() && q.heap == []
    modifies q
    ensures q.Valid() && q.Contents() == multiset(entries)
  {
    for k := 0 to |entries|
      invariant q.Valid()
      invariant q.Contents() == multiset(entries[..k])
    {
      q.Insert(entries[k].value, entries[k].priority);
      assert entries[..k + 1] == entries[..k] + [entries[k]];
    }
    assert entries[..|entries|] == entries;
  }

  /**
   * Inserting a batch of entries and then removing the first entry until the
   * queue is empty hands the entries back in non-decreasing priority order.
   */
  method InsertThenDrain<V>(entries: seq<Entry<V>>) returns (drained: seq<Entry<V>>)
    ensures multiset(drained) == multiset(entries)
    ensures forall i, j :: 0 <= i < j < |drained| ==> drained[i].priority <= drained[j].priority
  {
    var q := new PQ<V>();
    InsertAll(q, entries);
    drained := [];
    ghost var floor := 0;
    while !q.IsEmpty()
      invariant q.Valid()
      invariant multiset(drained) + q.Contents() == multiset(entries)
      invariant DrainedBelow(drained, floor, q.Contents())
      decreases |q.heap|
    {
      var priority := q.FirstPriority();
      ghost var root, rest := q.heap[0], q.Contents();
      var value := q.RemoveFirst();
      DrainStep(drained, floor, rest, root);
      drained, floor := drained + [Entry(value, priority)], priority;
    }
  }
}
