/** The binary heap under the event loop: the sift procedures of CPython's `heapq` over the
    queue's own list, specified by the set of events it holds. */
module EventQueues {
  import opened Events
  import opened Options

  predicate HeapAt(h: seq<QueuedEvent>, i: nat)
    requires i < |h|
  {
    i == 0 || !Less(h[i], h[(i - 1) / 2])
  }

  ghost predicate HeapOrdered(h: seq<QueuedEvent>) {
    forall i :: 0 <= i < |h| ==> HeapAt(h, i)
  }

  ghost predicate Distinct(h: seq<QueuedEvent>) {
    forall i, j :: 0 <= i < j < |h| ==> h[i].sequence != h[j].sequence
  }

  ghost function Elements(h: seq<QueuedEvent>): set<QueuedEvent> {
    set x | x in h
  }

  /** The root of a heap is its least event, however the rest of the array is laid out. */
  lemma {:induction false} RootBelow(h: seq<QueuedEvent>, i: nat)
    requires HeapOrdered(h) && i < |h|
    ensures !Less(h[i], h[0])
  {
    if i != 0 {
      RootBelow(h, (i - 1) / 2);
      assert HeapAt(h, i);
    }
  }

  lemma RootIsLeast(h: seq<QueuedEvent>)
    requires HeapOrdered(h) && Distinct(h) && h != []
    ensures SequencesDistinct(Elements(h)) && h[0] in Elements(h) && h[0] == Least(Elements(h))
  {
    forall i | 0 <= i < |h| ensures !Less(h[i], h[0]) {
      RootBelow(h, i);
    }
    assert h[0] in Elements(h);
    LeastIsUnique(h[0], Elements(h));
  }

  ghost function Swapped(h: seq<QueuedEvent>, p: nat, q: nat): seq<QueuedEvent>
    requires p < |h| && q < |h|
  {
    h[q := h[p]][p := h[q]]
  }

  /** The lists a sift passes through: the same events, each once. */
  ghost predicate Rearranges(h: seq<QueuedEvent>, was: seq<QueuedEvent>) {
    |h| == |was| && Distinct(h) && Elements(h) == Elements(was)
  }

  lemma SwapRearranges(h: seq<QueuedEvent>, p: nat, q: nat)
    requires p < |h| && q < |h| && Distinct(h)
    ensures Rearranges(Swapped(h, p, q), h)
  {
    var s := Swapped(h, p, q);
    forall x | x in h ensures x in s {
      var i :| 0 <= i < |h| && h[i] == x;
      assert s[if i == p then q else if i == q then p else i] == x;
    }
  }

  /** Swapping an item with the parent it is below moves the one order violation a level up. */
  lemma RiseStep(h: seq<QueuedEvent>, pos: nat, parent: nat)
    requires 0 < pos < |h| && parent == (pos - 1) / 2 && Less(h[pos], h[parent])
    requires forall i :: 0 <= i < |h| && i != pos ==> HeapAt(h, i)
    requires forall i :: 0 < i < |h| && (i - 1) / 2 == pos ==> !Less(h[i], h[parent])
    ensures var s := Swapped(h, parent, pos);
      && (forall i :: 0 <= i < |s| && i != parent ==> HeapAt(s, i))
      && (parent > 0 ==> forall i :: 0 < i < |s| && (i - 1) / 2 == parent ==> !Less(s[i], s[(parent - 1) / 2]))
  {
    var s := Swapped(h, parent, pos);
    forall i | 0 <= i < |s| && i != parent ensures HeapAt(s, i) {
      assert i != pos ==> HeapAt(h, i);
    }
    if parent > 0 {
      assert HeapAt(h, parent);
      forall i | 0 < i < |s| && (i - 1) / 2 == parent ensures !Less(s[i], s[(parent - 1) / 2]) {
        assert i != pos ==> HeapAt(h, i);
      }
    }
  }

  /** Swapping the hole with the smaller child moves every order violation one level down. */
  lemma SinkStep(h: seq<QueuedEvent>, pos: nat, child: nat)
    requires pos < child < |h| && (child - 1) / 2 == pos
    requires forall i :: 0 < i < |h| && (i - 1) / 2 == pos ==> !Less(h[i], h[child])
    requires forall i :: 0 <= i < |h| && i != pos && (i - 1) / 2 != pos ==> HeapAt(h, i)
    requires pos > 0 ==> forall i :: 0 < i < |h| && (i - 1) / 2 == pos ==> !Less(h[i], h[(pos - 1) / 2])
    ensures var s := Swapped(h, child, pos);
      && (forall i :: 0 <= i < |s| && i != child && (i - 1) / 2 != child ==> HeapAt(s, i))
      && (forall i :: 0 < i < |s| && (i - 1) / 2 == child ==> !Less(s[i], s[(child - 1) / 2]))
  {
    var s := Swapped(h, child, pos);
    forall i | 0 <= i < |s| && i != child && (i - 1) / 2 != child ensures HeapAt(s, i) {
      if i != pos && (i - 1) / 2 != pos {
        assert HeapAt(h, i);
      }
    }
    forall i | 0 < i < |s| && (i - 1) / 2 == child ensures !Less(s[i], s[(child - 1) / 2]) {
      assert HeapAt(h, i);
    }
  }

  /** Taking the last item off and putting it over the root drops exactly the root, and
      disturbs the order nowhere but below it. */
  lemma TailReplacesRoot(h: seq<QueuedEvent>)
    requires HeapOrdered(h) && Distinct(h) && h != []
    ensures |h| == 1 ==> Elements(h) - {h[0]} == {}
    ensures |h| > 1 ==>
              var s := h[..|h| - 1][0 := h[|h| - 1]];
              && Distinct(s) && Elements(s) == Elements(h) - {h[0]}
              && forall i :: 0 < i < |s| && (i - 1) / 2 != 0 ==> HeapAt(s, i)
  {
    if |h| > 1 {
      var s := h[..|h| - 1][0 := h[|h| - 1]];
      forall x | x in h && x != h[0] ensures x in s {
        var i :| 0 <= i < |h| && h[i] == x;
        assert s[if i == |h| - 1 then 0 else i] == x;
      }
      forall i | 0 < i < |s| && (i - 1) / 2 != 0 ensures HeapAt(s, i) {
        assert HeapAt(h, i);
      }
    }
  }

  class EventQueue {
    var heap: seq<QueuedEvent>
    var sequence: nat

    ghost predicate Valid()
      reads this
    {
      && HeapOrdered(heap)
      && Distinct(heap)
      && (forall x :: x in heap ==> x.sequence < sequence && x.WellFormed())
    }

    ghost function Contents(): set<QueuedEvent>
      reads this
    {
      Elements(heap)
    }

    constructor ()
      ensures Valid() && Contents() == {} && sequence == 0
    {
      heap := [];
      sequence := 0;
    }

    /** `heapq._siftdown`: carry the item at `start` towards the root until its parent is not above it. */
    method SiftTowardsRoot(start: nat)
      requires start < |heap| && Distinct(heap)
      requires forall i :: 0 <= i < |heap| && i != start ==> HeapAt(heap, i)
      requires start > 0 ==> forall i :: 0 < i < |heap| && (i - 1) / 2 == start ==> !Less(heap[i], heap[(start - 1) / 2])
      modifies this`heap
      ensures HeapOrdered(heap) && Rearranges(heap, old(heap))
    {
      var newItem := heap[start];
      var pos := start;
      // The list with the item in hand put back at the hole.
      ghost var view := heap;
      while pos > 0
        invariant pos < |heap| && view == heap[pos := newItem]
        invariant Rearranges(view, old(heap))
        invariant forall i :: 0 <= i < |view| && i != pos ==> HeapAt(view, i)
        invariant pos > 0 ==> forall i :: 0 < i < |view| && (i - 1) / 2 == pos ==> !Less(view[i], view[(pos - 1) / 2])
      {
        var parentPos := (pos - 1) / 2;
        var parent := heap[parentPos];
        if !Less(newItem, parent) {
          break;
        }
        ghost var before := view;
        heap := heap[pos := parent];
        view := Swapped(view, parentPos, pos);
        SwapRearranges(before, parentPos, pos);
        RiseStep(before, pos, parentPos);
        pos := parentPos;
      }
      heap := heap[pos := newItem];
    }

    /** `heapq._siftup`: sink a hole from the root to a leaf along the smaller children, then
        bring the displaced item back up from there. */
    method SiftFromRoot()
      requires |heap| > 0 && Distinct(heap)
      requires forall i :: 0 < i < |heap| && (i - 1) / 2 != 0 ==> HeapAt(heap, i)
      modifies this`heap
      ensures HeapOrdered(heap) && Rearranges(heap, old(heap))
    {
      var end := |heap|;
      var newItem := heap[0];
      var pos := 0;
      var child := 1;
      ghost var view := heap;
      while child < end
        invariant pos < end == |heap| && child == 2 * pos + 1 && view == heap[pos := newItem]
        invariant Rearranges(view, old(heap))
        invariant forall i :: 0 <= i < |view| && i != pos && (i - 1) / 2 != pos ==> HeapAt(view, i)
        invariant pos > 0 ==> forall i :: 0 < i < |view| && (i - 1) / 2 == pos ==> !Less(view[i], view[(pos - 1) / 2])
        decreases end - child
      {
        var right := child + 1;
        if right < end && !Less(heap[child], heap[right]) {
          child := right;
        }
        ghost var before := view;
        heap := heap[pos := heap[child]];
        view := Swapped(view, child, pos);
        SwapRearranges(before, child, pos);
        SinkStep(before, pos, child);
        pos := child;
        child := 2 * pos + 1;
      }
      heap := heap[pos := newItem];
      SiftTowardsRoot(pos);
    }

    /** Insert an event and return the position it was given. */
    method Schedule(event: Event) returns (queued: QueuedEvent)
      requires Valid()
      modifies this
      ensures Valid()
      ensures queued == QueuedEvent(event.OccursAtUtc(), event.Priority(), old(sequence), event)
      ensures sequence == old(sequence) + 1
      ensures Contents() == old(Contents()) + {queued} && queued !in old(Contents())
      ensures |heap| == old(|heap|) + 1
    {
      queued := QueuedEvent(event.OccursAtUtc(), event.Priority(), sequence, event);
      sequence := sequence + 1;
      ghost var before := heap;
      heap := heap + [queued];
      ghost var appended := heap;
      forall i | 0 <= i < |heap| && i != |before| ensures HeapAt(heap, i) {
        assert HeapAt(before, i);
      }
      SiftTowardsRoot(|heap| - 1);
      assert forall x :: x in heap <==> x in Elements(heap);
      assert forall x :: x in Elements(appended) <==> x in before || x == queued;
    }

    /** The next event without removing it. */
    method Peek() returns (next: Option<QueuedEvent>)
      requires Valid()
      ensures next == if Contents() == {} then None else Some(Least(Contents()))
    {
      if |heap| > 0 {
        assert heap[0] in Contents();
        RootIsLeast(heap);
        next := Some(heap[0]);
      } else {
        next := None;
      }
    }

    /** Remove and return the next event; `None` is the error an empty queue raises. */
    method Pop() returns (next: Option<QueuedEvent>)
      requires Valid()
      modifies this`heap
      ensures Valid()
      ensures next == if old(Contents()) == {} then None else Some(Least(old(Contents())))
      ensures next.None? ==> heap == old(heap)
      ensures next.Some? ==> Contents() == old(Contents()) - {next.value} && |heap| == old(|heap|) - 1
    {
      if |heap| == 0 {
        return None;
      }
      assert heap[0] in Contents();
      RootIsLeast(heap);
      var last := heap[|heap| - 1];
      TailReplacesRoot(heap);
      heap := heap[..|heap| - 1];
      if |heap| > 0 {
        var returnItem := heap[0];
        heap := heap[0 := last];
        SiftFromRoot();
        assert forall x :: x in heap <==> x in Elements(heap);
        next := Some(returnItem);
      } else {
        next := Some(last);
      }
    }
  }
}
