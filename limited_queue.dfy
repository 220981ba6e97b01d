/** The array limited queue: a capped FIFO collection over a linked list that can
    also drop duplicates. Its two settings run trimming and de-duplication loops
    on the list whenever they are assigned. */
module LimitedQueue {
  import opened Wrappers
  import opened LinkedList
  import opened QueueSpec

  class ArrayLimitedQueue<T(==)> {
    /** The cap; a value of 0 or below means no cap is enforced on add. */
    var maxStoredItems: int
    /** Whether re-adding a present item removes it instead of storing it again. */
    var deleteExisting: bool
    /** The stored items, oldest first. */
    var list: seq<T>

    constructor ()
      ensures maxStoredItems == 1 && deleteExisting && list == []
    {
      maxStoredItems := 1;
      deleteExisting := true;
      list := [];
    }

    /** Assigning `maxStoredItems`; the observer then trims the list with an inclusive loop. */
    method SetMaxStoredItems(m: int)
      requires TrimInBounds(|list|, m)
      modifies this
      ensures maxStoredItems == m && deleteExisting == old(deleteExisting)
      ensures list == TrimAsWritten(old(list), m)
    {
      maxStoredItems := m;
      var sizeDiff := |list| - maxStoredItems;
      if 0 < sizeDiff && sizeDiff <= |list| {
        var k := 0;
        while k <= sizeDiff
          invariant 0 <= k <= sizeDiff + 1 <= |old(list)|
          invariant list == old(list)[k..]
          modifies this`list
        {
          list := RemoveAt(list, 0);
          k := k + 1;
        }
      }
    }

    /** Assigning `deleteExisting`; when it becomes (or stays) true, the observer
        runs the nested de-duplication loops, which must not read past the list. */
    method SetDeleteExisting(b: bool)
      requires b ==> DedupAsWritten(list).Completed?
      modifies this
      ensures deleteExisting == b && maxStoredItems == old(maxStoredItems)
      ensures list == if b then DedupAsWritten(old(list)).list else old(list)
      ensures b && old(list) != [] ==> list == [old(list)[0]] + KeepLast(old(list)[1..])
    {
      deleteExisting := b;
      if deleteExisting {
        if list != [] {
          DedupCompletedKeepsLastPastFront(list);
        }
        ghost var outcome := DedupAsWritten(list);
        var i := |list| - 1;
        while i > 0
          invariant Dedup(list, i, i - 1) == outcome
          modifies this`list
        {
          var j := i - 1;
          while j > 0
            invariant 0 <= j < i
            invariant Dedup(list, i, j) == outcome
          {
            if list[i] == list[j] {
              list := RemoveAt(list, j);
            }
            j := j - 1;
          }
          i := i - 1;
        }
      }
    }

    /** add(item:): see `QueueSpec.Added` for the new list and the returned item. */
    method Add(item: T) returns (r: Option<T>)
      modifies this
      ensures maxStoredItems == old(maxStoredItems) && deleteExisting == old(deleteExisting)
      ensures Update(list, r) == Added(old(list), maxStoredItems, deleteExisting, item)
    {
      var index := IndexOf(item);
      if index.Some? && deleteExisting {
        r := Some(list[index.value]);
        list := RemoveAt(list, index.value);
        return;
      }
      list := list + [item];
      r := CheckSize();
    }

    /** checkSize(): evicts the front item once a positive cap is exceeded. */
    method CheckSize() returns (r: Option<T>)
      modifies this
      ensures maxStoredItems == old(maxStoredItems) && deleteExisting == old(deleteExisting)
      ensures Update(list, r) == Evicted(old(list), maxStoredItems)
    {
      if !(0 < maxStoredItems && maxStoredItems < |list|) {
        return None;
      }
      var first := list[0];
      list := RemoveAt(list, 0);
      r := Some(first);
    }

    /** removableItems(forMaxSize:): the items a cap of `size` would push out, read
        one position at a time; positions past the end contribute nothing. */
    method RemovableItems(size: int) returns (r: seq<T>)
      ensures r == Removable(list, size)
    {
      var deletingArray: seq<T> := [];
      var removingIndex := 0;
      var sizeDiff := |list| - size;
      while sizeDiff > 0
        invariant 0 <= removingIndex && removingIndex + sizeDiff == |list| - size
        invariant sizeDiff < 0 ==> removingIndex == 0
        invariant deletingArray == list[..if removingIndex < |list| then removingIndex else |list|]
      {
        var node := NodeAt(list, removingIndex);
        if node.Some? {
          deletingArray := deletingArray + [node.value];
        }
        removingIndex := removingIndex + 1;
        sizeDiff := sizeDiff - 1;
      }
      assert list[..|list|] == list;
      r := deletingArray;
    }

    /** indexOf(item:): the position of the first stored copy of `item`. */
    function IndexOf(item: T): (r: Option<nat>)
      reads this
      ensures r.Some? <==> item in list
      ensures r.Some? ==> r.value < |list| && list[r.value] == item && item !in list[..r.value]
    {
      FirstIndex(list, item)
    }

    /** exists(item:): whether some stored item equals `item`. */
    function Exists(item: T): (b: bool)
      reads this
      ensures b <==> item in list
    {
      IndexOf(item) != None
    }

    /** count: the number of stored items. */
    function Count(): (n: nat)
      reads this
      ensures n == |list|
    {
      |list|
    }

    /** isEmpty: no item is stored. */
    function IsEmpty(): (b: bool)
      reads this
      ensures b <==> Count() == 0
    {
      list == []
    }

    /** The subscript: the item at `index`; the source asserts the index is in range. */
    function ItemAt(index: int): (x: T)
      reads this
      requires 0 <= index < Count()
      ensures x == list[index]
      ensures Exists(x) && IndexOf(x).value <= index
    {
      list[index]
    }

    /** removeAllItems() */
    method RemoveAllItems()
      modifies this
      ensures list == [] && IsEmpty()
      ensures maxStoredItems == old(maxStoredItems) && deleteExisting == old(deleteExisting)
    {
      list := [];
    }
  }

  /** A stored item exists exactly when its first position is known, and a
      queue is empty exactly when no item exists in it. */
  lemma ExistsIffIndexed<T>(q: ArrayLimitedQueue<T>, item: T)
    ensures q.Exists(item) <==> q.IndexOf(item).Some?
    ensures q.IsEmpty() <==> forall x :: !q.Exists(x)
  {
    if !q.IsEmpty() {
      assert q.Exists(q.list[0]);
    }
  }

  /** count agrees with the other queries: it bounds the positions the list can
      read, and it is what a cap of 0 would push out, so a cap of 0 would push
      out nothing exactly when the queue is empty. */
  lemma CountAgreesWithQueries<T>(q: ArrayLimitedQueue<T>)
    ensures forall k :: NodeAt(q.list, k).Some? <==> 0 <= k < q.Count()
    ensures |Removable(q.list, 0)| == q.Count()
    ensures q.IsEmpty() <==> Removable(q.list, 0) == []
  {
  }
}
