/** The hash index in shared memory (src/internal/index.rs). */
module HashIndex {
  import opened Bytes
  import opened Results
  import opened SlotModel
  import opened SlotMemory
  import opened IndexModel
  import opened IndexLinks
  import opened Semaphores

  /** The ceiling of three quarters of the capacity. */
  function TotalBuckets(capacity: nat): (total: nat)
    ensures 4 * total >= 3 * capacity && (total > 0 ==> 4 * (total - 1) < 3 * capacity)
    ensures capacity > 0 ==> 0 < total <= capacity
  {
    (3 * capacity + 3) / 4
  }

  class Index<K(==,!new)> {
    const keys: Keys<K>
    const totalBuckets: nat
    const buckets: array<Offset>
    const slots: Slots
    const semaphores: SemaphoreSet

    /** The index that heads and nodes stand for. */
    ghost var view: Ix<K>

    /** The memory is the linked form of `view`. */
    ghost predicate Linked()
      reads this, buckets, slots, slots.memory
    {
      && slots.Valid()
      && buckets.Length == totalBuckets == |view.chains| > 0
      && Links(keys, buckets[..], slots.view, view)
    }

    ghost predicate Valid()
      reads this, buckets, slots, slots.memory, semaphores.values, semaphores.adjust
    {
      && Linked()
      && semaphores.AllFree() && semaphores.numRecords == 0
    }

    constructor (keys: Keys<K>, size: nat)
      requires Lawful(keys) && 0 < size < USIZE_LIMIT
      ensures Valid() && this.keys == keys
      ensures fresh(buckets) && fresh(slots) && fresh(slots.memory)
      ensures fresh(semaphores) && fresh(semaphores.values) && fresh(semaphores.adjust)
      ensures view == IxCreate(size, TotalBuckets(size))
      ensures totalBuckets == (3 * size + 3) / 4
      ensures view.entries == map[] && view.free == Iota(size)
      ensures view.chains == seq(totalBuckets, _ => [])
      ensures slots.capacity == size
    {
      var total := TotalBuckets(size);
      var dataSize := NodeSize(keys);
      var memory := new byte[HEADER_SIZE + size * (METADATA_SIZE + dataSize)](_ => 0);
      var nodeSlots := new Slots(0, memory, size, dataSize);
      var semaphoreSet := new SemaphoreSet(0);
      var heads := new Offset[total](_ => NoOffset());
      this.keys := keys;
      totalBuckets := total;
      buckets := heads;
      slots := nodeSlots;
      semaphores := semaphoreSet;
      view := IxCreate(size, total);
      new;
      CreateLinks(keys, size, total);
      assert buckets[..] == seq(total, _ => NoOffset());
    }

    method Hash(key: K) returns (b: nat)
      requires totalBuckets > 0
      ensures b == Bucket(keys, key, totalBuckets)
      ensures b == keys.hash(key) % totalBuckets
    {
      b := keys.hash(key) % totalBuckets;
    }

    /** The length of a chain; none longer than the index has slots. */
    ghost function ChainLength(b: nat): nat
      reads this
    {
      if b < |view.chains| then |view.chains[b]| else 0
    }

    /** The node at position `j` of chain `b`. */
    method ReadNode(index: nat, ghost b: nat, ghost j: nat) returns (node: Node<K>)
      requires Linked()
      requires b < |view.chains| && j < |view.chains[b]| && index == view.chains[b][j]
      ensures IsNode(view, b, j, index, node)
    {
      ReadNodeAt(keys, buckets[..], slots.view, view, b, j);
      var slice := slots.Get(index);
      node := DecodeNode(keys, slice);
    }

    /** Appends an entry to the chain of its key, or fails without a change when no slot is free. */
    method Insert(key: K, position: nat) returns (r: Result<()>)
      requires Valid() && position < USIZE_LIMIT
      modifies this, buckets, slots, slots.memory, semaphores.values, semaphores.adjust
      ensures Valid()
      ensures (view, r) == IxInsert(keys, old(view), key, position)
      ensures var ix, h := old(view), keys.hash(key) % totalBuckets;
              if ix.free == [] then view == ix && r == Err(TableFull(|ix.entries|, ix.capacity))
              else
                && r == Ok(())
                && view == Ix(ix.capacity, ix.free[1..], ix.entries[ix.free[0] := Entry(key, position)],
                              ix.chains[h := ix.chains[h] + [ix.free[0]]])
    {
      hide Links, Represents, Bucket;
      InsertIs(keys, view, key, position);
      var lock := semaphores.LockTable();
      r := InsertLocked(key, position);
      if lock.Ok? {
        semaphores.Drop(lock.value);
      }
    }

    /** Walks to the tail of a chain that is not empty. */
    method WalkToTail(ghost b: nat, head: nat) returns (lastIdx: nat, lastNode: Node<K>)
      requires Linked()
      requires b < |view.chains| && LinkTo(view.chains[b], 0) == OffsetTo(head)
      ensures IsNode(view, b, ChainLength(b) - 1, lastIdx, lastNode)
    {
      hide Links, Represents;
      lastIdx := head;
      ghost var j := 0;
      lastNode := ReadNode(lastIdx, b, j);
      while lastNode.next.Get().Some?
        invariant IsNode(view, b, j, lastIdx, lastNode)
        decreases ChainLength(b) - j
      {
        lastIdx := lastNode.next.Get().value;
        j := j + 1;
        lastNode := ReadNode(lastIdx, b, j);
      }
    }

    method InsertLocked(key: K, position: nat) returns (r: Result<()>)
      requires Linked() && position < USIZE_LIMIT && semaphores.Holding(0)
      modifies this, buckets, slots, slots.memory
      ensures Linked()
      ensures (view, r) == IxInsert(keys, old(view), key, position)
    {
      hide Links, Represents, EncodeNode, Bucket, IxInsert, SlotModel.Insert, SlotModel.Update;
      var b := Hash(key);
      ghost var heads, arena, ix := buckets[..], slots.view, view;
      HeadLink(keys, heads, arena, ix, b);
      if ix.free == [] {
        InsertWhenFull(keys, heads, arena, ix, key, position);
      }
      var head := buckets[b].Get();
      if head.Some? {
        // the bucket has a chain
        var lastIdx, lastNode := WalkToTail(b, head.value);
        if ix.free != [] {
          InsertIntoChain(keys, heads, arena, ix, b, key, position, lastIdx, lastNode);
        }
        var next :- slots.Insert(NewNode(keys, key, position));
        r := slots.Update(lastIdx, EncodeNode(keys, lastNode.(next := OffsetTo(next))));
      } else {
        // the bucket is empty
        if ix.free != [] {
          InsertIntoEmpty(keys, heads, arena, ix, b, key, position);
        }
        var next :- slots.Insert(NewNode(keys, key, position));
        buckets[b] := OffsetTo(next);
        assert buckets[..] == heads[b := OffsetTo(next)];
        r := Ok(());
      }
      view := IxInsert(keys, ix, key, position).0;
    }

    /** The first node along the chain of the key that carries it, with its slot and its place in the chain. */
    method Search(key: K) returns (r: Option<(nat, Node<K>)>, ghost at: nat)
      requires Linked() && semaphores.Holding(0)
      ensures r.None? <==> IxSearch(keys, view, key).None?
      ensures r.Some? ==>
                && IxSearch(keys, view, key) == Some(r.value.0)
                && IsNode(view, Bucket(keys, key, totalBuckets), at, r.value.0, r.value.1)
      ensures r.None? ==> KeyAbsent(view, key)
      ensures r.Some? ==>
                && IsFirst(view, keys.hash(key) % totalBuckets, at, key)
                && IsNode(view, keys.hash(key) % totalBuckets, at, r.value.0, r.value.1)
    {
      hide Links, Represents, EncodeNode, Bucket;
      var b := Hash(key);
      ghost var chain := view.chains[b];
      HeadLink(keys, buckets[..], slots.view, view, b);
      SearchTells(keys, buckets[..], slots.view, view, key);
      at := 0;
      var head := buckets[b].Get();
      if head.None? {
        assert chain == [] && FirstWith(view.entries, chain, key) == None;
        return None, at;
      }
      var lastIdx := head.value;
      var lastNode := ReadNode(lastIdx, b, at);
      while lastNode.key != key
        invariant IsNode(view, b, at, lastIdx, lastNode)
        invariant forall k | 0 <= k < at :: chain[k] in view.entries && view.entries[chain[k]].key != key
        decreases ChainLength(b) - at
      {
        FirstWithAt(view.entries, chain, key, at);
        var next := lastNode.next.Get();
        if next.None? {
          return None, at;
        }
        lastIdx := next.value;
        at := at + 1;
        lastNode := ReadNode(lastIdx, b, at);
      }
      FirstWithAt(view.entries, chain, key, at);
      r := Some((lastIdx, lastNode));
    }

    /** The record position stored for a key. */
    method Get(key: K) returns (r: Option<nat>)
      requires Valid()
      modifies semaphores.values, semaphores.adjust
      ensures Valid() && view == old(view)
      ensures r == IxGet(keys, view, key)
      ensures r.None? ==> KeyAbsent(view, key)
      ensures r.Some? ==> exists j: nat ::
                && IsFirst(view, keys.hash(key) % totalBuckets, j, key)
                && r.value == view.entries[view.chains[keys.hash(key) % totalBuckets][j]].position
    {
      hide Links, Represents, Bucket, FirstWith, IxSearch, IsFirst, KeyAbsent;
      var lock := semaphores.LockTable();
      var found, at := Search(key);
      r := if found.Some? then Some(found.value.1.position) else None;
      if lock.Ok? {
        semaphores.Drop(lock.value);
      }
    }

    /** Unlinks the node that search finds for the key, and only it, and returns its slot; otherwise does nothing. */
    method Remove(key: K) returns (r: Result<()>)
      requires Valid()
      modifies this, buckets, slots, slots.memory, semaphores.values, semaphores.adjust
      ensures Valid()
      ensures r == Ok(()) && view == IxRemove(keys, old(view), key)
      ensures KeyAbsent(old(view), key) ==> view == old(view)
      ensures !KeyAbsent(old(view), key) ==> exists j: nat ::
                && IsFirst(old(view), keys.hash(key) % totalBuckets, j, key)
                && IsUnlinked(old(view), keys.hash(key) % totalBuckets, j, view)
    {
      hide Links, Represents, Bucket, IxRemove, IxValid;
      ChainsAreValid(keys, buckets[..], slots.view, view);
      RemoveIs(keys, view, key);
      var lock := semaphores.LockTable();
      r := RemoveLocked(key);
      if lock.Ok? {
        semaphores.Drop(lock.value);
      }
    }

    /** Walks to the node in front of position `at`; the walk cannot run off the end of the chain. */
    method WalkToPredecessor(ghost b: nat, head: nat, ghost at: nat, removingIdx: nat)
      returns (lastIdx: nat, lastNode: Node<K>)
      requires Linked()
      requires b < |view.chains| && LinkTo(view.chains[b], 0) == OffsetTo(head)
      requires 0 < at < |view.chains[b]| && removingIdx == view.chains[b][at]
      ensures IsNode(view, b, at - 1, lastIdx, lastNode)
    {
      hide Links, Represents;
      ChainsAreValid(keys, buckets[..], slots.view, view);
      ghost var j := 0;
      lastIdx := head;
      lastNode := ReadNode(lastIdx, b, j);
      LinkHits(keys, view, b, j + 1, at);
      while lastNode.next.Get() != Some(removingIdx)
        invariant IsNode(view, b, j, lastIdx, lastNode) && j < at
        invariant lastNode.next.Get() == Some(removingIdx) <==> j + 1 == at
        invariant lastNode.next.Get().Some?
        decreases at - j
      {
        lastIdx := lastNode.next.Get().value;
        j := j + 1;
        lastNode := ReadNode(lastIdx, b, j);
        LinkHits(keys, view, b, j + 1, at);
      }
    }

    method RemoveLocked(key: K) returns (r: Result<()>)
      requires Linked() && semaphores.Holding(0)
      modifies this, buckets, slots, slots.memory
      ensures Linked()
      ensures r == Ok(()) && view == IxRemove(keys, old(view), key)
    {
      hide Links, Represents, EncodeNode, Bucket, FirstWith, SlotModel.Remove, SlotModel.Update;
      var found, at := Search(key);
      if found.None? {
        return Ok(());
      }
      var (removingIdx, removingNode) := found.value;
      var b := Hash(key);
      ghost var heads, arena, ix := buckets[..], slots.view, view;
      HeadLink(keys, heads, arena, ix, b);
      ChainsAreValid(keys, heads, arena, ix);
      LinkHits(keys, ix, b, 0, at);
      var lastIdx := buckets[b].Get().value;
      if lastIdx == removingIdx {
        // the node is the first in the bucket
        RemoveHead(keys, heads, arena, ix, b, key, removingIdx, removingNode);
        buckets[b] := removingNode.next;
        assert buckets[..] == heads[b := removingNode.next];
        slots.Remove(removingIdx);
        view := IxRemove(keys, ix, key);
        return Ok(());
      }
      var lastNode;
      lastIdx, lastNode := WalkToPredecessor(b, lastIdx, at, removingIdx);
      RemoveInterior(keys, heads, arena, ix, b, key, at, removingIdx, removingNode, lastIdx, lastNode);
      r := slots.Update(lastIdx, EncodeNode(keys, lastNode.(next := removingNode.next)));
      slots.Remove(removingIdx);
      view := IxRemove(keys, ix, key);
    }
  }

  /** Enumerates the keys in slot order. */
  class IndexIterator<K(==,!new)> {
    const index: Index<K>
    const inner: SlotsIterator

    ghost predicate Valid()
      reads this, inner, index, index.buckets, index.slots, index.slots.memory
    {
      && inner.slots == index.slots
      && index.Linked() && inner.Valid()
    }

    constructor (index: Index<K>)
      requires index.Linked()
      ensures Valid() && this.index == index && fresh(inner)
      ensures inner.Remaining() == OccupiedFrom(index.slots.view, 0)
    {
      hide Links, Represents, OccupiedFrom;
      this.index := index;
      inner := new SlotsIterator(index.slots);
    }

    /** Yields the key stored in the first remaining slot; once none remains, it stays at the end. */
    method Next() returns (r: Option<K>)
      requires Valid()
      modifies inner
      ensures Valid()
      ensures old(inner.Remaining()) == [] ==> r == None && inner.Remaining() == []
      ensures old(inner.Remaining()) != [] ==>
                && old(inner.Remaining())[0] in index.view.entries
                && r == Some(index.view.entries[old(inner.Remaining())[0]].key)
                && inner.Remaining() == old(inner.Remaining())[1..]
    {
      hide Links, Represents, OccupiedFrom, DecodeNode;
      var slice := inner.Next();
      if slice.None? {
        return None;
      }
      ReadEntry(index.keys, index.buckets[..], index.slots.view, index.view, old(inner.Remaining())[0]);
      r := Some(DecodeNode(index.keys, slice.value).key);
    }
  }
}
