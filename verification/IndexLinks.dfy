/**
 The linked form of the index: bucket heads and, in the slots of an allocator, the bytes of nodes
 that point at each other. Every link update of insertion and removal is related here to the
 abstract index it produces.
 */
module IndexLinks {
  import opened Bytes
  import opened Results
  import opened SlotModel
  import opened IndexModel

  /** The link to position `j` of a chain; behind the tail there is none. */
  function LinkTo(chain: seq<nat>, j: nat): Offset {
    if j < |chain| then OffsetTo(chain[j]) else NoOffset()
  }

  /** The node at position `j` of chain `b`. */
  ghost function NodeAt<K>(ix: Ix<K>, b: nat, j: nat): Node<K>
    requires b < |ix.chains| && j < |ix.chains[b]| && ix.chains[b][j] in ix.entries
  {
    var entry := ix.entries[ix.chains[b][j]];
    Node(entry.key, entry.position, LinkTo(ix.chains[b], j + 1))
  }

  /** `slot` is position `j` of chain `b`, and `node` is the node there. */
  ghost predicate IsNode<K>(ix: Ix<K>, b: nat, j: int, slot: nat, node: Node<K>) {
    && b < |ix.chains| && 0 <= j < |ix.chains[b]|
    && slot == ix.chains[b][j] && slot in ix.entries
    && node == NodeAt(ix, b, j)
  }

  /** The slot at position `j` of chain `b` holds the bytes of its node. */
  ghost predicate Stored<K>(keys: Keys<K>, arena: Arena, ix: Ix<K>, b: nat, j: nat)
    requires b < |ix.chains| && j < |ix.chains[b]|
  {
    var slot := ix.chains[b][j];
    && slot in ix.entries && slot in arena.live
    && arena.live[slot] == EncodeNode(keys, NodeAt(ix, b, j))
  }

  /** The heads and the nodes in the arena are the linked form of `ix`. */
  ghost predicate Links<K(!new)>(keys: Keys<K>, heads: seq<Offset>, arena: Arena, ix: Ix<K>) {
    && Lawful(keys)
    && arena.Valid() && arena.dataSize == NodeSize(keys)
    && IxValid(keys, ix)
    && ix.capacity == arena.capacity < USIZE_LIMIT
    && ix.free == arena.free && ix.entries.Keys == arena.live.Keys
    && (forall i | i in ix.entries :: ix.entries[i].position < USIZE_LIMIT)
    && |heads| == |ix.chains|
    && (forall b | 0 <= b < |heads| :: heads[b] == LinkTo(ix.chains[b], 0))
    && (forall b, j | 0 <= b < |heads| && 0 <= j < |ix.chains[b]| :: Stored(keys, arena, ix, b, j))
  }

  /** Reading the slot at position `j` of a chain gives its node. */
  lemma ReadNodeAt<K(!new)>(keys: Keys<K>, heads: seq<Offset>, arena: Arena, ix: Ix<K>, b: nat, j: nat)
    requires Links(keys, heads, arena, ix)
    requires b < |ix.chains| && j < |ix.chains[b]|
    ensures var slot := ix.chains[b][j];
            && slot in arena.live && slot in ix.entries && slot < arena.capacity
            && |arena.live[slot]| == NodeSize(keys)
            && IsNode(ix, b, j, slot, DecodeNode(keys, arena.live[slot]))
  {
    hide EncodeNode, Bucket;
    assert Stored(keys, arena, ix, b, j) && InPlace(keys, ix, b, j);
    LinkInRange(keys, heads, arena, ix, b, j + 1);
    NodeRoundTrip(keys, NodeAt(ix, b, j));
  }

  lemma LinkInRange<K(!new)>(keys: Keys<K>, heads: seq<Offset>, arena: Arena, ix: Ix<K>, b: nat, j: nat)
    requires Links(keys, heads, arena, ix)
    requires b < |ix.chains|
    ensures LinkTo(ix.chains[b], j).value < USIZE_LIMIT
  {
    if j < |ix.chains[b]| {
      assert InPlace(keys, ix, b, j);
      assert ix.chains[b][j] in ix.entries.Keys;
    }
  }

  /** Every used slot holds a node with the key and position of its entry. */
  lemma ReadEntry<K(!new)>(keys: Keys<K>, heads: seq<Offset>, arena: Arena, ix: Ix<K>, i: nat)
    requires Links(keys, heads, arena, ix) && i in arena.live
    ensures i in ix.entries && |arena.live[i]| == NodeSize(keys)
    ensures var node := DecodeNode(keys, arena.live[i]); Entry(node.key, node.position) == ix.entries[i]
  {
    hide EncodeNode, DecodeNode, Bucket, Partition;
    assert i in ix.entries.Keys;
    var b := Bucket(keys, ix.entries[i].key, |ix.chains|);
    var j :| 0 <= j < |ix.chains[b]| && ix.chains[b][j] == i;
    ReadNodeAt(keys, heads, arena, ix, b, j);
  }

  lemma CreateLinks<K(!new)>(keys: Keys<K>, capacity: nat, buckets: nat)
    requires Lawful(keys) && buckets > 0 && capacity < USIZE_LIMIT
    ensures Links(keys, seq(buckets, _ => NoOffset()), Create(capacity, NodeSize(keys)), IxCreate<K>(capacity, buckets))
  {
    CreateValid(capacity, NodeSize(keys));
    CreateIxValid(keys, capacity, buckets);
  }

  /** A node stays stored if its entry, its bytes and its link stay, wherever in the chain it comes to lie. */
  lemma KeptStored<K(!new)>(keys: Keys<K>, arena: Arena, arena': Arena, ix: Ix<K>, ix': Ix<K>, b: nat, j: nat, j': nat)
    requires b < |ix.chains| && j < |ix.chains[b]| && Stored(keys, arena, ix, b, j)
    requires b < |ix'.chains| && j' < |ix'.chains[b]| && ix'.chains[b][j'] == ix.chains[b][j]
    requires var slot := ix.chains[b][j];
             && slot in ix'.entries && ix'.entries[slot] == ix.entries[slot]
             && slot in arena'.live && arena'.live[slot] == arena.live[slot]
    requires LinkTo(ix'.chains[b], j' + 1) == LinkTo(ix.chains[b], j + 1)
    ensures Stored(keys, arena', ix', b, j')
  {
    assert NodeAt(ix', b, j') == NodeAt(ix, b, j);
  }

  /** A node whose bytes carry its entry and its link is stored. */
  lemma WrittenStored<K(!new)>(keys: Keys<K>, arena: Arena, ix: Ix<K>, b: nat, j: nat, entry: Entry<K>)
    requires b < |ix.chains| && j < |ix.chains[b]|
    requires var slot := ix.chains[b][j];
             && slot in ix.entries && ix.entries[slot] == entry && slot in arena.live
             && arena.live[slot] == EncodeNode(keys, Node(entry.key, entry.position, LinkTo(ix.chains[b], j + 1)))
    ensures Stored(keys, arena, ix, b, j)
  {
  }

  // ---------- Insertion ----------

  /** The memory after `insert`: the new node in the first free slot and, if there is one, the old tail relinked. */
  ghost function ArenaAfterInsert<K(!new)>(keys: Keys<K>, arena: Arena, ix: Ix<K>, b: nat, key: K, position: nat): Arena
    requires arena.free != [] && b < |ix.chains|
    requires ix.chains[b] != [] ==> ix.chains[b][|ix.chains[b]| - 1] in ix.entries
  {
    var chain := ix.chains[b];
    var stored := Insert(arena, EncodeNode(keys, Node(key, position, NoOffset()))).0;
    if chain == [] then
      stored
    else
      var tail := NodeAt(ix, b, |chain| - 1);
      Update(stored, chain[|chain| - 1], EncodeNode(keys, tail.(next := OffsetTo(arena.free[0])))).0
  }

  /** `after` has the new node in `slot`, the tail of `chain` linked to it, and everything else as in `arena`. */
  ghost predicate Appended<K>(
      keys: Keys<K>, arena: Arena, after: Arena, ix: Ix<K>, chain: seq<nat>, slot: nat, entry: Entry<K>)
  {
    && slot !in arena.live && after.live.Keys == arena.live.Keys + {slot}
    && after.live[slot] == EncodeNode(keys, Node(entry.key, entry.position, NoOffset()))
    && (forall i | i in arena.live && (chain == [] || i != chain[|chain| - 1]) :: after.live[i] == arena.live[i])
    && (chain != [] ==>
          var tail := chain[|chain| - 1];
          && tail in arena.live && tail in ix.entries
          && after.live[tail]
             == EncodeNode(keys, Node(ix.entries[tail].key, ix.entries[tail].position, OffsetTo(slot))))
  }

  lemma InsertedMemory<K(!new)>(
      keys: Keys<K>, heads: seq<Offset>, arena: Arena, ix: Ix<K>, b: nat, key: K, position: nat)
    requires Links(keys, heads, arena, ix) && ix.free != [] && position < USIZE_LIMIT && b < |ix.chains|
    ensures ix.chains[b] != [] ==> ix.chains[b][|ix.chains[b]| - 1] in ix.entries
    ensures var after := ArenaAfterInsert(keys, arena, ix, b, key, position);
            && after.Valid() && after.capacity == arena.capacity && after.dataSize == arena.dataSize
            && after.free == arena.free[1..]
            && Appended(keys, arena, after, ix, ix.chains[b], ix.free[0], Entry(key, position))
  {
    hide EncodeNode, Bucket;
    var slot := ix.free[0];
    var chain, data := ix.chains[b], EncodeNode(keys, Node(key, position, NoOffset()));
    assert slot in ix.free;
    NodeRoundTrip(keys, Node(key, position, NoOffset()));
    InsertValid(arena, data);
    var stored := Insert(arena, data).0;
    assert stored.live.Keys == arena.live.Keys + {slot};
    if chain != [] {
      assert Stored(keys, arena, ix, b, |chain| - 1) && InPlace(keys, ix, b, |chain| - 1);
      var tail := NodeAt(ix, b, |chain| - 1).(next := OffsetTo(slot));
      NodeRoundTrip(keys, tail);
      UpdateValid(stored, chain[|chain| - 1], EncodeNode(keys, tail));
    }
  }

  /**
   Appending at the tail. The tail's copy was read before the new node was stored; it is still
   accurate when it is written back because the new node's slot lies in no chain.
   */
  lemma InsertLinks<K(!new)>(
      keys: Keys<K>, heads: seq<Offset>, arena: Arena, ix: Ix<K>, b: nat, key: K, position: nat)
    requires Links(keys, heads, arena, ix) && ix.free != [] && position < USIZE_LIMIT
    requires b == Bucket(keys, key, |ix.chains|)
    ensures ix.chains[b] != [] ==> ix.chains[b][|ix.chains[b]| - 1] in ix.entries
    ensures Links(keys, if ix.chains[b] == [] then heads[b := OffsetTo(ix.free[0])] else heads,
                  ArenaAfterInsert(keys, arena, ix, b, key, position),
                  IxInsert(keys, ix, key, position).0)
  {
    hide EncodeNode, Bucket, ArenaAfterInsert, Partition, Stored;
    var after := IxInsert(keys, ix, key, position).0;
    InsertIxValid(keys, ix, key, position);
    InsertedMemory(keys, heads, arena, ix, b, key, position);
    var arena' := ArenaAfterInsert(keys, arena, ix, b, key, position);
    forall c, j | 0 <= c < |after.chains| && 0 <= j < |after.chains[c]| ensures Stored(keys, arena', after, c, j) {
      if c != b || j < |ix.chains[b]| {
        StoredNode(keys, heads, arena, ix, c, j);
      }
      if c == b {
        AppendedStored(keys, arena, arena', ix, after, b, ix.free[0], Entry(key, position), j);
      } else {
        OtherChainKeptByInsert(keys, arena, arena', ix, after, b, ix.free[0], Entry(key, position), c, j);
      }
    }
  }

  function NewNode<K>(keys: Keys<K>, key: K, position: nat): seq<byte> {
    EncodeNode(keys, Node(key, position, NoOffset()))
  }

  /** The head of a bucket points at the first slot of its chain. */
  lemma HeadLink<K(!new)>(keys: Keys<K>, heads: seq<Offset>, arena: Arena, ix: Ix<K>, b: nat)
    requires Links(keys, heads, arena, ix) && b < |ix.chains|
    ensures heads[b] == LinkTo(ix.chains[b], 0) && ix.free == arena.free
  {
  }

  lemma ChainsAreValid<K(!new)>(keys: Keys<K>, heads: seq<Offset>, arena: Arena, ix: Ix<K>)
    requires Links(keys, heads, arena, ix)
    ensures IxValid(keys, ix)
  {
  }

  /** Without a free slot nothing is stored and nothing changes. */
  lemma InsertWhenFull<K(!new)>(
      keys: Keys<K>, heads: seq<Offset>, arena: Arena, ix: Ix<K>, key: K, position: nat)
    requires Links(keys, heads, arena, ix) && ix.free == []
    ensures Insert(arena, NewNode(keys, key, position)).1.Err?
    ensures Insert(arena, NewNode(keys, key, position)).0 == arena
    ensures IxInsert(keys, ix, key, position)
         == (ix, Err(Insert(arena, NewNode(keys, key, position)).1.error))
  {
    hide EncodeNode, Bucket;
    assert |arena.live.Keys| == |arena.live| && |ix.entries.Keys| == |ix.entries|;
  }

  /** With a free slot both writes succeed: a node always fits, and the tail is a slot in use. */
  lemma InsertIntoChain<K(!new)>(
      keys: Keys<K>, heads: seq<Offset>, arena: Arena, ix: Ix<K>, b: nat, key: K, position: nat,
      tailIdx: nat, tail: Node<K>)
    requires Links(keys, heads, arena, ix) && ix.free != [] && position < USIZE_LIMIT
    requires b == Bucket(keys, key, |ix.chains|)
    requires IsNode(ix, b, |ix.chains[b]| - 1, tailIdx, tail)
    ensures Insert(arena, NewNode(keys, key, position)).1 == Ok(arena.free[0])
    ensures tailIdx in Insert(arena, NewNode(keys, key, position)).0.live
    ensures var stored := Insert(arena, NewNode(keys, key, position)).0;
            var (after, r) := Update(stored, tailIdx, EncodeNode(keys, tail.(next := OffsetTo(arena.free[0]))));
            && r == Ok(())
            && Links(keys, heads, after, IxInsert(keys, ix, key, position).0)
            && IxInsert(keys, ix, key, position).1 == Ok(())
  {
    hide Links, EncodeNode, Bucket, Partition, IxInsert;
    InsertLinks(keys, heads, arena, ix, b, key, position);
    BothWritesSucceed(keys, heads, arena, ix, b, key, position, tailIdx, tail);
  }

  lemma BothWritesSucceed<K(!new)>(
      keys: Keys<K>, heads: seq<Offset>, arena: Arena, ix: Ix<K>, b: nat, key: K, position: nat,
      tailIdx: nat, tail: Node<K>)
    requires Links(keys, heads, arena, ix) && ix.free != [] && position < USIZE_LIMIT
    requires b == Bucket(keys, key, |ix.chains|)
    requires IsNode(ix, b, |ix.chains[b]| - 1, tailIdx, tail)
    ensures ix.free == arena.free && tailIdx in arena.live
    ensures |NewNode(keys, key, position)| <= arena.dataSize
    ensures |EncodeNode(keys, tail.(next := OffsetTo(arena.free[0])))| <= arena.dataSize
    ensures IxInsert(keys, ix, key, position).1 == Ok(())
  {
    hide EncodeNode, Bucket, Partition;
    FirstFreeInRange(arena);
    NodeRoundTrip(keys, Node(key, position, NoOffset()));
    NodeRoundTrip(keys, tail.(next := OffsetTo(arena.free[0])));
  }

  lemma InsertIntoEmpty<K(!new)>(
      keys: Keys<K>, heads: seq<Offset>, arena: Arena, ix: Ix<K>, b: nat, key: K, position: nat)
    requires Links(keys, heads, arena, ix) && ix.free != [] && position < USIZE_LIMIT
    requires b == Bucket(keys, key, |ix.chains|) && ix.chains[b] == []
    ensures Insert(arena, NewNode(keys, key, position)).1 == Ok(arena.free[0])
    ensures Links(keys, heads[b := OffsetTo(arena.free[0])], Insert(arena, NewNode(keys, key, position)).0,
                  IxInsert(keys, ix, key, position).0)
    ensures IxInsert(keys, ix, key, position).1 == Ok(())
  {
    hide EncodeNode, Bucket, Partition;
    InsertLinks(keys, heads, arena, ix, b, key, position);
    NodeRoundTrip(keys, Node(key, position, NoOffset()));
  }

  lemma AppendedStored<K(!new)>(
      keys: Keys<K>, arena: Arena, arena': Arena, ix: Ix<K>, ix': Ix<K>, b: nat, slot: nat, entry: Entry<K>, j: nat)
    requires b < |ix.chains| == |ix'.chains| && Distinct(ix.chains[b])
    requires Appended(keys, arena, arena', ix, ix.chains[b], slot, entry)
    requires ix'.chains[b] == ix.chains[b] + [slot] && ix'.entries == ix.entries[slot := entry]
    requires j <= |ix.chains[b]| && (j < |ix.chains[b]| ==> Stored(keys, arena, ix, b, j))
    ensures Stored(keys, arena', ix', b, j)
  {
    hide EncodeNode;
    var chain := ix.chains[b];
    if j == |chain| {
      WrittenStored(keys, arena', ix', b, j, entry);
    } else if j == |chain| - 1 {
      WrittenStored(keys, arena', ix', b, j, ix.entries[chain[j]]);
    } else {
      DistinctAt(chain, j, |chain| - 1);
      KeptStored(keys, arena, arena', ix, ix', b, j, j);
    }
  }

  lemma OtherChainKeptByInsert<K(!new)>(
      keys: Keys<K>, arena: Arena, arena': Arena, ix: Ix<K>, ix': Ix<K>,
      b: nat, slot: nat, entry: Entry<K>, c: nat, j: nat)
    requires IxValid(keys, ix)
    requires b < |ix.chains| == |ix'.chains|
    requires Appended(keys, arena, arena', ix, ix.chains[b], slot, entry)
    requires c < |ix.chains| && c != b && ix'.chains[c] == ix.chains[c] && ix'.entries == ix.entries[slot := entry]
    requires j < |ix.chains[c]| && Stored(keys, arena, ix, c, j)
    ensures Stored(keys, arena', ix', c, j)
  {
    hide EncodeNode, Bucket, Partition;
    var chain := ix.chains[b];
    if chain != [] {
      ChainsApart(keys, ix, b, |chain| - 1, c, j);
    }
    KeptStored(keys, arena, arena', ix, ix', c, j, j);
  }

  lemma ChainsApart<K(!new)>(keys: Keys<K>, ix: Ix<K>, b: nat, j: nat, c: nat, k: nat)
    requires IxValid(keys, ix) && b < |ix.chains| && c < |ix.chains| && b != c
    requires j < |ix.chains[b]| && k < |ix.chains[c]|
    ensures ix.chains[b][j] != ix.chains[c][k]
  {
    hide Bucket;
    assert InPlace(keys, ix, b, j) && InPlace(keys, ix, c, k);
  }

  lemma StoredNode<K(!new)>(keys: Keys<K>, heads: seq<Offset>, arena: Arena, ix: Ix<K>, b: nat, j: nat)
    requires Links(keys, heads, arena, ix) && b < |ix.chains| && j < |ix.chains[b]|
    ensures Stored(keys, arena, ix, b, j)
  {
  }

  // ---------- Removal ----------

  /** The memory after the node at position `at` of chain `b` was unlinked and its slot released. */
  ghost function ArenaAfterRemove<K(!new)>(keys: Keys<K>, arena: Arena, ix: Ix<K>, b: nat, at: nat): Arena
    requires b < |ix.chains| && at < |ix.chains[b]|
    requires at > 0 ==> ix.chains[b][at - 1] in ix.entries
  {
    var chain := ix.chains[b];
    if at == 0 then
      Remove(arena, chain[0])
    else
      var before := NodeAt(ix, b, at - 1);
      Remove(Update(arena, chain[at - 1], EncodeNode(keys, before.(next := LinkTo(chain, at + 1)))).0, chain[at])
  }

  /** `after` is without the slot at position `at` of `chain`, and its predecessor, if any, links past it. */
  ghost predicate Unlinked<K>(keys: Keys<K>, arena: Arena, after: Arena, ix: Ix<K>, chain: seq<nat>, at: nat)
    requires at < |chain|
  {
    && after.live.Keys == arena.live.Keys - {chain[at]}
    && (forall i | i in arena.live && i != chain[at] && (at == 0 || i != chain[at - 1]) ::
          after.live[i] == arena.live[i])
    && (at > 0 ==>
          var before := chain[at - 1];
          && before in arena.live && before in ix.entries && before != chain[at]
          && after.live[before]
             == EncodeNode(keys, Node(ix.entries[before].key, ix.entries[before].position, LinkTo(chain, at + 1))))
  }

  lemma RemovedMemory<K(!new)>(keys: Keys<K>, heads: seq<Offset>, arena: Arena, ix: Ix<K>, b: nat, at: nat)
    requires Links(keys, heads, arena, ix) && b < |ix.chains| && at < |ix.chains[b]|
    ensures at > 0 ==> ix.chains[b][at - 1] in ix.entries
    ensures var chain, after := ix.chains[b], ArenaAfterRemove(keys, arena, ix, b, at);
            && after.Valid() && after.capacity == arena.capacity && after.dataSize == arena.dataSize
            && after.free == [chain[at]] + arena.free
            && Unlinked(keys, arena, after, ix, chain, at)
  {
    hide EncodeNode, Bucket, Partition;
    var chain := ix.chains[b];
    assert Stored(keys, arena, ix, b, at) && InPlace(keys, ix, b, at);
    if at == 0 {
      RemoveValid(arena, chain[0]);
    } else {
      assert Stored(keys, arena, ix, b, at - 1) && InPlace(keys, ix, b, at - 1);
      var before := NodeAt(ix, b, at - 1).(next := LinkTo(chain, at + 1));
      LinkInRange(keys, heads, arena, ix, b, at + 1);
      NodeRoundTrip(keys, before);
      UpdateValid(arena, chain[at - 1], EncodeNode(keys, before));
      RemoveValid(Update(arena, chain[at - 1], EncodeNode(keys, before)).0, chain[at]);
    }
  }

  /** What removal of the key at a slot leaves of the abstract index. */
  lemma RemovedIx<K(!new)>(keys: Keys<K>, ix: Ix<K>, b: nat, key: K, slot: nat)
    requires IxValid(keys, ix) && b == Bucket(keys, key, |ix.chains|) && IxSearch(keys, ix, key) == Some(slot)
    ensures IxRemove(keys, ix, key)
         == Ix(ix.capacity, [slot] + ix.free, ix.entries - {slot}, ix.chains[b := Without(ix.chains[b], slot)])
    ensures IxValid(keys, IxRemove(keys, ix, key))
  {
    RemoveIxValid(keys, ix, key);
  }

  /** Unlinking a head or an interior node and releasing its slot is `IxRemove`. */
  lemma RemoveLinks<K(!new)>(
      keys: Keys<K>, heads: seq<Offset>, arena: Arena, ix: Ix<K>, b: nat, key: K, at: nat)
    requires Links(keys, heads, arena, ix)
    requires b == Bucket(keys, key, |ix.chains|)
    requires at < |ix.chains[b]| && IxSearch(keys, ix, key) == Some(ix.chains[b][at])
    ensures at > 0 ==> ix.chains[b][at - 1] in ix.entries
    ensures Links(keys, if at == 0 then heads[b := LinkTo(ix.chains[b], 1)] else heads,
                  ArenaAfterRemove(keys, arena, ix, b, at), IxRemove(keys, ix, key))
  {
    hide EncodeNode, Bucket, ArenaAfterRemove, Partition, Distinct, Without, IxSearch, IxRemove, Stored, Unlinked;
    RemovedIx(keys, ix, b, key, ix.chains[b][at]);
    RemovedMemory(keys, heads, arena, ix, b, at);
    StillStored(keys, heads, arena, ix, b, key, at);
    RemovedHeads(heads, ix.chains, b, at);
  }

  /** The heads after removal are those of the remaining chains. */
  lemma RemovedHeads(heads: seq<Offset>, chains: seq<seq<nat>>, b: nat, at: nat)
    requires |heads| == |chains| && b < |chains| && at < |chains[b]| && Distinct(chains[b])
    requires forall c | 0 <= c < |heads| :: heads[c] == LinkTo(chains[c], 0)
    ensures var after := chains[b := Without(chains[b], chains[b][at])];
            forall c | 0 <= c < |heads| ::
              (if at == 0 then heads[b := LinkTo(chains[b], 1)] else heads)[c] == LinkTo(after[c], 0)
  {
    WithoutLinks(chains[b], at, 0);
  }

  lemma StillStored<K(!new)>(keys: Keys<K>, heads: seq<Offset>, arena: Arena, ix: Ix<K>, b: nat, key: K, at: nat)
    requires Links(keys, heads, arena, ix)
    requires b == Bucket(keys, key, |ix.chains|)
    requires at < |ix.chains[b]| && IxSearch(keys, ix, key) == Some(ix.chains[b][at])
    ensures at > 0 ==> ix.chains[b][at - 1] in ix.entries
    ensures var after, arena' := IxRemove(keys, ix, key), ArenaAfterRemove(keys, arena, ix, b, at);
            && arena'.live.Keys == after.entries.Keys
            && forall c, j | 0 <= c < |after.chains| && 0 <= j < |after.chains[c]| :: Stored(keys, arena', after, c, j)
  {
    hide EncodeNode, Bucket, ArenaAfterRemove, Partition, Without, IxSearch, IxRemove, Stored;
    var chain, after := ix.chains[b], IxRemove(keys, ix, key);
    RemovedIx(keys, ix, b, key, chain[at]);
    RemovedMemory(keys, heads, arena, ix, b, at);
    WithoutLinks(chain, at, 0);
    var arena' := ArenaAfterRemove(keys, arena, ix, b, at);
    forall c, j | 0 <= c < |after.chains| && 0 <= j < |after.chains[c]| ensures Stored(keys, arena', after, c, j) {
      if c == b {
        StoredNode(keys, heads, arena, ix, b, if j < at then j else j + 1);
        RemainingStored(keys, arena, arena', ix, after, b, at, j);
      } else {
        StoredNode(keys, heads, arena, ix, c, j);
        OtherChainKeptByRemove(keys, arena, arena', ix, after, b, at, c, j);
      }
    }
  }

  /** The links of a chain without its position `at`, in terms of the links it had. */
  lemma WithoutLinks(chain: seq<nat>, at: nat, j: nat)
    requires Distinct(chain) && at < |chain|
    ensures |Without(chain, chain[at])| == |chain| - 1
    ensures j < |chain| - 1 ==> Without(chain, chain[at])[j] == chain[if j < at then j else j + 1]
    ensures LinkTo(Without(chain, chain[at]), j) == LinkTo(chain, if j < at then j else j + 1)
  {
    WithoutExact(chain, at);
  }

  lemma RemainingStored<K(!new)>(
      keys: Keys<K>, arena: Arena, arena': Arena, ix: Ix<K>, ix': Ix<K>, b: nat, at: nat, j: nat)
    requires b < |ix.chains| == |ix'.chains| && Distinct(ix.chains[b]) && at < |ix.chains[b]|
    requires Unlinked(keys, arena, arena', ix, ix.chains[b], at)
    requires ix'.chains[b] == Without(ix.chains[b], ix.chains[b][at])
    requires ix'.entries == ix.entries - {ix.chains[b][at]}
    requires j < |ix.chains[b]| - 1 && Stored(keys, arena, ix, b, if j < at then j else j + 1)
    ensures j < |ix'.chains[b]| && Stored(keys, arena', ix', b, j)
  {
    hide EncodeNode, Without;
    var chain, from := ix.chains[b], if j < at then j else j + 1;
    WithoutLinks(chain, at, j);
    WithoutLinks(chain, at, j + 1);
    DistinctAt(chain, from, at);
    if j + 1 == at {
      WrittenStored(keys, arena', ix', b, j, ix.entries[chain[from]]);
    } else {
      if at > 0 {
        DistinctAt(chain, from, at - 1);
      }
      KeptStored(keys, arena, arena', ix, ix', b, from, j);
    }
  }

  lemma OtherChainKeptByRemove<K(!new)>(
      keys: Keys<K>, arena: Arena, arena': Arena, ix: Ix<K>, ix': Ix<K>, b: nat, at: nat, c: nat, j: nat)
    requires IxValid(keys, ix)
    requires b < |ix.chains| == |ix'.chains| && at < |ix.chains[b]|
    requires Unlinked(keys, arena, arena', ix, ix.chains[b], at)
    requires c < |ix.chains| && c != b && ix'.chains[c] == ix.chains[c]
    requires ix'.entries == ix.entries - {ix.chains[b][at]}
    requires j < |ix.chains[c]| && Stored(keys, arena, ix, c, j)
    ensures Stored(keys, arena', ix', c, j)
  {
    hide EncodeNode, Bucket, Partition;
    ChainsApart(keys, ix, b, at, c, j);
    if at > 0 {
      ChainsApart(keys, ix, b, at - 1, c, j);
    }
    KeptStored(keys, arena, arena', ix, ix', c, j, j);
  }

  /** Unlinking as the code does it: through the bucket for a head, through the predecessor otherwise. */
  lemma RemoveHead<K(!new)>(
      keys: Keys<K>, heads: seq<Offset>, arena: Arena, ix: Ix<K>, b: nat, key: K, slot: nat, node: Node<K>)
    requires Links(keys, heads, arena, ix)
    requires b == Bucket(keys, key, |ix.chains|) && IxSearch(keys, ix, key) == Some(slot)
    requires IsNode(ix, b, 0, slot, node)
    ensures slot in arena.live
    ensures Links(keys, heads[b := node.next], Remove(arena, slot), IxRemove(keys, ix, key))
  {
    hide EncodeNode, Bucket, Partition;
    RemoveLinks(keys, heads, arena, ix, b, key, 0);
    StoredNode(keys, heads, arena, ix, b, 0);
  }

  lemma RemoveInterior<K(!new)>(
      keys: Keys<K>, heads: seq<Offset>, arena: Arena, ix: Ix<K>, b: nat, key: K, at: nat,
      slot: nat, node: Node<K>, before: nat, last: Node<K>)
    requires Links(keys, heads, arena, ix) && at > 0
    requires b == Bucket(keys, key, |ix.chains|) && IxSearch(keys, ix, key) == Some(slot)
    requires IsNode(ix, b, at, slot, node) && IsNode(ix, b, at - 1, before, last)
    ensures before in arena.live
    ensures var (relinked, r) := Update(arena, before, EncodeNode(keys, last.(next := node.next)));
            && r == Ok(()) && slot in relinked.live
            && Links(keys, heads, Remove(relinked, slot), IxRemove(keys, ix, key))
  {
    hide EncodeNode, Bucket, Partition;
    RemoveLinks(keys, heads, arena, ix, b, key, at);
    StoredNode(keys, heads, arena, ix, b, at);
    StoredNode(keys, heads, arena, ix, b, at - 1);
    LinkInRange(keys, heads, arena, ix, b, at + 1);
    NodeRoundTrip(keys, last.(next := node.next));
  }

  /** Only the link before a position hits the slot at that position. */
  lemma LinkHits<K(!new)>(keys: Keys<K>, ix: Ix<K>, b: nat, j: nat, at: nat)
    requires IxValid(keys, ix) && b < |ix.chains| && at < |ix.chains[b]|
    ensures LinkTo(ix.chains[b], j).Get() == Some(ix.chains[b][at]) <==> j == at
    ensures j < at ==> LinkTo(ix.chains[b], j).Get().Some?
  {
    hide Bucket, Partition;
    if j < |ix.chains[b]| && j != at {
      DistinctAt(ix.chains[b], j, at);
    }
  }

  /** Where search finds nothing, the key is absent. */
  lemma SearchTells<K(!new)>(keys: Keys<K>, heads: seq<Offset>, arena: Arena, ix: Ix<K>, key: K)
    requires Links(keys, heads, arena, ix)
    ensures IxSearch(keys, ix, key).None? ==> KeyAbsent(ix, key)
  {
    hide Bucket, Partition, FirstWith;
    SearchIsFirst(keys, ix, key);
  }

  /** Along a chain, the first node with the key is found where search finds it. */
  lemma {:induction false} FirstWithAt<K>(entries: map<nat, Entry<K>>, chain: seq<nat>, key: K, j: nat)
    requires j < |chain|
    requires forall k | 0 <= k < j :: chain[k] in entries && entries[chain[k]].key != key
    ensures chain[j] in entries && entries[chain[j]].key == key ==> FirstWith(entries, chain, key) == Some(chain[j])
    ensures chain[j] in entries && entries[chain[j]].key != key && j + 1 == |chain| ==>
              FirstWith(entries, chain, key) == None
  {
    if j > 0 {
      FirstWithAt(entries, chain[1..], key, j - 1);
    }
  }
}
