/**
 The hash index as values: offsets, nodes and their bytes, the index that heads and nodes stand
 for, and what insertion, search and removal do to it.
 */
module IndexModel {
  import opened Bytes
  import opened Results
  import opened SlotModel

  /** A link to a slot: 0 is no slot, `i + 1` is slot `i`. */
  datatype Offset = Offset(value: nat) {
    function Get(): Option<nat> {
      if value == 0 then None else Some(value - 1)
    }
  }

  function NoOffset(): Offset {
    Offset(0)
  }

  function OffsetTo(slot: nat): Offset {
    Offset(slot + 1)
  }

  datatype Node<K> = Node(key: K, position: nat, next: Offset)

  /** A link of value 0 leads nowhere, and a link of value `v` to slot `v - 1`. */
  lemma OffsetsAre(slot: nat)
    ensures NoOffset().value == 0 && NoOffset().Get() == None
    ensures OffsetTo(slot).value == slot + 1 && OffsetTo(slot).Get() == Some(slot)
    ensures Offset(slot + 1).Get() == Some(slot)
  {
  }

  /** How keys hash, and how they lie in memory. Keys are plain data, so all take the same space. */
  datatype Keys<!K> = Keys(hash: K -> nat, size: nat, encode: K -> seq<byte>, decode: seq<byte> -> K)

  ghost predicate Lawful<K(!new)>(keys: Keys<K>) {
    && keys.size + 2 * USIZE_BYTES + 16 < USIZE_LIMIT
    && forall k :: |keys.encode(k)| == keys.size && keys.decode(keys.encode(k)) == k
  }

  function NodeSize<K>(keys: Keys<K>): nat {
    keys.size + 2 * USIZE_BYTES
  }

  function EncodeNode<K>(keys: Keys<K>, node: Node<K>): seq<byte> {
    keys.encode(node.key) + EncodeUsize(node.position) + EncodeUsize(node.next.value)
  }

  function DecodeNode<K>(keys: Keys<K>, data: seq<byte>): Node<K>
    requires |data| == NodeSize(keys)
  {
    Node(keys.decode(data[..keys.size]),
         Decode(data[keys.size..keys.size + USIZE_BYTES]),
         Offset(Decode(data[keys.size + USIZE_BYTES..])))
  }

  /** The key comes first, then the position and the link, eight bytes each. */
  lemma NodeLayout<K(!new)>(keys: Keys<K>, node: Node<K>)
    requires Lawful(keys)
    ensures var data, n := EncodeNode(keys, node), keys.size;
            && |data| == n + 16
            && data[..n] == keys.encode(node.key)
            && data[n..n + 8] == Encode(node.position, 8)
            && data[n + 8..] == Encode(node.next.value, 8)
  {
    hide Encode;
    var data, n := EncodeNode(keys, node), keys.size;
    assert |keys.encode(node.key)| == n;
    assert data[..n] == keys.encode(node.key);
    assert data[n..n + 8] == Encode(node.position, 8);
    assert data[n + 8..] == Encode(node.next.value, 8);
  }

  /** A node read back from its bytes is the node that was stored. */
  lemma NodeRoundTrip<K(!new)>(keys: Keys<K>, node: Node<K>)
    requires Lawful(keys) && node.position < USIZE_LIMIT && node.next.value < USIZE_LIMIT
    ensures |EncodeNode(keys, node)| == NodeSize(keys)
    ensures DecodeNode(keys, EncodeNode(keys, node)) == node
  {
    var key, position, next := keys.encode(node.key), EncodeUsize(node.position), EncodeUsize(node.next.value);
    var data := EncodeNode(keys, node);
    assert |key| == keys.size;
    assert data[..keys.size] == key;
    assert data[keys.size..keys.size + USIZE_BYTES] == position;
    assert data[keys.size + USIZE_BYTES..] == next;
    UsizeRoundTrip(node.position);
    UsizeRoundTrip(node.next.value);
  }

  newtype usize = x: int | 0 <= x < USIZE_LIMIT

  /** Integer keys under any hash: keys for which everything proved about the index holds. */
  function WordKeys(hash: usize -> nat): Keys<usize> {
    Keys(hash, USIZE_BYTES, (k: usize) => EncodeUsize(k as nat),
         (s: seq<byte>) => if Decode(s) < USIZE_LIMIT then Decode(s) as usize else 0)
  }

  lemma WordKeysLawful(hash: usize -> nat)
    ensures Lawful(WordKeys(hash))
  {
    forall k: usize ensures WordKeys(hash).decode(WordKeys(hash).encode(k)) == k {
      UsizeRoundTrip(k as nat);
    }
  }

  // ---------- The abstract index ----------

  datatype Entry<K> = Entry(key: K, position: nat)

  /**
   What an index stands for: its allocator's free list, the entry in each used slot, and for each
   bucket the slots of its chain from head to tail.
   */
  datatype Ix<K> = Ix(capacity: nat, free: seq<nat>, entries: map<nat, Entry<K>>, chains: seq<seq<nat>>)

  function Bucket<K>(keys: Keys<K>, key: K, buckets: nat): (b: nat)
    requires buckets > 0
    ensures b < buckets
  {
    keys.hash(key) % buckets
  }

  /** Position `j` of chain `b` holds an entry that belongs there. */
  ghost predicate InPlace<K(!new)>(keys: Keys<K>, ix: Ix<K>, b: nat, j: nat)
    requires b < |ix.chains| && j < |ix.chains[b]|
  {
    && ix.chains[b][j] in ix.entries
    && Bucket(keys, ix.entries[ix.chains[b][j]].key, |ix.chains|) == b
  }

  ghost predicate IxValid<K(!new)>(keys: Keys<K>, ix: Ix<K>) {
    && Partition(ix.capacity, ix.free, ix.entries.Keys)
    && |ix.chains| > 0
    && (forall b | 0 <= b < |ix.chains| :: Distinct(ix.chains[b]))
    && (forall b, j | 0 <= b < |ix.chains| && 0 <= j < |ix.chains[b]| :: InPlace(keys, ix, b, j))
    && (forall i | i in ix.entries :: i in ix.chains[Bucket(keys, ix.entries[i].key, |ix.chains|)])
  }

  /** The first slot along a chain whose entry has the key. */
  function FirstWith<K(==)>(entries: map<nat, Entry<K>>, chain: seq<nat>, key: K): Option<nat> {
    if chain == [] then None
    else if chain[0] in entries && entries[chain[0]].key == key then Some(chain[0])
    else FirstWith(entries, chain[1..], key)
  }

  function Without(chain: seq<nat>, slot: nat): seq<nat> {
    if chain == [] then []
    else if chain[0] == slot then chain[1..]
    else [chain[0]] + Without(chain[1..], slot)
  }

  function IxCreate<K>(capacity: nat, buckets: nat): Ix<K> {
    Ix(capacity, Iota(capacity), map[], seq(buckets, _ => []))
  }

  function IxSearch<K(==)>(keys: Keys<K>, ix: Ix<K>, key: K): Option<nat>
    requires |ix.chains| > 0
  {
    FirstWith(ix.entries, ix.chains[Bucket(keys, key, |ix.chains|)], key)
  }

  /** The position stored for a key. */
  function IxGet<K(==)>(keys: Keys<K>, ix: Ix<K>, key: K): Option<nat>
    requires |ix.chains| > 0
  {
    var found := IxSearch(keys, ix, key);
    if found.Some? && found.value in ix.entries then Some(ix.entries[found.value].position) else None
  }

  function IxInsert<K(==)>(keys: Keys<K>, ix: Ix<K>, key: K, position: nat): (r: (Ix<K>, Result<()>))
    requires |ix.chains| > 0
    ensures |r.0.chains| == |ix.chains|
  {
    if ix.free == [] then
      (ix, Err(TableFull(|ix.entries|, ix.capacity)))
    else
      var slot := ix.free[0];
      var b := Bucket(keys, key, |ix.chains|);
      (Ix(ix.capacity, ix.free[1..], ix.entries[slot := Entry(key, position)],
          ix.chains[b := ix.chains[b] + [slot]]),
       Ok(()))
  }

  function IxRemove<K(==)>(keys: Keys<K>, ix: Ix<K>, key: K): (r: Ix<K>)
    requires |ix.chains| > 0
    ensures |r.chains| == |ix.chains|
  {
    match IxSearch(keys, ix, key)
    case None => ix
    case Some(slot) =>
      var b := Bucket(keys, key, |ix.chains|);
      Ix(ix.capacity, [slot] + ix.free, ix.entries - {slot}, ix.chains[b := Without(ix.chains[b], slot)])
  }

  // ---------- Search ----------

  lemma {:induction false} FirstWithSound<K>(entries: map<nat, Entry<K>>, chain: seq<nat>, key: K)
    ensures match FirstWith(entries, chain, key)
            case Some(slot) => slot in chain && slot in entries && entries[slot].key == key
            case None => forall i | i in chain && i in entries :: entries[i].key != key
  {
    if chain != [] {
      FirstWithSound(entries, chain[1..], key);
      assert chain == [chain[0]] + chain[1..];
    }
  }

  /** Search finds an entry with the key whenever the index has one. */
  lemma SearchFindsKey<K(!new)>(keys: Keys<K>, ix: Ix<K>, key: K)
    requires IxValid(keys, ix)
    ensures match IxSearch(keys, ix, key)
            case Some(slot) => slot in ix.entries && ix.entries[slot].key == key
            case None => forall i | i in ix.entries :: ix.entries[i].key != key
  {
    FirstWithSound(ix.entries, ix.chains[Bucket(keys, key, |ix.chains|)], key);
  }

  ghost predicate KeyAbsent<K>(ix: Ix<K>, key: K) {
    forall i | i in ix.entries :: ix.entries[i].key != key
  }

  /** Position `j` of chain `h` is the first with the key. */
  ghost predicate IsFirst<K>(ix: Ix<K>, h: nat, j: nat, key: K) {
    && h < |ix.chains| && j < |ix.chains[h]|
    && ix.chains[h][j] in ix.entries && ix.entries[ix.chains[h][j]].key == key
    && forall k | 0 <= k < j :: ix.chains[h][k] in ix.entries && ix.entries[ix.chains[h][k]].key != key
  }

  lemma {:induction false} FirstWithPlace<K(!new)>(entries: map<nat, Entry<K>>, chain: seq<nat>, key: K)
    returns (j: nat)
    requires FirstWith(entries, chain, key).Some?
    ensures j < |chain| && FirstWith(entries, chain, key) == Some(chain[j])
    ensures chain[j] in entries && entries[chain[j]].key == key
    ensures forall k | 0 <= k < j && chain[k] in entries :: entries[chain[k]].key != key
  {
    if chain[0] in entries && entries[chain[0]].key == key {
      j := 0;
    } else {
      var i := FirstWithPlace(entries, chain[1..], key);
      j := i + 1;
    }
  }

  /** Search takes the chain that the hash names, and there the first entry with the key. */
  lemma SearchIsFirst<K(!new)>(keys: Keys<K>, ix: Ix<K>, key: K)
    requires IxValid(keys, ix)
    ensures var h := keys.hash(key) % |ix.chains|;
            match IxSearch(keys, ix, key)
            case None => KeyAbsent(ix, key)
            case Some(slot) => exists j: nat :: IsFirst(ix, h, j, key) && ix.chains[h][j] == slot
  {
    SearchFindsKey(keys, ix, key);
    var h := keys.hash(key) % |ix.chains|;
    if IxSearch(keys, ix, key).Some? {
      var j := FirstWithPlace(ix.entries, ix.chains[h], key);
      forall k | 0 <= k < j ensures ix.chains[h][k] in ix.entries && ix.entries[ix.chains[h][k]].key != key {
        assert InPlace(keys, ix, h, k);
      }
      assert IsFirst(ix, h, j, key);
    }
  }

  // ---------- Shape ----------

  /** Every entry lies in the chain that the hash of its key names. */
  lemma ChainsFollowHash<K(!new)>(keys: Keys<K>, ix: Ix<K>)
    requires IxValid(keys, ix)
    ensures forall b, j | 0 <= b < |ix.chains| && 0 <= j < |ix.chains[b]| ::
              ix.chains[b][j] in ix.entries && keys.hash(ix.entries[ix.chains[b][j]].key) % |ix.chains| == b
    ensures forall i | i in ix.entries :: i in ix.chains[keys.hash(ix.entries[i].key) % |ix.chains|]
  {
    forall b, j | 0 <= b < |ix.chains| && 0 <= j < |ix.chains[b]|
      ensures ix.chains[b][j] in ix.entries && keys.hash(ix.entries[ix.chains[b][j]].key) % |ix.chains| == b
    {
      assert InPlace(keys, ix, b, j);
    }
  }

  /** Each used slot lies in exactly one chain, at exactly one place, and no free slot lies in any. */
  lemma ChainsPartitionUsedSlots<K(!new)>(keys: Keys<K>, ix: Ix<K>, i: nat)
    requires IxValid(keys, ix)
    ensures i < ix.capacity <==> i in ix.free || exists b | 0 <= b < |ix.chains| :: i in ix.chains[b]
    ensures i in ix.free ==> forall b | 0 <= b < |ix.chains| :: i !in ix.chains[b]
    ensures forall b, c | 0 <= b < c < |ix.chains| :: !(i in ix.chains[b] && i in ix.chains[c])
  {
    hide Bucket;
    forall b | 0 <= b < |ix.chains| && i in ix.chains[b]
      ensures i in ix.entries && Bucket(keys, ix.entries[i].key, |ix.chains|) == b
    {
      var j :| 0 <= j < |ix.chains[b]| && ix.chains[b][j] == i;
      assert InPlace(keys, ix, b, j);
    }
  }

  lemma CreateIxValid<K(!new)>(keys: Keys<K>, capacity: nat, buckets: nat)
    requires buckets > 0
    ensures IxValid(keys, IxCreate<K>(capacity, buckets))
  {
    CreateValid(capacity, 0);
  }

  lemma InsertIxValid<K(!new)>(keys: Keys<K>, ix: Ix<K>, key: K, position: nat)
    requires IxValid(keys, ix)
    ensures IxValid(keys, IxInsert(keys, ix, key, position).0)
  {
    hide Bucket;
    if ix.free == [] {
      return;
    }
    var slot, b := ix.free[0], Bucket(keys, key, |ix.chains|);
    var after := IxInsert(keys, ix, key, position).0;
    TakeFirst(ix.capacity, ix.free, ix.entries.Keys);
    assert after.entries.Keys == ix.entries.Keys + {slot};
    forall c, j | 0 <= c < |after.chains| && 0 <= j < |after.chains[c]| ensures InPlace(keys, after, c, j) {
      if c != b || j < |ix.chains[b]| {
        assert InPlace(keys, ix, c, j);
      }
    }
    forall c | 0 <= c < |after.chains| ensures Distinct(after.chains[c]) {
      if c == b {
        forall j | 0 <= j < |ix.chains[b]| ensures ix.chains[b][j] != slot {
          assert InPlace(keys, ix, b, j);
        }
      }
    }
    forall i | i in after.entries
      ensures i in after.chains[Bucket(keys, after.entries[i].key, |after.chains|)]
    {
      if i == slot {
        assert after.chains[b][|ix.chains[b]|] == slot;
      } else {
        assert i in ix.entries;
        AppendKeeps(ix.chains[b], slot, i);
      }
    }
  }

  lemma AppendKeeps(chain: seq<nat>, slot: nat, i: nat)
    ensures i in chain ==> i in chain + [slot]
  {
  }

  /** A chain without its position `j`. */
  function Cut(chain: seq<nat>, j: nat): seq<nat>
    requires j < |chain|
  {
    chain[..j] + chain[j + 1..]
  }

  lemma {:induction false} WithoutIsCut(chain: seq<nat>, j: nat)
    requires Distinct(chain) && j < |chain|
    ensures Without(chain, chain[j]) == Cut(chain, j)
  {
    if j > 0 {
      var rest := chain[1..];
      WithoutIsCut(rest, j - 1);
      CutBehindHead(chain, j);
      assert chain[0] != chain[j] && rest[j - 1] == chain[j];
    }
  }

  lemma CutBehindHead(chain: seq<nat>, j: nat)
    requires 0 < j < |chain|
    ensures Cut(chain, j) == [chain[0]] + Cut(chain[1..], j - 1)
  {
    assert chain[..j] == [chain[0]] + chain[1..][..j - 1];
    assert chain[1..][j..] == chain[j + 1..];
  }

  lemma CutExact(chain: seq<nat>, j: nat)
    requires Distinct(chain) && j < |chain|
    ensures Distinct(Cut(chain, j))
    ensures forall i :: i in Cut(chain, j) <==> i in chain && i != chain[j]
  {
    var rest := Cut(chain, j);
    forall m, n | 0 <= m < n < |rest| ensures rest[m] != rest[n] {
      assert rest[m] == chain[if m < j then m else m + 1];
      assert rest[n] == chain[if n < j then n else n + 1];
    }
    forall i ensures i in rest <==> i in chain && i != chain[j] {
      CutMember(chain, j, i);
    }
  }

  lemma CutMember(chain: seq<nat>, j: nat, i: nat)
    requires Distinct(chain) && j < |chain|
    ensures i in Cut(chain, j) <==> i in chain && i != chain[j]
  {
    var rest := Cut(chain, j);
    if i in chain && i != chain[j] {
      var k :| 0 <= k < |chain| && chain[k] == i;
      assert rest[if k < j then k else k - 1] == i;
    }
    if i in rest {
      var k :| 0 <= k < |rest| && rest[k] == i;
      assert chain[if k < j then k else k + 1] == i;
    }
  }

  /** Removal takes exactly one slot out of a chain and keeps the order of the others. */
  lemma WithoutExact(chain: seq<nat>, j: nat)
    requires Distinct(chain) && j < |chain|
    ensures var rest := Without(chain, chain[j]);
            && rest == chain[..j] + chain[j + 1..]
            && Distinct(rest)
            && (forall i :: i in rest <==> i in chain && i != chain[j])
  {
    hide Distinct;
    WithoutIsCut(chain, j);
    CutExact(chain, j);
  }

  lemma RemoveIxValid<K(!new)>(keys: Keys<K>, ix: Ix<K>, key: K)
    requires IxValid(keys, ix)
    ensures IxValid(keys, IxRemove(keys, ix, key))
  {
    hide Bucket, Partition, Distinct, Without;
    var found := IxSearch(keys, ix, key);
    if found.None? {
      return;
    }
    var slot, b := found.value, Bucket(keys, key, |ix.chains|);
    var chain, after := ix.chains[b], IxRemove(keys, ix, key);
    FirstWithSound(ix.entries, chain, key);
    var at :| 0 <= at < |chain| && chain[at] == slot;
    WithoutExact(chain, at);
    GiveBack(ix.capacity, ix.free, ix.entries.Keys, slot);
    assert after.entries.Keys == ix.entries.Keys - {slot};
    forall c, j | 0 <= c < |after.chains| && 0 <= j < |after.chains[c]| ensures InPlace(keys, after, c, j) {
      RemovedInPlace(keys, ix, after, b, at, c, j);
    }
    forall i | i in after.entries
      ensures i in after.chains[Bucket(keys, after.entries[i].key, |after.chains|)]
    {
      assert i in ix.entries && i != slot;
    }
  }

  lemma RemovedInPlace<K(!new)>(keys: Keys<K>, ix: Ix<K>, after: Ix<K>, b: nat, at: nat, c: nat, j: nat)
    requires IxValid(keys, ix) && b < |ix.chains| && at < |ix.chains[b]|
    requires after.chains == ix.chains[b := Without(ix.chains[b], ix.chains[b][at])]
    requires after.entries == ix.entries - {ix.chains[b][at]}
    requires c < |after.chains| && j < |after.chains[c]|
    ensures InPlace(keys, after, c, j)
  {
    hide Bucket, Partition, Without;
    WithoutExact(ix.chains[b], at);
    if c == b {
      assert InPlace(keys, ix, b, if j < at then j else j + 1);
      assert after.chains[b][j] in after.chains[b];
    } else {
      assert InPlace(keys, ix, c, j) && InPlace(keys, ix, b, at);
    }
  }

  /** Insertion puts the entry in the first free slot, at the end of the chain that the hash names. */
  lemma InsertIs<K(!new)>(keys: Keys<K>, ix: Ix<K>, key: K, position: nat)
    requires |ix.chains| > 0
    ensures var (after, r) := IxInsert(keys, ix, key, position);
            var h := keys.hash(key) % |ix.chains|;
            if ix.free == [] then after == ix && r == Err(TableFull(|ix.entries|, ix.capacity))
            else
              && r == Ok(())
              && after == Ix(ix.capacity, ix.free[1..], ix.entries[ix.free[0] := Entry(key, position)],
                             ix.chains[h := ix.chains[h] + [ix.free[0]]])
  {
  }

  /** The index without the entry at position `j` of chain `h`. */
  ghost predicate IsUnlinked<K>(ix: Ix<K>, h: nat, j: nat, after: Ix<K>) {
    && h < |ix.chains| && j < |ix.chains[h]|
    && var chain, slot := ix.chains[h], ix.chains[h][j];
       after == Ix(ix.capacity, [slot] + ix.free, ix.entries - {slot}, ix.chains[h := chain[..j] + chain[j + 1..]])
  }

  /** Removal takes out the first entry with the key of the chain that the hash names, and nothing else. */
  lemma RemoveIs<K(!new)>(keys: Keys<K>, ix: Ix<K>, key: K)
    requires IxValid(keys, ix)
    ensures var h, after := keys.hash(key) % |ix.chains|, IxRemove(keys, ix, key);
            if KeyAbsent(ix, key) then after == ix
            else exists j: nat :: IsFirst(ix, h, j, key) && IsUnlinked(ix, h, j, after)
  {
    hide Bucket, Partition, Distinct, Without;
    HashIsBucket(keys, key, |ix.chains|);
    SearchIsFirst(keys, ix, key);
    var h := keys.hash(key) % |ix.chains|;
    if IxSearch(keys, ix, key).Some? {
      var j: nat :| IsFirst(ix, h, j, key) && ix.chains[h][j] == IxSearch(keys, ix, key).value;
      WithoutExact(ix.chains[h], j);
      assert IsUnlinked(ix, h, j, IxRemove(keys, ix, key));
    }
  }

  lemma HashIsBucket<K>(keys: Keys<K>, key: K, buckets: nat)
    requires buckets > 0
    ensures Bucket(keys, key, buckets) == keys.hash(key) % buckets
  {
  }

  // ---------- Lookups across operations ----------

  ghost predicate UniqueKeys<K>(ix: Ix<K>) {
    forall i, j | i in ix.entries && j in ix.entries && ix.entries[i].key == ix.entries[j].key :: i == j
  }

  lemma {:induction false} FirstWithAppend<K>(
      entries: map<nat, Entry<K>>, after: map<nat, Entry<K>>, chain: seq<nat>, slot: nat, key: K)
    requires slot in after && slot !in chain
    requires forall i | i in chain :: (i in after <==> i in entries) && (i in entries ==> after[i] == entries[i])
    ensures FirstWith(after, chain + [slot], key)
         == var found := FirstWith(entries, chain, key);
            if found.None? && after[slot].key == key then Some(slot) else found
  {
    if chain == [] {
    } else {
      assert (chain + [slot])[1..] == chain[1..] + [slot];
      FirstWithAppend(entries, after, chain[1..], slot, key);
    }
  }

  lemma {:induction false} FirstWithFrame<K>(
      entries: map<nat, Entry<K>>, after: map<nat, Entry<K>>, chain: seq<nat>, key: K)
    requires forall i | i in chain :: (i in after <==> i in entries) && (i in entries ==> after[i] == entries[i])
    ensures FirstWith(after, chain, key) == FirstWith(entries, chain, key)
  {
    if chain != [] {
      FirstWithFrame(entries, after, chain[1..], key);
    }
  }

  /**
   Insertion is visible to lookups of its own key only, and only if the key was absent: an older
   entry under the same key stays in front of the new one.
   */
  lemma LookupAfterInsert<K(!new)>(keys: Keys<K>, ix: Ix<K>, key: K, position: nat, other: K)
    requires IxValid(keys, ix) && ix.free != []
    ensures IxGet(keys, IxInsert(keys, ix, key, position).0, other)
         == if other == key && IxSearch(keys, ix, key).None? then Some(position) else IxGet(keys, ix, other)
  {
    hide Bucket;
    var slot, after := ix.free[0], IxInsert(keys, ix, key, position).0;
    var b, c := Bucket(keys, key, |ix.chains|), Bucket(keys, other, |ix.chains|);
    ChainsPartitionUsedSlots(keys, ix, slot);
    assert slot in ix.free;
    if b == c {
      FirstWithAppend(ix.entries, after.entries, ix.chains[b], slot, other);
    } else {
      FirstWithFrame(ix.entries, after.entries, ix.chains[c], other);
    }
    SearchFindsKey(keys, ix, other);
  }

  lemma {:induction false} FirstWithWithout<K>(entries: map<nat, Entry<K>>, chain: seq<nat>, slot: nat, other: K)
    requires slot in entries && entries[slot].key != other
    requires Distinct(chain) && slot in chain
    ensures FirstWith(entries - {slot}, Without(chain, slot), other) == FirstWith(entries, chain, other)
  {
    if chain[0] == slot {
      FirstWithFrame(entries, entries - {slot}, chain[1..], other);
    } else {
      var rest := Without(chain[1..], slot);
      assert ([chain[0]] + rest)[1..] == rest;
      FirstWithWithout(entries, chain[1..], slot, other);
    }
  }

  /** Removal hides its own key, when keys are unique, and changes no other lookup. */
  lemma LookupAfterRemove<K(!new)>(keys: Keys<K>, ix: Ix<K>, key: K, other: K)
    requires IxValid(keys, ix)
    ensures other != key ==> IxGet(keys, IxRemove(keys, ix, key), other) == IxGet(keys, ix, other)
    ensures UniqueKeys(ix) ==> IxGet(keys, IxRemove(keys, ix, key), key) == None
  {
    hide Bucket;
    var after := IxRemove(keys, ix, key);
    RemoveIxValid(keys, ix, key);
    SearchFindsKey(keys, ix, key);
    SearchFindsKey(keys, after, key);
    if other != key && after != ix {
      var slot := IxSearch(keys, ix, key).value;
      var b, c := Bucket(keys, key, |ix.chains|), Bucket(keys, other, |ix.chains|);
      FirstWithSound(ix.entries, ix.chains[b], key);
      if b == c {
        FirstWithWithout(ix.entries, ix.chains[b], slot, other);
      } else {
        ChainsPartitionUsedSlots(keys, ix, slot);
        FirstWithFrame(ix.entries, after.entries, ix.chains[c], other);
      }
      SearchFindsKey(keys, after, other);
      SearchFindsKey(keys, ix, other);
    }
  }
}
