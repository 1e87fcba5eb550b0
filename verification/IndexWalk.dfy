/**
 The index as memory threads it: following the links from the bucket heads visits every node once,
 within as many steps as there are slots, and determines the whole abstract index.
 */
module IndexWalk {
  import opened SlotModel
  import opened IndexModel
  import opened IndexLinks

  /** The slots met by following `next` from a link on, for at most `steps` nodes. */
  function Follow<K>(keys: Keys<K>, arena: Arena, link: Offset, steps: nat): seq<nat>
    decreases steps
  {
    var at := link.Get();
    if steps == 0 || at.None? || at.value !in arena.live || |arena.live[at.value]| != NodeSize(keys) then []
    else [at.value] + Follow(keys, arena, DecodeNode(keys, arena.live[at.value]).next, steps - 1)
  }

  lemma {:induction false} FollowsChain<K(!new)>(
      keys: Keys<K>, heads: seq<Offset>, arena: Arena, ix: Ix<K>, b: nat, j: nat, steps: nat)
    requires Links(keys, heads, arena, ix) && b < |ix.chains|
    requires j <= |ix.chains[b]| <= j + steps
    ensures Follow(keys, arena, LinkTo(ix.chains[b], j), steps) == ix.chains[b][j..]
    decreases steps
  {
    hide Links, DecodeNode, EncodeNode;
    var chain := ix.chains[b];
    if j < |chain| {
      ReadNodeAt(keys, heads, arena, ix, b, j);
      FollowsChain(keys, heads, arena, ix, b, j + 1, steps - 1);
      assert chain[j..] == [chain[j]] + chain[j + 1..];
    }
  }

  /** No chain has more nodes than the index has slots. */
  lemma ChainFits<K(!new)>(keys: Keys<K>, ix: Ix<K>, b: nat)
    requires IxValid(keys, ix) && b < |ix.chains|
    ensures |ix.chains[b]| <= ix.capacity
  {
    hide Bucket;
    var chain, all := ix.chains[b], Elements(Iota(ix.capacity));
    DistinctCardinality(chain);
    DistinctCardinality(Iota(ix.capacity));
    forall i | i in Elements(chain) ensures i in all {
      var j :| 0 <= j < |chain| && chain[j] == i;
      assert InPlace(keys, ix, b, j) && i in ix.entries.Keys;
      assert Iota(ix.capacity)[i] == i;
    }
    SubsetCardinality(Elements(chain), all);
  }

  function EntriesIn<K>(keys: Keys<K>, arena: Arena): map<nat, Entry<K>> {
    map i | i in arena.live && |arena.live[i]| == NodeSize(keys) ::
      Entry(DecodeNode(keys, arena.live[i]).key, DecodeNode(keys, arena.live[i]).position)
  }

  function ChainsIn<K>(keys: Keys<K>, heads: seq<Offset>, arena: Arena): (chains: seq<seq<nat>>)
    ensures |chains| == |heads|
  {
    seq(|heads|, b requires 0 <= b < |heads| => Follow(keys, arena, heads[b], arena.capacity))
  }

  /** The memory determines the index, chains and their order included: the ghost state hides nothing. */
  lemma IndexIsDetermined<K(!new)>(keys: Keys<K>, heads: seq<Offset>, arena: Arena, ix: Ix<K>)
    requires Links(keys, heads, arena, ix)
    ensures ix == Ix(arena.capacity, arena.free, EntriesIn(keys, arena), ChainsIn(keys, heads, arena))
  {
    hide Bucket, DecodeNode, EncodeNode, Partition, Stored, EntriesIn, ChainsIn, IxValid;
    ChainsAreDetermined(keys, heads, arena, ix);
    EntriesAreDetermined(keys, heads, arena, ix);
  }

  lemma ChainsAreDetermined<K(!new)>(keys: Keys<K>, heads: seq<Offset>, arena: Arena, ix: Ix<K>)
    requires Links(keys, heads, arena, ix)
    ensures ix.chains == ChainsIn(keys, heads, arena)
  {
    hide Bucket, DecodeNode, EncodeNode, Partition, Stored, Follow;
    forall b | 0 <= b < |heads| ensures ix.chains[b] == ChainsIn(keys, heads, arena)[b] {
      ChainFits(keys, ix, b);
      FollowsChain(keys, heads, arena, ix, b, 0, arena.capacity);
    }
  }

  lemma EntriesAreDetermined<K(!new)>(keys: Keys<K>, heads: seq<Offset>, arena: Arena, ix: Ix<K>)
    requires Links(keys, heads, arena, ix)
    ensures ix.entries == EntriesIn(keys, arena)
  {
    hide Bucket, DecodeNode, EncodeNode, Partition, Stored, IxValid;
    var entries := EntriesIn(keys, arena);
    forall i: nat ensures (i in ix.entries <==> i in entries) && (i in entries ==> ix.entries[i] == entries[i]) {
      assert i in ix.entries.Keys <==> i in arena.live.Keys;
      if i in arena.live {
        ReadEntry(keys, heads, arena, ix, i);
      }
    }
  }
}
