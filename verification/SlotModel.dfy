/**
 The slot allocator as values: the cells that memory holds, the arena they stand for, and what
 each allocator operation does to the arena.
 */
module SlotModel {
  import opened Bytes
  import opened Results

  datatype SlotState = Free | Occupied

  /** One slot. `size` is the next free slot when the state is `Free`, the data length when it is `Occupied`. */
  datatype Cell = Cell(state: SlotState, size: nat, buffer: seq<byte>) {

    /** The cell after `data` has been written over the front of its buffer. */
    function Write(data: seq<byte>): Cell
      requires |data| <= |buffer|
    {
      Cell(Occupied, |data|, data + buffer[|data|..])
    }

    /** What a reader of the slot sees. */
    function Read(): seq<byte> {
      if state.Free? || size > |buffer| then [] else buffer[..size]
    }
  }

  ghost predicate Distinct<T>(s: seq<T>) {
    forall i, j | 0 <= i < j < |s| :: s[i] != s[j]
  }

  lemma DistinctAt<T>(s: seq<T>, i: nat, j: nat)
    requires Distinct(s) && i < |s| && j < |s| && i != j
    ensures s[i] != s[j]
  {
  }

  /** Every slot below `capacity` is either on the free list, once, or in use; never both. */
  ghost predicate Partition(capacity: nat, free: seq<nat>, used: set<nat>) {
    && Distinct(free)
    && (forall i | i in free :: i < capacity && i !in used)
    && (forall i | i in used :: i < capacity)
    && (forall i: nat | i < capacity && i !in used :: i in free)
  }

  /**
   What an allocator stands for: the free slots in the order they will be handed out, and the
   contents of the slots in use.
   */
  datatype Arena = Arena(capacity: nat, dataSize: nat, free: seq<nat>, live: map<nat, seq<byte>>) {

    ghost predicate Valid() {
      && Partition(capacity, free, live.Keys)
      && (forall i | i in live :: |live[i]| <= dataSize)
    }
  }

  /** The slot after position `j` of the free list; `capacity` ends the list. */
  function FreeLink(free: seq<nat>, j: nat, capacity: nat): nat {
    if j < |free| then free[j] else capacity
  }

  /** The cell of the `j`th free slot carries the link to the next one. */
  ghost predicate Linked(cells: seq<Cell>, free: seq<nat>, j: nat)
    requires j < |free|
  {
    free[j] < |cells| && cells[free[j]].size == FreeLink(free, j + 1, |cells|)
  }

  /** `free` is the list that the `size` fields of the cells thread from `first` on. */
  ghost predicate Threads(cells: seq<Cell>, first: nat, free: seq<nat>) {
    && first == FreeLink(free, 0, |cells|)
    && forall j | 0 <= j < |free| :: Linked(cells, free, j)
  }

  /** The cell of a slot in use holds exactly its data. */
  ghost predicate Holds(cell: Cell, data: seq<byte>, dataSize: nat) {
    && cell.state.Occupied?
    && |cell.buffer| == dataSize
    && cell.size == |data| <= dataSize
    && cell.buffer[..|data|] == data
  }

  /** The cells and the two header fields of the allocator stand for `a`. */
  ghost predicate Represents(cells: seq<Cell>, first: nat, count: nat, a: Arena) {
    && a.Valid()
    && |cells| == a.capacity
    && count + |a.free| == a.capacity
    && Threads(cells, first, a.free)
    && (forall i | 0 <= i < |cells| && i in a.live :: Holds(cells[i], a.live[i], a.dataSize))
    && (forall i | 0 <= i < |cells| && i !in a.live :: cells[i].state.Free? && |cells[i].buffer| == a.dataSize)
  }

  // ---------- Operations on arenas ----------

  function Iota(n: nat): (s: seq<nat>)
    ensures |s| == n && forall i | 0 <= i < n :: s[i] == i
  {
    seq(n, i => i)
  }

  function Create(capacity: nat, dataSize: nat): Arena {
    Arena(capacity, dataSize, Iota(capacity), map[])
  }

  function Insert(a: Arena, data: seq<byte>): (r: (Arena, Result<nat>))
    ensures r.1.Err? ==> r.0 == a
  {
    if a.free == [] then
      (a, Err(TableFull(|a.live|, a.capacity)))
    else if |data| > a.dataSize then
      (a, Err(RecordSizeTooBig(|data|, a.dataSize)))
    else
      (a.(free := a.free[1..], live := a.live[a.free[0] := data]), Ok(a.free[0]))
  }

  function Update(a: Arena, index: nat, data: seq<byte>): (r: (Arena, Result<()>))
    ensures r.1.Err? ==> r.0 == a
  {
    if |data| > a.dataSize then
      (a, Err(RecordSizeTooBig(|data|, a.dataSize)))
    else
      (a.(live := a.live[index := data]), Ok(()))
  }

  function Remove(a: Arena, index: nat): (r: Arena) {
    a.(free := [index] + a.free, live := a.live - {index})
  }

  lemma CreateValid(capacity: nat, dataSize: nat)
    ensures Create(capacity, dataSize).Valid()
  {
    forall i: nat ensures i in Iota(capacity) <==> i < capacity {
      if i < capacity {
        assert Iota(capacity)[i] == i;
      }
    }
  }

  /** Taking the first free slot into use, and putting a used slot in front, keep the partition. */
  lemma TakeFirst(capacity: nat, free: seq<nat>, used: set<nat>)
    requires Partition(capacity, free, used) && free != []
    ensures free[0] < capacity && free[0] !in used
    ensures Partition(capacity, free[1..], used + {free[0]})
  {
    var first, rest := free[0], free[1..];
    assert first in free;
    forall i | i in rest ensures i < capacity && i !in used + {first} {
      var j :| 0 <= j < |rest| && rest[j] == i;
      assert free[j + 1] == i && i in free && i != first;
    }
    forall i: nat | i < capacity && i !in used + {first} ensures i in rest {
      assert i in free;
      var j :| 0 <= j < |free| && free[j] == i;
      assert rest[j - 1] == i;
    }
  }

  lemma GiveBack(capacity: nat, free: seq<nat>, used: set<nat>, index: nat)
    requires Partition(capacity, free, used) && index in used
    ensures Partition(capacity, [index] + free, used - {index})
  {
  }

  lemma FirstFreeInRange(a: Arena)
    requires a.Valid() && a.free != []
    ensures a.free[0] < a.capacity && a.free[0] !in a.live
  {
    TakeFirst(a.capacity, a.free, a.live.Keys);
  }

  lemma InsertValid(a: Arena, data: seq<byte>)
    requires a.Valid()
    ensures Insert(a, data).0.Valid()
  {
    var b := Insert(a, data).0;
    if b != a {
      TakeFirst(a.capacity, a.free, a.live.Keys);
      assert b.live.Keys == a.live.Keys + {a.free[0]};
    }
  }

  lemma UpdateValid(a: Arena, index: nat, data: seq<byte>)
    requires a.Valid() && index in a.live
    ensures Update(a, index, data).0.Valid()
  {
    assert a.live[index := data].Keys == a.live.Keys;
  }

  lemma RemoveValid(a: Arena, index: nat)
    requires a.Valid() && index in a.live
    ensures Remove(a, index).Valid()
  {
    GiveBack(a.capacity, a.free, a.live.Keys, index);
    assert (a.live - {index}).Keys == a.live.Keys - {index};
  }

  // ---------- Counting ----------

  ghost function Elements<T>(s: seq<T>): set<T> {
    set x | x in s
  }

  lemma {:induction false} DistinctCardinality<T>(s: seq<T>)
    requires Distinct(s)
    ensures |Elements(s)| == |s|
  {
    if s == [] {
    } else {
      DistinctCardinality(s[1..]);
      assert Elements(s) == {s[0]} + Elements(s[1..]);
    }
  }

  lemma {:induction false} SubsetCardinality<T>(s: set<T>, t: set<T>)
    requires s <= t
    ensures |s| <= |t|
    decreases |s|
  {
    if s != {} {
      var x :| x in s;
      SubsetCardinality(s - {x}, t - {x});
    }
  }

  /** Every slot is either free or in use, so the two counts add up to the capacity. */
  lemma FreeAndLiveCount(a: Arena)
    requires a.Valid()
    ensures |a.live| + |a.free| == a.capacity
  {
    var free := Elements(a.free);
    var all := Elements(Iota(a.capacity));
    DistinctCardinality(a.free);
    DistinctCardinality(Iota(a.capacity));
    assert free !! a.live.Keys;
    assert |free + a.live.Keys| == |a.free| + |a.live|;
    forall i: nat ensures i in free + a.live.Keys <==> i in all {
      if i < a.capacity {
        assert Iota(a.capacity)[i] == i;
      }
    }
    assert free + a.live.Keys == all;
  }

  // ---------- The free list as memory threads it ----------

  /** The slots met by following the `size` field from slot `from`, for at most `steps` slots. */
  function Walk(cells: seq<Cell>, from: nat, steps: nat): seq<nat>
    decreases steps
  {
    if steps == 0 || from >= |cells| then [] else [from] + Walk(cells, cells[from].size, steps - 1)
  }

  lemma {:induction false} WalkFollowsThread(cells: seq<Cell>, free: seq<nat>, first: nat, extra: nat)
    requires Threads(cells, first, free)
    ensures Walk(cells, first, |free| + extra) == free
    decreases |free|
  {
    if free == [] {
    } else {
      var rest := free[1..];
      assert Linked(cells, free, 0);
      forall j | 0 <= j < |rest| ensures Linked(cells, rest, j) {
        assert Linked(cells, free, j + 1);
      }
      WalkFollowsThread(cells, rest, cells[first].size, extra);
    }
  }

  /**
   Following the overloaded `size` field from `first_free` visits exactly the free slots, each
   once, and has reached the sentinel after `capacity - count` steps: more steps find nothing new.
   */
  lemma WalkVisitsFreeSlots(cells: seq<Cell>, first: nat, count: nat, a: Arena, extra: nat)
    requires Represents(cells, first, count, a)
    ensures Walk(cells, first, a.capacity - count + extra) == a.free && Distinct(a.free)
    ensures forall i | 0 <= i < |cells| :: cells[i].state.Free? <==> i in a.free
  {
    WalkFollowsThread(cells, a.free, first, extra);
    assert a.capacity - count + extra == |a.free| + extra;
    FreeStateMeansListed(cells, first, count, a);
  }

  /** The header's `count` is the number of slots in use, and the allocator is full exactly when its list is empty. */
  lemma HeaderCountsLiveSlots(cells: seq<Cell>, first: nat, count: nat, a: Arena)
    requires Represents(cells, first, count, a)
    ensures count == |a.live|
    ensures count >= a.capacity <==> first == a.capacity
    ensures count >= a.capacity <==> a.free == []
    ensures first <= a.capacity
  {
    FreeAndLiveCount(a);
    if a.free != [] {
      assert Linked(cells, a.free, 0);
    }
  }

  lemma FreeStateMeansListed(cells: seq<Cell>, first: nat, count: nat, a: Arena)
    requires Represents(cells, first, count, a)
    ensures forall i | 0 <= i < |cells| :: cells[i].state.Free? <==> i in a.free
    ensures first == a.capacity <==> a.free == []
  {
    forall i | 0 <= i < |cells| ensures cells[i].state.Free? <==> i in a.free {
      if i in a.live {
        assert Holds(cells[i], a.live[i], a.dataSize);
      }
    }
    if a.free != [] {
      assert Linked(cells, a.free, 0);
    }
  }

  /** Reading the cells gives the arena's contents: `get` returns the last data written, and nothing for a free slot. */
  lemma ReadsContents(cells: seq<Cell>, first: nat, count: nat, a: Arena, i: nat)
    requires Represents(cells, first, count, a)
    ensures i in a.live <==> i < |cells| && cells[i].state.Occupied?
    ensures i in a.live ==> cells[i].Read() == a.live[i]
    ensures i < |cells| && i !in a.live ==> cells[i].Read() == []
  {
    if i in a.live {
      assert Holds(cells[i], a.live[i], a.dataSize);
    }
  }

  function LiveData(cells: seq<Cell>): map<nat, seq<byte>> {
    map i: nat | i < |cells| && cells[i].state.Occupied? :: cells[i].Read()
  }

  /** The memory determines the arena, free-list order and contents included: the ghost state hides nothing. */
  lemma ArenaIsDetermined(cells: seq<Cell>, first: nat, count: nat, a: Arena)
    requires Represents(cells, first, count, a)
    ensures a == Arena(|cells|, a.dataSize, Walk(cells, first, |cells| - count), LiveData(cells))
  {
    WalkVisitsFreeSlots(cells, first, count, a, 0);
    forall i: nat ensures i in a.live <==> i in LiveData(cells) {
      ReadsContents(cells, first, count, a, i);
    }
    forall i | i in a.live ensures a.live[i] == LiveData(cells)[i] {
      ReadsContents(cells, first, count, a, i);
    }
  }

  // ---------- What the field updates of each operation mean ----------

  /** Popping the first free slot and writing into it is `Insert`. */
  lemma PopRepresents(cells: seq<Cell>, first: nat, count: nat, a: Arena, data: seq<byte>)
    requires Represents(cells, first, count, a)
    requires first < |cells| && |data| <= a.dataSize
    ensures a.free != [] && first == a.free[0] && first !in a.live && |cells[first].buffer| == a.dataSize
    ensures Represents(cells[first := cells[first].Write(data)], cells[first].size, count + 1, Insert(a, data).0)
  {
    assert a.free[0] == first && first in a.free;
    assert Linked(cells, a.free, 0);
    InsertValid(a, data);
    var b := Insert(a, data).0;
    var cells' := cells[first := cells[first].Write(data)];
    forall j | 0 <= j < |b.free|
      ensures Linked(cells', b.free, j)
    {
      assert Linked(cells, a.free, j + 1);
      assert b.free[j] == a.free[j + 1];
    }
    assert cells'[first].buffer[..|data|] == data;
  }

  lemma WriteRepresents(cells: seq<Cell>, first: nat, count: nat, a: Arena, index: nat, data: seq<byte>)
    requires Represents(cells, first, count, a)
    requires index in a.live && |data| <= a.dataSize
    ensures index < |cells| && |cells[index].buffer| == a.dataSize
    ensures Represents(cells[index := cells[index].Write(data)], first, count, Update(a, index, data).0)
  {
    assert index < |cells| && Holds(cells[index], a.live[index], a.dataSize);
    UpdateValid(a, index, data);
    var cells' := cells[index := cells[index].Write(data)];
    assert cells'[index].buffer[..|data|] == data;
    forall j | 0 <= j < |a.free| ensures Linked(cells', a.free, j) {
      assert Linked(cells, a.free, j) && a.free[j] != index;
    }
  }

  /** Pushing a slot in front of the free list is `Remove`. */
  lemma PushRepresents(cells: seq<Cell>, first: nat, count: nat, a: Arena, index: nat)
    requires Represents(cells, first, count, a)
    requires index in a.live
    ensures index < |cells| && first <= |cells| && count > 0
    ensures Represents(cells[index := cells[index].(state := Free, size := first)], index, count - 1, Remove(a, index))
  {
    assert index < |cells| && Holds(cells[index], a.live[index], a.dataSize);
    FreeAndLiveCount(a);
    if a.free != [] {
      assert Linked(cells, a.free, 0);
    }
    RemoveValid(a, index);
    var b := Remove(a, index);
    var cells' := cells[index := cells[index].(state := Free, size := first)];
    forall j | 0 <= j < |b.free|
      ensures Linked(cells', b.free, j)
    {
      if j > 0 {
        assert Linked(cells, a.free, j - 1);
        assert b.free[j] == a.free[j - 1];
        assert a.free[j - 1] != index;
      }
    }
  }

  lemma FreshRepresents(cells: seq<Cell>, dataSize: nat)
    requires forall i | 0 <= i < |cells| ::
               cells[i].state.Free? && cells[i].size == i + 1 && |cells[i].buffer| == dataSize
    ensures Represents(cells, 0, 0, Create(|cells|, dataSize))
  {
    CreateValid(|cells|, dataSize);
  }

  // ---------- Undoing allocations ----------

  /** Allocating a slot and releasing it restores the arena, free-list order included. */
  lemma InsertThenRemove(a: Arena, data: seq<byte>)
    requires a.Valid()
    ensures var (b, r) := Insert(a, data);
            match r
            case Ok(index) => index !in a.live && index in b.live && Remove(b, index) == a
            case Err(_) => b == a
  {
    if a.free != [] && |data| <= a.dataSize {
      var index := a.free[0];
      assert index in a.free;
      assert [index] + a.free[1..] == a.free;
      assert a.live[index := data] - {index} == a.live;
    }
  }

  /** Releasing a slot and allocating again hands out the same slot. */
  lemma RemoveThenInsert(a: Arena, index: nat, data: seq<byte>)
    requires a.Valid() && index in a.live && |data| <= a.dataSize
    ensures Insert(Remove(a, index), data) == (Update(a, index, data).0, Ok(index))
  {
    assert ([index] + a.free)[1..] == a.free;
    assert (a.live - {index})[index := data] == a.live[index := data];
  }

  /** Balanced allocator use: allocate, do `inner`, release that slot again, go on with `rest`. */
  datatype Script = Done | Pair(data: seq<byte>, inner: Script, rest: Script)

  function Perform(a: Arena, script: Script): Arena
    decreases script
  {
    match script
    case Done => a
    case Pair(data, inner, rest) =>
      var (b, r) := Insert(a, data);
      if r.Err? then Perform(a, rest) else Perform(Remove(Perform(b, inner), r.value), rest)
  }

  /** Any balanced nesting of allocations and releases leaves the arena as it was. */
  lemma {:induction false} BalancedUseRestores(a: Arena, script: Script)
    requires a.Valid()
    ensures Perform(a, script) == a
    decreases script
  {
    match script
    case Done =>
    case Pair(data, inner, rest) =>
      InsertValid(a, data);
      InsertThenRemove(a, data);
      BalancedUseRestores(Insert(a, data).0, inner);
      BalancedUseRestores(a, rest);
  }

  // ---------- Enumeration ----------

  /** The slots in use at or after slot `i`, in ascending order. */
  function OccupiedFrom(a: Arena, i: nat): seq<nat>
    decreases a.capacity - i
  {
    if i >= a.capacity then []
    else if i in a.live then [i] + OccupiedFrom(a, i + 1)
    else OccupiedFrom(a, i + 1)
  }

  lemma OccupiedStep(a: Arena, i: nat)
    ensures OccupiedFrom(a, i) != [] ==> i < a.capacity
    ensures i < a.capacity && i !in a.live ==> OccupiedFrom(a, i) == OccupiedFrom(a, i + 1)
    ensures i < a.capacity && i in a.live ==>
              var s := OccupiedFrom(a, i);
              s != [] && s[0] == i && s[1..] == OccupiedFrom(a, i + 1)
  {
  }

  ghost predicate Ascending(s: seq<nat>) {
    forall i, j | 0 <= i < j < |s| :: s[i] < s[j]
  }

  lemma {:induction false} OccupiedFromExact(a: Arena, i: nat)
    ensures var s := OccupiedFrom(a, i);
            && Ascending(s)
            && (forall x: nat :: x in s <==> i <= x < a.capacity && x in a.live)
    decreases a.capacity - i
  {
    if i >= a.capacity {
    } else {
      OccupiedFromExact(a, i + 1);
      var rest := OccupiedFrom(a, i + 1);
      if i in a.live {
        assert OccupiedFrom(a, i) == [i] + rest;
        assert forall k | 0 <= k < |rest| :: rest[k] in rest;
      }
    }
  }

  /** A full enumeration has one entry for each slot in use, in ascending order, and no other. */
  lemma EnumerationExact(a: Arena)
    requires a.Valid()
    ensures var s := OccupiedFrom(a, 0);
            && |s| == |a.live| && Ascending(s)
            && (forall x: nat :: x in s <==> x in a.live)
  {
    OccupiedFromExact(a, 0);
    var s := OccupiedFrom(a, 0);
    DistinctCardinality(s);
    assert Elements(s) == a.live.Keys;
    assert |a.live.Keys| == |a.live|;
  }

  /** Enumeration depends only on which slots are in use. */
  lemma {:induction false} SameSlotsSameEnumeration(a: Arena, b: Arena, i: nat)
    requires a.capacity == b.capacity && a.live.Keys == b.live.Keys
    ensures OccupiedFrom(a, i) == OccupiedFrom(b, i)
    decreases a.capacity - i
  {
    if i < a.capacity {
      SameSlotsSameEnumeration(a, b, i + 1);
      assert i in a.live <==> i in b.live;
    }
  }
}
