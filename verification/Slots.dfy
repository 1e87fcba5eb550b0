/** The slot allocator in shared memory (src/internal/slot.rs). */
module SlotMemory {
  import opened Bytes
  import opened Results
  import opened SlotModel

  /** Four words precede slot 0: capacity, count, slot size and first free slot. */
  const HEADER_SIZE: nat := 32

  /** One state byte, seven of padding, and the word that is a link or a length. */
  const METADATA_SIZE: nat := 16

  /** `n` bytes of memory from `at` on. */
  function Span(memory: seq<byte>, at: nat, n: nat): (span: seq<byte>)
    requires at + n <= |memory|
    ensures |span| == n && forall k | 0 <= k < n :: span[k] == memory[at + k]
  {
    seq(n, k requires 0 <= k < n => memory[at + k])
  }

  /** The cell that `slotSize` bytes of memory at `at` hold. */
  function CellAt(memory: seq<byte>, at: nat, slotSize: nat): Cell {
    if METADATA_SIZE <= slotSize && at + slotSize <= |memory| then
      Cell(if memory[at] == 0 then Free else Occupied,
           Decode(Span(memory, at + 8, USIZE_BYTES)),
           Span(memory, at + METADATA_SIZE, slotSize - METADATA_SIZE))
    else
      Cell(Free, 0, [])
  }

  /** Where slot `index` begins when slot 0 begins at `start`. */
  function SlotStart(start: nat, slotSize: nat, index: nat): nat {
    if index == 0 then start else SlotStart(start, slotSize, index - 1) + slotSize
  }

  /** The address that the allocator computes. */
  lemma {:induction false} SlotStartIsProduct(start: nat, slotSize: nat, index: nat)
    ensures SlotStart(start, slotSize, index) == start + index * slotSize
  {
    if index == 0 {
    } else {
      SlotStartIsProduct(start, slotSize, index - 1);
      assert index * slotSize == (index - 1) * slotSize + slotSize;
    }
  }

  /** Slots at different indices share no byte, and each ends where the next one begins at the latest. */
  lemma {:induction false} SlotsApart(start: nat, slotSize: nat, i: nat, j: nat)
    requires i < j
    ensures SlotStart(start, slotSize, i) + slotSize <= SlotStart(start, slotSize, j)
  {
    if i + 1 < j {
      SlotsApart(start, slotSize, i, j - 1);
    }
  }

  function CellsAt(memory: seq<byte>, start: nat, slotSize: nat, capacity: nat): (cells: seq<Cell>)
    ensures |cells| == capacity
  {
    seq(capacity, i requires 0 <= i < capacity => CellAt(memory, SlotStart(start, slotSize, i), slotSize))
  }

  lemma SameBytesSameCell(before: seq<byte>, after: seq<byte>, at: nat, slotSize: nat)
    requires METADATA_SIZE <= slotSize && at + slotSize <= |before| == |after|
    requires forall k | at <= k < at + slotSize :: before[k] == after[k]
    ensures CellAt(before, at, slotSize) == CellAt(after, at, slotSize)
  {
    assert Span(before, at + 8, USIZE_BYTES) == Span(after, at + 8, USIZE_BYTES);
    assert Span(before, at + METADATA_SIZE, slotSize - METADATA_SIZE)
        == Span(after, at + METADATA_SIZE, slotSize - METADATA_SIZE);
  }

  /** Writing the state byte and the word behind the padding sets the two metadata fields. */
  lemma MetadataWritten(before: seq<byte>, after: seq<byte>, at: nat, slotSize: nat, state: SlotState, size: nat)
    requires METADATA_SIZE <= slotSize && at + slotSize <= |before| == |after| && size < USIZE_LIMIT
    requires after[at] == if state.Free? then 0 else 1
    requires forall k | 0 <= k < USIZE_BYTES :: after[at + 8 + k] == EncodeUsize(size)[k]
    requires forall k | at + METADATA_SIZE <= k < at + slotSize :: after[k] == before[k]
    ensures CellAt(after, at, slotSize) == Cell(state, size, CellAt(before, at, slotSize).buffer)
  {
    assert Span(after, at + 8, USIZE_BYTES) == EncodeUsize(size);
    assert Span(before, at + METADATA_SIZE, slotSize - METADATA_SIZE)
        == Span(after, at + METADATA_SIZE, slotSize - METADATA_SIZE);
    UsizeRoundTrip(size);
  }

  /** Copying `data` behind the metadata overwrites the front of the buffer and nothing else. */
  lemma DataCopied(before: seq<byte>, after: seq<byte>, at: nat, slotSize: nat, data: seq<byte>)
    requires METADATA_SIZE + |data| <= slotSize && at + slotSize <= |before| == |after|
    requires forall k | at <= k < at + METADATA_SIZE :: after[k] == before[k]
    requires forall k | 0 <= k < |data| :: after[at + METADATA_SIZE + k] == data[k]
    requires forall k | at + METADATA_SIZE + |data| <= k < at + slotSize :: after[k] == before[k]
    ensures CellAt(after, at, slotSize)
         == CellAt(before, at, slotSize).(buffer := data + CellAt(before, at, slotSize).buffer[|data|..])
  {
    assert Span(before, at + 8, USIZE_BYTES) == Span(after, at + 8, USIZE_BYTES);
    assert Span(after, at + METADATA_SIZE, slotSize - METADATA_SIZE)
        == data + Span(before, at + METADATA_SIZE, slotSize - METADATA_SIZE)[|data|..];
  }

  /** A change confined to the bytes of slot `index` changes no other cell. */
  lemma OneSlotChanges(before: seq<byte>, after: seq<byte>, start: nat, slotSize: nat, capacity: nat, index: nat)
    requires index < capacity && METADATA_SIZE <= slotSize
    requires SlotStart(start, slotSize, capacity) <= |before| == |after|
    requires var at := SlotStart(start, slotSize, index);
             forall k | 0 <= k < |before| && !(at <= k < at + slotSize) :: after[k] == before[k]
    ensures CellsAt(after, start, slotSize, capacity)
         == CellsAt(before, start, slotSize, capacity)
            [index := CellAt(after, SlotStart(start, slotSize, index), slotSize)]
  {
    forall j | 0 <= j < capacity && j != index
      ensures CellsAt(after, start, slotSize, capacity)[j] == CellsAt(before, start, slotSize, capacity)[j]
    {
      if j < index {
        SlotsApart(start, slotSize, j, index);
      } else {
        SlotsApart(start, slotSize, index, j);
      }
      SlotsApart(start, slotSize, j, capacity);
      var at := SlotStart(start, slotSize, j);
      SameBytesSameCell(before, after, at, slotSize);
    }
  }

  // ---------- What writing changes, byte by byte ----------

  /** The state byte at `at` and the word at `at + 8`, and nothing else. */
  ghost predicate StoredMetadata(before: seq<byte>, after: seq<byte>, at: nat, state: SlotState, size: nat) {
    && at + 16 <= |before| == |after|
    && after[at] == (if state.Free? then 0 else 1)
    && (forall k | 0 <= k < 8 :: after[at + 8 + k] == Encode(size, 8)[k])
    && (forall k | 0 <= k < |after| && k != at && !(at + 8 <= k < at + 16) :: after[k] == before[k])
  }

  /** The data from `at + 16` on, and nothing else. */
  ghost predicate StoredData(before: seq<byte>, after: seq<byte>, at: nat, data: seq<byte>) {
    && at + 16 + |data| <= |before| == |after|
    && (forall k | 0 <= k < |data| :: after[at + 16 + k] == data[k])
    && (forall k | 0 <= k < |after| && !(at + 16 <= k < at + 16 + |data|) :: after[k] == before[k])
  }

  /** A slot in use: state 1, the length of the data, and the data; nothing else changes. */
  ghost predicate StoredRecord(before: seq<byte>, after: seq<byte>, at: nat, data: seq<byte>) {
    && at + 16 + |data| <= |before| == |after|
    && after[at] == 1
    && (forall k | 0 <= k < 8 :: after[at + 8 + k] == Encode(|data|, 8)[k])
    && (forall k | 0 <= k < |data| :: after[at + 16 + k] == data[k])
    && (forall k | 0 <= k < |after| && !(at <= k < at + 16 + |data|) :: after[k] == before[k])
  }

  lemma RecordStored(before: seq<byte>, middle: seq<byte>, after: seq<byte>, at: nat, data: seq<byte>)
    requires StoredMetadata(before, middle, at, Occupied, |data|) && StoredData(middle, after, at, data)
    ensures StoredRecord(before, after, at, data)
  {
    hide Encode;
  }

  class Slots {
    const memory: array<byte>
    const start: nat  // where slot 0 begins
    const capacity: nat
    const slotSize: nat
    var count: nat
    var firstFree: nat

    /** The arena that the memory stands for. */
    ghost var view: Arena

    ghost predicate WellSized() {
      && METADATA_SIZE <= slotSize < USIZE_LIMIT
      && capacity < USIZE_LIMIT
      && SlotStart(start, slotSize, capacity) <= memory.Length
    }

    ghost function Cells(): (cells: seq<Cell>)
      reads memory
      ensures |cells| == capacity
    {
      CellsAt(memory[..], start, slotSize, capacity)
    }

    ghost predicate Valid()
      reads this, memory
    {
      && WellSized()
      && view.dataSize == slotSize - METADATA_SIZE
      && Represents(Cells(), firstFree, count, view)
    }

    constructor (basePtr: nat, memory: array<byte>, capacity: nat, dataSize: nat)
      requires capacity < USIZE_LIMIT && METADATA_SIZE + dataSize < USIZE_LIMIT
      requires basePtr + HEADER_SIZE + capacity * (METADATA_SIZE + dataSize) <= memory.Length
      modifies memory
      ensures Valid() && this.memory == memory && this.capacity == capacity
      ensures view == Create(capacity, dataSize)
      ensures start == basePtr + 32 && slotSize == 16 + dataSize
      ensures view.free == Iota(capacity) && view.live == map[] && view.dataSize == dataSize
    {
      this.memory := memory;
      this.start := basePtr + HEADER_SIZE;
      this.capacity := capacity;
      this.slotSize := METADATA_SIZE + dataSize;
      count := 0;
      firstFree := 0;
      new;
      SlotStartIsProduct(start, slotSize, capacity);
      InitializeFreeList();
      view := Create(capacity, dataSize);
      FreshRepresents(Cells(), dataSize);
    }

    method InitializeFreeList()
      requires WellSized()
      modifies memory
      ensures forall i | 0 <= i < capacity ::
                var cell := Cells()[i];
                cell.state.Free? && cell.size == i + 1 && |cell.buffer| == slotSize - METADATA_SIZE
    {
      for i := 0 to capacity
        invariant forall k | 0 <= k < i ::
                    var cell := Cells()[k];
                    cell.state.Free? && cell.size == k + 1 && |cell.buffer| == slotSize - METADATA_SIZE
      {
        WriteMetadata(i, Free, if i + 1 < capacity then i + 1 else capacity);
      }
    }

    /** The two metadata fields of one slot; the rest of memory keeps its contents. */
    method WriteMetadata(index: nat, state: SlotState, size: nat)
      requires WellSized() && index < capacity && size < USIZE_LIMIT
      modifies memory
      ensures Cells() == old(Cells())[index := Cell(state, size, old(Cells())[index].buffer)]
      ensures |Cells()[index].buffer| == slotSize - METADATA_SIZE
      ensures StoredMetadata(old(memory[..]), memory[..], SlotStart(start, slotSize, index), state, size)
    {
      hide Decode, Encode;
      SlotStartIsProduct(start, slotSize, index);
      SlotsApart(start, slotSize, index, capacity);
      var at := start + index * slotSize;
      var word := EncodeUsize(size);
      memory[at] := if state.Free? then 0 else 1;
      forall k | 0 <= k < USIZE_BYTES {
        memory[at + 8 + k] := word[k];
      }
      MetadataWritten(old(memory[..]), memory[..], at, slotSize, state, size);
      OneSlotChanges(old(memory[..]), memory[..], start, slotSize, capacity, index);
    }

    method SetRecordData(index: nat, data: seq<byte>)
      requires WellSized() && index < capacity && |data| <= slotSize - METADATA_SIZE
      modifies memory
      ensures |old(Cells())[index].buffer| == slotSize - METADATA_SIZE
      ensures Cells() == old(Cells())[index := old(Cells())[index].Write(data)]
      ensures StoredRecord(old(memory[..]), memory[..], SlotStart(start, slotSize, index), data)
    {
      hide Encode, CellsAt, SlotStart;
      ghost var at, before := SlotStart(start, slotSize, index), memory[..];
      WriteMetadata(index, Occupied, |data|);
      ghost var middle := memory[..];
      CopyData(index, data);
      RecordStored(before, middle, memory[..], at, data);
    }

    method CopyData(index: nat, data: seq<byte>)
      requires WellSized() && index < capacity && |data| <= slotSize - METADATA_SIZE
      modifies memory
      ensures |old(Cells())[index].buffer| == slotSize - METADATA_SIZE
      ensures var cell := old(Cells())[index];
              Cells() == old(Cells())[index := cell.(buffer := data + cell.buffer[|data|..])]
      ensures StoredData(old(memory[..]), memory[..], SlotStart(start, slotSize, index), data)
    {
      hide Decode;
      SlotStartIsProduct(start, slotSize, index);
      SlotsApart(start, slotSize, index, capacity);
      var at := start + index * slotSize;
      forall k | 0 <= k < |data| {
        memory[at + METADATA_SIZE + k] := data[k];
      }
      ghost var before, after := old(memory[..]), memory[..];
      DataCopied(before, after, at, slotSize, data);
      OneSlotChanges(before, after, start, slotSize, capacity, index);
    }

    /** The first `size` bytes of the slot's buffer. */
    method ReadData(index: nat, size: nat) returns (data: seq<byte>)
      requires WellSized() && index < capacity && size <= slotSize - METADATA_SIZE
      ensures |Cells()[index].buffer| == slotSize - METADATA_SIZE
      ensures data == Cells()[index].buffer[..size]
    {
      SlotStartIsProduct(start, slotSize, index);
      SlotsApart(start, slotSize, index, capacity);
      var at := start + index * slotSize + METADATA_SIZE;
      data := memory[at..at + size];
      assert data == Span(memory[..], at, slotSize - METADATA_SIZE)[..size];
    }

    method Count() returns (n: nat)
      requires Valid()
      ensures n == |view.live|
    {
      hide CellsAt;
      n := count;
      HeaderCountsLiveSlots(Cells(), firstFree, count, view);
    }

    method ReadMetadata(index: nat) returns (state: SlotState, size: nat)
      requires WellSized() && index < capacity
      ensures state == Cells()[index].state && size == Cells()[index].size
    {
      SlotStartIsProduct(start, slotSize, index);
      SlotsApart(start, slotSize, index, capacity);
      var at := start + index * slotSize;
      state := if memory[at] == 0 then Free else Occupied;
      size := Decode(memory[at + 8..at + METADATA_SIZE]);
      assert memory[at + 8..at + METADATA_SIZE] == Span(memory[..], at + 8, USIZE_BYTES);
    }

    method Insert(data: seq<byte>) returns (r: Result<nat>)
      requires Valid()
      modifies this, memory
      ensures Valid()
      ensures (view, r) == SlotModel.Insert(old(view), data)
      ensures var a, used := old(view), |old(view).live|;
              if used >= capacity then view == a && r == Err(TableFull(used, capacity))
              else if |data| > a.dataSize then view == a && r == Err(RecordSizeTooBig(|data|, a.dataSize))
              else
                && a.free != [] && r == Ok(a.free[0])
                && view == Arena(a.capacity, a.dataSize, a.free[1..], a.live[a.free[0] := data])
    {
      hide CellsAt;
      HeaderCountsLiveSlots(Cells(), firstFree, count, view);
      if count >= capacity {
        return Err(TableFull(count, capacity));
      }
      if |data| > slotSize - METADATA_SIZE {
        return Err(RecordSizeTooBig(|data|, slotSize - METADATA_SIZE));
      }
      ghost var cells, a := Cells(), view;
      PopRepresents(cells, firstFree, count, a, data);
      var index := firstFree;
      var _, nextFree := ReadMetadata(index);
      firstFree := nextFree;
      count := count + 1;
      SetRecordData(index, data);
      assert Cells() == cells[index := cells[index].Write(data)];
      assert Represents(Cells(), firstFree, count, SlotModel.Insert(a, data).0);
      view := SlotModel.Insert(a, data).0;
      assert Valid();
      r := Ok(index);
    }

    method Update(index: nat, data: seq<byte>) returns (r: Result<()>)
      requires Valid() && index in view.live
      modifies this`view, memory
      ensures Valid()
      ensures (view, r) == SlotModel.Update(old(view), index, data)
      ensures var a := old(view);
              if |data| > a.dataSize then view == a && r == Err(RecordSizeTooBig(|data|, a.dataSize))
              else r == Ok(()) && view == Arena(a.capacity, a.dataSize, a.free, a.live[index := data])
    {
      hide CellsAt;
      if |data| > slotSize - METADATA_SIZE {
        return Err(RecordSizeTooBig(|data|, slotSize - METADATA_SIZE));
      }
      WriteRepresents(Cells(), firstFree, count, view, index, data);
      SetRecordData(index, data);
      view := SlotModel.Update(view, index, data).0;
      r := Ok(());
    }

    method Get(index: nat) returns (data: seq<byte>)
      requires Valid() && index < capacity
      ensures data == if index in view.live then view.live[index] else []
    {
      hide CellsAt;
      ReadsContents(Cells(), firstFree, count, view, index);
      var state, size := ReadMetadata(index);
      if state.Free? {
        return [];
      }
      assert Holds(Cells()[index], view.live[index], view.dataSize);
      data := ReadData(index, size);
    }

    method Remove(index: nat)
      requires Valid() && index in view.live
      modifies this, memory
      ensures Valid()
      ensures view == SlotModel.Remove(old(view), index)
      ensures var a := old(view); view == Arena(a.capacity, a.dataSize, [index] + a.free, a.live - {index})
    {
      hide CellsAt;
      PushRepresents(Cells(), firstFree, count, view, index);
      var nextFree := firstFree;
      WriteMetadata(index, Free, nextFree);
      firstFree := index;
      count := count - 1;
      view := SlotModel.Remove(view, index);
    }

    method IsFree(index: nat) returns (free: bool)
      requires Valid() && index < capacity
      ensures free <==> index !in view.live
    {
      hide CellsAt;
      ReadsContents(Cells(), firstFree, count, view, index);
      var state, _ := ReadMetadata(index);
      free := state.Free?;
    }
  }

  /** Enumerates the slots in use by counting them; it never compares its position with the capacity. */
  class SlotsIterator {
    const slots: Slots
    var current: nat
    var found: nat

    /** The slots still to be yielded, for as long as the slots are not modified. */
    ghost function Remaining(): seq<nat>
      reads this, slots
    {
      OccupiedFrom(slots.view, current)
    }

    ghost predicate Valid()
      reads this, slots, slots.memory
    {
      && slots.Valid()
      && found + |Remaining()| == |slots.view.live|
    }

    constructor (slots: Slots)
      requires slots.Valid()
      ensures Valid() && this.slots == slots
      ensures Remaining() == OccupiedFrom(slots.view, 0)
    {
      this.slots := slots;
      current := 0;
      found := 0;
      EnumerationExact(slots.view);
    }

    /**
     Moves past the free slots. There is no bounds check: as long as a slot in use remains, the
     loop stops at it, below the capacity.
     */
    method SkipFree()
      requires slots.Valid() && Remaining() != []
      modifies this`current
      ensures current < slots.capacity && current in slots.view.live
      ensures Remaining() == old(Remaining())
    {
      hide CellsAt;
      ghost var a, remaining := slots.view, Remaining();
      OccupiedStep(a, current);
      var free := slots.IsFree(current);
      while free
        invariant current < slots.capacity
        invariant free <==> current !in a.live
        invariant OccupiedFrom(a, current) == remaining
        decreases slots.capacity - current
      {
        OccupiedStep(a, current);
        current := current + 1;
        OccupiedStep(a, current);
        free := slots.IsFree(current);
      }
    }

    /** Yields the contents of the first remaining slot; once none remains, it stays at the end. */
    method Next() returns (r: Option<seq<byte>>)
      requires Valid()
      modifies this
      ensures Valid()
      ensures old(Remaining()) == [] ==> r == None && Remaining() == []
      ensures old(Remaining()) != [] ==>
                && old(Remaining())[0] in slots.view.live
                && r == Some(slots.view.live[old(Remaining())[0]])
                && Remaining() == old(Remaining())[1..]
    {
      hide CellsAt;
      var n := slots.Count();
      if found >= n {
        return None;
      }
      SkipFree();
      ghost var remaining := OccupiedFrom(slots.view, current);
      OccupiedStep(slots.view, current);
      assert remaining[1..] == OccupiedFrom(slots.view, current + 1);
      found := found + 1;
      var data := slots.Get(current);
      current := current + 1;
      r := Some(data);
    }
  }
}
