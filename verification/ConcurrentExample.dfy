/**
 Two processes that count the stock of one product up: a table, programs and a run that meet
 everything that the results on concurrent runs ask for. Names have any length, so not every product
 fits its slot.
 */
module ConcurrentExample {
  import opened Bytes
  import opened Results
  import opened SlotModel
  import opened IndexModel
  import opened TableModel
  import opened ConcurrentModel
  import opened ConcurrentTable
  import opened ConcurrentProperties
  import opened ConcurrentKeys
  import opened ConcurrentCounting

  // ---------- Products ----------

  datatype Product = Product(id: usize, stock: usize, name: seq<byte>)

  function ProductBytes(c: Product): seq<byte> {
    EncodeUsize(c.id as nat) + EncodeUsize(c.stock as nat) + c.name
  }

  /** Two words, one behind the other, and the name. */
  function ProductCodec(): Codec<usize, Product> {
    Codec((c: Product) => c.id, (c: Product) => Some(ProductBytes(c)), (s: seq<byte>) => DecodeProduct(s))
  }

  function DecodeProduct(s: seq<byte>): Option<Product> {
    if |s| < 2 * USIZE_BYTES then None
    else
      var id, stock := Decode(s[..USIZE_BYTES]), Decode(s[USIZE_BYTES..2 * USIZE_BYTES]);
      if id < USIZE_LIMIT && stock < USIZE_LIMIT then Some(Product(id as usize, stock as usize, s[2 * USIZE_BYTES..]))
      else None
  }

  lemma ProductCodecSound()
    ensures Sound(ProductCodec())
  {
    forall c: Product
      ensures ProductCodec().deserialize(ProductCodec().serialize(c).value) == Some(c)
    {
      var id, stock, s := EncodeUsize(c.id as nat), EncodeUsize(c.stock as nat), ProductBytes(c);
      assert s[..USIZE_BYTES] == id && s[USIZE_BYTES..2 * USIZE_BYTES] == stock && s[2 * USIZE_BYTES..] == c.name;
      UsizeRoundTrip(c.id as nat);
      UsizeRoundTrip(c.stock as nat);
    }
  }

  /** Counting up saturates: a word has no next value at its limit. */
  function Up(c: Product): Product {
    if c.stock as nat + 1 < USIZE_LIMIT then c.(stock := c.stock + 1) else c
  }

  function StockGauge(): Gauge<Product> {
    Gauge((c: Product) => c.stock as int, USIZE_LIMIT - 1, true)
  }

  // ---------- A table with one product ----------

  function ProductWorld(hash: usize -> nat, capacity: nat, c: Product): World<usize, Product> {
    World(Env(WordKeys(hash), ProductCodec()), capacity, |ProductBytes(c)|, map[0 := c])
  }

  function FreshCells(capacity: nat, dataSize: nat): (cells: seq<Cell>)
    ensures |cells| == capacity
  {
    seq(capacity, i requires 0 <= i < capacity => Cell(Free, i + 1, seq(dataSize, _ => 0 as byte)))
  }

  lemma ProductTable(hash: usize -> nat, capacity: nat, c: Product)
    returns (mem: Memory<usize>, arena: Arena)
    requires capacity > 0
    ensures Holding(ProductWorld(hash, capacity, c), mem, arena) && UniqueKeys(mem.ix)
    ensures |mem.ix.chains| > 0 && IxGet(WordKeys(hash), mem.ix, c.id) == Some(0)
  {
    hide Encode, Decode, Bucket;
    var w, keys, data := ProductWorld(hash, capacity, c), WordKeys(hash), ProductBytes(c);
    var cells := FreshCells(capacity, |data|);
    FreshRepresents(cells, |data|);
    var empty := Create(capacity, |data|);
    PopRepresents(cells, 0, 0, empty, data);
    arena := Insert(empty, data).0;
    var before := IxCreate<usize>(capacity, 1);
    CreateIxValid(keys, capacity, 1);
    InsertIxValid(keys, before, c.id, 0);
    LookupAfterInsert(keys, before, c.id, 0, c.id);
    SearchFindsKey(keys, before, c.id);
    mem := Memory(cells[0 := cells[0].Write(data)], 1, 1, IxInsert(keys, before, c.id, 0).0);
    ProductCodecSound();
    assert ProductCodec().serialize(c) == Some(data);
    assert arena.live == map[0 := data] && mem.ix.entries == map[0 := Entry(c.id, 0)];
  }

  /** Two processes, each with one call that counts the record up: a run brings both to an end. */
  lemma TwoProcessesCount(hash: usize -> nat, capacity: nat, c: Product)
    returns (mem: Memory<usize>, arena: Arena, trace: seq<Config<usize, Product>>, who: seq<nat>)
    requires capacity > 0 && c.stock as nat + 2 < USIZE_LIMIT
    ensures var w := ProductWorld(hash, capacity, c);
            var jobs := [UpdateJob([c.id], Up)];
            && CountingRun(w, StockGauge(), c.id, 0, mem, arena, [jobs, jobs], trace, who)
            && StockGauge().storable && AllDone(trace[|who|])
            && UniqueKeys(mem.ix) && NoRace(w, mem.ix, [jobs, jobs])
            && TotalAsked([jobs, jobs], c.id) == 2
            && 0 < |trace[|who|].mem.cells|
            && var record := w.env.codec.deserialize(trace[|who|].mem.cells[0].Read());
               record.Some? && record.value.stock == c.stock + 2
  {
    hide UniqueKeys, NoRace, Holding, Interleaving, Start, AllDone, IxGet, Inv, WordKeys, ProductCodec, DecodeProduct,
         Encode;
    var w, jobs := ProductWorld(hash, capacity, c), [UpdateJob([c.id], Up)];
    mem, arena := ProductTable(hash, capacity, c);
    var programs := [jobs, jobs];
    StartInv(w, mem, arena, programs);
    ProductCodecSound();
    trace, who := SomeRunFinishes(w, Start(w, mem, programs));
    ProductsFit(hash, capacity, c);
    CountsTwo(c.id);
    NothingInserted(w, mem.ix, c.id);
    assert forall p | 0 <= p < |programs| :: JobsIncrement(w, StockGauge(), programs[p]);
    IncrementsAddUp(w, StockGauge(), c.id, 0, mem, arena, programs, trace, who);
  }

  lemma ProductsFit(hash: usize -> nat, capacity: nat, c: Product)
    ensures InitialFits(ProductWorld(hash, capacity, c))
    ensures ClosureOk(ProductWorld(hash, capacity, c), StockGauge(), Up)
  {
  }

  lemma NothingInserted(w: World<usize, Product>, ix: Ix<usize>, name: usize)
    ensures var jobs := [UpdateJob([name], Up)]; NoRace(w, ix, [jobs, jobs])
  {
    var jobs: seq<Job<usize, Product>> := [UpdateJob([name], Up)];
    assert jobs[1..] == [] && InsertedKeys(w, jobs) == [];
  }

  lemma CountsTwo(name: usize)
    ensures var jobs: seq<Job<usize, Product>> := [UpdateJob([name], Up)]; TotalAsked([jobs, jobs], name) == 2
  {
    var jobs: seq<Job<usize, Product>> := [UpdateJob([name], Up)];
    assert Occurrences([name], name) == 1 && Asked(jobs, name) == 1;
    assert [jobs][1..] == [] && [jobs, jobs][1..] == [jobs];
    assert TotalAsked([jobs], name) == 1;
  }
}
