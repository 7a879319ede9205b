/** The two ways the physical operator cuts a stream of tuples into chunks
    (PhysicalFasterRedimension.cpp): `TupleDelegateArray`, which packs the reader's
    tuples into numbered chunks bounded by a cell count, a byte budget and (when it
    reads tupled data) the destination instance, and `InputScannerChunkIterator`,
    which bounds the chunks handed to the pre-sort by a cell count and a byte budget.
    The reader is the sequence of tuples it yields and a position in it. */
module ChunkPacking {
  import opened Bytes
  import opened Common
  import RT = RedimensionTuple
  import AR = ArrayReading
  import AW = ArrayWriting

  type Tuple = seq<byte>

  /** One written cell of a single-attribute chunk. */
  datatype Item = Item(pos: seq<int>, value: Value)

  /** A chunk of one attribute of the tupled array: attribute 0 holds the tuples,
      attribute 1 the empty-cell bitmap. */
  datatype MemChunk = MemChunk(attrId: nat, coords: seq<int>, items: seq<Item>)

  // ---- the packing rule -----------------------------------------------------------

  /** The bytes a run of tuples is charged: each tuple's size plus `sizeof(Value)`,
      accumulated front to back. */
  function Spent(ts: seq<Tuple>, valueSize: nat): nat {
    if |ts| == 0 then 0 else Spent(ts[..|ts| - 1], valueSize) + |ts[|ts| - 1]| + valueSize
  }

  /** In tupled mode the destination instance is read from each tuple. */
  predicate InstancesReadable(tupled: bool, ts: seq<Tuple>) {
    tupled ==> forall j :: 0 <= j < |ts| ==> |ts[j]| >= 5
  }

  /** The packing loop takes tuple `j` (the `j`-th of the chunk) when the reader has
      one, the chunk has room for it, the budget spent so far is below the limit and,
      in tupled mode, the tuple goes to the chunk's instance. */
  predicate Continues(ts: seq<Tuple>, j: nat, room: nat, limit: nat, valueSize: nat, tupled: bool, inst: int)
    requires InstancesReadable(tupled, ts)
  {
    j < |ts| && j < room && Spent(ts[..j], valueSize) < limit && (!tupled || RT.GetInstanceId(ts[j]) == inst)
  }

  /** The number of tuples the loop takes, counting on from `i`. */
  function PackFrom(ts: seq<Tuple>, i: nat, room: nat, limit: nat, valueSize: nat, tupled: bool, inst: int): (n: nat)
    requires i <= |ts| && InstancesReadable(tupled, ts)
    ensures i <= n <= |ts|
    decreases |ts| - i
  {
    if Continues(ts, i, room, limit, valueSize, tupled, inst) then PackFrom(ts, i + 1, room, limit, valueSize, tupled, inst)
    else i
  }

  /** The number of tuples one chunk takes from the front of `ts`. */
  function Packed(ts: seq<Tuple>, room: nat, limit: nat, valueSize: nat, tupled: bool, inst: int): (n: nat)
    requires InstancesReadable(tupled, ts)
    ensures n <= |ts|
  {
    PackFrom(ts, 0, room, limit, valueSize, tupled, inst)
  }

  /** The cell `j` places after the chunk's first position. */
  function Shift(coords: seq<int>, j: int): (r: seq<int>)
    requires |coords| > 0
    ensures |r| == |coords| && r[0] == coords[0] + j && r[1..] == coords[1..]
  {
    coords[0 := coords[0] + j]
  }

  /** The data chunk's cells: the tuples at consecutive positions from `coords`. */
  function DataItems(coords: seq<int>, ts: seq<Tuple>): (r: seq<Item>)
    requires |coords| > 0
    ensures |r| == |ts|
    ensures forall j :: 0 <= j < |ts| ==> r[j] == Item(Shift(coords, j), Present(ts[j]))
  {
    seq(|ts|, j requires 0 <= j < |ts| => Item(Shift(coords, j), Present(ts[j])))
  }

  /** One more tuple adds one cell at the next position. */
  lemma DataItemsSnoc(coords: seq<int>, ts: seq<Tuple>, t: Tuple)
    requires |coords| > 0
    ensures DataItems(coords, ts + [t]) == DataItems(coords, ts) + [Item(Shift(coords, |ts|), Present(t))]
  {
    var l, r := DataItems(coords, ts + [t]), DataItems(coords, ts) + [Item(Shift(coords, |ts|), Present(t))];
    assert forall j :: 0 <= j < |l| ==> l[j] == r[j];
  }

  /** The bitmap chunk's cells: `n` trues at consecutive positions from `coords`. */
  function TrueItems(coords: seq<int>, n: nat): (r: seq<Item>)
    requires |coords| > 0
    ensures |r| == n
    ensures forall j :: 0 <= j < n ==> r[j] == Item(Shift(coords, j), AW.BoolTrue)
  {
    seq(n, j requires 0 <= j < n => Item(Shift(coords, j), AW.BoolTrue))
  }

  /** The bitmap marks every data cell, and nothing else. */
  predicate BitmapMatches(data: MemChunk, ebm: MemChunk) {
    |data.items| == |ebm.items| &&
    forall j :: 0 <= j < |data.items| ==> ebm.items[j].pos == data.items[j].pos && ebm.items[j].value == AW.BoolTrue
  }

  // ---- lemmas: the packing rule -----------------------------------------------------

  /** `PackFrom` stops at the first index from `i` on where the loop's condition fails. */
  lemma {:induction false} PackFromStops(ts: seq<Tuple>, i: nat, room: nat, limit: nat, valueSize: nat, tupled: bool, inst: int)
    requires i <= |ts| && InstancesReadable(tupled, ts)
    ensures var n := PackFrom(ts, i, room, limit, valueSize, tupled, inst);
            i <= n <= |ts| &&
            (forall j :: i <= j < n ==> Continues(ts, j, room, limit, valueSize, tupled, inst)) &&
            !Continues(ts, n, room, limit, valueSize, tupled, inst)
    decreases |ts| - i
  {
    if Continues(ts, i, room, limit, valueSize, tupled, inst) {
      PackFromStops(ts, i + 1, room, limit, valueSize, tupled, inst);
    }
  }

  /** A chunk never takes more tuples than it has room for or the reader has left. */
  lemma PackedBounds(ts: seq<Tuple>, room: nat, limit: nat, valueSize: nat, tupled: bool, inst: int)
    requires InstancesReadable(tupled, ts)
    ensures Packed(ts, room, limit, valueSize, tupled, inst) <= room
    ensures Packed(ts, room, limit, valueSize, tupled, inst) <= |ts|
  {
    PackFromStops(ts, 0, room, limit, valueSize, tupled, inst);
    var n := Packed(ts, room, limit, valueSize, tupled, inst);
    if n > 0 {
      assert Continues(ts, n - 1, room, limit, valueSize, tupled, inst);
    }
  }

  /** The budget is checked before a tuple is taken: every tuple but the last of a
      chunk was taken under the limit, so the last one may overshoot it. */
  lemma PackedBudget(ts: seq<Tuple>, room: nat, limit: nat, valueSize: nat, tupled: bool, inst: int)
    requires InstancesReadable(tupled, ts)
    ensures var n := Packed(ts, room, limit, valueSize, tupled, inst);
            n > 0 ==> Spent(ts[..n - 1], valueSize) < limit
  {
    PackFromStops(ts, 0, room, limit, valueSize, tupled, inst);
    var n := Packed(ts, room, limit, valueSize, tupled, inst);
    if n > 0 {
      assert Continues(ts, n - 1, room, limit, valueSize, tupled, inst);
    }
  }

  /** Packing stops early only because the budget is used up: a chunk that has room,
      a next tuple and (in tupled mode) a next tuple of its instance has spent at
      least the limit. */
  lemma PackedMaximal(ts: seq<Tuple>, room: nat, limit: nat, valueSize: nat, tupled: bool, inst: int)
    requires InstancesReadable(tupled, ts)
    ensures var n := Packed(ts, room, limit, valueSize, tupled, inst);
            n < |ts| && n < room && (!tupled || RT.GetInstanceId(ts[n]) == inst) ==> Spent(ts[..n], valueSize) >= limit
  {
    PackFromStops(ts, 0, room, limit, valueSize, tupled, inst);
  }

  /** In tupled mode every tuple of a chunk goes to the chunk's instance. */
  lemma PackedSameInstance(ts: seq<Tuple>, room: nat, limit: nat, valueSize: nat, inst: int)
    requires InstancesReadable(true, ts)
    ensures forall j :: 0 <= j < Packed(ts, room, limit, valueSize, true, inst) ==> RT.GetInstanceId(ts[j]) == inst
  {
    PackFromStops(ts, 0, room, limit, valueSize, true, inst);
    forall j | 0 <= j < Packed(ts, room, limit, valueSize, true, inst)
      ensures RT.GetInstanceId(ts[j]) == inst
    {
      assert Continues(ts, j, room, limit, valueSize, true, inst);
    }
  }

  /** With a positive room and budget, a chunk takes at least the first tuple when it
      may take it. */
  lemma PackedProgress(ts: seq<Tuple>, room: nat, limit: nat, valueSize: nat, tupled: bool, inst: int)
    requires InstancesReadable(tupled, ts)
    requires |ts| > 0 && room > 0 && limit > 0 && (!tupled || RT.GetInstanceId(ts[0]) == inst)
    ensures Packed(ts, room, limit, valueSize, tupled, inst) >= 1
  {
    assert Spent(ts[..0], valueSize) == 0;
    assert Continues(ts, 0, room, limit, valueSize, tupled, inst);
  }

  /** The data and bitmap chunks of one `moveNext` place their cells alike. */
  lemma DataAndBitmapAgree(coords: seq<int>, ts: seq<Tuple>)
    requires |coords| > 0
    ensures BitmapMatches(MemChunk(0, coords, DataItems(coords, ts)), MemChunk(1, coords, TrueItems(coords, |ts|)))
  {
  }

  // ---- the two loops of `moveNext` ----------------------------------------------------

  /** The first loop of `moveNext`: writes tuples from reader position `start` at
      consecutive positions from `coords` until the loop condition fails; `next` is
      the reader's new position. */
  method FillDataChunk(tuples: seq<Tuple>, start: nat, coords: seq<int>, chunkSize: nat, chunkSizeLimit: nat,
                       valueSize: nat, tupled: bool)
    returns (items: seq<Item>, next: nat)
    requires start <= |tuples| && |coords| == 3 && InstancesReadable(tupled, tuples)
    ensures start <= next <= |tuples|
    ensures next - start == Packed(tuples[start..], chunkSize, chunkSizeLimit, valueSize, tupled, coords[1])
    ensures items == DataItems(coords, tuples[start..next])
  {
    ghost var ts := tuples[start..];
    var posBuf := coords;
    var limit := posBuf[0] + chunkSize;
    var numCells := 0;
    var totalSize := 0;
    next := start;
    items := [];
    while next < |tuples| && posBuf[0] < limit && totalSize < chunkSizeLimit &&
          (!tupled || RT.GetInstanceId(tuples[next]) == coords[1])
      invariant start <= next <= |tuples| && numCells == next - start
      invariant Filled(ts, coords, chunkSize, chunkSizeLimit, valueSize, tupled, numCells, posBuf, totalSize, items)
      decreases |tuples| - next
    {
      var tuple := tuples[next];
      FilledStep(ts, coords, chunkSize, chunkSizeLimit, valueSize, tupled, numCells, posBuf, totalSize, items);
      totalSize := totalSize + |tuple| + valueSize;
      items := items + [Item(posBuf, Present(tuple))];
      next := next + 1;
      numCells := numCells + 1;
      posBuf := posBuf[0 := posBuf[0] + 1];
    }
    assert ts[..numCells] == tuples[start..next];
  }

  /** The state of `FillDataChunk`'s loop after `n` cells of `ts`. */
  ghost predicate Filled(ts: seq<Tuple>, coords: seq<int>, chunkSize: nat, chunkSizeLimit: nat, valueSize: nat,
                         tupled: bool, n: nat, posBuf: seq<int>, totalSize: int, items: seq<Item>)
    requires |coords| == 3 && InstancesReadable(tupled, ts)
  {
    && n <= |ts|
    && posBuf == Shift(coords, n)
    && totalSize == Spent(ts[..n], valueSize)
    && items == DataItems(coords, ts[..n])
    && Packed(ts, chunkSize, chunkSizeLimit, valueSize, tupled, coords[1])
       == PackFrom(ts, n, chunkSize, chunkSizeLimit, valueSize, tupled, coords[1])
  }

  lemma FilledStep(ts: seq<Tuple>, coords: seq<int>, chunkSize: nat, chunkSizeLimit: nat, valueSize: nat,
                   tupled: bool, n: nat, posBuf: seq<int>, totalSize: int, items: seq<Item>)
    requires |coords| == 3 && InstancesReadable(tupled, ts)
    requires Filled(ts, coords, chunkSize, chunkSizeLimit, valueSize, tupled, n, posBuf, totalSize, items)
    requires n < |ts| && posBuf[0] < coords[0] + chunkSize && totalSize < chunkSizeLimit
    requires !tupled || RT.GetInstanceId(ts[n]) == coords[1]
    ensures Filled(ts, coords, chunkSize, chunkSizeLimit, valueSize, tupled, n + 1, posBuf[0 := posBuf[0] + 1],
                   totalSize + |ts[n]| + valueSize, items + [Item(posBuf, Present(ts[n]))])
  {
    assert ts[..n + 1] == ts[..n] + [ts[n]];
    assert ts[..n + 1][..n] == ts[..n];
    DataItemsSnoc(coords, ts[..n], ts[n]);
    assert Continues(ts, n, chunkSize, chunkSizeLimit, valueSize, tupled, coords[1]);
  }

  /** The second loop of `moveNext`: `numCells` trues at consecutive positions from
      `coords`. */
  method FillBitmapChunk(coords: seq<int>, numCells: nat) returns (items: seq<Item>)
    requires |coords| == 3
    ensures items == TrueItems(coords, numCells)
  {
    var posBuf := coords;
    var left: nat := numCells;
    items := [];
    while left > 0
      invariant left <= numCells && posBuf == Shift(coords, numCells - left)
      invariant items == TrueItems(coords, numCells - left)
    {
      assert TrueItems(coords, numCells - left + 1) == TrueItems(coords, numCells - left) + [Item(posBuf, AW.BoolTrue)];
      items := items + [Item(posBuf, AW.BoolTrue)];
      left := left - 1;
      posBuf := posBuf[0 := posBuf[0] + 1];
    }
  }

  /** The two loops of `moveNext` together: the data chunk packed from `start` and the
      bitmap chunk that marks its cells. */
  method PackChunk(tuples: seq<Tuple>, start: nat, coords: seq<int>, chunkSize: nat, chunkSizeLimit: nat,
                   valueSize: nat, tupled: bool)
    returns (data: MemChunk, ebm: MemChunk, next: nat)
    requires start < |tuples| && |coords| == 3 && InstancesReadable(tupled, tuples)
    requires !tupled || RT.GetInstanceId(tuples[start]) == coords[1]
    ensures start <= next <= |tuples|
    ensures next - start == Packed(tuples[start..], chunkSize, chunkSizeLimit, valueSize, tupled, coords[1])
    ensures data == MemChunk(0, coords, DataItems(coords, tuples[start..next]))
    ensures ebm == MemChunk(1, coords, TrueItems(coords, next - start))
    ensures BitmapMatches(data, ebm)
    ensures chunkSize > 0 && chunkSizeLimit > 0 ==> next > start
  {
    var items, bits;
    items, next := FillDataChunk(tuples, start, coords, chunkSize, chunkSizeLimit, valueSize, tupled);
    bits := FillBitmapChunk(coords, next - start);
    if chunkSize > 0 && chunkSizeLimit > 0 {
      PackedProgress(tuples[start..], chunkSize, chunkSizeLimit, valueSize, tupled, coords[1]);
    }
    DataAndBitmapAgree(coords, tuples[start..next]);
    data := MemChunk(0, coords, items);
    ebm := MemChunk(1, coords, bits);
  }

  // ---- TupleDelegateArray ------------------------------------------------------------

  /** The single-pass array that presents the reader's tuples as chunks of the tupled
      array, at chunk coordinates (value_no, destination instance, this instance). */
  class TupleDelegateArray {
    const mode: AR.ReadMode
    const tuples: seq<Tuple>
    const chunkSize: nat
    const chunkSizeLimit: nat
    const valueSize: nat
    const myInstance: int

    var readerPos: nat
    var rowIndex: nat
    var chunkAddressAtt0: seq<int>
    var chunkAddressAtt1: seq<int>
    var dataChunk: MemChunk
    var ebmChunk: MemChunk
    /** How many chunks have been emitted for the current destination instance. */
    ghost var run: nat

    predicate Tupled() reads this { mode == AR.ReadTupled }

    predicate End() reads this { readerPos >= |tuples| }

    ghost predicate Valid() reads this {
      readerPos <= |tuples| && InstancesReadable(Tupled(), tuples) &&
      |chunkAddressAtt0| == 3 && chunkAddressAtt1 == chunkAddressAtt0 && chunkAddressAtt0[2] == myInstance &&
      chunkAddressAtt0[0] == (run as int - 1) * chunkSize &&
      (Tupled() && readerPos < |tuples| ==> RT.GetInstanceId(tuples[readerPos]) == chunkAddressAtt0[1]) &&
      BitmapMatches(dataChunk, ebmChunk)
    }

    constructor(mode: AR.ReadMode, tuples: seq<Tuple>, chunkSize: nat, chunkSizeLimit: nat, valueSize: nat, myInstance: int)
      requires InstancesReadable(mode == AR.ReadTupled, tuples)
      ensures Valid() && readerPos == 0 && rowIndex == 0 && run == 0
      ensures this.mode == mode && this.tuples == tuples && this.chunkSize == chunkSize
      ensures this.chunkSizeLimit == chunkSizeLimit && this.valueSize == valueSize && this.myInstance == myInstance
      ensures chunkAddressAtt0 == [0 - chunkSize, if mode == AR.ReadTupled && |tuples| > 0 then RT.GetInstanceId(tuples[0]) else 0, myInstance]
    {
      this.mode := mode;
      this.tuples := tuples;
      this.chunkSize := chunkSize;
      this.chunkSizeLimit := chunkSizeLimit;
      this.valueSize := valueSize;
      this.myInstance := myInstance;
      readerPos := 0;
      rowIndex := 0;
      run := 0;
      var inst := 0;
      if |tuples| > 0 && mode == AR.ReadTupled {
        inst := RT.GetInstanceId(tuples[0]);
      }
      chunkAddressAtt0 := [0 - chunkSize, inst, myInstance];
      chunkAddressAtt1 := [0 - chunkSize, inst, myInstance];
      dataChunk := MemChunk(0, [], []);
      ebmChunk := MemChunk(1, [], []);
    }

    /** `moveNext`: false, with nothing changed, once the reader has ended; otherwise
        the next chunk of tuples and its bitmap. */
    method MoveNext() returns (r: bool)
      requires Valid()
      modifies this
      ensures Valid()
      ensures old(End()) ==> !r && unchanged(this)
      ensures !old(End()) ==> r && rowIndex == old(rowIndex) + 1
      ensures !old(End()) ==>
        var coords := old(chunkAddressAtt0)[0 := old(chunkAddressAtt0[0]) + chunkSize];
        var n := Packed(tuples[old(readerPos)..], chunkSize, chunkSizeLimit, valueSize, Tupled(), coords[1]);
        coords[0] == old(run) * chunkSize &&
        readerPos == old(readerPos) + n &&
        dataChunk == MemChunk(0, coords, DataItems(coords, tuples[old(readerPos)..readerPos])) &&
        ebmChunk == MemChunk(1, coords, TrueItems(coords, n)) &&
        (if Tupled() && readerPos < |tuples| && RT.GetInstanceId(tuples[readerPos]) != coords[1]
         then chunkAddressAtt0 == [0 - chunkSize, RT.GetInstanceId(tuples[readerPos]), myInstance] && run == 0
         else chunkAddressAtt0 == coords && run == old(run) + 1)
      ensures !old(End()) && chunkSize > 0 && chunkSizeLimit > 0 ==> readerPos > old(readerPos)
    {
      if readerPos >= |tuples| {
        return false;
      }
      var coords := chunkAddressAtt0[0 := chunkAddressAtt0[0] + chunkSize];
      assert coords[0] == run * chunkSize;
      var next;
      dataChunk, ebmChunk, next := PackChunk(tuples, readerPos, coords, chunkSize, chunkSizeLimit, valueSize, Tupled());
      readerPos := next;
      rowIndex := rowIndex + 1;
      if next < |tuples| && Tupled() && RT.GetInstanceId(tuples[next]) != coords[1] {
        var inst := RT.GetInstanceId(tuples[next]);
        chunkAddressAtt0 := [0 - chunkSize, inst, coords[2]];
        chunkAddressAtt1 := [0 - chunkSize, inst, coords[2]];
        run := 0;
      } else {
        chunkAddressAtt0 := coords;
        chunkAddressAtt1 := coords;
        run := run + 1;
      }
      r := true;
    }

    /** `getChunk`: the data chunk for attribute 0, the bitmap for attribute 1, and an
        internal inconsistency for any other attribute. */
    function GetChunk(attr: nat): (r: Result<MemChunk>)
      reads this
      ensures attr >= 2 <==> r == Err(InternalInconsistency)
      ensures r.Ok? ==> r.value == dataChunk || r.value == ebmChunk
      ensures attr == 0 ==> r == Ok(dataChunk)
      ensures attr == 1 ==> r == Ok(ebmChunk)
    {
      if attr == 0 then Ok(dataChunk)
      else if attr == 1 then Ok(ebmChunk)
      else Err(InternalInconsistency)
    }
  }

  /** What one `moveNext` emits, read off its postcondition: at most `chunkSize`
      cells, taken in reader order, at consecutive positions, all for the chunk's
      instance in tupled mode, with the bitmap marking exactly those cells. */
  lemma EmittedChunk(tuples: seq<Tuple>, start: nat, coords: seq<int>, chunkSize: nat, chunkSizeLimit: nat,
                     valueSize: nat, tupled: bool)
    requires start <= |tuples| && |coords| == 3 && InstancesReadable(tupled, tuples)
    ensures var n := Packed(tuples[start..], chunkSize, chunkSizeLimit, valueSize, tupled, coords[1]);
            var data := DataItems(coords, tuples[start..start + n]);
            n <= chunkSize && start + n <= |tuples| &&
            (forall j :: 0 <= j < n ==> coords[0] <= data[j].pos[0] < coords[0] + chunkSize) &&
            (tupled ==> forall j :: start <= j < start + n ==> RT.GetInstanceId(tuples[j]) == coords[1]) &&
            BitmapMatches(MemChunk(0, coords, data), MemChunk(1, coords, TrueItems(coords, n)))
  {
    var ts := tuples[start..];
    var n := Packed(ts, chunkSize, chunkSizeLimit, valueSize, tupled, coords[1]);
    PackedBounds(ts, chunkSize, chunkSizeLimit, valueSize, tupled, coords[1]);
    if tupled {
      PackedSameInstance(ts, chunkSize, chunkSizeLimit, valueSize, coords[1]);
      forall j | start <= j < start + n
        ensures RT.GetInstanceId(tuples[j]) == coords[1]
      {
        assert tuples[j] == ts[j - start];
      }
    }
    DataAndBitmapAgree(coords, tuples[start..start + n]);
  }

  // ---- InputScannerChunkIterator -----------------------------------------------------

  /** The iterator over one pre-sort chunk. It shares the reader with the scanner
      array, so it starts wherever the previous chunk left the reader. */
  class InputScannerChunkIterator {
    const tuples: seq<Tuple>
    const start: nat
    const cellsPerChunkLimit: nat
    const binaryChunkSizeLimit: nat
    const valueSize: nat

    var readerPos: nat
    var cellsRead: nat
    var bytesRead: nat

    ghost predicate Valid() reads this {
      start <= readerPos <= |tuples| && bytesRead == Spent(tuples[start..readerPos], valueSize)
    }

    /** Every increment so far has moved the reader. */
    ghost predicate Counted() reads this {
      cellsRead == readerPos - start
    }

    constructor(tuples: seq<Tuple>, start: nat, cellsPerChunkLimit: nat, binaryChunkSizeLimit: nat, valueSize: nat)
      requires start <= |tuples|
      ensures Valid() && Counted()
      ensures this.tuples == tuples && this.start == start && readerPos == start
      ensures this.cellsPerChunkLimit == cellsPerChunkLimit && this.binaryChunkSizeLimit == binaryChunkSizeLimit
      ensures this.valueSize == valueSize && cellsRead == 0 && bytesRead == 0
    {
      this.tuples := tuples;
      this.start := start;
      this.cellsPerChunkLimit := cellsPerChunkLimit;
      this.binaryChunkSizeLimit := binaryChunkSizeLimit;
      this.valueSize := valueSize;
      readerPos := start;
      cellsRead := 0;
      bytesRead := 0;
    }

    /** `end`: the reader has ended, or the cell or byte limit is reached. */
    predicate End() reads this {
      readerPos >= |tuples| || cellsRead >= cellsPerChunkLimit || bytesRead >= binaryChunkSizeLimit
    }

    /** `getItem`: the reader's current tuple; the reader throws once it has ended. */
    function GetItem(): (r: Result<Tuple>)
      reads this
      ensures r.Ok? <==> readerPos < |tuples|
      ensures r.Ok? ==> r.value == tuples[readerPos]
      ensures r.Err? ==> r.error == InternalInconsistency
    {
      if readerPos < |tuples| then Ok(tuples[readerPos]) else Err(InternalInconsistency)
    }

    /** `operator++`: counts the cell first, then charges the current tuple and moves
        the reader; on an ended reader the charge throws after the count. */
    method Increment() returns (r: Result<()>)
      requires Valid()
      modifies this
      ensures Valid()
      ensures cellsRead == old(cellsRead) + 1
      ensures r.Err? <==> old(readerPos) >= |tuples|
      ensures r.Err? ==> r.error == InternalInconsistency && readerPos == old(readerPos) && bytesRead == old(bytesRead)
      ensures r.Ok? ==> readerPos == old(readerPos) + 1 &&
                        bytesRead == old(bytesRead) + |tuples[old(readerPos)]| + valueSize
      ensures old(Counted()) && r.Ok? ==> Counted()
    {
      cellsRead := cellsRead + 1;
      if readerPos >= |tuples| {
        return Err(InternalInconsistency);
      }
      assert tuples[start..readerPos + 1][..readerPos - start] == tuples[start..readerPos];
      bytesRead := bytesRead + |tuples[readerPos]| + valueSize;
      readerPos := readerPos + 1;
      r := Ok(());
    }
  }

  /** `end` after `k` increments of a fresh iterator over `ts`. */
  predicate ScannerEndsAfter(ts: seq<Tuple>, k: nat, cellLimit: nat, byteLimit: nat, valueSize: nat)
    requires k <= |ts|
  {
    k >= |ts| || k >= cellLimit || Spent(ts[..k], valueSize) >= byteLimit
  }

  /** A pre-sort chunk holds exactly the tuples a delegate chunk reading untupled
      input would pack with the same limits: the iterator ends after `Packed` steps
      and not before. */
  lemma ScannerChunkIsPacked(ts: seq<Tuple>, cellLimit: nat, byteLimit: nat, valueSize: nat)
    ensures var n := Packed(ts, cellLimit, byteLimit, valueSize, false, 0);
            n <= |ts| && ScannerEndsAfter(ts, n, cellLimit, byteLimit, valueSize) &&
            forall k :: 0 <= k < n ==> !ScannerEndsAfter(ts, k, cellLimit, byteLimit, valueSize)
  {
    PackFromStops(ts, 0, cellLimit, byteLimit, valueSize, false, 0);
    var n := Packed(ts, cellLimit, byteLimit, valueSize, false, 0);
    forall k | 0 <= k < n
      ensures !ScannerEndsAfter(ts, k, cellLimit, byteLimit, valueSize)
    {
      assert Continues(ts, k, cellLimit, byteLimit, valueSize, false, 0);
    }
  }

  /** The iterator's own `end` agrees with that count. */
  lemma ScannerEndMatches(it: InputScannerChunkIterator)
    requires it.Valid() && it.Counted()
    ensures it.End() <==> ScannerEndsAfter(it.tuples[it.start..], it.cellsRead, it.cellsPerChunkLimit,
                                           it.binaryChunkSizeLimit, it.valueSize)
  {
    assert it.tuples[it.start..][..it.cellsRead] == it.tuples[it.start..it.readerPos];
  }
}
