/** The streaming reader of ArrayIO.h. The input array is a sequence of chunks, each a
    sequence of cells; a cell carries its coordinates and one value per attribute the
    reader reads (all attribute iterators move in step, so one cell stands for the
    items under all of them). The reader walks chunk by chunk and cell by cell, drops
    cells whose filter-null fields are null, and routes every field either to a slot
    of the tuple or to a coordinate of the output cell.

    The engine's placement functions (`getChunkPositionFor`, the chunk-to-instance
    distribution and the in-chunk cell position) are parameters. */
module ArrayReading {
  import opened Bytes
  import opened Common
  import opened Coordinates
  import TA = TupleAddress

  datatype ReadMode = ReadInput | ReadTupled

  /** One cell of the input array: its coordinates and the items under the iterators. */
  datatype Cell = Cell(pos: seq<int>, items: seq<Value>)

  /** The routing tables the reader is built with. A destination below `nOutputAttrs`
      is a tuple slot; any other destination `d` is output coordinate `d - nOutputAttrs`. */
  datatype Routing = Routing(
    tupleSize: nat,
    nOutputAttrs: nat,
    nOutputDims: nat,
    attrDest: seq<nat>,
    filterNull: seq<bool>,
    dimIdx: seq<nat>,
    dimDest: seq<nat>)

  /** The engine functions the reader calls: the chunk holding an output cell, the
      instance a chunk belongs to, and a cell's position inside its chunk. */
  datatype Host = Host(
    chunkPosOf: seq<int> -> seq<int>,
    instanceOf: seq<int> -> int,
    cellPosOf: (seq<int>, seq<int>) -> int)

  ghost predicate ValidHost(h: Host) {
    && (forall cp :: |h.chunkPosOf(cp)| == |cp| && ValidCoords(h.chunkPosOf(cp)))
    && (forall cp :: IsU32(h.instanceOf(cp)))
    && (forall cp, cl :: IsI64(h.cellPosOf(cp, cl)))
  }

  /** `_nInputAttributes`: the attributes read, or every tuple slot of a tupled array. */
  function NumFields(mode: ReadMode, r: Routing): nat {
    if mode == ReadInput then |r.attrDest| else r.tupleSize
  }

  predicate DestOk(r: Routing, d: nat) {
    d < r.nOutputAttrs || d - r.nOutputAttrs < r.nOutputDims
  }

  /** What the reader's vector indexing needs of its tables. Attribute slots lie below
      the last slot, which holds the tuple address. */
  predicate ValidRouting(mode: ReadMode, r: Routing) {
    mode == ReadInput ==>
      && |r.filterNull| == |r.attrDest|
      && |r.dimIdx| == |r.dimDest|
      && r.nOutputAttrs < r.tupleSize
      && (forall i :: 0 <= i < |r.attrDest| ==> DestOk(r, r.attrDest[i]))
      && (forall i :: 0 <= i < |r.dimDest| ==> DestOk(r, r.dimDest[i]))
  }

  /** `getInt64` reads a present 8-byte value. */
  predicate Int64Readable(v: Value) {
    v.Present? && |v.item| == 8
  }

  /** A cell the reader can process: one item per field; every field routed to a
      coordinate holds an int64 unless it is a null the filter drops; every dimension
      read exists. */
  predicate WellFormedCell(mode: ReadMode, r: Routing, c: Cell) {
    && |c.items| == NumFields(mode, r)
    && (mode == ReadInput ==>
         && ValidCoords(c.pos)
         && (forall i :: 0 <= i < |c.items| && i < |r.attrDest| ==>
               r.attrDest[i] >= r.nOutputAttrs ==> Int64Readable(c.items[i]) || Filtered(r, c.items, i))
         && (forall i :: 0 <= i < |r.dimIdx| ==> r.dimIdx[i] < |c.pos|))
  }

  predicate WellFormedChunks(mode: ReadMode, r: Routing, chunks: seq<seq<Cell>>) {
    forall c, k :: 0 <= c < |chunks| && 0 <= k < |chunks[c]| ==> WellFormedCell(mode, r, chunks[c][k])
  }

  /** Field `i` is to be filtered for nulls and is null. */
  predicate Filtered(r: Routing, items: seq<Value>, i: nat) {
    i < |items| && i < |r.filterNull| && r.filterNull[i] && items[i].Null?
  }

  /** A cell that yields a tuple: in READ_INPUT mode no filter-null field is null. */
  predicate Qualifies(mode: ReadMode, r: Routing, c: Cell) {
    mode == ReadTupled || forall i :: 0 <= i < |c.items| ==> !Filtered(r, c.items, i)
  }

  // ---- routing a cell -----------------------------------------------------------------

  /** The tuple slots and output coordinates the reader fills in. */
  datatype Routed = Routed(tuple: seq<Value>, cellPos: seq<int>)

  predicate Shaped(r: Routing, st: Routed) {
    |st.tuple| == r.tupleSize && |st.cellPos| == r.nOutputDims
  }

  /** Routes one value to destination `d`: a tuple slot gets the value itself, a
      coordinate gets the number `x` it stands for. */
  function RouteOne(r: Routing, st: Routed, d: nat, v: Value, x: int): (res: Routed)
    requires Shaped(r, st) && DestOk(r, d) && r.nOutputAttrs <= r.tupleSize
    ensures Shaped(r, res)
    ensures d < r.nOutputAttrs ==> res.tuple[d] == v && res.cellPos == st.cellPos
    ensures d >= r.nOutputAttrs ==> res.cellPos[d - r.nOutputAttrs] == x && res.tuple == st.tuple
    ensures forall s :: 0 <= s < |st.tuple| && s != d ==> res.tuple[s] == st.tuple[s]
    ensures forall q :: 0 <= q < |st.cellPos| && q + r.nOutputAttrs != d ==> res.cellPos[q] == st.cellPos[q]
  {
    if d < r.nOutputAttrs then st.(tuple := st.tuple[d := v])
    else st.(cellPos := st.cellPos[d - r.nOutputAttrs := x])
  }

  /** The first `n` attribute fields routed, in order. */
  function RouteAttrs(r: Routing, st: Routed, items: seq<Value>, n: nat): (res: Routed)
    requires ValidRouting(ReadInput, r) && Shaped(r, st)
    requires n <= |items| <= |r.attrDest|
    requires forall i :: 0 <= i < n ==> r.attrDest[i] >= r.nOutputAttrs ==> Int64Readable(items[i])
    ensures Shaped(r, res)
    ensures forall s :: r.nOutputAttrs <= s < r.tupleSize ==> res.tuple[s] == st.tuple[s]
  {
    if n == 0 then st
    else
      var prev := RouteAttrs(r, st, items, n - 1);
      var d, v := r.attrDest[n - 1], items[n - 1];
      assert d >= r.nOutputAttrs ==> Int64Readable(v);
      RouteOne(r, prev, d, v, if d < r.nOutputAttrs then 0 else DecodeI64(v.item))
  }

  /** The first `n` dimensions read, routed in order; a tuple slot gets the
      coordinate as an int64 value. */
  function RouteDims(r: Routing, st: Routed, pos: seq<int>, n: nat): (res: Routed)
    requires ValidRouting(ReadInput, r) && Shaped(r, st) && ValidCoords(pos)
    requires n <= |r.dimIdx| && forall i :: 0 <= i < n ==> r.dimIdx[i] < |pos|
    ensures Shaped(r, res)
    ensures forall s :: r.nOutputAttrs <= s < r.tupleSize ==> res.tuple[s] == st.tuple[s]
  {
    if n == 0 then st
    else
      var prev := RouteDims(r, st, pos, n - 1);
      var c := pos[r.dimIdx[n - 1]];
      RouteOne(r, prev, r.dimDest[n - 1], Present(EncodeI64(c)), c)
  }

  /** All of a qualifying cell routed over the previous state `st`. */
  function FullRoute(mode: ReadMode, r: Routing, st: Routed, c: Cell): (res: Routed)
    requires ValidRouting(mode, r) && Shaped(r, st) && WellFormedCell(mode, r, c) && Qualifies(mode, r, c)
    ensures Shaped(r, res)
  {
    if mode == ReadTupled then Routed(c.items, st.cellPos)
    else RouteDims(r, RouteAttrs(r, st, c.items, |c.items|), c.pos, |r.dimIdx|)
  }

  /** The reader's fields after routing the qualifying cell `c` over `st`: the routed
      tuple and cell position and, in READ_INPUT mode, where the output cell lands and
      the tuple address built from it, which fills the tuple's last slot. */
  ghost predicate ReflectsAt(mode: ReadMode, r: Routing, h: Host, st: Routed, c: Cell, tuple: seq<Value>,
                             cellPos: seq<int>, chunkPos: seq<int>, dst: int, cellLPos: int, addr: seq<byte>)
  {
    && ValidRouting(mode, r) && ValidHost(h) && Shaped(r, st) && WellFormedCell(mode, r, c) && Qualifies(mode, r, c)
    && var res := FullRoute(mode, r, st, c);
    && cellPos == res.cellPos
    && if mode == ReadTupled then tuple == res.tuple
       else
         && chunkPos == h.chunkPosOf(cellPos)
         && dst == h.instanceOf(chunkPos)
         && cellLPos == h.cellPosOf(chunkPos, cellPos)
         && addr == TA.EncodeAddress(dst, chunkPos, cellLPos)
         && tuple == res.tuple[r.tupleSize - 1 := Present(addr)]
  }

  /** The field loop of `setAndCheckTuple` in READ_INPUT mode: routes fields in order
      and stops at the first null filter-null field. `n` is the number of fields
      routed; the cell yields a tuple exactly when all of them were. */
  method RouteFields(r: Routing, st: Routed, items: seq<Value>) returns (ok: bool, res: Routed, n: nat)
    requires ValidRouting(ReadInput, r) && Shaped(r, st) && |items| == |r.attrDest|
    requires forall i :: 0 <= i < |items| ==> r.attrDest[i] >= r.nOutputAttrs ==> Int64Readable(items[i]) || Filtered(r, items, i)
    ensures n <= |items| && forall k :: 0 <= k < n ==> !Filtered(r, items, k)
    ensures res == RouteAttrs(r, st, items, n)
    ensures ok <==> n == |items|
    ensures !ok ==> Filtered(r, items, n)
  {
    res := st;
    n := 0;
    while n < |items|
      invariant n <= |items| && forall k :: 0 <= k < n ==> !Filtered(r, items, k)
      invariant res == RouteAttrs(r, st, items, n)
    {
      var item := items[n];
      if r.filterNull[n] && item.Null? {
        return false, res, n;
      }
      var idx := r.attrDest[n];
      if idx < r.nOutputAttrs {
        res := res.(tuple := res.tuple[idx := item]);
      } else {
        res := res.(cellPos := res.cellPos[idx - r.nOutputAttrs := DecodeI64(item.item)]);
      }
      n := n + 1;
    }
    ok := true;
  }

  /** The dimension loop of `setAndCheckTuple`. */
  method RouteDimensions(r: Routing, st: Routed, pos: seq<int>) returns (res: Routed)
    requires ValidRouting(ReadInput, r) && Shaped(r, st) && ValidCoords(pos)
    requires forall i :: 0 <= i < |r.dimIdx| ==> r.dimIdx[i] < |pos|
    ensures res == RouteDims(r, st, pos, |r.dimIdx|)
  {
    res := st;
    for j := 0 to |r.dimIdx|
      invariant res == RouteDims(r, st, pos, j)
    {
      var c := pos[r.dimIdx[j]];
      var idx := r.dimDest[j];
      if idx < r.nOutputAttrs {
        res := res.(tuple := res.tuple[idx := Present(EncodeI64(c))]);
      } else {
        res := res.(cellPos := res.cellPos[idx - r.nOutputAttrs := c]);
      }
    }
  }

  /** The READ_INPUT tail of `setAndCheckTuple`, once the fields have qualified: routes
      the dimensions, asks the host where the output cell lands, and stores the tuple
      address built from that in the tuple's last slot. */
  method PlaceInput(r: Routing, h: Host, st: Routed, pos: seq<int>)
      returns (res: Routed, chunkPos: seq<int>, dst: int, cellLPos: int, addr: seq<byte>)
    requires ValidRouting(ReadInput, r) && ValidHost(h) && Shaped(r, st) && ValidCoords(pos) && r.tupleSize > 0
    requires forall i :: 0 <= i < |r.dimIdx| ==> r.dimIdx[i] < |pos|
    ensures var full := RouteDims(r, st, pos, |r.dimIdx|);
      && Shaped(r, full)
      && res.cellPos == full.cellPos
      && chunkPos == h.chunkPosOf(full.cellPos) && dst == h.instanceOf(chunkPos)
      && cellLPos == h.cellPosOf(chunkPos, full.cellPos)
      && addr == TA.EncodeAddress(dst, chunkPos, cellLPos)
      && res.tuple == full.tuple[r.tupleSize - 1 := Present(addr)]
  {
    var full := RouteDimensions(r, st, pos);
    chunkPos := h.chunkPosOf(full.cellPos);
    dst := h.instanceOf(chunkPos);
    cellLPos := h.cellPosOf(chunkPos, full.cellPos);
    assert chunkPos[..r.nOutputDims] == chunkPos;
    var blob := TA.MakeTupleAddress(dst, chunkPos, cellLPos, r.nOutputDims);
    addr := blob[..];
    res := full.(tuple := full.tuple[r.tupleSize - 1 := Present(addr)]);
  }

  /** `setAndCheckTuple` over the reader's values: `st` is the tuple and cell position
      before the call and `addr0` the tuple address its last slot shows in READ_INPUT
      mode. A cell that does not qualify leaves its fields routed up to the first null
      filter-null one. */
  method SetAndCheck(mode: ReadMode, r: Routing, h: Host, st: Routed, c: Cell, addr0: seq<byte>)
      returns (ok: bool, res: Routed, chunkPos: seq<int>, dst: int, cellLPos: int, addr: seq<byte>)
    requires ValidRouting(mode, r) && ValidHost(h) && Shaped(r, st) && WellFormedCell(mode, r, c)
    requires mode == ReadInput ==> |st.tuple| > 0 && st.tuple[|st.tuple| - 1] == Present(addr0)
    ensures Shaped(r, res)
    ensures mode == ReadInput ==> res.tuple[|res.tuple| - 1] == Present(if ok then addr else addr0)
    ensures ok == Qualifies(mode, r, c)
    ensures ok ==> ReflectsAt(mode, r, h, st, c, res.tuple, res.cellPos, chunkPos, dst, cellLPos, addr)
  {
    if mode == ReadTupled {
      var t := CopyFields(st.tuple, c.items);
      return true, Routed(t, st.cellPos), [], 0, 0, addr0;
    }
    var n;
    ok, res, n := RouteFields(r, st, c.items);
    if !ok {
      return false, res, [], 0, 0, addr0;
    }
    res, chunkPos, dst, cellLPos, addr := PlaceInput(r, h, res, c.pos);
  }

  /** The READ_TUPLED field loop: field `i` fills slot `i`. */
  method CopyFields(tuple: seq<Value>, items: seq<Value>) returns (res: seq<Value>)
    requires |tuple| == |items|
    ensures res == items
  {
    res := tuple;
    for i := 0 to |items|
      invariant |res| == |items| && res[..i] == items[..i]
    {
      res := res[i := items[i]];
    }
    assert res == res[..|items|];
  }

  // ---- the cells that surface ------------------------------------------------------------

  /** The qualifying cells of `cells`, in order. */
  function FilterCells(mode: ReadMode, r: Routing, cells: seq<Cell>): (res: seq<Cell>)
    ensures |res| <= |cells|
  {
    if |cells| == 0 then []
    else if Qualifies(mode, r, cells[0]) then [cells[0]] + FilterCells(mode, r, cells[1..])
    else FilterCells(mode, r, cells[1..])
  }

  /** The qualifying cells of chunks `c` onward. */
  function FlatFrom(mode: ReadMode, r: Routing, chunks: seq<seq<Cell>>, c: nat): seq<Cell>
    requires c <= |chunks|
    decreases |chunks| - c
  {
    if c == |chunks| then [] else FilterCells(mode, r, chunks[c]) + FlatFrom(mode, r, chunks, c + 1)
  }

  /** The qualifying cells from cell `k` of chunk `c` onward. */
  function RestAt(mode: ReadMode, r: Routing, chunks: seq<seq<Cell>>, c: nat, k: nat): seq<Cell>
    requires c <= |chunks| && (c < |chunks| ==> k <= |chunks[c]|)
  {
    if c == |chunks| then [] else FilterCells(mode, r, chunks[c][k..]) + FlatFrom(mode, r, chunks, c + 1)
  }

  /** The filter keeps exactly the qualifying cells. */
  lemma {:induction false} FilterCellsMembers(mode: ReadMode, r: Routing, cells: seq<Cell>)
    ensures forall c :: c in FilterCells(mode, r, cells) ==> c in cells && Qualifies(mode, r, c)
    ensures forall c :: c in cells && Qualifies(mode, r, c) ==> c in FilterCells(mode, r, cells)
  {
    if |cells| > 0 {
      FilterCellsMembers(mode, r, cells[1..]);
      assert cells == [cells[0]] + cells[1..];
    }
  }

  lemma RestSkip(mode: ReadMode, r: Routing, chunks: seq<seq<Cell>>, c: nat, k: nat)
    requires c < |chunks| && k < |chunks[c]| && !Qualifies(mode, r, chunks[c][k])
    ensures RestAt(mode, r, chunks, c, k) == RestAt(mode, r, chunks, c, k + 1)
  {
    assert chunks[c][k..][1..] == chunks[c][k + 1..];
  }

  lemma RestTake(mode: ReadMode, r: Routing, chunks: seq<seq<Cell>>, c: nat, k: nat)
    requires c < |chunks| && k < |chunks[c]| && Qualifies(mode, r, chunks[c][k])
    ensures RestAt(mode, r, chunks, c, k) == [chunks[c][k]] + RestAt(mode, r, chunks, c, k + 1)
  {
    assert chunks[c][k..][1..] == chunks[c][k + 1..];
  }

  lemma RestChunkEnd(mode: ReadMode, r: Routing, chunks: seq<seq<Cell>>, c: nat)
    requires c < |chunks|
    ensures RestAt(mode, r, chunks, c, |chunks[c]|) == RestAt(mode, r, chunks, c + 1, 0)
  {
    assert chunks[c][|chunks[c]|..] == [];
    if c + 1 < |chunks| {
      assert chunks[c + 1][0..] == chunks[c + 1];
    }
  }

  // ---- the reader ---------------------------------------------------------------------

  class ArrayReader {
    const mode: ReadMode
    const routing: Routing
    const host: Host
    /** The input array, chunk by chunk. */
    const chunks: seq<seq<Cell>>

    /** The array iterators' chunk (`_aiters`) and the chunk iterators' cell (`_citers`). */
    var chunkIdx: nat
    var cellIdx: nat
    /** `_tuple`, holding values where the source holds pointers to them. */
    var tuple: seq<Value>
    var cellPos: seq<int>
    var chunkPos: seq<int>
    var dstInstanceId: int
    var cellLPos: int
    var tupleAddress: seq<byte>
    /** The routing state the current cell was routed over. */
    ghost var prior: Routed

    ghost predicate Config() {
      ValidRouting(mode, routing) && ValidHost(host) && WellFormedChunks(mode, routing, chunks)
    }

    /** The vectors keep their sizes, and in READ_INPUT mode the last slot shows the
        tuple address (the source stores a pointer to `_tupleAddress` there). */
    ghost predicate Shape()
      reads this
    {
      Shaped(routing, Routed(tuple, cellPos)) &&
      (mode == ReadInput ==> |tuple| > 0 && tuple[|tuple| - 1] == Present(tupleAddress))
    }

    ghost predicate Cursor()
      reads this
    {
      chunkIdx <= |chunks| && (chunkIdx < |chunks| ==> cellIdx <= |chunks[chunkIdx]|)
    }

    /** `end()`: the array iterators have passed the last chunk. */
    predicate End()
      reads this
    {
      chunkIdx >= |chunks|
    }

    /** Either at the end, or on a qualifying cell. */
    ghost predicate Positioned()
      reads this
    {
      Cursor() &&
      (chunkIdx < |chunks| ==> cellIdx < |chunks[chunkIdx]| && Qualifies(mode, routing, chunks[chunkIdx][cellIdx]))
    }

    /** The state after routing the qualifying cell `c` over `st`. */
    ghost predicate Reflects(st: Routed, c: Cell)
      reads this
    {
      Config() && ReflectsAt(mode, routing, host, st, c, tuple, cellPos, chunkPos, dstInstanceId, cellLPos, tupleAddress)
    }

    ghost predicate Valid()
      reads this
    {
      Config() && Shape() && Positioned() &&
      (!End() ==> Reflects(prior, chunks[chunkIdx][cellIdx]))
    }

    ghost function Current(): Cell
      requires Positioned() && !End()
      reads this
    {
      chunks[chunkIdx][cellIdx]
    }

    /** The qualifying cells still to surface, the current one first. */
    ghost function Rest(): seq<Cell>
      requires Cursor()
      reads this
    {
      RestAt(mode, routing, chunks, chunkIdx, cellIdx)
    }

    /** The constructor: opens the iterators on the first chunk and, unless the array
        is empty, moves to the first qualifying cell. */
    constructor (mode: ReadMode, routing: Routing, host: Host, chunks: seq<seq<Cell>>)
      requires ValidRouting(mode, routing) && ValidHost(host) && WellFormedChunks(mode, routing, chunks)
      requires mode == ReadInput ==> routing.tupleSize > 0
      ensures this.mode == mode && this.routing == routing && this.chunks == chunks
      ensures this.host == host
      ensures Valid()
      ensures Rest() == FlatFrom(mode, routing, chunks, 0)
    {
      this.mode := mode;
      this.routing := routing;
      this.host := host;
      this.chunks := chunks;
      chunkIdx := 0;
      cellIdx := 0;
      tuple := seq(routing.tupleSize, _ => Null(0));
      cellPos := seq(routing.nOutputDims, _ => 0);
      chunkPos := seq(routing.nOutputDims, _ => 0);
      dstInstanceId := 0;
      cellLPos := 0;
      tupleAddress := [];
      prior := Routed([], []);
      new;
      if mode == ReadInput {
        tuple := tuple[routing.tupleSize - 1 := Present(tupleAddress)];
      }
      if |chunks| > 0 {
        Advance(true);
      }
    }

    /** `setAndCheckTuple`: routes the current cell's fields in order, giving up at the
        first null filter-null field; a tupled array's fields fill the tuple in order.
        In READ_INPUT mode the dimensions are routed next and the tuple address is
        built from where the output cell lands. */
    method SetAndCheckTuple() returns (ok: bool)
      requires Config() && Shape() && chunkIdx < |chunks| && cellIdx < |chunks[chunkIdx]|
      modifies this
      ensures Shape() && chunkIdx == old(chunkIdx) && cellIdx == old(cellIdx)
      ensures ok == Qualifies(mode, routing, chunks[chunkIdx][cellIdx])
      ensures ok ==> prior == old(Routed(tuple, cellPos)) && Reflects(prior, chunks[chunkIdx][cellIdx])
    {
      var cell := chunks[chunkIdx][cellIdx];
      assert WellFormedCell(mode, routing, cell);
      var res, cp, d, lp, addr;
      ok, res, cp, d, lp, addr := SetAndCheck(mode, routing, host, Routed(tuple, cellPos), cell, tupleAddress);
      prior := Routed(tuple, cellPos);
      tuple, cellPos := res.tuple, res.cellPos;
      if ok && mode == ReadInput {
        chunkPos, dstInstanceId, cellLPos, tupleAddress := cp, d, lp, addr;
      }
      assert ok ==> ReflectsAt(mode, routing, host, prior, cell, tuple, cellPos, chunkPos, dstInstanceId, cellLPos, tupleAddress);
    }

    /** `findNextTupleInChunk`: from the current cell on, the first cell of this chunk
        that yields a tuple. */
    method FindNextTupleInChunk() returns (found: bool)
      requires Config() && Shape() && chunkIdx < |chunks| && cellIdx <= |chunks[chunkIdx]|
      modifies this
      ensures Shape() && chunkIdx == old(chunkIdx) && old(cellIdx) <= cellIdx <= |chunks[chunkIdx]|
      ensures found <==> cellIdx < |chunks[chunkIdx]|
      ensures forall k :: old(cellIdx) <= k < cellIdx ==> !Qualifies(mode, routing, chunks[chunkIdx][k])
      ensures found ==> Positioned() && Reflects(prior, chunks[chunkIdx][cellIdx])
      ensures RestAt(mode, routing, chunks, chunkIdx, cellIdx) == old(RestAt(mode, routing, chunks, chunkIdx, cellIdx))
    {
      ghost var start := cellIdx;
      ghost var target := RestAt(mode, routing, chunks, chunkIdx, cellIdx);
      while cellIdx < |chunks[chunkIdx]|
        invariant Shape() && chunkIdx == old(chunkIdx) && start <= cellIdx <= |chunks[chunkIdx]|
        invariant forall k :: start <= k < cellIdx ==> !Qualifies(mode, routing, chunks[chunkIdx][k])
        invariant RestAt(mode, routing, chunks, chunkIdx, cellIdx) == target
        decreases |chunks[chunkIdx]| - cellIdx
      {
        var k := cellIdx;
        var ok := SetAndCheckTuple();
        if ok {
          return true;
        }
        RestSkip(mode, routing, chunks, chunkIdx, k);
        cellIdx := k + 1;
      }
      return false;
    }

    /** The loop of `next`: from chunk `chunkIdx` on, open each chunk at its first cell
        until one yields a tuple or the chunks run out. */
    method ScanChunks()
      requires Config() && Shape() && chunkIdx <= |chunks|
      modifies this
      ensures Valid()
      ensures Rest() == old(RestAt(mode, routing, chunks, chunkIdx, 0))
    {
      ghost var target := RestAt(mode, routing, chunks, chunkIdx, 0);
      while chunkIdx < |chunks|
        invariant Shape() && chunkIdx <= |chunks|
        invariant RestAt(mode, routing, chunks, chunkIdx, 0) == target
        decreases |chunks| - chunkIdx
      {
        cellIdx := 0;
        var found := FindNextTupleInChunk();
        if found {
          return;
        }
        RestChunkEnd(mode, routing, chunks, chunkIdx);
        chunkIdx := chunkIdx + 1;
      }
    }

    /** `next<FIRST_ITERATION>`: unless this is the first positioning, step past the
        current cell and look in the rest of its chunk; then try the following chunks. */
    method Advance(first: bool)
      requires Config() && Shape() && chunkIdx < |chunks|
      requires !first ==> Positioned()
      modifies this
      ensures Valid()
      ensures first ==> Rest() == old(RestAt(mode, routing, chunks, chunkIdx, 0))
      ensures !first ==> Rest() == old(Rest())[1..]
    {
      if !first {
        RestTake(mode, routing, chunks, chunkIdx, cellIdx);
        ghost var target := RestAt(mode, routing, chunks, chunkIdx, cellIdx + 1);
        assert old(Rest())[1..] == target;
        cellIdx := cellIdx + 1;
        var found := FindNextTupleInChunk();
        if found {
          return;
        }
        RestChunkEnd(mode, routing, chunks, chunkIdx);
        chunkIdx := chunkIdx + 1;
      }
      ScanChunks();
    }

    /** `next()`: fails once the reader has ended; otherwise the next qualifying cell
        becomes current. */
    method Next() returns (r: Result<()>)
      requires Valid()
      modifies this
      ensures Valid()
      ensures old(End()) ==> r == Err(InternalInconsistency) && unchanged(this)
      ensures !old(End()) ==> r == Ok(()) && Rest() == old(Rest())[1..]
    {
      if End() {
        return Err(InternalInconsistency);
      }
      Advance(false);
      r := Ok(());
    }

    /** `getTuple()`: fails once the reader has ended. */
    function GetTuple(): (r: Result<seq<Value>>)
      reads this
      ensures r.Err? <==> End()
      ensures r.Err? ==> r.error == InternalInconsistency
    {
      if End() then Err(InternalInconsistency) else Ok(tuple)
    }
  }

  // ---- where the fields land --------------------------------------------------------

  /** An attribute field routed to a tuple slot that no later field writes leaves its
      value there. */
  lemma {:induction false} AttrLandsInSlot(r: Routing, st: Routed, items: seq<Value>, n: nat, i: nat)
    requires ValidRouting(ReadInput, r) && Shaped(r, st) && n <= |items| <= |r.attrDest|
    requires forall k :: 0 <= k < n ==> r.attrDest[k] >= r.nOutputAttrs ==> Int64Readable(items[k])
    requires i < n && r.attrDest[i] < r.nOutputAttrs
    requires forall j :: i < j < n ==> r.attrDest[j] != r.attrDest[i]
    ensures RouteAttrs(r, st, items, n).tuple[r.attrDest[i]] == items[i]
  {
    if i < n - 1 {
      AttrLandsInSlot(r, st, items, n - 1, i);
    }
  }

  /** An attribute field routed to a coordinate that no later field writes leaves its
      int64 value there. */
  lemma {:induction false} AttrLandsInCoord(r: Routing, st: Routed, items: seq<Value>, n: nat, i: nat)
    requires ValidRouting(ReadInput, r) && Shaped(r, st) && n <= |items| <= |r.attrDest|
    requires forall k :: 0 <= k < n ==> r.attrDest[k] >= r.nOutputAttrs ==> Int64Readable(items[k])
    requires i < n && r.attrDest[i] >= r.nOutputAttrs
    requires forall j :: i < j < n ==> r.attrDest[j] != r.attrDest[i]
    ensures RouteAttrs(r, st, items, n).cellPos[r.attrDest[i] - r.nOutputAttrs] == DecodeI64(items[i].item)
  {
    if i < n - 1 {
      AttrLandsInCoord(r, st, items, n - 1, i);
    }
  }

  /** A dimension routed to a tuple slot that no later dimension writes leaves its
      coordinate there as an int64 value. */
  lemma {:induction false} DimLandsInSlot(r: Routing, st: Routed, pos: seq<int>, n: nat, i: nat)
    requires ValidRouting(ReadInput, r) && Shaped(r, st) && ValidCoords(pos)
    requires n <= |r.dimIdx| && forall k :: 0 <= k < n ==> r.dimIdx[k] < |pos|
    requires i < n && r.dimDest[i] < r.nOutputAttrs
    requires forall j :: i < j < n ==> r.dimDest[j] != r.dimDest[i]
    ensures RouteDims(r, st, pos, n).tuple[r.dimDest[i]] == Present(EncodeI64(pos[r.dimIdx[i]]))
  {
    if i < n - 1 {
      DimLandsInSlot(r, st, pos, n - 1, i);
    }
  }

  /** A dimension routed to a coordinate that no later dimension writes leaves its
      coordinate there. */
  lemma {:induction false} DimLandsInCoord(r: Routing, st: Routed, pos: seq<int>, n: nat, i: nat)
    requires ValidRouting(ReadInput, r) && Shaped(r, st) && ValidCoords(pos)
    requires n <= |r.dimIdx| && forall k :: 0 <= k < n ==> r.dimIdx[k] < |pos|
    requires i < n && r.dimDest[i] >= r.nOutputAttrs
    requires forall j :: i < j < n ==> r.dimDest[j] != r.dimDest[i]
    ensures RouteDims(r, st, pos, n).cellPos[r.dimDest[i] - r.nOutputAttrs] == pos[r.dimIdx[i]]
  {
    if i < n - 1 {
      DimLandsInCoord(r, st, pos, n - 1, i);
    }
  }

  /** Routing the dimensions leaves alone every destination none of them names. */
  lemma {:induction false} DimsFrame(r: Routing, st: Routed, pos: seq<int>, n: nat, d: nat)
    requires ValidRouting(ReadInput, r) && Shaped(r, st) && ValidCoords(pos)
    requires n <= |r.dimIdx| && forall k :: 0 <= k < n ==> r.dimIdx[k] < |pos|
    requires DestOk(r, d) && forall j :: 0 <= j < n ==> r.dimDest[j] != d
    ensures d < r.nOutputAttrs ==> RouteDims(r, st, pos, n).tuple[d] == st.tuple[d]
    ensures d >= r.nOutputAttrs ==> RouteDims(r, st, pos, n).cellPos[d - r.nOutputAttrs] == st.cellPos[d - r.nOutputAttrs]
  {
    if n > 0 {
      DimsFrame(r, st, pos, n - 1, d);
    }
  }

  /** In READ_INPUT mode the tuple shows attribute field `i` of the current cell in its
      slot, unless a later field or a dimension is routed to the same slot. */
  lemma ReaderAttrSlot(rd: ArrayReader, i: nat)
    requires rd.Valid() && !rd.End() && rd.mode == ReadInput
    requires i < |rd.routing.attrDest| && rd.routing.attrDest[i] < rd.routing.nOutputAttrs
    requires forall j :: i < j < |rd.routing.attrDest| ==> rd.routing.attrDest[j] != rd.routing.attrDest[i]
    requires forall j :: 0 <= j < |rd.routing.dimDest| ==> rd.routing.dimDest[j] != rd.routing.attrDest[i]
    ensures rd.GetTuple().Ok? && rd.GetTuple().value[rd.routing.attrDest[i]] == rd.Current().items[i]
  {
    var r, c := rd.routing, rd.Current();
    AttrLandsInSlot(r, rd.prior, c.items, |c.items|, i);
    DimsFrame(r, RouteAttrs(r, rd.prior, c.items, |c.items|), c.pos, |r.dimIdx|, r.attrDest[i]);
  }

  /** In READ_INPUT mode an attribute field routed to a coordinate gives that output
      coordinate its int64 value, unless a later field or a dimension also names it. */
  lemma ReaderAttrCoord(rd: ArrayReader, i: nat)
    requires rd.Valid() && !rd.End() && rd.mode == ReadInput
    requires i < |rd.routing.attrDest| && rd.routing.attrDest[i] >= rd.routing.nOutputAttrs
    requires forall j :: i < j < |rd.routing.attrDest| ==> rd.routing.attrDest[j] != rd.routing.attrDest[i]
    requires forall j :: 0 <= j < |rd.routing.dimDest| ==> rd.routing.dimDest[j] != rd.routing.attrDest[i]
    ensures Int64Readable(rd.Current().items[i])
    ensures rd.cellPos[rd.routing.attrDest[i] - rd.routing.nOutputAttrs] == DecodeI64(rd.Current().items[i].item)
  {
    var r, c := rd.routing, rd.Current();
    assert !Filtered(r, c.items, i);
    AttrLandsInCoord(r, rd.prior, c.items, |c.items|, i);
    DimsFrame(r, RouteAttrs(r, rd.prior, c.items, |c.items|), c.pos, |r.dimIdx|, r.attrDest[i]);
  }

  /** In READ_INPUT mode a dimension routed to a tuple slot that no later dimension
      names shows the current cell's coordinate there as an int64 value. */
  lemma ReaderDimSlot(rd: ArrayReader, i: nat)
    requires rd.Valid() && !rd.End() && rd.mode == ReadInput
    requires i < |rd.routing.dimDest| && rd.routing.dimDest[i] < rd.routing.nOutputAttrs
    requires forall j :: i < j < |rd.routing.dimDest| ==> rd.routing.dimDest[j] != rd.routing.dimDest[i]
    ensures rd.GetTuple().Ok?
    ensures rd.GetTuple().value[rd.routing.dimDest[i]] == Present(EncodeI64(rd.Current().pos[rd.routing.dimIdx[i]]))
  {
    var r, c := rd.routing, rd.Current();
    DimLandsInSlot(r, RouteAttrs(r, rd.prior, c.items, |c.items|), c.pos, |r.dimIdx|, i);
  }

  /** In READ_INPUT mode a dimension routed to a coordinate that no later dimension
      names copies the current cell's coordinate there. */
  lemma ReaderDimCoord(rd: ArrayReader, i: nat)
    requires rd.Valid() && !rd.End() && rd.mode == ReadInput
    requires i < |rd.routing.dimDest| && rd.routing.dimDest[i] >= rd.routing.nOutputAttrs
    requires forall j :: i < j < |rd.routing.dimDest| ==> rd.routing.dimDest[j] != rd.routing.dimDest[i]
    ensures rd.cellPos[rd.routing.dimDest[i] - rd.routing.nOutputAttrs] == rd.Current().pos[rd.routing.dimIdx[i]]
  {
    var r, c := rd.routing, rd.Current();
    DimLandsInCoord(r, RouteAttrs(r, rd.prior, c.items, |c.items|), c.pos, |r.dimIdx|, i);
  }

  /** In READ_INPUT mode the last slot holds the tuple address of the output cell: it
      reads back as the instance of the chunk holding `cellPos`, that chunk's position,
      and the cell's position within it. */
  lemma ReaderAddressSlot(rd: ArrayReader)
    requires rd.Valid() && !rd.End() && rd.mode == ReadInput
    ensures rd.GetTuple().Ok?
    ensures var t := rd.GetTuple().value;
            var cp := rd.host.chunkPosOf(rd.cellPos);
            var n := rd.routing.nOutputDims;
            && t[rd.routing.tupleSize - 1].Present?
            && TA.WellSized(t[rd.routing.tupleSize - 1].item, n)
            && TA.GetInstanceId(t[rd.routing.tupleSize - 1].item) == rd.host.instanceOf(cp)
            && CoordsAt(t[rd.routing.tupleSize - 1].item, 4, n) == cp
            && TA.GetCellPos(t[rd.routing.tupleSize - 1].item, n) == rd.host.cellPosOf(cp, rd.cellPos)
  {
    TA.AddressRoundTrip(rd.dstInstanceId, rd.chunkPos, rd.cellLPos);
  }

  /** In READ_TUPLED mode the tuple is the current cell's fields, in order. */
  lemma ReaderTupledCopies(rd: ArrayReader)
    requires rd.Valid() && !rd.End() && rd.mode == ReadTupled
    ensures rd.GetTuple() == Ok(rd.Current().items)
  {
  }

  /** The current cell is the first of those still to surface, and it qualifies; at the
      end none are left. */
  lemma ReaderCurrentIsNext(rd: ArrayReader)
    requires rd.Valid()
    ensures rd.End() <==> rd.Rest() == []
    ensures !rd.End() ==> rd.Rest()[0] == rd.Current() && Qualifies(rd.mode, rd.routing, rd.Current())
  {
    if !rd.End() {
      RestTake(rd.mode, rd.routing, rd.chunks, rd.chunkIdx, rd.cellIdx);
    }
  }
}
