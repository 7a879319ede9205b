/** The writer of ArrayIO.h. It appends tuples to an in-memory output array, chunk by
    chunk, and in every mode writes each attribute and a `true` empty-tag entry at the
    same position.

    - WRITE_TUPLED numbers tuples along the first coordinate of (value_no,
      dst_instance, src_instance) and opens a chunk every `chunkSize` tuples.
    - WRITE_SPLIT_ON_INSTANCE also restarts the numbering, in a fresh chunk, whenever
      the destination instance in the tuple address changes.
    - WRITE_OUTPUT places each tuple at the output cell its tuple address names, opens
      a chunk whenever the chunk position changes, and rejects a write to the cell just
      written.

    The output array is the sequence of chunks opened, each with the cells written to
    it in order; `getOutputCellCoords` of the engine is a parameter. */
module ArrayWriting {
  import opened Bytes
  import opened Common
  import opened Coordinates
  import TA = TupleAddress

  datatype WriteMode = WriteTupled | WriteSplitOnInstance | WriteOutput

  /** One cell written: its position and the values of every attribute, the empty tag last. */
  datatype CellWrite = CellWrite(pos: seq<int>, values: seq<Value>)

  /** A chunk opened at `pos`, with the cells written to it. */
  datatype OutChunk = OutChunk(pos: seq<int>, cells: seq<CellWrite>)

  /** `_boolTrue`: the empty tag's value. */
  const BoolTrue: Value := Present([1])

  /** What the writer is built with. `cellCoordsOf` is the engine's
      `getOutputCellCoords`: the output cell at a position within a chunk. */
  datatype Params = Params(
    mode: WriteMode,
    myInstanceId: int,
    numAttributes: nat,
    numTupleDims: nat,
    chunkSize: nat,
    cellCoordsOf: (seq<int>, int) -> seq<int>)

  /** The writer's mutable state: `_outputChunkPosition`, `_outputPosition`,
      `_currentDstInstanceId`, and the chunks written. */
  datatype WState = WState(chunkPos: seq<int>, position: seq<int>, currentDst: int, output: seq<OutChunk>)

  /** The state the constructor sets up. */
  function Initial(p: Params): (st: WState)
    ensures p.mode != WriteOutput ==> st.position == [0, 0, p.myInstanceId] && st.chunkPos == [0, 0, 0]
    ensures p.mode == WriteOutput ==> st.position == [] && st.chunkPos == []
    ensures st.currentDst == 0 && st.output == []
  {
    if p.mode == WriteOutput then WState([], [], 0, [])
    else WState([0, 0, 0], [0, 0, p.myInstanceId], 0, [])
  }

  /** What `writeTuple` reads: the attributes, and the tuple address (the last
      attribute when splitting on instance, the entry after the attributes when writing
      the output); the non-output modes divide by the chunk size. */
  predicate StepDefined(p: Params, st: WState, tuple: seq<Value>) {
    && |tuple| >= p.numAttributes
    && (p.mode != WriteOutput ==> p.chunkSize > 0 && |st.position| == 3)
    && (p.mode == WriteSplitOnInstance ==>
         p.numAttributes > 0 && tuple[p.numAttributes - 1].Present? && |tuple[p.numAttributes - 1].item| >= 4)
    && (p.mode == WriteOutput ==>
         |tuple| > p.numAttributes && tuple[p.numAttributes].Present? &&
         |tuple[p.numAttributes].item| >= TA.AddressLen(p.numTupleDims))
  }

  /** The cell a write adds: the attributes, then `true` for the empty tag. */
  function Written(p: Params, pos: seq<int>, tuple: seq<Value>): CellWrite
    requires |tuple| >= p.numAttributes
  {
    CellWrite(pos, tuple[..p.numAttributes] + [BoolTrue])
  }

  /** Opens a chunk at `chunkPos` when asked, then writes the tuple at `pos` into the
      chunk being written. With no chunk open the source would dereference a null
      iterator; the state invariant rules that out. */
  function Emit(p: Params, output: seq<OutChunk>, newChunk: bool, chunkPos: seq<int>, pos: seq<int>, tuple: seq<Value>): (r: seq<OutChunk>)
    requires |tuple| >= p.numAttributes && (newChunk || |output| > 0)
    ensures newChunk ==> r == output + [OutChunk(chunkPos, [Written(p, pos, tuple)])]
    ensures !newChunk ==> |r| == |output| && r[..|r| - 1] == output[..|output| - 1]
    ensures !newChunk ==> r[|r| - 1] == output[|output| - 1].(cells := output[|output| - 1].cells + [Written(p, pos, tuple)])
  {
    if newChunk then output + [OutChunk(chunkPos, [Written(p, pos, tuple)])]
    else
      var last := output[|output| - 1];
      output[..|output| - 1] + [last.(cells := last.cells + [Written(p, pos, tuple)])]
  }

  /** `writeTuple` in the numbering modes. The instance switch resets the position
      and opens a chunk; so does a position that is a multiple of the chunk size. */
  function NumberedStep(p: Params, st: WState, tuple: seq<Value>): WState
    requires p.mode != WriteOutput && StepDefined(p, st, tuple)
    requires |st.output| == 0 ==> st.position[0] % p.chunkSize == 0
  {
    var switch := p.mode == WriteSplitOnInstance && TA.GetInstanceId(tuple[p.numAttributes - 1].item) != st.currentDst;
    var st1 :=
      if switch then
        var d := TA.GetInstanceId(tuple[p.numAttributes - 1].item);
        var pos := st.position[0 := 0][1 := d];
        st.(currentDst := d, position := pos, chunkPos := pos)
      else st;
    var onCount := st1.position[0] % p.chunkSize == 0;
    var chunkPos := if onCount then st1.position else st1.chunkPos;
    var output := Emit(p, st1.output, switch || onCount, chunkPos, st1.position, tuple);
    st1.(chunkPos := chunkPos, output := output, position := st1.position[0 := st1.position[0] + 1])
  }

  /** `writeTuple` in WRITE_OUTPUT mode: the first write and every change of chunk
      position open a chunk; a write to the cell just written in the same chunk is a
      data collision. */
  function OutputStep(p: Params, st: WState, tuple: seq<Value>): Result<WState>
    requires p.mode == WriteOutput && StepDefined(p, st, tuple)
    requires |st.output| == 0 ==> |st.chunkPos| == 0
  {
    var addr := tuple[p.numAttributes].item;
    var chunkPos := CoordsAt(addr, 4, p.numTupleDims);
    var pos := p.cellCoordsOf(chunkPos, TA.GetCellPos(addr, p.numTupleDims));
    if |st.chunkPos| == 0 || chunkPos != st.chunkPos then
      Ok(st.(chunkPos := chunkPos, position := pos, output := Emit(p, st.output, true, chunkPos, pos, tuple)))
    else if pos == st.position then Err(DataCollision)
    else Ok(st.(position := pos, output := Emit(p, st.output, false, chunkPos, pos, tuple)))
  }

  /** What the state always satisfies between writes. */
  ghost predicate Inv(p: Params, st: WState) {
    && (p.mode != WriteOutput ==> NumberedInv(p, st))
    && (p.mode == WriteOutput ==> OutputInv(p, st))
  }

  /** In the numbering modes the position is (value_no, dst_instance, my instance); the
      chunk being written starts at a multiple of the chunk size and holds the cells
      from its start up to the position, one per value_no; every chunk holds at most
      `chunkSize` cells. */
  ghost predicate NumberedInv(p: Params, st: WState) {
    && p.chunkSize > 0
    && |st.position| == 3 && |st.chunkPos| == 3
    && st.position[1] == st.currentDst && st.position[2] == p.myInstanceId
    && (|st.output| == 0 ==> st.position[0] == 0)
    && (|st.output| > 0 ==>
         var last := st.output[|st.output| - 1];
         && last.pos == st.chunkPos
         && st.chunkPos[1..] == st.position[1..]
         && st.chunkPos[0] % p.chunkSize == 0
         && st.chunkPos[0] < st.position[0] <= st.chunkPos[0] + p.chunkSize
         && |last.cells| == st.position[0] - st.chunkPos[0])
    && ChunksOk(p, st.output)
  }

  /** Every chunk written holds between one and `chunkSize` consecutive cells. */
  ghost predicate ChunksOk(p: Params, output: seq<OutChunk>) {
    forall i :: 0 <= i < |output| ==> ConsecutiveCells(output[i]) && 0 < |output[i].cells| <= p.chunkSize
  }

  lemma ChunksOkAppend(p: Params, output: seq<OutChunk>, c: OutChunk)
    requires ChunksOk(p, output) && ConsecutiveCells(c) && 0 < |c.cells| <= p.chunkSize
    ensures ChunksOk(p, output + [c])
  {
    assert forall i :: 0 <= i < |output| ==> (output + [c])[i] == output[i];
  }

  /** The cells of a chunk sit at consecutive value_no from the chunk's start, under the
      chunk's instances. */
  ghost predicate ConsecutiveCells(c: OutChunk) {
    |c.pos| == 3 &&
    forall j :: 0 <= j < |c.cells| ==> c.cells[j].pos == c.pos[0 := c.pos[0] + j]
  }

  /** In WRITE_OUTPUT mode the chunk being written is the one at the writer's chunk
      position, its last cell is the writer's position, and no chunk holds two
      successive writes to one cell. */
  ghost predicate OutputInv(p: Params, st: WState) {
    && (|st.output| == 0 ==> |st.chunkPos| == 0)
    && (|st.output| > 0 ==>
         var last := st.output[|st.output| - 1];
         && last.pos == st.chunkPos && |last.cells| > 0
         && last.cells[|last.cells| - 1].pos == st.position)
    && (forall i :: 0 <= i < |st.output| ==> NoRepeatedCell(st.output[i]))
  }

  ghost predicate NoRepeatedCell(c: OutChunk) {
    forall j :: 0 < j < |c.cells| ==> c.cells[j].pos != c.cells[j - 1].pos
  }

  /** One `writeTuple`. */
  function Step(p: Params, st: WState, tuple: seq<Value>): Result<WState>
    requires Inv(p, st) && StepDefined(p, st, tuple)
  {
    if p.mode == WriteOutput then OutputStep(p, st, tuple) else Ok(NumberedStep(p, st, tuple))
  }

  /** Writes the tuple at `position` into the last chunk, after opening a chunk at
      `chunkPos` when asked. */
  method PutCell(p: Params, out: seq<OutChunk>, newChunk: bool, chunkPos: seq<int>, position: seq<int>, tuple: seq<Value>)
    returns (res: seq<OutChunk>)
    requires |tuple| >= p.numAttributes && (newChunk || |out| > 0)
    ensures res == Emit(p, out, newChunk, chunkPos, position, tuple)
  {
    res := out;
    if newChunk {
      res := res + [OutChunk(chunkPos, [])];
    }
    var last := res[|res| - 1];
    assert newChunk ==> res[..|res| - 1] == out && last.cells + [Written(p, position, tuple)] == [Written(p, position, tuple)];
    res := res[..|res| - 1] + [last.(cells := last.cells + [Written(p, position, tuple)])];
  }

  /** `writeTuple` in WRITE_TUPLED and WRITE_SPLIT_ON_INSTANCE modes. */
  method WriteNumbered(p: Params, st: WState, tuple: seq<Value>) returns (next: WState)
    requires p.mode != WriteOutput && StepDefined(p, st, tuple)
    requires |st.output| == 0 ==> st.position[0] % p.chunkSize == 0
    ensures next == NumberedStep(p, st, tuple)
  {
    var chunkPos, position, current := st.chunkPos, st.position, st.currentDst;
    var newChunk := false;
    if p.mode == WriteSplitOnInstance {
      var dstInstanceId := TA.GetInstanceId(tuple[p.numAttributes - 1].item);
      if dstInstanceId != current {
        current := dstInstanceId;
        position := position[0 := 0][1 := current];
        chunkPos := position;
        newChunk := true;
      }
    }
    if position[0] % p.chunkSize == 0 {
      chunkPos := position;
      newChunk := true;
    }
    var out := PutCell(p, st.output, newChunk, chunkPos, position, tuple);
    position := position[0 := position[0] + 1];
    next := WState(chunkPos, position, current, out);
  }

  /** `writeTuple` in WRITE_OUTPUT mode. */
  method WriteAtOutput(p: Params, st: WState, tuple: seq<Value>) returns (next: Result<WState>)
    requires p.mode == WriteOutput && StepDefined(p, st, tuple)
    requires |st.output| == 0 ==> |st.chunkPos| == 0
    ensures next == OutputStep(p, st, tuple)
  {
    var chunkPos, position := st.chunkPos, st.position;
    var newChunk := false;
    var addr := tuple[p.numAttributes].item;
    var chunkPosBuf := TA.GetChunkPos(addr, p.numTupleDims);
    var cellPos := TA.GetCellPos(addr, p.numTupleDims);
    var positionBuf := p.cellCoordsOf(chunkPosBuf, cellPos);
    if |chunkPos| == 0 {
      chunkPos := chunkPosBuf;
      newChunk := true;
    } else if chunkPosBuf != chunkPos {
      chunkPos := chunkPosBuf;
      newChunk := true;
    } else if positionBuf == position {
      return Err(DataCollision);
    }
    position := positionBuf;
    var out := PutCell(p, st.output, newChunk, chunkPos, position, tuple);
    next := Ok(st.(chunkPos := chunkPos, position := position, output := out));
  }

  // ---- the writer ------------------------------------------------------------------------

  class ArrayWriter {
    const params: Params
    var outputChunkPosition: seq<int>
    var outputPosition: seq<int>
    var currentDstInstanceId: int
    /** The chunks of the output array, in the order they were opened. */
    var output: seq<OutChunk>

    function State(): WState
      reads this
    {
      WState(outputChunkPosition, outputPosition, currentDstInstanceId, output)
    }

    ghost predicate Valid()
      reads this
    {
      Inv(params, State())
    }

    /** The constructor: no chunk open; the numbering modes start at value_no 0 under
        instance 0, with this instance's id as the last coordinate. */
    constructor (p: Params)
      requires p.mode != WriteOutput ==> p.chunkSize > 0
      ensures params == p && State() == Initial(p)
      ensures Valid()
    {
      params := p;
      currentDstInstanceId := 0;
      output := [];
      if p.mode == WriteOutput {
        outputChunkPosition := [];
        outputPosition := [];
      } else {
        outputChunkPosition := [0, 0, 0];
        outputPosition := [0, 0, p.myInstanceId];
      }
    }

    /** `writeTuple`. */
    method WriteTuple(tuple: seq<Value>) returns (r: Result<()>)
      requires Valid() && StepDefined(params, State(), tuple)
      modifies this
      ensures Valid()
      ensures Step(params, old(State()), tuple).Ok? ==> r == Ok(()) && State() == Step(params, old(State()), tuple).value
      ensures Step(params, old(State()), tuple).Err? ==> r == Err(Step(params, old(State()), tuple).error) && State() == old(State())
    {
      StepKeepsInv(params, State(), tuple);
      var st: WState;
      if params.mode == WriteOutput {
        var res := WriteAtOutput(params, State(), tuple);
        if res.Err? {
          return Err(res.error);
        }
        st := res.value;
      } else {
        st := WriteNumbered(params, State(), tuple);
      }
      outputChunkPosition, outputPosition, currentDstInstanceId, output := st.chunkPos, st.position, st.currentDst, st.output;
      r := Ok(());
    }

    /** `finalize`: the array written. */
    function Finalize(): (chunks: seq<OutChunk>)
      reads this
      ensures chunks == State().output
    {
      output
    }
  }

  // ---- properties of a write ---------------------------------------------------------------

  /** A write keeps the invariant. */
  lemma StepKeepsInv(p: Params, st: WState, tuple: seq<Value>)
    requires Inv(p, st) && StepDefined(p, st, tuple)
    ensures Step(p, st, tuple).Ok? ==> Inv(p, Step(p, st, tuple).value)
  {
    if p.mode == WriteOutput {
      OutputStepKeepsInv(p, st, tuple);
    } else {
      NumberedStepKeepsInv(p, st, tuple);
    }
  }

  lemma NumberedStepKeepsInv(p: Params, st: WState, tuple: seq<Value>)
    requires p.mode != WriteOutput && NumberedInv(p, st) && StepDefined(p, st, tuple)
    ensures NumberedInv(p, NumberedStep(p, st, tuple))
  {
    var switch := p.mode == WriteSplitOnInstance && TA.GetInstanceId(tuple[p.numAttributes - 1].item) != st.currentDst;
    if switch || st.position[0] % p.chunkSize == 0 {
      NumberedOpens(p, st, tuple);
    } else {
      NumberedAppends(p, st, tuple);
    }
  }

  /** A write that opens a chunk starts it at the position written. */
  lemma NumberedOpens(p: Params, st: WState, tuple: seq<Value>)
    requires p.mode != WriteOutput && NumberedInv(p, st) && StepDefined(p, st, tuple)
    requires (p.mode == WriteSplitOnInstance && TA.GetInstanceId(tuple[p.numAttributes - 1].item) != st.currentDst) ||
             st.position[0] % p.chunkSize == 0
    ensures NumberedInv(p, NumberedStep(p, st, tuple))
  {
    var switch := p.mode == WriteSplitOnInstance && TA.GetInstanceId(tuple[p.numAttributes - 1].item) != st.currentDst;
    var d := if switch then TA.GetInstanceId(tuple[p.numAttributes - 1].item) else st.currentDst;
    var pos := if switch then st.position[0 := 0][1 := d] else st.position;
    assert NumberedStep(p, st, tuple) ==
      st.(currentDst := d, chunkPos := pos, position := pos[0 := pos[0] + 1],
          output := st.output + [OutChunk(pos, [Written(p, pos, tuple)])]);
    OpenKeepsInv(p, st.output, d, pos, Written(p, pos, tuple));
  }

  /** The state after opening a chunk at `pos` with one cell satisfies the invariant. */
  lemma OpenKeepsInv(p: Params, output: seq<OutChunk>, d: int, pos: seq<int>, w: CellWrite)
    requires p.chunkSize > 0 && ChunksOk(p, output)
    requires |pos| == 3 && pos[1] == d && pos[2] == p.myInstanceId && pos[0] % p.chunkSize == 0 && w.pos == pos
    ensures NumberedInv(p, WState(pos, pos[0 := pos[0] + 1], d, output + [OutChunk(pos, [w])]))
  {
    var c := OutChunk(pos, [w]);
    assert c.cells[0].pos == c.pos[0 := c.pos[0] + 0];
    ChunksOkAppend(p, output, c);
  }

  /** A write that opens no chunk adds the next cell to the chunk being written, which
      still has room for it. */
  lemma NumberedAppends(p: Params, st: WState, tuple: seq<Value>)
    requires p.mode != WriteOutput && NumberedInv(p, st) && StepDefined(p, st, tuple)
    requires !(p.mode == WriteSplitOnInstance && TA.GetInstanceId(tuple[p.numAttributes - 1].item) != st.currentDst)
    requires st.position[0] % p.chunkSize != 0
    ensures NumberedInv(p, NumberedStep(p, st, tuple))
  {
    var n := |st.output|;
    var last := st.output[n - 1];
    var c := last.(cells := last.cells + [Written(p, st.position, tuple)]);
    assert NumberedStep(p, st, tuple) ==
      st.(position := st.position[0 := st.position[0] + 1], output := st.output[..n - 1] + [c]);
    assert st.position[0] != st.chunkPos[0] + p.chunkSize by {
      if st.position[0] == st.chunkPos[0] + p.chunkSize {
        ModuloShift(st.chunkPos[0], p.chunkSize);
      }
    }
    AppendKeepsInv(p, st, c, Written(p, st.position, tuple));
  }

  /** The state after adding the cell at the writer's position to a chunk with room
      satisfies the invariant. */
  lemma AppendKeepsInv(p: Params, st: WState, c: OutChunk, w: CellWrite)
    requires NumberedInv(p, st) && |st.output| > 0 && w.pos == st.position
    requires st.position[0] < st.chunkPos[0] + p.chunkSize
    requires c == st.output[|st.output| - 1].(cells := st.output[|st.output| - 1].cells + [w])
    ensures NumberedInv(p, st.(position := st.position[0 := st.position[0] + 1], output := st.output[..|st.output| - 1] + [c]))
  {
    var n := |st.output|;
    var last := st.output[n - 1];
    assert st.position == st.chunkPos[0 := st.position[0]];
    assert ConsecutiveCells(c) by {
      assert ConsecutiveCells(last);
      forall j | 0 <= j < |c.cells|
        ensures c.cells[j].pos == c.pos[0 := c.pos[0] + j]
      {
        if j < |last.cells| {
          assert c.cells[j] == last.cells[j];
        }
      }
    }
    assert ChunksOk(p, st.output[..n - 1]) by {
      assert forall i :: 0 <= i < n - 1 ==> st.output[..n - 1][i] == st.output[i];
    }
    ChunksOkAppend(p, st.output[..n - 1], c);
  }

  /** A multiple of `m` plus `m` is a multiple of `m`. */
  lemma ModuloShift(a: int, m: nat)
    requires m > 0 && a % m == 0
    ensures (a + m) % m == 0
  {
    var q := a / m;
    var x := a + m;
    assert x == (q + 1) * m by {
      assert a == q * m;
      Distrib(q, m);
    }
    var y := x / m;
    assert x == y * m + x % m;
    if y < q + 1 {
      MulLe(y, q + 1, m);
    } else if y > q + 1 {
      MulLe(q + 1, y, m);
    }
  }

  lemma Distrib(q: int, m: int)
    ensures (q + 1) * m == q * m + m
  {
  }

  lemma {:induction false} MulLe(a: int, b: int, m: int)
    requires m > 0 && a < b
    ensures a * m + m <= b * m
    decreases b - a
  {
    Distrib(a, m);
    if a + 1 < b {
      MulLe(a + 1, b, m);
    }
  }

  lemma OutputStepKeepsInv(p: Params, st: WState, tuple: seq<Value>)
    requires p.mode == WriteOutput && OutputInv(p, st) && StepDefined(p, st, tuple)
    ensures OutputStep(p, st, tuple).Ok? ==> OutputInv(p, OutputStep(p, st, tuple).value)
  {
    if OutputStep(p, st, tuple).Ok? {
      var st2 := OutputStep(p, st, tuple).value;
      forall i | 0 <= i < |st2.output|
        ensures NoRepeatedCell(st2.output[i])
      {
        if i < |st.output| - 1 {
          assert st2.output[i] == st.output[i];
        } else if i == |st.output| - 1 && i < |st2.output| - 1 {
          assert st2.output[i] == st.output[i];
        }
      }
    }
  }

  // ---- what one write does -------------------------------------------------------------

  /** The last cell written. */
  function LastCell(st: WState): CellWrite
    requires |st.output| > 0 && |st.output[|st.output| - 1].cells| > 0
  {
    var c := st.output[|st.output| - 1];
    c.cells[|c.cells| - 1]
  }

  /** When splitting on instance, the tuple's destination differs from the current one. */
  predicate Switches(p: Params, st: WState, tuple: seq<Value>)
    requires StepDefined(p, st, tuple)
  {
    p.mode == WriteSplitOnInstance && TA.GetInstanceId(tuple[p.numAttributes - 1].item) != st.currentDst
  }

  /** In the numbering modes a write never fails. Without an instance switch it writes
      the attributes and `true` at the current position and steps value_no by one; it
      opens a chunk there exactly when value_no is a multiple of the chunk size. Chunks
      already written are left alone. */
  lemma NumberedWrite(p: Params, st: WState, tuple: seq<Value>)
    requires p.mode != WriteOutput && Inv(p, st) && StepDefined(p, st, tuple)
    requires !Switches(p, st, tuple)
    ensures Step(p, st, tuple).Ok?
    ensures var st2 := Step(p, st, tuple).value;
            && |st2.output| > 0 && |st2.output[|st2.output| - 1].cells| > 0
            && LastCell(st2) == CellWrite(st.position, tuple[..p.numAttributes] + [BoolTrue])
            && st2.position == st.position[0 := st.position[0] + 1]
            && st2.currentDst == st.currentDst
            && (|st2.output| == |st.output| + 1 <==> st.position[0] % p.chunkSize == 0)
            && (|st2.output| == |st.output| + 1 ==> st2.output[|st.output|].pos == st.position)
            && (forall i :: 0 <= i < |st.output| - 1 ==> st2.output[i] == st.output[i])
  {
  }

  /** When splitting on instance, a tuple bound for another instance restarts the
      numbering under it: a chunk opens at (0, new instance, this instance), the tuple
      is written there, and value_no moves on to 1. */
  lemma SwitchRestarts(p: Params, st: WState, tuple: seq<Value>)
    requires p.mode != WriteOutput && Inv(p, st) && StepDefined(p, st, tuple)
    requires Switches(p, st, tuple)
    ensures Step(p, st, tuple).Ok?
    ensures var st2 := Step(p, st, tuple).value;
            var d := TA.GetInstanceId(tuple[p.numAttributes - 1].item);
            && st2.currentDst == d
            && st2.output == st.output + [OutChunk([0, d, p.myInstanceId], [CellWrite([0, d, p.myInstanceId], tuple[..p.numAttributes] + [BoolTrue])])]
            && st2.position == [1, d, p.myInstanceId]
  {
    var d := TA.GetInstanceId(tuple[p.numAttributes - 1].item);
    assert st.position[0 := 0][1 := d] == [0, d, p.myInstanceId];
  }

  /** In WRITE_OUTPUT mode, with `cp` and `pos` the chunk and cell the tuple address
      names: the write fails, with a data collision, exactly when `cp` is the chunk
      being written and `pos` the cell just written. Otherwise the tuple is written at
      `pos`, in a new chunk at `cp` exactly when this is the first write or `cp` is not
      the chunk being written. */
  lemma OutputWrite(p: Params, st: WState, tuple: seq<Value>)
    requires p.mode == WriteOutput && Inv(p, st) && StepDefined(p, st, tuple)
    ensures var addr := tuple[p.numAttributes].item;
            var cp := CoordsAt(addr, 4, p.numTupleDims);
            var pos := p.cellCoordsOf(cp, TA.GetCellPos(addr, p.numTupleDims));
            var r := Step(p, st, tuple);
            && (r.Err? <==> |st.chunkPos| > 0 && cp == st.chunkPos && pos == st.position)
            && (r.Err? ==> r.error == DataCollision)
            && (r.Ok? ==>
                 && r.value.chunkPos == cp && r.value.position == pos
                 && |r.value.output| > 0 && |r.value.output[|r.value.output| - 1].cells| > 0
                 && LastCell(r.value) == CellWrite(pos, tuple[..p.numAttributes] + [BoolTrue])
                 && (|r.value.output| == |st.output| + 1 <==> |st.chunkPos| == 0 || cp != st.chunkPos)
                 && (forall i :: 0 <= i < |st.output| - 1 ==> r.value.output[i] == st.output[i]))
  {
  }

  /** In WRITE_OUTPUT mode a tuple whose address was made by `makeTupleAddress` for
      `numTupleDims` dimensions lands, unless it collides, in the chunk at the address's
      chunk position and at the output cell of the address's in-chunk position. */
  lemma OutputPlacesAtAddress(p: Params, st: WState, tuple: seq<Value>, iid: int, cp: seq<int>, lpos: int)
    requires p.mode == WriteOutput && Inv(p, st) && |tuple| > p.numAttributes
    requires IsU32(iid) && ValidCoords(cp) && IsI64(lpos) && |cp| == p.numTupleDims
    requires tuple[p.numAttributes] == Present(TA.EncodeAddress(iid, cp, lpos))
    ensures StepDefined(p, st, tuple)
    ensures Step(p, st, tuple).Ok? ==>
              Step(p, st, tuple).value.chunkPos == cp &&
              Step(p, st, tuple).value.position == p.cellCoordsOf(cp, lpos)
  {
    TA.AddressRoundTrip(iid, cp, lpos);
  }

  /** Everything written: in the numbering modes no chunk holds more than `chunkSize`
      cells and each chunk's cells sit at consecutive value_no from its start; in
      WRITE_OUTPUT mode no chunk holds two successive writes to one cell. */
  lemma WrittenChunks(p: Params, st: WState)
    requires Inv(p, st)
    ensures p.mode != WriteOutput ==>
              forall i :: 0 <= i < |st.output| ==>
                0 < |st.output[i].cells| <= p.chunkSize &&
                forall j :: 0 <= j < |st.output[i].cells| ==>
                  st.output[i].cells[j].pos == st.output[i].pos[0 := st.output[i].pos[0] + j]
    ensures p.mode == WriteOutput ==>
              forall i, j :: 0 <= i < |st.output| && 0 < j < |st.output[i].cells| ==>
                st.output[i].cells[j].pos != st.output[i].cells[j - 1].pos
  {
    if p.mode != WriteOutput {
      forall i | 0 <= i < |st.output|
        ensures forall j :: 0 <= j < |st.output[i].cells| ==>
                  st.output[i].cells[j].pos == st.output[i].pos[0 := st.output[i].pos[0] + j]
      {
        assert ConsecutiveCells(st.output[i]);
      }
    } else {
      forall i | 0 <= i < |st.output|
        ensures forall j :: 0 < j < |st.output[i].cells| ==> st.output[i].cells[j].pos != st.output[i].cells[j - 1].pos
      {
        assert NoRepeatedCell(st.output[i]);
      }
    }
  }
}
