/** The operator's settings (FasterRedimensionSettings.h): the field counts of the
    input and output schemas, the width of the intermediate tuple and the chunk size of
    the tupled array, and the map from each input field to its tuple slot.

    Tuple slots: 0 is the destination instance, [1, 1+D) the output chunk position,
    [1+D, 1+2D) the output dimensions, and [1+2D, 1+2D+A) the output attributes, for
    D output dimensions and A output attributes (empty tag excluded). */
module FasterRedimensionSettings {
  import opened Schema

  // ---- sizes -------------------------------------------------------------------------

  /** The tupled array's chunk size: 1000000 cells, divided by one per ten fields
      beyond the first nine. It reaches 0 only at ten million fields. */
  function TupledChunkSize(numOutputAttrs: nat, numOutputDims: nat): (r: nat)
    ensures r <= 1000000
    ensures r > 0 <==> numOutputAttrs + numOutputDims < 10000000
    ensures numOutputAttrs + numOutputDims < 10 <==> r == 1000000
  {
    var q := (numOutputAttrs + numOutputDims + 10) / 10;
    QuotientBelowHalf(q);
    1000000 / q
  }

  /** Dividing 1000000 by at least 2 halves it or more; by more than 1000000, leaves 0. */
  lemma QuotientBelowHalf(q: nat)
    requires q >= 1
    ensures 1000000 / q <= 1000000
    ensures 1000000 / q > 0 <==> q <= 1000000
    ensures q >= 2 ==> 1000000 / q <= 500000
  {
    var d := 1000000 / q;
    assert q * d + 1000000 % q == 1000000 && 1000000 % q < q;
    ScaleAtLeast(q, 1, d);
    if q >= 2 {
      ScaleAtLeast(q, 2, d);
    }
    if d > 0 {
      ScaleAtLeast(d, 1, q);
    }
  }

  /** Scaling `b` by the larger of two factors gives at least as much. */
  lemma ScaleAtLeast(a: int, c: int, b: int)
    requires a >= c >= 0 && b >= 0
    ensures a * b >= c * b
  {
    assert (a - c) * b >= 0;
    assert a * b == (a - c) * b + c * b;
  }

  // ---- the map ----------------------------------------------------------------------

  /** The slot of an input attribute: the output attribute of the same name, else the
      output dimension of that name, else -1. */
  function AttrSlot(a: AttrDesc, outAttrs: seq<AttrDesc>, outDims: seq<DimDesc>): int {
    var j := AttrNamed(outAttrs, a.name);
    if j < |outAttrs| then j + 1 + 2 * |outDims|
    else
      var k := DimNamed(outDims, a.name);
      if k < |outDims| then k + 1 + |outDims| else -1
  }

  /** The slot of an input dimension: the output attribute it goes by, else the output
      dimension whose base name it goes by, else -1. */
  function DimSlot(d: DimDesc, outAttrs: seq<AttrDesc>, outDims: seq<DimDesc>): int {
    var j := AttrNamingDim(outAttrs, d);
    if j < |outAttrs| then j + 1 + 2 * |outDims|
    else
      var k := DimNamingDim(outDims, d);
      if k < |outDims| then k + 1 + |outDims| else -1
  }

  /** `_mapToTuple` once mapped: one entry per input attribute, then one per input
      dimension. */
  function MapToTuple(inAttrs: seq<AttrDesc>, inDims: seq<DimDesc>, outAttrs: seq<AttrDesc>, outDims: seq<DimDesc>)
    : (m: seq<int>)
    ensures |m| == |inAttrs| + |inDims|
    ensures forall i :: 0 <= i < |inAttrs| ==> m[i] == AttrSlot(inAttrs[i], outAttrs, outDims)
    ensures forall i :: 0 <= i < |inDims| ==> m[|inAttrs| + i] == DimSlot(inDims[i], outAttrs, outDims)
  {
    seq(|inAttrs|, i requires 0 <= i < |inAttrs| => AttrSlot(inAttrs[i], outAttrs, outDims)) +
    seq(|inDims|, i requires 0 <= i < |inDims| => DimSlot(inDims[i], outAttrs, outDims))
  }

  /** The attribute pass as FasterRedimensionSettings.h writes it: the name test compares
      the input attribute's name with itself, so the first output attribute is taken
      whenever there is one. */
  function AttrSlotAsWritten(a: AttrDesc, outAttrs: seq<AttrDesc>, outDims: seq<DimDesc>): (s: int)
    ensures s == -1 || 1 + |outDims| <= s < 1 + 2 * |outDims| + |outAttrs|
    ensures |outAttrs| == 0 ==> s == AttrSlot(a, outAttrs, outDims)
  {
    if |outAttrs| > 0 then 0 + 1 + 2 * |outDims|
    else
      var k := DimNamed(outDims, a.name);
      if k < |outDims| then k + 1 + |outDims| else -1
  }

  /** The whole map as FasterRedimensionSettings.h writes it. It differs from
      MapToTuple only in the input attributes' entries, and only when the output has
      attributes. */
  function MapToTupleAsWritten(inAttrs: seq<AttrDesc>, inDims: seq<DimDesc>, outAttrs: seq<AttrDesc>,
                               outDims: seq<DimDesc>): (m: seq<int>)
    ensures |m| == |inAttrs| + |inDims|
    ensures var c := MapToTuple(inAttrs, inDims, outAttrs, outDims);
            forall k :: |inAttrs| <= k < |m| ==> m[k] == c[k]
    ensures |outAttrs| == 0 ==> m == MapToTuple(inAttrs, inDims, outAttrs, outDims)
  {
    var c := MapToTuple(inAttrs, inDims, outAttrs, outDims);
    var m := seq(|inAttrs|, i requires 0 <= i < |inAttrs| => AttrSlotAsWritten(inAttrs[i], outAttrs, outDims)) +
             seq(|inDims|, i requires 0 <= i < |inDims| => DimSlot(inDims[i], outAttrs, outDims));
    assert forall k :: |inAttrs| <= k < |m| ==> m[k] == c[|inAttrs| + (k - |inAttrs|)];
    m
  }

  // ---- the settings object ----------------------------------------------------------

  class Settings {
    const inputSchema: ArraySchema
    const outputSchema: ArraySchema
    const numInputAttrs: nat
    const numInputDims: nat
    const numOutputAttrs: nat
    const numOutputDims: nat
    const tupleSize: nat
    const tupledArrayChunkSize: nat
    const numInstances: nat
    var mapToTuple: seq<int>

    /** The counts and sizes follow from the schemas, and the map is filled in. */
    ghost predicate Valid()
      reads this
    {
      numInputAttrs == |UserAttrs(inputSchema.attrs)| && numInputDims == |inputSchema.dims| &&
      numOutputAttrs == |UserAttrs(outputSchema.attrs)| && numOutputDims == |outputSchema.dims| &&
      tupleSize == 1 + numOutputDims * 2 + numOutputAttrs &&
      tupledArrayChunkSize == TupledChunkSize(numOutputAttrs, numOutputDims) &&
      mapToTuple == MapToTuple(UserAttrs(inputSchema.attrs), inputSchema.dims,
                               UserAttrs(outputSchema.attrs), outputSchema.dims)
    }

    /** The constructor: the counts, the two sizes, a map of -1s, then the mapping. */
    constructor (inputSchema: ArraySchema, outputSchema: ArraySchema, numInstances: nat)
      ensures this.inputSchema == inputSchema && this.outputSchema == outputSchema
      ensures this.numInstances == numInstances
      ensures Valid()
    {
      this.inputSchema := inputSchema;
      this.outputSchema := outputSchema;
      var nIA := |UserAttrs(inputSchema.attrs)|;
      var nID := |inputSchema.dims|;
      var nOA := |UserAttrs(outputSchema.attrs)|;
      var nOD := |outputSchema.dims|;
      numInputAttrs := nIA;
      numInputDims := nID;
      numOutputAttrs := nOA;
      numOutputDims := nOD;
      tupleSize := 1 + nOD * 2 + nOA;
      tupledArrayChunkSize := 1000000 / ((nOA + nOD + 10) / 10);
      this.numInstances := numInstances;
      mapToTuple := seq(nIA + nID, _ => -1);
      new;
      MapInputToOutput();
    }

    /** `mapInputToOutput`: for each input attribute, then each input dimension, the
        search through the output attributes and then the output dimensions, stopping
        at the first match. The attribute search compares with the output attribute's
        name (see AttrSlotAsWritten for the test as written). */
    method MapInputToOutput()
      requires numInputAttrs == |UserAttrs(inputSchema.attrs)| && numInputDims == |inputSchema.dims|
      requires numOutputAttrs == |UserAttrs(outputSchema.attrs)| && numOutputDims == |outputSchema.dims|
      requires |mapToTuple| == numInputAttrs + numInputDims
      requires forall k :: 0 <= k < |mapToTuple| ==> mapToTuple[k] == -1
      modifies this
      ensures mapToTuple == MapToTuple(UserAttrs(inputSchema.attrs), inputSchema.dims,
                                       UserAttrs(outputSchema.attrs), outputSchema.dims)
    {
      mapToTuple := FillMap(UserAttrs(inputSchema.attrs), inputSchema.dims, UserAttrs(outputSchema.attrs),
                            outputSchema.dims, mapToTuple);
    }

    /** `isInputFieldUsed`: a used field has a slot in the dimension or attribute part
        of the tuple. */
    function IsInputFieldUsed(idx: nat): (used: bool)
      reads this
      requires idx < |mapToTuple|
      ensures Valid() ==> (used <==> 1 + numOutputDims <= mapToTuple[idx] < tupleSize)
    {
      SlotsWithinTuple(UserAttrs(inputSchema.attrs), inputSchema.dims, UserAttrs(outputSchema.attrs),
                       outputSchema.dims);
      mapToTuple[idx] != -1
    }

    /** `isInputFieldMappedToDimension`: a field mapped to a dimension is used, and its
        slot is in the output dimension part of the tuple. */
    function IsInputFieldMappedToDimension(idx: nat): (toDim: bool)
      reads this
      requires idx < |mapToTuple|
      ensures toDim ==> IsInputFieldUsed(idx)
      ensures Valid() ==> (toDim <==> 1 + numOutputDims <= mapToTuple[idx] < 1 + 2 * numOutputDims)
    {
      SlotsWithinTuple(UserAttrs(inputSchema.attrs), inputSchema.dims, UserAttrs(outputSchema.attrs),
                       outputSchema.dims);
      mapToTuple[idx] != -1 && mapToTuple[idx] < 1 + numOutputDims * 2
    }
  }

  /** The two loops of `mapInputToOutput` over the map `m0` the constructor filled
      with -1: every input attribute's slot, then every input dimension's. */
  method FillMap(inAttrs: seq<AttrDesc>, inDims: seq<DimDesc>, outAttrs: seq<AttrDesc>, outDims: seq<DimDesc>,
                 m0: seq<int>) returns (m: seq<int>)
    requires |m0| == |inAttrs| + |inDims| && forall k :: 0 <= k < |m0| ==> m0[k] == -1
    ensures m == MapToTuple(inAttrs, inDims, outAttrs, outDims)
  {
    ghost var target := MapToTuple(inAttrs, inDims, outAttrs, outDims);
    m := m0;
    for i := 0 to |inAttrs|
      invariant |m| == |target|
      invariant forall k :: 0 <= k < i ==> m[k] == target[k]
      invariant forall k :: i <= k < |m| ==> m[k] == -1
    {
      var slot := MapAttr(inAttrs[i], outAttrs, outDims);
      m := m[i := slot];
    }
    for i := 0 to |inDims|
      invariant |m| == |target|
      invariant forall k :: 0 <= k < |inAttrs| + i ==> m[k] == target[k]
      invariant forall k :: |inAttrs| + i <= k < |m| ==> m[k] == -1
    {
      var slot := MapDim(inDims[i], outAttrs, outDims);
      m := m[|inAttrs| + i := slot];
    }
    assert m == target;
  }

  /** The two searches for one input attribute, each stopping at its first match. */
  method MapAttr(a: AttrDesc, outAttrs: seq<AttrDesc>, outDims: seq<DimDesc>) returns (slot: int)
    ensures slot == AttrSlot(a, outAttrs, outDims)
  {
    slot := -1;
    var found := false;
    var j := 0;
    while j < |outAttrs| && !found
      invariant 0 <= j <= |outAttrs|
      invariant !found ==> slot == -1 && forall k :: 0 <= k < j ==> outAttrs[k].name != a.name
      invariant found ==> j > 0 && AttrNamed(outAttrs, a.name) == j - 1 && slot == j - 1 + 1 + 2 * |outDims|
    {
      if a.name == outAttrs[j].name {
        slot := j + 1 + |outDims| * 2;
        found := true;
      }
      j := j + 1;
    }
    ghost var attrFound := found;
    j := 0;
    while j < |outDims| && !found
      invariant 0 <= j <= |outDims|
      invariant attrFound ==> found && slot == AttrSlot(a, outAttrs, outDims)
      invariant !attrFound ==> AttrNamed(outAttrs, a.name) == |outAttrs|
      invariant !found ==> slot == -1 && forall k :: 0 <= k < j ==> !HasName(outDims[k], a.name)
      invariant !attrFound && found ==> j > 0 && DimNamed(outDims, a.name) == j - 1 && slot == j - 1 + 1 + |outDims|
    {
      if HasName(outDims[j], a.name) {
        slot := j + 1 + |outDims|;
        found := true;
      }
      j := j + 1;
    }
  }

  /** The two searches for one input dimension, each stopping at its first match. */
  method MapDim(d: DimDesc, outAttrs: seq<AttrDesc>, outDims: seq<DimDesc>) returns (slot: int)
    ensures slot == DimSlot(d, outAttrs, outDims)
  {
    slot := -1;
    var found := false;
    var j := 0;
    while j < |outAttrs| && !found
      invariant 0 <= j <= |outAttrs|
      invariant !found ==> slot == -1 && forall k :: 0 <= k < j ==> !HasName(d, outAttrs[k].name)
      invariant found ==> j > 0 && AttrNamingDim(outAttrs, d) == j - 1 && slot == j - 1 + 1 + 2 * |outDims|
    {
      if HasName(d, outAttrs[j].name) {
        slot := j + 1 + |outDims| * 2;
        found := true;
      }
      j := j + 1;
    }
    ghost var attrFound := found;
    j := 0;
    while j < |outDims| && !found
      invariant 0 <= j <= |outDims|
      invariant attrFound ==> found && slot == DimSlot(d, outAttrs, outDims)
      invariant !attrFound ==> AttrNamingDim(outAttrs, d) == |outAttrs|
      invariant !found ==> slot == -1 && forall k :: 0 <= k < j ==> !HasName(d, outDims[k].baseName)
      invariant !attrFound && found ==> j > 0 && DimNamingDim(outDims, d) == j - 1 && slot == j - 1 + 1 + |outDims|
    {
      if HasName(d, outDims[j].baseName) {
        slot := j + 1 + |outDims|;
        found := true;
      }
      j := j + 1;
    }
  }

  // ---- lemmas ---------------------------------------------------------------------

  /** Every slot the map names lies in the dimension or attribute part of the tuple:
      dimensions in [1+D, 1+2D), attributes in [1+2D, tupleSize). */
  lemma SlotsWithinTuple(inAttrs: seq<AttrDesc>, inDims: seq<DimDesc>, outAttrs: seq<AttrDesc>, outDims: seq<DimDesc>)
    ensures var m := MapToTuple(inAttrs, inDims, outAttrs, outDims);
            forall i :: 0 <= i < |m| ==>
              m[i] == -1 || 1 + |outDims| <= m[i] < 1 + 2 * |outDims| + |outAttrs|
  {
  }

  /** An input attribute is used exactly when an output attribute or dimension goes
      by its name, and lands in a dimension slot exactly when only a dimension does. */
  lemma AttrSlotMeaning(a: AttrDesc, outAttrs: seq<AttrDesc>, outDims: seq<DimDesc>)
    ensures var s := AttrSlot(a, outAttrs, outDims);
            (s != -1 <==> (exists j :: 0 <= j < |outAttrs| && outAttrs[j].name == a.name) ||
                          (exists k :: 0 <= k < |outDims| && HasName(outDims[k], a.name))) &&
            (s != -1 && s < 1 + 2 * |outDims| <==>
               (forall j :: 0 <= j < |outAttrs| ==> outAttrs[j].name != a.name) &&
               (exists k :: 0 <= k < |outDims| && HasName(outDims[k], a.name)))
  {
    var j := AttrNamed(outAttrs, a.name);
    var k := DimNamed(outDims, a.name);
    if j < |outAttrs| {
      assert outAttrs[j].name == a.name;
    } else if k < |outDims| {
      assert HasName(outDims[k], a.name);
    }
  }

  /** The same for an input dimension, which matches output attributes by their names
      and output dimensions by their base names. */
  lemma DimSlotMeaning(d: DimDesc, outAttrs: seq<AttrDesc>, outDims: seq<DimDesc>)
    ensures var s := DimSlot(d, outAttrs, outDims);
            (s != -1 <==> (exists j :: 0 <= j < |outAttrs| && HasName(d, outAttrs[j].name)) ||
                          (exists k :: 0 <= k < |outDims| && HasName(d, outDims[k].baseName))) &&
            (s != -1 && s < 1 + 2 * |outDims| <==>
               (forall j :: 0 <= j < |outAttrs| ==> !HasName(d, outAttrs[j].name)) &&
               (exists k :: 0 <= k < |outDims| && HasName(d, outDims[k].baseName)))
  {
    var j := AttrNamingDim(outAttrs, d);
    var k := DimNamingDim(outDims, d);
    if j < |outAttrs| {
      assert HasName(d, outAttrs[j].name);
    } else if k < |outDims| {
      assert HasName(d, outDims[k].baseName);
    }
  }

  /** An attribute slot is the position of the first output attribute of that name,
      so the tuple field read back for it is that attribute. */
  lemma AttrSlotIsFirstMatch(a: AttrDesc, outAttrs: seq<AttrDesc>, outDims: seq<DimDesc>)
    requires AttrSlot(a, outAttrs, outDims) >= 1 + 2 * |outDims|
    ensures var j := AttrSlot(a, outAttrs, outDims) - 1 - 2 * |outDims|;
            j < |outAttrs| && outAttrs[j].name == a.name &&
            forall k :: 0 <= k < j ==> outAttrs[k].name != a.name
  {
  }

  /** The entry of a valid Settings object for input attribute `idx`. */
  lemma AttrEntry(s: Settings, idx: nat)
    requires s.Valid() && idx < s.numInputAttrs
    ensures idx < |s.mapToTuple|
    ensures s.mapToTuple[idx] == AttrSlot(UserAttrs(s.inputSchema.attrs)[idx], UserAttrs(s.outputSchema.attrs), s.outputSchema.dims)
  {
  }

  /** On a valid Settings object the accessors answer for input attribute `idx`:
      used when an output attribute or dimension goes by its name, mapped to a
      dimension when only a dimension does. */
  lemma AttrAccessorsMeaning(s: Settings, idx: nat)
    requires s.Valid() && idx < s.numInputAttrs
    ensures idx < |s.mapToTuple|
    ensures var outAttrs := UserAttrs(s.outputSchema.attrs);
            var outDims := s.outputSchema.dims;
            var a := UserAttrs(s.inputSchema.attrs)[idx];
            (s.IsInputFieldUsed(idx) <==> (exists j :: 0 <= j < |outAttrs| && outAttrs[j].name == a.name) ||
                                          (exists k :: 0 <= k < |outDims| && HasName(outDims[k], a.name))) &&
            (s.IsInputFieldMappedToDimension(idx) <==>
               (forall j :: 0 <= j < |outAttrs| ==> outAttrs[j].name != a.name) &&
               (exists k :: 0 <= k < |outDims| && HasName(outDims[k], a.name)))
  {
    AttrEntry(s, idx);
    AttrSlotMeaning(UserAttrs(s.inputSchema.attrs)[idx], UserAttrs(s.outputSchema.attrs), s.outputSchema.dims);
  }

  /** The entry of a valid Settings object for input dimension `idx - numInputAttrs`. */
  lemma DimEntry(s: Settings, idx: nat)
    requires s.Valid() && s.numInputAttrs <= idx < s.numInputAttrs + s.numInputDims
    ensures idx < |s.mapToTuple|
    ensures s.mapToTuple[idx] == DimSlot(s.inputSchema.dims[idx - s.numInputAttrs], UserAttrs(s.outputSchema.attrs), s.outputSchema.dims)
  {
    MapDimEntry(UserAttrs(s.inputSchema.attrs), s.inputSchema.dims, UserAttrs(s.outputSchema.attrs),
                s.outputSchema.dims, idx - s.numInputAttrs);
  }

  lemma MapDimEntry(inAttrs: seq<AttrDesc>, inDims: seq<DimDesc>, outAttrs: seq<AttrDesc>, outDims: seq<DimDesc>, k: nat)
    requires k < |inDims|
    ensures MapToTuple(inAttrs, inDims, outAttrs, outDims)[|inAttrs| + k] == DimSlot(inDims[k], outAttrs, outDims)
  {
  }

  /** The same for input dimension `idx - numInputAttrs`. */
  lemma DimAccessorsMeaning(s: Settings, idx: nat)
    requires s.Valid() && s.numInputAttrs <= idx < s.numInputAttrs + s.numInputDims
    ensures idx < |s.mapToTuple|
    ensures var outAttrs := UserAttrs(s.outputSchema.attrs);
            var outDims := s.outputSchema.dims;
            var d := s.inputSchema.dims[idx - s.numInputAttrs];
            (s.IsInputFieldUsed(idx) <==> (exists j :: 0 <= j < |outAttrs| && HasName(d, outAttrs[j].name)) ||
                                          (exists k :: 0 <= k < |outDims| && HasName(d, outDims[k].baseName))) &&
            (s.IsInputFieldMappedToDimension(idx) <==>
               (forall j :: 0 <= j < |outAttrs| ==> !HasName(d, outAttrs[j].name)) &&
               (exists k :: 0 <= k < |outDims| && HasName(d, outDims[k].baseName)))
  {
    DimEntry(s, idx);
    DimSlotMeaning(s.inputSchema.dims[idx - s.numInputAttrs], UserAttrs(s.outputSchema.attrs), s.outputSchema.dims);
  }

  /** As written, the attribute pass sends every input attribute to the first output
      attribute slot whenever the output has an attribute, whatever the names. */
  lemma AsWrittenIgnoresNames(inAttrs: seq<AttrDesc>, inDims: seq<DimDesc>, outAttrs: seq<AttrDesc>, outDims: seq<DimDesc>)
    requires |outAttrs| > 0
    ensures var m := MapToTupleAsWritten(inAttrs, inDims, outAttrs, outDims);
            forall i :: 0 <= i < |inAttrs| ==> m[i] == 1 + 2 * |outDims|
  {
  }

  /** An input attribute `v` with an output attribute `w` only: as written it fills the
      slot of `w`; matching by name leaves it unused. */
  lemma AsWrittenMisroutes()
    ensures var inAttrs := [AttrDesc("v", "double", false, false)];
            var outAttrs := [AttrDesc("w", "double", false, false)];
            MapToTupleAsWritten(inAttrs, [], outAttrs, []) == [1] &&
            MapToTuple(inAttrs, [], outAttrs, []) == [-1]
  {
    var inAttrs := [AttrDesc("v", "double", false, false)];
    var outAttrs := [AttrDesc("w", "double", false, false)];
    assert outAttrs[0].name != inAttrs[0].name by {
      assert outAttrs[0].name[0] != inAttrs[0].name[0];
    }
    assert AttrNamed(outAttrs, "v") == 1 by {
      assert outAttrs[1..] == [];
    }
  }
}
