/** The schema check of the logical operator (LogicalFasterRedimension.cpp,
    `inferSchema`): the destination schema must have an empty-cell indicator, every
    destination attribute and dimension must be derivable from the source, and the
    result carries the destination's attributes and dimensions under the source's name. */
module LogicalFasterRedimension {
  import opened Common
  import opened Schema

  /** The checks on one destination attribute: the first source attribute of that name
      decides (same type; not nullable into non-nullable); failing that, the first
      source dimension of that name (the attribute must be int64); failing both, the
      attribute must be the empty-cell indicator. */
  function AttrCheck(src: ArraySchema, a: AttrDesc): (r: Option<Error>)
    ensures r.None? ==>
              var j := AttrNamed(src.attrs, a.name);
              (j < |src.attrs| && src.attrs[j].typeId == a.typeId && (a.nullable || !src.attrs[j].nullable)) ||
              (j == |src.attrs| && DimNamed(src.dims, a.name) < |src.dims| && a.typeId == TID_INT64) ||
              (j == |src.attrs| && DimNamed(src.dims, a.name) == |src.dims| && a.emptyIndicator)
  {
    var j := AttrNamed(src.attrs, a.name);
    if j < |src.attrs| then
      if src.attrs[j].typeId != a.typeId then Some(WrongAttributeType)
      else if !a.nullable && src.attrs[j].nullable then Some(WrongAttributeFlags)
      else None
    else if DimNamed(src.dims, a.name) < |src.dims| then
      if a.typeId != TID_INT64 then Some(WrongDestinationAttributeType) else None
    else if !a.emptyIndicator then Some(UnexpectedDestinationAttribute)
    else None
  }

  /** The overlap the interval is checked against: the overlap, at least 1. */
  function OverlapAtLeastOne(d: DimDesc): (r: int)
    ensures r >= 1 && r >= d.chunkOverlap
  {
    if d.chunkOverlap > 1 then d.chunkOverlap else 1
  }

  /** The checks on one destination dimension: the overlap must not exceed the chunk
      interval; then the first source attribute it goes by must be integral and not
      uint64; failing that, a source dimension must go by its base name. */
  function DimCheck(src: ArraySchema, d: DimDesc): (r: Option<Error>)
    ensures r.None? ==>
              var j := AttrNamingDim(src.attrs, d);
              d.chunkOverlap <= IntervalIfAutoUse(d, OverlapAtLeastOne(d)) &&
              (j < |src.attrs| ==> IsIntegral(src.attrs[j].typeId) && src.attrs[j].typeId != TID_UINT64) &&
              (j < |src.attrs| || DimNamed(src.dims, d.baseName) < |src.dims|)
  {
    if d.chunkOverlap > IntervalIfAutoUse(d, OverlapAtLeastOne(d)) then Some(OverlapCantBeLargerChunk)
    else
      var j := AttrNamingDim(src.attrs, d);
      if j < |src.attrs| then
        if !IsIntegral(src.attrs[j].typeId) || src.attrs[j].typeId == TID_UINT64 then Some(WrongSourceAttributeType)
        else None
      else if DimNamed(src.dims, d.baseName) < |src.dims| then None
      else Some(NoExtraneousDimensions)
  }

  /** The first failing destination attribute's error, in declared order. */
  function FirstAttrError(src: ArraySchema, attrs: seq<AttrDesc>): Option<Error> {
    if |attrs| == 0 then None
    else if AttrCheck(src, attrs[0]).Some? then AttrCheck(src, attrs[0])
    else FirstAttrError(src, attrs[1..])
  }

  /** The first failing destination dimension's error, in declared order. */
  function FirstDimError(src: ArraySchema, dims: seq<DimDesc>): Option<Error> {
    if |dims| == 0 then None
    else if DimCheck(src, dims[0]).Some? then DimCheck(src, dims[0])
    else FirstDimError(src, dims[1..])
  }

  /** What `inferSchema` returns or throws. */
  function InferSchemaSpec(src: ArraySchema, dst: ArraySchema): (r: Result<ArraySchema>)
    ensures !HasEmptyBitmap(dst) ==> r == Err(RedimensionError1)
    ensures r.Ok? ==> HasEmptyBitmap(dst) && r.value == ArraySchema(src.name, dst.attrs, dst.dims)
  {
    if !HasEmptyBitmap(dst) then Err(RedimensionError1)
    else if FirstAttrError(src, dst.attrs).Some? then Err(FirstAttrError(src, dst.attrs).value)
    else if FirstDimError(src, dst.dims).Some? then Err(FirstDimError(src, dst.dims).value)
    else Ok(ArraySchema(src.name, dst.attrs, dst.dims))
  }

  /** `inferSchema`: the empty-bitmap check, then the loop over destination attributes
      with its two nested searches, then the loop over destination dimensions, which
      builds the output dimensions one at a time. */
  method InferSchema(src: ArraySchema, dst: ArraySchema) returns (r: Result<ArraySchema>)
    ensures r == InferSchemaSpec(src, dst)
  {
    if !HasEmptyBitmap(dst) {
      return Err(RedimensionError1);
    }
    var numPreservedAttributes := 0;
    for i := 0 to |dst.attrs|
      invariant FirstAttrError(src, dst.attrs) == FirstAttrError(src, dst.attrs[i..])
    {
      var e, preserved := CheckDstAttr(src, dst.attrs[i]);
      if e.Some? {
        return Err(e.value);
      }
      if preserved {
        numPreservedAttributes := numPreservedAttributes + 1;
      }
      assert dst.attrs[i..][1..] == dst.attrs[i + 1..];
    }
    var outputDims: seq<DimDesc> := [];
    for i := 0 to |dst.dims|
      invariant FirstDimError(src, dst.dims) == FirstDimError(src, dst.dims[i..])
      invariant outputDims == dst.dims[..i]
    {
      var e := CheckDstDim(src, dst.dims[i]);
      if e.Some? {
        return Err(e.value);
      }
      outputDims := outputDims + [dst.dims[i]];
      assert dst.dims[i..][1..] == dst.dims[i + 1..];
    }
    assert outputDims == dst.dims;
    return Ok(ArraySchema(src.name, dst.attrs, outputDims));
  }

  /** One pass of the attribute loop: the search of the source attributes, then of the
      source dimensions, then the empty-indicator test. `preserved` counts a source
      attribute found by name that is not the empty indicator. */
  method CheckDstAttr(src: ArraySchema, a: AttrDesc) returns (e: Option<Error>, preserved: bool)
    ensures e == AttrCheck(src, a)
  {
    preserved := false;
    for j := 0 to |src.attrs|
      invariant forall k :: 0 <= k < j ==> src.attrs[k].name != a.name
    {
      var srcAttr := src.attrs[j];
      if srcAttr.name == a.name {
        assert AttrNamed(src.attrs, a.name) == j;
        if srcAttr.typeId != a.typeId {
          return Some(WrongAttributeType), false;
        }
        if !a.nullable && srcAttr.nullable {
          return Some(WrongAttributeFlags), false;
        }
        return None, !srcAttr.emptyIndicator;
      }
    }
    assert AttrNamed(src.attrs, a.name) == |src.attrs|;
    for j := 0 to |src.dims|
      invariant forall k :: 0 <= k < j ==> !HasName(src.dims[k], a.name)
    {
      if HasName(src.dims[j], a.name) {
        if a.typeId != TID_INT64 {
          return Some(WrongDestinationAttributeType), false;
        }
        return None, false;
      }
    }
    assert DimNamed(src.dims, a.name) == |src.dims|;
    if !a.emptyIndicator {
      return Some(UnexpectedDestinationAttribute), false;
    }
    return None, false;
  }

  /** One pass of the dimension loop. */
  method CheckDstDim(src: ArraySchema, d: DimDesc) returns (e: Option<Error>)
    ensures e == DimCheck(src, d)
  {
    var interval := IntervalIfAutoUse(d, if d.chunkOverlap > 1 then d.chunkOverlap else 1);
    if d.chunkOverlap > interval {
      return Some(OverlapCantBeLargerChunk);
    }
    for j := 0 to |src.attrs|
      invariant forall k :: 0 <= k < j ==> !HasName(d, src.attrs[k].name)
    {
      var srcAttr := src.attrs[j];
      if HasName(d, srcAttr.name) {
        assert AttrNamingDim(src.attrs, d) == j;
        if !IsIntegral(srcAttr.typeId) || srcAttr.typeId == TID_UINT64 {
          return Some(WrongSourceAttributeType);
        }
        return None;
      }
    }
    assert AttrNamingDim(src.attrs, d) == |src.attrs|;
    for j := 0 to |src.dims|
      invariant forall k :: 0 <= k < j ==> !HasName(src.dims[k], d.baseName)
    {
      if HasName(src.dims[j], d.baseName) {
        return None;
      }
    }
    assert DimNamed(src.dims, d.baseName) == |src.dims|;
    return Some(NoExtraneousDimensions);
  }

  // ---- lemmas --------------------------------------------------------------------

  lemma {:induction false} FirstAttrErrorNone(src: ArraySchema, attrs: seq<AttrDesc>)
    ensures FirstAttrError(src, attrs).None? <==> forall i :: 0 <= i < |attrs| ==> AttrCheck(src, attrs[i]).None?
    decreases |attrs|
  {
    if |attrs| > 0 {
      FirstAttrErrorNone(src, attrs[1..]);
      assert forall i :: 1 <= i < |attrs| ==> attrs[i] == attrs[1..][i - 1];
    }
  }

  lemma {:induction false} FirstDimErrorNone(src: ArraySchema, dims: seq<DimDesc>)
    ensures FirstDimError(src, dims).None? <==> forall i :: 0 <= i < |dims| ==> DimCheck(src, dims[i]).None?
    decreases |dims|
  {
    if |dims| > 0 {
      FirstDimErrorNone(src, dims[1..]);
      assert forall i :: 1 <= i < |dims| ==> dims[i] == dims[1..][i - 1];
    }
  }

  /** The schema is accepted exactly when the destination has an empty-cell indicator
      and every destination attribute and dimension passes its checks; the result then
      has the source's name and the destination's attributes and dimensions, in order. */
  lemma Accepted(src: ArraySchema, dst: ArraySchema)
    ensures InferSchemaSpec(src, dst).Ok? <==>
            HasEmptyBitmap(dst) &&
            (forall i :: 0 <= i < |dst.attrs| ==> AttrCheck(src, dst.attrs[i]).None?) &&
            (forall i :: 0 <= i < |dst.dims| ==> DimCheck(src, dst.dims[i]).None?)
    ensures InferSchemaSpec(src, dst).Ok? ==> InferSchemaSpec(src, dst).value == ArraySchema(src.name, dst.attrs, dst.dims)
  {
    FirstAttrErrorNone(src, dst.attrs);
    FirstDimErrorNone(src, dst.dims);
  }

  /** Each rejection rule on a destination attribute rejects the whole schema: a source
      attribute of the same name with another type, or nullable into non-nullable; a
      source dimension of that name (and no such attribute) with a type other than
      int64; neither, for an attribute that is not the empty indicator. */
  lemma AttrRulesReject(src: ArraySchema, dst: ArraySchema, i: nat)
    requires i < |dst.attrs|
    ensures var a := dst.attrs[i];
            var j := AttrNamed(src.attrs, a.name);
            (j < |src.attrs| && src.attrs[j].typeId != a.typeId ==> InferSchemaSpec(src, dst).Err?) &&
            (j < |src.attrs| && !a.nullable && src.attrs[j].nullable ==> InferSchemaSpec(src, dst).Err?) &&
            (j == |src.attrs| && DimNamed(src.dims, a.name) < |src.dims| && a.typeId != TID_INT64 ==>
               InferSchemaSpec(src, dst).Err?) &&
            (j == |src.attrs| && DimNamed(src.dims, a.name) == |src.dims| && !a.emptyIndicator ==>
               InferSchemaSpec(src, dst).Err?)
  {
    Accepted(src, dst);
  }

  /** Each rejection rule on a destination dimension rejects the whole schema: an
      overlap beyond the chunk interval; a source attribute it goes by whose type is not
      integral or is uint64; no source attribute or dimension to derive it from. */
  lemma DimRulesReject(src: ArraySchema, dst: ArraySchema, i: nat)
    requires i < |dst.dims|
    ensures var d := dst.dims[i];
            var j := AttrNamingDim(src.attrs, d);
            (d.chunkOverlap > IntervalIfAutoUse(d, OverlapAtLeastOne(d)) ==> InferSchemaSpec(src, dst).Err?) &&
            (j < |src.attrs| && (!IsIntegral(src.attrs[j].typeId) || src.attrs[j].typeId == TID_UINT64) ==>
               InferSchemaSpec(src, dst).Err?) &&
            (j == |src.attrs| && DimNamed(src.dims, d.baseName) == |src.dims| ==> InferSchemaSpec(src, dst).Err?)
  {
    Accepted(src, dst);
  }

  /** A destination schema without an empty-cell indicator is rejected before any other
      check, with the redimension error. */
  lemma NoEmptyBitmapRejected(src: ArraySchema, dst: ArraySchema)
    requires forall i :: 0 <= i < |dst.attrs| ==> !dst.attrs[i].emptyIndicator
    ensures InferSchemaSpec(src, dst) == Err(RedimensionError1)
  {
  }

  /** A destination dimension with an automatic interval is never rejected for its
      overlap: the interval is then the overlap itself, or 1. */
  lemma AutoIntervalFitsOverlap(d: DimDesc)
    requires d.interval.Auto?
    ensures d.chunkOverlap <= IntervalIfAutoUse(d, OverlapAtLeastOne(d))
  {
  }
}
