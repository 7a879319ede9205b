/** Array schemas as the operator sees them: attributes (name, type, nullability, and
    whether the attribute is the empty-cell indicator) and dimensions (names, overlap
    and chunk interval). Types are the engine's type-id strings. */
module Schema {

  datatype AttrDesc = AttrDesc(name: string, typeId: string, nullable: bool, emptyIndicator: bool)

  /** A chunk interval fixed in the schema, or left for the engine to choose. */
  datatype Interval = Auto | Fixed(length: int)

  /** A dimension: its base name and the further names (qualified by array aliases)
      the engine knows it by, its chunk overlap and its chunk interval. */
  datatype DimDesc = DimDesc(baseName: string, aliases: seq<string>, chunkOverlap: int, interval: Interval)

  datatype ArraySchema = ArraySchema(name: string, attrs: seq<AttrDesc>, dims: seq<DimDesc>)

  const TID_INT64: string := "int64"
  const TID_UINT64: string := "uint64"

  /** The engine's integral types. */
  predicate IsIntegral(t: string) {
    t in {"int8", "int16", "int32", "int64", "uint8", "uint16", "uint32", "uint64"}
  }

  /** `hasNameAndAlias(name)` with no alias: the dimension goes by that name. */
  predicate HasName(d: DimDesc, name: string) {
    name == d.baseName || name in d.aliases
  }

  /** `getChunkIntervalIfAutoUse(x)`: the fixed interval, or `x` when it is automatic. */
  function IntervalIfAutoUse(d: DimDesc, x: int): (r: int)
    ensures d.interval.Fixed? ==> r == d.interval.length
    ensures d.interval.Auto? ==> r == x
  {
    match d.interval
    case Auto => x
    case Fixed(n) => n
  }

  /** `getAttributes(true)`: the attributes without the empty-cell indicator. */
  function UserAttrs(attrs: seq<AttrDesc>): (r: seq<AttrDesc>)
    ensures |r| <= |attrs|
    ensures forall a :: a in r ==> a in attrs && !a.emptyIndicator
    ensures forall a :: a in attrs && !a.emptyIndicator ==> a in r
  {
    if |attrs| == 0 then []
    else if attrs[0].emptyIndicator then UserAttrs(attrs[1..])
    else [attrs[0]] + UserAttrs(attrs[1..])
  }

  /** `getEmptyBitmapAttribute() != NULL`. */
  predicate HasEmptyBitmap(s: ArraySchema) {
    exists i :: 0 <= i < |s.attrs| && s.attrs[i].emptyIndicator
  }

  // ---- first matches, as the operator's nested search loops find them ------------------

  /** The first attribute whose name is `name`, or |attrs|. */
  function AttrNamed(attrs: seq<AttrDesc>, name: string): (j: nat)
    ensures j <= |attrs| && (j < |attrs| ==> attrs[j].name == name)
    ensures forall k :: 0 <= k < j ==> attrs[k].name != name
  {
    if |attrs| == 0 then 0 else if attrs[0].name == name then 0 else 1 + AttrNamed(attrs[1..], name)
  }

  /** The first dimension that goes by `name`, or |dims|. */
  function DimNamed(dims: seq<DimDesc>, name: string): (j: nat)
    ensures j <= |dims| && (j < |dims| ==> HasName(dims[j], name))
    ensures forall k :: 0 <= k < j ==> !HasName(dims[k], name)
  {
    if |dims| == 0 then 0 else if HasName(dims[0], name) then 0 else 1 + DimNamed(dims[1..], name)
  }

  /** The first attribute whose name dimension `d` goes by, or |attrs|. */
  function AttrNamingDim(attrs: seq<AttrDesc>, d: DimDesc): (j: nat)
    ensures j <= |attrs| && (j < |attrs| ==> HasName(d, attrs[j].name))
    ensures forall k :: 0 <= k < j ==> !HasName(d, attrs[k].name)
  {
    if |attrs| == 0 then 0 else if HasName(d, attrs[0].name) then 0 else 1 + AttrNamingDim(attrs[1..], d)
  }

  /** The first dimension whose base name `d` goes by, or |dims|. */
  function DimNamingDim(dims: seq<DimDesc>, d: DimDesc): (j: nat)
    ensures j <= |dims| && (j < |dims| ==> HasName(d, dims[j].baseName))
    ensures forall k :: 0 <= k < j ==> !HasName(d, dims[k].baseName)
  {
    if |dims| == 0 then 0 else if HasName(d, dims[0].baseName) then 0 else 1 + DimNamingDim(dims[1..], d)
  }
}
