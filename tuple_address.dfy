/** The tuple address of TupleAddress.h: where a record sits in the output array,

      [uint32 instanceId][int64 chunkCoord] x nDims [int64 cellPos]

    with no leading nDims byte and no attributes; readers are told nDims, except the
    comparison, which derives it from the size of its left operand. */
module TupleAddress {
  import opened Bytes
  import opened Coordinates

  function AddressLen(nDims: nat): nat { 4 + 8 * nDims + 8 }

  /** The blob `makeTupleAddress` writes. */
  function EncodeAddress(instanceId: int, chunkPos: seq<int>, cellPos: int): (r: seq<byte>)
    requires IsU32(instanceId) && ValidCoords(chunkPos) && IsI64(cellPos)
    ensures |r| == AddressLen(|chunkPos|)
  {
    EncodeU32(instanceId) + EncodeCoords(chunkPos) + EncodeI64(cellPos)
  }

  /** The key an address of `nDims` coordinates stands for, position read as `position_t`. */
  function AddressKey(blob: seq<byte>, nDims: nat): Key
    requires |blob| >= AddressLen(nDims)
  {
    Key(GetInstanceId(blob), CoordsAt(blob, 4, nDims), GetCellPos(blob, nDims))
  }

  // ---- readers -----------------------------------------------------------------

  /** `getInstanceId`: the uint32 at offset 0. */
  function GetInstanceId(blob: seq<byte>): (iid: int)
    requires |blob| >= 4
    ensures IsU32(iid)
  {
    DecodeU32(blob[0..4])
  }

  /** `getCellPos`: the int64 after the `nDims` coordinates. */
  function GetCellPos(blob: seq<byte>, nDims: nat): (pos: int)
    requires |blob| >= AddressLen(nDims)
    ensures IsI64(pos)
  {
    CoordAt(blob, 4 + 8 * nDims)
  }

  /** `getChunkPos`: copies the `nDims` coordinates after the instance id. */
  method GetChunkPos(blob: seq<byte>, nDims: nat) returns (chunkPos: seq<int>)
    requires |blob| >= 4 + 8 * nDims
    ensures chunkPos == CoordsAt(blob, 4, nDims)
  {
    chunkPos := [];
    var off := 4;
    for i := 0 to nDims
      invariant off == 4 + 8 * i
      invariant chunkPos == CoordsAt(blob, 4, nDims)[..i]
    {
      chunkPos := chunkPos + [DecodeI64(blob[off .. off + 8])];
      off := off + 8;
    }
  }

  /** `makeTupleAddress`: sizes the value, then writes the instance id, the first
      `nDims` chunk coordinates and the position. */
  method MakeTupleAddress(instanceId: int, chunkPos: seq<int>, cellPos: int, nDims: nat) returns (dst: array<byte>)
    requires IsU32(instanceId) && |chunkPos| >= nDims && ValidCoords(chunkPos[..nDims]) && IsI64(cellPos)
    ensures fresh(dst)
    ensures dst[..] == EncodeAddress(instanceId, chunkPos[..nDims], cellPos)
  {
    dst := new byte[AddressLen(nDims)];
    var p := Put(dst, 0, EncodeU32(instanceId));
    p := PutCoords(dst, p, chunkPos[..nDims]);
    ghost var before := dst[..p];
    p := Put(dst, p, EncodeI64(cellPos));
    assert dst[..] == before + EncodeI64(cellPos);
  }

  // ---- order and equality ---------------------------------------------------------

  /** The number of coordinates `tupleAddressLess` derives from the left size. */
  function NumCoords(size: nat): nat
    requires size >= 12
  {
    (size - 4) / 8 - 1
  }

  /** What `tupleAddressLess` reads: both instance ids, and, when they are equal, the
      coordinates and position of both operands as many as the left size implies. */
  predicate LessDefined(left: seq<byte>, right: seq<byte>) {
    |left| >= 4 && |right| >= 4 &&
    (GetInstanceId(left) == GetInstanceId(right) ==>
       |left| >= 12 && |right| >= AddressLen(NumCoords(|left|)))
  }

  /** `tupleAddressLess`: instance, then coordinates, then the signed position. */
  function TupleAddressLess(left: seq<byte>, right: seq<byte>): (r: bool)
    requires LessDefined(left, right)
    ensures GetInstanceId(left) < GetInstanceId(right) ==> r
    ensures r ==> GetInstanceId(left) <= GetInstanceId(right)
  {
    if GetInstanceId(left) < GetInstanceId(right) then true
    else if GetInstanceId(left) > GetInstanceId(right) then false
    else CoordsThenPosLess(left, right, 4, NumCoords(|left|), 0, Signed)
  }

  /** `tupleAddressEqual`: the bytes of the left operand's whole size agree. */
  function TupleAddressEqual(left: seq<byte>, right: seq<byte>): (r: bool)
    requires |right| >= |left|
    ensures |left| == |right| ==> (r <==> left == right)
    ensures r && |left| >= 4 ==> GetInstanceId(left) == GetInstanceId(right)
  {
    var eq := left == right[..|left|];
    assert eq && |left| >= 4 ==> left[0..4] == right[0..4];
    eq
  }

  /** An address of `nDims` coordinates, as the readers expect it. */
  predicate WellSized(blob: seq<byte>, nDims: nat) { |blob| == AddressLen(nDims) }

  // ---- lemmas --------------------------------------------------------------------

  /** The readers return what `makeTupleAddress` was given. */
  lemma AddressRoundTrip(instanceId: int, chunkPos: seq<int>, cellPos: int)
    requires IsU32(instanceId) && ValidCoords(chunkPos) && IsI64(cellPos)
    ensures var blob := EncodeAddress(instanceId, chunkPos, cellPos);
            GetInstanceId(blob) == instanceId && CoordsAt(blob, 4, |chunkPos|) == chunkPos &&
            GetCellPos(blob, |chunkPos|) == cellPos
  {
    var blob := EncodeAddress(instanceId, chunkPos, cellPos);
    assert blob[0..4] == EncodeU32(instanceId);
    U32RoundTrip(instanceId);
    CoordsAtEncoded(EncodeU32(instanceId), chunkPos, EncodeI64(cellPos));
    assert blob[4 + 8 * |chunkPos| .. AddressLen(|chunkPos|)] == EncodeI64(cellPos);
    I64RoundTrip(cellPos);
  }

  /** Every address of the right size is the encoding of the key it is read as. */
  lemma AddressBytes(blob: seq<byte>, nDims: nat)
    requires WellSized(blob, nDims)
    ensures var k := AddressKey(blob, nDims);
            blob == EncodeAddress(k.instance, k.coords, k.pos)
  {
    U32BytesRoundTrip(blob[0..4]);
    I64BytesRoundTrip(blob[4 + 8 * nDims .. AddressLen(nDims)]);
    CoordBytes(blob, 4, nDims);
    assert blob == blob[0..4] + blob[4 .. 4 + 8 * nDims] + blob[4 + 8 * nDims .. AddressLen(nDims)];
  }

  /** On addresses of one size the comparison is the canonical key order (instance
      unsigned, coordinates and position signed). */
  lemma TupleAddressLessIsKeyLess(left: seq<byte>, right: seq<byte>, nDims: nat)
    requires WellSized(left, nDims) && WellSized(right, nDims)
    ensures LessDefined(left, right)
    ensures TupleAddressLess(left, right) == KeyLess(AddressKey(left, nDims), AddressKey(right, nDims))
  {
    assert NumCoords(|left|) == nDims;
    CoordsThenPosLessIsLex(left, right, 4, nDims, 0, Signed);
    assert CoordsAt(left, 4, nDims)[0..] == CoordsAt(left, 4, nDims);
    assert CoordsAt(right, 4, nDims)[0..] == CoordsAt(right, 4, nDims);
  }

  /** No address is less than itself, whatever its size (from 12 bytes on). */
  lemma {:induction false} TupleAddressLessIrreflexive(x: seq<byte>)
    requires |x| >= 12
    ensures LessDefined(x, x) && !TupleAddressLess(x, x)
  {
    var n := NumCoords(|x|);
    CoordsThenPosLessIsLex(x, x, 4, n, 0, Signed);
    LexLessIrreflexive(CoordsAt(x, 4, n)[0..]);
  }

  /** On addresses of one size, equality is equality of keys. */
  lemma TupleAddressEqualIsKeyEqual(left: seq<byte>, right: seq<byte>, nDims: nat)
    requires WellSized(left, nDims) && WellSized(right, nDims)
    ensures TupleAddressEqual(left, right) <==> AddressKey(left, nDims) == AddressKey(right, nDims)
  {
    AddressBytes(left, nDims);
    AddressBytes(right, nDims);
    assert right[..|left|] == right;
  }

  /** Equal addresses of one size are never less than one another. */
  lemma EqualNeverLess(left: seq<byte>, right: seq<byte>)
    requires |left| == |right| >= 12 && TupleAddressEqual(left, right)
    ensures LessDefined(left, right) && LessDefined(right, left)
    ensures !TupleAddressLess(left, right) && !TupleAddressLess(right, left)
  {
    assert right[..|left|] == right;
    TupleAddressLessIrreflexive(left);
  }
}
