/** The redimension tuple of RedimensionTuple.h: one byte blob holding a record on
    its way to the output array,

      [uint8 nDims][uint32 instanceId][int64 chunkCoord] x nDims [int64 cellPos][value] x nAttrs
      value := [int8 missing code]? [uint32 size]? [data]

    where the missing code is present only for nullable attributes and the size only
    for variable-sized ones. The sort order and equality of tuples look only at the
    leading "key" part (instance, chunk coordinates, cell position). */
module RedimensionTuple {
  import opened Bytes
  import opened Common
  import opened Coordinates

  /** What the destination schema says of one attribute: nullable or not, and its
      fixed size in bytes, 0 for a variable-sized type. */
  datatype AttrLayout = AttrLayout(nullable: bool, size: nat)

  /** The fields a tuple carries, as `decomposeTuple` hands them back. */
  datatype Decoded = Decoded(dstInstanceId: int, chunkCoords: seq<int>, cellPos: int, values: seq<Value>)

  /** Bytes taken by nDims, the instance id, the chunk coordinates and the position. */
  function KeyLen(nDims: nat): nat { 1 + 4 + 8 * nDims + 8 }

  /** Offset of the cell position field. */
  function PosOffset(nDims: nat): nat { 1 + 4 + 8 * nDims }

  /** A value the schema allows in an attribute slot: nulls only where nullable (with
      a reason code 0..127), fixed-size data of exactly that size, variable-sized data
      whose length fits the 4-byte size field. */
  predicate FitsLayout(l: AttrLayout, v: Value) {
    match v
    case Null(r) => l.nullable && ValidReason(r)
    case Present(d) => if l.size != 0 then |d| == l.size else IsU32(|d|)
  }

  /** Every value fits the layout of its attribute. */
  predicate Fits(layout: seq<AttrLayout>, values: seq<Value>) {
    |layout| == |values| &&
    (|layout| > 0 ==> FitsLayout(layout[0], values[0]) && Fits(layout[1..], values[1..]))
  }

  predicate ValidKeyFields(nDims: nat, dstInstanceId: int, chunkCoords: seq<int>, cellPos: int) {
    nDims < 256 && IsU32(dstInstanceId) && |chunkCoords| == nDims && IsI64(cellPos) &&
    ValidCoords(chunkCoords)
  }

  // ---- sizes ----------------------------------------------------------------

  /** Bytes one attribute slot takes: the missing code if nullable, then, unless the
      value is null, its fixed size or a 4-byte length plus the data. */
  function AttrSize(l: AttrLayout, v: Value): nat {
    (if l.nullable then 1 else 0) +
    (if l.nullable && v.Null? then 0
     else if l.size != 0 then l.size
     else 4 + (if v.Present? then |v.item| else 0))
  }

  function SumAttrSizes(layout: seq<AttrLayout>, values: seq<Value>): nat
    requires |layout| == |values|
  {
    if |layout| == 0 then 0 else AttrSize(layout[0], values[0]) + SumAttrSizes(layout[1..], values[1..])
  }

  /** The size `makeRedimTuple` allocates. */
  function TupleSize(nDims: nat, layout: seq<AttrLayout>, values: seq<Value>): nat
    requires |layout| == |values|
  {
    KeyLen(nDims) + SumAttrSizes(layout, values)
  }

  // ---- encoding ---------------------------------------------------------------

  /** The missing code stored for a value: its reason if null, -1 if present. */
  function MissingCode(v: Value): (b: byte)
    requires v.Null? ==> ValidReason(v.reason)
    ensures v.Present? <==> b >= 128
  {
    match v
    case Null(r) => EncodeI8(r)
    case Present(_) => EncodeI8(-1)
  }

  function EncodeAttr(l: AttrLayout, v: Value): seq<byte>
    requires FitsLayout(l, v)
  {
    (if l.nullable then [MissingCode(v)] else []) +
    (match v
     case Null(_) => []
     case Present(d) => EncodeBody(l, d))
  }

  /** The value part of a slot: the data of a fixed-size attribute, else its 4-byte size
      and then the data. */
  function EncodeBody(l: AttrLayout, d: seq<byte>): seq<byte>
    requires FitsLayout(l, Present(d))
  {
    if l.size != 0 then d else EncodeU32(|d|) + d
  }

  function EncodeAttrs(layout: seq<AttrLayout>, values: seq<Value>): seq<byte>
    requires Fits(layout, values)
  {
    if |layout| == 0 then [] else EncodeAttr(layout[0], values[0]) + EncodeAttrs(layout[1..], values[1..])
  }

  function EncodeKey(nDims: nat, dstInstanceId: int, chunkCoords: seq<int>, cellPos: int): (r: seq<byte>)
    requires ValidKeyFields(nDims, dstInstanceId, chunkCoords, cellPos)
    ensures |r| == KeyLen(nDims)
  {
    [nDims] + EncodeU32(dstInstanceId) + EncodeCoords(chunkCoords) + EncodeI64(cellPos)
  }

  /** The blob `makeRedimTuple` writes. */
  function EncodeTuple(nDims: nat, layout: seq<AttrLayout>, dstInstanceId: int, chunkCoords: seq<int>,
                       cellPos: int, values: seq<Value>): seq<byte>
    requires ValidKeyFields(nDims, dstInstanceId, chunkCoords, cellPos) && Fits(layout, values)
  {
    EncodeKey(nDims, dstInstanceId, chunkCoords, cellPos) + EncodeAttrs(layout, values)
  }

  // ---- decoding ---------------------------------------------------------------

  /** One attribute slot read from offset `p`, with the offset after it; None where
      `decomposeTuple` would read past the end of the blob. */
  function ParseAttr(l: AttrLayout, blob: seq<byte>, p: nat): Option<(Value, nat)> {
    if l.nullable && p >= |blob| then None
    else if l.nullable && DecodeI8(blob[p]) >= 0 then Some((Null(DecodeI8(blob[p])), p + 1))
    else ParseBody(l, blob, if l.nullable then p + 1 else p)
  }

  /** The value part of a slot read from offset `p`. */
  function ParseBody(l: AttrLayout, blob: seq<byte>, p: nat): Option<(Value, nat)> {
    if l.size != 0 then
      if p + l.size <= |blob| then Some((Present(blob[p .. p + l.size]), p + l.size)) else None
    else if p + 4 <= |blob| && p + 4 + DecodeU32(blob[p .. p + 4]) <= |blob| then
      var n := DecodeU32(blob[p .. p + 4]);
      Some((Present(blob[p + 4 .. p + 4 + n]), p + 4 + n))
    else None
  }

  function ParseAttrs(layout: seq<AttrLayout>, blob: seq<byte>, p: nat): Option<seq<Value>>
  {
    if |layout| == 0 then Some([])
    else match ParseAttr(layout[0], blob, p)
      case None => None
      case Some(vq) =>
        match ParseAttrs(layout[1..], blob, vq.1)
        case None => None
        case Some(rest) => Some([vq.0] + rest)
  }

  /** What `decomposeTuple` reads from a blob, given the schema's nDims and layout;
      None where it would read past the end. */
  function ParseTuple(nDims: nat, layout: seq<AttrLayout>, blob: seq<byte>): Option<Decoded> {
    if |blob| < KeyLen(nDims) then None
    else match ParseAttrs(layout, blob, KeyLen(nDims))
      case None => None
      case Some(vs) =>
        Some(Decoded(DecodeU32(blob[1..5]), CoordsAt(blob, 5, nDims),
                     DecodeI64(blob[PosOffset(nDims) .. KeyLen(nDims)]), vs))
  }

  // ---- the key, the order and the equality -------------------------------------

  /** Long enough to hold the key its own nDims byte announces. */
  predicate Readable(blob: seq<byte>) { |blob| >= 1 && |blob| >= KeyLen(blob[0]) }

  function KeyOf(blob: seq<byte>): (k: Key)
    requires Readable(blob)
    ensures |k.coords| == blob[0]
  {
    var n := blob[0];
    Key(DecodeU32(blob[1..5]), CoordsAt(blob, 5, n), DecodeI64(blob[PosOffset(n) .. KeyLen(n)]))
  }

  function InstanceAt(blob: seq<byte>, off: nat): int
    requires off + 4 <= |blob|
  {
    DecodeU32(blob[off .. off + 4])
  }

  /** What `redimTupleLess` reads: both nDims bytes, and both keys when they agree. */
  predicate Comparable(left: seq<byte>, right: seq<byte>) {
    |left| >= 1 && |right| >= 1 && (left[0] == right[0] ==> Readable(left) && Readable(right))
  }

  /** `redimTupleLess`: fails when the two nDims bytes differ. The instance id is the
      most significant part of the order. */
  function RedimTupleLess(left: seq<byte>, right: seq<byte>): (r: Result<bool>)
    requires Comparable(left, right)
    ensures r.Err? <==> left[0] != right[0]
    ensures r.Err? ==> r.error == MalformedTupleComparison
    ensures r.Ok? ==> Readable(left) && Readable(right) &&
                      (InstanceAt(left, 1) < InstanceAt(right, 1) ==> r.value) &&
                      (r.value ==> InstanceAt(left, 1) <= InstanceAt(right, 1))
  {
    if right[0] != left[0] then Err(MalformedTupleComparison)
    else if InstanceAt(left, 1) < InstanceAt(right, 1) then Ok(true)
    else if InstanceAt(left, 1) > InstanceAt(right, 1) then Ok(false)
    else Ok(CoordsThenPosLess(left, right, 5, left[0], 0, Signed))
  }

  /** `redimTupleEqual`: byte equality of the first KeyLen(nDims of left) bytes. */
  function RedimTupleEqual(left: seq<byte>, right: seq<byte>): (r: bool)
    requires Readable(left) && |right| >= KeyLen(left[0])
    ensures left == right ==> r
    ensures r ==> right[0] == left[0] && InstanceAt(right, 1) == InstanceAt(left, 1)
  {
    var n := KeyLen(left[0]);
    var eq := left[..n] == right[..n];
    assert left[..n][1..5] == left[1..5] && right[..n][1..5] == right[1..5];
    assert eq ==> right[0] == left[0] && right[1..5] == left[1..5];
    eq
  }

  /** `getInstanceId`: the uint32 at byte offset 1. */
  function GetInstanceId(blob: seq<byte>): (iid: int)
    requires |blob| >= 5
    ensures IsU32(iid)
  {
    InstanceAt(blob, 1)
  }

  // ---- the operations that write -------------------------------------------------

  /** The first loop of `makeRedimTuple`: the number of bytes the tuple needs. */
  method ComputeTupleSize(nDims: nat, layout: seq<AttrLayout>, values: seq<Value>) returns (tupleSize: nat)
    requires Fits(layout, values)
    ensures tupleSize == TupleSize(nDims, layout, values)
  {
    tupleSize := KeyLen(nDims);
    var i := 0;
    while i < |layout|
      invariant 0 <= i <= |layout|
      invariant Fits(layout[i..], values[i..])
      invariant tupleSize + SumAttrSizes(layout[i..], values[i..]) == TupleSize(nDims, layout, values)
    {
      assert layout[i..][1..] == layout[i + 1..] && values[i..][1..] == values[i + 1..];
      var l, v := layout[i], values[i];
      assert FitsLayout(l, v);
      if l.nullable {
        tupleSize := tupleSize + 1;
        if v.Null? {
          i := i + 1;
          continue;
        }
      }
      if l.size != 0 {
        tupleSize := tupleSize + l.size;
      } else {
        tupleSize := tupleSize + 4 + |v.item|;
      }
      i := i + 1;
    }
    assert layout[i..] == [];
  }

  /** One pass of the second loop of `makeRedimTuple`: the missing code, then the size
      and the data of one attribute, written at `p` right after the bytes `w` already
      written over `orig` from `p0`. */
  method PutAttr(buf: array<byte>, ghost orig: seq<byte>, p0: nat, ghost w: seq<byte>, p: nat, l: AttrLayout, v: Value)
    returns (q: nat)
    requires FitsLayout(l, v)
    requires p == p0 + |w| && p + |EncodeAttr(l, v)| <= |orig| == buf.Length
    requires buf[..] == orig[..p0] + w + orig[p..]
    modifies buf
    ensures q == p + |EncodeAttr(l, v)|
    ensures buf[..] == orig[..p0] + (w + EncodeAttr(l, v)) + orig[q..]
  {
    q := p;
    ghost var w1 := w;
    if l.nullable {
      q := PutAfter(buf, orig, p0, w, q, [MissingCode(v)]);
      w1 := w + [MissingCode(v)];
    }
    ghost var head := if l.nullable then [MissingCode(v)] else [];
    assert w1 == w + head;
    if v.Present? {
      q := PutBody(buf, orig, p0, w1, q, l, v.item);
      assert EncodeAttr(l, v) == head + EncodeBody(l, v.item);
      assert w1 + EncodeBody(l, v.item) == w + EncodeAttr(l, v);
    } else {
      assert EncodeAttr(l, v) == head + [];
    }
  }

  /** The value part of one attribute: its size unless the attribute has a fixed
      size, then its data. */
  method PutBody(buf: array<byte>, ghost orig: seq<byte>, p0: nat, ghost w: seq<byte>, p: nat, l: AttrLayout, d: seq<byte>)
    returns (q: nat)
    requires FitsLayout(l, Present(d))
    requires p == p0 + |w| && p + |EncodeBody(l, d)| <= |orig| == buf.Length
    requires buf[..] == orig[..p0] + w + orig[p..]
    modifies buf
    ensures q == p + |EncodeBody(l, d)|
    ensures buf[..] == orig[..p0] + (w + EncodeBody(l, d)) + orig[q..]
  {
    if l.size == 0 {
      q := PutAfter(buf, orig, p0, w, p, EncodeU32(|d|));
      q := PutAfter(buf, orig, p0, w + EncodeU32(|d|), q, d);
      assert w + EncodeU32(|d|) + d == w + EncodeBody(l, d);
    } else {
      q := PutAfter(buf, orig, p0, w, p, d);
    }
  }

  /** The second loop of `makeRedimTuple`: one slot per attribute from offset `p0` on. */
  method PutAttrs(buf: array<byte>, p0: nat, layout: seq<AttrLayout>, values: seq<Value>)
    requires Fits(layout, values)
    requires p0 + |EncodeAttrs(layout, values)| == buf.Length
    modifies buf
    ensures buf[..] == old(buf[..p0]) + EncodeAttrs(layout, values)
  {
    ghost var orig := buf[..];
    ghost var all := EncodeAttrs(layout, values);
    ghost var w: seq<byte> := [];
    var p: nat := p0;
    var i := 0;
    assert all == w + all;
    assert buf[..] == orig[..p0] + w + orig[p..];
    while i < |layout|
      invariant 0 <= i <= |layout| == |values| && p == p0 + |w|
      invariant Fits(layout[i..], values[i..])
      invariant w + EncodeAttrs(layout[i..], values[i..]) == all
      invariant buf[..] == orig[..p0] + w + orig[p..]
    {
      EncodeAttrsAt(layout, values, i);
      ghost var slot := EncodeAttr(layout[i], values[i]);
      ghost var rest := EncodeAttrs(layout[i + 1..], values[i + 1..]);
      Regroup(w, slot, rest, all);
      p := PutAttr(buf, orig, p0, w, p, layout[i], values[i]);
      w := w + slot;
      i := i + 1;
    }
    assert layout[i..] == [] && w + [] == w;
    assert orig[p..] == [];
  }

  /** The attributes from `i` on encode as slot `i` followed by those from `i + 1` on. */
  lemma EncodeAttrsAt(layout: seq<AttrLayout>, values: seq<Value>, i: nat)
    requires i < |layout| == |values| && Fits(layout[i..], values[i..])
    ensures FitsLayout(layout[i], values[i]) && Fits(layout[i + 1..], values[i + 1..])
    ensures EncodeAttrs(layout[i..], values[i..])
            == EncodeAttr(layout[i], values[i]) + EncodeAttrs(layout[i + 1..], values[i + 1..])
  {
    assert layout[i..][1..] == layout[i + 1..] && values[i..][1..] == values[i + 1..];
  }

  lemma Regroup(w: seq<byte>, slot: seq<byte>, rest: seq<byte>, all: seq<byte>)
    requires w + (slot + rest) == all
    ensures (w + slot) + rest == all
  {
  }

  /** `makeRedimTuple`: sizes the tuple, then writes its fields front to back. */
  method MakeRedimTuple(nDims: nat, layout: seq<AttrLayout>, dstInstanceId: int, chunkCoords: seq<int>,
                        cellPos: int, values: seq<Value>) returns (tuple: array<byte>)
    requires |chunkCoords| >= nDims && ValidKeyFields(nDims, dstInstanceId, chunkCoords[..nDims], cellPos)
    requires Fits(layout, values)
    ensures fresh(tuple)
    ensures tuple[..] == EncodeTuple(nDims, layout, dstInstanceId, chunkCoords[..nDims], cellPos, values)
  {
    var tupleSize := ComputeTupleSize(nDims, layout, values);
    EncodedSize(nDims, layout, dstInstanceId, chunkCoords[..nDims], cellPos, values);
    tuple := new byte[tupleSize];
    var p := PutKey(tuple, nDims, dstInstanceId, chunkCoords[..nDims], cellPos);
    PutAttrs(tuple, p, layout, values);
  }

  /** The head of `makeRedimTuple`: the dimension count, the instance id, the chunk
      coordinates one by one, then the position. */
  method PutKey(buf: array<byte>, nDims: nat, dstInstanceId: int, chunkCoords: seq<int>, cellPos: int)
    returns (p: nat)
    requires ValidKeyFields(nDims, dstInstanceId, chunkCoords, cellPos) && KeyLen(nDims) <= buf.Length
    modifies buf
    ensures p == KeyLen(nDims)
    ensures buf[..] == EncodeKey(nDims, dstInstanceId, chunkCoords, cellPos) + old(buf[p..])
  {
    ghost var orig := buf[..];
    p := PutAfter(buf, orig, 0, [], 0, [nDims]);
    ghost var w: seq<byte> := [nDims as byte];
    assert buf[..] == orig[..0] + w + orig[p..];
    p := PutAfter(buf, orig, 0, w, p, EncodeU32(dstInstanceId));
    w := w + EncodeU32(dstInstanceId);
    p := PutCoordsAfter(buf, orig, 0, w, p, chunkCoords);
    w := w + EncodeCoords(chunkCoords);
    p := PutAfter(buf, orig, 0, w, p, EncodeI64(cellPos));
    w := w + EncodeI64(cellPos);
    assert buf[..] == orig[..0] + w + orig[p..];
    assert w == EncodeKey(nDims, dstInstanceId, chunkCoords, cellPos);
    assert orig[..0] + w == w;
  }

  /** One pass of the attribute loop of `decomposeTuple`: the slot at offset `p`. */
  method ReadAttr(l: AttrLayout, blob: seq<byte>, p: nat) returns (v: Value, q: nat)
    requires ParseAttr(l, blob, p).Some?
    ensures (v, q) == ParseAttr(l, blob, p).value
  {
    q := p;
    if l.nullable {
      var mc := DecodeI8(blob[q]);
      q := q + 1;
      if mc >= 0 {
        return Null(mc), q;
      }
    }
    if l.size != 0 {
      v := Present(blob[q .. q + l.size]);
      q := q + l.size;
    } else {
      var size := DecodeU32(blob[q .. q + 4]);
      q := q + 4;
      v := Present(blob[q .. q + size]);
      q := q + size;
    }
  }

  /** The attribute loop of `decomposeTuple`, from offset `p0` on. */
  method ReadAttrs(layout: seq<AttrLayout>, blob: seq<byte>, p0: nat) returns (values: seq<Value>)
    requires ParseAttrs(layout, blob, p0).Some?
    ensures values == ParseAttrs(layout, blob, p0).value
  {
    var p := p0;
    values := [];
    var i := 0;
    while i < |layout|
      invariant 0 <= i <= |layout|
      invariant ParseAttrs(layout[i..], blob, p).Some?
      invariant values + ParseAttrs(layout[i..], blob, p).value == ParseAttrs(layout, blob, p0).value
    {
      assert layout[i..][1..] == layout[i + 1..];
      var v, q := ReadAttr(layout[i], blob, p);
      values := values + [v];
      p := q;
      i := i + 1;
    }
    assert layout[i..] == [];
  }

  /** `decomposeTuple`: reads the fields back front to back. */
  method DecomposeTuple(nDims: nat, layout: seq<AttrLayout>, redimTuple: seq<byte>)
    returns (dstInstanceId: int, chunkCoords: seq<int>, cellPos: int, values: seq<Value>)
    requires ParseTuple(nDims, layout, redimTuple).Some?
    ensures Decoded(dstInstanceId, chunkCoords, cellPos, values) == ParseTuple(nDims, layout, redimTuple).value
  {
    dstInstanceId := DecodeU32(redimTuple[1..5]);
    var p: nat := 5;
    chunkCoords := [];
    while |chunkCoords| < nDims
      invariant |chunkCoords| <= nDims && p == 5 + 8 * |chunkCoords|
      invariant chunkCoords == CoordsAt(redimTuple, 5, nDims)[..|chunkCoords|]
    {
      chunkCoords := chunkCoords + [DecodeI64(redimTuple[p .. p + 8])];
      p := p + 8;
    }
    cellPos := DecodeI64(redimTuple[p .. p + 8]);
    p := p + 8;
    values := ReadAttrs(layout, redimTuple, p);
  }

  /** `setTuplePosition`: overwrites the 8 position bytes in place. */
  method SetTuplePosition(redimTuple: array<byte>, nDims: nat, position: int)
    requires redimTuple.Length >= KeyLen(nDims) && IsI64(position)
    modifies redimTuple
    ensures redimTuple[..] == old(redimTuple[..PosOffset(nDims)]) + EncodeI64(position)
                              + old(redimTuple[KeyLen(nDims)..])
  {
    var q := Put(redimTuple, PosOffset(nDims), EncodeI64(position));
  }

  // ---- lemmas: size, round trip, accessors --------------------------------------

  lemma {:induction false} EncodeAttrsSize(layout: seq<AttrLayout>, values: seq<Value>)
    requires Fits(layout, values)
    ensures |EncodeAttrs(layout, values)| == SumAttrSizes(layout, values)
  {
    if |layout| > 0 {
      EncodeAttrsSize(layout[1..], values[1..]);
    }
  }

  /** The encoded length is the size formula of the first loop of `makeRedimTuple`. */
  lemma {:induction false} EncodedSize(nDims: nat, layout: seq<AttrLayout>, dstInstanceId: int, chunkCoords: seq<int>,
                    cellPos: int, values: seq<Value>)
    requires ValidKeyFields(nDims, dstInstanceId, chunkCoords, cellPos) && Fits(layout, values)
    ensures |EncodeTuple(nDims, layout, dstInstanceId, chunkCoords, cellPos, values)|
            == KeyLen(nDims) + SumAttrSizes(layout, values)
  {
    EncodeAttrsSize(layout, values);
  }

  /** One slot read back from wherever its encoding sits in a blob. */
  lemma {:induction false} ParseAttrEncoded(l: AttrLayout, v: Value, blob: seq<byte>, p: nat)
    requires FitsLayout(l, v)
    requires p + |EncodeAttr(l, v)| <= |blob| && blob[p .. p + |EncodeAttr(l, v)|] == EncodeAttr(l, v)
    ensures ParseAttr(l, blob, p) == Some((v, p + |EncodeAttr(l, v)|))
  {
    var enc := EncodeAttr(l, v);
    if l.nullable {
      SubWindow(blob, p, enc, 0, 1);
      assert blob[p] == blob[p .. p + 1][0];
    }
    match v
    case Null(r) => {}
    case Present(d) => {
      var p1 := if l.nullable then p + 1 else p;
      var k := p1 - p;
      var body := EncodeBody(l, d);
      assert enc == (if l.nullable then [MissingCode(v)] else []) + body;
      assert enc[k..] == body;
      SubWindow(blob, p, enc, k, |enc|);
      BodyEncoded(l, d, blob, p1);
    }
  }

  /** The value part read back from wherever its encoding sits. */
  lemma BodyEncoded(l: AttrLayout, d: seq<byte>, blob: seq<byte>, p: nat)
    requires FitsLayout(l, Present(d))
    requires p + |EncodeBody(l, d)| <= |blob| && blob[p .. p + |EncodeBody(l, d)|] == EncodeBody(l, d)
    ensures ParseBody(l, blob, p) == Some((Present(d), p + |EncodeBody(l, d)|))
  {
    if l.size == 0 {
      var body := EncodeBody(l, d);
      SubWindow(blob, p, body, 0, 4);
      assert body[..4] == EncodeU32(|d|);
      U32RoundTrip(|d|);
      SubWindow(blob, p, body, 4, 4 + |d|);
      assert body[4 .. 4 + |d|] == d;
    }
  }

  /** Every slot read back from wherever the encoding of the attributes sits. */
  lemma {:induction false} ParseAttrsEncoded(layout: seq<AttrLayout>, values: seq<Value>, blob: seq<byte>, p: nat)
    requires Fits(layout, values)
    requires p + |EncodeAttrs(layout, values)| <= |blob|
    requires blob[p .. p + |EncodeAttrs(layout, values)|] == EncodeAttrs(layout, values)
    ensures ParseAttrs(layout, blob, p) == Some(values)
  {
    if |layout| > 0 {
      var q := p + |EncodeAttr(layout[0], values[0])|;
      SplitAttrsWindow(layout, values, blob, p, q);
      ParseAttrEncoded(layout[0], values[0], blob, p);
      ParseAttrsEncoded(layout[1..], values[1..], blob, q);
      ParseAttrsStep(layout, blob, p, q, values);
    }
  }

  /** The window of a run of slots splits into the first slot's window and the rest's. */
  lemma SplitAttrsWindow(layout: seq<AttrLayout>, values: seq<Value>, blob: seq<byte>, p: nat, q: nat)
    requires |layout| > 0 && Fits(layout, values) && q == p + |EncodeAttr(layout[0], values[0])|
    requires p + |EncodeAttrs(layout, values)| <= |blob|
    requires blob[p .. p + |EncodeAttrs(layout, values)|] == EncodeAttrs(layout, values)
    ensures FitsLayout(layout[0], values[0]) && Fits(layout[1..], values[1..])
    ensures blob[p .. q] == EncodeAttr(layout[0], values[0])
    ensures q + |EncodeAttrs(layout[1..], values[1..])| <= |blob|
    ensures blob[q .. q + |EncodeAttrs(layout[1..], values[1..])|] == EncodeAttrs(layout[1..], values[1..])
  {
    var head := EncodeAttr(layout[0], values[0]);
    var tail := EncodeAttrs(layout[1..], values[1..]);
    assert EncodeAttrs(layout, values) == head + tail;
    SplitWindow(blob, p, head, tail, q);
  }

  lemma ParseAttrsStep(layout: seq<AttrLayout>, blob: seq<byte>, p: nat, q: nat, values: seq<Value>)
    requires |layout| > 0 && |values| > 0 && ParseAttr(layout[0], blob, p) == Some((values[0], q))
    requires ParseAttrs(layout[1..], blob, q) == Some(values[1..])
    ensures ParseAttrs(layout, blob, p) == Some(values)
  {
    assert [values[0]] + values[1..] == values;
  }

  /** Decoding with the metadata used to encode returns every field that was encoded:
      instance id, chunk coordinates, position, and each value, nulls with their code. */
  lemma {:induction false} RoundTrip(nDims: nat, layout: seq<AttrLayout>, dstInstanceId: int, chunkCoords: seq<int>,
                  cellPos: int, values: seq<Value>)
    requires ValidKeyFields(nDims, dstInstanceId, chunkCoords, cellPos) && Fits(layout, values)
    ensures ParseTuple(nDims, layout, EncodeTuple(nDims, layout, dstInstanceId, chunkCoords, cellPos, values))
            == Some(Decoded(dstInstanceId, chunkCoords, cellPos, values))
  {
    var attrs := EncodeAttrs(layout, values);
    var key := EncodeKey(nDims, dstInstanceId, chunkCoords, cellPos);
    var blob := EncodeTuple(nDims, layout, dstInstanceId, chunkCoords, cellPos, values);
    assert blob[|key| .. |key| + |attrs|] == attrs;
    ParseAttrsEncoded(layout, values, blob, |key|);
    KeyFieldsEncoded(nDims, dstInstanceId, chunkCoords, cellPos, attrs);
  }

  /** The key fields read back from any blob that starts with their encoding. */
  lemma KeyFieldsEncoded(nDims: nat, dstInstanceId: int, chunkCoords: seq<int>, cellPos: int, rest: seq<byte>)
    requires ValidKeyFields(nDims, dstInstanceId, chunkCoords, cellPos)
    ensures var blob := EncodeKey(nDims, dstInstanceId, chunkCoords, cellPos) + rest;
            blob[0] == nDims && DecodeU32(blob[1..5]) == dstInstanceId &&
            CoordsAt(blob, 5, nDims) == chunkCoords && DecodeI64(blob[PosOffset(nDims) .. KeyLen(nDims)]) == cellPos
  {
    var blob := EncodeKey(nDims, dstInstanceId, chunkCoords, cellPos) + rest;
    assert blob[1..5] == EncodeU32(dstInstanceId);
    U32RoundTrip(dstInstanceId);
    assert blob == [nDims] + EncodeU32(dstInstanceId) + EncodeCoords(chunkCoords) + (EncodeI64(cellPos) + rest);
    CoordsAtEncoded([nDims] + EncodeU32(dstInstanceId), chunkCoords, EncodeI64(cellPos) + rest);
    assert blob[PosOffset(nDims) .. KeyLen(nDims)] == EncodeI64(cellPos);
    I64RoundTrip(cellPos);
  }

  /** A null value of a nullable attribute takes only its one missing-code byte. */
  lemma {:induction false} NullSlotIsOneByte(l: AttrLayout, reason: int)
    requires l.nullable && ValidReason(reason)
    ensures EncodeAttr(l, Null(reason)) == [reason]
    ensures AttrSize(l, Null(reason)) == 1
  {
  }

  /** `getInstanceId` returns the instance id the tuple was made with. */
  lemma {:induction false} InstanceIdOfEncoded(nDims: nat, layout: seq<AttrLayout>, dstInstanceId: int, chunkCoords: seq<int>,
                            cellPos: int, values: seq<Value>)
    requires ValidKeyFields(nDims, dstInstanceId, chunkCoords, cellPos) && Fits(layout, values)
    ensures GetInstanceId(EncodeTuple(nDims, layout, dstInstanceId, chunkCoords, cellPos, values)) == dstInstanceId
  {
    var blob := EncodeTuple(nDims, layout, dstInstanceId, chunkCoords, cellPos, values);
    assert blob[1..5] == EncodeU32(dstInstanceId);
    U32RoundTrip(dstInstanceId);
  }

  lemma SliceOfSuffix(s: seq<byte>, k: nat, a: nat, b: nat)
    requires k <= a <= b <= |s|
    ensures s[a..b] == s[k..][a - k .. b - k]
  {
    assert forall i | 0 <= i < b - a :: s[a..b][i] == s[k..][a - k .. b - k][i];
  }

  /** One attribute slot at or after offset `k` reads the same from blobs that agree from `k` on. */
  lemma ParseAttrFrame(l: AttrLayout, b1: seq<byte>, b2: seq<byte>, k: nat, p: nat)
    requires |b1| == |b2| && k <= p && k <= |b1| && b1[k..] == b2[k..]
    ensures ParseAttr(l, b1, p) == ParseAttr(l, b2, p)
  {
    var p1 := if l.nullable then p + 1 else p;
    if p < |b1| {
      assert b1[p] == b1[k..][p - k] == b2[p];
    }
    if l.size != 0 && p1 + l.size <= |b1| {
      SliceOfSuffix(b1, k, p1, p1 + l.size);
      SliceOfSuffix(b2, k, p1, p1 + l.size);
    }
    if l.size == 0 && p1 + 4 <= |b1| {
      SliceOfSuffix(b1, k, p1, p1 + 4);
      SliceOfSuffix(b2, k, p1, p1 + 4);
      var n := DecodeU32(b1[p1 .. p1 + 4]);
      if p1 + 4 + n <= |b1| {
        SliceOfSuffix(b1, k, p1 + 4, p1 + 4 + n);
        SliceOfSuffix(b2, k, p1 + 4, p1 + 4 + n);
      }
    }
  }

  /** The attribute slots from offset `p` on read the same from blobs that agree from `k <= p` on. */
  lemma {:induction false} ParseAttrsFrame(layout: seq<AttrLayout>, b1: seq<byte>, b2: seq<byte>, k: nat, p: nat)
    requires |b1| == |b2| && k <= p && k <= |b1| && b1[k..] == b2[k..]
    ensures ParseAttrs(layout, b1, p) == ParseAttrs(layout, b2, p)
    decreases |layout|
  {
    if |layout| > 0 {
      ParseAttrFrame(layout[0], b1, b2, k, p);
      match ParseAttr(layout[0], b1, p)
      case None => {}
      case Some(vq) => ParseAttrsFrame(layout[1..], b1, b2, k, vq.1);
    }
  }

  /** After `setTuplePosition` a decode yields the new position and every other field unchanged. */
  lemma {:induction false} SetPositionDecodes(nDims: nat, layout: seq<AttrLayout>, blob: seq<byte>, position: int)
    requires ParseTuple(nDims, layout, blob).Some? && IsI64(position)
    ensures var patched := blob[..PosOffset(nDims)] + EncodeI64(position) + blob[KeyLen(nDims)..];
            ParseTuple(nDims, layout, patched) == Some(ParseTuple(nDims, layout, blob).value.(cellPos := position))
  {
    var patched := blob[..PosOffset(nDims)] + EncodeI64(position) + blob[KeyLen(nDims)..];
    var n := KeyLen(nDims);
    assert patched[n..] == blob[n..];
    ParseAttrsFrame(layout, blob, patched, n, n);
    assert patched[1..5] == blob[1..5];
    assert patched[PosOffset(nDims) .. n] == EncodeI64(position);
    I64RoundTrip(position);
    forall i | 0 <= i < nDims
      ensures patched[5 + 8 * i .. 5 + 8 * i + 8] == blob[5 + 8 * i .. 5 + 8 * i + 8]
    {
    }
    assert CoordsAt(patched, 5, nDims) == CoordsAt(blob, 5, nDims);
  }

  // ---- lemmas: the order --------------------------------------------------------

  /** `redimTupleLess` of two tuples with the same nDims is the canonical key order. */
  lemma {:induction false} RedimTupleLessIsKeyLess(left: seq<byte>, right: seq<byte>)
    requires Readable(left) && Readable(right) && left[0] == right[0]
    ensures RedimTupleLess(left, right) == Ok(KeyLess(KeyOf(left), KeyOf(right)))
  {
    CoordsThenPosLessIsLex(left, right, 5, left[0], 0, Signed);
    assert KeyOf(left).coords[0..] == KeyOf(left).coords;
    assert KeyOf(right).coords[0..] == KeyOf(right).coords;
  }

  /** Tuples whose nDims bytes differ cannot be compared. */
  lemma {:induction false} RedimTupleLessFailsIff(left: seq<byte>, right: seq<byte>)
    requires Readable(left) && Readable(right)
    ensures RedimTupleLess(left, right).Err? <==> left[0] != right[0]
    ensures RedimTupleLess(left, right).Err? ==> RedimTupleLess(left, right).error == MalformedTupleComparison
  {
  }

  /** The key part of a readable blob is exactly the key's encoding. */
  lemma {:induction false} KeyBytes(blob: seq<byte>)
    requires Readable(blob)
    ensures var k := KeyOf(blob);
            ValidKeyFields(blob[0], k.instance, k.coords, k.pos) &&
            blob[..KeyLen(blob[0])] == EncodeKey(blob[0], k.instance, k.coords, k.pos)
  {
    var n := blob[0];
    var k := KeyOf(blob);
    U32BytesRoundTrip(blob[1..5]);
    I64BytesRoundTrip(blob[PosOffset(n) .. KeyLen(n)]);
    CoordBytes(blob, 5, n);
    assert blob[..KeyLen(n)] == [n] + blob[1..5] + blob[5 .. PosOffset(n)] + blob[PosOffset(n) .. KeyLen(n)];
  }

  /** The key is read from the first KeyLen(nDims) bytes alone. */
  lemma KeyOfPrefix(blob: seq<byte>)
    requires Readable(blob)
    ensures Readable(blob[..KeyLen(blob[0])]) && KeyOf(blob[..KeyLen(blob[0])]) == KeyOf(blob)
  {
    var n: nat := blob[0];
    var pre := blob[..KeyLen(n)];
    assert pre[1..5] == blob[1..5];
    assert pre[PosOffset(n) .. KeyLen(n)] == blob[PosOffset(n) .. KeyLen(n)];
    assert pre[5 .. 5 + 8 * n] == blob[5 .. 5 + 8 * n];
    CoordsAtFrame(pre, blob, 5, n);
  }

  /** `redimTupleEqual` holds between tuples of one nDims exactly when their keys agree,
      whatever their attribute payloads. */
  lemma {:induction false} RedimTupleEqualIsKeyEqual(left: seq<byte>, right: seq<byte>)
    requires Readable(left) && Readable(right) && left[0] == right[0]
    ensures RedimTupleEqual(left, right) <==> KeyOf(left) == KeyOf(right)
  {
    KeyBytes(left);
    KeyBytes(right);
    KeyOfPrefix(left);
    KeyOfPrefix(right);
  }

  /** Tuples that `redimTupleEqual` calls equal are never less than one another. */
  lemma {:induction false} EqualNeverLess(left: seq<byte>, right: seq<byte>)
    requires Readable(left) && Readable(right) && left[0] == right[0] && RedimTupleEqual(left, right)
    ensures RedimTupleLess(left, right) == Ok(false) && RedimTupleLess(right, left) == Ok(false)
  {
    RedimTupleEqualIsKeyEqual(left, right);
    RedimTupleLessIsKeyLess(left, right);
    RedimTupleLessIsKeyLess(right, left);
    KeyLessIrreflexive(KeyOf(left));
  }

  /** Bytes after the key never influence the comparison. */
  lemma {:induction false} LessIgnoresPayload(left: seq<byte>, right: seq<byte>, left2: seq<byte>, right2: seq<byte>)
    requires Readable(left) && Readable(right) && |left2| >= KeyLen(left[0]) && |right2| >= KeyLen(right[0])
    requires left2[..KeyLen(left[0])] == left[..KeyLen(left[0])]
    requires right2[..KeyLen(right[0])] == right[..KeyLen(right[0])]
    ensures RedimTupleLess(left2, right2) == RedimTupleLess(left, right)
  {
    assert left2[0] == left[..KeyLen(left[0])][0] == left[0];
    assert right2[0] == right[..KeyLen(right[0])][0] == right[0];
    if left[0] == right[0] {
      RedimTupleEqualIsKeyEqual(left, left2);
      RedimTupleEqualIsKeyEqual(right, right2);
      RedimTupleLessIsKeyLess(left, right);
      RedimTupleLessIsKeyLess(left2, right2);
    }
  }

  /** On tuples of one nDims `redimTupleLess` is irreflexive and transitive. */
  lemma {:induction false} RedimTupleLessStrictOrder(a: seq<byte>, b: seq<byte>, c: seq<byte>)
    requires Readable(a) && Readable(b) && Readable(c) && a[0] == b[0] == c[0]
    ensures RedimTupleLess(a, a) == Ok(false)
    ensures RedimTupleLess(a, b) == Ok(true) && RedimTupleLess(b, c) == Ok(true) ==> RedimTupleLess(a, c) == Ok(true)
  {
    RedimTupleLessIsKeyLess(a, a);
    RedimTupleLessIsKeyLess(a, b);
    RedimTupleLessIsKeyLess(b, c);
    RedimTupleLessIsKeyLess(a, c);
    KeyLessIrreflexive(KeyOf(a));
    if KeyLess(KeyOf(a), KeyOf(b)) && KeyLess(KeyOf(b), KeyOf(c)) {
      KeyLessTransitive(KeyOf(a), KeyOf(b), KeyOf(c));
    }
  }

  /** The key of a freshly made tuple is the key it was made from. */
  lemma {:induction false} KeyOfEncoded(nDims: nat, layout: seq<AttrLayout>, dstInstanceId: int, chunkCoords: seq<int>,
                     cellPos: int, values: seq<Value>)
    requires ValidKeyFields(nDims, dstInstanceId, chunkCoords, cellPos) && Fits(layout, values)
    ensures var blob := EncodeTuple(nDims, layout, dstInstanceId, chunkCoords, cellPos, values);
            Readable(blob) && blob[0] == nDims && KeyOf(blob) == Key(dstInstanceId, chunkCoords, cellPos)
  {
    RoundTrip(nDims, layout, dstInstanceId, chunkCoords, cellPos, values);
  }
}
