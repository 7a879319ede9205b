/** What the redimension tuple and the tuple address have in common: a run of
    signed 64-bit chunk coordinates followed by a 64-bit cell position, and the
    order both formats put on (instance, coordinates, position). */
module Coordinates {
  import opened Bytes

  predicate ValidCoords(cs: seq<int>) {
    forall i :: 0 <= i < |cs| ==> IsI64(cs[i])
  }

  function EncodeCoords(cs: seq<int>): (r: seq<byte>)
    requires ValidCoords(cs)
    ensures |r| == 8 * |cs|
  {
    if |cs| == 0 then [] else EncodeI64(cs[0]) + EncodeCoords(cs[1..])
  }

  /** The `n` signed 64-bit numbers stored from offset `off` on. */
  function CoordsAt(blob: seq<byte>, off: nat, n: nat): (r: seq<int>)
    requires off + 8 * n <= |blob|
    ensures |r| == n && ValidCoords(r)
  {
    seq(n, i requires 0 <= i < n => DecodeI64(blob[off + 8 * i .. off + 8 * i + 8]))
  }

  /** The signed 64-bit number at offset `off`. */
  function CoordAt(blob: seq<byte>, off: nat): int
    requires off + 8 <= |blob|
  {
    DecodeI64(blob[off .. off + 8])
  }

  /** How a format reads its position field: as `position_t` or as `uint64_t`. */
  datatype PosOrder = Signed | Unsigned

  function PosAt(order: PosOrder, blob: seq<byte>, off: nat): int
    requires off + 8 <= |blob|
  {
    match order
    case Signed => DecodeI64(blob[off .. off + 8])
    case Unsigned => DecodeU64(blob[off .. off + 8])
  }

  /** The positional key that orders records. */
  datatype Key = Key(instance: int, coords: seq<int>, pos: int)

  /** Lexicographic order on coordinate vectors. */
  predicate LexLess(a: seq<int>, b: seq<int>) {
    |a| > 0 && |b| > 0 && (a[0] < b[0] || (a[0] == b[0] && LexLess(a[1..], b[1..])))
  }

  /** The canonical order: instance id, then chunk coordinates, then cell position. */
  predicate KeyLess(a: Key, b: Key) {
    a.instance < b.instance ||
    (a.instance == b.instance && (LexLess(a.coords, b.coords) || (a.coords == b.coords && a.pos < b.pos)))
  }

  /** The comparison loop shared by `redimTupleLess`, `tupleAddressLess` and
      `tupleAddressLessThan`: coordinates from index `i` on, stored from offset `base`,
      then the position field after the `n` coordinates. */
  function CoordsThenPosLess(left: seq<byte>, right: seq<byte>, base: nat, n: nat, i: nat, order: PosOrder): bool
    requires i <= n && |left| >= base + 8 * n + 8 && |right| >= base + 8 * n + 8
    decreases n - i
  {
    if i == n then PosAt(order, left, base + 8 * n) < PosAt(order, right, base + 8 * n)
    else if CoordAt(left, base + 8 * i) < CoordAt(right, base + 8 * i) then true
    else if CoordAt(left, base + 8 * i) > CoordAt(right, base + 8 * i) then false
    else CoordsThenPosLess(left, right, base, n, i + 1, order)
  }

  /** The coordinate loop of `makeRedimTuple`, `makeTupleAddress` and
      `stringToTupleAddress`: one 8-byte field per coordinate from offset `p0` on. */
  method PutCoords(buf: array<byte>, p0: nat, cs: seq<int>) returns (p: nat)
    requires ValidCoords(cs)
    requires p0 + 8 * |cs| <= buf.Length
    modifies buf
    ensures p == p0 + 8 * |cs|
    ensures buf[..] == old(buf[..p0]) + EncodeCoords(cs) + old(buf[p..])
  {
    p := p0;
    var i := 0;
    while i < |cs|
      invariant 0 <= i <= |cs| && p == p0 + 8 * i
      invariant buf[..p] + EncodeCoords(cs[i..]) == old(buf[..p0]) + EncodeCoords(cs)
      invariant buf[p..] == old(buf[p..])
    {
      assert cs[i..][1..] == cs[i + 1..];
      ghost var before := buf[..p];
      p := Put(buf, p, EncodeI64(cs[i]));
      assert buf[..p] == before + EncodeI64(cs[i]);
      i := i + 1;
    }
    assert cs[i..] == [];
    assert buf[..] == buf[..p] + buf[p..];
  }

  /** `PutCoords` right after the bytes `w` already written over `orig` from `p`: the
      written run grows by the coordinates' encoding. */
  method PutCoordsAfter(buf: array<byte>, ghost orig: seq<byte>, p: nat, ghost w: seq<byte>, q: nat, cs: seq<int>)
    returns (q': nat)
    requires ValidCoords(cs) && q == p + |w| && q + 8 * |cs| <= |orig| == buf.Length
    requires buf[..] == orig[..p] + w + orig[q..]
    modifies buf
    ensures q' == q + |EncodeCoords(cs)|
    ensures buf[..] == orig[..p] + (w + EncodeCoords(cs)) + orig[q'..]
  {
    ghost var cur := buf[..];
    q' := PutCoords(buf, q, cs);
    AppendAfterWritten(orig, p, w, cur, EncodeCoords(cs), buf[..]);
  }

  // ---- lemmas: encoding ----------------------------------------------------------

  lemma {:induction false} EncodeCoordsAt(cs: seq<int>, i: nat)
    requires ValidCoords(cs)
    requires i < |cs|
    ensures EncodeCoords(cs)[8 * i .. 8 * i + 8] == EncodeI64(cs[i])
  {
    if i > 0 {
      EncodeCoordsAt(cs[1..], i - 1);
      assert EncodeCoords(cs)[8 * i .. 8 * i + 8] == EncodeCoords(cs[1..])[8 * (i - 1) .. 8 * (i - 1) + 8];
    }
  }

  /** Encoding coordinates one at a time, front to back, builds `EncodeCoords`. */
  lemma {:induction false} EncodeCoordsSnoc(cs: seq<int>)
    requires |cs| > 0 && ValidCoords(cs)
    ensures EncodeCoords(cs) == EncodeCoords(cs[..|cs| - 1]) + EncodeI64(cs[|cs| - 1])
    decreases |cs|
  {
    if |cs| > 1 {
      EncodeCoordsSnoc(cs[1..]);
      assert cs[1..][..|cs| - 2] == cs[..|cs| - 1][1..];
    }
  }

  /** A slice inside the middle part of a concatenation is a slice of that part. */
  lemma SliceMid<T>(pre: seq<T>, x: seq<T>, post: seq<T>, a: nat, b: nat)
    requires a <= b <= |x|
    ensures (pre + x + post)[|pre| + a .. |pre| + b] == x[a..b]
  {
  }

  /** A slice of a slice is a slice. */
  lemma SubSlice<T>(s: seq<T>, a: nat, b: nat, c: nat, d: nat)
    requires a <= b <= |s| && c <= d <= b - a
    ensures s[a..b][c..d] == s[a + c .. a + d]
  {
    forall k | 0 <= k < d - c
      ensures s[a..b][c..d][k] == s[a + c .. a + d][k]
    {
      assert s[a..b][c..d][k] == s[a..b][c + k] == s[a + c + k];
    }
  }

  /** Encoded coordinates read back as the same coordinates, wherever they sit. */
  lemma {:induction false} CoordsAtEncoded(pre: seq<byte>, cs: seq<int>, post: seq<byte>)
    requires ValidCoords(cs)
    ensures CoordsAt(pre + EncodeCoords(cs) + post, |pre|, |cs|) == cs
  {
    var x := EncodeCoords(cs);
    var blob := pre + x + post;
    var r := CoordsAt(blob, |pre|, |cs|);
    forall i | 0 <= i < |cs|
      ensures r[i] == cs[i]
    {
      EncodeCoordsAt(cs, i);
      SliceMid(pre, x, post, 8 * i, 8 * i + 8);
      assert blob[|pre| + 8 * i .. |pre| + 8 * i + 8] == EncodeI64(cs[i]);
      I64RoundTrip(cs[i]);
    }
  }

  /** Read coordinates encode back to the bytes they were read from. */
  lemma {:induction false} CoordBytes(blob: seq<byte>, off: nat, n: nat)
    requires off + 8 * n <= |blob|
    ensures EncodeCoords(CoordsAt(blob, off, n)) == blob[off .. off + 8 * n]
    decreases n
  {
    if n > 0 {
      var q, end := off + 8, off + 8 * n;
      assert q + 8 * (n - 1) == end;
      CoordBytes(blob, q, n - 1);
      var cs := CoordsAt(blob, off, n);
      CoordsAtCons(blob, off, n);
      I64BytesRoundTrip(blob[off .. q]);
      assert EncodeCoords(cs) == EncodeI64(cs[0]) + EncodeCoords(cs[1..]);
      assert blob[off .. end] == blob[off .. q] + blob[q .. end];
    }
  }

  /** The first of `n` stored coordinates, then the `n - 1` after it. */
  lemma CoordsAtCons(blob: seq<byte>, off: nat, n: nat)
    requires 0 < n && off + 8 * n <= |blob|
    ensures CoordsAt(blob, off, n)[0] == DecodeI64(blob[off .. off + 8])
    ensures CoordsAt(blob, off, n)[1..] == CoordsAt(blob, off + 8, n - 1)
  {
  }

  /** Coordinates read from blobs that agree on those bytes agree. */
  lemma CoordsAtFrame(b1: seq<byte>, b2: seq<byte>, off: nat, n: nat)
    requires off + 8 * n <= |b1| && off + 8 * n <= |b2|
    requires b1[off .. off + 8 * n] == b2[off .. off + 8 * n]
    ensures CoordsAt(b1, off, n) == CoordsAt(b2, off, n)
  {
    forall i: int | 0 <= i < n
      ensures b1[off + 8 * i .. off + 8 * i + 8] == b2[off + 8 * i .. off + 8 * i + 8]
    {
      SubSlice(b1, off, off + 8 * n, 8 * i, 8 * i + 8);
      SubSlice(b2, off, off + 8 * n, 8 * i, 8 * i + 8);
    }
  }

  // ---- lemmas: the order -----------------------------------------------------------

  /** The comparison loop computes the lexicographic order of the coordinates that are
      left, then of the positions. */
  lemma {:induction false} CoordsThenPosLessIsLex(left: seq<byte>, right: seq<byte>, base: nat, n: nat, i: nat,
                                                  order: PosOrder)
    requires i <= n && |left| >= base + 8 * n + 8 && |right| >= base + 8 * n + 8
    ensures var cl, cr := CoordsAt(left, base, n), CoordsAt(right, base, n);
            CoordsThenPosLess(left, right, base, n, i, order) ==
            (LexLess(cl[i..], cr[i..]) ||
             (cl[i..] == cr[i..] && PosAt(order, left, base + 8 * n) < PosAt(order, right, base + 8 * n)))
    decreases n - i
  {
    var cl, cr := CoordsAt(left, base, n), CoordsAt(right, base, n);
    if i < n {
      CoordsThenPosLessIsLex(left, right, base, n, i + 1, order);
      assert cl[i..][1..] == cl[i + 1..] && cr[i..][1..] == cr[i + 1..];
      assert cl[i] == CoordAt(left, base + 8 * i) && cr[i] == CoordAt(right, base + 8 * i);
      if cl[i] == cr[i] {
        assert cl[i..] == cr[i..] <==> cl[i + 1..] == cr[i + 1..] by {
          if cl[i + 1..] == cr[i + 1..] {
            assert cl[i..] == [cl[i]] + cl[i + 1..];
            assert cr[i..] == [cr[i]] + cr[i + 1..];
          }
        }
      } else {
        assert cl[i..][0] != cr[i..][0];
      }
    }
  }

  lemma {:induction false} LexLessIrreflexive(a: seq<int>)
    ensures !LexLess(a, a)
  {
    if |a| > 0 {
      LexLessIrreflexive(a[1..]);
    }
  }

  lemma {:induction false} LexLessTransitive(a: seq<int>, b: seq<int>, c: seq<int>)
    requires LexLess(a, b) && LexLess(b, c)
    ensures LexLess(a, c)
  {
    if a[0] == b[0] && b[0] == c[0] {
      LexLessTransitive(a[1..], b[1..], c[1..]);
    }
  }

  lemma {:induction false} LexLessTrichotomy(a: seq<int>, b: seq<int>)
    requires |a| == |b|
    ensures LexLess(a, b) || LexLess(b, a) || a == b
  {
    if |a| > 0 && a[0] == b[0] {
      LexLessTrichotomy(a[1..], b[1..]);
      if a[1..] == b[1..] {
        assert a == [a[0]] + a[1..] && b == [b[0]] + b[1..];
      }
    }
  }

  lemma {:induction false} LexLessAsymmetric(a: seq<int>, b: seq<int>)
    requires LexLess(a, b)
    ensures !LexLess(b, a) && a != b
  {
    if a[0] == b[0] {
      LexLessAsymmetric(a[1..], b[1..]);
    }
  }

  /** The canonical order is irreflexive... */
  lemma {:induction false} KeyLessIrreflexive(k: Key)
    ensures !KeyLess(k, k)
  {
    LexLessIrreflexive(k.coords);
  }

  /** ...transitive... */
  lemma {:induction false} KeyLessTransitive(a: Key, b: Key, c: Key)
    requires KeyLess(a, b) && KeyLess(b, c)
    ensures KeyLess(a, c)
  {
    if a.instance == b.instance == c.instance {
      if LexLess(a.coords, b.coords) && LexLess(b.coords, c.coords) {
        LexLessTransitive(a.coords, b.coords, c.coords);
      }
    }
  }

  /** ...and total on keys of one dimensionality: a strict total order. */
  lemma {:induction false} KeyLessTrichotomy(a: Key, b: Key)
    requires |a.coords| == |b.coords|
    ensures KeyLess(a, b) || KeyLess(b, a) || a == b
  {
    LexLessTrichotomy(a.coords, b.coords);
  }

  lemma {:induction false} KeyLessAsymmetric(a: Key, b: Key)
    requires KeyLess(a, b)
    ensures !KeyLess(b, a) && a != b
  {
    if a.instance == b.instance && LexLess(a.coords, b.coords) {
      LexLessAsymmetric(a.coords, b.coords);
    }
  }
}
