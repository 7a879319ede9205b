/** Byte-level representation of the fixed-width integers the tuple formats store:
    little-endian unsigned fields and two's-complement signed fields, as the
    host machine lays out `uint32_t`, `int64_t` (`Coordinate`, `position_t`)
    and `uint64_t` in memory. */
module Bytes {

  type byte = b: int | 0 <= b < 256

  const TWO_32: int := 0x1_0000_0000
  const TWO_63: int := 0x8000_0000_0000_0000
  const TWO_64: int := 0x1_0000_0000_0000_0000

  predicate IsU32(x: int) { 0 <= x < TWO_32 }
  predicate IsU64(x: int) { 0 <= x < TWO_64 }
  predicate IsI64(x: int) { -TWO_63 <= x < TWO_63 }
  predicate IsI8(x: int) { -128 <= x < 128 }

  function Pow256(n: nat): (r: nat)
    ensures r >= 1
  {
    if n == 0 then 1 else 256 * Pow256(n - 1)
  }

  lemma Pow256Widths()
    ensures Pow256(1) == 256 && Pow256(4) == TWO_32 && Pow256(8) == TWO_64
  {
  }

  /** The `n` bytes of `x`, least significant first. */
  function LE(x: nat, n: nat): (r: seq<byte>)
    requires x < Pow256(n)
    ensures |r| == n
  {
    if n == 0 then [] else [x % 256] + LE(x / 256, n - 1)
  }

  /** The unsigned number whose little-endian bytes are `s`. */
  function UnLE(s: seq<byte>): nat
  {
    if |s| == 0 then 0 else s[0] + 256 * UnLE(s[1..])
  }

  lemma {:induction false} UnLEBound(s: seq<byte>)
    ensures UnLE(s) < Pow256(|s|)
  {
    if |s| > 0 {
      UnLEBound(s[1..]);
    }
  }

  lemma {:induction false} UnLEOfLE(x: nat, n: nat)
    requires x < Pow256(n)
    ensures UnLE(LE(x, n)) == x
  {
    if n > 0 {
      UnLEOfLE(x / 256, n - 1);
      assert LE(x, n)[1..] == LE(x / 256, n - 1);
    }
  }

  lemma {:induction false} LEOfUnLE(s: seq<byte>)
    ensures UnLE(s) < Pow256(|s|) && LE(UnLE(s), |s|) == s
  {
    UnLEBound(s);
    if |s| > 0 {
      LEOfUnLE(s[1..]);
      assert (s[0] + 256 * UnLE(s[1..])) / 256 == UnLE(s[1..]);
    }
  }

  /** Two byte strings of one width are equal exactly when they decode to the same number. */
  lemma UnLEInjective(s: seq<byte>, t: seq<byte>)
    requires |s| == |t|
    ensures UnLE(s) == UnLE(t) <==> s == t
  {
    if UnLE(s) == UnLE(t) {
      LEOfUnLE(s);
      LEOfUnLE(t);
    }
  }

  // ---- uint32_t -------------------------------------------------------------

  function EncodeU32(x: int): (r: seq<byte>)
    requires IsU32(x)
    ensures |r| == 4
  {
    Pow256Widths();
    LE(x, 4)
  }

  function DecodeU32(s: seq<byte>): (r: int)
    requires |s| == 4
    ensures IsU32(r)
  {
    UnLEBound(s);
    Pow256Widths();
    UnLE(s)
  }

  lemma U32RoundTrip(x: int)
    requires IsU32(x)
    ensures DecodeU32(EncodeU32(x)) == x
  {
    Pow256Widths();
    UnLEOfLE(x, 4);
  }

  lemma U32BytesRoundTrip(s: seq<byte>)
    requires |s| == 4
    ensures EncodeU32(DecodeU32(s)) == s
  {
    LEOfUnLE(s);
  }

  // ---- uint64_t -------------------------------------------------------------

  function DecodeU64(s: seq<byte>): (r: int)
    requires |s| == 8
    ensures IsU64(r)
  {
    UnLEBound(s);
    Pow256Widths();
    UnLE(s)
  }

  // ---- int64_t (two's complement) -------------------------------------------

  /** The unsigned 64-bit pattern of a signed 64-bit number. */
  function ToUnsigned64(x: int): (u: int)
    requires IsI64(x)
    ensures IsU64(u)
  {
    if x < 0 then x + TWO_64 else x
  }

  function ToSigned64(u: int): (x: int)
    requires IsU64(u)
    ensures IsI64(x)
  {
    if u >= TWO_63 then u - TWO_64 else u
  }

  function EncodeI64(x: int): (r: seq<byte>)
    requires IsI64(x)
    ensures |r| == 8
  {
    Pow256Widths();
    LE(ToUnsigned64(x), 8)
  }

  function DecodeI64(s: seq<byte>): (r: int)
    requires |s| == 8
    ensures IsI64(r)
  {
    ToSigned64(DecodeU64(s))
  }

  lemma I64RoundTrip(x: int)
    requires IsI64(x)
    ensures DecodeI64(EncodeI64(x)) == x
  {
    Pow256Widths();
    UnLEOfLE(ToUnsigned64(x), 8);
  }

  lemma I64BytesRoundTrip(s: seq<byte>)
    requires |s| == 8
    ensures EncodeI64(DecodeI64(s)) == s
  {
    Pow256Widths();
    LEOfUnLE(s);
  }

  /** The signed reading of a field below 2^63 is its unsigned reading. */
  lemma I64AgreesWithU64Below(s: seq<byte>)
    requires |s| == 8 && DecodeU64(s) < TWO_63
    ensures DecodeI64(s) == DecodeU64(s)
  {
  }

  /** Two 8-byte fields are equal exactly when their signed readings are. */
  lemma I64Injective(s: seq<byte>, t: seq<byte>)
    requires |s| == 8 && |t| == 8
    ensures DecodeI64(s) == DecodeI64(t) <==> s == t
  {
    UnLEInjective(s, t);
  }

  lemma U32Injective(s: seq<byte>, t: seq<byte>)
    requires |s| == 4 && |t| == 4
    ensures DecodeU32(s) == DecodeU32(t) <==> s == t
  {
    UnLEInjective(s, t);
  }

  // ---- int8_t (missing-reason codes) -----------------------------------------

  function EncodeI8(x: int): (r: byte)
    requires IsI8(x)
    ensures (x < 0) == (r >= 128)
  {
    if x < 0 then x + 256 else x
  }

  function DecodeI8(b: byte): (x: int)
    ensures IsI8(x) && (x < 0) == (b >= 128)
  {
    if b >= 128 then b - 256 else b
  }

  lemma I8RoundTrip(x: int)
    requires IsI8(x)
    ensures DecodeI8(EncodeI8(x)) == x
  {
  }

  // ---- writing into a buffer -------------------------------------------------

  /** Copies `bytes` into `buf` at `p`, as the pointer writes and memcpy calls do. */
  method Put(buf: array<byte>, p: nat, bytes: seq<byte>) returns (q: nat)
    requires p + |bytes| <= buf.Length
    modifies buf
    ensures q == p + |bytes|
    ensures buf[..] == old(buf[..p]) + bytes + old(buf[q..])
  {
    var k := 0;
    while k < |bytes|
      invariant 0 <= k <= |bytes|
      invariant buf[..] == old(buf[..p]) + bytes[..k] + old(buf[p + k..])
    {
      buf[p + k] := bytes[k];
      k := k + 1;
    }
    q := p + |bytes|;
  }

  /** `Put` of `x` right after the bytes `w` already written over `orig` from `p`:
      the written run grows by `x`. */
  method PutAfter(buf: array<byte>, ghost orig: seq<byte>, p: nat, ghost w: seq<byte>, q: nat, x: seq<byte>)
    returns (q': nat)
    requires q == p + |w| && q + |x| <= |orig| == buf.Length
    requires buf[..] == orig[..p] + w + orig[q..]
    modifies buf
    ensures q' == q + |x|
    ensures buf[..] == orig[..p] + (w + x) + orig[q'..]
  {
    ghost var cur := buf[..];
    q' := Put(buf, q, x);
    AppendAfterWritten(orig, p, w, cur, x, buf[..]);
  }

  /** Where `w` sits in `blob` from `p` on, so does every piece of `w`. */
  lemma SubWindow(blob: seq<byte>, p: nat, w: seq<byte>, a: nat, b: nat)
    requires p + |w| <= |blob| && blob[p .. p + |w|] == w && a <= b <= |w|
    ensures blob[p + a .. p + b] == w[a .. b]
  {
    forall i | 0 <= i < b - a
      ensures blob[p + a .. p + b][i] == w[a .. b][i]
    {
      assert blob[p .. p + |w|][a + i] == blob[p + a + i];
    }
  }

  /** Where `h + t` sits in `blob` from `p` on, `h` sits at `p` and `t` right after it,
      from `q`. */
  lemma SplitWindow(blob: seq<byte>, p: nat, h: seq<byte>, t: seq<byte>, q: nat)
    requires q == p + |h| && q + |t| <= |blob| && blob[p .. q + |t|] == h + t
    ensures blob[p .. q] == h && blob[q .. q + |t|] == t
  {
    SubWindow(blob, p, h + t, 0, |h|);
    assert (h + t)[..|h|] == h;
    SubWindow(blob, p, h + t, |h|, |h| + |t|);
    assert (h + t)[|h|..] == t;
  }

  /** Writing `x` right after the bytes `w` already written at `p` extends them. */
  lemma AppendAfterWritten(orig: seq<byte>, p: nat, w: seq<byte>, cur: seq<byte>, x: seq<byte>, next: seq<byte>)
    requires p + |w| + |x| <= |orig|
    requires cur == orig[..p] + w + orig[p + |w|..]
    requires next == cur[..p + |w|] + x + cur[p + |w| + |x|..]
    ensures next == orig[..p] + (w + x) + orig[p + |w| + |x|..]
  {
    assert cur[..p + |w|] == orig[..p] + w;
    assert cur[p + |w| + |x|..] == orig[p + |w| + |x|..];
  }
}
