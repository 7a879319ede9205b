/** `PhysicalFasterRedimension::globalMerge` (PhysicalFasterRedimension.cpp): on one
    destination instance, a k-way merge of the sorted tuple streams every source
    instance sent it. The redistributed tupled array holds, for source instance `src`,
    chunks at positions (0, dst, src), (chunkSize, dst, src), (2·chunkSize, dst, src), …;
    the merge keeps one cursor per source, repeatedly writes the smallest current
    tuple under `redimTupleLess` and steps that cursor, seeking the source's next
    chunk when the current one is used up and closing the cursor when there is none. */
module GlobalMerging {
  import opened Bytes
  import opened Common
  import opened Coordinates
  import RT = RedimensionTuple

  type Tuple = seq<byte>

  /** The redistributed tupled array as seen from instance `dst`: `chunks[src]` lists
      the chunks source `src` sent, in value_no order. */
  datatype Store = Store(dst: int, chunkSize: nat, chunks: seq<seq<seq<Tuple>>>)

  /** A source's chunk iterator: closed (reset), or open on a chunk at a cell. */
  datatype Cursor = Closed | Open(chunk: seq<Tuple>, cell: nat)

  /** Every tuple of the tupled array has the same nDims and a readable key. */
  predicate Uniform(t: Tuple, nDims: nat) {
    RT.Readable(t) && t[0] == nDims
  }

  /** What the merge relies on: a positive chunk size (the value_no step), no empty
      stored chunk, and tuples of one dimensionality. */
  predicate WellFormedStore(s: Store, nDims: nat) {
    s.chunkSize > 0 &&
    (forall i, k :: 0 <= i < |s.chunks| && 0 <= k < |s.chunks[i]| ==> |s.chunks[i][k]| > 0) &&
    (forall i, k, j :: 0 <= i < |s.chunks| && 0 <= k < |s.chunks[i]| && 0 <= j < |s.chunks[i][k]| ==>
       Uniform(s.chunks[i][k][j], nDims))
  }

  function Flatten<T>(ss: seq<seq<T>>): (r: seq<T>)
    ensures |ss| == 0 ==> r == []
  {
    if |ss| == 0 then [] else ss[0] + Flatten(ss[1..])
  }

  /** Every tuple the sources sent, source by source. */
  function AllTuples(s: Store): seq<Tuple> {
    Flatten(seq(|s.chunks|, i requires 0 <= i < |s.chunks| => Flatten(s.chunks[i])))
  }

  /** `redimTupleLess(a, b)` holds (and does not throw). */
  predicate Precedes(a: Tuple, b: Tuple) {
    RT.Comparable(a, b) && RT.RedimTupleLess(a, b) == Ok(true)
  }

  /** Each tuple is not below its predecessor. */
  predicate Sorted(ts: seq<Tuple>) {
    forall i :: 0 < i < |ts| ==> !Precedes(ts[i], ts[i - 1])
  }

  /** What the sort before the merge provides: every source's stream is sorted. */
  predicate StreamsSorted(s: Store) {
    forall i :: 0 <= i < |s.chunks| ==> Sorted(Flatten(s.chunks[i]))
  }

  // ---- seeking a chunk ----------------------------------------------------------------

  /** The chunk stored at value_no `valueNo` among chunks at 0, chunkSize, 2·chunkSize, … */
  function ChunkAtValue(cs: seq<seq<Tuple>>, valueNo: int, chunkSize: nat): Option<seq<Tuple>>
    requires chunkSize > 0
    decreases |cs|
  {
    if |cs| == 0 || valueNo < 0 then None
    else if valueNo == 0 then Some(cs[0])
    else ChunkAtValue(cs[1..], valueNo - chunkSize, chunkSize)
  }

  /** `setPosition(pos)` on the tupled array: the chunk at `pos`, if one is stored. */
  function SetPosition(s: Store, pos: seq<int>): Option<seq<Tuple>>
    requires |pos| == 3 && s.chunkSize > 0
  {
    if pos[1] == s.dst && 0 <= pos[2] < |s.chunks| then ChunkAtValue(s.chunks[pos[2]], pos[0], s.chunkSize) else None
  }

  /** Seeking value_no `k·chunkSize` finds the `k`-th chunk, or nothing past the last. */
  lemma {:induction false} ChunkAtValueIndex(cs: seq<seq<Tuple>>, k: nat, chunkSize: nat)
    requires chunkSize > 0
    ensures ChunkAtValue(cs, k * chunkSize, chunkSize) == if k < |cs| then Some(cs[k]) else None
  {
    if |cs| > 0 && k > 0 {
      assert k * chunkSize - chunkSize == (k - 1) * chunkSize;
      ChunkAtValueIndex(cs[1..], k - 1, chunkSize);
    }
  }

  // ---- cursors ------------------------------------------------------------------------

  function Head(c: Cursor): Tuple
    requires c.Open? && c.cell < |c.chunk|
  {
    c.chunk[c.cell]
  }

  /** Every open cursor stands on a tuple of dimensionality `nDims`. */
  predicate HeadsUniform(citers: seq<Cursor>, nDims: nat) {
    forall i :: 0 <= i < |citers| && citers[i].Open? ==>
      citers[i].cell < |citers[i].chunk| && Uniform(Head(citers[i]), nDims)
  }

  /** The number of closed cursors. */
  function ClosedCount(citers: seq<Cursor>): (n: nat)
    ensures n <= |citers|
  {
    if |citers| == 0 then 0
    else ClosedCount(citers[..|citers| - 1]) + (if citers[|citers| - 1].Closed? then 1 else 0)
  }

  /** Source `i`'s cursor is on its `k`-th chunk, at value_no `k·chunkSize`, and is
      closed exactly when `k` is past the last chunk. */
  predicate CursorAt(s: Store, i: nat, pos: seq<int>, c: Cursor, k: nat)
    requires i < |s.chunks|
  {
    pos == [k * s.chunkSize, s.dst, i] && k <= |s.chunks[i]| &&
    (c.Closed? <==> k == |s.chunks[i]|) &&
    (c.Open? ==> c.chunk == s.chunks[i][k] && c.cell < |c.chunk|)
  }

  /** The tuples source `i` has yet to deliver. */
  function CursorRest(cs: seq<seq<Tuple>>, c: Cursor, k: nat): seq<Tuple> {
    if c.Open? && c.cell <= |c.chunk| && k < |cs| then c.chunk[c.cell..] + Flatten(cs[k + 1..]) else []
  }

  ghost function Rests(s: Store, citers: seq<Cursor>, ci: seq<nat>): seq<seq<Tuple>>
    requires |citers| == |ci| == |s.chunks|
  {
    seq(|s.chunks|, i requires 0 <= i < |s.chunks| => CursorRest(s.chunks[i], citers[i], ci[i]))
  }

  /** The merge's state: one cursor per source, `numClosed` of them closed. */
  ghost predicate Cursors(s: Store, positions: seq<seq<int>>, citers: seq<Cursor>, ci: seq<nat>, numClosed: nat) {
    |positions| == |citers| == |ci| == |s.chunks| &&
    (forall i :: 0 <= i < |s.chunks| ==> CursorAt(s, i, positions[i], citers[i], ci[i])) &&
    numClosed == ClosedCount(citers)
  }

  // ---- lemmas: the order on uniform tuples ---------------------------------------------

  /** On tuples of one dimensionality `redimTupleLess` is the key order. */
  lemma PrecedesIsKeyLess(a: Tuple, b: Tuple, nDims: nat)
    requires Uniform(a, nDims) && Uniform(b, nDims)
    ensures Precedes(a, b) <==> KeyLess(RT.KeyOf(a), RT.KeyOf(b))
  {
    RT.RedimTupleLessIsKeyLess(a, b);
  }

  /** A tuple below the minimum so far is below every tuple not below that minimum. */
  lemma BelowMinimum(t: Tuple, m: Tuple, h: Tuple, nDims: nat)
    requires Uniform(t, nDims) && Uniform(m, nDims) && Uniform(h, nDims)
    requires Precedes(t, m) && !Precedes(h, m)
    ensures Precedes(t, h) && !Precedes(h, t)
  {
    PrecedesIsKeyLess(t, m, nDims);
    PrecedesIsKeyLess(h, m, nDims);
    PrecedesIsKeyLess(t, h, nDims);
    PrecedesIsKeyLess(h, t, nDims);
    PrecedesIsKeyLess(m, h, nDims);
    KeyLessTrichotomy(RT.KeyOf(h), RT.KeyOf(m));
    if KeyLess(RT.KeyOf(m), RT.KeyOf(h)) {
      KeyLessTransitive(RT.KeyOf(t), RT.KeyOf(m), RT.KeyOf(h));
    }
    KeyLessAsymmetric(RT.KeyOf(t), RT.KeyOf(h));
  }

  /** "Not below" is transitive. */
  lemma NotBelowTransitive(a: Tuple, b: Tuple, c: Tuple, nDims: nat)
    requires Uniform(a, nDims) && Uniform(b, nDims) && Uniform(c, nDims)
    requires !Precedes(b, a) && !Precedes(c, b)
    ensures !Precedes(c, a)
  {
    PrecedesIsKeyLess(b, a, nDims);
    PrecedesIsKeyLess(c, b, nDims);
    PrecedesIsKeyLess(c, a, nDims);
    KeyLessTrichotomy(RT.KeyOf(a), RT.KeyOf(b));
    if KeyLess(RT.KeyOf(c), RT.KeyOf(a)) && KeyLess(RT.KeyOf(a), RT.KeyOf(b)) {
      KeyLessTransitive(RT.KeyOf(c), RT.KeyOf(a), RT.KeyOf(b));
    }
  }

  /** Each tuple not below its predecessor makes the whole sequence ordered: no tuple
      is below any earlier one. */
  lemma {:induction false} SortedPairwise(ts: seq<Tuple>, nDims: nat)
    requires Sorted(ts) && forall j :: 0 <= j < |ts| ==> Uniform(ts[j], nDims)
    ensures forall i, j :: 0 <= i < j < |ts| ==> !Precedes(ts[j], ts[i])
  {
    if |ts| > 1 {
      var n := |ts|;
      var front := ts[..n - 1];
      assert Sorted(front) by {
        forall i | 0 < i < n - 1
          ensures !Precedes(front[i], front[i - 1])
        {
          assert front[i] == ts[i] && front[i - 1] == ts[i - 1];
        }
      }
      SortedPairwise(front, nDims);
      forall i, j | 0 <= i < j < n
        ensures !Precedes(ts[j], ts[i])
      {
        if j < n - 1 {
          assert front[i] == ts[i] && front[j] == ts[j];
        } else if i < n - 2 {
          assert front[i] == ts[i] && front[n - 2] == ts[n - 2];
          NotBelowTransitive(ts[i], ts[n - 2], ts[n - 1], nDims);
        }
      }
    }
  }

  // ---- choosing the minimum --------------------------------------------------------------

  /** The inner loop of the merge: the open cursor whose tuple is minimal under
      `redimTupleLess`. Only a strictly smaller tuple replaces the minimum, so among
      equal tuples the lowest source index wins. */
  method PickMin(citers: seq<Cursor>, ghost nDims: nat) returns (toAdvance: nat)
    requires HeadsUniform(citers, nDims)
    requires exists i :: 0 <= i < |citers| && citers[i].Open?
    ensures toAdvance < |citers| && citers[toAdvance].Open?
    ensures forall i :: 0 <= i < |citers| && citers[i].Open? ==> !Precedes(Head(citers[i]), Head(citers[toAdvance]))
    ensures forall i :: 0 <= i < toAdvance && citers[i].Open? ==> Precedes(Head(citers[toAdvance]), Head(citers[i]))
  {
    var minTuple: Option<Tuple> := None;
    toAdvance := 0;
    for inst := 0 to |citers|
      invariant minTuple.None? ==> forall i :: 0 <= i < inst ==> citers[i].Closed?
      invariant minTuple.Some? ==> toAdvance < inst && citers[toAdvance].Open? && minTuple.value == Head(citers[toAdvance])
      invariant minTuple.Some? ==> forall i :: 0 <= i < inst && citers[i].Open? ==> !Precedes(Head(citers[i]), minTuple.value)
      invariant minTuple.Some? ==> forall i :: 0 <= i < toAdvance && citers[i].Open? ==> Precedes(minTuple.value, Head(citers[i]))
    {
      if citers[inst].Closed? {
        continue;
      }
      var tuple := Head(citers[inst]);
      if minTuple.None? || RT.RedimTupleLess(tuple, minTuple.value) == Ok(true) {
        if minTuple.Some? {
          var m := minTuple.value;
          forall i | 0 <= i < inst && citers[i].Open?
            ensures !Precedes(Head(citers[i]), tuple) && (Precedes(tuple, Head(citers[i])))
          {
            BelowMinimum(tuple, m, Head(citers[i]), nDims);
          }
          PrecedesIsKeyLess(tuple, tuple, nDims);
          KeyLessIrreflexive(RT.KeyOf(tuple));
        } else {
          PrecedesIsKeyLess(tuple, tuple, nDims);
          KeyLessIrreflexive(RT.KeyOf(tuple));
        }
        minTuple := Some(tuple);
        toAdvance := inst;
      }
    }
  }

  // ---- stepping a cursor -------------------------------------------------------------------

  /** One source's cursor steps: `++` on its chunk iterator and, when the chunk is used
      up, the seek to value_no + chunkSize, closing on a missing chunk. The cursor's
      rest loses its first tuple. */
  method StepCursor(s: Store, ghost nDims: nat, t: nat, pos: seq<int>, c: Cursor, ghost k: nat)
    returns (pos': seq<int>, c': Cursor, ghost k': nat)
    requires WellFormedStore(s, nDims) && t < |s.chunks| && CursorAt(s, t, pos, c, k) && c.Open?
    ensures CursorAt(s, t, pos', c', k')
    ensures CursorRest(s.chunks[t], c', k') == CursorRest(s.chunks[t], c, k)[1..]
  {
    var cs := s.chunks[t];
    var cell := c.cell + 1;
    pos', c', k' := pos, c, k;
    if cell < |c.chunk| {
      c' := Open(c.chunk, cell);
      assert c.chunk[cell..] == c.chunk[c.cell..][1..];
    } else {
      pos' := pos[0 := pos[0] + s.chunkSize];
      assert pos' == [(k + 1) * s.chunkSize, s.dst, t];
      k' := k + 1;
      var next := SetPosition(s, pos');
      ChunkAtValueIndex(cs, k + 1, s.chunkSize);
      if next.None? {
        c' := Closed;
        assert cs[k + 1..] == [];
      } else {
        c' := Open(next.value, 0);
        assert cs[k + 1..] == [cs[k + 1]] + cs[k + 2..];
      }
      assert c.chunk[c.cell..] == [c.chunk[c.cell]];
    }
  }

  /** The step of the chosen cursor within the merge's state, with the closed count
      kept up to date. */
  method AdvanceCursor(s: Store, ghost nDims: nat, positions: seq<seq<int>>, citers: seq<Cursor>, numClosed: nat,
                       t: nat, ghost ci: seq<nat>)
    returns (positions': seq<seq<int>>, citers': seq<Cursor>, numClosed': nat, ghost ci': seq<nat>)
    requires WellFormedStore(s, nDims) && Cursors(s, positions, citers, ci, numClosed)
    requires t < |citers| && citers[t].Open?
    ensures Cursors(s, positions', citers', ci', numClosed')
    ensures forall i :: 0 <= i < |citers| && i != t ==> citers'[i] == citers[i] && ci'[i] == ci[i]
    ensures CursorRest(s.chunks[t], citers'[t], ci'[t]) == CursorRest(s.chunks[t], citers[t], ci[t])[1..]
  {
    assert CursorAt(s, t, positions[t], citers[t], ci[t]);
    var p, c, k := StepCursor(s, nDims, t, positions[t], citers[t], ci[t]);
    positions' := positions[t := p];
    citers' := citers[t := c];
    ci' := ci[t := k];
    numClosed' := if c.Closed? then numClosed + 1 else numClosed;
    ClosedCountUpdate(citers, t, c);
    forall i | 0 <= i < |s.chunks|
      ensures CursorAt(s, i, positions'[i], citers'[i], ci'[i])
    {
      if i != t {
        assert CursorAt(s, i, positions[i], citers[i], ci[i]);
      }
    }
  }

  // ---- lemmas: counting and flattening ---------------------------------------------------

  lemma {:induction false} ClosedCountUpdate(citers: seq<Cursor>, t: nat, x: Cursor)
    requires t < |citers|
    ensures ClosedCount(citers[t := x]) ==
            ClosedCount(citers) - (if citers[t].Closed? then 1 else 0) + (if x.Closed? then 1 else 0)
    decreases |citers|
  {
    var n := |citers|;
    var u := citers[t := x];
    if t < n - 1 {
      assert u[..n - 1] == citers[..n - 1][t := x];
      ClosedCountUpdate(citers[..n - 1], t, x);
    } else {
      assert u[..n - 1] == citers[..n - 1];
    }
  }

  /** The merge loop runs while some cursor is open. */
  lemma {:induction false} SomeOpen(citers: seq<Cursor>)
    requires ClosedCount(citers) < |citers|
    ensures exists i :: 0 <= i < |citers| && citers[i].Open?
  {
    var n := |citers|;
    if citers[n - 1].Closed? {
      SomeOpen(citers[..n - 1]);
      var i :| 0 <= i < n - 1 && citers[..n - 1][i].Open?;
      assert citers[i].Open?;
    }
  }

  /** When the loop ends every cursor is closed. */
  lemma {:induction false} AllClosed(citers: seq<Cursor>)
    requires ClosedCount(citers) == |citers|
    ensures forall i :: 0 <= i < |citers| ==> citers[i].Closed?
  {
    var n := |citers|;
    if n > 0 {
      AllClosed(citers[..n - 1]);
      assert forall i :: 0 <= i < n - 1 ==> citers[..n - 1][i] == citers[i];
    }
  }

  lemma {:induction false} FlattenEmpty<T>(ss: seq<seq<T>>)
    requires forall i :: 0 <= i < |ss| ==> ss[i] == []
    ensures Flatten(ss) == []
  {
    if |ss| > 0 {
      FlattenEmpty(ss[1..]);
    }
  }

  /** Taking the first tuple off one stream takes it off the whole. */
  lemma {:induction false} FlattenDropFirst<T>(ss: seq<seq<T>>, t: nat)
    requires t < |ss| && |ss[t]| > 0
    ensures multiset(Flatten(ss)) == multiset(Flatten(ss[t := ss[t][1..]])) + multiset{ss[t][0]}
    ensures |Flatten(ss)| == |Flatten(ss[t := ss[t][1..]])| + 1
  {
    var u := ss[t := ss[t][1..]];
    if t == 0 {
      assert u[1..] == ss[1..];
      assert ss[0] == [ss[0][0]] + ss[0][1..];
    } else {
      assert u[1..] == ss[1..][t - 1 := ss[1..][t - 1][1..]];
      FlattenDropFirst(ss[1..], t - 1);
    }
  }

  /** A sorted stream stays sorted when its first tuple is taken. */
  lemma SortedTail(ts: seq<Tuple>)
    requires Sorted(ts) && |ts| > 0
    ensures Sorted(ts[1..])
  {
    assert forall i :: 0 < i < |ts| - 1 ==> ts[1..][i] == ts[i + 1] && ts[1..][i - 1] == ts[i];
  }

  /** Before the first step every source delivers its whole stream. */
  lemma InitialRests(s: Store, citers: seq<Cursor>)
    requires |citers| == |s.chunks|
    requires forall i :: 0 <= i < |s.chunks| ==> citers[i] == (if |s.chunks[i]| > 0 then Open(s.chunks[i][0], 0) else Closed)
    ensures Rests(s, citers, seq(|s.chunks|, i => 0)) == seq(|s.chunks|, i requires 0 <= i < |s.chunks| => Flatten(s.chunks[i]))
  {
    forall i | 0 <= i < |s.chunks|
      ensures CursorRest(s.chunks[i], citers[i], 0) == Flatten(s.chunks[i])
    {
      if |s.chunks[i]| > 0 {
        assert s.chunks[i][0][0..] == s.chunks[i][0];
      }
    }
  }

  // ---- the merge ---------------------------------------------------------------------------

  /** The open flags of the cursors. */
  function OpenFlags(citers: seq<Cursor>): (r: seq<bool>)
    ensures |r| == |citers| && forall i :: 0 <= i < |citers| ==> r[i] == citers[i].Open?
  {
    seq(|citers|, i requires 0 <= i < |citers| => citers[i].Open?)
  }

  /** The tuples the open cursors stand on. */
  function Heads(citers: seq<Cursor>): (r: seq<Tuple>)
    ensures |r| == |citers|
    ensures forall i :: 0 <= i < |citers| && citers[i].Open? && citers[i].cell < |citers[i].chunk| ==> r[i] == Head(citers[i])
  {
    seq(|citers|, i requires 0 <= i < |citers| =>
      if citers[i].Open? && citers[i].cell < |citers[i].chunk| then Head(citers[i]) else [])
  }

  /** A cursor is open exactly when its source has tuples left, and then it stands on
      the first of them. */
  predicate Shaped(rests: seq<seq<Tuple>>, open: seq<bool>, heads: seq<Tuple>) {
    |rests| == |open| == |heads| &&
    forall i :: 0 <= i < |rests| ==> (open[i] <==> |rests[i]| > 0) && (open[i] ==> rests[i][0] == heads[i])
  }

  /** The merge loop's invariant, on values: what is written plus what is left is
      every tuple, and, when the streams are sorted, the output is sorted, each rest is
      sorted and no open cursor is below the last tuple written. */
  predicate MergeFacts(all: seq<Tuple>, rests: seq<seq<Tuple>>, open: seq<bool>, heads: seq<Tuple>, out: seq<Tuple>,
                       sorted: bool)
    requires Shaped(rests, open, heads)
  {
    multiset(out) + multiset(Flatten(rests)) == multiset(all) &&
    (sorted ==>
       Sorted(out) &&
       (forall i :: 0 <= i < |rests| ==> Sorted(rests[i])) &&
       (|out| > 0 ==> forall i :: 0 <= i < |rests| && open[i] ==> !Precedes(heads[i], out[|out| - 1])))
  }

  /** Writing the minimal current tuple and stepping its cursor keeps the invariant and
      shrinks what is left. */
  lemma FactsStep(all: seq<Tuple>, before: seq<seq<Tuple>>, open: seq<bool>, heads: seq<Tuple>,
                  after: seq<seq<Tuple>>, open2: seq<bool>, heads2: seq<Tuple>, out: seq<Tuple>, t: nat, sorted: bool)
    requires Shaped(before, open, heads) && Shaped(after, open2, heads2) && t < |before| && open[t]
    requires after == before[t := before[t][1..]]
    requires MergeFacts(all, before, open, heads, out, sorted)
    requires forall i :: 0 <= i < |before| && open[i] ==> !Precedes(heads[i], heads[t])
    ensures MergeFacts(all, after, open2, heads2, out + [heads[t]], sorted)
    ensures |Flatten(after)| < |Flatten(before)|
  {
    FlattenDropFirst(before, t);
    assert multiset(out + [heads[t]]) == multiset(out) + multiset{heads[t]};
    if sorted {
      SortedStep(before, open, heads, after, open2, heads2, out, t);
    }
  }

  /** When the streams are sorted, writing the minimum keeps the output sorted and
      below every cursor. */
  lemma SortedStep(before: seq<seq<Tuple>>, open: seq<bool>, heads: seq<Tuple>,
                   after: seq<seq<Tuple>>, open2: seq<bool>, heads2: seq<Tuple>, out: seq<Tuple>, t: nat)
    requires Shaped(before, open, heads) && Shaped(after, open2, heads2) && t < |before| && open[t]
    requires after == before[t := before[t][1..]]
    requires forall i :: 0 <= i < |before| ==> Sorted(before[i])
    requires Sorted(out)
    requires |out| > 0 ==> forall i :: 0 <= i < |before| && open[i] ==> !Precedes(heads[i], out[|out| - 1])
    requires forall i :: 0 <= i < |before| && open[i] ==> !Precedes(heads[i], heads[t])
    ensures Sorted(out + [heads[t]])
    ensures forall i :: 0 <= i < |after| ==> Sorted(after[i])
    ensures forall i :: 0 <= i < |after| && open2[i] ==> !Precedes(heads2[i], heads[t])
  {
    var m := heads[t];
    var out2 := out + [m];
    SortedTail(before[t]);
    forall j | 0 < j < |out2|
      ensures !Precedes(out2[j], out2[j - 1])
    {
      if j < |out| {
        assert out2[j] == out[j] && out2[j - 1] == out[j - 1];
      }
    }
    forall i | 0 <= i < |after| && open2[i]
      ensures !Precedes(heads2[i], m)
    {
      if i == t {
        assert heads2[t] == before[t][1];
      } else {
        assert after[i] == before[i];
      }
    }
  }

  /** The cursors' view of the store is shaped. */
  lemma RestsShape(s: Store, positions: seq<seq<int>>, citers: seq<Cursor>, ci: seq<nat>, numClosed: nat)
    requires Cursors(s, positions, citers, ci, numClosed)
    ensures Shaped(Rests(s, citers, ci), OpenFlags(citers), Heads(citers))
  {
    forall i | 0 <= i < |s.chunks|
      ensures citers[i].Open? ==> |Rests(s, citers, ci)[i]| > 0 && Rests(s, citers, ci)[i][0] == Heads(citers)[i]
    {
      assert CursorAt(s, i, positions[i], citers[i], ci[i]);
    }
  }

  /** One round of the merge loop takes the first tuple off the stepped source's rest
      and leaves the others alone. */
  lemma RestsUpdate(s: Store, citers: seq<Cursor>, ci: seq<nat>, citers2: seq<Cursor>, ci2: seq<nat>, t: nat)
    requires |citers| == |ci| == |citers2| == |ci2| == |s.chunks| && t < |s.chunks|
    requires forall i :: 0 <= i < |citers| && i != t ==> citers2[i] == citers[i] && ci2[i] == ci[i]
    requires |CursorRest(s.chunks[t], citers[t], ci[t])| > 0
    requires CursorRest(s.chunks[t], citers2[t], ci2[t]) == CursorRest(s.chunks[t], citers[t], ci[t])[1..]
    ensures Rests(s, citers2, ci2) == Rests(s, citers, ci)[t := Rests(s, citers, ci)[t][1..]]
  {
  }

  /** The merge loop's invariant on the cursors. */
  ghost predicate MergeInv(s: Store, positions: seq<seq<int>>, citers: seq<Cursor>, ci: seq<nat>, numClosed: nat,
                           out: seq<Tuple>)
  {
    Cursors(s, positions, citers, ci, numClosed) &&
    Shaped(Rests(s, citers, ci), OpenFlags(citers), Heads(citers)) &&
    MergeFacts(AllTuples(s), Rests(s, citers, ci), OpenFlags(citers), Heads(citers), out, StreamsSorted(s))
  }

  /** The cursors stand on tuples of the store. */
  lemma CursorsUniform(s: Store, nDims: nat, positions: seq<seq<int>>, citers: seq<Cursor>, ci: seq<nat>, numClosed: nat)
    requires WellFormedStore(s, nDims) && Cursors(s, positions, citers, ci, numClosed)
    ensures HeadsUniform(citers, nDims)
  {
    forall i | 0 <= i < |citers| && citers[i].Open?
      ensures citers[i].cell < |citers[i].chunk| && Uniform(Head(citers[i]), nDims)
    {
      assert CursorAt(s, i, positions[i], citers[i], ci[i]);
    }
  }

  /** One round of the merge loop, on the cursors. */
  lemma MergeStep(s: Store, nDims: nat, positions: seq<seq<int>>, citers: seq<Cursor>, ci: seq<nat>, numClosed: nat,
                  out: seq<Tuple>, t: nat,
                  positions2: seq<seq<int>>, citers2: seq<Cursor>, ci2: seq<nat>, numClosed2: nat)
    requires WellFormedStore(s, nDims) && MergeInv(s, positions, citers, ci, numClosed, out)
    requires Cursors(s, positions2, citers2, ci2, numClosed2)
    requires t < |citers| && citers[t].Open?
    requires forall i :: 0 <= i < |citers| && citers[i].Open? ==> !Precedes(Heads(citers)[i], Heads(citers)[t])
    requires forall i :: 0 <= i < |citers| && i != t ==> citers2[i] == citers[i] && ci2[i] == ci[i]
    requires |CursorRest(s.chunks[t], citers[t], ci[t])| > 0
    requires CursorRest(s.chunks[t], citers2[t], ci2[t]) == CursorRest(s.chunks[t], citers[t], ci[t])[1..]
    ensures MergeInv(s, positions2, citers2, ci2, numClosed2, out + [Heads(citers)[t]])
    ensures |Flatten(Rests(s, citers2, ci2))| < |Flatten(Rests(s, citers, ci))|
  {
    RestsShape(s, positions2, citers2, ci2, numClosed2);
    RestsUpdate(s, citers, ci, citers2, ci2, t);
    FactsStep(AllTuples(s), Rests(s, citers, ci), OpenFlags(citers), Heads(citers),
              Rests(s, citers2, ci2), OpenFlags(citers2), Heads(citers2), out, t, StreamsSorted(s));
  }

  /** The first loop of `globalMerge`: a cursor on every source's chunk at value_no 0,
      closed (and counted) when the source sent nothing. */
  method OpenCursors(s: Store, ghost nDims: nat) returns (positions: seq<seq<int>>, citers: seq<Cursor>, numClosed: nat, ghost ci: seq<nat>)
    requires WellFormedStore(s, nDims)
    ensures Cursors(s, positions, citers, ci, numClosed)
    ensures forall i :: 0 <= i < |s.chunks| ==> citers[i] == (if |s.chunks[i]| > 0 then Open(s.chunks[i][0], 0) else Closed)
    ensures ci == seq(|s.chunks|, i => 0)
  {
    positions := [];
    citers := [];
    numClosed := 0;
    for inst := 0 to |s.chunks|
      invariant Opened(s, positions, citers, numClosed, inst)
    {
      var pos := [0, s.dst, inst];
      var first := SetPosition(s, pos);
      ChunkAtValueIndex(s.chunks[inst], 0, s.chunkSize);
      OpenedStep(s, positions, citers, numClosed, inst);
      positions := positions + [pos];
      if first.None? {
        citers := citers + [Closed];
        numClosed := numClosed + 1;
      } else {
        citers := citers + [Open(first.value, 0)];
      }
    }
    ci := seq(|s.chunks|, i => 0);
    OpenedAll(s, nDims, positions, citers, numClosed, ci);
  }

  /** The first `inst` sources have their cursor opened on their first chunk. */
  ghost predicate Opened(s: Store, positions: seq<seq<int>>, citers: seq<Cursor>, numClosed: nat, inst: nat) {
    inst <= |s.chunks| && |positions| == |citers| == inst &&
    (forall i :: 0 <= i < inst ==> positions[i] == [0, s.dst, i]) &&
    (forall i :: 0 <= i < inst ==> citers[i] == (if |s.chunks[i]| > 0 then Open(s.chunks[i][0], 0) else Closed)) &&
    numClosed == ClosedCount(citers)
  }

  lemma OpenedStep(s: Store, positions: seq<seq<int>>, citers: seq<Cursor>, numClosed: nat, inst: nat)
    requires Opened(s, positions, citers, numClosed, inst) && inst < |s.chunks|
    ensures var c := if |s.chunks[inst]| > 0 then Open(s.chunks[inst][0], 0) else Closed;
            Opened(s, positions + [[0, s.dst, inst]], citers + [c], numClosed + (if c.Closed? then 1 else 0), inst + 1)
  {
    var c := if |s.chunks[inst]| > 0 then Open(s.chunks[inst][0], 0) else Closed;
    assert (citers + [c])[..inst] == citers;
  }

  lemma OpenedAll(s: Store, nDims: nat, positions: seq<seq<int>>, citers: seq<Cursor>, numClosed: nat, ci: seq<nat>)
    requires WellFormedStore(s, nDims)
    requires Opened(s, positions, citers, numClosed, |s.chunks|) && ci == seq(|s.chunks|, i => 0)
    ensures Cursors(s, positions, citers, ci, numClosed)
  {
    forall i | 0 <= i < |s.chunks|
      ensures CursorAt(s, i, positions[i], citers[i], ci[i])
    {
      assert ci[i] == 0 && 0 * s.chunkSize == 0;
      if |s.chunks[i]| > 0 {
        assert |s.chunks[i][0]| > 0;
      }
    }
  }

  /** One round of the merge loop: writes the minimal current tuple and steps the
      cursor it came from. */
  method MergeRound(s: Store, ghost nDims: nat, positions: seq<seq<int>>, citers: seq<Cursor>, numClosed: nat,
                    ghost ci: seq<nat>, out: seq<Tuple>)
    returns (positions2: seq<seq<int>>, citers2: seq<Cursor>, numClosed2: nat, ghost ci2: seq<nat>, out2: seq<Tuple>)
    requires WellFormedStore(s, nDims) && MergeInv(s, positions, citers, ci, numClosed, out)
    requires numClosed < |s.chunks|
    ensures MergeInv(s, positions2, citers2, ci2, numClosed2, out2)
    ensures |Flatten(Rests(s, citers2, ci2))| < |Flatten(Rests(s, citers, ci))|
  {
    CursorsUniform(s, nDims, positions, citers, ci, numClosed);
    SomeOpen(citers);
    var toAdvance := PickMin(citers, nDims);
    var minTuple := Head(citers[toAdvance]);
    out2 := out + [minTuple];
    positions2, citers2, numClosed2, ci2 := AdvanceCursor(s, nDims, positions, citers, numClosed, toAdvance, ci);
    MergeStep(s, nDims, positions, citers, ci, numClosed, out, toAdvance, positions2, citers2, ci2, numClosed2);
  }

  /** When every cursor is closed nothing is left. */
  lemma MergeDone(s: Store, positions: seq<seq<int>>, citers: seq<Cursor>, ci: seq<nat>, numClosed: nat, out: seq<Tuple>)
    requires MergeInv(s, positions, citers, ci, numClosed, out) && numClosed >= |s.chunks|
    ensures multiset(out) == multiset(AllTuples(s))
    ensures StreamsSorted(s) ==> Sorted(out)
  {
    AllClosed(citers);
    FlattenEmpty(Rests(s, citers, ci));
  }

  /** Before the first round nothing is written and every stream is whole. */
  lemma MergeStart(s: Store, positions: seq<seq<int>>, citers: seq<Cursor>, ci: seq<nat>, numClosed: nat)
    requires Cursors(s, positions, citers, ci, numClosed)
    requires forall i :: 0 <= i < |s.chunks| ==> citers[i] == (if |s.chunks[i]| > 0 then Open(s.chunks[i][0], 0) else Closed)
    requires ci == seq(|s.chunks|, i => 0)
    ensures MergeInv(s, positions, citers, ci, numClosed, [])
  {
    InitialRests(s, citers);
    RestsShape(s, positions, citers, ci, numClosed);
  }

  /** `globalMerge`: opens a cursor on every source's first chunk, then writes the
      minimal current tuple and steps its cursor until every cursor is closed. Every
      tuple sent is written exactly once, and the output is sorted when each source's
      stream is. */
  method GlobalMerge(s: Store, ghost nDims: nat) returns (out: seq<Tuple>)
    requires WellFormedStore(s, nDims)
    ensures multiset(out) == multiset(AllTuples(s)) && |out| == |AllTuples(s)|
    ensures StreamsSorted(s) ==> Sorted(out)
  {
    var numInstances := |s.chunks|;
    var positions: seq<seq<int>>, citers: seq<Cursor>, numClosed: nat;
    ghost var ci: seq<nat>;
    positions, citers, numClosed, ci := OpenCursors(s, nDims);
    out := [];
    MergeStart(s, positions, citers, ci, numClosed);
    while numClosed < numInstances
      invariant MergeInv(s, positions, citers, ci, numClosed, out)
      decreases |Flatten(Rests(s, citers, ci))|
    {
      positions, citers, numClosed, ci, out := MergeRound(s, nDims, positions, citers, numClosed, ci, out);
    }
    MergeDone(s, positions, citers, ci, numClosed, out);
    assert |multiset(out)| == |multiset(AllTuples(s))|;
  }
}
