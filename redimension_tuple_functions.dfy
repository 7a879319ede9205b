/** The scalar functions RedimensionTuple.cpp registers for the `redimension_tuple`
    type: the default constructor and the checked `<` and `=`, which reject nulls and
    empty values and otherwise hand both operands to RedimensionTuple. */
module RedimensionTupleFunctions {
  import opened Bytes
  import opened Common
  import opened Coordinates
  import RT = RedimensionTuple

  /** The registered default constructor: a null value. */
  function DefaultRedimTuple(): (r: Value)
    ensures r.Null? && ValidReason(r.reason)
  {
    Null(0)
  }

  /** The argument checks both wrappers make, in their order: nulls first, then an
      empty operand. The sizes are not compared with each other. */
  function CheckArgs(a: Value, b: Value): (r: Option<Error>)
    ensures r == Some(NullInput) <==> a.Null? || b.Null?
    ensures r == Some(UnevenAddresses) <==> a.Present? && b.Present? && (|a.item| == 0 || |b.item| == 0)
    ensures r.None? <==> a.Present? && b.Present? && |a.item| > 0 && |b.item| > 0
  {
    if a.Null? || b.Null? then Some(NullInput)
    else if |a.item| == 0 || |b.item| == 0 then Some(UnevenAddresses)
    else None
  }

  /** What `redimTupleLess` reads once the checks pass. */
  predicate LessDefined(a: Value, b: Value) {
    CheckArgs(a, b).None? ==> RT.Comparable(a.item, b.item)
  }

  /** The registered `<`. */
  function RedimTupleLessThan(a: Value, b: Value): (r: Result<bool>)
    requires LessDefined(a, b)
    ensures CheckArgs(a, b).Some? ==> r == Err(CheckArgs(a, b).value)
    ensures CheckArgs(a, b).None? ==> r == RT.RedimTupleLess(a.item, b.item)
  {
    match CheckArgs(a, b)
    case Some(e) => Err(e)
    case None => RT.RedimTupleLess(a.item, b.item)
  }

  /** What `redimTupleEqual` reads once the checks pass: the key of the left operand
      and as many bytes of the right one. */
  predicate EqualDefined(a: Value, b: Value) {
    CheckArgs(a, b).None? ==> RT.Readable(a.item) && |b.item| >= RT.KeyLen(a.item[0])
  }

  /** The registered `=`. */
  function RedimTupleEqualThan(a: Value, b: Value): (r: Result<bool>)
    requires EqualDefined(a, b)
    ensures CheckArgs(a, b).Some? ==> r == Err(CheckArgs(a, b).value)
    ensures CheckArgs(a, b).None? ==> r == Ok(RT.RedimTupleEqual(a.item, b.item))
  {
    match CheckArgs(a, b)
    case Some(e) => Err(e)
    case None => Ok(RT.RedimTupleEqual(a.item, b.item))
  }

  // ---- lemmas --------------------------------------------------------------------

  /** The checked `<` fails exactly on a null operand, an empty operand, or two
      tuples of different dimension counts, and names which. */
  lemma LessThanFailures(a: Value, b: Value)
    requires LessDefined(a, b)
    ensures RedimTupleLessThan(a, b).Err? <==>
            a.Null? || b.Null? || |a.item| == 0 || |b.item| == 0 || a.item[0] != b.item[0]
    ensures RedimTupleLessThan(a, b) == Err(MalformedTupleComparison) <==>
            a.Present? && b.Present? && |a.item| > 0 && |b.item| > 0 && a.item[0] != b.item[0]
  {
  }

  /** Tuples of one dimension count that differ only in their attribute bytes, and so
      in their sizes, pass the checks: `=` holds of them and `<` in neither direction. */
  lemma UnequalSizesAccepted(left: seq<byte>, right: seq<byte>)
    requires RT.Readable(left) && RT.Readable(right) && left[0] == right[0]
    requires left[..RT.KeyLen(left[0])] == right[..RT.KeyLen(left[0])]
    ensures EqualDefined(Present(left), Present(right))
    ensures RedimTupleEqualThan(Present(left), Present(right)) == Ok(true)
    ensures LessDefined(Present(left), Present(right)) && LessDefined(Present(right), Present(left))
    ensures RedimTupleLessThan(Present(left), Present(right)) == Ok(false)
    ensures RedimTupleLessThan(Present(right), Present(left)) == Ok(false)
  {
    RT.EqualNeverLess(left, right);
  }

  /** On well-formed tuples of one dimension count the checked operators never err:
      `<` is the key order and `=` is key equality. That the key order is a strict
      total order is Coordinates.KeyLessTransitive and Coordinates.KeyLessTrichotomy. */
  lemma LessThanOrdersKeys(left: seq<byte>, right: seq<byte>)
    requires RT.Readable(left) && RT.Readable(right) && left[0] == right[0]
    ensures LessDefined(Present(left), Present(right)) && EqualDefined(Present(left), Present(right))
    ensures RedimTupleLessThan(Present(left), Present(right)) == Ok(KeyLess(RT.KeyOf(left), RT.KeyOf(right)))
    ensures RedimTupleEqualThan(Present(left), Present(right)) == Ok(RT.KeyOf(left) == RT.KeyOf(right))
  {
    RT.RedimTupleLessIsKeyLess(left, right);
    RT.RedimTupleEqualIsKeyEqual(left, right);
  }
}
