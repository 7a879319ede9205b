/** Values as the host database passes them to the plugin's functions, and the
    errors the plugin raises. */
module Common {
  import opened Bytes

  /** A host value: either null with a missing-reason code (0..127), or present. */
  datatype Nullable<+T> = Null(reason: int) | Present(item: T) {
    predicate IsNull() { Null? }
  }

  /** An attribute value or a binary blob (a tuple or a tuple address). */
  type Value = Nullable<seq<byte>>

  predicate ValidReason(reason: int) { 0 <= reason < 128 }

  /** The exceptions the plugin throws; each aborts the query. */
  datatype Error =
    | ZeroSizedAddress          // "zero-sized address provided"
    | ImproperlySizedAddress    // "improperly sized address provided"
    | ImproperString            // "improper string provided"
    | BadLexicalCast            // a token that is not a number of the target type
    | NullInput                 // "... don't call me on null inputs"
    | UnevenAddresses           // "... don't call me on uneven addresses"
    | MalformedTupleComparison  // "malformed tuple comparison"
    | InternalInconsistency     // "Internal inconsistency" / "internal inconsistency"
    | DataCollision             // "Data collision"
    | RedimensionError1         // destination schema has no empty bitmap
    | WrongAttributeType        // same-named attributes of different types
    | WrongAttributeFlags       // nullable source into non-nullable destination
    | WrongDestinationAttributeType  // attribute from a dimension that is not int64
    | UnexpectedDestinationAttribute // destination attribute with no source
    | OverlapCantBeLargerChunk  // chunk overlap larger than chunk interval
    | WrongSourceAttributeType  // dimension from a non-integral or uint64 attribute
    | NoExtraneousDimensions    // "no extraneous dimensions allowed"

  datatype Option<+T> = None | Some(value: T)

  datatype Result<+T> = Ok(value: T) | Err(error: Error) {
    predicate IsFailure() { Err? }
    function PropagateFailure<U>(): Result<U>
      requires Err?
    {
      Err(error)
    }
    function Extract(): T
      requires Ok?
    {
      value
    }
  }
}
