/** The scalar functions TupleAddress.cpp registers for the `tuple_address` type:
    the default constructor, the conversions to and from text of the form
    `iid|c1|...|cn|pos`, and the checked `<` and `=`. */
module TupleAddressFunctions {
  import opened Bytes
  import opened Common
  import opened Coordinates
  import opened Text
  import TupleAddress

  /** The registered default constructor `tuple_address()`: a null value. */
  function DefaultTupleAddress(): (r: Value)
    ensures r.Null? && ValidReason(r.reason)
  {
    Null(0)
  }

  // ---- tuple_address_to_string ---------------------------------------------------

  /** The coordinates part of the text: each coordinate followed by `|`. */
  function CoordsText(cs: seq<int>): string {
    if |cs| == 0 then "" else FormatInt(cs[0]) + "|" + CoordsText(cs[1..])
  }

  /** An address the printer can walk: an instance id, a position, and whole 8-byte
      coordinates between them. */
  predicate Printable(blob: seq<byte>) { |blob| >= 12 && (|blob| - 4) % 8 == 0 }

  function PosBytes(blob: seq<byte>): seq<byte>
    requires Printable(blob)
  {
    blob[|blob| - 8..]
  }

  /** The text the printer produces: the instance, `|`, each coordinate and `|`, then
      the position read as `uint64_t`. */
  function AddressText(blob: seq<byte>): string
    requires Printable(blob)
  {
    FormatNat(TupleAddress.GetInstanceId(blob)) + "|" +
    CoordsText(CoordsAt(blob, 4, TupleAddress.NumCoords(|blob|))) +
    FormatNat(DecodeU64(PosBytes(blob)))
  }

  /** `(size - 4) % 8` in `size_t` arithmetic. Below 4 the subtraction wraps to
      size - 4 + 2^64; as 2^64 is a multiple of 8, the remainder is the Euclidean one. */
  function SizeCheck(size: nat): nat {
    (size - 4) % 8
  }

  /** The sizes the printer lets through but cannot walk: exactly 4, where the
      coordinate count `(4 - 4) / 8 - 1` wraps around to 2^64 - 1. */
  predicate PrintUndefined(input: Value) { input.Present? && |input.item| == 4 }

  /** What `tupleAddressToString` does, as written. */
  function ToStringSpec(input: Value): (r: Result<Nullable<string>>)
    requires !PrintUndefined(input)
  {
    if input.Null? then Ok(Null(input.reason))
    else if |input.item| == 0 then Err(ZeroSizedAddress)
    else if SizeCheck(|input.item|) != 0 then Err(ImproperlySizedAddress)
    else
      assert Printable(input.item);
      Ok(Present(AddressText(input.item)))
  }

  lemma {:induction false} CoordsTextSnoc(cs: seq<int>)
    requires |cs| > 0
    ensures CoordsText(cs) == CoordsText(cs[..|cs| - 1]) + FormatInt(cs[|cs| - 1]) + "|"
    decreases |cs|
  {
    if |cs| > 1 {
      CoordsTextSnoc(cs[1..]);
      assert cs[1..][..|cs| - 2] == cs[..|cs| - 1][1..];
    }
  }

  /** The printer with the missing check: a 4-byte value, which has an instance id but
      no position, is rejected as improperly sized instead of being walked. */
  function ToStringCorrected(input: Value): (r: Result<Nullable<string>>)
    ensures PrintUndefined(input) ==> r == Err(ImproperlySizedAddress)
    ensures !PrintUndefined(input) ==> r == ToStringSpec(input)
    ensures r.Ok? && input.Present? ==> r.value.Present? && Printable(input.item)
  {
    if PrintUndefined(input) then Err(ImproperlySizedAddress) else ToStringSpec(input)
  }

  /** `tupleAddressToString`: the size checks, then the text streamed field by field. */
  method TupleAddressToString(input: Value) returns (r: Result<Nullable<string>>)
    ensures r == ToStringCorrected(input)
  {
    if input.Null? {
      return Ok(Null(input.reason));
    }
    var blob := input.item;
    if |blob| == 0 {
      return Err(ZeroSizedAddress);
    }
    if SizeCheck(|blob|) != 0 || |blob| == 4 {
      return Err(ImproperlySizedAddress);
    }
    assert Printable(blob);
    var numCoords := (|blob| - 4) / 8 - 1;
    assert numCoords == TupleAddress.NumCoords(|blob|);
    assert blob[4 + 8 * numCoords .. 12 + 8 * numCoords] == PosBytes(blob);
    var output := FormatNat(DecodeU32(blob[0..4])) + "|";
    output := StreamCoords(output, blob, numCoords);
    output := output + FormatNat(DecodeU64(blob[4 + 8 * numCoords .. 12 + 8 * numCoords]));
    return Ok(Present(output));
  }

  /** The coordinate loop of `tupleAddressToString`: each coordinate and `|` appended. */
  method StreamCoords(output0: string, blob: seq<byte>, numCoords: nat) returns (output: string)
    requires 4 + 8 * numCoords <= |blob|
    ensures output == output0 + CoordsText(CoordsAt(blob, 4, numCoords))
  {
    ghost var cs := CoordsAt(blob, 4, numCoords);
    output := output0;
    var off := 4;
    for i := 0 to numCoords
      invariant off == 4 + 8 * i
      invariant output == output0 + CoordsText(cs[..i])
    {
      StreamStep(blob, numCoords, i);
      var field := FormatInt(DecodeI64(blob[off .. off + 8])) + "|";
      AppendAssoc(output0, CoordsText(cs[..i]), field);
      output := output + field;
      off := off + 8;
    }
    assert cs[..numCoords] == cs;
  }

  lemma StreamStep(blob: seq<byte>, n: nat, i: nat)
    requires 4 + 8 * n <= |blob| && i < n
    ensures var cs := CoordsAt(blob, 4, n);
            CoordsText(cs[..i + 1]) == CoordsText(cs[..i]) + (FormatInt(DecodeI64(blob[4 + 8 * i .. 12 + 8 * i])) + "|")
  {
    CoordsTextPrefix(CoordsAt(blob, 4, n), i);
    CoordsAtIndex(blob, n, i);
  }

  lemma CoordsTextPrefix(cs: seq<int>, i: nat)
    requires i < |cs|
    ensures CoordsText(cs[..i + 1]) == CoordsText(cs[..i]) + (FormatInt(cs[i]) + "|")
  {
    CoordsTextSnoc(cs[..i + 1]);
    assert cs[..i + 1][..i] == cs[..i];
  }

  lemma CoordsAtIndex(blob: seq<byte>, n: nat, i: nat)
    requires 4 + 8 * n <= |blob| && i < n
    ensures CoordsAt(blob, 4, n)[i] == DecodeI64(blob[4 + 8 * i .. 12 + 8 * i])
  {
  }

  // ---- string_to_tuple_address ---------------------------------------------------

  /** Each token cast to `int64_t` in order; the first failure is the result. */
  function CastCoords(toks: seq<string>): (r: Result<seq<int>>)
    ensures r.Ok? ==> |r.value| == |toks| && ValidCoords(r.value)
  {
    if |toks| == 0 then Ok([])
    else match LexicalCastI64(toks[0])
      case Err(e) => Err(e)
      case Ok(x) =>
        match CastCoords(toks[1..])
        case Err(e) => Err(e)
        case Ok(xs) => Ok([x] + xs)
  }

  /** The parse of a non-null string: trimmed, split on `|`, the first token an
      instance id and every other one an int64 field. */
  function ParseAddressText(s: string): (r: Result<seq<byte>>)
    ensures r.Ok? ==> |r.value| >= 4 && (|r.value| - 4) % 8 == 0
  {
    var toks := Tokens(Trim(s));
    if |toks| == 0 then Err(ImproperString)
    else match LexicalCastU32(toks[0])
      case Err(e) => Err(e)
      case Ok(iid) =>
        match CastCoords(toks[1..])
        case Err(e) => Err(e)
        case Ok(data) => Ok(EncodeU32(iid) + EncodeCoords(data))
  }

  /** What `stringToTupleAddress` does. */
  function FromStringSpec(input: Nullable<string>): Result<Value> {
    if input.Null? then Ok(Null(input.reason))
    else match ParseAddressText(input.item)
      case Err(e) => Err(e)
      case Ok(blob) => Ok(Present(blob))
  }

  /** The fields already pushed, ahead of the casts still to come. */
  function Then(data: seq<int>, r: Result<seq<int>>): Result<seq<int>> {
    match r
    case Err(e) => Err(e)
    case Ok(xs) => Ok(data + xs)
  }

  /** The loop of `stringToTupleAddress` over the tokens after the instance id: each
      one cast to `int64_t` and pushed, the first failing cast ending the parse. */
  method CastFields(text: string) returns (r: Result<seq<int>>)
    ensures r == CastCoords(Tokens(text))
  {
    var rest := text;
    var data: seq<int> := [];
    assert Then(data, CastCoords(Tokens(rest))) == CastCoords(Tokens(text)) by {
      if CastCoords(Tokens(text)).Ok? {
        assert [] + CastCoords(Tokens(text)).value == CastCoords(Tokens(text)).value;
      }
    }
    while |rest| > 0
      invariant ValidCoords(data)
      invariant CastCoords(Tokens(text)) == Then(data, CastCoords(Tokens(rest)))
      decreases |rest|
    {
      var (tok, rest') := NextToken(rest);
      assert Tokens(rest) == [tok] + Tokens(rest');
      assert Tokens(rest)[1..] == Tokens(rest');
      var x := LexicalCastI64(tok);
      if x.Err? {
        return Err(x.error);
      }
      ghost var later := CastCoords(Tokens(rest'));
      if later.Ok? {
        AppendAssoc(data, [x.value], later.value);
      }
      data := data + [x.value];
      rest := rest';
    }
    assert data + [] == data;
    return Ok(data);
  }

  /** `stringToTupleAddress`: trims, reads the first token as the instance id, pushes
      every further token as an int64, then writes the value field by field. */
  method StringToTupleAddress(input: Nullable<string>) returns (r: Result<Value>)
    ensures r == FromStringSpec(input)
  {
    if input.Null? {
      return Ok(Null(input.reason));
    }
    var text := Trim(input.item);
    if |text| == 0 {
      return Err(ImproperString);
    }
    var (tok, rest) := NextToken(text);
    assert Tokens(text) == [tok] + Tokens(rest);
    assert Tokens(text)[1..] == Tokens(rest);
    var instanceId := LexicalCastU32(tok);
    if instanceId.Err? {
      return Err(instanceId.error);
    }
    var fields := CastFields(rest);
    if fields.Err? {
      return Err(fields.error);
    }
    var blob := WriteFields(instanceId.value, fields.value);
    return Ok(Present(blob));
  }

  /** The end of `stringToTupleAddress`: a buffer of the value's size receives the
      instance id, then every pushed int64. */
  method WriteFields(instanceId: int, data: seq<int>) returns (blob: seq<byte>)
    requires IsU32(instanceId) && ValidCoords(data)
    ensures blob == EncodeU32(instanceId) + EncodeCoords(data)
  {
    var buf := new byte[4 + 8 * |data|];
    var p := Put(buf, 0, EncodeU32(instanceId));
    p := PutCoords(buf, p, data);
    blob := buf[..];
  }

  // ---- the checked comparisons -----------------------------------------------------

  /** What the checked `<` reads once its checks pass: as `tupleAddressLess`. */
  predicate LessThanDefined(a: Value, b: Value) {
    (a.Present? && b.Present? && |a.item| == |b.item| && |a.item| > 0) ==>
      TupleAddress.LessDefined(a.item, b.item)
  }

  /** `tupleAddressLessThan`: rejects nulls and unequal or empty sizes, then orders by
      instance, coordinates, and the position read as `uint64_t`. */
  function TupleAddressLessThan(a: Value, b: Value): (r: Result<bool>)
    requires LessThanDefined(a, b)
    ensures r.Err? <==> !(a.Present? && b.Present? && |a.item| == |b.item| && |a.item| > 0)
    ensures r.Ok? ==> (TupleAddress.GetInstanceId(a.item) < TupleAddress.GetInstanceId(b.item) ==> r.value) &&
                      (r.value ==> TupleAddress.GetInstanceId(a.item) <= TupleAddress.GetInstanceId(b.item))
  {
    if a.Null? || b.Null? then Err(NullInput)
    else if |a.item| != |b.item| || |a.item| == 0 then Err(UnevenAddresses)
    else
      var l, r := a.item, b.item;
      if TupleAddress.GetInstanceId(l) < TupleAddress.GetInstanceId(r) then Ok(true)
      else if TupleAddress.GetInstanceId(l) > TupleAddress.GetInstanceId(r) then Ok(false)
      else Ok(CoordsThenPosLess(l, r, 4, TupleAddress.NumCoords(|l|), 0, Unsigned))
  }

  /** `tupleAddressEqual`: the same checks, then byte equality of the two values. */
  function TupleAddressEqual(a: Value, b: Value): (r: Result<bool>)
    ensures r.Err? <==> !(a.Present? && b.Present? && |a.item| == |b.item| && |a.item| > 0)
    ensures r.Ok? ==> (r.value <==> a == b)
  {
    if a.Null? || b.Null? then Err(NullInput)
    else if |a.item| != |b.item| || |a.item| == 0 then Err(UnevenAddresses)
    else Ok(a.item == b.item)
  }

  /** The key of a well-sized address with the position read as `uint64_t`. */
  function UnsignedKey(blob: seq<byte>, nDims: nat): Key
    requires |blob| >= TupleAddress.AddressLen(nDims)
  {
    Key(TupleAddress.GetInstanceId(blob), CoordsAt(blob, 4, nDims), PosAt(Unsigned, blob, 4 + 8 * nDims))
  }

  // ---- lemmas --------------------------------------------------------------------

  /** Null in, null out, with the same missing reason, in both directions. */
  lemma NullPassesThrough(reason: int)
    ensures ToStringSpec(Null(reason)) == Ok(Null(reason))
    ensures FromStringSpec(Null(reason)) == Ok(Null(reason))
  {
  }

  /** The printer fails exactly on an empty value and on a size that is not 4 plus a
      multiple of 8, and otherwise prints. */
  lemma ToStringOutcome(input: Value)
    requires input.Present? && |input.item| != 4
    ensures ToStringSpec(input) == Err(ZeroSizedAddress) <==> |input.item| == 0
    ensures ToStringSpec(input) == Err(ImproperlySizedAddress) <==> |input.item| > 0 && (|input.item| - 4) % 8 != 0
    ensures ToStringSpec(input).Ok? <==> Printable(input.item)
  {
    var n := |input.item|;
    if 0 < n < 4 {
      assert SizeCheck(n) == (n + 4) % 8;
    }
  }

  /** The size checks of `tupleAddressToString` let a 4-byte value through, and the
      parser makes one out of a lone instance id such as `7`: no fields follow it. */
  lemma FourBytesPassPrinterChecks(iid: int)
    requires IsU32(iid)
    ensures ParseAddressText(FormatNat(iid)) == Ok(EncodeU32(iid))
    ensures |EncodeU32(iid)| > 0 && SizeCheck(|EncodeU32(iid)|) == 0 && !Printable(EncodeU32(iid))
    ensures PrintUndefined(Present(EncodeU32(iid)))
  {
    var text := FormatNat(iid);
    assert IsDigit(text[0]) && IsDigit(text[|text| - 1]);
    TrimUnchanged(text);
    NoBarInFormat(iid);
    TokensSingle(text);
    assert [text][1..] == [];
    CastU32OfFormat(iid);
    assert EncodeU32(iid) + EncodeCoords([]) == EncodeU32(iid);
  }

  /** With the check added, every value the parser produces is printed or refused with
      an error: printed exactly when it holds a position, refused when it is 4 bytes. */
  lemma ParsedValuesPrint(s: string)
    requires ParseAddressText(s).Ok?
    ensures var b := ParseAddressText(s).value;
            (ToStringCorrected(Present(b)).Ok? <==> |b| >= 12) &&
            (|b| == 4 <==> ToStringCorrected(Present(b)) == Err(ImproperlySizedAddress))
  {
    var b := ParseAddressText(s).value;
    if |b| != 4 {
      ToStringOutcome(Present(b));
    }
  }

  /** Each coordinate's text is one token. */
  function FormatTokens(cs: seq<int>): (r: seq<string>)
    ensures |r| == |cs|
  {
    if |cs| == 0 then [] else [FormatInt(cs[0])] + FormatTokens(cs[1..])
  }

  lemma NoBarInFormat(x: int)
    ensures '|' !in FormatInt(x) && '|' !in FormatNat(if x < 0 then -x else x)
  {
    var n := if x < 0 then -x else x;
    assert forall i :: 0 <= i < |FormatNat(n)| ==> IsDigit(FormatNat(n)[i]);
  }

  lemma {:induction false} TokensOfCoordsText(cs: seq<int>, last: string)
    requires |last| > 0 && '|' !in last
    ensures Tokens(CoordsText(cs) + last) == FormatTokens(cs) + [last]
    decreases |cs|
  {
    if |cs| == 0 {
      assert CoordsText(cs) + last == last;
      TokensSingle(last);
    } else {
      NoBarInFormat(cs[0]);
      assert CoordsText(cs) + last == FormatInt(cs[0]) + "|" + (CoordsText(cs[1..]) + last);
      TokensCons(FormatInt(cs[0]), CoordsText(cs[1..]) + last);
      TokensOfCoordsText(cs[1..], last);
    }
  }

  lemma {:induction false} CastFormatted(cs: seq<int>, p: nat)
    requires ValidCoords(cs) && p < TWO_63
    ensures CastCoords(FormatTokens(cs) + [FormatNat(p)]) == Ok(cs + [p])
    decreases |cs|
  {
    var toks := FormatTokens(cs) + [FormatNat(p)];
    if |cs| == 0 {
      assert toks == [FormatNat(p)];
      CastI64OfFormatNat(p);
      CastCoordsCons(toks, p, []);
      assert cs + [p] == [p] + [];
    } else {
      CastI64OfFormat(cs[0]);
      assert toks[1..] == FormatTokens(cs[1..]) + [FormatNat(p)];
      CastFormatted(cs[1..], p);
      CastCoordsCons(toks, cs[0], cs[1..] + [p]);
      assert [cs[0]] + (cs[1..] + [p]) == cs + [p];
    }
  }

  /** A list of tokens casts one by one: a good first token, then the rest. */
  lemma CastCoordsCons(toks: seq<string>, x: int, xs: seq<int>)
    requires |toks| > 0 && LexicalCastI64(toks[0]) == Ok(x)
    requires CastCoords(toks[1..]) == Ok(xs)
    ensures CastCoords(toks) == Ok([x] + xs)
  {
  }

  /** A bad token anywhere after a good first one makes the whole cast fail. */
  lemma CastCoordsConsErr(toks: seq<string>, x: int)
    requires |toks| > 0 && LexicalCastI64(toks[0]) == Ok(x)
    requires CastCoords(toks[1..]) == Err(BadLexicalCast)
    ensures CastCoords(toks) == Err(BadLexicalCast)
  {
  }

  /** The printed text trims to itself and splits into one token per field. */
  lemma TextTokens(blob: seq<byte>)
    requires Printable(blob)
    ensures var n := TupleAddress.NumCoords(|blob|);
            Tokens(Trim(AddressText(blob))) ==
            [FormatNat(TupleAddress.GetInstanceId(blob))] + (FormatTokens(CoordsAt(blob, 4, n)) + [FormatNat(DecodeU64(PosBytes(blob)))])
  {
    var n := TupleAddress.NumCoords(|blob|);
    var head := FormatNat(TupleAddress.GetInstanceId(blob));
    var last := FormatNat(DecodeU64(PosBytes(blob)));
    NoBarInFormat(TupleAddress.GetInstanceId(blob));
    NoBarInFormat(DecodeU64(PosBytes(blob)));
    FieldsTokens(head, CoordsAt(blob, 4, n), last);
  }

  /** Digits, `|`, the coordinates' texts, digits: one token per field, nothing trimmed. */
  lemma FieldsTokens(head: string, cs: seq<int>, last: string)
    requires |head| > 0 && AllDigits(head) && '|' !in head
    requires |last| > 0 && AllDigits(last) && '|' !in last
    ensures Tokens(Trim(head + "|" + CoordsText(cs) + last)) == [head] + (FormatTokens(cs) + [last])
  {
    var text := head + "|" + CoordsText(cs) + last;
    assert text == head + "|" + (CoordsText(cs) + last);
    assert text[0] == head[0] && IsDigit(head[0]);
    assert text[|text| - 1] == last[|last| - 1] && IsDigit(last[|last| - 1]);
    TrimUnchanged(text);
    TokensCons(head, CoordsText(cs) + last);
    TokensOfCoordsText(cs, last);
  }

  /** The bytes of a printable address, with the position re-read as a signed field. */
  lemma PrintableBytes(blob: seq<byte>)
    requires Printable(blob) && DecodeU64(PosBytes(blob)) < TWO_63
    ensures var cs := CoordsAt(blob, 4, TupleAddress.NumCoords(|blob|));
            blob == EncodeU32(TupleAddress.GetInstanceId(blob)) + EncodeCoords(cs + [DecodeU64(PosBytes(blob))])
  {
    var n := TupleAddress.NumCoords(|blob|);
    var cs := CoordsAt(blob, 4, n);
    var pb := PosBytes(blob);
    var p := DecodeU64(pb);
    U32BytesRoundTrip(blob[0..4]);
    CoordBytes(blob, 4, n);
    I64AgreesWithU64Below(pb);
    I64BytesRoundTrip(pb);
    EncodeCoordsSnoc(cs + [p]);
    assert (cs + [p])[..|cs|] == cs && (cs + [p])[|cs|] == p;
    AppendAssoc(blob[0..4], blob[4 .. 4 + 8 * n], pb);
    assert blob == blob[0..4] + (blob[4 .. 4 + 8 * n] + pb);
  }

  /** The converter pair is a round trip: parsing the printed text of an address whose
      position is below 2^63 gives back the same bytes. */
  lemma TextRoundTrip(blob: seq<byte>)
    requires Printable(blob) && DecodeU64(PosBytes(blob)) < TWO_63
    ensures ParseAddressText(AddressText(blob)) == Ok(blob)
  {
    var n := TupleAddress.NumCoords(|blob|);
    var iid := TupleAddress.GetInstanceId(blob);
    var cs := CoordsAt(blob, 4, n);
    var p := DecodeU64(PosBytes(blob));
    TextTokens(blob);
    CastU32OfFormat(iid);
    CastFormatted(cs, p);
    PrintableBytes(blob);
  }

  lemma {:induction false} CastFormattedTooBig(cs: seq<int>, p: nat)
    requires ValidCoords(cs) && p >= TWO_63
    ensures CastCoords(FormatTokens(cs) + [FormatNat(p)]) == Err(BadLexicalCast)
    decreases |cs|
  {
    var toks := FormatTokens(cs) + [FormatNat(p)];
    if |cs| == 0 {
      assert toks == [FormatNat(p)];
      DigitsValueOfFormat(p);
    } else {
      CastI64OfFormat(cs[0]);
      assert toks[1..] == FormatTokens(cs[1..]) + [FormatNat(p)];
      CastFormattedTooBig(cs[1..], p);
      CastCoordsConsErr(toks, cs[0]);
    }
  }

  /** The text of an address whose position is negative does not parse back: the
      position is printed as `uint64_t`, at least 2^63, and cast as `int64_t`. */
  lemma NegativePositionDoesNotRoundTrip(blob: seq<byte>)
    requires Printable(blob) && DecodeU64(PosBytes(blob)) >= TWO_63
    ensures ParseAddressText(AddressText(blob)) == Err(BadLexicalCast)
  {
    var n := TupleAddress.NumCoords(|blob|);
    TextTokens(blob);
    CastU32OfFormat(TupleAddress.GetInstanceId(blob));
    CastFormattedTooBig(CoordsAt(blob, 4, n), DecodeU64(PosBytes(blob)));
  }

  /** The checks: null arguments, then unequal or empty sizes, are rejected by both
      comparisons, and nothing else is. */
  lemma CheckedComparisonErrors(a: Value, b: Value)
    requires LessThanDefined(a, b)
    ensures TupleAddressLessThan(a, b).Err? <==> a.Null? || b.Null? || |a.item| != |b.item| || |a.item| == 0
    ensures TupleAddressEqual(a, b).Err? <==> a.Null? || b.Null? || |a.item| != |b.item| || |a.item| == 0
    ensures TupleAddressLessThan(a, b) == Err(NullInput) <==> a.Null? || b.Null?
    ensures TupleAddressEqual(a, b) == Err(NullInput) <==> a.Null? || b.Null?
  {
  }

  /** On addresses of one size the checked `<` is the key order with the position
      compared as unsigned. */
  lemma LessThanIsUnsignedKeyLess(l: seq<byte>, r: seq<byte>, nDims: nat)
    requires TupleAddress.WellSized(l, nDims) && TupleAddress.WellSized(r, nDims)
    ensures LessThanDefined(Present(l), Present(r))
    ensures TupleAddressLessThan(Present(l), Present(r)) == Ok(KeyLess(UnsignedKey(l, nDims), UnsignedKey(r, nDims)))
  {
    assert TupleAddress.NumCoords(|l|) == nDims;
    CoordsThenPosLessIsLex(l, r, 4, nDims, 0, Unsigned);
    assert CoordsAt(l, 4, nDims)[0..] == CoordsAt(l, 4, nDims);
    assert CoordsAt(r, 4, nDims)[0..] == CoordsAt(r, 4, nDims);
  }

  /** Where both positions are non-negative the checked `<` agrees with the
      `tupleAddressLess` of TupleAddress.h. */
  lemma OrdersAgreeOnNonNegativePositions(l: seq<byte>, r: seq<byte>, nDims: nat)
    requires TupleAddress.WellSized(l, nDims) && TupleAddress.WellSized(r, nDims)
    requires TupleAddress.GetCellPos(l, nDims) >= 0 && TupleAddress.GetCellPos(r, nDims) >= 0
    ensures LessThanDefined(Present(l), Present(r)) && TupleAddress.LessDefined(l, r)
    ensures TupleAddressLessThan(Present(l), Present(r)) == Ok(TupleAddress.TupleAddressLess(l, r))
  {
    LessThanIsUnsignedKeyLess(l, r, nDims);
    TupleAddress.TupleAddressLessIsKeyLess(l, r, nDims);
    var off := 4 + 8 * nDims;
    assert PosAt(Unsigned, l, off) == TupleAddress.GetCellPos(l, nDims);
    assert PosAt(Unsigned, r, off) == TupleAddress.GetCellPos(r, nDims);
  }

  /** ...and where a position is negative the two orders disagree: with instance and
      coordinates equal, a negative position comes first in TupleAddress.h and last
      in the registered `<`. */
  lemma OrdersDifferOnNegativePosition(l: seq<byte>, r: seq<byte>, nDims: nat)
    requires TupleAddress.WellSized(l, nDims) && TupleAddress.WellSized(r, nDims)
    requires l[..4 + 8 * nDims] == r[..4 + 8 * nDims]
    requires TupleAddress.GetCellPos(l, nDims) < 0 <= TupleAddress.GetCellPos(r, nDims)
    ensures TupleAddress.LessDefined(l, r) && TupleAddress.TupleAddressLess(l, r)
    ensures LessThanDefined(Present(l), Present(r)) && TupleAddressLessThan(Present(l), Present(r)) == Ok(false)
  {
    LessThanIsUnsignedKeyLess(l, r, nDims);
    TupleAddress.TupleAddressLessIsKeyLess(l, r, nDims);
    assert l[0..4] == l[..4 + 8 * nDims][0..4] == r[..4 + 8 * nDims][0..4] == r[0..4];
    assert l[4 .. 4 + 8 * nDims] == l[..4 + 8 * nDims][4..] == r[..4 + 8 * nDims][4..] == r[4 .. 4 + 8 * nDims];
    CoordsAtFrame(l, r, 4, nDims);
    LexLessIrreflexive(CoordsAt(l, 4, nDims));
  }

  /** Addresses the checked `=` calls equal are never less than one another under the
      checked `<`. */
  lemma EqualNeverLess(a: Value, b: Value)
    requires a.Present? && b.Present? && |a.item| >= 12
    requires TupleAddressEqual(a, b) == Ok(true)
    ensures LessThanDefined(a, b) && LessThanDefined(b, a)
    ensures TupleAddressLessThan(a, b) == Ok(false) && TupleAddressLessThan(b, a) == Ok(false)
  {
    var x := a.item;
    var n := TupleAddress.NumCoords(|x|);
    CoordsThenPosLessIsLex(x, x, 4, n, 0, Unsigned);
    LexLessIrreflexive(CoordsAt(x, 4, n)[0..]);
  }
}
