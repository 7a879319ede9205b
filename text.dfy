/** The text handling the tuple-address converters rely on: decimal output of an
    `ostream`, `boost::algorithm::trim`, `std::getline` with a delimiter, and
    `boost::lexical_cast` from a token to `uint32_t` and to `int64_t`. */
module Text {
  import opened Bytes
  import opened Common

  // ---- decimal digits ------------------------------------------------------------

  predicate IsDigit(c: char) { '0' <= c <= '9' }

  predicate AllDigits(s: string) { forall i :: 0 <= i < |s| ==> IsDigit(s[i]) }

  function DigitChar(d: nat): (c: char)
    requires d < 10
    ensures IsDigit(c)
  {
    ['0', '1', '2', '3', '4', '5', '6', '7', '8', '9'][d]
  }

  function DigitValue(c: char): (d: nat)
    requires IsDigit(c)
    ensures d < 10
  {
    (c as int) - ('0' as int)
  }

  /** The number a string of decimal digits denotes, most significant first. */
  function DigitsValue(s: string): nat
    requires AllDigits(s)
  {
    if |s| == 0 then 0 else 10 * DigitsValue(s[..|s| - 1]) + DigitValue(s[|s| - 1])
  }

  /** How an `ostream` prints an unsigned number. */
  function FormatNat(n: nat): (s: string)
    ensures |s| > 0 && AllDigits(s)
  {
    if n < 10 then [DigitChar(n)] else FormatNat(n / 10) + [DigitChar(n % 10)]
  }

  /** How an `ostream` prints a signed number. */
  function FormatInt(x: int): (s: string)
    ensures |s| > 0
  {
    if x < 0 then ['-'] + FormatNat(-x) else FormatNat(x)
  }

  lemma {:induction false} DigitsValueOfFormat(n: nat)
    ensures DigitsValue(FormatNat(n)) == n
  {
    var s := FormatNat(n);
    if n >= 10 {
      DigitsValueOfFormat(n / 10);
      assert s[..|s| - 1] == FormatNat(n / 10);
      assert DigitValue(DigitChar(n % 10)) == n % 10;
    } else {
      assert DigitValue(DigitChar(n)) == n;
    }
  }

  // ---- boost::lexical_cast ----------------------------------------------------------

  /** An optional leading sign and the rest of the token. */
  function SplitSign(tok: string): (bool, string) {
    if |tok| > 0 && (tok[0] == '-' || tok[0] == '+') then (tok[0] == '-', tok[1..]) else (false, tok)
  }

  /** `lexical_cast<uint32_t>`: digits after an optional sign, at most 2^32 - 1 in
      magnitude; a minus sign negates modulo 2^32. Anything else fails. */
  function LexicalCastU32(tok: string): (r: Result<int>)
    ensures r.Ok? ==> IsU32(r.value)
    ensures r.Err? ==> r.error == BadLexicalCast
  {
    var (neg, body) := SplitSign(tok);
    if |body| == 0 || !AllDigits(body) || DigitsValue(body) >= TWO_32 then Err(BadLexicalCast)
    else if neg then Ok((TWO_32 - DigitsValue(body)) % TWO_32)
    else Ok(DigitsValue(body))
  }

  /** `lexical_cast<int64_t>`: digits after an optional sign, within the int64 range. */
  function LexicalCastI64(tok: string): (r: Result<int>)
    ensures r.Ok? ==> IsI64(r.value)
    ensures r.Err? ==> r.error == BadLexicalCast
  {
    var (neg, body) := SplitSign(tok);
    if |body| == 0 || !AllDigits(body) then Err(BadLexicalCast)
    else if neg then (if DigitsValue(body) <= TWO_63 then Ok(0 - DigitsValue(body) as int) else Err(BadLexicalCast))
    else if DigitsValue(body) < TWO_63 then Ok(DigitsValue(body))
    else Err(BadLexicalCast)
  }

  /** A printed uint32 casts back to itself. */
  lemma CastU32OfFormat(n: nat)
    requires IsU32(n)
    ensures LexicalCastU32(FormatNat(n)) == Ok(n)
  {
    DigitsValueOfFormat(n);
  }

  /** A printed int64 casts back to itself. */
  lemma CastI64OfFormat(x: int)
    requires IsI64(x)
    ensures LexicalCastI64(FormatInt(x)) == Ok(x)
  {
    if x < 0 {
      DigitsValueOfFormat(-x);
      assert SplitSign(FormatInt(x)) == (true, FormatNat(-x));
    } else {
      DigitsValueOfFormat(x);
    }
  }

  /** A printed uint64 below 2^63 casts to the same number as int64. */
  lemma CastI64OfFormatNat(n: nat)
    requires n < TWO_63
    ensures LexicalCastI64(FormatNat(n)) == Ok(n)
  {
    DigitsValueOfFormat(n);
  }

  /** Appending piece by piece builds the same string as appending the pieces joined. */
  lemma AppendAssoc<T>(a: seq<T>, b: seq<T>, c: seq<T>)
    ensures a + b + c == a + (b + c)
  {
  }

  // ---- boost::algorithm::trim ------------------------------------------------------

  /** The characters `std::isspace` accepts in the classic locale. */
  predicate IsSpace(c: char) {
    c == ' ' || c == '\t' || c == '\n' || c == '\r' || c as int == 11 || c as int == 12
  }

  function TrimLeft(s: string): (r: string)
    ensures |r| <= |s| && r == s[|s| - |r|..]
    ensures |r| > 0 ==> !IsSpace(r[0])
    decreases |s|
  {
    if |s| > 0 && IsSpace(s[0]) then TrimLeft(s[1..]) else s
  }

  function TrimRight(s: string): (r: string)
    ensures |r| <= |s| && r == s[..|r|]
    ensures |r| > 0 ==> !IsSpace(r[|r| - 1])
    decreases |s|
  {
    if |s| > 0 && IsSpace(s[|s| - 1]) then TrimRight(s[..|s| - 1]) else s
  }

  /** `trim`: drops leading and trailing white space. */
  function Trim(s: string): (r: string)
    ensures |r| > 0 ==> !IsSpace(r[0]) && !IsSpace(r[|r| - 1])
  {
    TrimRight(TrimLeft(s))
  }

  /** A string that neither starts nor ends with white space is left as it is. */
  lemma TrimUnchanged(s: string)
    requires |s| > 0 && !IsSpace(s[0]) && !IsSpace(s[|s| - 1])
    ensures Trim(s) == s
  {
  }

  // ---- std::getline with a delimiter --------------------------------------------------

  /** The index of the first `c` in `s`, or |s| if there is none. */
  function Find(s: string, c: char): (j: nat)
    ensures j <= |s| && (j < |s| ==> s[j] == c)
    ensures forall k :: 0 <= k < j ==> s[k] != c
  {
    if |s| == 0 then 0 else if s[0] == c then 0 else 1 + Find(s[1..], c)
  }

  /** One successful `getline(ss, tok, '|')` on the unread text `s` (not empty): the
      token up to the delimiter, and the text after it. */
  function NextToken(s: string): (r: (string, string))
    requires |s| > 0
    ensures |r.1| < |s| && '|' !in r.0
  {
    var j := Find(s, '|');
    if j == |s| then (s, []) else (s[..j], s[j + 1..])
  }

  /** The tokens successive `getline` calls deliver: they fail only once the text is
      used up, so a trailing delimiter yields no empty last token. */
  function Tokens(s: string): seq<string>
    decreases |s|
  {
    if |s| == 0 then [] else var (tok, rest) := NextToken(s); [tok] + Tokens(rest)
  }

  /** A token free of delimiters followed by `|` is split off whole. */
  lemma TokensCons(tok: string, rest: string)
    requires '|' !in tok
    ensures Tokens(tok + "|" + rest) == [tok] + Tokens(rest)
  {
    var s := tok + "|" + rest;
    assert Find(s, '|') == |tok| by {
      assert s[|tok|] == '|';
      forall k | 0 <= k < |tok| ensures s[k] != '|' { assert s[k] == tok[k]; }
      FindFirst(s, '|', |tok|);
    }
    assert s[..|tok|] == tok && s[|tok| + 1..] == rest;
  }

  /** A non-empty token free of delimiters is the only token of itself. */
  lemma TokensSingle(tok: string)
    requires |tok| > 0 && '|' !in tok
    ensures Tokens(tok) == [tok]
  {
    FindNone(tok, '|');
  }

  lemma {:induction false} FindFirst(s: string, c: char, j: nat)
    requires j < |s| && s[j] == c && forall k :: 0 <= k < j ==> s[k] != c
    ensures Find(s, c) == j
  {
    if j > 0 {
      FindFirst(s[1..], c, j - 1);
    }
  }

  lemma {:induction false} FindNone(s: string, c: char)
    requires c !in s
    ensures Find(s, c) == |s|
  {
    if |s| > 0 {
      FindNone(s[1..], c);
    }
  }
}
