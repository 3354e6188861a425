/**
 * The mixed-radix tokenizer: `tokenize` turns text into one integer per
 * character by stripping the header bits of the character's UTF-8 bytes and
 * packing the remaining data bits; `detokenize` classifies each integer by
 * magnitude, puts the header bits back and decodes the bytes strictly.
 *
 * The per-character and per-token bit work is lifted into the functions
 * `ExtractToken` and `RebuildBytes`; the two loops are the methods `Tokenize`
 * and `Detokenize`.  The packed integer is the character's code point
 * (`ExtractTokenOfPattern`), so tokenize yields `CodePoints(text)`, and
 * detokenize accepts exactly the token lists whose every element is a scalar
 * value (`DetokenizedSucceeds`), inverting tokenize on them.
 */
module Tokenizer {
  import opened Wrappers
  import opened Bits
  import opened Utf8

  /** The three ValueErrors detokenize raises, each with the token that caused it. */
  datatype DetokenizeError =
    | ByteOutOfRange(token: int)                    // `bytes([token])` refuses a negative value
    | OutOfUnicodeRange(token: int)                 // the token is 0x110000 or more
    | InvalidUtf8(token: int, bytes: seq<byte>)     // strict decoding refuses the rebuilt bytes

  /** The code points of a text, in order: what tokenize returns. */
  function CodePoints(text: string): (r: seq<int>)
    ensures |r| == |text|
    ensures forall k :: 0 <= k < |text| ==> r[k] == text[k] as int
  {
    seq(|text|, k requires 0 <= k < |text| => text[k] as int)
  }

  /**
   * The data bits of one character's UTF-8 bytes, header bits masked off and
   * the groups shifted into place; None where the byte length is not 1 to 4.
   */
  function ExtractToken(encoded: seq<byte>): (r: Option<int>)
    ensures r.Some? <==> 1 <= |encoded| <= 4
  {
    if |encoded| == 1 then
      Some(And(encoded[0], 0x7F))
    else if |encoded| == 2 then
      Some(Or(Shl(And(encoded[0], 0x1F), 6), And(encoded[1], 0x3F)))
    else if |encoded| == 3 then
      Some(Or(Or(Shl(And(encoded[0], 0x0F), 12), Shl(And(encoded[1], 0x3F), 6)), And(encoded[2], 0x3F)))
    else if |encoded| == 4 then
      Some(Or(Or(Or(Shl(And(encoded[0], 0x07), 18), Shl(And(encoded[1], 0x3F), 12)),
                 Shl(And(encoded[2], 0x3F), 6)),
              And(encoded[3], 0x3F)))
    else
      None
  }

  /** `bytes(values)`: refused when a value is not in 0..255. */
  function MakeBytes(values: seq<int>, token: int): (r: Result<seq<byte>, DetokenizeError>)
    ensures r.Success? <==> forall k :: 0 <= k < |values| ==> 0 <= values[k] < 0x100
    ensures r.Success? ==> r.value == values
    ensures r.Failure? ==> r.error == ByteOutOfRange(token)
  {
    if forall k :: 0 <= k < |values| ==> 0 <= values[k] < 0x100 then Success(values)
    else Failure(ByteOutOfRange(token))
  }

  /**
   * The UTF-8 bytes of one token, rebuilt from its magnitude class: as many
   * bytes as the class has; a negative token refused by `bytes`, one of
   * 0x110000 or more refused as out of range.
   */
  function RebuildBytes(token: int): (r: Result<seq<byte>, DetokenizeError>)
    ensures token < 0 ==> r == Failure(ByteOutOfRange(token))
    ensures token >= 0x11_0000 ==> r == Failure(OutOfUnicodeRange(token))
    ensures r.Success? ==> 0 <= token < 0x11_0000 && |r.value| == EncodedLength(token)
  {
    if token < 0x80 then
      var values := [token];
      assert values[0] == token;
      MakeBytes(values, token)
    else if token < 0x800 then
      MakeBytes([Or(0xC0, Shr(token, 6)),
                 Or(0x80, And(token, 0x3F))], token)
    else if token < 0x1_0000 then
      MakeBytes([Or(0xE0, Shr(token, 12)),
                 Or(0x80, And(Shr(token, 6), 0x3F)),
                 Or(0x80, And(token, 0x3F))], token)
    else if token < 0x11_0000 then
      MakeBytes([Or(0xF0, Shr(token, 18)),
                 Or(0x80, And(Shr(token, 12), 0x3F)),
                 Or(0x80, And(Shr(token, 6), 0x3F)),
                 Or(0x80, And(token, 0x3F))], token)
    else
      Failure(OutOfUnicodeRange(token))
  }

  /** One token's text: the rebuilt bytes, strictly decoded; an error names the token. */
  function DecodeToken(token: int): (r: Result<string, DetokenizeError>)
    ensures r.Failure? ==> r.error.token == token
    ensures r.Success? ==> 0 <= token < 0x11_0000
  {
    match RebuildBytes(token)
    case Failure(e) => Failure(e)
    case Success(b) =>
      match Decode(b)
      case None => Failure(InvalidUtf8(token, b))
      case Some(s) => Success(s)
  }

  /**
   * The text of a token list: the tokens' texts joined in order, or the error
   * of the first token that fails (nothing of the text is returned then).
   */
  function Detokenized(tokens: seq<int>): (r: Result<string, DetokenizeError>)
    decreases |tokens|
  {
    if |tokens| == 0 then Success("")
    else
      match Detokenized(tokens[..|tokens| - 1])
      case Failure(e) => Failure(e)
      case Success(prefix) =>
        match DecodeToken(tokens[|tokens| - 1])
        case Failure(e) => Failure(e)
        case Success(s) => Success(prefix + s)
  }

  /** `''.join(pieces)`: pieces of one character each join to those characters in order. */
  function Join(pieces: seq<string>): (r: string)
    ensures (forall k :: 0 <= k < |pieces| ==> |pieces[k]| == 1) ==>
      |r| == |pieces| && forall k :: 0 <= k < |pieces| ==> r[k] == pieces[k][0]
    decreases |pieces|
  {
    if |pieces| == 0 then "" else Join(pieces[..|pieces| - 1]) + pieces[|pieces| - 1]
  }

  /** The reason detokenize gives for a token that is not a scalar value. */
  function Rejection(token: int): DetokenizeError
    requires !IsScalarValue(token)
  {
    if token < 0 then ByteOutOfRange(token)
    else if token >= 0x11_0000 then OutOfUnicodeRange(token)
    else InvalidUtf8(token, BitPattern(token))
  }

  // ---------------------------------------------------------------------------
  // tokenize

  /** `tokenize`: one token per character, the data bits of its UTF-8 bytes. */
  method Tokenize(text: string) returns (r: seq<int>)
    ensures r == CodePoints(text)
  {
    var tokens: seq<int> := [];
    for i := 0 to |text|
      invariant tokens == CodePoints(text[..i])
    {
      var c := text[i];
      var encoded := Encode(c);
      var token := ExtractToken(encoded);
      if token.None? {
        // Encode always yields 1 to 4 bytes, so this ValueError is never raised
        assert false;
      }
      ExtractTokenOfPattern(c as int);
      tokens := tokens + [token.value];
    }
    assert text[..|text|] == text;
    return tokens;
  }

  // ---------------------------------------------------------------------------
  // detokenize

  /** `detokenize`: each token's bytes rebuilt and decoded, stopping at the first failure. */
  method Detokenize(tokens: seq<int>) returns (r: Result<string, DetokenizeError>)
    ensures r == Detokenized(tokens)
  {
    var chars: seq<string> := [];
    for i := 0 to |tokens|
      invariant Detokenized(tokens[..i]) == Success(Join(chars))
    {
      var token := tokens[i];
      assert tokens[..i + 1][..i] == tokens[..i];
      var rebuilt := RebuildBytes(token);
      if rebuilt.Failure? {
        DetokenizedFailsFast(tokens[..i + 1], tokens[i + 1..]);
        assert tokens[..i + 1] + tokens[i + 1..] == tokens;
        return Failure(rebuilt.error);
      }
      var decoded := Decode(rebuilt.value);
      if decoded.None? {
        DetokenizedFailsFast(tokens[..i + 1], tokens[i + 1..]);
        assert tokens[..i + 1] + tokens[i + 1..] == tokens;
        return Failure(InvalidUtf8(token, rebuilt.value));
      }
      assert (chars + [decoded.value])[..|chars|] == chars;
      chars := chars + [decoded.value];
    }
    assert tokens[..|tokens|] == tokens;
    return Success(Join(chars));
  }

  // ---------------------------------------------------------------------------
  // lemmas

  lemma Pow2Values()
    ensures Pow2(3) == 8 && Pow2(4) == 16 && Pow2(5) == 32 && Pow2(6) == 64 && Pow2(7) == 128
    ensures Pow2(12) == 4096 && Pow2(18) == 0x4_0000
  {
  }

  /**
   * The masks and shifts of ExtractToken read the bytes as mixed-radix digits:
   * the low 7, 5, 4 or 3 bits of the first byte and the low 6 bits of each
   * later byte, most significant first.
   */
  lemma ExtractTokenDigits(encoded: seq<byte>)
    requires 1 <= |encoded| <= 4
    ensures ExtractToken(encoded) == Some(MixedRadix(encoded))
  {
    var e := encoded;
    if |e| == 1 {
      LowBits(e[0], 0x7F);
    } else if |e| == 2 {
      PackTwo(e[0], e[1]);
    } else if |e| == 3 {
      PackThree(e[0], e[1], e[2]);
    } else {
      PackFour(e[0], e[1], e[2], e[3]);
    }
  }

  /** The data bits of 1 to 4 bytes as digits of radix 2^7, 2^5 * 2^6, 2^4 * 2^6 * 2^6 or 2^3 * 2^6 * 2^6 * 2^6. */
  function MixedRadix(encoded: seq<byte>): int
    requires 1 <= |encoded| <= 4
  {
    var e: seq<int> := encoded;
    if |e| == 1 then e[0] % 0x80
    else if |e| == 2 then (e[0] % 0x20) * 64 + e[1] % 64
    else if |e| == 3 then (e[0] % 0x10) * 4096 + (e[1] % 64) * 64 + e[2] % 64
    else (e[0] % 8) * 0x4_0000 + (e[1] % 64) * 4096 + (e[2] % 64) * 64 + e[3] % 64
  }

  /** The two-byte branch: 5 bits of the lead byte, then 6. */
  lemma PackTwo(b0: nat, b1: nat)
    ensures Or(Shl(And(b0, 0x1F), 6), And(b1, 0x3F)) == (b0 % 0x20) * 64 + b1 % 64
  {
    var a, b := b0 % 0x20, b1 % 64;
    var x0, x1 := Shl(And(b0, 0x1F), 6), And(b1, 0x3F);
    assert x0 == a * 64 by {
      LowBits(b0, 0x1F);
      ShlValues(a);
    }
    assert x1 == b by {
      LowBits(b1, 0x3F);
    }
    Place(a, b, 64);
  }

  /** The three-byte branch: 4 bits of the lead byte, then 6 and 6. */
  lemma PackThree(b0: nat, b1: nat, b2: nat)
    ensures Or(Or(Shl(And(b0, 0x0F), 12), Shl(And(b1, 0x3F), 6)), And(b2, 0x3F))
         == (b0 % 0x10) * 4096 + (b1 % 64) * 64 + b2 % 64
  {
    var a, b, c := b0 % 0x10, b1 % 64, b2 % 64;
    var x0, x1, x2 := Shl(And(b0, 0x0F), 12), Shl(And(b1, 0x3F), 6), And(b2, 0x3F);
    assert x0 == a * 4096 by {
      LowBits(b0, 0x0F);
      ShlValues(a);
    }
    assert x1 == b * 64 by {
      LowBits(b1, 0x3F);
      ShlValues(b);
    }
    assert x2 == c by {
      LowBits(b2, 0x3F);
    }
    var ab := a * 64 + b;
    assert Or(x0, x1) == ab * 64 by {
      Place(a, b * 64, 4096);
    }
    assert Or(Or(x0, x1), x2) == ab * 64 + c by {
      Place(ab, c, 64);
    }
  }

  /** The four-byte branch: 3 bits of the lead byte, then 6, 6 and 6. */
  lemma PackFour(b0: nat, b1: nat, b2: nat, b3: nat)
    ensures Or(Or(Or(Shl(And(b0, 0x07), 18), Shl(And(b1, 0x3F), 12)), Shl(And(b2, 0x3F), 6)), And(b3, 0x3F))
         == (b0 % 8) * 0x4_0000 + (b1 % 64) * 4096 + (b2 % 64) * 64 + b3 % 64
  {
    var a, b, c, d := b0 % 8, b1 % 64, b2 % 64, b3 % 64;
    var x0, x1 := Shl(And(b0, 0x07), 18), Shl(And(b1, 0x3F), 12);
    var x2, x3 := Shl(And(b2, 0x3F), 6), And(b3, 0x3F);
    assert x0 == a * 0x4_0000 by {
      LowBits(b0, 0x07);
      ShlValues(a);
    }
    assert x1 == b * 4096 by {
      LowBits(b1, 0x3F);
      ShlValues(b);
    }
    assert x2 == c * 64 by {
      LowBits(b2, 0x3F);
      ShlValues(c);
    }
    assert x3 == d by {
      LowBits(b3, 0x3F);
    }
    FourFields(a, b, c, d);
  }

  /** OR-ing the four fields of a 4-byte token, each below the next one's place, adds them. */
  lemma FourFields(a: nat, b: nat, c: nat, d: nat)
    requires b < 64 && c < 64 && d < 64
    ensures Or(Or(Or(a * 0x4_0000, b * 4096), c * 64), d) == a * 0x4_0000 + b * 4096 + c * 64 + d
  {
    var ab := a * 64 + b;
    assert Or(a * 0x4_0000, b * 4096) == ab * 4096 by {
      Place(a, b * 4096, 0x4_0000);
    }
    var abc := ab * 64 + c;
    assert Or(ab * 4096, c * 64) == abc * 64 by {
      Place(ab, c * 64, 4096);
    }
    assert Or(abc * 64, d) == abc * 64 + d by {
      Place(abc, d, 64);
    }
  }

  /** `x & m` for the masks 0x07, 0x0F, 0x1F, 0x3F and 0x7F: the low 3 to 7 bits of x. */
  lemma LowBits(x: nat, m: nat)
    requires m == 0x07 || m == 0x0F || m == 0x1F || m == 0x3F || m == 0x7F
    ensures And(x, m) == x % (m + 1)
  {
    Pow2Values();
    if m == 0x07 {
      AndLowMask(x, 3);
    } else if m == 0x0F {
      AndLowMask(x, 4);
    } else if m == 0x1F {
      AndLowMask(x, 5);
    } else if m == 0x3F {
      AndLowMask(x, 6);
    } else {
      AndLowMask(x, 7);
    }
  }

  /** Shifting left by 6, 12 or 18 multiplies by 64, 4096 or 0x40000. */
  lemma ShlValues(x: nat)
    ensures Shl(x, 6) == x * 64 && Shl(x, 12) == x * 4096 && Shl(x, 18) == x * 0x4_0000
  {
    Pow2Values();
  }

  /** `m * p | y`, in either order, is a sum when p is 2^k for a k the tokenizer uses and y < p. */
  lemma Place(m: nat, y: nat, p: nat)
    requires p == 8 || p == 16 || p == 32 || p == 64 || p == 4096 || p == 0x4_0000
    requires y < p
    ensures Or(m * p, y) == m * p + y && Or(y, m * p) == m * p + y
  {
    Pow2Values();
    var k := if p == 8 then 3 else if p == 16 then 4 else if p == 32 then 5
      else if p == 64 then 6 else if p == 4096 then 12 else 18;
    assert p == Pow2(k);
    OrDisjoint(m, k, y);
    OrCommutes(m * p, y);
  }

  /**
   * Whatever bytes of length 1 to 4 it is given, ExtractToken packs them into
   * 7, 11, 16 or 21 bits.
   */
  lemma ExtractTokenWidth(encoded: seq<byte>)
    requires 1 <= |encoded| <= 4
    ensures 0 <= ExtractToken(encoded).value < Pow2([7, 11, 16, 21][|encoded| - 1])
  {
    ExtractTokenDigits(encoded);
    assert Pow2(11) == 0x800 && Pow2(16) == 0x1_0000 && Pow2(21) == 0x20_0000;
  }

  /**
   * The token extracted from the UTF-8 bytes of a character number is that
   * number; the byte length the table gives is the magnitude class detokenize
   * uses, so every token is below 0x110000.
   */
  lemma ExtractTokenOfPattern(cp: int)
    requires 0 <= cp < 0x11_0000
    ensures ExtractToken(BitPattern(cp)) == Some(cp)
  {
    ExtractTokenDigits(BitPattern(cp));
    if cp < 0x80 {
    } else if cp < 0x800 {
      DigitsOfTwo(cp);
    } else if cp < 0x1_0000 {
      DigitsOfThree(cp);
    } else {
      DigitsOfFour(cp);
    }
  }

  lemma DigitsOfTwo(cp: int)
    requires 0x80 <= cp < 0x800
    ensures MixedRadix(BitPattern(cp)) == cp
  {
    var q1, r0 := cp / 64, cp % 64;
    var e: seq<int> := BitPattern(cp);
    assert e == [0xC0 + q1, 0x80 + r0];
    assert e[0] % 0x20 == q1 by {
      ModAfterHeader(0xC0, q1, 0x20);
    }
    assert e[1] % 64 == r0 by {
      ModAfterHeader(0x80, r0, 64);
    }
  }

  lemma DigitsOfThree(cp: int)
    requires 0x800 <= cp < 0x1_0000
    ensures MixedRadix(BitPattern(cp)) == cp
  {
    var q1, r0 := cp / 64, cp % 64;
    var q2, r1 := q1 / 64, q1 % 64;
    var e: seq<int> := BitPattern(cp);
    assert e == [0xE0 + q2, 0x80 + r1, 0x80 + r0];
    assert e[0] % 0x10 == q2 by {
      ModAfterHeader(0xE0, q2, 0x10);
    }
    assert e[1] % 64 == r1 by {
      ModAfterHeader(0x80, r1, 64);
    }
    assert e[2] % 64 == r0 by {
      ModAfterHeader(0x80, r0, 64);
    }
    assert cp == q2 * 4096 + r1 * 64 + r0 by {
      assert cp == q1 * 64 + r0;
      assert q1 == q2 * 64 + r1;
    }
  }

  lemma DigitsOfFour(cp: int)
    requires 0x1_0000 <= cp < 0x11_0000
    ensures MixedRadix(BitPattern(cp)) == cp
  {
    var q1, r0 := cp / 64, cp % 64;
    var q2, r1 := q1 / 64, q1 % 64;
    var q3, r2 := q2 / 64, q2 % 64;
    var e: seq<int> := BitPattern(cp);
    assert e == [0xF0 + q3, 0x80 + r2, 0x80 + r1, 0x80 + r0];
    assert e[0] % 8 == q3 by {
      ModAfterHeader(0xF0, q3, 8);
    }
    assert e[1] % 64 == r2 by {
      ModAfterHeader(0x80, r2, 64);
    }
    assert e[2] % 64 == r1 by {
      ModAfterHeader(0x80, r1, 64);
    }
    assert e[3] % 64 == r0 by {
      ModAfterHeader(0x80, r0, 64);
    }
    assert cp == q3 * 0x4_0000 + r2 * 4096 + r1 * 64 + r0 by {
      assert cp == q1 * 64 + r0;
      assert q1 == q2 * 64 + r1;
      assert q2 == q3 * 64 + r2;
    }
  }

  /**
   * tokenize never takes its ValueError branch: a character's encoding has 1
   * to 4 bytes, and the byte length is the magnitude class detokenize gives
   * the resulting token.
   */
  lemma TokenOfChar(c: char)
    ensures ExtractToken(Encode(c)) == Some(c as int)
    ensures |Encode(c)| == EncodedLength(c as int)
    ensures ExtractToken(Encode(c)).value < 0x11_0000
  {
    ExtractTokenOfPattern(c as int);
  }

  /**
   * detokenize rebuilds, for every token in 0..0x10FFFF, the bit pattern of
   * RFC 3629's table; a negative token is refused by `bytes`, one of 0x110000
   * or more as out of range.
   */
  lemma RebuildBytesIsPattern(token: int)
    ensures RebuildBytes(token) ==
      if token < 0 then Failure(ByteOutOfRange(token))
      else if token < 0x11_0000 then Success(BitPattern(token))
      else Failure(OutOfUnicodeRange(token))
  {
    if token < 0 {
      var values := [token];
      assert values[0] == token;
      assert MakeBytes(values, token) == Failure(ByteOutOfRange(token));
    } else if token < 0x80 {
      assert RebuildBytes(token) == Success([token]);
    } else if token < 0x800 {
      RebuildTwo(token);
    } else if token < 0x1_0000 {
      RebuildThree(token);
    } else if token < 0x11_0000 {
      RebuildFour(token);
    }
  }

  /**
   * For a token in 0..0x10FFFF that is not a surrogate, the rebuilt bytes are
   * one UTF8-char of section 4 of RFC 3629: a lead byte in C2..DF, E0..EF or
   * F0..F4 by length, continuation bytes in 80..BF, and no overlong form.
   */
  lemma RebuiltIsUtf8Char(token: int)
    requires 0 <= token < 0x11_0000
    ensures RebuildBytes(token).Success?
    ensures IsUtf8Char(RebuildBytes(token).value) <==> !IsSurrogate(token)
    ensures !IsSurrogate(token) ==> IsWellFormed(RebuildBytes(token).value)
    ensures var b := RebuildBytes(token).value;
      && (|b| == 2 ==> 0xC2 <= b[0] <= 0xDF)
      && (|b| == 3 ==> 0xE0 <= b[0] <= 0xEF)
      && (|b| == 4 ==> 0xF0 <= b[0] <= 0xF4)
      && (forall k :: 1 <= k < |b| ==> IsTail(b[k]))
  {
    RebuildBytesIsPattern(token);
    BitPatternIsUtf8Char(token);
    BitPatternWellFormed(token);
  }

  /**
   * A surrogate token is rebuilt as 0xED 0xA0..0xBF 0x80..0xBF, which strict
   * decoding refuses: detokenize raises the decoding error for it.
   */
  lemma SurrogateRejected(token: int)
    requires IsSurrogate(token)
    ensures RebuildBytes(token) == Success(BitPattern(token))
    ensures var b := BitPattern(token); |b| == 3 && b[0] == 0xED && 0xA0 <= b[1] <= 0xBF && IsTail(b[2])
    ensures DecodeToken(token) == Failure(InvalidUtf8(token, BitPattern(token)))
  {
    RebuildBytesIsPattern(token);
    DecodeTokenCases(token);
  }

  /** `0x80 | (x & 0x3F)`: a continuation byte carrying the low 6 bits of x. */
  lemma Continuation(x: nat)
    ensures Or(0x80, And(x, 0x3F)) == 0x80 + x % 64
  {
    LowBits(x, 0x3F);
    Place(2, x % 64, 64);
  }

  /** Shifting right by 6, 12 or 18 drops one, two or three 6-bit groups. */
  lemma ShrByGroups(x: nat)
    ensures Shr(x, 6) == x / 64
    ensures Shr(x, 12) == (x / 64) / 64
    ensures Shr(x, 18) == ((x / 64) / 64) / 64
  {
    Pow2Values();
    ShrIsDiv(x, 6);
    ShrIsDiv(x, 12);
    ShrIsDiv(x, 18);
    DivDiv(x, 64, 64);
    DivDiv(x / 64, 64, 64);
    DivDiv(x, 64, 4096);
  }

  lemma RebuildTwo(token: int)
    requires 0x80 <= token < 0x800
    ensures RebuildBytes(token) == Success(BitPattern(token))
  {
    var q1 := token / 64;
    var y0, y1 := Or(0xC0, Shr(token, 6)), Or(0x80, And(token, 0x3F));
    assert y0 == 0xC0 + q1 by {
      ShrByGroups(token);
      Place(6, q1, 32);
    }
    assert y1 == 0x80 + token % 64 by {
      Continuation(token);
    }
    var pattern := [0xC0 + q1, 0x80 + token % 64];
    assert BitPattern(token) == pattern;
    assert MakeBytes(pattern, token) == Success(pattern);
    assert RebuildBytes(token) == MakeBytes([y0, y1], token);
  }

  lemma RebuildThree(token: int)
    requires 0x800 <= token < 0x1_0000
    ensures RebuildBytes(token) == Success(BitPattern(token))
  {
    var q1 := token / 64;
    var q2 := q1 / 64;
    var y0, y1, y2 := Or(0xE0, Shr(token, 12)), Or(0x80, And(Shr(token, 6), 0x3F)), Or(0x80, And(token, 0x3F));
    assert y0 == 0xE0 + q2 by {
      ShrByGroups(token);
      Place(14, q2, 16);
    }
    assert y1 == 0x80 + q1 % 64 by {
      ShrByGroups(token);
      Continuation(q1);
    }
    assert y2 == 0x80 + token % 64 by {
      Continuation(token);
    }
    assert q2 < 16 by {
      DivDiv(token, 64, 64);
    }
    var pattern := [0xE0 + q2, 0x80 + q1 % 64, 0x80 + token % 64];
    assert BitPattern(token) == pattern;
    assert MakeBytes(pattern, token) == Success(pattern);
    assert RebuildBytes(token) == MakeBytes([y0, y1, y2], token);
  }

  lemma RebuildFour(token: int)
    requires 0x1_0000 <= token < 0x11_0000
    ensures RebuildBytes(token) == Success(BitPattern(token))
  {
    var q1 := token / 64;
    var q2 := q1 / 64;
    var q3 := q2 / 64;
    var y0, y1 := Or(0xF0, Shr(token, 18)), Or(0x80, And(Shr(token, 12), 0x3F));
    var y2, y3 := Or(0x80, And(Shr(token, 6), 0x3F)), Or(0x80, And(token, 0x3F));
    assert y0 == 0xF0 + q3 by {
      ShrByGroups(token);
      Place(30, q3, 8);
    }
    assert y1 == 0x80 + q2 % 64 by {
      ShrByGroups(token);
      Continuation(q2);
    }
    assert y2 == 0x80 + q1 % 64 by {
      ShrByGroups(token);
      Continuation(q1);
    }
    assert y3 == 0x80 + token % 64 by {
      Continuation(token);
    }
    assert q3 < 8 by {
      DivDiv(token, 64, 64);
      DivDiv(token, 4096, 64);
    }
    var pattern := [0xF0 + q3, 0x80 + q2 % 64, 0x80 + q1 % 64, 0x80 + token % 64];
    assert BitPattern(token) == pattern;
    assert MakeBytes(pattern, token) == Success(pattern);
    assert RebuildBytes(token) == MakeBytes([y0, y1, y2, y3], token);
  }

  /**
   * One token decodes to the one character whose code point it is exactly when
   * it is a scalar value; otherwise detokenize raises: a surrogate's rebuilt
   * bytes (0xED 0xA0..0xBF ..) are refused by strict decoding.
   */
  lemma DecodeTokenCases(token: int)
    ensures DecodeToken(token) ==
      if IsScalarValue(token) then Success([token as char]) else Failure(Rejection(token))
  {
    RebuildBytesIsPattern(token);
    if 0 <= token < 0x11_0000 {
      DecodeBitPattern(token);
    }
  }

  /** Once a prefix of the tokens fails, whatever follows it, the whole list fails with the same error. */
  lemma {:induction false} DetokenizedFailsFast(tokens: seq<int>, more: seq<int>)
    requires Detokenized(tokens).Failure?
    ensures Detokenized(tokens + more) == Detokenized(tokens)
    decreases |more|
  {
    if |more| == 0 {
      assert tokens + more == tokens;
    } else {
      var all := tokens + more;
      assert all[..|all| - 1] == tokens + more[..|more| - 1];
      DetokenizedFailsFast(tokens, more[..|more| - 1]);
    }
  }

  /** detokenize succeeds exactly when every token is a scalar value. */
  lemma {:induction false} DetokenizedSucceeds(tokens: seq<int>)
    ensures Detokenized(tokens).Success? <==> forall k :: 0 <= k < |tokens| ==> IsScalarValue(tokens[k])
    decreases |tokens|
  {
    if |tokens| > 0 {
      var init := tokens[..|tokens| - 1];
      DetokenizedSucceeds(init);
      DecodeTokenCases(tokens[|tokens| - 1]);
      assert forall k :: 0 <= k < |init| ==> init[k] == tokens[k];
    }
  }

  /**
   * Converse round trip: a list of scalar values detokenizes to the text whose
   * code points, which tokenize returns, are that list.
   */
  lemma {:induction false} DetokenizeThenTokenize(tokens: seq<int>)
    requires forall k :: 0 <= k < |tokens| ==> IsScalarValue(tokens[k])
    ensures Detokenized(tokens).Success? && CodePoints(Detokenized(tokens).value) == tokens
    decreases |tokens|
  {
    if |tokens| > 0 {
      var init, last := tokens[..|tokens| - 1], tokens[|tokens| - 1];
      DetokenizeThenTokenize(init);
      DecodeTokenCases(last);
      var prefix := Detokenized(init).value;
      assert Detokenized(tokens) == Success(prefix + [last as char]);
      assert CodePoints(prefix + [last as char]) == CodePoints(prefix) + [last];
      assert init + [last] == tokens;
    }
  }

  /** Round trip: detokenizing the tokens of a text gives the text back. */
  lemma TokenizeThenDetokenize(text: string)
    ensures Detokenized(CodePoints(text)) == Success(text)
  {
    var tokens := CodePoints(text);
    DetokenizeThenTokenize(tokens);
    var back := Detokenized(tokens).value;
    assert |back| == |text|;
    forall k | 0 <= k < |text|
      ensures back[k] == text[k]
    {
      assert back[k] as int == text[k] as int;
    }
    assert back == text;
  }

  /**
   * Fail-fast: when tokens[i] is the first token that is not a scalar value,
   * detokenize raises for tokens[i], with the reason Rejection gives.
   */
  lemma DetokenizedFirstInvalid(tokens: seq<int>, i: nat)
    requires i < |tokens| && !IsScalarValue(tokens[i])
    requires forall k :: 0 <= k < i ==> IsScalarValue(tokens[k])
    ensures Detokenized(tokens) == Failure(Rejection(tokens[i]))
  {
    var upTo := tokens[..i + 1];
    assert upTo[..i] == tokens[..i];
    DetokenizeThenTokenize(tokens[..i]);
    DecodeTokenCases(tokens[i]);
    assert Detokenized(upTo) == Failure(Rejection(tokens[i]));
    DetokenizedFailsFast(upTo, tokens[i + 1..]);
    assert upTo + tokens[i + 1..] == tokens;
  }
}
