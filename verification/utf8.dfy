/**
 * UTF-8 as RFC 3629 defines it, standing in for the two library calls the
 * tokenizer makes: `str.encode('utf-8')` on one character and strict
 * `bytes.decode('utf-8')`.
 *
 * - `BitPattern` is the table of RFC 3629 section 3: the x bits of
 *   0xxxxxxx / 110xxxxx 10xxxxxx / 1110xxxx 10xxxxxx 10xxxxxx /
 *   11110xxx 10xxxxxx 10xxxxxx 10xxxxxx, filled from the low-order bits of
 *   the character number upward.  It is defined for every number below
 *   0x110000, surrogates included, because the tokenizer rebuilds that very
 *   pattern for any token in range; `Encode` applies it to characters only,
 *   which is the section's rule that U+D800..U+DFFF must not be encoded.
 * - `IsUtf8Char` and `IsWellFormed` are the UTF8-char and UTF8-octets rules of
 *   the ABNF in RFC 3629 section 4.
 * - `Decode` is a strict decoder written the way decoders are: the lead byte
 *   fixes the length, the following bytes must be continuation bytes, and the
 *   value read must be neither overlong, nor a surrogate, nor above U+10FFFF.
 *   `DecodeAcceptsWellFormed` proves it accepts exactly the ABNF's sequences.
 */
module Utf8 {
  import opened Wrappers

  type byte = b: int | 0 <= b < 0x100

  /** A Unicode scalar value: a code point that is not a surrogate (the values a Dafny `char` holds). */
  predicate IsScalarValue(cp: int) {
    0 <= cp < 0xD800 || 0xE000 <= cp < 0x11_0000
  }

  predicate IsSurrogate(cp: int) {
    0xD800 <= cp <= 0xDFFF
  }

  /** The number of bytes the table of RFC 3629 section 3 gives a character number. */
  function EncodedLength(cp: int): nat {
    if cp < 0x80 then 1 else if cp < 0x800 then 2 else if cp < 0x1_0000 then 3 else 4
  }

  /** The bit pattern of the table of RFC 3629 section 3 for a character number. */
  function BitPattern(cp: int): (s: seq<byte>)
    requires 0 <= cp < 0x11_0000
    ensures |s| == EncodedLength(cp)
  {
    var q1 := cp / 64;
    var q2 := q1 / 64;
    var q3 := q2 / 64;
    if cp < 0x80 then [cp]
    else if cp < 0x800 then [0xC0 + q1, 0x80 + cp % 64]
    else if cp < 0x1_0000 then [0xE0 + q2, 0x80 + q1 % 64, 0x80 + cp % 64]
    else [0xF0 + q3, 0x80 + q2 % 64, 0x80 + q1 % 64, 0x80 + cp % 64]
  }

  /** `c.encode('utf-8')` for one character. */
  function Encode(c: char): (s: seq<byte>)
    ensures 1 <= |s| <= 4
    ensures IsUtf8Char(s)
    ensures Decode(s) == Some([c])
  {
    BitPatternIsUtf8Char(c as int);
    DecodeBitPattern(c as int);
    BitPattern(c as int)
  }

  /** UTF8-tail = %x80-BF */
  predicate IsTail(b: int) {
    0x80 <= b <= 0xBF
  }

  /** UTF8-char = UTF8-1 / UTF8-2 / UTF8-3 / UTF8-4 */
  predicate IsUtf8Char(s: seq<byte>) {
    || (|s| == 1 && s[0] <= 0x7F)
    || (|s| == 2 && 0xC2 <= s[0] <= 0xDF && IsTail(s[1]))
    || (|s| == 3 && IsTail(s[2]) &&
        (|| (s[0] == 0xE0 && 0xA0 <= s[1] <= 0xBF)
         || (0xE1 <= s[0] <= 0xEC && IsTail(s[1]))
         || (s[0] == 0xED && 0x80 <= s[1] <= 0x9F)
         || (0xEE <= s[0] <= 0xEF && IsTail(s[1]))))
    || (|s| == 4 && IsTail(s[2]) && IsTail(s[3]) &&
        (|| (s[0] == 0xF0 && 0x90 <= s[1] <= 0xBF)
         || (0xF1 <= s[0] <= 0xF3 && IsTail(s[1]))
         || (s[0] == 0xF4 && 0x80 <= s[1] <= 0x8F)))
  }

  /** UTF8-octets = *( UTF8-char ) */
  predicate IsWellFormed(s: seq<byte>)
    decreases |s|
  {
    if |s| == 0 then true
    else
      || (IsUtf8Char(s[..1]) && IsWellFormed(s[1..]))
      || (|s| >= 2 && IsUtf8Char(s[..2]) && IsWellFormed(s[2..]))
      || (|s| >= 3 && IsUtf8Char(s[..3]) && IsWellFormed(s[3..]))
      || (|s| >= 4 && IsUtf8Char(s[..4]) && IsWellFormed(s[4..]))
  }

  /**
   * The first character of a non-empty byte sequence and the number of bytes
   * it takes, or None when the sequence does not start with a character.
   */
  function DecodeFirst(s: seq<byte>): (r: Option<(char, nat)>)
    requires |s| > 0
    ensures r.Some? ==> 1 <= r.value.1 <= 4 && r.value.1 <= |s|
  {
    var b0: int := s[0];
    if b0 < 0x80 then Some((b0 as char, 1))
    else if b0 < 0xC0 then None
    else if b0 < 0xE0 then
      if |s| < 2 || !IsTail(s[1]) then None
      else
        var b1: int := s[1];
        var cp := (b0 - 0xC0) * 64 + (b1 - 0x80);
        if cp < 0x80 then None else Some((cp as char, 2))
    else if b0 < 0xF0 then
      if |s| < 3 || !IsTail(s[1]) || !IsTail(s[2]) then None
      else
        var b1: int, b2: int := s[1], s[2];
        var cp := (b0 - 0xE0) * 4096 + (b1 - 0x80) * 64 + (b2 - 0x80);
        if cp < 0x800 || IsSurrogate(cp) then None else Some((cp as char, 3))
    else if b0 < 0xF8 then
      if |s| < 4 || !IsTail(s[1]) || !IsTail(s[2]) || !IsTail(s[3]) then None
      else
        var b1: int, b2: int, b3: int := s[1], s[2], s[3];
        var cp := (b0 - 0xF0) * 0x4_0000 + (b1 - 0x80) * 4096 + (b2 - 0x80) * 64 + (b3 - 0x80);
        if cp < 0x1_0000 || cp >= 0x11_0000 then None else Some((cp as char, 4))
    else None
  }

  /**
   * Strict decoding of a whole byte sequence: None as soon as a character is
   * malformed; each character takes 1 to 4 bytes.
   */
  function Decode(s: seq<byte>): (r: Option<string>)
    ensures r.Some? ==> |r.value| <= |s| <= 4 * |r.value|
    decreases |s|
  {
    if |s| == 0 then Some([])
    else
      match DecodeFirst(s)
      case None => None
      case Some((c, n)) =>
        match Decode(s[n..])
        case None => None
        case Some(rest) => Some([c] + rest)
  }

  /**
   * The decoder reads a first character of n bytes exactly when the first n
   * bytes form a UTF8-char; so at most one prefix is a UTF8-char.
   */
  lemma DecodeFirstMatchesAbnf(s: seq<byte>, n: nat)
    requires 1 <= n <= |s|
    ensures (DecodeFirst(s).Some? && DecodeFirst(s).value.1 == n) <==> IsUtf8Char(s[..n])
  {
  }

  /** The strict decoder accepts exactly the well-formed byte sequences of RFC 3629 section 4. */
  lemma {:induction false} DecodeAcceptsWellFormed(s: seq<byte>)
    ensures Decode(s).Some? <==> IsWellFormed(s)
    decreases |s|
  {
    if |s| > 0 {
      DecodeFirstMatchesAbnf(s, 1);
      DecodeAcceptsWellFormed(s[1..]);
      if |s| >= 2 {
        DecodeFirstMatchesAbnf(s, 2);
        DecodeAcceptsWellFormed(s[2..]);
      }
      if |s| >= 3 {
        DecodeFirstMatchesAbnf(s, 3);
        DecodeAcceptsWellFormed(s[3..]);
      }
      if |s| >= 4 {
        DecodeFirstMatchesAbnf(s, 4);
        DecodeAcceptsWellFormed(s[4..]);
      }
    }
  }

  /** The pattern of RFC 3629 section 3 is a UTF8-char of RFC 3629 section 4 for every number but a surrogate. */
  lemma BitPatternIsUtf8Char(cp: int)
    requires 0 <= cp < 0x11_0000
    ensures IsUtf8Char(BitPattern(cp)) <==> !IsSurrogate(cp)
  {
  }

  /** The decoder reads a whole pattern as its number, unless the number is a surrogate. */
  lemma DecodeFirstBitPattern(cp: int)
    requires 0 <= cp < 0x11_0000
    ensures DecodeFirst(BitPattern(cp)) ==
      if IsSurrogate(cp) then None else Some((cp as char, EncodedLength(cp)))
  {
  }

  /** Decoding a pattern gives back its character; a surrogate's pattern is refused. */
  lemma DecodeBitPattern(cp: int)
    requires 0 <= cp < 0x11_0000
    ensures Decode(BitPattern(cp)) == if IsSurrogate(cp) then None else Some([cp as char])
  {
    var s := BitPattern(cp);
    DecodeFirstBitPattern(cp);
    assert s[|s|..] == [];
    assert Decode(s[|s|..]) == Some([]);
    if !IsSurrogate(cp) {
      assert Decode(s) == Some([cp as char] + []);
      assert [cp as char] + [] == [cp as char];
    }
  }

  /** A pattern is a well-formed byte sequence exactly when its number is a scalar value. */
  lemma BitPatternWellFormed(cp: int)
    requires 0 <= cp < 0x11_0000
    ensures IsWellFormed(BitPattern(cp)) <==> IsScalarValue(cp)
  {
    DecodeBitPattern(cp);
    DecodeAcceptsWellFormed(BitPattern(cp));
  }
}
