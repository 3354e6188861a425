# UTF-8 mixed-radix tokenizer, modelled in Dafny

`UTF8MixedRadixTokenizer` turns text into integers.
- `tokenize` UTF-8-encodes each character, masks off the header bits of its 1 to 4 bytes, and packs the remaining data bits into one integer per character.
- `detokenize` undoes this. It classifies each integer by magnitude (below 0x80, 0x800, 0x10000 or 0x110000), puts the UTF-8 header bits back, and strictly decodes the rebuilt bytes. It stops at the first integer that fails.

The project has four modules:
- `Wrappers` (`wrappers.dfy`): `Option` and `Result`.
- `Bits` (`bits.dfy`): Python's `&`, `|`, `<<` and `>>` on non-negative integers. `&` and `|` work bit by bit and `>>` drops the lowest bit k times. Lemmas turn them into arithmetic: a low mask gives a remainder, an OR of disjoint bit ranges gives a sum, and a right shift is floor division.
- `Utf8` (`utf8.dfy`): UTF-8 as RFC 3629 defines it. It stands in for the two library calls the tokenizer makes, `char.encode('utf-8')` and strict `bytes.decode('utf-8')`.
  - `BitPattern` is the bit-pattern table of RFC 3629 section 3.
  - `Encode` applies that table to characters only; a Dafny `char` is a Unicode scalar value, so surrogates are never encoded.
  - `IsUtf8Char` and `IsWellFormed` are the UTF8-char and UTF8-octets rules of the ABNF in RFC 3629 section 4.
  - `Decode` is a strict decoder. It rejects overlong forms, surrogates and values above U+10FFFF, and is proved to accept exactly the well-formed sequences.
- `Tokenizer` (`tokenizer.dfy`): the two operations.
  - The loops are the methods `Tokenize` and `Detokenize`.
  - The per-character and per-token bit work is in the functions `ExtractToken` and `RebuildBytes`, written with the source's own masks, shifts and header constants.
  - `Detokenize` is proved equal to the fail-fast function `Detokenized`. The lemmas then relate that function to the code points.

Tokens are Python integers, so the model uses unbounded `int`, negative values included. Characters are Dafny `char`s, which are exactly the Unicode scalar values.

`detokenize` raises a `ValueError` in three places, and the model keeps them apart as `DetokenizeError` values that carry the token:
- `ByteOutOfRange`: a negative token falls into the first class, and `bytes([token])` at line 59 refuses it. The tokenizer's own range check at line 82 never sees it, so a negative token is not reported as out of Unicode range.
- `OutOfUnicodeRange`: a token of 0x110000 or more (lines 81-82).
- `InvalidUtf8`: the rebuilt bytes do not decode (lines 83-86). This happens exactly for the surrogate tokens 0xD800-0xDFFF.

## Model

| member | source | states |
|---|---|---|
| Tokenizer.Tokenize | utf8_mixed_radix_tokenizer.py:13-42 | tokenize never raises and returns `CodePoints(text)`: one token per character, in order, each the character's code point (empty text, empty list) |
| Tokenizer.CodePoints | utf8_mixed_radix_tokenizer.py:24-42 | the token list has exactly as many elements as the text has characters, and element k is the code point of character k |
| Tokenizer.ExtractToken | utf8_mixed_radix_tokenizer.py:27-40 | the per-character branch yields a token exactly when the encoding is 1 to 4 bytes long; any other length is the ValueError of line 40 |
| Tokenizer.ExtractTokenDigits | utf8_mixed_radix_tokenizer.py:27-38 | the masks, shifts and ORs read the bytes as mixed-radix digits: the low 7, 5, 4 or 3 bits of the lead byte and the low 6 bits of each later byte, most significant first |
| Tokenizer.ExtractTokenWidth | utf8_mixed_radix_tokenizer.py:27-38 | whatever bytes of length 1 to 4 it gets, the extracted token has at most 7, 11, 16 or 21 bits |
| Tokenizer.ExtractTokenOfPattern | utf8_mixed_radix_tokenizer.py:27-38 | for every number below 0x110000, extraction from its RFC 3629 section 3 bit pattern gives that number back |
| Tokenizer.TokenOfChar | utf8_mixed_radix_tokenizer.py:25-41 | for every character, the extracted token is its code point, so the ValueError of line 40 is never raised; the byte length is the magnitude class detokenize uses for that token, and the token is below 0x110000 |
| Tokenizer.Detokenize | utf8_mixed_radix_tokenizer.py:44-87 | detokenize returns `Detokenized(tokens)`: the decoded texts of all tokens joined in order, or the error of the first token that fails, with no partial text |
| Tokenizer.MakeBytes | utf8_mixed_radix_tokenizer.py:59 | `bytes(values)` succeeds if and only if every value is in 0..255, gives the values back when it does, and otherwise fails with the token's ByteOutOfRange error |
| Tokenizer.RebuildBytes | utf8_mixed_radix_tokenizer.py:57-82 | a negative token fails with ByteOutOfRange, a token from 0x110000 up fails with OutOfUnicodeRange, and a successful rebuild is of a token in 0..0x10FFFF and has as many bytes as UTF-8 uses for it; that the bytes are exactly its RFC 3629 section 3 pattern is stated by `RebuildBytesIsPattern` |
| Tokenizer.RebuildBytesIsPattern | utf8_mixed_radix_tokenizer.py:57-82 | the rebuilt bytes fail with ByteOutOfRange for a negative token and with OutOfUnicodeRange from 0x110000 up; for every token in between they are the bit pattern of RFC 3629 section 3 |
| Tokenizer.RebuiltIsUtf8Char | utf8_mixed_radix_tokenizer.py:57-80 | for a token in 0..0x10FFFF the bytes are built, and they form one UTF8-char of RFC 3629 section 4 (and a well-formed sequence) exactly when the token is not a surrogate; lead bytes lie in C2..DF, E0..EF or F0..F4 by length, and continuation bytes in 80..BF |
| Tokenizer.SurrogateRejected | utf8_mixed_radix_tokenizer.py:66-86 | a surrogate token is rebuilt as 0xED 0xA0..0xBF 0x80..0xBF, which strict decoding refuses, so detokenize raises the decoding error carrying those bytes |
| Tokenizer.DecodeToken | utf8_mixed_radix_tokenizer.py:57-86 | every error names the token that raised it, and a token decodes only when it is in 0..0x10FFFF; the full case split (success exactly for scalar values, with that character) is stated by `DecodeTokenCases` |
| Tokenizer.DecodeTokenCases | utf8_mixed_radix_tokenizer.py:57-86 | one token decodes to the single character with that code point exactly when it is a scalar value; otherwise it fails with the reason `Rejection` gives (negative, out of range, or a surrogate's undecodable bytes) |
| Tokenizer.Join | utf8_mixed_radix_tokenizer.py:87 | `''.join` of pieces of one character each is those characters, one per piece, in order |
| Tokenizer.DetokenizedFailsFast | utf8_mixed_radix_tokenizer.py:81-86 | once a prefix of the tokens fails, the whole list fails with the same error, whatever follows |
| Tokenizer.DetokenizedSucceeds | utf8_mixed_radix_tokenizer.py:55-87 | detokenize succeeds if and only if every token is a Unicode scalar value |
| Tokenizer.DetokenizedFirstInvalid | utf8_mixed_radix_tokenizer.py:55-87 | when token i is the first token that is not a scalar value, detokenize fails with that token's error |
| Tokenizer.TokenizeThenDetokenize | utf8_mixed_radix_tokenizer.py:13-87 | round trip: detokenizing the tokens of any text gives the text back |
| Tokenizer.DetokenizeThenTokenize | utf8_mixed_radix_tokenizer.py:56-87 | converse round trip: a list of scalar values detokenizes, and tokenizing the result gives the same list |
| Utf8.Encode | utf8_mixed_radix_tokenizer.py:26 | a character's UTF-8 encoding has 1 to 4 bytes, is one UTF8-char of RFC 3629 section 4, and decodes to that character |
| Utf8.BitPatternIsUtf8Char | utf8_mixed_radix_tokenizer.py:26 | the RFC 3629 section 3 pattern of a number below 0x110000 is a UTF8-char of RFC 3629 section 4 if and only if the number is not a surrogate |
| Utf8.Decode | utf8_mixed_radix_tokenizer.py:84 | a successful strict decode yields at least one byte and at most four bytes per character; which inputs it accepts, and what it returns for a bit pattern, are stated by `DecodeAcceptsWellFormed` and `DecodeBitPattern` |
| Utf8.DecodeFirstMatchesAbnf | utf8_mixed_radix_tokenizer.py:84 | the strict decoder reads a first character of n bytes exactly when the first n bytes form a UTF8-char |
| Utf8.DecodeAcceptsWellFormed | utf8_mixed_radix_tokenizer.py:84 | strict decoding succeeds if and only if the bytes are well-formed UTF-8 in the sense of RFC 3629 section 4 |
| Utf8.DecodeFirstBitPattern | utf8_mixed_radix_tokenizer.py:84 | the decoder reads a whole bit pattern as its number in one step, and refuses a surrogate's pattern |
| Utf8.DecodeBitPattern | utf8_mixed_radix_tokenizer.py:84 | decoding the pattern of a number gives the single character with that number, and fails for a surrogate |
| Utf8.BitPatternWellFormed | utf8_mixed_radix_tokenizer.py:84 | a bit pattern is well-formed UTF-8 if and only if its number is a scalar value |
| Bits.And | utf8_mixed_radix_tokenizer.py:29-38 | the bitwise AND is at most each operand |
| Bits.Or | utf8_mixed_radix_tokenizer.py:32-38 | the bitwise OR is at least each operand and at most their sum |
| Bits.Shl | utf8_mixed_radix_tokenizer.py:32-38 | has no ensures of its own (it is the product x * 2^k); the shifts the tokenizer makes are evaluated by `Tokenizer.ShlValues`, and `Bits.OrDisjoint` turns each shifted digit OR-ed with the lower ones into a sum |
| Tokenizer.ShlValues | utf8_mixed_radix_tokenizer.py:32-38 | shifting left by 6, 12 or 18 multiplies by 64, 4096 or 0x40000 |
| Bits.Shr | utf8_mixed_radix_tokenizer.py:63-78 | a right shift never makes a non-negative value larger; that it is floor division by 2^k is stated by `Bits.ShrIsDiv` |
| Bits.OrCommutes | utf8_mixed_radix_tokenizer.py:63-79 | the bitwise OR commutes, so a header can stand on either side of it |
| Bits.AndLowMask | utf8_mixed_radix_tokenizer.py:29-38 | masking with 2^k - 1 keeps the remainder modulo 2^k |
| Bits.OrDisjoint | utf8_mixed_radix_tokenizer.py:32-38 | OR of a multiple of 2^k with a value below 2^k is their sum |
| Bits.ShrIsDiv | utf8_mixed_radix_tokenizer.py:63-78 | right shift by k of a non-negative integer is floor division by 2^k |

## Left out

- The constructor (lines 9-11) does nothing and holds no state, so there is no class. The two operations are module-level methods.
- The demo block (lines 90-101) only prints the result of one call to each operation.
- Exception messages (lines 40, 82, 86) are not modelled. The errors are datatype values that carry the offending token, plus the rebuilt bytes for a decoding error. The chained `UnicodeDecodeError` detail (position and reason) is not carried.
- Python strings holding lone surrogates cannot be given to `Tokenize`. A Dafny `char` is always a scalar value, so the `UnicodeEncodeError` that `char.encode('utf-8')` raises at line 26 for such strings is not modelled.
- Tokenize: the ValueError of line 40 is kept only as `ExtractToken` returning None. `TokenOfChar` proves that branch dead, so `Tokenize` returns the token list itself and has no error result.
- The internals of Python's `str.encode` and `bytes.decode` are replaced by the RFC 3629 model in `Utf8`. Only the outcome is modelled: the bytes, or acceptance and refusal. The decoder's error reporting is not.
- Bits.And, Bits.Or and Bits.Shr are defined for non-negative operands only. The tokenizer applies them only to byte values and to tokens already known to be non-negative, so Python's two's-complement behaviour on negative integers is not modelled.
