/**
 * The six-bit compressor: 62 characters (lower-case letters, digits and
 * punctuation), each written as its 6-bit index. Text is lowercased before
 * lookup, so decompression gives the lower-case text back.
 */
module SixBit {
  import opened Wrappers
  import opened Bits
  import opened Text
  import FixedWidth

  const Width: nat := 6

  const Letters: string := "abcdefghijklmnopqrstuvwxyz"
  const Digits: string := "0123456789"
  const Symbols: string := " .,?!-_:;'\"()[]{}@#$%^&*~\n"

  /** CHARSET, in table order. */
  const Charset: string := Letters + Digits + Symbols

  /** The position of each character in the table, written out range by range; -1 outside it. */
  ghost function Index(c: char): int
  {
    if 'a' <= c <= 'z' then c as int - 'a' as int
    else if '0' <= c <= '9' then c as int - '0' as int + 26
    else match c
      case ' ' => 36 case '.' => 37 case ',' => 38 case '?' => 39 case '!' => 40 case '-' => 41
      case '_' => 42 case ':' => 43 case ';' => 44 case '\'' => 45 case '"' => 46 case '(' => 47
      case ')' => 48 case '[' => 49 case ']' => 50 case '{' => 51 case '}' => 52 case '@' => 53
      case '#' => 54 case '$' => 55 case '%' => 56 case '^' => 57 case '&' => 58 case '*' => 59
      case '~' => 60 case '\n' => 61 case _ => -1
  }

  lemma LetterIndex(k: nat)
    requires k < |Letters|
    ensures Index(Letters[k]) == k
  {
  }

  lemma DigitIndex(k: nat)
    requires k < |Digits|
    ensures Index(Digits[k]) == k + 26
  {
  }

  lemma SymbolIndex(k: nat)
    requires k < |Symbols|
    ensures Index(Symbols[k]) == k + 36
  {
  }

  /** Every character of the table sits at its own index. */
  lemma {:induction false} CharsetIndexed()
    ensures |Charset| == 62
    ensures forall k :: 0 <= k < |Charset| ==> Index(Charset[k]) == k
  {
    forall k | 0 <= k < |Charset|
      ensures Index(Charset[k]) == k
    {
      if k < 26 {
        LetterIndex(k);
      } else if k < 36 {
        DigitIndex(k - 26);
      } else {
        SymbolIndex(k - 36);
      }
    }
  }

  /** A character with a place in the table is its own lower case. */
  lemma IndexedIsLower(c: char)
    requires Index(c) >= 0
    ensures Lower(c) == c
  {
  }

  /** The table has 62 distinct characters, each its own lower case, and every index fits in 6 bits. */
  lemma CharsetValid()
    ensures |Charset| == 62 && FixedWidth.Fits(Charset, Width)
    ensures FixedWidth.Distinct(Charset)
    ensures forall c :: c in Charset ==> Lower(c) == c
  {
    CharsetIndexed();
    assert Pow2(Width) == 64;
    assert FixedWidth.Distinct(Charset) by {
      forall i, j | 0 <= i < j < |Charset|
        ensures Charset[i] != Charset[j]
      {
        assert Index(Charset[i]) == i && Index(Charset[j]) == j;
      }
    }
    forall c | c in Charset
      ensures Lower(c) == c
    {
      var k :| 0 <= k < |Charset| && Charset[k] == c;
      IndexedIsLower(c);
    }
  }

  /** ENCODE_MAP and DECODE_MAP are mutual inverses on the 62 indices and characters. */
  lemma MapsInverse()
    ensures forall k :: 0 <= k < 62 ==> FixedWidth.EncodeMap(Charset)[FixedWidth.DecodeMap(Charset)[k]] == k
    ensures forall c :: c in Charset ==> FixedWidth.DecodeMap(Charset)[FixedWidth.EncodeMap(Charset)[c]] == c
  {
    CharsetValid();
    FixedWidth.MapsInverse(Charset);
  }

  /** What `compress` returns. */
  function Encode(text: string): Result<seq<bool>>
  {
    CharsetValid();
    FixedWidth.Encode(Charset, Width, Lower, text)
  }

  /** What `decompress` returns. */
  function Decode(compressed: seq<bool>): Result<string>
  {
    FixedWidth.Decode(Charset, Width, compressed)
  }

  /**
   * Compression succeeds exactly when every character lowercases into the
   * table, and then writes 6 bits per character that decompress to the
   * lowercased text.
   */
  lemma RoundTrip(text: string)
    requires forall i :: 0 <= i < |text| ==> Lower(text[i]) in Charset
    ensures Encode(text).Success?
    ensures |Encode(text).value| == 6 * |text|
    ensures Decode(Encode(text).value) == Success(LowerString(text))
  {
    CharsetValid();
    FixedWidth.EncodeSucceeds(Charset, Width, Lower, text);
    FixedWidth.EncodeLength(Charset, Width, Lower, text);
    FixedWidth.RoundTrip(Charset, Width, Lower, text);
    assert FixedWidth.Normalized(Lower, text) == LowerString(text);
  }

  /** The first character whose lower case is not in the table is reported as it was written. */
  lemma Unsupported(text: string, i: nat)
    requires i < |text| && Lower(text[i]) !in Charset
    requires forall j :: 0 <= j < i ==> Lower(text[j]) in Charset
    ensures Encode(text) == Failure("Unsupported character: " + [text[i]])
  {
    CharsetValid();
    FixedWidth.EncodeFails(Charset, Width, Lower, text, i);
  }

  /** The two 6-bit codes past the table, 62 and 63, are rejected. */
  lemma InvalidCode(code: nat, rest: seq<bool>)
    requires 62 <= code < 64
    ensures Decode(ToBits(code, 6) + rest) == Failure("Invalid character code: " + FixedWidth.DecimalString(code))
  {
    CharsetValid();
    FixedWidth.InvalidCode(Charset, Width, code, rest);
  }

  /** Whole 6-bit groups that decompress compress back to the same bits. */
  lemma DecodeThenEncode(bits: seq<bool>, groups: nat)
    requires |bits| == 6 * groups && Decode(bits).Success?
    ensures Encode(Decode(bits).value) == Success(bits)
  {
    CharsetValid();
    FixedWidth.DecodeThenEncode(Charset, Width, Lower, bits, groups);
  }

  /** `SixBitCompressor.compress`. */
  method Compress(text: string) returns (r: Result<seq<bool>>)
    ensures r == Encode(text)
  {
    CharsetValid();
    r := FixedWidth.Compress(Charset, Width, Lower, text);
  }

  /** `SixBitCompressor.decompress`. */
  method Decompress(compressed: seq<bool>) returns (r: Result<string>)
    ensures r == Decode(compressed)
  {
    r := FixedWidth.Decompress(Charset, Width, compressed);
  }
}
