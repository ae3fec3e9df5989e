/**
 * The seven-bit compressor: 88 characters (both cases of the letters,
 * digits and punctuation), each written as its 7-bit index. Lookup is
 * case-sensitive, so decompression gives the text back exactly.
 */
module SevenBit {
  import opened Wrappers
  import opened Bits
  import FixedWidth

  const Width: nat := 7

  const Capitals: string := "ABCDEFGHIJKLMNOPQRSTUVWXYZ"
  const Letters: string := "abcdefghijklmnopqrstuvwxyz"
  const Digits: string := "0123456789"
  const Symbols: string := " .,?!-_():;'\"@#$%^&*+=~\U{A9}\U{AE}\n"

  /** CHARSET, in table order: 88 characters. */
  const Charset: string := Capitals + Letters + Digits + Symbols

  /** Characters are looked up as they are written. */
  function AsIs(c: char): char
  {
    c
  }

  /** The position of each character in the table, written out range by range; -1 outside it. */
  ghost function Index(c: char): int
  {
    if 'A' <= c <= 'Z' then c as int - 'A' as int
    else if 'a' <= c <= 'z' then c as int - 'a' as int + 26
    else if '0' <= c <= '9' then c as int - '0' as int + 52
    else match c
      case ' ' => 62 case '.' => 63 case ',' => 64 case '?' => 65 case '!' => 66 case '-' => 67
      case '_' => 68 case '(' => 69 case ')' => 70 case ':' => 71 case ';' => 72 case '\'' => 73
      case '"' => 74 case '@' => 75 case '#' => 76 case '$' => 77 case '%' => 78 case '^' => 79
      case '&' => 80 case '*' => 81 case '+' => 82 case '=' => 83 case '~' => 84 case '\U{A9}' => 85
      case '\U{AE}' => 86 case '\n' => 87 case _ => -1
  }

  lemma CapitalIndex(k: nat)
    requires k < |Capitals|
    ensures Index(Capitals[k]) == k
  {
  }

  lemma LetterIndex(k: nat)
    requires k < |Letters|
    ensures Index(Letters[k]) == k + 26
  {
  }

  lemma DigitIndex(k: nat)
    requires k < |Digits|
    ensures Index(Digits[k]) == k + 52
  {
  }

  lemma SymbolIndex(k: nat)
    requires k < |Symbols|
    ensures Index(Symbols[k]) == k + 62
  {
  }

  /** Every character of the table sits at its own index. */
  lemma {:induction false} CharsetIndexed()
    ensures |Charset| == 88
    ensures forall k :: 0 <= k < |Charset| ==> Index(Charset[k]) == k
  {
    forall k | 0 <= k < |Charset|
      ensures Index(Charset[k]) == k
    {
      if k < 26 {
        CapitalIndex(k);
      } else if k < 52 {
        LetterIndex(k - 26);
      } else if k < 62 {
        DigitIndex(k - 52);
      } else {
        SymbolIndex(k - 62);
      }
    }
  }

  /** The table has 88 distinct characters, and every index fits in 7 bits. */
  lemma CharsetValid()
    ensures |Charset| == 88 && FixedWidth.Fits(Charset, Width)
    ensures FixedWidth.Distinct(Charset)
  {
    CharsetIndexed();
    assert Pow2(Width) == 128;
    assert FixedWidth.Distinct(Charset) by {
      forall i, j | 0 <= i < j < |Charset|
        ensures Charset[i] != Charset[j]
      {
        assert Index(Charset[i]) == i && Index(Charset[j]) == j;
      }
    }
  }

  /** ENCODE_MAP and DECODE_MAP are mutual inverses on the 88 indices and characters. */
  lemma MapsInverse()
    ensures forall k :: 0 <= k < 88 ==> FixedWidth.EncodeMap(Charset)[FixedWidth.DecodeMap(Charset)[k]] == k
    ensures forall c :: c in Charset ==> FixedWidth.DecodeMap(Charset)[FixedWidth.EncodeMap(Charset)[c]] == c
  {
    CharsetValid();
    FixedWidth.MapsInverse(Charset);
  }

  /** What `compress` returns. */
  function Encode(text: string): Result<seq<bool>>
  {
    CharsetValid();
    FixedWidth.Encode(Charset, Width, AsIs, text)
  }

  /** What `decompress` returns. */
  function Decode(compressed: seq<bool>): Result<string>
  {
    FixedWidth.Decode(Charset, Width, compressed)
  }

  /**
   * Compression succeeds exactly when every character is in the table, and
   * then writes 7 bits per character that decompress to the text itself.
   */
  lemma RoundTrip(text: string)
    requires forall i :: 0 <= i < |text| ==> text[i] in Charset
    ensures Encode(text).Success?
    ensures |Encode(text).value| == 7 * |text|
    ensures Decode(Encode(text).value) == Success(text)
  {
    CharsetValid();
    FixedWidth.EncodeSucceeds(Charset, Width, AsIs, text);
    FixedWidth.EncodeLength(Charset, Width, AsIs, text);
    FixedWidth.RoundTrip(Charset, Width, AsIs, text);
    assert FixedWidth.Normalized(AsIs, text) == text;
  }

  /** The first character not in the table is reported. */
  lemma Unsupported(text: string, i: nat)
    requires i < |text| && text[i] !in Charset
    requires forall j :: 0 <= j < i ==> text[j] in Charset
    ensures Encode(text) == Failure("Unsupported character: " + [text[i]])
  {
    CharsetValid();
    FixedWidth.EncodeFails(Charset, Width, AsIs, text, i);
  }

  /** The 7-bit codes past the table, 88 to 127, are rejected. */
  lemma InvalidCode(code: nat, rest: seq<bool>)
    requires 88 <= code < 128
    ensures Decode(ToBits(code, 7) + rest) == Failure("Invalid character code: " + FixedWidth.DecimalString(code))
  {
    CharsetValid();
    FixedWidth.InvalidCode(Charset, Width, code, rest);
  }

  /** Whole 7-bit groups that decompress compress back to the same bits. */
  lemma DecodeThenEncode(bits: seq<bool>, groups: nat)
    requires |bits| == 7 * groups && Decode(bits).Success?
    ensures Encode(Decode(bits).value) == Success(bits)
  {
    CharsetValid();
    FixedWidth.DecodeThenEncode(Charset, Width, AsIs, bits, groups);
  }

  /** `SevenBitCompressor.compress`. */
  method Compress(text: string) returns (r: Result<seq<bool>>)
    ensures r == Encode(text)
  {
    CharsetValid();
    r := FixedWidth.Compress(Charset, Width, AsIs, text);
  }

  /** `SevenBitCompressor.decompress`. */
  method Decompress(compressed: seq<bool>) returns (r: Result<string>)
    ensures r == Decode(compressed)
  {
    r := FixedWidth.Decompress(Charset, Width, compressed);
  }
}
