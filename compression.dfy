/**
 * The compression block: a `Compressor` turns the secret plaintext into
 * message bits with the method chosen when it is made, and turns message
 * bits back into text.
 *
 * The UTF-8 codec of Python's `str.encode` and `bytes.decode` is a
 * parameter, as is the heap order the Huffman coder pops in.
 */
module Compression {
  import opened Wrappers
  import opened Bits
  import opened Text
  import Lz77
  import Huffman
  import SixBit
  import SevenBit

  /** `str.encode("utf-8")` and `bytes.decode("utf-8")`; decoding fails on malformed bytes. */
  datatype Utf8Codec = Utf8Codec(encode: string -> seq<Byte>, decode: seq<Byte> -> Result<string>)

  /** The five compression methods. */
  datatype Method = Utf8 | Lz77Method | HuffmanMethod | SixBitMethod | SevenBitMethod

  /** VALID_METHODS. */
  const ValidMethods: set<string> := {"utf8", "lz77", "huffman", "six_bit", "seven_bit"}

  /**
   * The TypeError Python 3.10 and later raise when `decompress` is called
   * without its `tree` argument.
   */
  const HuffmanDecompressError := "HuffmanCompressor.decompress() missing 1 required positional argument: 'tree'"

  /** The window size `LZ77Compressor()` is made with. */
  const DefaultWindow := 20

  /** The name a method is chosen by. */
  function Name(m: Method): (r: string)
    ensures r in ValidMethods
  {
    match m
    case Utf8 => "utf8"
    case Lz77Method => "lz77"
    case HuffmanMethod => "huffman"
    case SixBitMethod => "six_bit"
    case SevenBitMethod => "seven_bit"
  }

  /** The method a name stands for, if it is one of VALID_METHODS. */
  function Named(name: string): (r: Option<Method>)
  {
    if name == "utf8" then Some(Utf8)
    else if name == "lz77" then Some(Lz77Method)
    else if name == "huffman" then Some(HuffmanMethod)
    else if name == "six_bit" then Some(SixBitMethod)
    else if name == "seven_bit" then Some(SevenBitMethod)
    else None
  }

  /** `Named` recognises exactly VALID_METHODS and inverts `Name`. */
  lemma NamedIsName(name: string, m: Method)
    ensures Named(name).Some? <==> name in ValidMethods
    ensures Named(name).Some? ==> Name(Named(name).value) == name
    ensures Named(Name(m)) == Some(m)
  {
  }

  /** What `__init__` accepts: the requested name lowercased, or the error it raises. */
  function Chosen(requested: string): Result<Method>
  {
    var name := LowerString(requested);
    match Named(name)
    case None => Failure("Unsupported compression method: " + name)
    case Some(m) => Success(m)
  }

  /**
   * A name is accepted in any mixture of cases of a valid name, and the
   * error names the lowercased request.
   */
  lemma ChosenCases(requested: string)
    ensures Chosen(requested).Success? <==> LowerString(requested) in ValidMethods
    ensures Chosen(requested).Success? ==> Name(Chosen(requested).value) == LowerString(requested)
    ensures Chosen(requested).Failure? ==>
      Chosen(requested).error == "Unsupported compression method: " + LowerString(requested)
  {
    NamedIsName(LowerString(requested), Utf8);
  }

  /** Asking again for the name a compressor ended up with chooses the same method. */
  lemma ChosenStable(requested: string)
    requires Chosen(requested).Success?
    ensures Chosen(Name(Chosen(requested).value)) == Chosen(requested)
  {
    ChosenCases(requested);
    LowerIdempotent(requested);
    NamedIsName(LowerString(requested), Chosen(requested).value);
  }

  class Compressor {
    const algorithm: Method

    constructor(m: Method)
      ensures algorithm == m
    {
      algorithm := m;
    }

    /** `Compressor(method)`: a compressor for the lowercased name, or the error `__init__` raises. */
    static method Create(requested: string) returns (r: Result<Compressor>)
      ensures r.Failure? <==> Chosen(requested).Failure?
      ensures r.Failure? ==> r.error == Chosen(requested).error
      ensures r.Success? ==> fresh(r.value) && r.value.algorithm == Chosen(requested).value
    {
      var name := LowerString(requested);
      var m := Named(name);
      if m.None? {
        return Failure("Unsupported compression method: " + name);
      }
      var c := new Compressor(m.value);
      r := Success(c);
    }

    /** `compress`: the plaintext as message bits, by the chosen method. */
    function Compress(utf8: Utf8Codec, pick: seq<Huffman.Node> -> nat, plaintext: string): Result<seq<bool>>
    {
      match algorithm
      case Utf8 => Success(BytesToBits(utf8.encode(plaintext)))
      case Lz77Method => Success(Lz77.Compressed(utf8.encode(plaintext), DefaultWindow))
      case HuffmanMethod => Huffman.Compress(plaintext, pick)
      case SixBitMethod => SixBit.Encode(plaintext)
      case SevenBitMethod => SevenBit.Encode(plaintext)
    }

    /**
     * `decompress`: message bits back to text. The Huffman branch calls
     * `decompress` without the code table, which Python refuses.
     */
    function Decompress(utf8: Utf8Codec, compressed: seq<bool>): Result<string>
    {
      match algorithm
      case Utf8 => utf8.decode(Packed(compressed))
      case Lz77Method =>
        (match Lz77.Decoded(compressed, [])
         case Failure(e) => Failure(e)
         case Success(bytes) => utf8.decode(bytes))
      case HuffmanMethod => Failure(HuffmanDecompressError)
      case SixBitMethod => SixBit.Decode(compressed)
      case SevenBitMethod => SevenBit.Decode(compressed)
    }

    /** UTF-8: eight bits per byte of the encoding, and decompression gives the text back. */
    lemma Utf8RoundTrip(utf8: Utf8Codec, pick: seq<Huffman.Node> -> nat, plaintext: string)
      requires algorithm == Utf8
      requires utf8.decode(utf8.encode(plaintext)) == Success(plaintext)
      ensures Compress(utf8, pick, plaintext).Success?
      ensures |Compress(utf8, pick, plaintext).value| == 8 * |utf8.encode(plaintext)|
      ensures Decompress(utf8, Compress(utf8, pick, plaintext).value) == Success(plaintext)
    {
      PackedOfBytesToBits(utf8.encode(plaintext));
    }

    /** LZ77: whole bytes of output, and decompression gives the text back. */
    lemma Lz77RoundTrip(utf8: Utf8Codec, pick: seq<Huffman.Node> -> nat, plaintext: string)
      requires algorithm == Lz77Method
      requires utf8.decode(utf8.encode(plaintext)) == Success(plaintext)
      ensures Compress(utf8, pick, plaintext).Success?
      ensures |Compress(utf8, pick, plaintext).value| % 8 == 0
      ensures Decompress(utf8, Compress(utf8, pick, plaintext).value) == Success(plaintext)
    {
      Lz77.RoundTrip(utf8.encode(plaintext), DefaultWindow);
    }

    /** Six-bit: text within the table comes back lowercased; anything else is refused. */
    lemma SixBitRoundTrip(utf8: Utf8Codec, pick: seq<Huffman.Node> -> nat, plaintext: string)
      requires algorithm == SixBitMethod
      ensures Compress(utf8, pick, plaintext).Success? <==>
        forall i :: 0 <= i < |plaintext| ==> Lower(plaintext[i]) in SixBit.Charset
      ensures Compress(utf8, pick, plaintext).Success? ==>
        Decompress(utf8, Compress(utf8, pick, plaintext).value) == Success(LowerString(plaintext))
    {
      if forall i :: 0 <= i < |plaintext| ==> Lower(plaintext[i]) in SixBit.Charset {
        SixBit.RoundTrip(plaintext);
      } else {
        var i :| 0 <= i < |plaintext| && Lower(plaintext[i]) !in SixBit.Charset;
        var j := FirstOutside(plaintext, SixBit.Charset, Lower, i);
        SixBit.Unsupported(plaintext, j);
      }
    }

    /** Seven-bit: text within the table comes back as it was; anything else is refused. */
    lemma SevenBitRoundTrip(utf8: Utf8Codec, pick: seq<Huffman.Node> -> nat, plaintext: string)
      requires algorithm == SevenBitMethod
      ensures Compress(utf8, pick, plaintext).Success? <==>
        forall i :: 0 <= i < |plaintext| ==> plaintext[i] in SevenBit.Charset
      ensures Compress(utf8, pick, plaintext).Success? ==>
        Decompress(utf8, Compress(utf8, pick, plaintext).value) == Success(plaintext)
    {
      if forall i :: 0 <= i < |plaintext| ==> plaintext[i] in SevenBit.Charset {
        SevenBit.RoundTrip(plaintext);
      } else {
        var i :| 0 <= i < |plaintext| && SevenBit.AsIs(plaintext[i]) !in SevenBit.Charset;
        var j := FirstOutside(plaintext, SevenBit.Charset, SevenBit.AsIs, i);
        SevenBit.Unsupported(plaintext, j);
      }
    }

    /**
     * Huffman: text of two or more distinct characters compresses, but the
     * bits never decompress through `Compressor`, which has no table to pass.
     */
    lemma HuffmanOneWay(utf8: Utf8Codec, pick: seq<Huffman.Node> -> nat, plaintext: string, compressed: seq<bool>)
      requires algorithm == HuffmanMethod
      ensures |Huffman.Chars(plaintext)| >= 2 ==> Compress(utf8, pick, plaintext).Success?
      ensures plaintext == [] ==> Compress(utf8, pick, plaintext).Failure?
      ensures Decompress(utf8, compressed) == Failure(HuffmanDecompressError)
    {
      if |Huffman.Chars(plaintext)| >= 2 {
        Huffman.RoundTrip(plaintext, pick);
      }
      Huffman.EmptyText(pick);
    }
  }

  /** The first position whose normalised character is outside the table, at or before `i`. */
  lemma {:induction false} FirstOutside(text: string, cs: string, norm: char -> char, i: nat) returns (j: nat)
    requires i < |text| && norm(text[i]) !in cs
    ensures j <= i && norm(text[j]) !in cs
    ensures forall k :: 0 <= k < j ==> norm(text[k]) in cs
    decreases i
  {
    if forall k :: 0 <= k < i ==> norm(text[k]) in cs {
      j := i;
    } else {
      var k :| 0 <= k < i && norm(text[k]) !in cs;
      j := FirstOutside(text, cs, norm, k);
    }
  }
}
