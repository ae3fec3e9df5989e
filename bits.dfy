/**
 * Bits and bytes: the fixed-width big-endian conversions the codecs rely on
 * (Python's `format(n, "0wb")` / `int(bits, 2)`) and encryption.py's
 * `bytes2bits` / `bits2bytes`. A bit (a bitarray element, or one of the 0/1
 * integers of encryption.py's lists) is a `bool`.
 */
module Bits {

  type Byte = x: int | 0 <= x < 256

  function Pow2(n: nat): (r: nat)
    ensures r >= 1
  {
    if n == 0 then 1 else 2 * Pow2(n - 1)
  }

  /** The unsigned big-endian number written by `bs` (`int(bs.to01(), 2)`). */
  function Value(bs: seq<bool>): nat
  {
    if bs == [] then 0
    else 2 * Value(bs[..|bs| - 1]) + (if bs[|bs| - 1] then 1 else 0)
  }

  /** The `w`-bit big-endian writing of `n`, most significant bit first (`format(n, "0wb")`). */
  function ToBits(n: nat, w: nat): (r: seq<bool>)
    requires n < Pow2(w)
    ensures |r| == w
  {
    if w == 0 then [] else ToBits(n / 2, w - 1) + [n % 2 == 1]
  }

  function Zeros(n: nat): (r: seq<bool>)
    ensures |r| == n
  {
    seq(n, _ => false)
  }

  /** A `w`-bit string writes a number below `2^w`. */
  lemma {:induction false} ValueBound(bs: seq<bool>)
    ensures Value(bs) < Pow2(|bs|)
  {
    if bs != [] {
      ValueBound(bs[..|bs| - 1]);
    }
  }

  /** Reading back a written number gives the number. */
  lemma {:induction false} ValueOfToBits(n: nat, w: nat)
    requires n < Pow2(w)
    ensures Value(ToBits(n, w)) == n
  {
    if w > 0 {
      var r := ToBits(n, w);
      assert r[..w - 1] == ToBits(n / 2, w - 1);
      ValueOfToBits(n / 2, w - 1);
    }
  }

  /** Writing the value of a bit string at its own width gives the bit string back. */
  lemma {:induction false} ToBitsOfValue(bs: seq<bool>)
    ensures Value(bs) < Pow2(|bs|) && ToBits(Value(bs), |bs|) == bs
  {
    ValueBound(bs);
    if bs != [] {
      var init := bs[..|bs| - 1];
      ToBitsOfValue(init);
      assert Value(bs) / 2 == Value(init);
    }
  }

  /** Two bit strings of one width with the same value are equal. */
  lemma {:induction false} ValueInjective(a: seq<bool>, b: seq<bool>)
    requires |a| == |b| && Value(a) == Value(b)
    ensures a == b
  {
    ToBitsOfValue(a);
    ToBitsOfValue(b);
  }

  /** The value of a concatenation: the high part shifted left by the width of the low part. */
  lemma {:induction false} ValueAppend(hi: seq<bool>, lo: seq<bool>)
    ensures Value(hi + lo) == Value(hi) * Pow2(|lo|) + Value(lo)
  {
    if lo == [] {
      assert hi + lo == hi;
    } else {
      var s := hi + lo;
      var init := lo[..|lo| - 1];
      var last := if lo[|lo| - 1] then 1 else 0;
      assert Value(s) == 2 * Value(hi + init) + last by {
        assert s[..|s| - 1] == hi + init;
        assert s[|s| - 1] == lo[|lo| - 1];
      }
      ValueAppend(hi, init);
      var h, p, v := Value(hi), Pow2(|init|), Value(init);
      assert Pow2(|lo|) == 2 * p;
      assert Value(lo) == 2 * v + last;
      MulDouble(h, p);
    }
  }

  lemma MulDouble(h: nat, p: nat)
    ensures 2 * (h * p) == h * (2 * p)
  {
  }

  /** The bit `7 - j` of a byte, i.e. its `j`-th bit counted from the most significant. */
  function ByteBits(b: Byte): (r: seq<bool>)
    ensures |r| == 8 && Value(r) == b
  {
    assert Pow2(8) == 256;
    ValueOfToBits(b, 8);
    ToBits(b, 8)
  }

  /** encryption.py `bytes2bits`, and bitarray's `frombytes`: every byte as 8 bits, MSB first. */
  function BytesToBits(data: seq<Byte>): (r: seq<bool>)
    ensures |r| == 8 * |data|
  {
    if data == [] then [] else ByteBits(data[0]) + BytesToBits(data[1..])
  }

  /** Bits `8 * i` to `8 * i + 8` of `bytes2bits(data)` write byte `i`. */
  lemma {:induction false} BytesToBitsAt(data: seq<Byte>, i: nat)
    requires i < |data|
    ensures BytesToBits(data)[8 * i .. 8 * i + 8] == ByteBits(data[i])
  {
    if i > 0 {
      BytesToBitsAt(data[1..], i - 1);
      var rest := BytesToBits(data[1..]);
      assert BytesToBits(data)[8 * i .. 8 * i + 8] == rest[8 * (i - 1) .. 8 * (i - 1) + 8];
    }
  }

  /** bytes2bits distributes over concatenation. */
  lemma {:induction false} BytesToBitsAppend(a: seq<Byte>, b: seq<Byte>)
    ensures BytesToBits(a + b) == BytesToBits(a) + BytesToBits(b)
  {
    if a != [] {
      assert (a + b)[1..] == a[1..] + b;
      BytesToBitsAppend(a[1..], b);
    } else {
      assert a + b == b;
    }
  }

  /**
   * The bytes a bit list packs into, eight bits per byte, MSB first; a last
   * chunk shorter than eight bits fills the high-order positions and leaves the
   * rest zero. This is encryption.py `bits2bytes`, and bitarray's `tobytes`.
   */
  function Packed(bits: seq<bool>): (r: seq<Byte>)
    decreases |bits|
  {
    if bits == [] then []
    else if |bits| < 8 then [ChunkValue(bits)]
    else [ChunkValue(bits[..8])] + Packed(bits[8..])
  }

  /** The byte a chunk of at most eight bits packs into, the chunk taking the high-order positions. */
  function ChunkValue(chunk: seq<bool>): (r: Byte)
    requires |chunk| <= 8
    ensures r == Value(chunk + Zeros(8 - |chunk|))
  {
    assert Pow2(8) == 256;
    ValueBound(chunk + Zeros(8 - |chunk|));
    Value(chunk + Zeros(8 - |chunk|))
  }

  /** `ceil(len(bits) / 8)` bytes come out. */
  lemma {:induction false} PackedLength(bits: seq<bool>)
    ensures |Packed(bits)| == (|bits| + 7) / 8
    decreases |bits|
  {
    if |bits| >= 8 {
      PackedLength(bits[8..]);
    }
  }

  /** A whole chunk packs into the byte it writes. */
  lemma ChunkValueWhole(chunk: seq<bool>)
    requires |chunk| == 8
    ensures ChunkValue(chunk) == Value(chunk)
  {
    assert chunk + Zeros(0) == chunk;
  }

  /** Byte `i` of the packing is packed from bits `8 * i` to `8 * i + 8`, or to the end of a short last chunk. */
  lemma {:induction false} PackedAt(bits: seq<bool>, i: nat)
    requires i < (|bits| + 7) / 8
    ensures |Packed(bits)| == (|bits| + 7) / 8
    ensures Packed(bits)[i] == ChunkValue(bits[8 * i .. if 8 * i + 8 <= |bits| then 8 * i + 8 else |bits|])
    decreases |bits|
  {
    PackedLength(bits);
    if i > 0 {
      PackedAt(bits[8..], i - 1);
      var hi := if 8 * i + 8 <= |bits| then 8 * i + 8 else |bits|;
      assert bits[8..][8 * (i - 1) .. hi - 8] == bits[8 * i .. hi];
    } else if |bits| < 8 {
      assert bits[0..|bits|] == bits;
    }
  }

  /** `bits2bytes(bytes2bits(b)) == b`. */
  lemma {:induction false} PackedOfBytesToBits(data: seq<Byte>)
    ensures Packed(BytesToBits(data)) == data
  {
    if data != [] {
      var bits := BytesToBits(data);
      assert bits[..8] == ByteBits(data[0]);
      ChunkValueWhole(bits[..8]);
      assert bits[8..] == BytesToBits(data[1..]);
      PackedOfBytesToBits(data[1..]);
    }
  }

  /** `bytes2bits(bits2bytes(x)) == x` when `len(x)` is a multiple of 8. */
  lemma {:induction false} BytesToBitsOfPacked(bits: seq<bool>)
    requires |bits| % 8 == 0
    ensures BytesToBits(Packed(bits)) == bits
    decreases |bits|
  {
    if bits != [] {
      var chunk := bits[..8];
      ChunkValueWhole(chunk);
      ToBitsOfValue(chunk);
      BytesToBitsOfPacked(bits[8..]);
      assert bits == chunk + bits[8..];
    }
  }

  /** Packing pads with zero bits: the bits of the packed bytes are the input followed by zeros up to a byte boundary. */
  lemma {:induction false} BytesToBitsOfPackedPads(bits: seq<bool>)
    ensures BytesToBits(Packed(bits)) == bits + Zeros(PadLength(|bits|))
    decreases |bits|
  {
    if bits == [] {
      assert bits + Zeros(0) == [];
    } else if |bits| < 8 {
      ShortChunkBits(bits);
    } else {
      BytesToBitsOfPackedPads(bits[8..]);
      PadsStep(bits[..8], bits[8..]);
      assert bits[..8] + bits[8..] == bits;
    }
  }

  /** A whole chunk in front packs into its byte in front, whose bits are the chunk again. */
  lemma PackedConsBits(chunk: seq<bool>, rest: seq<bool>)
    requires |chunk| == 8
    ensures BytesToBits(Packed(chunk + rest)) == chunk + BytesToBits(Packed(rest))
  {
    var bits := chunk + rest;
    var x := ChunkValue(chunk);
    assert Packed(bits) == [x] + Packed(rest) by {
      assert bits[..8] == chunk && bits[8..] == rest;
    }
    assert ByteBits(x) == chunk by {
      ByteBitsOfChunk(chunk);
      assert chunk + Zeros(0) == chunk;
    }
    BytesToBitsCons(x, Packed(rest));
  }

  lemma PadsStep(chunk: seq<bool>, rest: seq<bool>)
    requires |chunk| == 8
    requires BytesToBits(Packed(rest)) == rest + Zeros(PadLength(|rest|))
    ensures BytesToBits(Packed(chunk + rest)) == (chunk + rest) + Zeros(PadLength(|chunk + rest|))
  {
    PackedConsBits(chunk, rest);
    PadShift(|rest|);
    Regroup(chunk, rest, Zeros(PadLength(|rest|)), BytesToBits(Packed(chunk + rest)), BytesToBits(Packed(rest)));
  }

  /** Regrouping a three-part concatenation. */
  lemma Regroup<T>(front: seq<T>, middle: seq<T>, back: seq<T>, whole: seq<T>, tail: seq<T>)
    requires whole == front + tail && tail == middle + back
    ensures whole == (front + middle) + back
  {
  }

  lemma PadShift(n: nat)
    ensures PadLength(n + 8) == PadLength(n)
  {
  }

  lemma BytesToBitsCons(x: Byte, s: seq<Byte>)
    ensures BytesToBits([x] + s) == ByteBits(x) + BytesToBits(s)
  {
    assert ([x] + s)[1..] == s;
  }

  lemma ShortChunkBits(bits: seq<bool>)
    requires 0 < |bits| < 8
    ensures BytesToBits(Packed(bits)) == bits + Zeros(PadLength(|bits|))
  {
    var x := ChunkValue(bits);
    assert Packed(bits) == [x];
    SingleByteBits(x);
    ByteBitsOfChunk(bits);
    PadShort(|bits|);
  }

  lemma PadShort(n: nat)
    requires 0 < n < 8
    ensures PadLength(n) == 8 - n
  {
  }

  lemma SingleByteBits(x: Byte)
    ensures BytesToBits([x]) == ByteBits(x)
  {
    assert BytesToBits([x]) == ByteBits(x) + BytesToBits([]);
  }

  /** Unpacking a packed chunk gives the chunk followed by the zeros that filled its byte. */
  lemma ByteBitsOfChunk(chunk: seq<bool>)
    requires |chunk| <= 8
    ensures ByteBits(ChunkValue(chunk)) == chunk + Zeros(8 - |chunk|)
  {
    ToBitsOfValue(chunk + Zeros(8 - |chunk|));
  }

  /** The number of zero bits that completes `n` bits to a whole number of bytes (bitarray's `fill`). */
  function PadLength(n: nat): (r: nat)
    ensures r < 8 && (n + r) % 8 == 0
  {
    (8 - n % 8) % 8
  }

  /** The packing from bit `i` on is the chunk at `i` packed, then the packing after it. */
  lemma PackedFrom(bits: seq<bool>, i: nat)
    requires i < |bits|
    ensures var j := if i + 8 <= |bits| then i + 8 else |bits|;
      Packed(bits[i..]) == [ChunkValue(bits[i..j])] + Packed(bits[j..])
  {
    var rest := bits[i..];
    if |rest| < 8 {
      assert bits[i..|bits|] == rest && bits[|bits|..] == [];
    } else {
      assert bits[i..i + 8] == rest[..8] && rest[8..] == bits[i + 8..];
    }
  }

  /**
   * bits2bytes as written: a loop over the chunks of eight bits,
   * appending the byte each chunk packs into.
   */
  method BitsToBytes(bits: seq<bool>) returns (out: seq<Byte>)
    ensures out == Packed(bits)
    ensures |out| == (|bits| + 7) / 8
  {
    out := [];
    var i := 0;
    while i < |bits|
      invariant 0 <= i <= |bits| + 7 && i % 8 == 0
      invariant out + Packed(bits[if i <= |bits| then i else |bits|..]) == Packed(bits)
      decreases |bits| - i
    {
      var j := if i + 8 <= |bits| then i + 8 else |bits|;
      var chunk := bits[i..j];
      PackedFrom(bits, i);
      Regroup(out, [ChunkValue(chunk)], Packed(bits[j..]), Packed(bits), Packed(bits[i..]));
      out := out + [ChunkValue(chunk)];
      i := i + 8;
      assert (if i <= |bits| then i else |bits|) == j;
    }
    PackedLength(bits);
  }
}
