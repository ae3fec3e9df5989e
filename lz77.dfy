/**
 * LZ77.py: a sliding-window compressor over the bytes of the text.
 *
 * A literal token is a 0 flag and the byte (9 bits); a match token is a 1 flag,
 * a 12-bit distance and a 4-bit length (17 bits). The output is zero-filled to
 * a whole number of bytes. The decompressor copies matches byte by byte from
 * the end of its output, so a match may overlap the bytes it produces.
 */
module Lz77 {
  import opened Wrappers
  import opened Bits

  const MaxWindowSize := 400
  /** The lookahead buffer the constructor fixes; matches are at most 14 bytes long. */
  const LookaheadBufferSize := 15

  datatype Match = Match(distance: nat, length: nat)

  /** The 12-bit distance and 4-bit length fields of a match token. */
  type Distance = d: nat | d < 4096
  type Length = l: nat | l < 16

  datatype Token = Literal(byte: Byte) | Copy(distance: Distance, length: Length)

  function Min(a: int, b: int): int { if a <= b then a else b }
  function Max(a: int, b: int): int { if a >= b then a else b }

  // ---------------------------------------------------------------------------
  // Matches

  /** Python's `s * n`: `n` copies of `s`, one after another. */
  function Times(s: seq<Byte>, n: nat): (r: seq<Byte>)
  {
    if n == 0 then [] else s + Times(s, n - 1)
  }

  /** Byte `j` of `data` repeats the byte `d` positions before it. */
  predicate SameAsBack(data: seq<Byte>, d: nat, j: int)
  {
    d <= j < |data| && data[j] == data[j - d]
  }

  /**
   * A match of distance `d` and length `l` at `cp`: the `l` bytes from `cp`
   * are an overlapping copy of the bytes `d` positions back, each one equal to
   * the byte `d` positions before it.
   */
  predicate MatchAt(data: seq<Byte>, cp: nat, d: nat, l: nat)
  {
    && 1 <= d <= cp
    && cp + l <= |data|
    && forall j :: cp <= j < cp + l ==> SameAsBack(data, d, j)
  }

  /** `len(s * n) == n * len(s)`. */
  lemma {:induction false} TimesLength(s: seq<Byte>, n: nat)
    ensures |Times(s, n)| == n * |s|
  {
    if n > 0 {
      TimesLength(s, n - 1);
      assert n * |s| == (n - 1) * |s| + |s|;
    }
  }

  /**
   * The comparison findLongestMatch makes for start index `i` (the bytes from
   * `i` to `cp`, repeated and cut to `l` bytes, against the `l` bytes from
   * `cp`) succeeds exactly when there is a match of distance `cp - i`; its
   * slices are in range.
   */
  lemma MatchTest(data: seq<Byte>, cp: nat, i: nat, l: nat)
    requires i < cp && cp + l <= |data|
    ensures i + l % (cp - i) < cp && l / (cp - i) >= 0
    ensures Times(data[i..cp], l / (cp - i)) + data[i..i + l % (cp - i)] == data[cp..cp + l]
        <==> MatchAt(data, cp, cp - i, l)
  {
    var d := cp - i;
    var p, q, r := data[i..cp], l / d, l % d;
    var m := Times(p, q) + p[..r];
    assert data[i..i + r] == p[..r];
    TimesLength(p, q);
    assert |m| == l;
    RepeatedPeriodic(p, q, r);
    if m == data[cp..cp + l] {
      forall j | cp <= j < cp + l
        ensures SameAsBack(data, d, j)
      {
        var k := j - cp;
        assert data[j] == m[k];
        if k >= d {
          assert m[k - d] == data[j - d];
        } else {
          assert m[k] == p[k];
        }
      }
    }
    if MatchAt(data, cp, d, l) {
      forall k | 0 <= k < l
        ensures m[k] == data[cp + k]
      {
        RepeatedAgrees(data, cp, d, l, m, k);
      }
      assert m == data[cp..cp + l];
    }
  }

  /** A string that starts with the `d` bytes before `cp` and then repeats with period `d` agrees with a match there. */
  lemma {:induction false} RepeatedAgrees(data: seq<Byte>, cp: nat, d: nat, l: nat, m: seq<Byte>, k: nat)
    requires MatchAt(data, cp, d, l) && |m| == l && k < l
    requires forall k' :: 0 <= k' < |m| && k' < d ==> m[k'] == data[cp - d..cp][k']
    requires forall k' :: d <= k' < |m| ==> m[k'] == m[k' - d]
    ensures m[k] == data[cp + k]
    decreases k
  {
    assert SameAsBack(data, d, cp + k);
    if k >= d {
      RepeatedAgrees(data, cp, d, l, m, k - d);
    }
  }

  /** The largest distance findLongestMatch tries: `cp - max(0, cp - w)`, none when the window is not positive. */
  function MaxDistance(cp: nat, w: int): (r: nat)
    ensures r <= cp && (w <= 0 ==> r == 0) && (w > 0 ==> r <= w)
  {
    if w <= 0 then 0 else Min(cp, w)
  }

  /** The largest length findLongestMatch tries: `end_of_buffer - 1 - cp`. */
  function MaxLength(data: seq<Byte>, cp: nat): int
  {
    Min(LookaheadBufferSize - 1, |data| - cp)
  }

  /** Scanning distances `d`, `d - 1`, ..., 1 (start indices upward), the first that matches length `l`. */
  function FirstDistance(data: seq<Byte>, cp: nat, l: nat, d: nat): (r: Option<nat>)
    ensures r.Some? ==> 1 <= r.value <= d && MatchAt(data, cp, r.value, l)
  {
    if d == 0 then None
    else if MatchAt(data, cp, d, l) then Some(d)
    else FirstDistance(data, cp, l, d - 1)
  }

  /** The scan finds the largest matching distance, and finds none only when no distance up to `d` matches. */
  lemma {:induction false} FirstDistanceLargest(data: seq<Byte>, cp: nat, l: nat, d: nat, e: nat)
    requires 1 <= e <= d && MatchAt(data, cp, e, l)
    ensures FirstDistance(data, cp, l, d).Some? && e <= FirstDistance(data, cp, l, d).value
  {
    if !MatchAt(data, cp, d, l) {
      FirstDistanceLargest(data, cp, l, d - 1, e);
    }
  }

  /** The number of start indices from `i` up to `cp`. */
  function Remaining(cp: nat, i: int): nat
  {
    if i < cp then cp - i else 0
  }

  /** One step of the scan: distance `cp - i` is taken when it matches, else the scan goes on at `i + 1`. */
  lemma FirstDistanceStep(data: seq<Byte>, cp: nat, l: nat, i: nat)
    requires i < cp
    ensures FirstDistance(data, cp, l, Remaining(cp, i))
      == if MatchAt(data, cp, cp - i, l) then Some(cp - i)
         else FirstDistance(data, cp, l, Remaining(cp, i + 1))
  {
  }

  /** The best match among lengths `2..l`: the longest length that matches at all, at its largest distance. */
  function BestFrom(data: seq<Byte>, cp: nat, w: int, l: int): (r: Option<Match>)
    decreases l
  {
    if l < 2 then None
    else match FirstDistance(data, cp, l, MaxDistance(cp, w))
      case Some(d) => Some(Match(d, l))
      case None => BestFrom(data, cp, w, l - 1)
  }

  /** The match findLongestMatch returns at position `cp` with window `w`. */
  function LongestMatch(data: seq<Byte>, cp: nat, w: int): (r: Option<Match>)
    requires cp <= |data|
    ensures r.Some? ==> 1 <= r.value.distance <= MaxDistance(cp, w)
    ensures r.Some? ==> 2 <= r.value.length <= LookaheadBufferSize - 1 && cp + r.value.length <= |data|
  {
    BestFromValid(data, cp, w, MaxLength(data, cp));
    BestFrom(data, cp, w, MaxLength(data, cp))
  }

  /** The match findLongestMatch returns is a match: its bytes repeat the bytes `distance` back. */
  lemma LongestMatchValid(data: seq<Byte>, cp: nat, w: int)
    requires cp <= |data|
    ensures var r := LongestMatch(data, cp, w);
      r.Some? ==> MatchAt(data, cp, r.value.distance, r.value.length)
  {
    BestFromValid(data, cp, w, MaxLength(data, cp));
  }

  lemma {:induction false} BestFromValid(data: seq<Byte>, cp: nat, w: int, l: int)
    requires l <= MaxLength(data, cp)
    ensures var r := BestFrom(data, cp, w, l);
      r.Some? ==> && 1 <= r.value.distance <= MaxDistance(cp, w)
                  && 2 <= r.value.length <= l
                  && MatchAt(data, cp, r.value.distance, r.value.length)
    decreases l
  {
    if l >= 2 && FirstDistance(data, cp, l, MaxDistance(cp, w)).None? {
      BestFromValid(data, cp, w, l - 1);
    }
  }

  /**
   * The longest match wins, and among matches of that length the one with the
   * largest distance (the first start scanned): no pair of distance and length
   * that findLongestMatch tries and that matches beats the returned one, and
   * none is returned only when no such pair matches.
   */
  lemma {:induction false} LongestMatchIsBest(data: seq<Byte>, cp: nat, w: int, d: nat, l: nat)
    requires cp <= |data|
    requires 1 <= d <= MaxDistance(cp, w) && 2 <= l <= MaxLength(data, cp)
    requires MatchAt(data, cp, d, l)
    ensures LongestMatch(data, cp, w).Some?
    ensures var m := LongestMatch(data, cp, w).value;
      l < m.length || (l == m.length && d <= m.distance)
  {
    BestFromBest(data, cp, w, MaxLength(data, cp), d, l);
  }

  lemma {:induction false} BestFromBest(data: seq<Byte>, cp: nat, w: int, top: int, d: nat, l: nat)
    requires 1 <= d <= MaxDistance(cp, w) && 2 <= l <= top
    requires MatchAt(data, cp, d, l)
    ensures BestFrom(data, cp, w, top).Some?
    ensures var m := BestFrom(data, cp, w, top).value;
      l < m.length || (l == m.length && d <= m.distance)
    decreases top
  {
    if l == top {
      FirstDistanceLargest(data, cp, l, MaxDistance(cp, w), d);
    } else if FirstDistance(data, cp, top, MaxDistance(cp, w)).None? {
      BestFromBest(data, cp, w, top - 1, d, l);
    }
  }

  /** The repetition findLongestMatch builds starts with the period and then repeats itself. */
  lemma {:induction false} RepeatedPeriodic(p: seq<Byte>, q: nat, r: nat)
    requires 0 < |p| && r <= |p|
    ensures var m := Times(p, q) + p[..r];
      && (forall k :: 0 <= k < |m| && k < |p| ==> m[k] == p[k])
      && (forall k :: |p| <= k < |m| ==> m[k] == m[k - |p|])
  {
    if q > 0 {
      RepeatedPeriodic(p, q - 1, r);
      var m' := Times(p, q - 1) + p[..r];
      assert Times(p, q) + p[..r] == p + m';
    }
  }

  // ---------------------------------------------------------------------------
  // Token format

  /** The two bytes a match is written as: `d >> 4`, then `((d & 0xf) << 4) | l`. */
  function PackMatch(d: nat, l: nat): (r: (Byte, Byte))
    requires d < 4096 && l < 16
  {
    (d / 16, (d % 16) * 16 + l)
  }

  /** The match the decompressor reads from two bytes: `(b1 << 4) | (b2 >> 4)` and `b2 & 0xf`. */
  function UnpackMatch(b1: Byte, b2: Byte): Match
  {
    Match(b1 * 16 + b2 / 16, b2 % 16)
  }

  /** Packing a distance below 4096 and a length below 16, then unpacking, gives them back. */
  lemma UnpackOfPack(d: nat, l: nat)
    requires d < 4096 && l < 16
    ensures UnpackMatch(PackMatch(d, l).0, PackMatch(d, l).1) == Match(d, l)
  {
  }

  /** A literal is 9 bits, a match 17; the flag comes first. */
  function TokenBits(t: Token): (r: seq<bool>)
    ensures |r| == if t.Literal? then 9 else 17
    ensures r[0] == t.Copy?
  {
    match t
    case Literal(b) => [false] + ByteBits(b)
    case Copy(d, l) => [true] + ByteBits(PackMatch(d, l).0) + ByteBits(PackMatch(d, l).1)
  }

  /** The token compress_data emits at position `i`: a match when there is one, else a literal. */
  function TokenAt(data: seq<Byte>, w: int, i: nat): Token
    requires i < |data| && w <= MaxWindowSize
  {
    match LongestMatch(data, i, w)
    case Some(m) => Copy(m.distance, m.length)
    case None => Literal(data[i])
  }

  /** The position compress_data moves to after the token at `i`. */
  function NextPosition(data: seq<Byte>, w: int, i: nat): (r: nat)
    requires i < |data|
    ensures i < r <= |data|
  {
    match LongestMatch(data, i, w)
    case Some(m) => i + m.length
    case None => i + 1
  }

  /** The tokens compress_data emits from position `i` on. */
  function Tokens(data: seq<Byte>, w: int, i: nat): (r: seq<Token>)
    requires i <= |data| && w <= MaxWindowSize
    decreases |data| - i
  {
    if i == |data| then []
    else [TokenAt(data, w, i)] + Tokens(data, w, NextPosition(data, w, i))
  }

  function TokensBits(ts: seq<Token>): (r: seq<bool>)
  {
    if ts == [] then [] else TokenBits(ts[0]) + TokensBits(ts[1..])
  }

  /** The output of compress_data: the token bits, zero-filled to a whole byte. */
  function Compressed(data: seq<Byte>, w: int): (r: seq<bool>)
    requires w <= MaxWindowSize
    ensures |r| % 8 == 0
  {
    var bits := TokensBits(Tokens(data, w, 0));
    bits + Zeros(PadLength(|bits|))
  }

  /** The bits of the tokens from `i` on: those of the token at `i`, then those of the tokens after it. */
  lemma TokensBitsAt(data: seq<Byte>, w: int, i: nat)
    requires i < |data| && w <= MaxWindowSize
    ensures TokensBits(Tokens(data, w, i))
      == TokenBits(TokenAt(data, w, i)) + TokensBits(Tokens(data, w, NextPosition(data, w, i)))
  {
    var ts := Tokens(data, w, i);
    assert ts[1..] == Tokens(data, w, NextPosition(data, w, i));
  }

  /** One step of compress_data appends the bits of the token at `i`. */
  lemma Emit(data: seq<Byte>, w: int, i: nat, before: seq<bool>, out: seq<bool>)
    requires i < |data| && w <= MaxWindowSize
    requires out == before + TokenBits(TokenAt(data, w, i))
    ensures out + TokensBits(Tokens(data, w, NextPosition(data, w, i))) == before + TokensBits(Tokens(data, w, i))
  {
    TokensBitsAt(data, w, i);
    AppendAssoc(before, TokenBits(TokenAt(data, w, i)), TokensBits(Tokens(data, w, NextPosition(data, w, i))));
  }

  lemma NoTokensAtEnd(data: seq<Byte>, w: int, out: seq<bool>)
    requires w <= MaxWindowSize
    ensures out + TokensBits(Tokens(data, w, |data|)) == out
  {
    assert out + [] == out;
  }

  lemma AppendAssoc(a: seq<bool>, b: seq<bool>, c: seq<bool>)
    ensures (a + b) + c == a + (b + c)
  {
  }

  // ---------------------------------------------------------------------------
  // Decompression

  /** Python's `s[-d]`: index 0 when `d` is 0, counted from the end otherwise; none when out of range. */
  function FromEnd(s: seq<Byte>, d: nat): (r: Option<Byte>)
    ensures r.None? <==> |s| < d || |s| == 0
  {
    if d == 0 then (if |s| > 0 then Some(s[0]) else None)
    else if d <= |s| then Some(s[|s| - d])
    else None
  }

  /** `for _ in range(n): output_buffer.append(output_buffer[-d])`. */
  function CopyBack(out: seq<Byte>, d: nat, n: nat): (r: Result<seq<Byte>>)
    decreases n
  {
    if n == 0 then Success(out)
    else match FromEnd(out, d)
      case None => Failure("list index out of range")
      case Some(b) => CopyBack(out + [b], d, n - 1)
  }

  /**
   * The bytes decompress produces from `bits`, appending to `out`: it reads
   * tokens while at least 9 bits remain. A match whose second byte is missing
   * entirely makes `ord` fail; a partial second byte is read zero-filled.
   */
  function Decoded(bits: seq<bool>, out: seq<Byte>): (r: Result<seq<Byte>>)
    decreases |bits|
  {
    if |bits| < 9 then Success(out)
    else if !bits[0] then Decoded(bits[9..], out + [ChunkValue(bits[1..9])])
    else
      var rest := bits[1..];
      if |rest| == 8 then Failure("ord() expected a character, but string of length 0 found")
      else
        var cut := Min(16, |rest|);
        var m := UnpackMatch(ChunkValue(rest[..8]), ChunkValue(rest[8..cut]));
        match CopyBack(out, m.distance, m.length)
        case Failure(e) => Failure(e)
        case Success(out') => Decoded(rest[cut..], out')
  }

  // ---------------------------------------------------------------------------
  // Round trip

  /** Copying a valid overlapping match from the end reproduces the next `l` bytes. */
  lemma {:induction false} CopyBackReproduces(data: seq<Byte>, i: nat, d: nat, l: nat)
    requires 1 <= d <= i && i + l <= |data|
    requires forall j :: i <= j < i + l ==> SameAsBack(data, d, j)
    ensures CopyBack(data[..i], d, l) == Success(data[..i + l])
    decreases l
  {
    if l > 0 {
      assert SameAsBack(data, d, i);
      assert FromEnd(data[..i], d) == Some(data[i]);
      assert data[..i] + [data[i]] == data[..i + 1];
      CopyBackReproduces(data, i + 1, d, l - 1);
    }
  }

  /** A literal token decodes to its byte, and decoding carries on after its 9 bits. */
  lemma DecodeLiteral(b: Byte, tail: seq<bool>, out: seq<Byte>)
    ensures Decoded(TokenBits(Literal(b)) + tail, out) == Decoded(tail, out + [b])
  {
    var bits := TokenBits(Literal(b)) + tail;
    assert bits[1..9] == ByteBits(b);
    ChunkValueWhole(bits[1..9]);
    assert bits[9..] == tail;
  }

  /** Decoding at a match flag with two whole bytes behind it. */
  lemma DecodedMatch(bits: seq<bool>, out: seq<Byte>)
    requires |bits| >= 17 && bits[0]
    ensures var m := UnpackMatch(ChunkValue(bits[1..9]), ChunkValue(bits[9..17]));
      Decoded(bits, out) == match CopyBack(out, m.distance, m.length)
        case Failure(e) => Failure(e)
        case Success(o) => Decoded(bits[17..], o)
  {
    var rest := bits[1..];
    assert rest[..8] == bits[1..9] && rest[8..16] == bits[9..17] && rest[16..] == bits[17..];
  }

  /** A match token copies its bytes from the end of the output, and decoding carries on after its 17 bits. */
  lemma DecodeCopy(d: Distance, l: Length, tail: seq<bool>, out: seq<Byte>)
    requires CopyBack(out, d, l).Success?
    ensures Decoded(TokenBits(Copy(d, l)) + tail, out) == Decoded(tail, CopyBack(out, d, l).value)
  {
    var x, y := ByteBits(PackMatch(d, l).0), ByteBits(PackMatch(d, l).1);
    var bits := TokenBits(Copy(d, l)) + tail;
    DecodedMatch(bits, out);
    assert bits[1..9] == x && bits[9..17] == y && bits[17..] == tail by {
      assert bits == [true] + x + y + tail;
    }
    ChunkValueWhole(x);
    ChunkValueWhole(y);
    UnpackOfPack(d, l);
  }

  /** Decoding the token at `i` after the first `i` bytes of `data` gives the bytes up to the next position. */
  lemma DecodeStep(data: seq<Byte>, w: int, i: nat, tail: seq<bool>)
    requires i < |data| && w <= MaxWindowSize
    ensures Decoded(TokenBits(TokenAt(data, w, i)) + tail, data[..i])
         == Decoded(tail, data[..NextPosition(data, w, i)])
  {
    if LongestMatch(data, i, w).None? {
      DecodeLiteralAt(data, w, i, tail);
    } else {
      DecodeCopyAt(data, w, i, tail);
    }
  }

  lemma DecodeLiteralAt(data: seq<Byte>, w: int, i: nat, tail: seq<bool>)
    requires i < |data| && w <= MaxWindowSize && LongestMatch(data, i, w).None?
    ensures Decoded(TokenBits(TokenAt(data, w, i)) + tail, data[..i]) == Decoded(tail, data[..i + 1])
  {
    DecodeLiteral(data[i], tail, data[..i]);
    assert data[..i] + [data[i]] == data[..i + 1];
  }

  lemma DecodeCopyAt(data: seq<Byte>, w: int, i: nat, tail: seq<bool>)
    requires i < |data| && w <= MaxWindowSize && LongestMatch(data, i, w).Some?
    ensures var l := LongestMatch(data, i, w).value.length;
      Decoded(TokenBits(TokenAt(data, w, i)) + tail, data[..i]) == Decoded(tail, data[..i + l])
  {
    var m := LongestMatch(data, i, w).value;
    assert TokenAt(data, w, i) == Copy(m.distance, m.length);
    assert CopyBack(data[..i], m.distance, m.length) == Success(data[..i + m.length]) by {
      LongestMatchValid(data, i, w);
      CopyBackReproduces(data, i, m.distance, m.length);
    }
    DecodeCopy(m.distance, m.length, tail, data[..i]);
  }

  /** Decoding the tokens from position `i`, after the first `i` bytes, restores all of `data`. */
  lemma {:induction false} DecodesFrom(data: seq<Byte>, w: int, i: nat, pad: seq<bool>)
    requires i <= |data| && w <= MaxWindowSize && |pad| < 9
    ensures Decoded(TokensBits(Tokens(data, w, i)) + pad, data[..i]) == Success(data)
    decreases |data| - i
  {
    if i == |data| {
      assert TokensBits(Tokens(data, w, i)) + pad == pad;
      assert data[..i] == data;
    } else {
      var next := NextPosition(data, w, i);
      var tb, rest := TokenBits(TokenAt(data, w, i)), TokensBits(Tokens(data, w, next));
      assert TokensBits(Tokens(data, w, i)) + pad == tb + (rest + pad) by {
        TokensBitsAt(data, w, i);
        AppendAssoc(tb, rest, pad);
      }
      DecodeStep(data, w, i, rest + pad);
      DecodesFrom(data, w, next, pad);
    }
  }

  /** `decompress(compress_data(s))` gives back the bytes of `s`, for every window size. */
  lemma RoundTrip(data: seq<Byte>, w: int)
    requires w <= MaxWindowSize
    ensures Decoded(Compressed(data, w), []) == Success(data)
  {
    var bits := TokensBits(Tokens(data, w, 0));
    DecodesFrom(data, w, 0, Zeros(PadLength(|bits|)));
    assert data[..0] == [];
  }

  // ---------------------------------------------------------------------------
  // The compressor object

  class Lz77Compressor {
    const windowSize: int
    const lookaheadBufferSize: int

    /** `window_size` is the requested size capped at 400; the lookahead buffer is 15. */
    constructor(requestedWindow: int)
      ensures windowSize == Min(requestedWindow, MaxWindowSize)
      ensures lookaheadBufferSize == LookaheadBufferSize
    {
      windowSize := Min(requestedWindow, MaxWindowSize);
      lookaheadBufferSize := LookaheadBufferSize;
    }

    /**
     * findLongestMatch: for each length from 2 up, scan the start indices of
     * the window upward and keep a match only when it is strictly longer than
     * the best so far.
     */
    method FindLongestMatch(data: seq<Byte>, currentPosition: nat) returns (r: Option<Match>)
      requires currentPosition <= |data|
      requires lookaheadBufferSize == LookaheadBufferSize
      ensures r == LongestMatch(data, currentPosition, windowSize)
    {
      var cp := currentPosition;
      var endOfBuffer := Min(cp + lookaheadBufferSize, |data| + 1);
      var bestDistance, bestLength := -1, -1;
      var dMax := MaxDistance(cp, windowSize);
      var j := cp + 2;
      while j < endOfBuffer
        invariant cp + 2 <= j <= Max(endOfBuffer, cp + 2)
        invariant bestLength < j - cp
        invariant bestLength == -1 <==> bestDistance == -1
        invariant bestLength != -1 ==> bestDistance >= 1 && bestLength >= 2
        invariant BestFrom(data, cp, windowSize, j - 1 - cp)
          == if bestLength == -1 then None else Some(Match(bestDistance, bestLength))
      {
        var startIndex := Max(0, cp - windowSize);
        var substring := data[cp..j];
        ghost var l := |substring|;
        bestDistance, bestLength := ScanStarts(data, cp, substring, startIndex, bestDistance, bestLength);
        j := j + 1;
      }
      if bestDistance > 0 && bestLength > 0 {
        r := Some(Match(bestDistance, bestLength));
      } else {
        r := None;
      }
    }

    /**
     * One comparison of findLongestMatch: the bytes from start index `i` to
     * `cp`, repeated and cut to the candidate's length, against the candidate.
     */
    method TryStart(data: seq<Byte>, cp: nat, i: nat, substring: seq<Byte>) returns (matches: bool)
      requires i < cp && cp + |substring| <= |data| && substring == data[cp..cp + |substring|]
      ensures matches == MatchAt(data, cp, cp - i, |substring|)
    {
      MatchTest(data, cp, i, |substring|);
      var repetitions := |substring| / (cp - i);
      var last := |substring| % (cp - i);
      var matchedString := Times(data[i..cp], repetitions) + data[i..i + last];
      matches := matchedString == substring;
    }

    /**
     * The inner loop of findLongestMatch, for one candidate `substring` at
     * `cp`: scan the start indices upward from `startIndex` and take the first
     * that matches, unless the best match so far is already as long.
     */
    method ScanStarts(data: seq<Byte>, cp: nat, substring: seq<Byte>, startIndex: int,
                      bestDistance: int, bestLength: int)
      returns (newDistance: int, newLength: int)
      requires cp + |substring| <= |data| && substring == data[cp..cp + |substring|]
      requires startIndex == Max(0, cp - windowSize)
      requires bestLength < |substring|
      ensures FirstDistance(data, cp, |substring|, MaxDistance(cp, windowSize)).Some? ==>
        newDistance == FirstDistance(data, cp, |substring|, MaxDistance(cp, windowSize)).value
        && newLength == |substring|
      ensures FirstDistance(data, cp, |substring|, MaxDistance(cp, windowSize)).None? ==>
        newDistance == bestDistance && newLength == bestLength
    {
      ghost var l := |substring|;
      ghost var dMax := MaxDistance(cp, windowSize);
      newDistance, newLength := bestDistance, bestLength;
      var i := startIndex;
      if cp <= startIndex {
        assert dMax == 0;
      }
      while i < cp
        invariant startIndex <= i
        invariant startIndex < cp ==> i <= cp
        invariant newLength == l ==> FirstDistance(data, cp, l, dMax) == Some(newDistance)
        invariant newLength != l ==>
          && newDistance == bestDistance && newLength == bestLength
          && FirstDistance(data, cp, l, dMax) == FirstDistance(data, cp, l, Remaining(cp, i))
      {
        var matches := TryStart(data, cp, i, substring);
        FirstDistanceStep(data, cp, l, i);
        if matches && |substring| > newLength {
          newDistance := cp - i;
          newLength := |substring|;
        }
        i := i + 1;
      }
    }

    /**
     * The body of compress_data's loop at position `i`: append a 1 flag and
     * the two bytes of the longest match and skip its length, or a 0 flag and
     * the byte itself and move on by one.
     */
    method EmitToken(data: seq<Byte>, i: nat, out: seq<bool>) returns (out': seq<bool>, i': nat)
      requires i < |data|
      requires windowSize <= MaxWindowSize && lookaheadBufferSize == LookaheadBufferSize
      ensures out' == out + TokenBits(TokenAt(data, windowSize, i))
      ensures i' == NextPosition(data, windowSize, i)
    {
      var m := FindLongestMatch(data, i);
      if m.Some? {
        var bestMatchDistance, bestMatchLength := m.value.distance, m.value.length;
        var (b1, b2) := PackMatch(bestMatchDistance, bestMatchLength);
        out' := out + [true];
        out' := out' + ByteBits(b1);
        out' := out' + ByteBits(b2);
        i' := i + bestMatchLength;
      } else {
        out' := out + [false];
        out' := out' + ByteBits(data[i]);
        i' := i + 1;
      }
    }

    /** compress_data on the text's bytes: emit a token per step, then zero-fill to a byte. */
    method CompressData(data: seq<Byte>) returns (out: seq<bool>)
      requires windowSize <= MaxWindowSize && lookaheadBufferSize == LookaheadBufferSize
      ensures out == Compressed(data, windowSize)
      ensures |out| % 8 == 0
    {
      var i := 0;
      out := [];
      while i < |data|
        invariant i <= |data|
        invariant out + TokensBits(Tokens(data, windowSize, i)) == TokensBits(Tokens(data, windowSize, 0))
        decreases |data| - i
      {
        ghost var before, at := out, i;
        out, i := EmitToken(data, i, out);
        Emit(data, windowSize, at, before, out);
      }
      NoTokensAtEnd(data, windowSize, out);
      out := out + Zeros(PadLength(|out|));
    }

    /** The copy loop of decompress: `length` times, append the byte `distance` back from the end. */
    method CopyMatch(output: seq<Byte>, distance: nat, length: nat) returns (r: Result<seq<Byte>>)
      ensures r == CopyBack(output, distance, length)
    {
      var out := output;
      var k := 0;
      while k < length
        invariant k <= length
        invariant CopyBack(out, distance, length - k) == CopyBack(output, distance, length)
      {
        var b := FromEnd(out, distance);
        if b.None? {
          return Failure("list index out of range");
        }
        out := out + [b.value];
        k := k + 1;
      }
      r := Success(out);
    }

    /**
     * decompress: pop a flag while at least 9 bits remain, then a literal byte
     * or the two bytes of a match, whose bytes are copied one at a time from
     * the end of the output. Works on its own copy of the bits.
     */
    method Decompress(compressed: seq<bool>) returns (r: Result<seq<Byte>>)
      ensures r == Decoded(compressed, [])
    {
      var output: seq<Byte> := [];
      var data := compressed;
      while |data| >= 9
        invariant Decoded(data, output) == Decoded(compressed, [])
        decreases |data|
      {
        ghost var before := data;
        var flag := data[0];
        data := data[1..];
        if !flag {
          var byte := ChunkValue(data[0..8]);
          assert data[0..8] == before[1..9] && data[8..] == before[9..];
          output := output + [byte];
          data := data[8..];
        } else {
          if |data| == 8 {
            return Failure("ord() expected a character, but string of length 0 found");
          }
          var cut := Min(16, |data|);
          var byte1 := ChunkValue(data[0..8]);
          var byte2 := ChunkValue(data[8..cut]);
          assert data[0..8] == data[..8];
          data := data[cut..];
          var distance: nat := (byte1 as int) * 16 + (byte2 as int) / 16;
          var length: nat := byte2 % 16;
          assert Decoded(before, output) == match CopyBack(output, distance, length)
            case Failure(e) => Failure(e)
            case Success(o) => Decoded(data, o);
          var copied := CopyMatch(output, distance, length);
          if copied.Failure? {
            return Failure(copied.error);
          }
          output := copied.value;
        }
      }
      r := Success(output);
    }
  }
}
