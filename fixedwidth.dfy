/**
 * Fixed-width character codecs: every character of a table is written as
 * its index in the table, `w` bits wide, most significant bit first, and
 * the bits are read back `w` at a time. The six-bit and seven-bit
 * compressors are two instances, differing in table, width and in whether
 * a character is lowercased before lookup.
 */
module FixedWidth {
  import opened Wrappers
  import opened Bits

  /** No character occurs twice in the table. */
  predicate Distinct(cs: string)
  {
    forall i, j :: 0 <= i < j < |cs| ==> cs[i] != cs[j]
  }

  /** Every index of the table can be written in `w` bits, and groups are not empty. */
  predicate Fits(cs: string, w: nat)
  {
    0 < w && |cs| <= Pow2(w)
  }

  /** The position of the last occurrence of `c`: a dictionary built by enumeration keeps the last one. */
  function LastIndex(cs: string, c: char): (r: nat)
    requires c in cs
    ensures r < |cs| && cs[r] == c
    ensures forall j :: r < j < |cs| ==> cs[j] != c
  {
    if cs[|cs| - 1] == c then |cs| - 1
    else
      assert c in cs[..|cs| - 1] by {
        var i :| 0 <= i < |cs| && cs[i] == c;
        assert cs[..|cs| - 1][i] == c;
      }
      LastIndex(cs[..|cs| - 1], c)
  }

  /** ENCODE_MAP: character to index. */
  function EncodeMap(cs: string): (m: map<char, nat>)
    ensures forall c :: c in m <==> c in cs
    ensures forall c :: c in m ==> m[c] < |cs| && cs[m[c]] == c
  {
    var m := map c | c in cs :: LastIndex(cs, c);
    assert forall c :: c in m ==> m[c] == LastIndex(cs, c);
    m
  }

  /** DECODE_MAP: index to character. */
  function DecodeMap(cs: string): (m: map<nat, char>)
    ensures forall k :: k in m ==> k < |cs| && m[k] == cs[k]
    ensures forall k :: 0 <= k < |cs| ==> k in m
  {
    var m := map k: nat | k < |cs| :: cs[k];
    assert forall k :: k in m ==> m[k] == cs[k];
    m
  }

  /** For a table without repeats the two maps are mutual inverses. */
  lemma MapsInverse(cs: string)
    requires Distinct(cs)
    ensures forall k :: 0 <= k < |cs| ==> EncodeMap(cs)[DecodeMap(cs)[k]] == k
    ensures forall c :: c in cs ==> DecodeMap(cs)[EncodeMap(cs)[c]] == c
  {
    forall k | 0 <= k < |cs|
      ensures EncodeMap(cs)[DecodeMap(cs)[k]] == k
    {
      var r := EncodeMap(cs)[cs[k]];
      assert cs[r] == cs[k];
    }
  }

  /** A successful result with `p` put in front; a failure passes through. */
  function Prefixed<T>(p: seq<T>, r: Result<seq<T>>): Result<seq<T>>
  {
    match r
    case Success(s) => Success(p + s)
    case Failure(e) => Failure(e)
  }

  lemma PrefixedTwice<T>(p: seq<T>, q: seq<T>, r: Result<seq<T>>)
    ensures Prefixed(p, Prefixed(q, r)) == Prefixed(p + q, r)
  {
    if r.Success? {
      assert p + (q + r.value) == (p + q) + r.value;
    }
  }

  lemma PrefixedEmpty<T>(r: Result<seq<T>>)
    ensures Prefixed([], r) == r
  {
    if r.Success? {
      assert [] + r.value == r.value;
    }
  }

  /** The number `n` as decimal digits, as an f-string writes an int. */
  function DecimalString(n: nat): string
  {
    if n < 10 then ["0123456789"[n]]
    else DecimalString(n / 10) + ["0123456789"[n % 10]]
  }

  /** Each character, normalised by `norm`. */
  function Normalized(norm: char -> char, text: string): (r: string)
    ensures |r| == |text|
    ensures forall i :: 0 <= i < |text| ==> r[i] == norm(text[i])
  {
    if text == [] then [] else [norm(text[0])] + Normalized(norm, text[1..])
  }

  /** What `compress` produces: the codes of the normalised characters, or the first unsupported character. */
  function Encode(cs: string, w: nat, norm: char -> char, text: string): Result<seq<bool>>
    requires Fits(cs, w)
  {
    if text == [] then Success([])
    else
      var c := norm(text[0]);
      if c !in EncodeMap(cs) then Failure("Unsupported character: " + [text[0]])
      else Prefixed(ToBits(EncodeMap(cs)[c], w), Encode(cs, w, norm, text[1..]))
  }

  /** The width of the group that starts the bit string; the last one may be shorter. */
  function GroupLength(w: nat, bits: seq<bool>): (n: nat)
    requires 0 < w && bits != []
    ensures 0 < n <= |bits| && n <= w
    ensures n == w || n == |bits|
  {
    if |bits| < w then |bits| else w
  }

  /** What `decompress` produces: one character per group, or the first code outside the table. */
  function Decode(cs: string, w: nat, bits: seq<bool>): Result<string>
    requires 0 < w
    decreases |bits|
  {
    if bits == [] then Success([])
    else
      var n := GroupLength(w, bits);
      var code := Value(bits[..n]);
      if code !in DecodeMap(cs) then Failure("Invalid character code: " + DecimalString(code))
      else Prefixed([DecodeMap(cs)[code]], Decode(cs, w, bits[n..]))
  }

  /** Encoding succeeds exactly when every normalised character is in the table. */
  lemma {:induction false} EncodeSucceeds(cs: string, w: nat, norm: char -> char, text: string)
    requires Fits(cs, w)
    ensures Encode(cs, w, norm, text).Success? <==> forall i :: 0 <= i < |text| ==> norm(text[i]) in cs
  {
    if text != [] {
      EncodeSucceeds(cs, w, norm, text[1..]);
      assert forall i :: 1 <= i < |text| ==> text[1..][i - 1] == text[i];
    }
  }

  /** A successful encoding writes exactly `w` bits per character. */
  lemma {:induction false} EncodeLength(cs: string, w: nat, norm: char -> char, text: string)
    requires Fits(cs, w)
    requires Encode(cs, w, norm, text).Success?
    ensures |Encode(cs, w, norm, text).value| == w * |text|
  {
    if text != [] {
      var rest := Encode(cs, w, norm, text[1..]);
      assert rest.Success? && |Encode(cs, w, norm, text).value| == w + |rest.value|;
      EncodeLength(cs, w, norm, text[1..]);
      MulStep(w, |text|);
    }
  }

  /** Encoding reports the first character whose normal form is not in the table, as it was written. */
  lemma {:induction false} EncodeFails(cs: string, w: nat, norm: char -> char, text: string, i: nat)
    requires Fits(cs, w)
    requires i < |text| && norm(text[i]) !in cs
    requires forall j :: 0 <= j < i ==> norm(text[j]) in cs
    ensures Encode(cs, w, norm, text) == Failure("Unsupported character: " + [text[i]])
  {
    if i > 0 {
      EncodeFails(cs, w, norm, text[1..], i - 1);
    }
  }

  /** The first group of `code` followed by anything is read as `code`. */
  lemma FirstGroup(w: nat, code: nat, rest: seq<bool>)
    requires 0 < w && code < Pow2(w)
    ensures GroupLength(w, ToBits(code, w) + rest) == w
    ensures (ToBits(code, w) + rest)[..w] == ToBits(code, w)
    ensures (ToBits(code, w) + rest)[w..] == rest
    ensures Value(ToBits(code, w)) == code
  {
    ValueOfToBits(code, w);
  }

  /** Decoding an encoding gives the normalised text back. */
  lemma {:induction false} RoundTrip(cs: string, w: nat, norm: char -> char, text: string)
    requires Fits(cs, w)
    requires Encode(cs, w, norm, text).Success?
    ensures Decode(cs, w, Encode(cs, w, norm, text).value) == Success(Normalized(norm, text))
  {
    if text != [] {
      var c := norm(text[0]);
      var code := EncodeMap(cs)[c];
      var rest := Encode(cs, w, norm, text[1..]);
      assert rest.Success?;
      RoundTrip(cs, w, norm, text[1..]);
      FirstGroup(w, code, rest.value);
    }
  }

  /** A group whose code lies outside the table is reported with its decimal value. */
  lemma InvalidCode(cs: string, w: nat, code: nat, rest: seq<bool>)
    requires 0 < w && |cs| <= code < Pow2(w)
    ensures Decode(cs, w, ToBits(code, w) + rest) == Failure("Invalid character code: " + DecimalString(code))
  {
    FirstGroup(w, code, rest);
  }

  /**
   * Decoding whole groups and encoding the result gives the bits back, for
   * a table without repeats whose characters are their own normal form.
   */
  lemma {:induction false} DecodeThenEncode(cs: string, w: nat, norm: char -> char, bits: seq<bool>, groups: nat)
    requires Fits(cs, w) && Distinct(cs)
    requires forall c :: c in cs ==> norm(c) == c
    requires |bits| == w * groups
    requires Decode(cs, w, bits).Success?
    ensures Encode(cs, w, norm, Decode(cs, w, bits).value) == Success(bits)
  {
    if bits != [] {
      var n := GroupLength(w, bits);
      assert n == w && |bits[n..]| == w * (groups - 1) by {
        MulStep(w, groups);
      }
      assert bits[..n] + bits[n..] == bits;
      var code := Value(bits[..n]);
      var rest := Decode(cs, w, bits[n..]);
      assert Decode(cs, w, bits) == Success([cs[code]] + rest.value);
      DecodeThenEncode(cs, w, norm, bits[n..], groups - 1);
      assert EncodeMap(cs)[cs[code]] == code by {
        MapsInverse(cs);
      }
      assert ToBits(code, w) == bits[..n] by {
        ToBitsOfValue(bits[..n]);
      }
      EncodeCons(cs, w, norm, cs[code], rest.value);
    }
  }

  /** Encoding a character in front puts its code in front. */
  lemma EncodeCons(cs: string, w: nat, norm: char -> char, c: char, s: string)
    requires Fits(cs, w) && norm(c) in cs
    ensures Encode(cs, w, norm, [c] + s) == Prefixed(ToBits(EncodeMap(cs)[norm(c)], w), Encode(cs, w, norm, s))
  {
    assert ([c] + s)[0] == c && ([c] + s)[1..] == s;
  }

  lemma MulStep(w: nat, groups: nat)
    requires 0 < w * groups
    ensures groups > 0 && w * groups == w * (groups - 1) + w
  {
  }

  /** `compress`: extends the bit string code by code, stopping at the first unsupported character. */
  method Compress(cs: string, w: nat, norm: char -> char, text: string) returns (r: Result<seq<bool>>)
    requires Fits(cs, w)
    ensures r == Encode(cs, w, norm, text)
  {
    var encodeMap := EncodeMap(cs);
    var ba: seq<bool> := [];
    var i := 0;
    assert text[i..] == text;
    PrefixedEmpty(Encode(cs, w, norm, text));
    while i < |text|
      invariant 0 <= i <= |text|
      invariant Encode(cs, w, norm, text) == Prefixed(ba, Encode(cs, w, norm, text[i..]))
    {
      var lowerChar := norm(text[i]);
      assert text[i..][0] == text[i] && text[i..][1..] == text[i + 1..];
      if lowerChar !in encodeMap {
        return Failure("Unsupported character: " + [text[i]]);
      }
      var code := ToBits(encodeMap[lowerChar], w);
      PrefixedTwice(ba, code, Encode(cs, w, norm, text[i + 1..]));
      ba := ba + code;
      i := i + 1;
    }
    assert ba + [] == ba;
    return Success(ba);
  }

  /** `decompress`: reads `w` bits at a time (the last group may be shorter) and looks each code up. */
  method Decompress(cs: string, w: nat, compressed: seq<bool>) returns (r: Result<string>)
    requires 0 < w
    ensures r == Decode(cs, w, compressed)
  {
    var decodeMap := DecodeMap(cs);
    var text: string := [];
    var i := 0;
    assert compressed[i..] == compressed;
    PrefixedEmpty(Decode(cs, w, compressed));
    while i < |compressed|
      invariant 0 <= i <= |compressed|
      invariant Decode(cs, w, compressed) == Prefixed(text, Decode(cs, w, compressed[i..]))
    {
      var end := if i + w < |compressed| then i + w else |compressed|;
      var rest := compressed[i..];
      assert GroupLength(w, rest) == end - i;
      assert rest[..end - i] == compressed[i..end] && rest[end - i..] == compressed[end..];
      var charCode := Value(compressed[i..end]);
      if charCode !in decodeMap {
        return Failure("Invalid character code: " + DecimalString(charCode));
      }
      PrefixedTwice(text, [decodeMap[charCode]], Decode(cs, w, compressed[end..]));
      text := text + [decodeMap[charCode]];
      i := end;
    }
    assert text + [] == text;
    return Success(text);
  }
}
