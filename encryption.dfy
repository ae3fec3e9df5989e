/**
 * The framing `Encryptor` puts around AES: the message bits are packed into
 * bytes, encrypted, and the result is written back as bits behind the nonce
 * and tag (EAX) or the IV (OFB). Decryption packs the bits again and cuts
 * the byte string at fixed offsets.
 *
 * AES itself is not modelled: the three cipher operations are a parameter.
 * The random nonce EAX draws is a parameter of `Encrypt`.
 */
module Encryption {
  import opened Wrappers
  import opened Bits

  type Bytes = seq<Byte>

  /**
   * The cipher operations used: EAX sealing (key, nonce, plaintext to
   * ciphertext and tag), EAX opening with tag check (key, nonce,
   * ciphertext, tag to plaintext) and the OFB keystream (key, IV, data).
   * Each may fail as the library does (bad key or IV length, tag mismatch).
   */
  datatype Cipher = Cipher(
    eaxEncrypt: (Bytes, Bytes, Bytes) -> Result<(Bytes, Bytes)>,
    eaxDecrypt: (Bytes, Bytes, Bytes, Bytes) -> Result<Bytes>,
    ofb: (Bytes, Bytes, Bytes) -> Result<Bytes>)

  /** Python's `s[:n]`. */
  function Take(s: Bytes, n: nat): (r: Bytes)
    ensures |r| == if |s| <= n then |s| else n
  {
    if |s| <= n then s else s[..n]
  }

  /** Python's `s[n:]`. */
  function Drop(s: Bytes, n: nat): (r: Bytes)
    ensures |r| == if |s| <= n then 0 else |s| - n
  {
    if |s| <= n then [] else s[n..]
  }

  /** Cutting a concatenation at the length of its first part gives the parts back. */
  lemma Split(a: Bytes, b: Bytes)
    ensures Take(a + b, |a|) == a && Drop(a + b, |a|) == b
  {
    if b == [] {
      assert a + b == a;
    }
  }

  /** The EAX branch of `encrypt`: nonce, tag and ciphertext, as bits. */
  function EaxSeal(aes: Cipher, key: Bytes, nonce: Bytes, messageBytes: Bytes): Result<seq<bool>>
  {
    match aes.eaxEncrypt(key, nonce, messageBytes)
    case Failure(e) => Failure(e)
    case Success(sealed) => Success(BytesToBits(nonce) + BytesToBits(sealed.1) + BytesToBits(sealed.0))
  }

  /** The OFB branch of `encrypt`: IV and ciphertext, as bits. */
  function OfbSeal(aes: Cipher, key: Bytes, iv: Bytes, messageBytes: Bytes): Result<seq<bool>>
  {
    match aes.ofb(key, iv, messageBytes)
    case Failure(e) => Failure(e)
    case Success(ciphertext) => Success(BytesToBits(iv) + BytesToBits(ciphertext))
  }

  /** The EAX branch of `decrypt`: nonce, tag and ciphertext cut at bytes 16 and 32. */
  function EaxOpen(aes: Cipher, key: Bytes, cipherBytes: Bytes): Result<seq<bool>>
  {
    var nonce := Take(cipherBytes, 16);
    var tag := Drop(Take(cipherBytes, 32), 16);
    var ciphertext := Drop(cipherBytes, 32);
    match aes.eaxDecrypt(key, nonce, ciphertext, tag)
    case Failure(e) => Failure(e)
    case Success(plaintext) => Success(BytesToBits(plaintext))
  }

  /** The OFB branch of `decrypt`: IV and ciphertext cut at byte 16. */
  function OfbOpen(aes: Cipher, key: Bytes, cipherBytes: Bytes): Result<seq<bool>>
  {
    var iv := Take(cipherBytes, 16);
    var ciphertext := Drop(cipherBytes, 16);
    match aes.ofb(key, iv, ciphertext)
    case Failure(e) => Failure(e)
    case Success(plaintext) => Success(BytesToBits(plaintext))
  }

  /** Opening what OFB sealed cuts the IV back off and decrypts the ciphertext. */
  lemma OfbFraming(aes: Cipher, key: Bytes, iv: Bytes, messageBytes: Bytes)
    requires |iv| == 16 && aes.ofb(key, iv, messageBytes).Success?
    requires aes.ofb(key, iv, aes.ofb(key, iv, messageBytes).value) == Success(messageBytes)
    ensures OfbSeal(aes, key, iv, messageBytes).Success?
    ensures OfbOpen(aes, key, Packed(OfbSeal(aes, key, iv, messageBytes).value)) == Success(BytesToBits(messageBytes))
  {
    var ciphertext := aes.ofb(key, iv, messageBytes).value;
    var framed := iv + ciphertext;
    assert OfbSeal(aes, key, iv, messageBytes) == Success(BytesToBits(framed)) by {
      BytesToBitsAppend(iv, ciphertext);
    }
    PackedOfBytesToBits(framed);
    Split(iv, ciphertext);
  }

  /** Opening what EAX sealed cuts nonce and tag back off and checks and decrypts the ciphertext. */
  lemma EaxFraming(aes: Cipher, key: Bytes, nonce: Bytes, messageBytes: Bytes)
    requires |nonce| == 16 && aes.eaxEncrypt(key, nonce, messageBytes).Success?
    requires var sealed := aes.eaxEncrypt(key, nonce, messageBytes).value;
      |sealed.1| == 16 && aes.eaxDecrypt(key, nonce, sealed.0, sealed.1) == Success(messageBytes)
    ensures EaxSeal(aes, key, nonce, messageBytes).Success?
    ensures EaxOpen(aes, key, Packed(EaxSeal(aes, key, nonce, messageBytes).value)) == Success(BytesToBits(messageBytes))
  {
    var sealed := aes.eaxEncrypt(key, nonce, messageBytes).value;
    var framed := nonce + sealed.1 + sealed.0;
    assert EaxSeal(aes, key, nonce, messageBytes) == Success(BytesToBits(framed)) by {
      BytesToBitsAppend(nonce, sealed.1);
      BytesToBitsAppend(nonce + sealed.1, sealed.0);
    }
    PackedOfBytesToBits(framed);
    Split(nonce + sealed.1, sealed.0);
    Split(nonce, sealed.1);
    assert Take(framed, 16) == nonce;
  }

  /** An `Encryptor`: its fields are set once, by the constructor. */
  class Encryptor {
    const mode: string
    const key: Bytes
    const keyLength: int
    const iv: Option<Bytes>

    constructor(mode: string, key: Bytes, keyLength: int, iv: Option<Bytes>)
      ensures this.mode == mode && this.key == key && this.keyLength == keyLength && this.iv == iv
    {
      this.mode := mode;
      this.key := key;
      this.keyLength := keyLength;
      this.iv := iv;
    }

    /** `encrypt`: the message bits packed into bytes, encrypted and framed; `nonce` is the one EAX draws. */
    function Encrypt(aes: Cipher, message: seq<bool>, nonce: Bytes): Result<seq<bool>>
    {
      var messageBytes := Packed(message);
      if mode == "EAX" then EaxSeal(aes, key, nonce, messageBytes)
      else if mode == "OFB" then
        if iv.None? then Failure("IV is required for OFB mode.")
        else OfbSeal(aes, key, iv.value, messageBytes)
      else Failure("Unsupported encryption mode: " + mode)
    }

    /** `decrypt`: the bits packed into bytes, cut at the framing offsets, decrypted and unpacked. */
    function Decrypt(aes: Cipher, ciphermessage: seq<bool>): Result<seq<bool>>
    {
      var cipherBytes := Packed(ciphermessage);
      if mode == "EAX" then EaxOpen(aes, key, cipherBytes)
      else if mode == "OFB" then OfbOpen(aes, key, cipherBytes)
      else Failure("Unsupported decryption mode: " + mode)
    }

    /** Modes other than EAX and OFB are refused both ways, and OFB without an IV cannot encrypt. */
    lemma Refusals(aes: Cipher, message: seq<bool>, nonce: Bytes)
      ensures mode != "EAX" && mode != "OFB" ==>
        Encrypt(aes, message, nonce) == Failure("Unsupported encryption mode: " + mode)
        && Decrypt(aes, message) == Failure("Unsupported decryption mode: " + mode)
      ensures mode == "OFB" && iv.None? ==> Encrypt(aes, message, nonce) == Failure("IV is required for OFB mode.")
    {
    }

    /** In OFB mode with an IV, `encrypt` and `decrypt` take the OFB branches. */
    lemma OfbDispatch(aes: Cipher, message: seq<bool>, nonce: Bytes)
      requires mode == "OFB" && iv.Some?
      ensures Encrypt(aes, message, nonce) == OfbSeal(aes, key, iv.value, Packed(message))
      ensures forall c :: Decrypt(aes, c) == OfbOpen(aes, key, Packed(c))
    {
      assert mode[0] != "EAX"[0];
    }

    /**
     * OFB round trip: with a 16-byte IV and a keystream that undoes itself,
     * decrypting the encryption gives the message padded with zero bits to
     * a whole byte, as `tobytes` leaves it.
     */
    lemma OfbRoundTrip(aes: Cipher, message: seq<bool>, nonce: Bytes)
      requires mode == "OFB" && iv.Some? && |iv.value| == 16
      requires aes.ofb(key, iv.value, Packed(message)).Success?
      requires aes.ofb(key, iv.value, aes.ofb(key, iv.value, Packed(message)).value) == Success(Packed(message))
      ensures Encrypt(aes, message, nonce).Success?
      ensures Decrypt(aes, Encrypt(aes, message, nonce).value) == Success(message + Zeros(PadLength(|message|)))
    {
      OfbDispatch(aes, message, nonce);
      OfbFraming(aes, key, iv.value, Packed(message));
      BytesToBitsOfPackedPads(message);
    }

    /**
     * EAX round trip: with a 16-byte nonce, a 16-byte tag and an opening
     * that accepts what sealing produced, decrypting the encryption gives
     * the message padded with zero bits to a whole byte.
     */
    lemma EaxRoundTrip(aes: Cipher, message: seq<bool>, nonce: Bytes)
      requires mode == "EAX" && |nonce| == 16
      requires aes.eaxEncrypt(key, nonce, Packed(message)).Success?
      requires var sealed := aes.eaxEncrypt(key, nonce, Packed(message)).value;
        |sealed.1| == 16 && aes.eaxDecrypt(key, nonce, sealed.0, sealed.1) == Success(Packed(message))
      ensures Encrypt(aes, message, nonce).Success?
      ensures Decrypt(aes, Encrypt(aes, message, nonce).value) == Success(message + Zeros(PadLength(|message|)))
    {
      EaxFraming(aes, key, nonce, Packed(message));
      BytesToBitsOfPackedPads(message);
    }
  }
}
