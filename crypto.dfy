/** The primitives of CuuTruyen Reborn's decryption (`crypto/crypto.rs`): base64 decoding of unpadded text,
    the byte shift that is undone in place, and the unwrapping of a data key with the master key. The base64
    engine and AES-256-GCM come from foreign crates and are parameters here. */
module Crypto {
  import opened Wrappers
  import opened Bytes
  import opened Text
  import Utf8
  import opened CryptoConfig

  /** The error strings of `crypto.rs` and `main.rs`, one constructor each; `Message` gives the text. */
  datatype CryptoError =
    | InvalidBase64 | WrappedKeyTooShort | MasterCipherInitFailed | MasterUnwrapFailed
    | KeyLengthNot32 | DataTooShort | CipherInitFailed | DecryptionFailed | InvalidUtf8Plaintext

  function Message(e: CryptoError): string
  {
    match e
    case InvalidBase64 => "Invalid base64"
    case WrappedKeyTooShort => "Wrapped key data too short"
    case MasterCipherInitFailed => "Master cipher init failed"
    case MasterUnwrapFailed => "Master unwrap failed"
    case KeyLengthNot32 => "Unwrapped key length is not 32 bytes"
    case DataTooShort => "Data too short"
    case CipherInitFailed => "Cipher init failed"
    case DecryptionFailed => "Decryption failed"
    case InvalidUtf8Plaintext => "Invalid UTF-8 plaintext"
  }

  /** No two errors share a message, so the constructor loses nothing of the string. */
  lemma MessageInjective(e1: CryptoError, e2: CryptoError)
    requires Message(e1) == Message(e2)
    ensures e1 == e2
  {
    assert |Message(e1)| == |Message(e2)| && Message(e1)[0] == Message(e2)[0];
  }

  /** The foreign code: `general_purpose::STANDARD.decode` (RFC 4648 base64, padding required) and the
      `decrypt` of an AES-256-GCM cipher (NIST SP 800-38D) under a key, a 12-byte nonce and a ciphertext
      ending in its tag, which fails when the tag does not authenticate. */
  datatype Primitives = Primitives(
    standardDecode: string -> Option<seq<byte>>,
    gcmDecrypt: (seq<byte>, seq<byte>, seq<byte>) -> Option<seq<byte>>)

  /** `Aes256Gcm::new_from_slice`: accepts exactly the 32-byte keys of AES-256. */
  function NewFromSlice(key: seq<byte>): (cipher: Option<seq<byte>>)
    ensures cipher.Some? <==> |key| == 32
    ensures cipher.Some? ==> cipher.value == key
  {
    if |key| == 32 then Some(key) else None
  }

  // ---------------------------------------------------------------------------------------------------------
  // decode_b64

  /** How many `=` bring a byte length of `len` to a multiple of 4. */
  function PadLength(len: nat): (n: nat)
  {
    if len % 4 == 0 then 0 else 4 - len % 4
  }

  /** The text `decode_b64` hands to the engine. */
  function Padded(s: string): string
  {
    s + Repeat('=', PadLength(Utf8.EncodedLength(s)))
  }

  /** The padding keeps the text as a prefix, appends at most three `=` (none to a length that is a multiple
      of 4) and leaves a byte length that is a multiple of 4. */
  lemma PaddedShape(s: string)
    ensures StartsWith(Padded(s), s)
    ensures forall i :: |s| <= i < |Padded(s)| ==> Padded(s)[i] == '='
    ensures |Padded(s)| - |s| <= 3
    ensures Utf8.EncodedLength(s) % 4 == 0 ==> Padded(s) == s
    ensures Utf8.EncodedLength(Padded(s)) % 4 == 0
  {
    var n := PadLength(Utf8.EncodedLength(s));
    var pad := Repeat('=', n);
    assert Padded(s)[..|s|] == s;
    Utf8.EncodedLengthConcat(s, pad);
    Utf8.EncodedLengthAscii(pad);
  }

  /** What `decode_b64` returns. */
  function B64Decoded(prims: Primitives, s: string): Result<seq<byte>, CryptoError>
  {
    match prims.standardDecode(Padded(s))
    case None => Err(InvalidBase64)
    case Some(bytes) => Ok(bytes)
  }

  /** `decode_b64`: pads a copy of the text with `=` to a multiple of four bytes, then decodes it. */
  method DecodeB64(prims: Primitives, s: string) returns (r: Result<seq<byte>, CryptoError>)
    ensures r == B64Decoded(prims, s)
  {
    var padded := s;
    var rem := Utf8.EncodedLength(s) % 4;
    if rem != 0 {
      var padLen := 4 - rem;
      padded := padded + Repeat('=', padLen);
    } else {
      assert padded == s + Repeat('=', 0);
    }
    match prims.standardDecode(padded) {
      case None => r := Err(InvalidBase64);
      case Some(bytes) => r := Ok(bytes);
    }
  }

  // ---------------------------------------------------------------------------------------------------------
  // unshift_inplace

  /** `u8::wrapping_sub`: the difference modulo 256. */
  function WrappingSub(b: byte, shift: byte): byte
  {
    (b as int - shift as int) % 256
  }

  /** `u8::wrapping_add`: the sum modulo 256, the shift as the server applies it. */
  function WrappingAdd(b: byte, shift: byte): byte
  {
    (b as int + shift as int) % 256
  }

  /** Every byte of `data` with `shift` subtracted. */
  function Unshifted(data: seq<byte>, shift: byte): (r: seq<byte>)
    ensures |r| == |data|
  {
    seq(|data|, i requires 0 <= i < |data| => WrappingSub(data[i], shift))
  }

  /** Every byte of `data` with `shift` added. */
  function Shifted(data: seq<byte>, shift: byte): (r: seq<byte>)
    ensures |r| == |data|
  {
    seq(|data|, i requires 0 <= i < |data| => WrappingAdd(data[i], shift))
  }

  /** A zero shift changes nothing. */
  lemma UnshiftZero(data: seq<byte>)
    ensures Unshifted(data, 0) == data
  {
  }

  lemma WrappingInverse(b: byte, shift: byte)
    ensures WrappingAdd(WrappingSub(b, shift), shift) == b
    ensures WrappingSub(WrappingAdd(b, shift), shift) == b
  {
  }

  /** Adding the shift back restores the buffer, and unshifting undoes the server's shift. */
  lemma ShiftRoundTrip(data: seq<byte>, shift: byte)
    ensures Shifted(Unshifted(data, shift), shift) == data
    ensures Unshifted(Shifted(data, shift), shift) == data
  {
    forall i | 0 <= i < |data| ensures Shifted(Unshifted(data, shift), shift)[i] == data[i] {
      WrappingInverse(data[i], shift);
    }
    forall i | 0 <= i < |data| ensures Unshifted(Shifted(data, shift), shift)[i] == data[i] {
      WrappingInverse(data[i], shift);
    }
  }

  /** `unshift_inplace`: returns at once for a zero shift, otherwise subtracts it from every byte. */
  method UnshiftInPlace(buf: array<byte>, shift: byte)
    modifies buf
    ensures buf[..] == Unshifted(old(buf[..]), shift)
  {
    if shift == 0 {
      UnshiftZero(buf[..]);
      return;
    }
    for i := 0 to buf.Length
      invariant forall j :: 0 <= j < i ==> buf[j] == WrappingSub(old(buf[j]), shift)
      invariant forall j :: i <= j < buf.Length ==> buf[j] == old(buf[j])
    {
      buf[i] := WrappingSub(buf[i], shift);
    }
  }

  // ---------------------------------------------------------------------------------------------------------
  // unwrap_key_with_master_internal

  /** What `unwrap_key_with_master_internal` returns once it holds the master key. */
  function UnwrapKeyWithMaster(prims: Primitives, master: seq<byte>, decoded: seq<byte>): Result<seq<byte>, CryptoError>
  {
    if |decoded| < GcmNonceLen + GcmTagLen then Err(WrappedKeyTooShort)
    else
      var nonce, rest := decoded[..GcmNonceLen], decoded[GcmNonceLen..];
      match NewFromSlice(master)
      case None => Err(MasterCipherInitFailed)
      case Some(cipher) =>
        match prims.gcmDecrypt(cipher, nonce, rest)
        case None => Err(MasterUnwrapFailed)
        case Some(key) => Ok(key)
  }

  /** What `unwrap_key_with_master_internal` returns given what `get_master_key_bytes` returned. */
  function UnwrapKeyInternal(prims: Primitives, master: Exec<seq<byte>>, decoded: seq<byte>)
    : Exec<Result<seq<byte>, CryptoError>>
  {
    match master
    case Panic(m) => Panic(m)
    case Done(key) => Done(UnwrapKeyWithMaster(prims, key, decoded))
  }

  /** `unwrap_key_with_master_internal`: fetches the master key first, then checks the length, splits off the
      nonce and decrypts the rest. */
  method UnwrapKeyWithMasterInternal(prims: Primitives, cell: MasterKeyCell, decoded: seq<byte>)
      returns (r: Exec<Result<seq<byte>, CryptoError>>)
    requires cell.Valid()
    modifies cell
    ensures cell.Valid() && cell.state == StateAfter(old(cell.state), cell.env)
    ensures r == UnwrapKeyInternal(prims, MasterFrom(old(cell.state), cell.env), decoded)
  {
    var master := cell.Get();
    if master.Panic? {
      return Panic(master.message);
    }
    if |decoded| < GcmNonceLen + GcmTagLen {
      return Done(Err(WrappedKeyTooShort));
    }
    var nonceBytes, rest := decoded[..GcmNonceLen], decoded[GcmNonceLen..];
    var cipher := NewFromSlice(master.value);
    if cipher.None? {
      return Done(Err(MasterCipherInitFailed));
    }
    var nonce := nonceBytes;
    match prims.gcmDecrypt(cipher.value, nonce, rest) {
      case None => r := Done(Err(MasterUnwrapFailed));
      case Some(key) => r := Done(Ok(key));
    }
  }

  /** "Wrapped key data too short" comes exactly from blobs shorter than a nonce and a tag ... */
  lemma UnwrapTooShortIff(prims: Primitives, master: seq<byte>, decoded: seq<byte>)
    ensures UnwrapKeyWithMaster(prims, master, decoded) == Err(WrappedKeyTooShort)
        <==> |decoded| < GcmNonceLen + GcmTagLen
  {
  }

  /** ... and is decided before the cipher is used: neither the master key nor the cipher matters. */
  lemma UnwrapShortIgnoresCipher(p1: Primitives, p2: Primitives, m1: seq<byte>, m2: seq<byte>, decoded: seq<byte>)
    requires |decoded| < GcmNonceLen + GcmTagLen
    ensures UnwrapKeyWithMaster(p1, m1, decoded) == UnwrapKeyWithMaster(p2, m2, decoded)
  {
  }

  /** The unwrap succeeds exactly when the blob is long enough, the master key has 32 bytes and the cipher
      authenticates the rest under the first 12 bytes as nonce; the key is then the decrypted plaintext.
      The nonce and the rest make up the blob. */
  lemma UnwrapOkIff(prims: Primitives, master: seq<byte>, decoded: seq<byte>, key: seq<byte>)
    ensures UnwrapKeyWithMaster(prims, master, decoded) == Ok(key)
        <==> |decoded| >= GcmNonceLen + GcmTagLen && |master| == 32
             && prims.gcmDecrypt(master, decoded[..GcmNonceLen], decoded[GcmNonceLen..]) == Some(key)
    ensures |decoded| >= GcmNonceLen ==> decoded[..GcmNonceLen] + decoded[GcmNonceLen..] == decoded
  {
  }

  /** A failing decryption is "Master unwrap failed"; with a 32-byte master key the cipher always starts. */
  lemma UnwrapFailureIsUnwrapFailed(prims: Primitives, master: seq<byte>, decoded: seq<byte>)
    requires |master| == 32
    ensures UnwrapKeyWithMaster(prims, master, decoded) != Err(MasterCipherInitFailed)
    ensures UnwrapKeyWithMaster(prims, master, decoded) == Err(MasterUnwrapFailed)
        <==> |decoded| >= GcmNonceLen + GcmTagLen
             && prims.gcmDecrypt(master, decoded[..GcmNonceLen], decoded[GcmNonceLen..]).None?
  {
  }
}
