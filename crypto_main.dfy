/** `decrypt_data_with_wrapped_key` (`crypto/main.rs`): unwrap the data key carried in the first blob with the
    master key, then use it to decrypt the second blob into UTF-8 text. Errors are checked in a fixed order
    and the first one is returned. */
module CryptoMain {
  import opened Wrappers
  import opened Bytes
  import Utf8
  import opened CryptoConfig
  import opened Crypto

  /** The key half: decode the wrapped key, unshift it, unwrap it with the master key, check its length. */
  function KeySide(prims: Primitives, master: Exec<seq<byte>>, shift: byte, wrappedKeyB64: string)
    : (r: Exec<Result<seq<byte>, CryptoError>>)
    ensures r.Done? && r.value.Ok? ==> |r.value.value| == 32
  {
    match B64Decoded(prims, wrappedKeyB64)
    case Err(e) => Done(Err(e))
    case Ok(keyBuff) =>
      match UnwrapKeyInternal(prims, master, Unshifted(keyBuff, shift))
      case Panic(m) => Panic(m)
      case Done(Err(e)) => Done(Err(e))
      case Done(Ok(key)) => if |key| != 32 then Done(Err(KeyLengthNot32)) else Done(Ok(key))
  }

  /** The data half, with the unwrapped key: decode, unshift, check for a nonce, decrypt, check UTF-8. */
  function DataSide(prims: Primitives, key: seq<byte>, shift: byte, dataB64: string): Result<string, CryptoError>
  {
    match B64Decoded(prims, dataB64)
    case Err(e) => Err(e)
    case Ok(raw) =>
      var data := Unshifted(raw, shift);
      if |data| < GcmNonceLen then Err(DataTooShort)
      else
        var nonce, ciphertextAndTag := data[..GcmNonceLen], data[GcmNonceLen..];
        match NewFromSlice(key)
        case None => Err(CipherInitFailed)
        case Some(cipher) =>
          match prims.gcmDecrypt(cipher, nonce, ciphertextAndTag)
          case None => Err(DecryptionFailed)
          case Some(plaintext) =>
            match Utf8.Decode(plaintext)
            case None => Err(InvalidUtf8Plaintext)
            case Some(text) => Ok(text)
  }

  /** What `decrypt_data_with_wrapped_key` returns, given what `get_master_key_bytes` returns and the shift
      both blobs are unshifted by. */
  function Decrypted(prims: Primitives, master: Exec<seq<byte>>, shift: byte, wrappedKeyB64: string, dataB64: string)
    : Exec<Result<string, CryptoError>>
  {
    match KeySide(prims, master, shift, wrappedKeyB64)
    case Panic(m) => Panic(m)
    case Done(Err(e)) => Done(Err(e))
    case Done(Ok(key)) => Done(DataSide(prims, key, shift, dataB64))
  }

  /** A buffer holding `s`, the `Vec<u8>` that `decode_b64` returns. */
  method BufferOf(s: seq<byte>) returns (buf: array<byte>)
    ensures fresh(buf) && buf[..] == s
  {
    buf := new byte[|s|](i requires 0 <= i < |s| => s[i]);
  }

  /** `decrypt_data_with_wrapped_key`. */
  method DecryptDataWithWrappedKey(prims: Primitives, cell: MasterKeyCell, wrappedKeyB64: string, dataB64: string)
      returns (r: Exec<Result<string, CryptoError>>)
    requires cell.Valid()
    modifies cell
    ensures cell.Valid()
    ensures cell.state == if B64Decoded(prims, wrappedKeyB64).Err? then old(cell.state) else StateAfter(old(cell.state), cell.env)
    ensures r == Decrypted(prims, MasterFrom(old(cell.state), cell.env), GetShiftValue(cell.env), wrappedKeyB64, dataB64)
  {
    var keyBytes := DecodeB64(prims, wrappedKeyB64);
    if keyBytes.Err? {
      return Done(Err(keyBytes.error));
    }
    var keyBuff := BufferOf(keyBytes.value);
    UnshiftInPlace(keyBuff, GetShiftValue(cell.env));

    var unwrapped := UnwrapKeyWithMasterInternal(prims, cell, keyBuff[..]);
    if unwrapped.Panic? {
      return Panic(unwrapped.message);
    }
    if unwrapped.value.Err? {
      return Done(Err(unwrapped.value.error));
    }
    var key := unwrapped.value.value;
    if |key| != 32 {
      return Done(Err(KeyLengthNot32));
    }

    var dataBytes := DecodeB64(prims, dataB64);
    if dataBytes.Err? {
      return Done(Err(dataBytes.error));
    }
    var data := BufferOf(dataBytes.value);
    UnshiftInPlace(data, GetShiftValue(cell.env));
    if data.Length < GcmNonceLen {
      return Done(Err(DataTooShort));
    }
    var nonceBytes, ciphertextAndTag := data[..GcmNonceLen], data[GcmNonceLen..];

    var cipher := NewFromSlice(key);
    if cipher.None? {
      return Done(Err(CipherInitFailed));
    }
    var nonce := nonceBytes;
    var plaintext := prims.gcmDecrypt(cipher.value, nonce, ciphertextAndTag);
    if plaintext.None? {
      return Done(Err(DecryptionFailed));
    }
    match Utf8.Decode(plaintext.value) {
      case None => r := Done(Err(InvalidUtf8Plaintext));
      case Some(text) => r := Done(Ok(text));
    }
  }

  /** The key half fails before the data blob is looked at: its errors mask every error of the data half. */
  lemma KeyErrorsMaskData(prims: Primitives, master: Exec<seq<byte>>, shift: byte, wrappedKeyB64: string,
                          d1: string, d2: string)
    requires !(KeySide(prims, master, shift, wrappedKeyB64).Done? && KeySide(prims, master, shift, wrappedKeyB64).value.Ok?)
    ensures Decrypted(prims, master, shift, wrappedKeyB64, d1) == Decrypted(prims, master, shift, wrappedKeyB64, d2)
  {
  }

  /** A wrapped key that does not decode is "Invalid base64" whatever the master key: it is decoded before
      the master key is fetched. */
  lemma KeyDecodeFirst(prims: Primitives, m1: Exec<seq<byte>>, m2: Exec<seq<byte>>, shift: byte,
                       wrappedKeyB64: string, d1: string, d2: string)
    requires B64Decoded(prims, wrappedKeyB64).Err?
    ensures Decrypted(prims, m1, shift, wrappedKeyB64, d1) == Done(Err(InvalidBase64))
    ensures Decrypted(prims, m1, shift, wrappedKeyB64, d1) == Decrypted(prims, m2, shift, wrappedKeyB64, d2)
  {
  }

  /** An unwrapped key of any length but 32 is rejected; a key that passes has 32 bytes. */
  lemma KeyLengthChecked(prims: Primitives, master: Exec<seq<byte>>, shift: byte, wrappedKeyB64: string)
    requires B64Decoded(prims, wrappedKeyB64).Ok? && master.Done?
    ensures KeySide(prims, master, shift, wrappedKeyB64) == Done(Err(KeyLengthNot32))
        <==> (var u := UnwrapKeyWithMaster(prims, master.value, Unshifted(B64Decoded(prims, wrappedKeyB64).value, shift));
              u.Ok? && |u.value| != 32)
  {
  }

  /** "Data too short" comes exactly from a data blob below the 12 nonce bytes; a blob of 12 bytes or more
      (even one too short to hold a tag) goes to the cipher. */
  lemma DataTooShortIff(prims: Primitives, key: seq<byte>, shift: byte, dataB64: string)
    requires |key| == 32
    ensures DataSide(prims, key, shift, dataB64) == Err(DataTooShort)
        <==> B64Decoded(prims, dataB64).Ok? && |B64Decoded(prims, dataB64).value| < GcmNonceLen
  {
  }

  /** "Cipher init failed" never happens: the key reaching it has been checked to have 32 bytes. */
  lemma CipherInitNeverFails(prims: Primitives, master: Exec<seq<byte>>, shift: byte, wrappedKeyB64: string,
                             dataB64: string)
    ensures Decrypted(prims, master, shift, wrappedKeyB64, dataB64) != Done(Err(CipherInitFailed))
  {
  }

  /** Success takes every step: the data key decrypts, and the data blob, unshifted, splits into the nonce
      (first 12 bytes) and the ciphertext, which the cipher accepts under the key and which is UTF-8; the text
      is the plaintext unchanged. */
  lemma DataSideOk(prims: Primitives, key: seq<byte>, shift: byte, dataB64: string, text: string)
    requires DataSide(prims, key, shift, dataB64) == Ok(text)
    ensures |key| == 32 && B64Decoded(prims, dataB64).Ok?
    ensures var data := Unshifted(B64Decoded(prims, dataB64).value, shift);
      |data| >= GcmNonceLen
      && prims.gcmDecrypt(key, data[..GcmNonceLen], data[GcmNonceLen..]).Some?
      && Utf8.Encode(text) == prims.gcmDecrypt(key, data[..GcmNonceLen], data[GcmNonceLen..]).value
  {
    var data := Unshifted(B64Decoded(prims, dataB64).value, shift);
    Utf8.EncodeDecode(prims.gcmDecrypt(key, data[..GcmNonceLen], data[GcmNonceLen..]).value);
  }

  /** With the master key of a valid cell, the master cipher always starts: "Master cipher init failed"
      never happens. */
  lemma MasterCipherNeverFails(prims: Primitives, state: OnceState, env: Env, shift: byte,
                               wrappedKeyB64: string, dataB64: string)
    requires state.Complete? ==> MasterKeyBytes(env) == Done(state.value)
    ensures Decrypted(prims, MasterFrom(state, env), shift, wrappedKeyB64, dataB64) != Done(Err(MasterCipherInitFailed))
  {
    var master := MasterFrom(state, env);
    MasterKeyStable(state, env);
    if master.Done? && B64Decoded(prims, wrappedKeyB64).Ok? {
      UnwrapFailureIsUnwrapFailed(prims, master.value, Unshifted(B64Decoded(prims, wrappedKeyB64).value, shift));
    }
  }
}
