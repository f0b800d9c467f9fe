/** The key material of CuuTruyen Reborn's decryption (`crypto/config.rs`): the AES-GCM sizes, the master key
    kept in the binary rotated bit-wise and restored once on first use, and the byte shift applied to blobs. */
module CryptoConfig {
  import opened Wrappers
  import opened Bytes

  /** `GCM_NONCE_LEN`: the 96-bit nonce of AES-GCM (NIST SP 800-38D, section 5.2.1.1). */
  const GcmNonceLen: nat := 12

  /** `GCM_TAG_LEN`: the 128-bit authentication tag that ends every AES-GCM ciphertext. */
  const GcmTagLen: nat := 16

  /** `ror_byte`: `u8::rotate_right`, which rotates by the shift modulo 8. */
  function RorByte(b: byte, shift: byte): (r: byte)
  {
    RotateRight(b, shift % 8)
  }

  /** Rotating left by the same amount restores the byte. */
  lemma RorByteUndo(b: byte, shift: byte)
    ensures RotateLeft(RorByte(b, shift), shift % 8) == b
  {
    RotateLeftRight(b, shift % 8);
  }

  /** A shift that is a multiple of 8 leaves the byte alone. */
  lemma RorByteWhole(b: byte, shift: byte)
    requires shift % 8 == 0
    ensures RorByte(b, shift) == b
  {
    RotateRightZero(b);
  }

  /** Bit `i` of the result is bit `(i + shift) mod 8` of the byte, so only `shift mod 8` matters. */
  lemma RorByteBits(b: byte, shift: byte, i: nat)
    requires i < 8
    ensures BitsOf(RorByte(b, shift))[i] == BitsOf(b)[(i + shift % 8) % 8]
  {
    RotateRightBit(b, shift % 8, i);
  }

  /** The constants of the `env` module, which is generated at build time and is not part of this model. */
  datatype Env = Env(masterKeyHashShifted: seq<byte>, shiftKey: byte)

  /** The panic of `assert_eq!` on a constant of the wrong length, and the one `spin::Once` raises when a
      call finds that the first initialisation panicked. */
  const MasterLengthPanic: string := "MASTER_KEY_HASH must be 32 bytes"
  const OncePanicked: string := "Once panicked"

  /** What the initialiser of `MASTER_BYTES` computes: every byte of the constant rotated right by
      `SHIFT_KEY`, or the assertion's panic when the constant does not have 32 bytes. */
  function MasterKeyBytes(env: Env): (r: Exec<seq<byte>>)
    ensures r.Panic? <==> |env.masterKeyHashShifted| != 32
    ensures r.Done? ==> |r.value| == 32
  {
    var shifted := env.masterKeyHashShifted;
    if |shifted| != 32 then Panic(MasterLengthPanic)
    else Done(seq(32, i requires 0 <= i < 32 => RorByte(shifted[i], env.shiftKey)))
  }

  /** Rotating the master key back left by `SHIFT_KEY` gives the constant stored in the binary. */
  lemma MasterKeyRestores(env: Env)
    requires MasterKeyBytes(env).Done?
    ensures forall i :: 0 <= i < 32 ==>
      RotateLeft(MasterKeyBytes(env).value[i], env.shiftKey % 8) == env.masterKeyHashShifted[i]
  {
    forall i | 0 <= i < 32
      ensures RotateLeft(MasterKeyBytes(env).value[i], env.shiftKey % 8) == env.masterKeyHashShifted[i]
    {
      RorByteUndo(env.masterKeyHashShifted[i], env.shiftKey);
    }
  }

  /** The state of a `spin::Once`: not yet run, holding its value, or poisoned by a panicking initialiser. */
  datatype OnceState = Incomplete | Complete(value: seq<byte>) | Poisoned

  /** What `get_master_key_bytes` returns from a cell in state `state`. */
  function MasterFrom(state: OnceState, env: Env): Exec<seq<byte>>
  {
    match state
    case Incomplete => MasterKeyBytes(env)
    case Complete(v) => Done(v)
    case Poisoned => Panic(OncePanicked)
  }

  /** The state after `get_master_key_bytes`. */
  function StateAfter(state: OnceState, env: Env): OnceState
  {
    match state
    case Incomplete => if MasterKeyBytes(env).Done? then Complete(MasterKeyBytes(env).value) else Poisoned
    case _ => state
  }

  /** `MASTER_BYTES` and `get_master_key_bytes`: the master key computed on the first call and kept. */
  class MasterKeyCell {
    const env: Env
    var state: OnceState

    /** A cell only ever holds the initialiser's value, and is poisoned only by its panic. */
    ghost predicate Valid()
      reads this
    {
      (state.Complete? ==> MasterKeyBytes(env) == Done(state.value))
      && (state.Poisoned? ==> MasterKeyBytes(env).Panic?)
    }

    /** `Once::new()`. */
    constructor(env: Env)
      ensures this.env == env && state == Incomplete && Valid()
    {
      this.env := env;
      state := Incomplete;
    }

    /** The initialiser: checks the length, then fills a zeroed 32-byte array in index order. */
    static method Initialise(env: Env) returns (r: Exec<seq<byte>>)
      ensures r == MasterKeyBytes(env)
    {
      var shifted := env.masterKeyHashShifted;
      if |shifted| != 32 {
        return Panic(MasterLengthPanic);
      }
      var arr := new byte[32];
      for i := 0 to 32
        invariant forall j :: 0 <= j < i ==> arr[j] == RorByte(shifted[j], env.shiftKey)
      {
        arr[i] := RorByte(shifted[i], env.shiftKey);
      }
      assert arr[..] == seq(32, i requires 0 <= i < 32 => RorByte(shifted[i], env.shiftKey));
      return Done(arr[..]);
    }

    /** `get_master_key_bytes`: the first call runs the initialiser, later calls return its value. */
    method Get() returns (r: Exec<seq<byte>>)
      requires Valid()
      modifies this
      ensures Valid()
      ensures r == MasterFrom(old(state), env) && state == StateAfter(old(state), env)
    {
      match state {
        case Complete(v) =>
          r := Done(v);
        case Poisoned =>
          r := Panic(OncePanicked);
        case Incomplete =>
          r := Initialise(env);
          if r.Done? {
            state := Complete(r.value);
          } else {
            state := Poisoned;
          }
      }
    }
  }

  /** Every call that returns a key returns the same 32 bytes: the initialiser's value. */
  lemma MasterKeyStable(state: OnceState, env: Env)
    requires state.Complete? ==> MasterKeyBytes(env) == Done(state.value)
    ensures MasterFrom(state, env).Done? ==> MasterFrom(state, env) == MasterKeyBytes(env)
    ensures MasterFrom(StateAfter(state, env), env).Done? ==> MasterFrom(StateAfter(state, env), env) == MasterKeyBytes(env)
    ensures MasterFrom(state, env).Done? ==> |MasterFrom(state, env).value| == 32
  {
  }

  /** `get_shift_value`: the same `SHIFT_KEY` the master key rotation uses. */
  function GetShiftValue(env: Env): (shift: byte)
    ensures MasterKeyBytes(env).Done? ==>
      forall i :: 0 <= i < 32 ==> MasterKeyBytes(env).value[i] == RorByte(env.masterKeyHashShifted[i], shift)
  {
    env.shiftKey
  }
}
