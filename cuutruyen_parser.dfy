/** The row-layout descrambling data of CuuTruyen pages (`vi.cuutruyen`): a page's `drm_data` is base64 text
    of a XOR-masked UTF-8 descriptor `#v4|dy-height|dy-height…`, which becomes a list of row blocks. */
module CuuTruyenParser {
  import opened Wrappers
  import opened Bytes
  import opened Radix
  import opened Text
  import opened Decimal
  import Utf8

  /** The `AidokuErrorKind` values this code returns. */
  datatype ErrorKind = DefaultNotFound | JsonParseError

  /** `RowBlock`: a horizontal strip of the scrambled image, by vertical offset and height (both `i32`). */
  datatype RowBlock = RowBlock(dy: int, height: int)

  // ---------------------------------------------------------------------------------------------------------
  // decode_base64

  /** How `decode_base64` treats one input byte. */
  datatype Symbol = Sextet(value: nat) | Skip | Invalid

  /** The value of an alphabet byte (`=` counts as zero, like `A`), the four skipped whitespace bytes, and the rest. */
  function Classify(b: byte): (s: Symbol)
    ensures s.Sextet? ==> s.value < 64
  {
    var c := b as int;
    if 'A' as int <= c <= 'Z' as int then Sextet(c - 'A' as int)
    else if 'a' as int <= c <= 'z' as int then Sextet(c - 'a' as int + 26)
    else if '0' as int <= c <= '9' as int then Sextet(c - '0' as int + 52)
    else if c == '+' as int then Sextet(62)
    else if c == '/' as int then Sextet(63)
    else if c == '=' as int then Sextet(0)
    else if c == '\n' as int || c == '\r' as int || c == '\t' as int || c == ' ' as int then Skip
    else Invalid
  }

  /** The values of the accepted symbols among the first `n` bytes of `input`, in order, or `None` when one of
      those bytes is neither in the alphabet nor skipped. */
  function SextetsUpTo(input: seq<byte>, n: nat): (r: Option<seq<nat>>)
    requires n <= |input|
    ensures r.Some? ==> Fits(r.value, 6)
    decreases n
  {
    if n == 0 then Some([])
    else
      match SextetsUpTo(input, n - 1)
      case None => None
      case Some(vs) =>
        match Classify(input[n - 1])
        case Invalid => None
        case Skip => Some(vs)
        case Sextet(v) => Some(vs + [v])
  }

  /** The values of the accepted symbols of `input`. */
  function Sextets(input: seq<byte>): Option<seq<nat>>
  {
    SextetsUpTo(input, |input|)
  }

  /** Only the bytes before `n` matter. */
  lemma {:induction false} SextetsUpToPrefix(input: seq<byte>, n: nat, m: nat)
    requires n <= m <= |input|
    ensures SextetsUpTo(input, n) == SextetsUpTo(input[..m], n)
    decreases n
  {
    if n > 0 {
      SextetsUpToPrefix(input, n - 1, m);
      assert input[..m][n - 1] == input[n - 1];
    }
  }

  /** Digits below 256, as bytes. */
  function AsBytes(ds: seq<nat>): (bs: seq<byte>)
    requires Fits(ds, 8)
    ensures |bs| == |ds| && forall i :: 0 <= i < |ds| ==> bs[i] == ds[i]
  {
    Pow2Byte();
    seq(|ds|, i requires 0 <= i < |ds| => ds[i])
  }

  /** What `decode_base64` returns: the `k` accepted symbols give a string of `6k` bits, which is cut into
      `6k / 8` bytes, most significant first, and the `6k mod 8` bits left over are dropped. */
  function Base64Decoded(input: seq<byte>): (r: Result<seq<byte>, ErrorKind>)
    ensures r.Err? <==> Sextets(input).None?
    ensures r.Err? ==> r.error == DefaultNotFound
  {
    match Sextets(input)
    case None => Err(DefaultNotFound)
    case Some(vs) =>
      var k := |vs|;
      Ok(AsBytes(Digits(Value(vs, 6) / Pow2(6 * k % 8), 8, 6 * k / 8)))
  }

  /** The byte length of a successful decode is `6k / 8` for `k` accepted symbols. */
  lemma Base64Length(input: seq<byte>)
    requires Base64Decoded(input).Ok?
    ensures Sextets(input).Some?
    ensures |Base64Decoded(input).value| == 6 * |Sextets(input).value| / 8
  {
  }

  /** Where the decoding loop stands after the symbols `vs`: the bytes `out` it has pushed followed by the
      `bits` low bits of `buffer` spell the same number as `vs`. */
  ghost predicate Accumulated(vs: seq<nat>, out: seq<byte>, bits: nat, buffer: nat) {
    bits < 8 && buffer < Pow2(bits) && 6 * |vs| == 8 * |out| + bits
    && Value(vs, 6) == Value(out, 8) * Pow2(bits) + buffer
  }

  lemma Regroup(o: int, p: int, q: int, x: int)
    ensures (o * p + x) * q == o * (p * q) + x * q
  {
  }

  /** Shifting a sextet into the buffer keeps the value and leaves it below `2^(bits + 6)`. */
  lemma ShiftIn(vs: seq<nat>, out: seq<byte>, bits: nat, buffer: nat, v: nat)
    requires Accumulated(vs, out, bits, buffer) && v < 64
    ensures buffer * 64 + v < Pow2(bits + 6)
    ensures Value(vs + [v], 6) == Value(out, 8) * Pow2(bits + 6) + (buffer * 64 + v)
  {
    var p := Pow2(bits);
    Pow2Add(bits, 6);
    assert Pow2(6) == 64;
    MulAddBound(buffer, v, p, 64);
    ValueAppend(vs, v, 6);
    Regroup(Value(out, 8), p, 64, buffer);
  }

  /** Emitting the top eight of `bits >= 8` buffered bits as a byte keeps the value. */
  lemma EmitByte(out: seq<byte>, bits: nat, buffer: nat)
    requires 8 <= bits && buffer < Pow2(bits)
    ensures buffer / Pow2(bits - 8) < 256
    ensures Value(out, 8) * Pow2(bits) + buffer
         == Value(out + [buffer / Pow2(bits - 8)], 8) * Pow2(bits - 8) + buffer % Pow2(bits - 8)
  {
    var p := Pow2(bits - 8);
    Pow2Add(8, bits - 8);
    Pow2Byte();
    DivBound(buffer, 256, p);
    Euclid(buffer, p);
    var d := buffer / p;
    ValueAppend(out, d, 8);
    Regroup(Value(out, 8), 256, p, d);
  }

  /** One accepted symbol keeps the loop's account of the bits, whether or not a byte is pushed. */
  lemma Step(vs: seq<nat>, out: seq<byte>, bits: nat, buffer: nat, v: nat)
    requires Accumulated(vs, out, bits, buffer) && v < 64
    ensures bits + 6 < 8 ==> Accumulated(vs + [v], out, bits + 6, buffer * 64 + v)
    ensures bits + 6 >= 8 ==> (buffer * 64 + v) / Pow2(bits + 6 - 8) < 256
    ensures bits + 6 >= 8 ==> Accumulated(vs + [v], out + [(buffer * 64 + v) / Pow2(bits + 6 - 8)],
                                           bits + 6 - 8, (buffer * 64 + v) % Pow2(bits + 6 - 8))
  {
    ShiftIn(vs, out, bits, buffer, v);
    if bits + 6 >= 8 {
      EmitByte(out, bits + 6, buffer * 64 + v);
    }
  }

  /** The loop body of `decode_base64` for an accepted symbol of value `v`: `buffer = (buffer << 6) | val`,
      six more bits held, and when at least eight are held the top eight pushed as one byte. */
  method ShiftSymbol(ghost vs: seq<nat>, out: seq<byte>, bits: nat, buffer: nat, v: nat)
    returns (out': seq<byte>, bits': nat, buffer': nat)
    requires Accumulated(vs, out, bits, buffer) && v < 64
    ensures Accumulated(vs + [v], out', bits', buffer')
    ensures out' == out || (|out'| == |out| + 1 && out'[..|out|] == out)
  {
    Step(vs, out, bits, buffer, v);
    buffer' := buffer * 64 + v;
    bits' := bits + 6;
    out' := out;
    if bits' >= 8 {
      bits' := bits' - 8;
      DivNat(buffer', Pow2(bits'));
      var byte := buffer' / Pow2(bits');
      out' := out + [byte];
      buffer' := buffer' % Pow2(bits');
    }
  }

  /** At the end, the pushed bytes are what `Base64Decoded` describes. */
  lemma Finish(input: seq<byte>, vs: seq<nat>, out: seq<byte>, bits: nat, buffer: nat)
    requires Sextets(input) == Some(vs) && Accumulated(vs, out, bits, buffer)
    ensures Base64Decoded(input) == Ok(out)
  {
    var k := |vs|;
    DivModOf(|out|, bits, 8);
    assert 6 * k % 8 == bits && 6 * k / 8 == |out|;
    DivModOf(Value(out, 8), buffer, Pow2(bits));
    assert Value(vs, 6) / Pow2(bits) == Value(out, 8);
    Pow2Byte();
    DigitsOfValue(out, 8);
    assert Digits(Value(out, 8), 8, |out|) == out;
    assert AsBytes(out) == out;
  }

  /** A byte that is neither in the alphabet nor skipped makes every longer prefix fail. */
  lemma {:induction false} SextetsInvalid(input: seq<byte>, i: nat, n: nat)
    requires i < n <= |input| && Classify(input[i]).Invalid?
    ensures SextetsUpTo(input, n) == None
    decreases n
  {
    if i < n - 1 {
      SextetsInvalid(input, i, n - 1);
    }
  }

  lemma {:induction false} SextetsUpToErrIff(input: seq<byte>, n: nat)
    requires n <= |input|
    ensures SextetsUpTo(input, n).None? <==> exists i :: 0 <= i < n && Classify(input[i]).Invalid?
    decreases n
  {
    if exists i :: 0 <= i < n && Classify(input[i]).Invalid? {
      var i :| 0 <= i < n && Classify(input[i]).Invalid?;
      SextetsInvalid(input, i, n);
    } else if n > 0 {
      SextetsUpToErrIff(input, n - 1);
    }
  }

  /** Some byte of `input` is neither in the alphabet nor skipped. */
  predicate HasInvalid(input: seq<byte>) {
    exists i :: 0 <= i < |input| && Classify(input[i]).Invalid?
  }

  /** `decode_base64` fails exactly when some byte is neither in the alphabet nor skipped. */
  lemma Base64ErrIff(input: seq<byte>)
    ensures Base64Decoded(input).Err? <==> HasInvalid(input)
  {
    SextetsUpToErrIff(input, |input|);
  }

  /** `decode_base64`: an accumulator `buffer` collects six bits per symbol; as soon as eight or more are
      held, the top eight are pushed as a byte. `buffer` stays below `2^14`, so the source's `u32` shifts
      and masks are exact: `(buffer << 6) | val` is `buffer * 64 + val`, `buffer >> bits` is a quotient by
      `2^bits`, and masking with `(1 << bits) - 1` is a remainder. */
  method DecodeBase64(input: seq<byte>) returns (r: Result<seq<byte>, ErrorKind>)
    ensures r == Base64Decoded(input)
  {
    var out: seq<byte> := [];
    var buffer: nat := 0;
    var bitsCollected: nat := 0;
    ghost var vs: seq<nat> := [];
    var i := 0;
    while i < |input|
      invariant i <= |input|
      invariant SextetsUpTo(input, i) == Some(vs)
      invariant Accumulated(vs, out, bitsCollected, buffer)
    {
      match Classify(input[i]) {
        case Invalid =>
          SextetsInvalid(input, i, |input|);
          return Err(DefaultNotFound);
        case Skip =>
        case Sextet(val) =>
          out, bitsCollected, buffer := ShiftSymbol(vs, out, bitsCollected, buffer, val);
          vs := vs + [val];
      }
      i := i + 1;
    }
    Finish(input, vs, out, bitsCollected, buffer);
    return Ok(out);
  }

  /** `Sextets` of a sequence one byte longer. */
  lemma SextetsSnoc(xs: seq<byte>, b: byte)
    ensures Sextets(xs + [b]) == match Sextets(xs)
      case None => None
      case Some(vs) => match Classify(b)
        case Invalid => None
        case Skip => Some(vs)
        case Sextet(v) => Some(vs + [v])
  {
    SextetsUpToPrefix(xs + [b], |xs|, |xs|);
    assert (xs + [b])[..|xs|] == xs;
    assert (xs + [b])[|xs|] == b;
  }

  /** `input` without the bytes `decode_base64` skips. */
  function WithoutSkipped(input: seq<byte>): (r: seq<byte>)
    ensures forall i :: 0 <= i < |r| ==> !Classify(r[i]).Skip?
    decreases |input|
  {
    if input == [] then []
    else
      var init := WithoutSkipped(input[..|input| - 1]);
      if Classify(input[|input| - 1]).Skip? then init else init + [input[|input| - 1]]
  }

  /** Skipped whitespace makes no difference: decoding `input` is decoding it with those bytes removed. */
  lemma {:induction false} SkippedIrrelevant(input: seq<byte>)
    ensures Sextets(WithoutSkipped(input)) == Sextets(input)
    ensures Base64Decoded(WithoutSkipped(input)) == Base64Decoded(input)
    decreases |input|
  {
    if input != [] {
      var init := input[..|input| - 1];
      var b := input[|input| - 1];
      SkippedIrrelevant(init);
      assert input == init + [b];
      SextetsSnoc(init, b);
      if !Classify(b).Skip? {
        SextetsSnoc(WithoutSkipped(init), b);
      }
    }
  }

  /** The symbol of the 6-bit value `v` in the base64 alphabet of RFC 4648 (section 4, Table 1): `A`-`Z`,
      `a`-`z`, `0`-`9`, `+`, `/`. */
  function SymbolOf(v: nat): (b: byte)
    requires v < 64
    ensures Classify(b) == Sextet(v)
  {
    if v < 26 then 'A' as int + v
    else if v < 52 then 'a' as int + (v - 26)
    else if v < 62 then '0' as int + (v - 52)
    else if v == 62 then '+' as int
    else '/' as int
  }

  /** The decoder reads exactly the RFC 4648 alphabet (plus `=`): every byte it accepts other than `=` is
      the symbol of the value it is read as. `=` is read as 0, the same as `A`. */
  lemma AlphabetIsRfc4648(b: byte)
    requires Classify(b).Sextet? && b != '=' as int
    ensures SymbolOf(Classify(b).value) == b
    ensures Classify('=' as int) == Classify('A' as int) == Sextet(0)
  {
  }

  /** The symbols of the 6-bit values `ds`. */
  function SymbolsOf(ds: seq<nat>): (bs: seq<byte>)
    requires Fits(ds, 6)
    ensures |bs| == |ds|
    ensures forall i :: 0 <= i < |bs| ==> Classify(bs[i]) == Sextet(ds[i])
    decreases |ds|
  {
    if ds == [] then []
    else
      assert Pow2(6) == 64;
      SymbolsOf(ds[..|ds| - 1]) + [SymbolOf(ds[|ds| - 1])]
  }

  lemma {:induction false} SextetsOfSymbols(ds: seq<nat>)
    requires Fits(ds, 6)
    ensures Sextets(SymbolsOf(ds)) == Some(ds)
    decreases |ds|
  {
    if ds != [] {
      var init := ds[..|ds| - 1];
      assert Pow2(6) == 64;
      SextetsOfSymbols(init);
      SextetsSnoc(SymbolsOf(init), SymbolOf(ds[|ds| - 1]));
      assert ds == init + [ds[|ds| - 1]];
    }
  }

  /** `n` bytes take `ceil(8n / 6)` symbols ... */
  function SymbolCount(n: nat): nat {
    (8 * n + 5) / 6
  }

  /** ... whose bits exceed the `8n` data bits by fewer than six zero bits. */
  function PadBits(n: nat): (pad: nat)
    ensures pad < 6 && 8 * n + pad == 6 * SymbolCount(n)
  {
    6 * SymbolCount(n) - 8 * n
  }

  /** The pad is 0, 4 or 2 bits as the data length is 0, 1 or 2 modulo 3. */
  lemma PadBitsByLength(n: nat)
    ensures n % 3 == 0 ==> PadBits(n) == 0
    ensures n % 3 == 1 ==> PadBits(n) == 4
    ensures n % 3 == 2 ==> PadBits(n) == 2
  {
    var q := n / 3;
    Euclid(n, 3);
    if n % 3 == 0 {
      DivModOf(4 * q, 5, 6);
      assert 8 * n + 5 == 4 * q * 6 + 5;
    } else if n % 3 == 1 {
      DivModOf(4 * q + 2, 1, 6);
      assert 8 * n + 5 == (4 * q + 2) * 6 + 1;
    } else {
      DivModOf(4 * q + 3, 3, 6);
      assert 8 * n + 5 == (4 * q + 3) * 6 + 3;
    }
  }

  /** Base64 text of `data` without padding (RFC 4648, section 4, with the `=` padding omitted as its
      section 3.2 allows): the bits of `data` followed by zero bits up to a multiple of six, six at a time. */
  function EncodeUnpadded(data: seq<byte>): (text: seq<byte>)
    ensures |text| == SymbolCount(|data|)
    ensures forall i :: 0 <= i < |text| ==> Classify(text[i]).Sextet?
  {
    SymbolsOf(Digits(Value(data, 8) * Pow2(PadBits(|data|)), 6, SymbolCount(|data|)))
  }

  /** The sextets `Digits(x * 2^pad, 6, k)` spell `x * 2^pad` when the data bits and the pad fill them. */
  lemma EncodedValue(data: seq<byte>, k: nat, pad: nat)
    requires 8 * |data| + pad == 6 * k
    ensures Value(Digits(Value(data, 8) * Pow2(pad), 6, k), 6) == Value(data, 8) * Pow2(pad)
  {
    var n := |data|;
    Pow2Byte();
    ValueBound(data, 8);
    CapacityIsPow2(8, n);
    CapacityIsPow2(6, k);
    Pow2Add(8 * n, pad);
    MulAddBound(Value(data, 8), 0, Pow2(8 * n), Pow2(pad));
    ValueOfDigits(Value(data, 8) * Pow2(pad), 6, k);
  }

  /** The sextets of the encoding spell the data bits followed by the zero pad bits. */
  lemma EncodedSextets(data: seq<byte>)
    ensures Sextets(EncodeUnpadded(data)).Some?
    ensures Value(Sextets(EncodeUnpadded(data)).value, 6) == Value(data, 8) * Pow2(PadBits(|data|))
    ensures 6 * |Sextets(EncodeUnpadded(data)).value| == 8 * |data| + PadBits(|data|)
  {
    var ds := Digits(Value(data, 8) * Pow2(PadBits(|data|)), 6, SymbolCount(|data|));
    EncodedValue(data, SymbolCount(|data|), PadBits(|data|));
    SextetsOfSymbols(ds);
  }

  /** Decoding sextets that spell `bytes` followed by `pad < 8` more bits gives `bytes`. */
  lemma DecodesTo(input: seq<byte>, bytes: seq<byte>, pad: nat)
    requires Sextets(input).Some? && pad < 8
    requires 6 * |Sextets(input).value| == 8 * |bytes| + pad
    requires Value(Sextets(input).value, 6) == Value(bytes, 8) * Pow2(pad)
    ensures Base64Decoded(input) == Ok(bytes)
  {
    var vs := Sextets(input).value;
    var k := |vs|;
    DivModOf(|bytes|, pad, 8);
    assert 6 * k % 8 == pad && 6 * k / 8 == |bytes|;
    DivModOf(Value(bytes, 8), 0, Pow2(pad));
    assert Value(vs, 6) / Pow2(6 * k % 8) == Value(bytes, 8);
    Pow2Byte();
    DigitsOfValue(bytes, 8);
    assert AsBytes(bytes) == bytes;
  }

  /** Unpadded base64 text decodes back to the bytes it encodes. */
  lemma EncodeUnpaddedRoundTrip(data: seq<byte>)
    ensures Base64Decoded(EncodeUnpadded(data)) == Ok(data)
  {
    EncodedSextets(data);
    DecodesTo(EncodeUnpadded(data), data, PadBits(|data|));
  }

  /** A padding `=` adds a zero sextet, where RFC 4648 padding adds nothing. */
  lemma PaddingIsZeroSextet(input: seq<byte>)
    requires Sextets(input).Some?
    ensures Sextets(input + ['=' as int]) == Some(Sextets(input).value + [0])
  {
    SextetsSnoc(input, '=' as int);
  }

  /** A `=` after sextets that spell `data` and `pad` zero bits (2 or 4) makes them spell `data`, a zero byte,
      and `pad - 2` zero bits. */
  lemma AppendPad(text: seq<byte>, data: seq<byte>, pad: nat)
    requires pad == 2 || pad == 4
    requires Sextets(text).Some? && 6 * |Sextets(text).value| == 8 * |data| + pad
    requires Value(Sextets(text).value, 6) == Value(data, 8) * Pow2(pad)
    ensures Sextets(text + ['=' as int]).Some?
    ensures 6 * |Sextets(text + ['=' as int]).value| == 8 * |data + [0]| + (pad - 2)
    ensures Value(Sextets(text + ['=' as int]).value, 6) == Value(data + [0], 8) * Pow2(pad - 2)
  {
    PaddingIsZeroSextet(text);
    ValueAppend(Sextets(text).value, 0, 6);
    ValueAppend(data, 0, 8);
    Pow2Byte();
    assert Pow2(6) == 64 && Pow2(4) == 16 && Pow2(2) == 4 && Pow2(0) == 1;
  }

  /** Standard padding is read as data: when RFC 4648 pads with one `=` (two bytes left over), the decoder
      returns the data followed by one zero byte. */
  lemma PaddedOneDecodes(data: seq<byte>)
    requires |data| % 3 == 2
    ensures Base64Decoded(EncodeUnpadded(data) + ['=' as int]) == Ok(data + [0])
  {
    var text := EncodeUnpadded(data);
    EncodedSextets(data);
    PadBitsByLength(|data|);
    AppendPad(text, data, 2);
    DecodesTo(text + ['=' as int], data + [0], 0);
  }

  /** When RFC 4648 pads with `==` (one byte left over), the decoder returns the data followed by two zero
      bytes. */
  lemma PaddedTwoDecodes(data: seq<byte>)
    requires |data| % 3 == 1
    ensures Base64Decoded(EncodeUnpadded(data) + ['=' as int, '=' as int]) == Ok(data + [0, 0])
  {
    EncodedSextets(data);
    PadBitsByLength(|data|);
    AppendTwoPads(EncodeUnpadded(data), data);
  }

  /** Two `=` after sextets that spell `data` and four zero bits decode to `data` and two zero bytes. */
  lemma AppendTwoPads(text: seq<byte>, data: seq<byte>)
    requires Sextets(text).Some? && 6 * |Sextets(text).value| == 8 * |data| + 4
    requires Value(Sextets(text).value, 6) == Value(data, 8) * Pow2(4)
    ensures Base64Decoded(text + ['=' as int, '=' as int]) == Ok(data + [0, 0])
  {
    var eq := '=' as int;
    AppendPad(text, data, 4);
    AppendPad(text + [eq], data + [0], 2);
    assert text + [eq] + [eq] == text + [eq, eq];
    assert data + [0] + [0] == data + [0, 0];
    DecodesTo(text + [eq, eq], data + [0, 0], 0);
  }

  // ---------------------------------------------------------------------------------------------------------
  // decode_xor_cipher

  /** The repeating key of `decode_xor_cipher`: the ASCII digits of "3141592653589793". */
  const XorKey: seq<byte> := [51, 49, 52, 49, 53, 57, 50, 54, 53, 51, 53, 56, 57, 55, 57, 51]

  /** Byte `i` of `data` exclusive-or'ed with key byte `i mod 16`. */
  function XorCiphered(data: seq<byte>): (r: seq<byte>)
    ensures |r| == |data|
  {
    seq(|data|, i requires 0 <= i < |data| => Xor(data[i], XorKey[i % |XorKey|]))
  }

  /** `decode_xor_cipher`: one output byte pushed per input byte. */
  method DecodeXorCipher(data: seq<byte>) returns (output: seq<byte>)
    ensures output == XorCiphered(data)
  {
    output := [];
    for i := 0 to |data|
      invariant |output| == i
      invariant forall j :: 0 <= j < i ==> output[j] == Xor(data[j], XorKey[j % |XorKey|])
    {
      var kb := XorKey[i % |XorKey|];
      var x := Xor(data[i], kb);
      output := output + [x];
    }
  }

  /** The cipher is its own inverse, so the same key masks the descriptor and unmasks it. */
  lemma XorCipheredInvolution(data: seq<byte>)
    ensures XorCiphered(XorCiphered(data)) == data
  {
    var once := XorCiphered(data);
    forall i | 0 <= i < |data| ensures XorCiphered(once)[i] == data[i] {
      XorInvolution(data[i], XorKey[i % |XorKey|]);
    }
  }

  // ---------------------------------------------------------------------------------------------------------
  // decode_drm

  /** The descriptor's magic prefix. */
  const Magic: string := "#v4|"

  /** The messages of the panics `decode_drm` can raise: `unwrap` on a failed base64 decode, on bytes that
      are not UTF-8, and on a number that does not parse as `i32`. */
  const Base64Panic: string := "Base64 decode failed"
  const Utf8Panic: string := "Invalid UTF-8"
  const ParseIntPanic: string := "called `Result::unwrap()` on an `Err` value: ParseIntError"

  /** What one `|`-separated field contributes: a block when it has exactly two `-`-separated pieces, which
      must then both parse as `i32` (or the loop panics), and nothing otherwise. */
  function FieldBlock(field: string): (r: Exec<Option<RowBlock>>)
    ensures r.Done? && r.value.Some? ==> |Split(field, {'-'})| == 2
    ensures r.Panic? ==> r.message == ParseIntPanic && |Split(field, {'-'})| == 2
  {
    var values := Split(field, {'-'});
    if |values| != 2 then Done(None)
    else
      match ParseI32(values[0])
      case None => Panic(ParseIntPanic)
      case Some(dy) =>
        match ParseI32(values[1])
        case None => Panic(ParseIntPanic)
        case Some(height) => Done(Some(RowBlock(dy, height)))
  }

  /** The blocks of the first `n` fields, in order, or the panic of the first field that raises one. */
  function BlocksUpTo(fields: seq<string>, n: nat): Exec<seq<RowBlock>>
    requires n <= |fields|
    decreases n
  {
    if n == 0 then Done([])
    else
      match BlocksUpTo(fields, n - 1)
      case Panic(m) => Panic(m)
      case Done(blocks) =>
        match FieldBlock(fields[n - 1])
        case Panic(m) => Panic(m)
        case Done(None) => Done(blocks)
        case Done(Some(b)) => Done(blocks + [b])
  }

  /** The fields after the magic: `split('|').skip(1)`. */
  function Fields(text: string): seq<string>
  {
    Split(text, {'|'})[1..]
  }

  /** What `decode_drm` makes of the decoded descriptor text. */
  function Descriptor(text: string): Exec<Result<seq<RowBlock>, ErrorKind>>
  {
    if !StartsWith(text, Magic) then Done(Err(JsonParseError))
    else
      var fields := Fields(text);
      match BlocksUpTo(fields, |fields|)
      case Panic(m) => Panic(m)
      case Done(blocks) => Done(Ok(blocks))
  }

  /** The descriptor text hidden in `drm_data`: line breaks removed, base64-decoded, unmasked, read as UTF-8. */
  function DecodedText(drmData: string): Exec<string>
  {
    match Base64Decoded(Utf8.Encode(RemoveChar(drmData, '\n')))
    case Err(_) => Panic(Base64Panic)
    case Ok(decoded) =>
      match Utf8.Decode(XorCiphered(decoded))
      case None => Panic(Utf8Panic)
      case Some(text) => Done(text)
  }

  /** What `decode_drm` returns. */
  function DrmDecoded(drmData: string): Exec<Result<seq<RowBlock>, ErrorKind>>
  {
    match DecodedText(drmData)
    case Panic(m) => Panic(m)
    case Done(text) => Descriptor(text)
  }

  /** From its first panicking field on, the blocks of longer prefixes are that panic. */
  lemma {:induction false} BlocksPanicStays(fields: seq<string>, i: nat, n: nat)
    requires i < n <= |fields| && BlocksUpTo(fields, i).Done? && FieldBlock(fields[i]).Panic?
    ensures BlocksUpTo(fields, n) == Panic(FieldBlock(fields[i]).message)
    decreases n
  {
    if n > i + 1 {
      BlocksPanicStays(fields, i, n - 1);
    }
  }

  /** `decode_drm`. */
  method DecodeDrm(drmData: string) returns (r: Exec<Result<seq<RowBlock>, ErrorKind>>)
    ensures r == DrmDecoded(drmData)
  {
    var decoded := DecodeBase64(Utf8.Encode(RemoveChar(drmData, '\n')));
    if decoded.Err? {
      return Panic(Base64Panic);
    }
    var xored := DecodeXorCipher(decoded.value);
    var decodedStr := Utf8.Decode(xored);
    if decodedStr.None? {
      return Panic(Utf8Panic);
    }
    var text := decodedStr.value;
    if !StartsWith(text, Magic) {
      return Done(Err(JsonParseError));
    }
    var parts := Split(text, {'|'})[1..];
    var blocks: seq<RowBlock> := [];
    for i := 0 to |parts|
      invariant BlocksUpTo(parts, i) == Done(blocks)
    {
      var values := Split(parts[i], {'-'});
      if |values| == 2 {
        var dy := ParseI32(values[0]);
        if dy.None? {
          BlocksPanicStays(parts, i, |parts|);
          return Panic(ParseIntPanic);
        }
        var height := ParseI32(values[1]);
        if height.None? {
          BlocksPanicStays(parts, i, |parts|);
          return Panic(ParseIntPanic);
        }
        blocks := blocks + [RowBlock(dy.value, height.value)];
      }
    }
    return Done(Ok(blocks));
  }

  /** How many of the first `n` fields have exactly two `-`-separated pieces. */
  function TwoPieceCount(fields: seq<string>, n: nat): (c: nat)
    requires n <= |fields|
    ensures c <= n
    decreases n
  {
    if n == 0 then 0
    else TwoPieceCount(fields, n - 1) + (if |Split(fields[n - 1], {'-'})| == 2 then 1 else 0)
  }

  /** A block with both numbers non-negative `i32`s. */
  predicate WellFormed(b: RowBlock) {
    IsI32(b.dy) && IsI32(b.height) && b.dy >= 0 && b.height >= 0
  }

  /** A field that yields a block yields a well-formed one: its pieces hold no `-`, so no number is
      negative. */
  lemma FieldBlockWellFormed(field: string)
    requires FieldBlock(field).Done? && FieldBlock(field).value.Some?
    ensures WellFormed(FieldBlock(field).value.value)
  {
    var values := Split(field, {'-'});
    assert forall k :: 0 <= k < |values| && values[k] != [] ==> values[k][0] != '-';
  }

  /** The loop succeeds with exactly one block per two-piece field, every block well-formed. */
  lemma {:induction false} BlocksShape(fields: seq<string>, n: nat)
    requires n <= |fields| && BlocksUpTo(fields, n).Done?
    ensures |BlocksUpTo(fields, n).value| == TwoPieceCount(fields, n)
    ensures forall k :: 0 <= k < |BlocksUpTo(fields, n).value| ==> WellFormed(BlocksUpTo(fields, n).value[k])
    decreases n
  {
    if n > 0 {
      BlocksShape(fields, n - 1);
      var field := fields[n - 1];
      if FieldBlock(field).value.Some? {
        FieldBlockWellFormed(field);
      }
    }
  }

  /** The loop panics exactly when some field has two pieces that are not both `i32`s. */
  lemma {:induction false} BlocksPanicIff(fields: seq<string>, n: nat)
    requires n <= |fields|
    ensures BlocksUpTo(fields, n).Panic? <==> exists i :: 0 <= i < n && FieldBlock(fields[i]).Panic?
    decreases n
  {
    if n > 0 {
      BlocksPanicIff(fields, n - 1);
      if FieldBlock(fields[n - 1]).Panic? {
        assert exists i :: 0 <= i < n && FieldBlock(fields[i]).Panic?;
      }
    }
  }

  /** The fields are the `|`-separated pieces of what follows the magic. */
  lemma FieldsAfterMagic(text: string)
    requires StartsWith(text, Magic)
    ensures Fields(text) == Split(text[|Magic|..], {'|'})
  {
    SplitAtFirst(text, {'|'}, 3);
  }

  /** `decode_drm` returns an error exactly when the decoded text lacks the magic, and the error is then
      `JsonParseError`. */
  lemma DrmErrIff(drmData: string)
    ensures DrmDecoded(drmData).Done? && DrmDecoded(drmData).value.Err?
        <==> DecodedText(drmData).Done? && !StartsWith(DecodedText(drmData).value, Magic)
    ensures DrmDecoded(drmData).Done? && DrmDecoded(drmData).value.Err?
        ==> DrmDecoded(drmData).value.error == JsonParseError
  {
  }

  /** `decode_drm` panics with the base64 message exactly when the text holds a byte outside the base64
      alphabet and the skipped whitespace. */
  lemma DrmBase64PanicIff(drmData: string)
    ensures DrmDecoded(drmData) == Panic(Base64Panic) <==> HasInvalid(Utf8.Encode(RemoveChar(drmData, '\n')))
  {
    var input := Utf8.Encode(RemoveChar(drmData, '\n'));
    Base64ErrIff(input);
    if Base64Decoded(input).Err? {
      assert DecodedText(drmData) == Panic(Base64Panic);
    } else if DecodedText(drmData).Panic? {
      assert DecodedText(drmData) == Panic(Utf8Panic);
      assert Utf8Panic[0] != Base64Panic[0];
    } else {
      var text := DecodedText(drmData).value;
      if StartsWith(text, Magic) {
        var fields := Fields(text);
        if BlocksUpTo(fields, |fields|).Panic? {
          BlocksPanicMessage(fields, |fields|);
          assert |ParseIntPanic| != |Base64Panic|;
        }
      }
    }
  }

  /** `decode_drm` panics with the parse message exactly when the descriptor has the magic and a two-piece
      field whose pieces are not both `i32`s. */
  lemma DrmParsePanicIff(drmData: string)
    ensures DrmDecoded(drmData) == Panic(ParseIntPanic)
        <==> DecodedText(drmData).Done? && StartsWith(DecodedText(drmData).value, Magic)
             && exists i :: 0 <= i < |Fields(DecodedText(drmData).value)|
                  && FieldBlock(Fields(DecodedText(drmData).value)[i]).Panic?
  {
    if DecodedText(drmData).Done? {
      var fields := Fields(DecodedText(drmData).value);
      BlocksPanicIff(fields, |fields|);
      if BlocksUpTo(fields, |fields|).Panic? {
        BlocksPanicMessage(fields, |fields|);
      }
    }
  }

  /** Every panic of the loop is the parse panic. */
  lemma {:induction false} BlocksPanicMessage(fields: seq<string>, n: nat)
    requires n <= |fields| && BlocksUpTo(fields, n).Panic?
    ensures BlocksUpTo(fields, n).message == ParseIntPanic
    decreases n
  {
    if BlocksUpTo(fields, n - 1).Panic? {
      BlocksPanicMessage(fields, n - 1);
    }
  }

  // ---------------------------------------------------------------------------------------------------------
  // The producing side, as a reference

  /** The characters of bytes below 128. */
  function AsciiText(bs: seq<byte>): (s: string)
    requires forall i :: 0 <= i < |bs| ==> bs[i] < 128
    ensures |s| == |bs| && forall i :: 0 <= i < |s| ==> s[i] as int == bs[i]
  {
    seq(|bs|, i requires 0 <= i < |bs| => bs[i] as char)
  }

  /** An alphabet byte is ASCII and not whitespace. */
  lemma SymbolIsAscii(b: byte)
    requires Classify(b).Sextet?
    ensures b < 128 && !IsWhitespace(b as char)
  {
  }

  /** A `drm_data` value for the descriptor `text`, as the server would produce it: the UTF-8 bytes of the
      text, masked with the XOR cipher and written as unpadded base64. */
  function Protected(text: string): (drmData: string)
    ensures forall i :: 0 <= i < |drmData| ==> drmData[i] < '\U{80}' && !IsWhitespace(drmData[i])
  {
    var symbols := EncodeUnpadded(XorCiphered(Utf8.Encode(text)));
    assert forall i :: 0 <= i < |symbols| ==> symbols[i] < 128 && !IsWhitespace(symbols[i] as char) by {
      forall i | 0 <= i < |symbols| ensures symbols[i] < 128 && !IsWhitespace(symbols[i] as char) {
        SymbolIsAscii(symbols[i]);
      }
    }
    AsciiText(symbols)
  }

  /** `decode_drm` recovers the descriptor from what the server produces: unmasking undoes the mask, decoding
      undoes the encoding, and the UTF-8 bytes read back as the text. */
  lemma DrmRoundTrip(text: string)
    ensures DrmDecoded(Protected(text)) == Descriptor(text)
  {
    var data := Utf8.Encode(text);
    var masked := XorCiphered(data);
    var symbols := EncodeUnpadded(masked);
    var drmData := Protected(text);
    assert drmData == AsciiText(symbols);
    RemoveCharAbsent(drmData, '\n');
    Utf8.EncodeAscii(drmData);
    assert Utf8.Encode(drmData) == symbols;
    EncodeUnpaddedRoundTrip(masked);
    XorCipheredInvolution(data);
    Utf8.DecodeEncode(text);
  }
}
