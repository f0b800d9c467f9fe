# Aidoku Vietnamese sources: descrambling, key unwrapping and URL helpers

This project models the self-contained core of several Aidoku source plugins written in Rust, and proves
properties of that model:

- **CuuTruyen row-layout descrambling** (`vi.cuutruyen`). A page's `drm_data` goes through four steps:
  - the hand-written base64 decoder with its bit accumulator;
  - the fixed 16-byte repeating XOR;
  - the `#v4|dy-height|…` descriptor parser, which produces `RowBlock`s;
  - the loop in `parse_page_list` that writes the blocks as a JSON array string.
  Modules `CuuTruyenParser` and `CuuTruyenPages`.
- **CuuTruyen Reborn key-wrapped decryption** (`vi.cuutruyenreborn/src/crypto`):
  - the master key, rotated back from its obfuscated form and computed once;
  - the `=` padding before base64;
  - the in-place wrapping unshift;
  - the wrapped-key unwrap;
  - the whole `decrypt_data_with_wrapped_key` pipeline with its order of error checks.
  Modules `CryptoConfig`, `Crypto` and `CryptoMain`.
- **URL and string helpers**:
  - `absolute_url`, which `vi.hakovn` and `vi.hentaivn` carry as two textually identical copies (one module
    `UrlJoin`);
  - Hako's `extract_url_from_style`, cover-style strip and chapter-title split (`HakoParser`);
  - HentaiVN's listing id and details title (`HentaiParser`);
  - FoxTruyen's `manga_parse_id` and `chapter_parse_id`, with the URLs they read ids back from (`FoxTruyen`).
- **Hako's one-slot request cache** `req_with_cache`, a class in front of an abstract network, plus the
  listing-name mapping and the `handle_url` classification (`HakoLib`).

The supporting modules model Rust's standard library as the core uses it:
- `Wrappers`: Option, Result, and `Exec`, where `Exec` is a value or a panic with its message;
- `Bytes`: bytes, XOR, rotations;
- `Radix`: big-endian digit values;
- `Decimal`: `i32` formatting and `str::parse::<i32>`;
- `Utf8`: `str::len` as a UTF-8 byte count, `from_utf8`;
- `Text`: `find`, `rfind`, `trim`, `split`, `strip_prefix`, `trim_end_matches`, `replace`.

Rust strings are Dafny strings of Unicode scalar values. Byte lengths and byte offsets go through the UTF-8
encoding wherever the source slices by byte index. Panics (`unwrap`, `assert_eq!`, out-of-range slices) are
`Panic` values, never preconditions.

Three foreign pieces are parameters, not definitions:
- the base64 crate's `STANDARD.decode` and AES-256-GCM decryption are the function fields of
  `Crypto.Primitives`;
- the undisclosed `env` constants are `CryptoConfig.Env`;
- the host's HTTP client is `HakoLib.Network`, which answers the `n`-th request for a URL with `serve(url, n)`.

`Aes256Gcm::new_from_slice` is modelled concretely: it fails exactly when the key is not 32 bytes.

Two behaviours of the code are easy to misread; the model follows the code:
- Base64 padding `=` decodes as a zero sextet, so padded input yields extra zero bytes. It is not ignored.
- A descriptor field such as `foo-60` has two `-`-separated pieces, so the `unwrap` on its parse panics. It is
  not skipped.

FoxTruyen's details page and chapter list request the same URL (`lib.rs` lines 83 and 88). Both are
`FoxTruyen.MangaUrl`.

## Model

| member | source | states |
|---|---|---|
| `CuuTruyenParser.Classify` | src/rust/vi.cuutruyen/src/parser.rs:253-266 | an alphabet byte yields a sextet value below 64 |
| `CuuTruyenParser.SymbolOf` | src/rust/vi.cuutruyen/src/parser.rs:254-258 | every value below 64 has an alphabet symbol that classifies back to it |
| `CuuTruyenParser.AlphabetIsRfc4648` | src/rust/vi.cuutruyen/src/parser.rs:253-259 | the alphabet is the RFC 4648 section 4 table (each symbol other than `=` is the symbol of its value), and `=` decodes as 0, exactly like `A` |
| `CuuTruyenParser.Base64Decoded` | src/rust/vi.cuutruyen/src/parser.rs:247-280 | the decode fails exactly when the symbol scan fails, and then with `DefaultNotFound` |
| `CuuTruyenParser.Base64ErrIff` | src/rust/vi.cuutruyen/src/parser.rs:260-265 | the decode is `Err` if and only if some byte is neither an alphabet symbol nor skipped whitespace |
| `CuuTruyenParser.SextetsUpToErrIff` | src/rust/vi.cuutruyen/src/parser.rs:261-265 | the scan of the first n bytes fails if and only if one of them is invalid |
| `CuuTruyenParser.SkippedIrrelevant` | src/rust/vi.cuutruyen/src/parser.rs:260 | removing `\n`, `\r`, `\t` and space changes neither the sextets nor the decoded result |
| `CuuTruyenParser.Base64Length` | src/rust/vi.cuutruyen/src/parser.rs:268-276 | a successful decode has `6*k/8` bytes, where k counts the accepted symbols |
| `CuuTruyenParser.Step` | src/rust/vi.cuutruyen/src/parser.rs:268-276 | one symbol keeps the accumulator invariant (bits below 8, buffer below 2^bits, pushed bytes and buffer spell the sextets' value) and pushes a byte exactly when 8 bits are collected |
| `CuuTruyenParser.ShiftSymbol` | src/rust/vi.cuutruyen/src/parser.rs:268-276 | the loop body keeps the accumulator invariant and pushes at most one byte, leaving earlier bytes unchanged |
| `CuuTruyenParser.EmitByte` | src/rust/vi.cuutruyen/src/parser.rs:271-275 | the emitted `buffer >> bits` fits a byte, and emitting then masking keeps the accumulated value |
| `CuuTruyenParser.Finish` | src/rust/vi.cuutruyen/src/parser.rs:279 | when the loop ends, the pushed bytes are the decoded result (the leftover bits are dropped) |
| `CuuTruyenParser.DecodeBase64` | src/rust/vi.cuutruyen/src/parser.rs:247-280 | the loop returns exactly the reference decoding, error or bytes |
| `CuuTruyenParser.EncodeUnpaddedRoundTrip` | src/rust/vi.cuutruyen/src/parser.rs:247-280 | unpadded RFC 4648 base64 of any bytes decodes back to those bytes |
| `CuuTruyenParser.PaddingIsZeroSextet` | src/rust/vi.cuutruyen/src/parser.rs:259 | an appended `=` adds the sextet 0 |
| `CuuTruyenParser.PaddedOneDecodes` | src/rust/vi.cuutruyen/src/parser.rs:259 | base64 of `3m+2` bytes with one `=` decodes to the bytes plus one extra zero byte |
| `CuuTruyenParser.PaddedTwoDecodes` | src/rust/vi.cuutruyen/src/parser.rs:268-276 | base64 of `3m+1` bytes with `==` decodes to the bytes plus two extra zero bytes |
| `CuuTruyenParser.PadBitsByLength` | src/rust/vi.cuutruyen/src/parser.rs:272-275 | the leftover bits after an unpadded encoding are 0, 4 or 2 for lengths 0, 1, 2 mod 3 |
| `CuuTruyenParser.XorCiphered` | src/rust/vi.cuutruyen/src/parser.rs:205-211 | the output has the input's length |
| `CuuTruyenParser.DecodeXorCipher` | src/rust/vi.cuutruyen/src/parser.rs:201-214 | output byte i is input byte i XOR key byte `i % 16`, for the fixed key `3141592653589793` |
| `CuuTruyenParser.XorCipheredInvolution` | src/rust/vi.cuutruyen/src/parser.rs:207-211 | applying the cipher twice gives back the input |
| `CuuTruyenParser.FieldBlock` | src/rust/vi.cuutruyen/src/parser.rs:236-241 | a field gives a block only if it splits on `-` into two pieces, and panics (with the parse message) only then |
| `CuuTruyenParser.FieldBlockWellFormed` | src/rust/vi.cuutruyen/src/parser.rs:237-240 | every block has two non-negative `i32`s; negative values such as `-5-10` give three pieces and are skipped |
| `CuuTruyenParser.TwoPieceCount` | src/rust/vi.cuutruyen/src/parser.rs:235-237 | the count of two-piece fields never exceeds the number of fields |
| `CuuTruyenParser.BlocksShape` | src/rust/vi.cuutruyen/src/parser.rs:235-242 | a loop that does not panic yields exactly one block per two-piece field, all well-formed |
| `CuuTruyenParser.BlocksPanicStays` | src/rust/vi.cuutruyen/src/parser.rs:238-239 | the first panicking field decides the loop's outcome: later fields are not reached |
| `CuuTruyenParser.BlocksPanicIff` | src/rust/vi.cuutruyen/src/parser.rs:235-242 | the loop panics if and only if some field has two pieces that are not both `i32`s |
| `CuuTruyenParser.BlocksPanicMessage` | src/rust/vi.cuutruyen/src/parser.rs:238 | every panic of the loop is the integer-parse panic |
| `CuuTruyenParser.FieldsAfterMagic` | src/rust/vi.cuutruyen/src/parser.rs:232 | the fields are the pieces, split at the vertical bar, of the text after the four-character magic |
| `CuuTruyenParser.DecodeDrm` | src/rust/vi.cuutruyen/src/parser.rs:216-245 | returns exactly the reference `decode_drm` outcome: a panic, an error or the blocks |
| `CuuTruyenParser.DrmErrIff` | src/rust/vi.cuutruyen/src/parser.rs:224-230 | `decode_drm` returns `Err` if and only if the decoded text lacks the magic (`#v4` and a vertical bar), and the error is then `JsonParseError` |
| `CuuTruyenParser.DrmBase64PanicIff` | src/rust/vi.cuutruyen/src/parser.rs:217-219 | it raises the base64 panic if and only if the line-stripped input holds an invalid byte |
| `CuuTruyenParser.DrmParsePanicIff` | src/rust/vi.cuutruyen/src/parser.rs:238-239 | it raises the parse panic if and only if the magic is present and some field's two pieces do not parse |
| `CuuTruyenParser.Protected` | src/rust/vi.cuutruyen/src/parser.rs:217 | the server-side masking and unpadded encoding yield ASCII text without whitespace |
| `CuuTruyenParser.DrmRoundTrip` | src/rust/vi.cuutruyen/src/parser.rs:216-245 | decoding a masked and encoded descriptor gives what the descriptor parser makes of the text itself |
| `CuuTruyenPages.SerializeBlocks` | src/rust/vi.cuutruyen/src/parser.rs:168-181 | the string loop yields `[` plus the comma-joined block objects in order plus `]` |
| `CuuTruyenPages.PushObject` | src/rust/vi.cuutruyen/src/parser.rs:171-177 | one iteration appends a comma (except before the first object) and the block's object |
| `CuuTruyenPages.NoBlocksJson` | src/rust/vi.cuutruyen/src/parser.rs:169-179 | no blocks serialise as `[]` |
| `CuuTruyenPages.ReadBlockOf` | src/rust/vi.cuutruyen/src/parser.rs:174-177 | one block object, followed by anything, reads back as that block and the rest |
| `CuuTruyenPages.ReadObjectsOf` | src/rust/vi.cuutruyen/src/parser.rs:170-179 | the comma-joined objects of a non-empty block list read back as that list |
| `CuuTruyenPages.BlocksJsonRoundTrip` | src/rust/vi.cuutruyen/src/parser.rs:168-181 | the serialised JSON reads back as exactly the blocks, in order |
| `CuuTruyenPages.PageLayout` | src/rust/vi.cuutruyen/src/parser.rs:167 | a page layout is produced only when `decode_drm` of the trimmed, line-stripped `drm_data` does not panic |
| `CuuTruyenPages.PageLayoutOf` | src/rust/vi.cuutruyen/src/parser.rs:167-181 | the page's layout string: `decode_drm` of the cleaned `drm_data` unwrapped, then serialised |
| `CuuTruyenPages.PageLayoutOfProtected` | src/rust/vi.cuutruyen/src/parser.rs:165-181 | for a descriptor as the server produces it, the page layout is the JSON of its blocks and reads back as them |
| `CryptoConfig.RorByteUndo` | src/rust/vi.cuutruyenreborn/src/crypto/config.rs:9-11 | rotating left by `shift mod 8` undoes `ror_byte` |
| `CryptoConfig.RorByteWhole` | src/rust/vi.cuutruyenreborn/src/crypto/config.rs:10 | a shift that is a multiple of 8 leaves the byte as it is |
| `CryptoConfig.RorByteBits` | src/rust/vi.cuutruyenreborn/src/crypto/config.rs:9-11 | bit i of the result is bit `(i + shift mod 8) mod 8` of the input, so the rotation depends only on `shift mod 8` |
| `CryptoConfig.MasterKeyBytes` | src/rust/vi.cuutruyenreborn/src/crypto/config.rs:16-27 | the initialiser panics if and only if the obfuscated constant is not 32 bytes, and otherwise yields 32 bytes |
| `CryptoConfig.MasterKeyRestores` | src/rust/vi.cuutruyenreborn/src/crypto/config.rs:22-26 | rotating each master byte back left gives the obfuscated byte at the same index |
| `CryptoConfig.MasterKeyCell.constructor` | src/rust/vi.cuutruyenreborn/src/crypto/config.rs:14 | the once-cell starts uninitialised |
| `CryptoConfig.MasterKeyCell.Initialise` | src/rust/vi.cuutruyenreborn/src/crypto/config.rs:16-27 | the fill loop computes exactly the reference master key, or the assertion panic |
| `CryptoConfig.MasterKeyCell.Get` | src/rust/vi.cuutruyenreborn/src/crypto/config.rs:15-28 | the first call runs the initialiser and stores its value; later calls return the stored value |
| `CryptoConfig.MasterKeyStable` | src/rust/vi.cuutruyenreborn/src/crypto/config.rs:14-16 | every call that returns gives the same 32-byte key, before and after the cell is filled |
| `CryptoConfig.GetShiftValue` | src/rust/vi.cuutruyenreborn/src/crypto/config.rs:31-33 | the shift value is the one the master key was rotated by |
| `Crypto.MessageInjective` | src/rust/vi.cuutruyenreborn/src/crypto/crypto.rs:20-36 | distinct failures carry distinct error messages |
| `Crypto.NewFromSlice` | src/rust/vi.cuutruyenreborn/src/crypto/crypto.rs:30 | the AES-256 cipher is created if and only if the key is 32 bytes |
| `Crypto.PaddedShape` | src/rust/vi.cuutruyenreborn/src/crypto/crypto.rs:11-17 | the padded text starts with the input, adds only `=` and at most three of them, adds none when the byte length is a multiple of 4, and always has a byte length that is a multiple of 4 |
| `Crypto.DecodeB64` | src/rust/vi.cuutruyenreborn/src/crypto/crypto.rs:10-21 | pads, then decodes with the standard engine, mapping its failure to "Invalid base64" |
| `Crypto.Unshifted` | src/rust/vi.cuutruyenreborn/src/crypto/crypto.rs:43-45 | unshifting keeps the length |
| `Crypto.UnshiftZero` | src/rust/vi.cuutruyenreborn/src/crypto/crypto.rs:40-42 | a zero shift leaves the buffer as it is |
| `Crypto.WrappingInverse` | src/rust/vi.cuutruyenreborn/src/crypto/crypto.rs:44 | wrapping subtraction and addition of the same shift undo each other |
| `Crypto.ShiftRoundTrip` | src/rust/vi.cuutruyenreborn/src/crypto/crypto.rs:39-46 | adding the shift back modulo 256 restores the buffer, and the other way round |
| `Crypto.UnshiftInPlace` | src/rust/vi.cuutruyenreborn/src/crypto/crypto.rs:39-46 | each array byte becomes `(old - shift) mod 256` in place, and the length stays the same |
| `Crypto.UnwrapKeyWithMasterInternal` | src/rust/vi.cuutruyenreborn/src/crypto/crypto.rs:23-37 | fetches the master key through the once-cell, then returns the reference unwrap result |
| `Crypto.UnwrapTooShortIff` | src/rust/vi.cuutruyenreborn/src/crypto/crypto.rs:25-27 | "Wrapped key data too short" is returned if and only if the blob is shorter than 12 + 16 bytes |
| `Crypto.UnwrapShortIgnoresCipher` | src/rust/vi.cuutruyenreborn/src/crypto/crypto.rs:24-30 | a short blob is rejected before any cipher use: neither the cipher nor the master key matters |
| `Crypto.UnwrapOkIff` | src/rust/vi.cuutruyenreborn/src/crypto/crypto.rs:28-36 | the unwrap yields a key if and only if the blob is long enough, the master key has 32 bytes, and GCM decryption of the rest under the first 12 bytes as nonce yields that key; nonce and rest make up the blob |
| `Crypto.UnwrapFailureIsUnwrapFailed` | src/rust/vi.cuutruyenreborn/src/crypto/crypto.rs:34-36 | with a 32-byte master key, cipher creation never fails, and a failed decryption of a long-enough blob is "Master unwrap failed" |
| `CryptoMain.KeySide` | src/rust/vi.cuutruyenreborn/src/crypto/main.rs:12-18 | the key side succeeds only with a 32-byte key |
| `CryptoMain.DecryptDataWithWrappedKey` | src/rust/vi.cuutruyenreborn/src/crypto/main.rs:7-36 | runs decode, unshift, unwrap, key length check, decode, unshift, length check, decrypt and UTF-8 check in that order. Both blobs use the one `get_shift_value`. The master cell is touched only once the key decodes. The result is the reference pipeline's |
| `CryptoMain.KeyErrorsMaskData` | src/rust/vi.cuutruyenreborn/src/crypto/main.rs:12-21 | when the key side fails, the data blob does not affect the result |
| `CryptoMain.KeyDecodeFirst` | src/rust/vi.cuutruyenreborn/src/crypto/main.rs:12 | an undecodable key blob is "Invalid base64" whatever the master key and data are |
| `CryptoMain.KeyLengthChecked` | src/rust/vi.cuutruyenreborn/src/crypto/main.rs:16-18 | an unwrapped key that is not 32 bytes is rejected with the key-length error |
| `CryptoMain.DataTooShortIff` | src/rust/vi.cuutruyenreborn/src/crypto/main.rs:23-25 | with a 32-byte key, "Data too short" is returned if and only if the decoded data is under 12 bytes; the tag length is not checked here |
| `CryptoMain.CipherInitNeverFails` | src/rust/vi.cuutruyenreborn/src/crypto/main.rs:28 | "Cipher init failed" is unreachable, because the key length is checked first |
| `CryptoMain.DataSideOk` | src/rust/vi.cuutruyenreborn/src/crypto/main.rs:21-35 | success means the data decoded, and its unshifted first 12 bytes as nonce and the rest as ciphertext decrypted to bytes whose UTF-8 text is the result |
| `CryptoMain.MasterCipherNeverFails` | src/rust/vi.cuutruyenreborn/src/crypto/crypto.rs:30 | "Master cipher init failed" is unreachable, because the master key is always 32 bytes |
| `UrlJoin.BytePrefix` | src/rust/vi.hakovn/src/parser.rs:17 | a byte-index slice `[..n]` is a prefix whose UTF-8 length is n |
| `UrlJoin.BytePrefixOf` | src/rust/vi.hakovn/src/parser.rs:16 | the slice at the byte length of a character prefix is that prefix |
| `UrlJoin.BytePrefixNone` | src/rust/vi.hakovn/src/parser.rs:16-17 | a slice fails only when no character boundary lies at that byte index |
| `UrlJoin.NoLongerPrefix` | src/rust/vi.hakovn/src/parser.rs:17 | a byte index past the end has no slice |
| `UrlJoin.SchemeAndSlash` | src/rust/vi.hakovn/src/parser.rs:15-16 | the `://` is found at pos, and the first `/` after it at slashPos |
| `UrlJoin.AbsoluteUrl` | src/rust/vi.hakovn/src/parser.rs:11-33 | the method, including its `push` onto `new_base`, computes exactly the reference join |
| `UrlJoin.AbsoluteKept` | src/rust/vi.hakovn/src/parser.rs:12-13 | a URL starting with `http://` or `https://` is returned unchanged |
| `UrlJoin.RelativeJoined` | src/rust/vi.hentaivn/src/parser.rs:28-35 | a relative URL is the base, then `/` only if the base does not end with one, then the URL |
| `UrlJoin.NoSlashAfterScheme` | src/rust/vi.hakovn/src/parser.rs:15 | a base without `://` has no scheme split |
| `UrlJoin.RootedOnBareHost` | src/rust/vi.hakovn/src/parser.rs:19-24 | a `/`-rooted URL is appended to a base with no `/` after its `://` |
| `UrlJoin.BareHostShape` | src/rust/vi.hentaivn/src/parser.rs:18-19 | an `https://host` base without further `/` has no slash after the scheme |
| `UrlJoin.SiteBasesBare` | src/rust/vi.hentaivn/src/lib.rs:20 | both sites' `BASE_URL`s are bare hosts |
| `UrlJoin.RootedOnSiteBases` | src/rust/vi.hakovn/src/lib.rs:18 | on either site's `BASE_URL`, a `/`-rooted link is the base followed by the link, so the faulty slice is never reached there |
| `UrlJoin.RootedAt` | src/rust/vi.hakovn/src/parser.rs:17-18 | with a slash after the scheme, a rooted link is the prefix cut at the written end `pos+3+slash_pos+pos+3` (in bytes), followed by the link |
| `UrlJoin.AfterDomainPastEnd` | src/rust/vi.hakovn/src/parser.rs:17 | a slice end past the base's byte length panics |
| `UrlJoin.OverlongSlice` | src/rust/vi.hakovn/src/parser.rs:17 | whenever the written end exceeds the base's byte length, `absolute_url` panics |
| `UrlJoin.SliceEndPanics` | src/rust/vi.hentaivn/src/parser.rs:20 | as written, link `/x` on base `https://a.b/c` panics |
| `UrlJoin.IntendedAt` | src/rust/vi.hakovn/src/parser.rs:14-18 | with the corrected end, a rooted link is the base's scheme and host followed by the link |
| `UrlJoin.IntendedRootedJoin` | src/rust/vi.hentaivn/src/parser.rs:17-21 | with the corrected end, a rooted link always succeeds and replaces the base's path |
| `UrlJoin.IntendedAgreesElsewhere` | src/rust/vi.hentaivn/src/parser.rs:14-36 | the correction changes nothing outside the scheme-and-slash branch |
| `UrlJoin.SliceEndIntended` | src/rust/vi.hentaivn/src/parser.rs:21 | with the corrected end, `/x` on `https://a.b/c` is `https://a.b/x` |
| `HakoParser.Unquote` | src/rust/vi.hakovn/src/parser.rs:179-182 | the text comes back whole, or with its two end characters removed |
| `HakoParser.ExtractFrom` | src/rust/vi.hakovn/src/parser.rs:175-184 | an extracted URL never contains `)` |
| `HakoParser.ExtractUrlFromStyle` | src/rust/vi.hakovn/src/parser.rs:173-185 | an extracted URL never contains `)` |
| `HakoParser.ExtractWithoutOpen` | src/rust/vi.hakovn/src/parser.rs:174 | without `url(` the result is `None` |
| `HakoParser.ExtractWithoutClose` | src/rust/vi.hakovn/src/parser.rs:175 | without a `)` after the first `url(` the result is `None` |
| `HakoParser.ExtractShape` | src/rust/vi.hakovn/src/parser.rs:173-185 | for `…url(mid)…`, where the text before the first `url(` may hold anything but `url(` itself and mid holds no `)`, the result is mid itself, or mid without its matching quotes, or the lone-quote panic |
| `HakoParser.ExtractQuoted` | src/rust/vi.hakovn/src/parser.rs:179-182 | after a first `url(`, a URL without `)` wrapped in matching `'` or `"` loses the quotes |
| `HakoParser.ExtractBare` | src/rust/vi.hakovn/src/parser.rs:177-184 | after a first `url(`, an unquoted URL without `)` is returned as it stands between `url(` and `)` |
| `HakoParser.ExtractLoneQuote` | src/rust/vi.hakovn/src/parser.rs:181 | after a first `url(`, a single quote character between the parentheses panics on the slice `[1..0]` |
| `HakoParser.ExtractAfterOtherParens` | src/rust/vi.hakovn/src/parser.rs:174-182 | a `(` before the first `url(` does not matter: `color: rgb(0,0,0); background-image: url('a')` gives `a` |
| `HakoParser.StrippedShape` | src/rust/vi.hakovn/src/parser.rs:77-79 | a non-empty strip result sits between the prefix and the suffix |
| `HakoParser.StrippedMissing` | src/rust/vi.hakovn/src/parser.rs:77-79 | a missing prefix or suffix yields the empty string |
| `HakoParser.StrippedOf` | src/rust/vi.hakovn/src/parser.rs:77-78 | stripping the prefix and suffix from a wrapped URL gives the URL |
| `HakoParser.CoverShape` | src/rust/vi.hakovn/src/parser.rs:73-80 | a non-empty cover is the trimmed style between `background-image: url('` and `')` |
| `HakoParser.CoverMissing` | src/rust/vi.hakovn/src/parser.rs:76-79 | a trimmed style without the prefix or the suffix gives the empty cover |
| `HakoParser.CoverRoundTrip` | src/rust/vi.hakovn/src/parser.rs:73-80 | a cover written into the style, with any surrounding whitespace, reads back |
| `HakoParser.TitleWithoutSeparator` | src/rust/vi.hakovn/src/parser.rs:147-148 | a title without `-` or `:` stays the raw title |
| `HakoParser.TitleAfterSeparator` | src/rust/vi.hakovn/src/parser.rs:141-146 | the title is the trimmed text between the first and second separator |
| `HakoParser.TitleFromPiece` | src/rust/vi.hakovn/src/parser.rs:145-146 | a title taken from a piece holds no separator |
| `HentaiParser.ListingId` | src/rust/vi.hentaivn/src/parser.rs:85 | the id holds no `/`, and exactly the slashes are gone |
| `HentaiParser.ListingIdConcat` | src/rust/vi.hentaivn/src/parser.rs:85 | deleting the slashes works piece by piece |
| `HentaiParser.ListingIdOfLink` | src/rust/vi.hentaivn/src/parser.rs:85 | the link `/slug/` and the bare slug both give the slug |
| `HentaiParser.DetailsTitleShape` | src/rust/vi.hentaivn/src/parser.rs:127 | the title is a prefix of the heading without ` - `, and it is the whole heading or followed by ` - ` |
| `HentaiParser.DetailsTitleWhole` | src/rust/vi.hentaivn/src/parser.rs:127 | a heading without ` - ` is the title |
| `HentaiParser.DetailsTitleOf` | src/rust/vi.hentaivn/src/parser.rs:127 | a title written before ` - ` reads back |
| `HakoLib.Network.Get` | src/rust/vi.hakovn/src/lib.rs:45-46 | a request is logged with its `Referer`, and the answer is the host's for that request |
| `HakoLib.Cache.constructor` | src/rust/vi.hakovn/src/lib.rs:28-31 | the cache starts empty |
| `HakoLib.Cache.Cached` | src/rust/vi.hakovn/src/lib.rs:37-39 | there is a hit for a URL exactly when the id is that URL and data is present |
| `HakoLib.Cache.ReqWithCache` | src/rust/vi.hakovn/src/lib.rs:33-53 | a hit returns the held bytes with no request and no change. A miss makes exactly one request, with `BASE_URL` as `Referer`, and holds and returns its bytes. Afterwards the URL is a hit, and other URLs are either gone or unchanged |
| `HakoLib.RequestTwice` | src/rust/vi.hakovn/src/lib.rs:37-49 | the same URL twice in a row fetches at most once, and both calls return the same bytes |
| `HakoLib.RequestEvicts` | src/rust/vi.hakovn/src/lib.rs:48-49 | the cache holds one entry: a new URL evicts the old one |
| `HakoLib.ListingSlugIff` | src/rust/vi.hakovn/src/lib.rs:65-74 | exactly the three listing names map to a path, different names map to different paths, and each path is one segment with no query |
| `HakoLib.ListingUrlReadsBack` | src/rust/vi.hakovn/src/lib.rs:75-76 | the listing URL splits back into base, path and a `page=` that parses as the page number |
| `HakoLib.ListingUnknown` | src/rust/vi.hakovn/src/lib.rs:69-73 | any other name is `Unimplemented` |
| `HakoLib.LastSegmentShape` | src/rust/vi.hakovn/src/lib.rs:113-116 | the last segment holds no `/` and ends the URL, after a `/` unless it is the whole URL |
| `HakoLib.LastSegmentOfSlashless` | src/rust/vi.hakovn/src/lib.rs:114-115 | a URL without `/` is its own last segment |
| `HakoLib.HandleUrl` | src/rust/vi.hakovn/src/lib.rs:117-126 | the manga branch is taken if and only if the last segment contains `truyen` or `ai-dich`, and gets that segment; otherwise `Unimplemented` |
| `HakoLib.HandleUrlShape` | src/rust/vi.hakovn/src/lib.rs:113-121 | the id passed on ends the URL and holds no `/` |
| `HakoLib.HandleUrlTrailingSlash` | src/rust/vi.hakovn/src/lib.rs:113-126 | a URL ending in `/` is `Unimplemented` |
| `FoxTruyen.SecondPiece` | src/rust/wpcomics/sources/foxtruyen/src/lib.rs:34-35 | there is a second piece if and only if the URL contains `truyen-tranh/` |
| `FoxTruyen.BeforeSlash` | src/rust/wpcomics/sources/foxtruyen/src/lib.rs:36 | the text before the first `/` is a prefix without `/`, followed by `/` or the end |
| `FoxTruyen.MangaParseId` | src/rust/wpcomics/sources/foxtruyen/src/lib.rs:32-40 | `""` without `truyen-tranh/`; the id never contains `/` and never ends with `.html` |
| `FoxTruyen.MarkerAfterHost` | src/rust/wpcomics/sources/foxtruyen/src/lib.rs:83 | in the details URL, the first `truyen-tranh/` is the one after the host |
| `FoxTruyen.MangaIdRoundTrip` | src/rust/wpcomics/sources/foxtruyen/src/lib.rs:32-40 | an id without `/` and not ending in `.html` reads back from its details URL |
| `FoxTruyen.MangaIdStripsHtml` | src/rust/wpcomics/sources/foxtruyen/src/lib.rs:38 | any other id without `/` reads back with every trailing `.html` removed |
| `FoxTruyen.AfterLastSep` | src/rust/wpcomics/sources/foxtruyen/src/lib.rs:44-46 | the text after the last `-chap-`, or the whole text; it ends the input and holds no `-chap-` |
| `FoxTruyen.ChapterParseId` | src/rust/wpcomics/sources/foxtruyen/src/lib.rs:41-49 | the chapter id never ends with `.html` |
| `FoxTruyen.LastSepWritten` | src/rust/wpcomics/sources/foxtruyen/src/lib.rs:94 | in `pre-chap-c`, the separator that was written is the last one, provided c neither holds `-chap-` nor starts with `chap-` |
| `FoxTruyen.ChapterIdRoundTrip` | src/rust/wpcomics/sources/foxtruyen/src/lib.rs:93-96 | a chapter id without `-chap-`, not starting with `chap-` and ending in neither `/` nor `.html`, reads back from its page URL |
| `FoxTruyen.ChapterIdOverlap` | src/rust/wpcomics/sources/foxtruyen/src/lib.rs:44 | a chapter id `chap-rest` reads back as `rest`: the separators overlap |
| `Decimal.FormatInt` | src/rust/vi.cuutruyen/src/parser.rs:174-177 | `{}` of an integer is a non-empty string of digits, with a leading `-` exactly for negatives |
| `Decimal.ParseI32` | src/rust/vi.cuutruyen/src/parser.rs:238-239 | a parsed value is an `i32`, read from a signed or unsigned digit string |
| `Decimal.ParseFormat` | src/rust/vi.cuutruyen/src/parser.rs:238 | every `i32` written in decimal parses back |
| `Decimal.ParseRejectsOther` | src/rust/vi.cuutruyen/src/parser.rs:239 | a non-digit (other than a leading sign) makes the parse fail |
| `Decimal.ParseRejectsOverflow` | src/rust/vi.cuutruyen/src/parser.rs:237-238 | a number outside the `i32` range does not parse |
| `Utf8.DecodeEncode` | src/rust/vi.cuutruyen/src/parser.rs:222 | the UTF-8 bytes of any text decode back to it |
| `Utf8.EncodeDecode` | src/rust/vi.cuutruyenreborn/src/crypto/main.rs:35 | bytes that decode are exactly the encoding of their text |
| `Utf8.EncodedLengthConcat` | src/rust/vi.cuutruyenreborn/src/crypto/crypto.rs:12 | the byte length `len()` adds up over concatenation |
| `Bytes.XorInvolution` | src/rust/vi.cuutruyen/src/parser.rs:209 | XOR with the same key byte twice restores the byte |
| `Bytes.XorBit` | src/rust/vi.cuutruyen/src/parser.rs:209 | each bit of `a ^ b` is the exclusive or of the two bits |
| `Bytes.RotateRightBit` | src/rust/vi.cuutruyenreborn/src/crypto/config.rs:10 | bit i of a right rotation by k is bit `(i + k) mod 8` |
| `Bytes.RotateLeftRight` | src/rust/vi.cuutruyenreborn/src/crypto/config.rs:10 | a left rotation undoes a right rotation |
| `Text.TrimEndMatches` | src/rust/wpcomics/sources/foxtruyen/src/lib.rs:38 | the result is a prefix that no longer ends with the pattern |
| `Text.JoinSplit` | src/rust/vi.hakovn/src/lib.rs:114 | splitting on a character and joining with it gives back the string |
| `Text.RemoveChar` | src/rust/vi.cuutruyen/src/parser.rs:217 | the result holds no occurrence of the character, and exactly those are gone |

## Left out

- Everything the host does: walking HTML (`Node::select`) and JSON objects, `Request` beyond the one fetch in
  `req_with_cache`, and the `Page`/`Manga`/`Chapter` records. These are host calls with no source here. In
  `req_with_cache`, the `Node::new(..).expect(..)` parse of the bytes is not modelled: the model returns the bytes.
- In `handle_url`, the manga-details fetch and parse (`get_manga_details(..).ok()`) is host I/O. The model
  returns the id it would be called with.
- `CuuTruyenPages.PageLayout`: states only when a layout exists; what the layout is, is stated by
  `PageLayoutOf` and `PageLayoutOfProtected`.
- Panic messages are the payloads of the `unwrap`/`expect` messages, shortened: the `Debug` text of
  `ParseIntError` and of the `&str` error strings and the slice-out-of-range panic text are not reproduced
  character for character. Only the distinction between the panics matters to the lemmas.
- Foreign crates: `base64::STANDARD.decode` and AES-256-GCM decryption are abstract function parameters
  (`Crypto.Primitives`), not verified definitions. `Nonce::clone_from_slice` is the 12-byte split.
- `spin::Once` and the `static mut UnsafeCell` cache are concurrency primitives. They are modelled as a
  single-threaded computed-once cell (`CryptoConfig.MasterKeyCell`) and a single cache object
  (`HakoLib.Cache`). Re-entrance and races are not captured.
- The `env` constants `MASTER_KEY_HASH_SHIFTED` and `SHIFT_KEY` are a parameter (`CryptoConfig.Env`): their
  values are not known.
- Hako chapter numbers (`parser.rs` 151-157) are parsed as `f32` with an `as f32` fallback. This is floating
  point and not modelled; only the title split is.
- Every `search.rs`, the remaining parsers, `resolve_image_url`, `truyenqq`, `vi.hakovn/proxy.ts` and the
  `WPComicsSource` template behaviour are not part of this model. They are host templating, foreign URL
  resolution, floating point or network I/O. Only FoxTruyen's two id closures and URL builders are.
- `FoxTruyen.MangaParseId`: `unwrap_or_default` cannot fail, so no panic is modelled for it.
- `FoxTruyen.AfterLastSep`: `rsplit(..).next().unwrap()` cannot fail, because `rsplit` always yields at least one
  piece, so no panic is modelled for it.
- The `u32` buffer of `decode_base64` cannot overflow: it is masked to fewer than 8 bits before each shift. So
  it is an unbounded `nat` kept below `2^bits`.

## Findings

| source | as written | input that shows it | evidently intended | confidence | as-written member | corrected member |
|---|---|---|---|---|---|---|
| src/rust/vi.hakovn/src/parser.rs:17 | `absolute_url` cuts a rooted link's base at `pos + 3 + slash_pos + pos + 3` (the same line is `vi.hentaivn/src/parser.rs:20`) | link `/x` on base `https://a.b/c`: the end 5 + 3 + 3 + 5 + 3 = 19 exceeds the base's 13 bytes and the slice panics | cut at `pos + 3 + slash_pos`, giving `https://a.b/x` | not executed | `UrlJoin.SliceEndPanics` | `UrlJoin.IntendedRootedJoin` |

Neither site's own `BASE_URL` has a `/` after its host, so the faulty branch is not reached there
(`UrlJoin.RootedOnSiteBases`). It is reached as soon as the base carries a path.
