# Base64 codec of blend2d-svg, modelled in Dafny

`svg/base64.h` declares a small Base64 codec. It provides:

- two sizing macros, `BASE64_ENCODE_OUT_SIZE` and `BASE64_DECODE_OUT_SIZE`;
- the padding character `=`;
- the character range `'+'..'z'` of the reverse lookup table;
- two entry points that fill a buffer the caller supplies.
  - `base64_encode` writes a `'\0'`-terminated string and returns its length without the terminator.
  - `base64_decode` returns the number of bytes written.

The project has three files.

- `wrappers.dfy` holds the `Option` type.
- `base64_codec.dfy` (module `Base64Codec`) is the pure codec of RFC 4648, section 4. It has:
  - the alphabet and its reverse lookup;
  - `Encode`, one quantum of four characters per group of three bytes, with the last group padded;
  - `Decode`, which is strict: it accepts exactly the text `Encode` produces and gives `None` for every other text;
  - the lemmas that tie the two together: round trips in both directions, the length law, the padding law, alphabet closure and the test vectors of RFC 4648, section 10.
- `base64.dfy` (module `Base64`) holds the two macros as functions and the two entry points as methods.
  - Each method fills an `array` with a loop over quanta.
  - Each is proved against `Encode` or `Decode`.

Octets are integers in 0..255 and 6-bit values are integers in 0..63. The shifts and masks of the bit slicing are written as division and remainder by powers of two.

## Model

| member | source | states |
|---|---|---|
| Base64Codec.Pad | svg/base64.h:7 | `BASE64_PAD`, the character `'='`. `EncodePadding` states where it may appear, and `SextetOf` states that it is never an alphabet character |
| Base64Codec.TableFirst | svg/base64.h:8 | `BASE64DE_FIRST`, the character `'+'`, the lowest character the reverse lookup accepts (`SextetOf`, `SymbolsInTable`) |
| Base64Codec.TableLast | svg/base64.h:9 | `BASE64DE_LAST`, the character `'z'`, the highest character the reverse lookup accepts (`SextetOf`, `SymbolsInTable`) |
| Base64Codec.Symbol | svg/base64.h:7-9 | every alphabet character lies in `BASE64DE_FIRST..BASE64DE_LAST` and is never the padding character |
| Base64Codec.SextetOf | svg/base64.h:8-9 | the reverse lookup accepts only characters in `'+'..'z'` and never accepts the padding character |
| Base64Codec.SymbolInverse | svg/base64.h:8-9 | the reverse lookup maps `c` to `v` exactly when the alphabet maps `v` to `c` |
| Base64Codec.SymbolInjective | svg/base64.h:15-16 | the 64 alphabet characters are distinct |
| Base64Codec.SymbolsInTable | svg/base64.h:7-9 | every alphabet character and the padding character lie in `'+'..'z'` |
| Base64Codec.Encode | svg/base64.h:15-16 | the Base64 encoding of a byte string. It is total. Its meaning is given by `EncodeLength`, `EncodeAlphabet`, `EncodePadding`, `DecodeIffEncode` and the RFC 4648 vectors |
| Base64Codec.EncodeLength | svg/base64.h:15-16 | the encoding of `n` bytes has exactly `4 * ceil(n / 3)` characters, and 0 for no input |
| Base64Codec.EncodeLengthQuanta | svg/base64.h:15-16 | every encoding consists of whole quanta of four characters |
| Base64Codec.EncodeAlphabet | svg/base64.h:15-16 | every character of an encoding is an alphabet character or `=` |
| Base64Codec.EncodePadding | svg/base64.h:7 | a position holds `=` exactly when it is among the last `(3 - n % 3) % 3` positions, so padding is only a suffix of that exact length |
| Base64Codec.Decode | svg/base64.h:18-21 | strict decoding of Base64 text, with `None` for text that is not an encoding. Its meaning is given by `DecodeIffEncode`: it inverts `Encode` exactly |
| Base64Codec.DecodeQuantum | svg/base64.h:21 | a quantum decodes to one to three bytes, and to exactly three unless it is the last one |
| Base64Codec.GroupRoundTrip | svg/base64.h:21 | the quantum of a full group decodes back to its three bytes |
| Base64Codec.Final1RoundTrip | svg/base64.h:21 | the padded quantum `xy==` of one byte decodes back to that byte |
| Base64Codec.Final2RoundTrip | svg/base64.h:21 | the padded quantum `xyz=` of two bytes decodes back to those bytes |
| Base64Codec.QuantumInverse | svg/base64.h:21 | a quantum that decodes is exactly the encoding of the bytes it decodes to |
| Base64Codec.DecodeEncode | svg/base64.h:15-21 | decoding the encoding of any byte string gives back that byte string |
| Base64Codec.EncodeDecode | svg/base64.h:15-21 | text that decodes is exactly the encoding of its decoding |
| Base64Codec.DecodeIffEncode | svg/base64.h:15-21 | text decodes to `s` if and only if it is the encoding of `s` |
| Base64Codec.DecodeRejectsForeign | svg/base64.h:7-9 | a property of the strict `Decode` (section 3.5 of RFC 4648): text holding a character outside the alphabet and `'='` does not decode. Such text lies outside the inputs where `DecodeInto` promises its contents |
| Base64Codec.DecodeRejectsLength | svg/base64.h:5 | a property of the strict `Decode` (section 3.5 of RFC 4648): text whose length is not a multiple of four does not decode. Such text lies outside the inputs where `DecodeInto` promises its contents |
| Base64Codec.EncodeVectors | svg/base64.h:15-16 | RFC 4648 section 10: `""`, `"f"`, `"fo"` and `"foo"` encode to `""`, `"Zg=="`, `"Zm8="` and `"Zm9v"` |
| Base64Codec.EncodeLongVectors | svg/base64.h:15-16 | RFC 4648 section 10: `"foob"`, `"fooba"` and `"foobar"` encode to `"Zm9vYg=="`, `"Zm9vYmE="` and `"Zm9vYmFy"` |
| Base64Codec.DecodeVectors | svg/base64.h:18-21 | the same seven RFC 4648 vectors decode back to their byte strings |
| Base64Codec.ManVectors | svg/base64.h:15-21 | `"Man"`, `"Ma"` and `"M"` encode to `"TWFu"`, `"TWE="` and `"TQ=="`, and those decode back |
| Base64.EncodeOutSize | svg/base64.h:4 | `BASE64_ENCODE_OUT_SIZE(n)` for lengths whose result fits in an `unsigned int`. Its meaning is given by `EncodeOutSizeMeaning` and `EncodeOutSizeExact` |
| Base64.DecodeOutSize | svg/base64.h:5 | `BASE64_DECODE_OUT_SIZE(m)` for lengths whose result fits in an `unsigned int`. Its meaning is given by `DecodeOutSizeMeaning` and `DecodeOutSizeBounds` |
| Base64.EncodeOutSizeMeaning | svg/base64.h:4 | the encode size does not wrap in an `unsigned int`. It is one more than the least multiple of four that holds `n` bytes in groups of three |
| Base64.DecodeOutSizeMeaning | svg/base64.h:5 | the decode size does not wrap in an `unsigned int`. It is three bytes for every complete quantum among `m` characters |
| Base64.EncodeOutSizeExact | svg/base64.h:4 | the encoding plus its terminator fills `BASE64_ENCODE_OUT_SIZE(n)` exactly |
| Base64.DecodeOutSizeBounds | svg/base64.h:5 | every decoding fits in `BASE64_DECODE_OUT_SIZE(m)` bytes, and fills it exactly when its length is a multiple of three |
| Base64.NoTerminatorInEncoding | svg/base64.h:11-14 | no encoding contains `'\0'`, so the terminator marks its end |
| Base64.EncodeInto | svg/base64.h:11-16 | `base64_encode` writes exactly the encoding and then `'\0'`, with no `'\0'` earlier. It returns the encoding's length, which is one less than `BASE64_ENCODE_OUT_SIZE(inlen)`. Nothing after the terminator changes |
| Base64.EncodeGroups | svg/base64.h:15-16 | the loop over full groups writes the first `4 * groups` characters of the encoding, and `groups` is the number of full groups |
| Base64.EncodeFinalGroup | svg/base64.h:15-16 | the padded final quantum and the terminator complete the encoding |
| Base64.DecodeStep | svg/base64.h:21 | one loop turn decodes one quantum and writes its bytes. On text that decodes, the output keeps agreeing with the decoding |
| Base64.DecodeInto | svg/base64.h:18-21 | `base64_decode` returns at most `BASE64_DECODE_OUT_SIZE(inlen)`. When the input is the encoding of `s`, it writes exactly `s` and returns its length. The model also leaves the cells past the returned count unchanged; the header does not promise this (see "Left out") |

## Left out

- `svg/fonthandler.h` is not part of this model. It is font-loading glue around Blend2D; it neither includes `base64.h` nor calls the codec.
- `core/definitions.h` is not part of this model. It holds the `INLINE` macro and the pointer-punning `isLE`/`isBE` endianness check, and its typedefs are all commented out; `base64.h` includes nothing from it.
- The header declares `base64_encode` and `base64_decode` but does not contain their bodies. The alphabet, the bit slicing and the padding follow RFC 4648, section 4, which the declarations and the `'='` / `'+'..'z'` constants match.
- DecodeInto: for text that is not the encoding of some byte string, its contract states only the bound on the count and that nothing past the written bytes changes. The C decoder's handling of such text is not modelled, because it is not visible in the header. This includes skipping characters outside the alphabet, whitespace, missing padding and non-zero leftover bits. `Decode` itself is strict: it rejects all such text, following section 3.5 of RFC 4648.
- DecodeInto: the header promises only that the return value is the output length and that `out` needs `BASE64_DECODE_OUT_SIZE(inlen)` bytes. It does not promise that `out[n..]` is left untouched. The model writes whole quanta only, so it changes nothing past the returned count. A C decoder that stores a partial byte before it knows the quantum is complete would differ there, for example after `xy==`, and that difference is not modelled.
- EncodeInto: the header promises a `'\0'`-terminated string and its length, but not that the cells after the terminator are left untouched. The model writes nothing there; an encoder that used those cells as scratch space would differ, and that difference is not modelled.
- EncodeOutSize, DecodeOutSize: the `(unsigned int)` cast and unsigned wrap-around in the macros are not modelled. Instead, `requires` clauses bound the length so that the result fits in 32 bits: at most 0xBFFF_FFFD for encoding and 0x1_5555_5557 for decoding.
- EncodeInto, DecodeInto: the read-only `in` / `inlen` pair is modelled as one sequence value. Aliasing between `in` and `out` is therefore not modelled. `out` is an `array` that must hold at least the macro's size.
- The `unsigned int` and `size_t` widths of the lengths and return values are not modelled beyond the bounds above.
