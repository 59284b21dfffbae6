/**
 * The Base64 alphabet and the pure codec of RFC 4648, section 4: the standard
 * 64-character alphabet with `=` padding.
 *
 * Octets are modelled as integers in 0..255 and 6-bit values as integers in
 * 0..63; the shifts and masks of the bit slicing are written as division and
 * remainder by powers of two, which is what they compute on unsigned values
 * (`b >> 2` is `b / 4`, `b & 0x3` is `b % 4`, `x << 4` is `x * 16`).
 */
module Base64Codec {
  import opened Wrappers

  /** One octet of a binary buffer (`unsigned char`). */
  type byte = x: int | 0 <= x < 256

  /** A 6-bit value: the index of one character of the alphabet. */
  type Sextet = v: int | 0 <= v < 64

  /** BASE64_PAD: the padding character that closes a short final quantum. */
  const Pad: char := '='

  /** BASE64DE_FIRST and BASE64DE_LAST: the reverse lookup table covers exactly these characters. */
  const TableFirst: char := '+'
  const TableLast: char := 'z'

  predicate InTable(c: char) {
    TableFirst <= c <= TableLast
  }

  /**
   * Table 1 of RFC 4648: the alphabet character that stands for the 6-bit
   * value `v` ('A'..'Z', 'a'..'z', '0'..'9', '+', '/' in value order).
   */
  function Symbol(v: Sextet): (c: char)
    ensures InTable(c) && c != Pad
  {
    if v < 26 then ('A' as int + v) as char
    else if v < 52 then ('a' as int + (v - 26)) as char
    else if v < 62 then ('0' as int + (v - 52)) as char
    else if v == 62 then '+'
    else '/'
  }

  /**
   * The reverse lookup: the 6-bit value of an alphabet character, and None for
   * every other character, the padding character included. A character outside
   * TableFirst..TableLast is rejected before any table entry is consulted.
   */
  function SextetOf(c: char): (r: Option<Sextet>)
    ensures r.Some? ==> InTable(c)
    ensures c == Pad ==> r.None?
  {
    if !InTable(c) then None
    else if 'A' <= c <= 'Z' then Some(c as int - 'A' as int)
    else if 'a' <= c <= 'z' then Some(c as int - 'a' as int + 26)
    else if '0' <= c <= '9' then Some(c as int - '0' as int + 52)
    else if c == '+' then Some(62)
    else if c == '/' then Some(63)
    else None
  }

  /** A character of the 64-character alphabet. */
  predicate IsSymbol(c: char) {
    SextetOf(c).Some?
  }

  /** The reverse lookup inverts the alphabet, in both directions. */
  lemma SymbolInverse(v: Sextet, c: char)
    ensures SextetOf(c) == Some(v) <==> Symbol(v) == c
  {
  }

  /** The 64 alphabet characters are distinct. */
  lemma SymbolInjective(v: Sextet, w: Sextet)
    ensures Symbol(v) == Symbol(w) ==> v == w
  {
    SymbolInverse(v, Symbol(v));
    SymbolInverse(w, Symbol(w));
  }

  /** Every alphabet character and the padding character lie in TableFirst..TableLast. */
  lemma SymbolsInTable(c: char)
    ensures IsSymbol(c) || c == Pad ==> InTable(c)
  {
  }

  // ---------------------------------------------------------------------------
  // Encoding

  /** The four characters for a full group of three bytes. */
  function EncodeGroup(b0: byte, b1: byte, b2: byte): seq<char> {
    [Symbol(b0 / 4), Symbol((b0 % 4) * 16 + b1 / 16), Symbol((b1 % 16) * 4 + b2 / 64), Symbol(b2 % 64)]
  }

  /** A final group of one byte: two characters and two padding characters. */
  function EncodeFinal1(b0: byte): seq<char> {
    [Symbol(b0 / 4), Symbol((b0 % 4) * 16), Pad, Pad]
  }

  /** A final group of two bytes: three characters and one padding character. */
  function EncodeFinal2(b0: byte, b1: byte): seq<char> {
    [Symbol(b0 / 4), Symbol((b0 % 4) * 16 + b1 / 16), Symbol((b1 % 16) * 4), Pad]
  }

  /**
   * The Base64 encoding of `s`: one quantum of four characters per group of
   * three bytes, the last group padded. Total: every byte string has one.
   */
  function Encode(s: seq<byte>): seq<char>
    decreases |s|
  {
    if |s| == 0 then []
    else if |s| == 1 then EncodeFinal1(s[0])
    else if |s| == 2 then EncodeFinal2(s[0], s[1])
    else EncodeGroup(s[0], s[1], s[2]) + Encode(s[3..])
  }

  /** The length law: four characters for every group of three bytes or part of one. */
  lemma {:induction false} EncodeLength(s: seq<byte>)
    ensures |Encode(s)| == 4 * ((|s| + 2) / 3)
    decreases |s|
  {
    if |s| >= 3 {
      EncodeLength(s[3..]);
      assert Encode(s) == EncodeGroup(s[0], s[1], s[2]) + Encode(s[3..]);
      assert (|s| - 3 + 2) / 3 + 1 == (|s| + 2) / 3;
    }
  }

  /** Every encoding is made of whole quanta of four characters. */
  lemma EncodeLengthQuanta(s: seq<byte>)
    ensures |Encode(s)| % 4 == 0
  {
    EncodeLength(s);
    var g := (|s| + 2) / 3;
    assert |Encode(s)| == 4 * g;
  }

  /** Every character of an encoding is an alphabet character or the padding character. */
  lemma {:induction false} EncodeAlphabet(s: seq<byte>)
    ensures forall i :: 0 <= i < |Encode(s)| ==> IsSymbol(Encode(s)[i]) || Encode(s)[i] == Pad
    decreases |s|
  {
    if |s| == 1 {
      SymbolIsSymbol(s[0] / 4);
      SymbolIsSymbol((s[0] % 4) * 16);
    } else if |s| == 2 {
      SymbolIsSymbol(s[0] / 4);
      SymbolIsSymbol((s[0] % 4) * 16 + s[1] / 16);
      SymbolIsSymbol((s[1] % 16) * 4);
    } else if |s| >= 3 {
      var g, rest := EncodeGroup(s[0], s[1], s[2]), Encode(s[3..]);
      assert Encode(s) == g + rest;
      GroupSymbols(s[0], s[1], s[2]);
      EncodeAlphabet(s[3..]);
      forall i | 0 <= i < |g + rest|
        ensures IsSymbol((g + rest)[i]) || (g + rest)[i] == Pad
      {
        if i < 4 {
          assert (g + rest)[i] == g[i];
        } else {
          assert (g + rest)[i] == rest[i - 4];
        }
      }
    }
  }

  /** Every character the alphabet function yields is an alphabet character. */
  lemma SymbolIsSymbol(v: Sextet)
    ensures IsSymbol(Symbol(v))
  {
    SymbolInverse(v, Symbol(v));
  }

  /** The four characters of a full group are alphabet characters. */
  lemma GroupSymbols(b0: byte, b1: byte, b2: byte)
    ensures forall i :: 0 <= i < 4 ==> IsSymbol(EncodeGroup(b0, b1, b2)[i])
  {
    SymbolIsSymbol(b0 / 4);
    SymbolIsSymbol((b0 % 4) * 16 + b1 / 16);
    SymbolIsSymbol((b1 % 16) * 4 + b2 / 64);
    SymbolIsSymbol(b2 % 64);
  }

  /** The number of padding characters for `n` input bytes. */
  function PadCount(n: nat): nat {
    (3 - n % 3) % 3
  }

  /** Padding appears only as the suffix, and the suffix has exactly PadCount(|s|) characters. */
  lemma {:induction false} EncodePadding(s: seq<byte>)
    ensures forall i :: 0 <= i < |Encode(s)| ==> (Encode(s)[i] == Pad <==> |Encode(s)| - PadCount(|s|) <= i)
    decreases |s|
  {
    if |s| >= 3 {
      var g, rest := EncodeGroup(s[0], s[1], s[2]), Encode(s[3..]);
      EncodePadding(s[3..]);
      assert Encode(s) == g + rest;
      assert PadCount(|s|) == PadCount(|s[3..]|);
      assert PadCount(|s|) <= |rest|;
      forall i | 0 <= i < |g + rest|
        ensures (g + rest)[i] == Pad <==> |g + rest| - PadCount(|s|) <= i
      {
        if i < 4 {
          assert (g + rest)[i] == g[i] != Pad;
        } else {
          assert (g + rest)[i] == rest[i - 4];
          assert rest[i - 4] == Pad <==> |rest| - PadCount(|s[3..]|) <= i - 4;
        }
      }
    }
  }

  // ---------------------------------------------------------------------------
  // Decoding

  /** The first byte of a quantum, from its first two 6-bit values. */
  function Byte0(s0: Sextet, s1: Sextet): byte {
    s0 * 4 + s1 / 16
  }

  /** The second byte of a quantum, from its second and third 6-bit values. */
  function Byte1(s1: Sextet, s2: Sextet): byte {
    (s1 % 16) * 16 + s2 / 4
  }

  /** The third byte of a quantum, from its third and fourth 6-bit values. */
  function Byte2(s2: Sextet, s3: Sextet): byte {
    (s2 % 4) * 64 + s3
  }

  /**
   * Decodes one quantum of four characters. Four alphabet characters give three
   * bytes; in the last quantum only, `xyz=` gives two bytes and `xy==` one, and
   * the bits the padding leaves over must be zero (RFC 4648, section 3.5).
   */
  function DecodeQuantum(q: seq<char>, last: bool): (r: Option<seq<byte>>)
    requires |q| == 4
    ensures r.Some? ==> 1 <= |r.value| <= 3 && (!last ==> |r.value| == 3)
  {
    var s0, s1, s2, s3 := SextetOf(q[0]), SextetOf(q[1]), SextetOf(q[2]), SextetOf(q[3]);
    if s0.None? || s1.None? then None
    else if s2.Some? && s3.Some? then Some([Byte0(s0.value, s1.value), Byte1(s1.value, s2.value), Byte2(s2.value, s3.value)])
    else if !last then None
    else if s2.Some? && q[3] == Pad && s2.value % 4 == 0 then Some([Byte0(s0.value, s1.value), Byte1(s1.value, s2.value)])
    else if q[2] == Pad && q[3] == Pad && s1.value % 16 == 0 then Some([Byte0(s0.value, s1.value)])
    else None
  }

  /**
   * Decodes well-formed Base64 text: quanta of four characters, padding only in
   * the last. None marks text that is not the encoding of any byte string.
   */
  function Decode(t: seq<char>): Option<seq<byte>>
    decreases |t|
  {
    if |t| == 0 then Some([])
    else if |t| < 4 then None
    else
      var q := DecodeQuantum(t[..4], |t| == 4);
      var rest := Decode(t[4..]);
      if q.Some? && rest.Some? then Some(q.value + rest.value) else None
  }

  // ---------------------------------------------------------------------------
  // Round trip

  /** A full group decodes back to its three bytes, whether or not it is the last quantum. */
  lemma GroupRoundTrip(b0: byte, b1: byte, b2: byte, last: bool)
    ensures DecodeQuantum(EncodeGroup(b0, b1, b2), last) == Some([b0, b1, b2])
  {
    var s0, s1, s2, s3 := b0 / 4, (b0 % 4) * 16 + b1 / 16, (b1 % 16) * 4 + b2 / 64, b2 % 64;
    var q := EncodeGroup(b0, b1, b2);
    assert q == [Symbol(s0), Symbol(s1), Symbol(s2), Symbol(s3)];
    SymbolInverse(s0, q[0]);
    SymbolInverse(s1, q[1]);
    SymbolInverse(s2, q[2]);
    SymbolInverse(s3, q[3]);
    SlicesRecombine(b0, b1, b2);
  }

  /** The bit slicing of the encoder and the recombination of the decoder undo each other. */
  lemma SlicesRecombine(b0: byte, b1: byte, b2: byte)
    ensures var s0, s1, s2, s3 := b0 / 4, (b0 % 4) * 16 + b1 / 16, (b1 % 16) * 4 + b2 / 64, b2 % 64;
      Byte0(s0, s1) == b0 && Byte1(s1, s2) == b1 && Byte2(s2, s3) == b2
  {
  }

  /** A padded final quantum of one byte decodes to that byte. */
  lemma Final1RoundTrip(b0: byte)
    ensures DecodeQuantum(EncodeFinal1(b0), true) == Some([b0])
  {
    var s0, s1 := b0 / 4, (b0 % 4) * 16;
    var q := EncodeFinal1(b0);
    assert q == [Symbol(s0), Symbol(s1), Pad, Pad];
    SymbolInverse(s0, q[0]);
    SymbolInverse(s1, q[1]);
    RecombineFinal1(b0);
  }

  /** The one byte of a padded final quantum survives its slicing and recombination. */
  lemma RecombineFinal1(b0: byte)
    ensures ((b0 % 4) * 16) % 16 == 0 && Byte0(b0 / 4, (b0 % 4) * 16) == b0
  {
  }

  /** A padded final quantum of two bytes decodes to those two bytes. */
  lemma Final2RoundTrip(b0: byte, b1: byte)
    ensures DecodeQuantum(EncodeFinal2(b0, b1), true) == Some([b0, b1])
  {
    var s0, s1, s2 := b0 / 4, (b0 % 4) * 16 + b1 / 16, (b1 % 16) * 4;
    var q := EncodeFinal2(b0, b1);
    assert q == [Symbol(s0), Symbol(s1), Symbol(s2), Pad];
    SymbolInverse(s0, q[0]);
    SymbolInverse(s1, q[1]);
    SymbolInverse(s2, q[2]);
    SlicesRecombine(b0, b1, 0);
    assert s2 % 4 == 0;
  }

  /** The recombination of the decoder and the bit slicing of the encoder undo each other. */
  lemma RecombineSlices(s0: Sextet, s1: Sextet, s2: Sextet, s3: Sextet)
    ensures var b0, b1, b2 := Byte0(s0, s1), Byte1(s1, s2), Byte2(s2, s3);
      && b0 / 4 == s0 && (b0 % 4) * 16 + b1 / 16 == s1
      && (b1 % 16) * 4 + b2 / 64 == s2 && b2 % 64 == s3
      && (s1 % 16 == 0 ==> (b0 % 4) * 16 == s1)
      && (s2 % 4 == 0 ==> (b1 % 16) * 4 == s2)
  {
  }

  /** A quantum that decodes is exactly the encoding of the bytes it decodes to. */
  lemma QuantumInverse(q: seq<char>, last: bool)
    requires |q| == 4 && DecodeQuantum(q, last).Some?
    ensures var b := DecodeQuantum(q, last).value;
      && (|b| == 3 ==> EncodeGroup(b[0], b[1], b[2]) == q)
      && (|b| == 2 ==> EncodeFinal2(b[0], b[1]) == q)
      && (|b| == 1 ==> EncodeFinal1(b[0]) == q)
  {
    if SextetOf(q[3]).Some? {
      FullQuantumInverse(q, last);
    } else if SextetOf(q[2]).Some? {
      Final2QuantumInverse(q);
    } else {
      Final1QuantumInverse(q);
    }
  }

  /** QuantumInverse for four alphabet characters. */
  lemma FullQuantumInverse(q: seq<char>, last: bool)
    requires |q| == 4 && DecodeQuantum(q, last).Some? && SextetOf(q[3]).Some?
    ensures var b := DecodeQuantum(q, last).value;
      |b| == 3 && EncodeGroup(b[0], b[1], b[2]) == q
  {
    var s0, s1, s2, s3 := SextetOf(q[0]).value, SextetOf(q[1]).value, SextetOf(q[2]).value, SextetOf(q[3]).value;
    assert DecodeQuantum(q, last).value == [Byte0(s0, s1), Byte1(s1, s2), Byte2(s2, s3)];
    SymbolInverse(s0, q[0]);
    SymbolInverse(s1, q[1]);
    SymbolInverse(s2, q[2]);
    SymbolInverse(s3, q[3]);
    RecombineSlices(s0, s1, s2, s3);
  }

  /** QuantumInverse for three alphabet characters and one padding character. */
  lemma Final2QuantumInverse(q: seq<char>)
    requires |q| == 4 && SextetOf(q[3]).None? && SextetOf(q[2]).Some?
    requires DecodeQuantum(q, true).Some?
    ensures var b := DecodeQuantum(q, true).value;
      |b| == 2 && EncodeFinal2(b[0], b[1]) == q
  {
    var s0, s1, s2 := SextetOf(q[0]).value, SextetOf(q[1]).value, SextetOf(q[2]).value;
    assert q[3] == Pad && s2 % 4 == 0;
    assert DecodeQuantum(q, true).value == [Byte0(s0, s1), Byte1(s1, s2)];
    SymbolInverse(s0, q[0]);
    SymbolInverse(s1, q[1]);
    SymbolInverse(s2, q[2]);
    RecombineSlices(s0, s1, s2, 0);
  }

  /** QuantumInverse for two alphabet characters and two padding characters. */
  lemma Final1QuantumInverse(q: seq<char>)
    requires |q| == 4 && SextetOf(q[3]).None? && SextetOf(q[2]).None?
    requires DecodeQuantum(q, true).Some?
    ensures var b := DecodeQuantum(q, true).value;
      |b| == 1 && EncodeFinal1(b[0]) == q
  {
    var s0, s1 := SextetOf(q[0]).value, SextetOf(q[1]).value;
    assert q[2] == Pad && q[3] == Pad && s1 % 16 == 0;
    assert DecodeQuantum(q, true).value == [Byte0(s0, s1)];
    SymbolInverse(s0, q[0]);
    SymbolInverse(s1, q[1]);
    RecombineSlices(s0, s1, 0, 0);
  }

  /** Decoding the encoder's output gives back the original bytes. */
  lemma {:induction false} DecodeEncode(s: seq<byte>)
    ensures Decode(Encode(s)) == Some(s)
    decreases |s|
  {
    if |s| == 1 {
      var t := Encode(s);
      Final1RoundTrip(s[0]);
      assert t[..4] == t == EncodeFinal1(s[0]) && t[4..] == [];
      assert s == [s[0]] + [];
    } else if |s| == 2 {
      var t := Encode(s);
      Final2RoundTrip(s[0], s[1]);
      assert t[..4] == t == EncodeFinal2(s[0], s[1]) && t[4..] == [];
      assert s == [s[0], s[1]] + [];
    } else if |s| >= 3 {
      DecodeEncodeGroup(s);
    }
  }

  /** The step of DecodeEncode for an input of at least one full group. */
  lemma {:induction false} DecodeEncodeGroup(s: seq<byte>)
    requires |s| >= 3
    ensures Decode(Encode(s)) == Some(s)
    decreases |s|, 0
  {
    var b0, b1, b2, r := s[0], s[1], s[2], s[3..];
    assert s == [b0, b1, b2] + r;
    DecodeEncode(r);
    DecodeEncodeCons(b0, b1, b2, r, Encode(r));
  }

  /** Prefixing a full group to the encoding of `r` prefixes its bytes to the decoding. */
  lemma DecodeEncodeCons(b0: byte, b1: byte, b2: byte, r: seq<byte>, rest: seq<char>)
    requires Encode(r) == rest && Decode(rest) == Some(r)
    ensures Encode([b0, b1, b2] + r) == EncodeGroup(b0, b1, b2) + rest
    ensures Decode(EncodeGroup(b0, b1, b2) + rest) == Some([b0, b1, b2] + r)
  {
    var s := [b0, b1, b2] + r;
    assert s[..3] == [b0, b1, b2] && s[3..] == r;
    GroupRoundTrip(b0, b1, b2, rest == []);
    DecodeAppend(EncodeGroup(b0, b1, b2), rest, [b0, b1, b2], r);
  }

  /** A quantum followed by text: decoding each part and joining the results. */
  lemma DecodeAppend(q: seq<char>, rest: seq<char>, b: seq<byte>, r: seq<byte>)
    requires |q| == 4
    requires DecodeQuantum(q, rest == []) == Some(b) && Decode(rest) == Some(r)
    ensures Decode(q + rest) == Some(b + r)
  {
    var t := q + rest;
    assert t[..4] == q && t[4..] == rest;
  }

  /** Text that decodes is exactly the encoding of what it decodes to. */
  lemma {:induction false} EncodeDecode(t: seq<char>)
    requires Decode(t).Some?
    ensures Encode(Decode(t).value) == t
    decreases |t|
  {
    if |t| > 0 {
      var q, rest := DecodeQuantum(t[..4], |t| == 4).value, Decode(t[4..]).value;
      var b := Decode(t).value;
      assert b == q + rest;
      QuantumInverse(t[..4], |t| == 4);
      EncodeDecode(t[4..]);
      if |q| == 3 {
        assert b[..3] == q && b[3..] == rest;
        assert Encode(b) == EncodeGroup(q[0], q[1], q[2]) + Encode(rest);
      } else {
        assert |t| == 4 && rest == [] && b == q;
      }
      assert t == t[..4] + t[4..];
    }
  }

  /** Decoding and encoding are inverse: text decodes to `s` exactly when it is the encoding of `s`. */
  lemma DecodeIffEncode(t: seq<char>, s: seq<byte>)
    ensures Decode(t) == Some(s) <==> Encode(s) == t
  {
    if Decode(t) == Some(s) {
      EncodeDecode(t);
    }
    if Encode(s) == t {
      DecodeEncode(s);
    }
  }

  /** Text holding a character that is neither in the alphabet nor the padding character does not decode. */
  lemma DecodeRejectsForeign(t: seq<char>, k: nat)
    requires k < |t| && !IsSymbol(t[k]) && t[k] != Pad
    ensures Decode(t).None?
  {
    if Decode(t).Some? {
      var b := Decode(t).value;
      EncodeDecode(t);
      EncodeAlphabet(b);
    }
  }

  /** Text whose length is not a multiple of four does not decode. */
  lemma DecodeRejectsLength(t: seq<char>)
    requires |t| % 4 != 0
    ensures Decode(t).None?
  {
    if Decode(t).Some? {
      var b := Decode(t).value;
      EncodeDecode(t);
      EncodeLengthQuanta(b);
    }
  }

  /** The encoding test vectors of RFC 4648, section 10, up to one group: "", "f", "fo", "foo". */
  lemma EncodeVectors()
    ensures Encode([]) == ""
    ensures Encode([0x66]) == "Zg=="
    ensures Encode([0x66, 0x6f]) == "Zm8="
    ensures Encode([0x66, 0x6f, 0x6f]) == "Zm9v"
  {
    assert EncodeGroup(0x66, 0x6f, 0x6f) == "Zm9v";
  }

  /** The remaining encoding test vectors of RFC 4648, section 10: "foob", "fooba", "foobar". */
  lemma EncodeLongVectors()
    ensures Encode([0x66, 0x6f, 0x6f, 0x62]) == "Zm9vYg=="
    ensures Encode([0x66, 0x6f, 0x6f, 0x62, 0x61]) == "Zm9vYmE="
    ensures Encode([0x66, 0x6f, 0x6f, 0x62, 0x61, 0x72]) == "Zm9vYmFy"
  {
    EncodeVectors();
    assert [0x66, 0x6f, 0x6f, 0x62][3..] == [0x62];
    assert [0x66, 0x6f, 0x6f, 0x62, 0x61][3..] == [0x62, 0x61];
    assert [0x66, 0x6f, 0x6f, 0x62, 0x61, 0x72][3..] == [0x62, 0x61, 0x72];
  }

  /** The decoding direction of the same vectors, obtained from the round trip. */
  lemma DecodeVectors()
    ensures Decode("") == Some([])
    ensures Decode("Zg==") == Some([0x66])
    ensures Decode("Zm8=") == Some([0x66, 0x6f])
    ensures Decode("Zm9v") == Some([0x66, 0x6f, 0x6f])
    ensures Decode("Zm9vYg==") == Some([0x66, 0x6f, 0x6f, 0x62])
    ensures Decode("Zm9vYmE=") == Some([0x66, 0x6f, 0x6f, 0x62, 0x61])
    ensures Decode("Zm9vYmFy") == Some([0x66, 0x6f, 0x6f, 0x62, 0x61, 0x72])
  {
    EncodeVectors();
    EncodeLongVectors();
    DecodeEncode([0x66]);
    DecodeEncode([0x66, 0x6f]);
    DecodeEncode([0x66, 0x6f, 0x6f]);
    DecodeEncode([0x66, 0x6f, 0x6f, 0x62]);
    DecodeEncode([0x66, 0x6f, 0x6f, 0x62, 0x61]);
    DecodeEncode([0x66, 0x6f, 0x6f, 0x62, 0x61, 0x72]);
  }

  /** "Man", "Ma" and "M" and their encodings, in both directions. */
  lemma ManVectors()
    ensures Encode([0x4d, 0x61, 0x6e]) == "TWFu" && Decode("TWFu") == Some([0x4d, 0x61, 0x6e])
    ensures Encode([0x4d, 0x61]) == "TWE=" && Decode("TWE=") == Some([0x4d, 0x61])
    ensures Encode([0x4d]) == "TQ==" && Decode("TQ==") == Some([0x4d])
  {
    assert Encode([0x4d, 0x61, 0x6e]) == "TWFu";
    assert Encode([0x4d, 0x61]) == "TWE=";
    assert Encode([0x4d]) == "TQ==";
    DecodeEncode([0x4d, 0x61, 0x6e]);
    DecodeEncode([0x4d, 0x61]);
    DecodeEncode([0x4d]);
  }
}
