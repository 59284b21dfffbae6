/**
 * The buffer interface of the codec: the two sizing macros and the two entry
 * points, which fill a caller-supplied array and return how many positions
 * they filled. Each entry point is proved against the pure codec in
 * Base64Codec.
 */
module Base64 {
  import opened Wrappers
  import opened Base64Codec

  /** One more than the largest `unsigned int`. */
  const UIntLimit: nat := 0x1_0000_0000

  /** The largest input length for which BASE64_ENCODE_OUT_SIZE fits in an `unsigned int`. */
  const MaxEncodeLength: nat := 0xBFFF_FFFD

  /** The largest input length for which BASE64_DECODE_OUT_SIZE fits in an `unsigned int`. */
  const MaxDecodeLength: nat := 0x1_5555_5557

  /** BASE64_ENCODE_OUT_SIZE: room for the encoding of `n` bytes and its terminator. */
  function EncodeOutSize(n: nat): nat
    requires n <= MaxEncodeLength
  {
    ((n + 2) / 3) * 4 + 1
  }

  /** BASE64_DECODE_OUT_SIZE: room for the bytes decoded from `m` characters. */
  function DecodeOutSize(m: nat): nat
    requires m <= MaxDecodeLength
  {
    (m / 4) * 3
  }

  /**
   * BASE64_ENCODE_OUT_SIZE does not wrap, and counts the least multiple of four
   * characters that holds `n` bytes in groups of three, plus one.
   */
  lemma EncodeOutSizeMeaning(n: nat)
    requires n <= MaxEncodeLength
    ensures var size := EncodeOutSize(n);
      && size < UIntLimit
      && (size - 1) % 4 == 0 && n <= 3 * ((size - 1) / 4) < n + 3
  {
  }

  /**
   * BASE64_DECODE_OUT_SIZE does not wrap, and counts three bytes for every
   * complete quantum of four characters among `m`.
   */
  lemma DecodeOutSizeMeaning(m: nat)
    requires m <= MaxDecodeLength
    ensures var size := DecodeOutSize(m);
      && size < UIntLimit
      && size % 3 == 0 && 4 * (size / 3) <= m < 4 * (size / 3) + 4
  {
  }

  /** Arithmetic on the number of groups of three among `n` bytes. */
  lemma GroupCount(n: nat)
    ensures var g := (n + 2) / 3;
      n <= 3 * g && (n == 3 * g <==> n % 3 == 0) && (4 * g) / 4 * 3 == 3 * g
  {
  }

  /** The encoder's output plus its terminator fills BASE64_ENCODE_OUT_SIZE exactly. */
  lemma EncodeOutSizeExact(s: seq<byte>)
    requires |s| <= MaxEncodeLength
    ensures |Encode(s)| + 1 == EncodeOutSize(|s|)
  {
    EncodeLength(s);
  }

  /** BASE64_DECODE_OUT_SIZE bounds every decoding, and is reached by unpadded text. */
  lemma DecodeOutSizeBounds(t: seq<char>)
    requires |t| <= MaxDecodeLength && Decode(t).Some?
    ensures |Decode(t).value| <= DecodeOutSize(|t|)
    ensures |Decode(t).value| == DecodeOutSize(|t|) <==> |Decode(t).value| % 3 == 0
  {
    var s := Decode(t).value;
    EncodeDecode(t);
    EncodeLength(s);
    GroupCount(|s|);
  }

  /** The encoding never contains '\0', so the terminator marks its end. */
  lemma NoTerminatorInEncoding(s: seq<byte>)
    ensures forall k :: 0 <= k < |Encode(s)| ==> Encode(s)[k] != '\0'
  {
    EncodeAlphabet(s);
    forall k | 0 <= k < |Encode(s)|
      ensures Encode(s)[k] != '\0'
    {
      SymbolsInTable(Encode(s)[k]);
    }
  }

  /** Writes the four characters of one quantum at `output[j..j + 4]`. */
  method PutQuantum(output: array<char>, j: nat, q: seq<char>)
    requires |q| == 4 && j + 4 <= output.Length
    modifies output
    ensures forall k :: 0 <= k < output.Length ==> output[k] == if j <= k < j + 4 then q[k - j] else old(output[k])
  {
    output[j], output[j + 1], output[j + 2], output[j + 3] := q[0], q[1], q[2], q[3];
  }

  /** Unfolds the encoding of a suffix that starts with a full group. */
  lemma EncodeSuffix(s: seq<byte>, i: nat)
    requires i + 3 <= |s|
    ensures Encode(s[i..]) == EncodeGroup(s[i], s[i + 1], s[i + 2]) + Encode(s[i + 3..])
  {
    assert s[i..][3..] == s[i + 3..];
  }

  /** After `g` whole groups, the rest of the encoding is the encoding of the rest of the input. */
  lemma {:induction false} EncodeDrop(s: seq<byte>, g: nat)
    requires 3 * g <= |s|
    ensures 4 * g <= |Encode(s)| && Encode(s)[4 * g..] == Encode(s[3 * g..])
  {
    if g > 0 {
      EncodeSuffix(s, 0);
      EncodeDrop(s[3..], g - 1);
      assert s[3..][3 * (g - 1)..] == s[3 * g..];
      assert Encode(s)[4..] == Encode(s[3..]);
      assert Encode(s)[4 * g..] == Encode(s)[4..][4 * (g - 1)..];
    }
  }

  /**
   * base64_encode: writes the encoding of `input` to `output`, then a '\0'
   * terminator, and returns the length of the encoding without the
   * terminator. Nothing after the terminator is touched.
   */
  method EncodeInto(input: seq<byte>, output: array<char>) returns (n: nat)
    requires |input| <= MaxEncodeLength
    requires EncodeOutSize(|input|) <= output.Length
    modifies output
    ensures n + 1 == EncodeOutSize(|input|)
    ensures output[..n] == Encode(input)
    ensures output[n] == '\0'
    ensures forall k :: 0 <= k < n ==> output[k] != '\0'
    ensures forall k :: n < k < output.Length ==> output[k] == old(output[k])
  {
    var groups := EncodeGroups(input, output);
    n := EncodeFinalGroup(input, groups, output);
    NoTerminatorInEncoding(input);
  }

  /**
   * The loop of base64_encode over the full groups of three bytes: returns the
   * number of groups, whose quanta are now the start of `output`.
   */
  method EncodeGroups(input: seq<byte>, output: array<char>) returns (groups: nat)
    requires |input| <= MaxEncodeLength
    requires EncodeOutSize(|input|) <= output.Length
    modifies output
    ensures 3 * groups <= |input| < 3 * groups + 3
    ensures 4 * groups <= |Encode(input)|
    ensures forall k :: 0 <= k < 4 * groups ==> output[k] == Encode(input)[k]
    ensures forall k :: 4 * groups <= k < output.Length ==> output[k] == old(output[k])
  {
    ghost var e := Encode(input);
    EncodeLength(input);
    var i, j := 0, 0;
    groups := 0;
    while i + 3 <= |input|
      invariant i <= |input| && i == 3 * groups && j == 4 * groups <= |e|
      invariant forall k :: 0 <= k < j ==> output[k] == e[k]
      invariant forall k :: j <= k < output.Length ==> output[k] == old(output[k])
    {
      EncodeDrop(input, groups);
      EncodeSuffix(input, i);
      var q := EncodeGroup(input[i], input[i + 1], input[i + 2]);
      assert e[j..j + 4] == q;
      PutQuantum(output, j, q);
      i, j, groups := i + 3, j + 4, groups + 1;
    }
  }

  /**
   * The end of base64_encode: the padded final group, if any, then the
   * terminator. Returns the length of the whole encoding.
   */
  method EncodeFinalGroup(input: seq<byte>, groups: nat, output: array<char>) returns (n: nat)
    requires |input| <= MaxEncodeLength
    requires EncodeOutSize(|input|) <= output.Length
    requires 3 * groups <= |input| < 3 * groups + 3
    requires 4 * groups <= |Encode(input)|
    requires forall k :: 0 <= k < 4 * groups ==> output[k] == Encode(input)[k]
    modifies output
    ensures n + 1 == EncodeOutSize(|input|)
    ensures output[..n] == Encode(input)
    ensures output[n] == '\0'
    ensures forall k :: n < k < output.Length ==> output[k] == old(output[k])
  {
    ghost var e := Encode(input);
    EncodeLength(input);
    EncodeDrop(input, groups);
    var i, j := 3 * groups, 4 * groups;
    assert (|input| + 2) / 3 == if i == |input| then groups else groups + 1;
    n := j;
    if |input| - i == 1 {
      assert e[j..] == EncodeFinal1(input[i]);
      PutQuantum(output, j, EncodeFinal1(input[i]));
      n := j + 4;
    } else if |input| - i == 2 {
      assert e[j..] == EncodeFinal2(input[i], input[i + 1]);
      PutQuantum(output, j, EncodeFinal2(input[i], input[i + 1]));
      n := j + 4;
    }
    assert |e| == n;
    assert forall k :: 0 <= k < n ==> output[k] == e[k];
    output[n] := '\0';
  }

  /** Writes the bytes `b` at `output[n..n + |b|]`. */
  method PutBytes(output: array<byte>, n: nat, b: seq<byte>)
    requires n + |b| <= output.Length
    modifies output
    ensures forall k :: 0 <= k < |b| ==> output[n + k] == b[k]
    ensures forall k :: 0 <= k < n ==> output[k] == old(output[k])
    ensures forall k :: n + |b| <= k < output.Length ==> output[k] == old(output[k])
  {
    forall k | 0 <= k < |b| {
      output[n + k] := b[k];
    }
  }

  /** Text that decodes starts with a quantum that decodes, followed by text that decodes. */
  lemma DecodeFront(u: seq<char>)
    requires |u| >= 4 && Decode(u).Some?
    ensures var q := DecodeQuantum(u[..4], |u| == 4);
      && q.Some? && Decode(u[4..]).Some?
      && Decode(u).value == q.value + Decode(u[4..]).value
  {
  }

  /** One step of decoding: the next bytes of the result are those of the next quantum. */
  lemma DecodeAdvance(t: seq<char>, i: nat, d: seq<byte>, n: nat)
    requires i + 4 <= |t| && n <= |d| && Decode(t[i..]) == Some(d[n..])
    ensures var q := DecodeQuantum(t[i..i + 4], i + 4 == |t|);
      && q.Some? && n + |q.value| <= |d|
      && (forall k :: 0 <= k < |q.value| ==> d[n + k] == q.value[k])
      && Decode(t[i + 4..]) == Some(d[n + |q.value|..])
  {
    var u := t[i..];
    assert u[..4] == t[i..i + 4] && u[4..] == t[i + 4..];
    DecodeFront(u);
    var q, rest := DecodeQuantum(u[..4], |u| == 4).value, Decode(u[4..]).value;
    assert d[n..] == q + rest;
    assert d[n + |q|..] == rest;
  }

  /**
   * One turn of the loop of base64_decode: decodes the quantum at `input[i..i + 4]`
   * and writes its bytes at `output[n..]`. When `d` is the decoding of the
   * whole input, of which `d[..n]` is written already and the rest is the
   * decoding of `input[i..]`, the quantum decodes and `output` keeps agreeing
   * with `d`.
   */
  method DecodeStep(input: seq<char>, i: nat, output: array<byte>, n: nat, ghost d: Option<seq<byte>>)
    returns (q: Option<seq<byte>>)
    requires i + 4 <= |input| && n + 3 <= output.Length
    requires d.Some? ==> && n <= |d.value| && Decode(input[i..]) == Some(d.value[n..])
                         && forall k :: 0 <= k < n ==> output[k] == d.value[k]
    modifies output
    ensures q == DecodeQuantum(input[i..i + 4], i + 4 == |input|)
    ensures d.Some? ==> && q.Some? && n + |q.value| <= |d.value|
                        && Decode(input[i + 4..]) == Some(d.value[n + |q.value|..])
                        && forall k :: 0 <= k < n + |q.value| ==> output[k] == d.value[k]
    ensures forall k :: n + (if q.Some? then |q.value| else 0) <= k < output.Length ==>
      output[k] == old(output[k])
  {
    q := DecodeQuantum(input[i..i + 4], i + 4 == |input|);
    if d.Some? {
      DecodeAdvance(input, i, d.value, n);
    }
    if q.Some? {
      PutBytes(output, n, q.value);
    }
  }

  /**
   * base64_decode: decodes `input` into `output` and returns the number of
   * bytes written, never more than BASE64_DECODE_OUT_SIZE(|input|).
   * When the input is the encoding of some byte string, exactly that string is
   * written. Nothing after the bytes written is touched.
   */
  method DecodeInto(input: seq<char>, output: array<byte>) returns (n: nat)
    requires |input| <= MaxDecodeLength
    requires DecodeOutSize(|input|) <= output.Length
    modifies output
    ensures n <= DecodeOutSize(|input|)
    ensures Decode(input).Some? ==> output[..n] == Decode(input).value
    ensures forall k :: n <= k < output.Length ==> output[k] == old(output[k])
  {
    ghost var whole := Decode(input);
    var i := 0;
    ghost var quanta := 0;
    n := 0;
    while i + 4 <= |input|
      invariant i <= |input| && i == 4 * quanta && n <= 3 * quanta
      invariant whole.Some? ==> && n <= |whole.value|
                                && Decode(input[i..]) == Some(whole.value[n..])
                                && forall k :: 0 <= k < n ==> output[k] == whole.value[k]
      invariant forall k :: n <= k < output.Length ==> output[k] == old(output[k])
    {
      assert |input| / 4 >= quanta + 1;
      var q := DecodeStep(input, i, output, n, whole);
      if q.None? {
        return;
      }
      n, i, quanta := n + |q.value|, i + 4, quanta + 1;
    }
    assert |input| / 4 >= quanta;
    if whole.Some? {
      assert input[i..] == [];
    }
  }
}
