/** The table-driven base64 decoder of xsa.c (`base64_decode`) and, as its partner,
    the padded encoding of section 4 of RFC 4648. */
module Base64 {
  import opened Bytes

  /** decode_table's entry for a byte outside the alphabet: -1 as a signed `char`. */
  const Invalid: Byte := 0xFF
  /** decode_table's entry for '=': -2 as a signed `char`. */
  const PadMark: Byte := 0xFE

  /** The alphabet of RFC 4648, section 4, Table 1: the character that encodes sextet `s`. */
  function EncodeSextet(s: Byte): Byte
    requires s < 64
  {
    if s < 26 then 0x41 + s            // 'A' .. 'Z'
    else if s < 52 then 0x61 + (s - 26) // 'a' .. 'z'
    else if s < 62 then 0x30 + (s - 52) // '0' .. '9'
    else if s == 62 then 0x2B          // '+'
    else 0x2F                          // '/'
  }

  /** decode_table: the sextet of an alphabet character, PadMark for '=', Invalid for
      everything else (so the base64url characters '-' and '_' are Invalid). */
  function DecodeTable(c: Byte): (v: Byte)
    ensures v == Invalid || v == PadMark || v < 64
  {
    if 0x41 <= c <= 0x5A then c - 0x41      // 'A' .. 'Z' -> 0 .. 25
    else if 0x61 <= c <= 0x7A then c - 0x47 // 'a' .. 'z' -> 26 .. 51
    else if 0x30 <= c <= 0x39 then c + 4    // '0' .. '9' -> 52 .. 61
    else if c == 0x2B then 62               // '+'
    else if c == 0x2F then 63               // '/'
    else if c == Equals then PadMark
    else Invalid
  }

  /** decode_table inverts the alphabet on the characters it accepts, and marks
      exactly '=' as padding. */
  lemma TableInvertsEncoding(c: Byte)
    ensures DecodeTable(c) < 64 ==> EncodeSextet(DecodeTable(c)) == c
    ensures DecodeTable(c) == PadMark <==> c == Equals
  {
  }

  /** `v >> n` for a signed `char` v promoted to `int` (an arithmetic shift),
      truncated back to 8 bits. */
  function Sar(v: Byte, n: bv8): (r: Byte)
    requires n < 8
    ensures r << n == v & (0xFF << n)
    ensures r >> (7 - n) == if v & 0x80 == 0 then 0 else 0xFF >> (7 - n)
  {
    if v & 0x80 == 0 then v >> n else (v >> n) | !((0xFF as Byte) >> n)
  }

  /** Byte `r` (0, 1 or 2) of the three a group of four table values a, b, c, d
      produces, as the `char` assignments of the decoding loop compute it. */
  function GroupByte(a: Byte, b: Byte, c: Byte, d: Byte, r: nat): Byte
  {
    if r == 0 then (a << 2) | Sar(b, 4)
    else if r == 1 then (b << 4) | Sar(c, 2)
    else (c << 6) | d
  }

  /** For four sextets, the three bytes are those of the 24-bit word they spell,
      most significant first. */
  lemma GroupBytesOfWord(a: Byte, b: Byte, c: Byte, d: Byte)
    requires a < 64 && b < 64 && c < 64 && d < 64
    ensures var w := ((a as bv32) << 18) | ((b as bv32) << 12) | ((c as bv32) << 6) | (d as bv32);
      && GroupByte(a, b, c, d, 0) as bv32 == w >> 16
      && GroupByte(a, b, c, d, 1) as bv32 == (w >> 8) & 0xFF
      && GroupByte(a, b, c, d, 2) as bv32 == w & 0xFF
  {
  }

  /** The table value the loop reads at position k: 0 past the end of the input. */
  function Sextet(input: seq<Byte>, k: nat): Byte
  {
    if k < |input| then DecodeTable(input[k]) else 0
  }

  /** Byte k of the output stream the loop would produce if nothing cut it short. */
  function DecodedByte(input: seq<Byte>, k: nat): Byte
  {
    GroupAt(input, k / 3, k % 3)
  }

  /** No table value of input group g is -1. */
  predicate GroupAccepted(input: seq<Byte>, g: nat)
  {
    Sextet(input, 4 * g) != Invalid && Sextet(input, 4 * g + 1) != Invalid &&
    Sextet(input, 4 * g + 2) != Invalid && Sextet(input, 4 * g + 3) != Invalid
  }

  /** Byte r of the three that input group g decodes to. */
  function GroupAt(input: seq<Byte>, g: nat, r: nat): Byte
  {
    GroupByte(Sextet(input, 4 * g), Sextet(input, 4 * g + 1), Sextet(input, 4 * g + 2), Sextet(input, 4 * g + 3), r)
  }

  /** Output bytes 3g .. 3g+2 come from input group g. */
  lemma DecodedByteAt(input: seq<Byte>, g: nat, r: nat)
    requires r < 3
    ensures DecodedByte(input, 3 * g + r) == GroupAt(input, g, r)
  {
    assert (3 * g + r) / 3 == g && (3 * g + r) % 3 == r;
  }

  /** The number of '=' among the last two input characters that end the input. */
  function Padding(input: seq<Byte>): (p: nat)
    ensures p <= 2 && p <= |input|
    ensures forall k :: |input| - p <= k < |input| ==> input[k] == Equals
    ensures p < 2 && p < |input| ==> input[|input| - 1 - p] != Equals
  {
    if |input| > 0 && input[|input| - 1] == Equals then
      if |input| > 1 && input[|input| - 2] == Equals then 2 else 1
    else 0
  }

  /** `*output_length`: three bytes per four characters, minus the padding. */
  function OutputLength(input: seq<Byte>): (n: int)
    ensures n >= -1 && (n >= 0 <==> input != [Equals] && input != [Equals, Equals])
    ensures |input| % 4 == 0 ==> n == 3 * (|input| / 4) - Padding(input)
  {
    (|input| * 3) / 4 - Padding(input)
  }

  /** What `base64_decode` returns: NULL exactly when some input character has
      table value -1; otherwise the first OutputLength bytes of the decoded stream.
      A '=' is never rejected, wherever it stands. */
  function DecodeSpec(input: seq<Byte>): Option<seq<Byte>>
    requires OutputLength(input) >= 0
  {
    if exists k :: 0 <= k < |input| && DecodeTable(input[k]) == Invalid then None
    else Some(seq(OutputLength(input), k requires 0 <= k => DecodedByte(input, k)))
  }

  /** One pass of the decoding loop, at input position i = 4g and output position
      j = 3g: reads four table values, gives up if one of them is -1 (false), and
      otherwise writes the bytes of the group that fall below the output length. */
  method DecodeGroup(input: seq<Byte>, g: nat, output: array<Byte>, outputLength: nat) returns (ok: bool)
    requires outputLength < output.Length
    modifies output
    ensures ok <==> GroupAccepted(input, g)
    ensures forall k :: 0 <= k < output.Length && !(3 * g <= k < 3 * g + 3 && k < outputLength) ==> output[k] == old(output[k])
    ensures ok ==> forall r :: 0 <= r < 3 && 3 * g + r < outputLength ==> output[3 * g + r] == GroupAt(input, g, r)
  {
    var i, j := 4 * g, 3 * g;
    var a, b, c, d := Sextet(input, i), Sextet(input, i + 1), Sextet(input, i + 2), Sextet(input, i + 3);
    if a == Invalid || b == Invalid || (c == Invalid && input[i + 2] != Equals) || (d == Invalid && input[i + 3] != Equals) {
      return false;
    }
    if j < outputLength { output[j] := GroupByte(a, b, c, d, 0); }
    if j + 1 < outputLength { output[j + 1] := GroupByte(a, b, c, d, 1); }
    if j + 2 < outputLength { output[j + 2] := GroupByte(a, b, c, d, 2); }
    return true;
  }

  /** base64_decode: walks the input in groups of four, gives up on the first group
      holding an Invalid character, and writes only below the output length; the
      terminator goes at the output length. */
  method Decode(input: seq<Byte>) returns (r: Option<seq<Byte>>)
    requires OutputLength(input) >= 0
    ensures r == DecodeSpec(input)
    ensures r.None? <==> exists k :: 0 <= k < |input| && DecodeTable(input[k]) == Invalid
    ensures r.Some? ==> |r.value| == OutputLength(input)
  {
    var inputLen := |input|;
    var padding := 0;
    if inputLen > 0 && input[inputLen - 1] == Equals {
      padding := padding + 1;
      if inputLen > 1 && input[inputLen - 2] == Equals {
        padding := padding + 1;
      }
    }
    var outputLength := (inputLen * 3) / 4 - padding;
    assert outputLength == OutputLength(input);
    var output := new Byte[outputLength + 1];
    var i, j, g := 0, 0, 0;
    while i < inputLen
      invariant i == 4 * g && j == 3 * g
      invariant i <= inputLen + 3
      invariant forall h :: 0 <= h < g ==> GroupAccepted(input, h)
      invariant forall h, r :: 0 <= h < g && 0 <= r < 3 && 3 * h + r < outputLength ==> output[3 * h + r] == GroupAt(input, h, r)
    {
      var ok := DecodeGroup(input, g, output, outputLength);
      if !ok {
        RejectedGroup(input, g);
        return None;
      }
      i, j, g := i + 4, j + 3, g + 1;
    }
    output[outputLength] := Nul;
    AcceptedGroups(input, g);
    DecodedGroups(input, output[..outputLength], g);
    r := Some(output[..outputLength]);
  }

  /** A rejected group holds a character with table value -1. */
  lemma RejectedGroup(input: seq<Byte>, g: nat)
    requires !GroupAccepted(input, g)
    ensures exists k :: 0 <= k < |input| && DecodeTable(input[k]) == Invalid
  {
    var k := if Sextet(input, 4 * g) == Invalid then 4 * g
             else if Sextet(input, 4 * g + 1) == Invalid then 4 * g + 1
             else if Sextet(input, 4 * g + 2) == Invalid then 4 * g + 2
             else 4 * g + 3;
    assert Sextet(input, k) == Invalid;
    assert k < |input| && DecodeTable(input[k]) == Invalid;
  }

  /** When every group up to the end of the input is accepted, no character is rejected. */
  lemma AcceptedGroups(input: seq<Byte>, g: nat)
    requires |input| <= 4 * g
    requires forall h :: 0 <= h < g ==> GroupAccepted(input, h)
    ensures forall k :: 0 <= k < |input| ==> DecodeTable(input[k]) != Invalid
  {
    forall k | 0 <= k < |input|
      ensures DecodeTable(input[k]) != Invalid
    {
      assert GroupAccepted(input, k / 4);
    }
  }

  /** Bytes written group by group form the decoded stream. */
  lemma DecodedGroups(input: seq<Byte>, out: seq<Byte>, g: nat)
    requires |out| <= 3 * g
    requires forall h, r :: 0 <= h < g && 0 <= r < 3 && 3 * h + r < |out| ==> out[3 * h + r] == GroupAt(input, h, r)
    ensures out == seq(|out|, k requires 0 <= k => DecodedByte(input, k))
  {
    forall k | 0 <= k < |out|
      ensures out[k] == DecodedByte(input, k)
    {
      var h, r := k / 3, k % 3;
      DecodedByteAt(input, h, r);
      assert k == 3 * h + r;
    }
  }

  /** The base64url characters '-' and '_' (section 5 of RFC 4648) are always rejected. */
  lemma RejectsUrlAlphabet(input: seq<Byte>)
    requires OutputLength(input) >= 0
    requires 0x2D in input || 0x5F in input
    ensures DecodeSpec(input) == None
  {
    var k :| 0 <= k < |input| && (input[k] == 0x2D || input[k] == 0x5F);
    assert DecodeTable(input[k]) == Invalid;
  }

  /** A '=' is never rejected, wherever it stands: text made of alphabet characters
      and '=' always decodes. */
  lemma AcceptsPaddingAnywhere(input: seq<Byte>)
    requires OutputLength(input) >= 0
    requires forall k :: 0 <= k < |input| ==> input[k] == Equals || DecodeTable(input[k]) < 64
    ensures DecodeSpec(input).Some? && |DecodeSpec(input).value| == OutputLength(input)
  {
    forall k | 0 <= k < |input|
      ensures DecodeTable(input[k]) != Invalid
    {
      if input[k] == Equals {
        assert DecodeTable(Equals) == PadMark;
      }
    }
    assert !exists k :: 0 <= k < |input| && DecodeTable(input[k]) == Invalid;
    var n := OutputLength(input);
    assert DecodeSpec(input) == Some(seq(n, k requires 0 <= k => DecodedByte(input, k)));
  }

  /** Four '=' decode to the single byte 0xFF: the -2 of '=' shifted into the output. */
  lemma OnlyPaddingDecodes()
    ensures DecodeSpec([Equals, Equals, Equals, Equals]) == Some([0xFF])
  {
    var input := [Equals, Equals, Equals, Equals];
    assert OutputLength(input) == 1;
    assert DecodedByte(input, 0) == GroupByte(PadMark, PadMark, PadMark, PadMark, 0) == 0xFF;
    assert seq(1, k requires 0 <= k => DecodedByte(input, k)) == [0xFF];
  }

  /* ---------- The reference encoder (RFC 4648, section 4, with padding) ---------- */

  function Min(x: int, y: int): int { if x < y then x else y }

  /* The four characters of a quantum x, y, z: each encodes six of its 24 bits. */
  function Char0(x: Byte): Byte { EncodeSextet(x >> 2) }
  function Char1(x: Byte, y: Byte): Byte { EncodeSextet(((x & 0x03) << 4) | (y >> 4)) }
  function Char2(y: Byte, z: Byte): Byte { EncodeSextet(((y & 0x0F) << 2) | (z >> 6)) }
  function Char3(z: Byte): Byte { EncodeSextet(z & 0x3F) }

  /** The four characters encoding one final or full quantum of 1 to 3 bytes;
      missing bytes count as zero bits and their characters become '='. */
  function EncodeQuantum(q: seq<Byte>): (e: seq<Byte>)
    requires 1 <= |q| <= 3
    ensures |e| == 4
  {
    var x := q[0];
    var y := if |q| > 1 then q[1] else 0;
    var z := if |q| > 2 then q[2] else 0;
    [Char0(x), Char1(x, y), if |q| > 1 then Char2(y, z) else Equals, if |q| > 2 then Char3(z) else Equals]
  }

  /** The padded base64 encoding of b. */
  function Encode(b: seq<Byte>): (e: seq<Byte>)
    decreases |b|
  {
    if |b| == 0 then []
    else if |b| <= 3 then EncodeQuantum(b)
    else EncodeQuantum(b[..3]) + Encode(b[3..])
  }

  lemma SliceElement<T>(s: seq<T>, lo: nat, hi: nat, i: nat)
    requires lo <= hi <= |s| && i < hi - lo
    ensures s[lo..hi][i] == s[lo + i]
  {
  }

  /** Group g of b is group g - 1 of b without its first three elements. */
  lemma DropGroup<T>(b: seq<T>, g: nat)
    requires 1 <= g && 3 * g < |b|
    ensures b[3..][3 * (g - 1) .. Min(3 * (g - 1) + 3, |b[3..]|)] == b[3 * g .. Min(3 * g + 3, |b|)]
  {
  }

  /** Past a first quantum of four characters, quantum g of x + y is quantum g - 1 of y. */
  lemma SkipQuantum<T>(x: seq<T>, y: seq<T>, g: nat)
    requires |x| == 4 && 1 <= g && 4 * g + 4 <= |x| + |y|
    ensures (x + y)[4 * g .. 4 * g + 4] == y[4 * (g - 1) .. 4 * (g - 1) + 4]
  {
  }

  /** The first four characters of a non-empty encoding encode its first quantum. */
  lemma EncodeFirst(b: seq<Byte>)
    requires 0 < |b|
    ensures 4 <= |Encode(b)|
    ensures Encode(b)[0..4] == EncodeQuantum(b[0 .. Min(3, |b|)])
  {
    if |b| > 3 {
      var x, y := EncodeQuantum(b[..3]), Encode(b[3..]);
      assert (x + y)[0..4] == x;
      assert b[0 .. Min(3, |b|)] == b[..3];
    } else {
      assert b[0 .. Min(3, |b|)] == b;
    }
  }

  /** Four characters for every group of up to three bytes. */
  lemma {:induction false} EncodeLength(b: seq<Byte>)
    ensures |Encode(b)| == 4 * ((|b| + 2) / 3)
    decreases |b|
  {
    if |b| > 3 {
      EncodeLength(b[3..]);
      assert (|b| + 2) / 3 == (|b[3..]| + 2) / 3 + 1;
    }
  }

  /** The encoding of more than three bytes starts with the quantum of the first three. */
  lemma EncodeStep(b: seq<Byte>)
    requires |b| > 3
    ensures Encode(b) == EncodeQuantum(b[..3]) + Encode(b[3..])
  {
  }

  /** Characters 4g .. 4g+3 of the encoding encode bytes 3g .. 3g+2. */
  lemma {:induction false} EncodeAt(b: seq<Byte>, g: nat)
    requires 3 * g < |b|
    ensures 4 * g + 4 <= |Encode(b)|
    ensures Encode(b)[4 * g .. 4 * g + 4] == EncodeQuantum(b[3 * g .. Min(3 * g + 3, |b|)])
  {
    if g == 0 {
      EncodeFirst(b);
    } else {
      var rest := b[3..];
      EncodeStep(b);
      EncodeAt(rest, g - 1);
      SkipQuantum(EncodeQuantum(b[..3]), Encode(rest), g);
      DropGroup(b, g);
    }
  }

  /** The character of a sextet is never '=' and decodes to that sextet. */
  lemma SextetChar(s: Byte)
    requires s < 64
    ensures EncodeSextet(s) != Equals
    ensures DecodeTable(EncodeSextet(s)) == s
  {
  }

  /** An encoded quantum holds only alphabet characters and '=', and holds '='
      exactly in the places that stand for missing bytes. */
  lemma QuantumShape(q: seq<Byte>, i: nat)
    requires 1 <= |q| <= 3 && i < 4
    ensures DecodeTable(EncodeQuantum(q)[i]) != Invalid
    ensures EncodeQuantum(q)[i] == Equals <==> i > |q|
  {
    var x := q[0];
    var y := if |q| > 1 then q[1] else 0;
    var z := if |q| > 2 then q[2] else 0;
    if i == 0 {
      SextetChar(x >> 2);
    } else if i == 1 {
      SextetChar(((x & 0x03) << 4) | (y >> 4));
    } else if i == 2 {
      SextetChar(((y & 0x0F) << 2) | (z >> 6));
    } else {
      SextetChar(z & 0x3F);
    }
  }

  /* Splitting bytes x, y, z into four sextets, encoding them, looking the characters
     up in decode_table and recombining the table values as the decoding loop does
     gives the bytes back. Byte 0 needs only the first two characters, byte 1 only
     the first three. */

  lemma FirstByteRoundTrip(x: Byte, y: Byte, c: Byte, d: Byte)
    ensures GroupByte(DecodeTable(Char0(x)), DecodeTable(Char1(x, y)), c, d, 0) == x
  {
  }

  lemma SecondByteRoundTrip(x: Byte, y: Byte, z: Byte, d: Byte)
    ensures GroupByte(DecodeTable(Char0(x)), DecodeTable(Char1(x, y)), DecodeTable(Char2(y, z)), d, 1) == y
  {
  }

  lemma ThirdByteRoundTrip(x: Byte, y: Byte, z: Byte)
    ensures GroupByte(DecodeTable(Char0(x)), DecodeTable(Char1(x, y)), DecodeTable(Char2(y, z)), DecodeTable(Char3(z)), 2) == z
  {
  }

  /** The encoding's trailing '=' stand for the bytes its last quantum lacks. */
  lemma TrailingPadding(b: seq<Byte>, last: nat)
    requires 3 * last < |b| <= 3 * last + 3
    ensures |Encode(b)| == 4 * last + 4
    ensures Padding(Encode(b)) == 3 * last + 3 - |b|
  {
    EncodeLength(b);
    GroupCount(|b|, last);
    EncodeAt(b, last);
    var q := b[3 * last .. Min(3 * last + 3, |b|)];
    SliceElement(Encode(b), 4 * last, 4 * last + 4, 2);
    SliceElement(Encode(b), 4 * last, 4 * last + 4, 3);
    QuantumShape(q, 2);
    QuantumShape(q, 3);
  }

  /** n bytes with their last group at `last` encode to last + 1 quanta. */
  lemma GroupCount(n: nat, last: nat)
    requires 3 * last < n <= 3 * last + 3
    ensures 4 * ((n + 2) / 3) == 4 * last + 4
  {
  }

  /** Character k of an encoding of n bytes lies in quantum k / 4, which encodes
      bytes starting below n. */
  lemma QuantumIndex(n: nat, k: nat)
    requires k < 4 * ((n + 2) / 3)
    ensures 3 * (k / 4) < n && 0 <= k - 4 * (k / 4) < 4
  {
  }

  /** Arithmetic of the last group of n > 0 bytes. */
  lemma LastGroup(n: nat, last: int)
    requires 0 < n && last == (n + 2) / 3 - 1
    ensures 0 <= last && 3 * last < n <= 3 * last + 3
    ensures ((4 * last + 4) * 3) / 4 == 3 * last + 3
  {
  }

  /** The encoding's length and padding give back the length of the bytes. */
  lemma EncodedOutputLength(b: seq<Byte>)
    ensures OutputLength(Encode(b)) == |b|
  {
    if |b| > 0 {
      var last := (|b| + 2) / 3 - 1;
      LastGroup(|b|, last);
      TrailingPadding(b, last);
    }
  }

  /** No character of an encoding has table value -1. */
  lemma EncodedValid(b: seq<Byte>, k: nat)
    requires k < |Encode(b)|
    ensures DecodeTable(Encode(b)[k]) != Invalid
  {
    EncodeLength(b);
    QuantumIndex(|b|, k);
    var g := k / 4;
    var i := k - 4 * g;
    EncodeAt(b, g);
    SliceElement(Encode(b), 4 * g, 4 * g + 4, i);
    QuantumShape(b[3 * g .. Min(3 * g + 3, |b|)], i);
  }

  /** Byte k of the decoded stream of an encoding is byte k of the encoded bytes. */
  lemma EncodedByte(b: seq<Byte>, k: nat)
    requires k < |b|
    ensures DecodedByte(Encode(b), k) == b[k]
  {
    var g, r := k / 3, k % 3;
    var lo, hi := 3 * g, Min(3 * g + 3, |b|);
    assert lo + r == k && k < hi;
    EncodeAt(b, g);
    SliceElement(b, lo, hi, r);
    DecodeEncodedQuantum(Encode(b), g, b[lo..hi], r);
  }

  lemma QuantumAt(e: seq<Byte>, lo: nat, quantum: seq<Byte>)
    requires lo + 4 <= |e| && e[lo .. lo + 4] == quantum
    ensures e[lo] == quantum[0] && e[lo + 1] == quantum[1] && e[lo + 2] == quantum[2] && e[lo + 3] == quantum[3]
  {
    assert e[lo .. lo + 4][0] == e[lo] && e[lo .. lo + 4][1] == e[lo + 1];
    assert e[lo .. lo + 4][2] == e[lo + 2] && e[lo .. lo + 4][3] == e[lo + 3];
  }

  /** The group of four characters that encodes quantum q decodes to q. */
  lemma DecodeEncodedQuantum(e: seq<Byte>, g: nat, q: seq<Byte>, r: nat)
    requires 1 <= |q| <= 3 && r < |q|
    requires 4 * g + 4 <= |e| && e[4 * g .. 4 * g + 4] == EncodeQuantum(q)
    ensures GroupAt(e, g, r) == q[r]
  {
    var x := q[0];
    var y := if |q| > 1 then q[1] else 0;
    var z := if |q| > 2 then q[2] else 0;
    var quantum := EncodeQuantum(q);
    QuantumAt(e, 4 * g, quantum);
    if r == 0 {
      FirstByteRoundTrip(x, y, Sextet(e, 4 * g + 2), Sextet(e, 4 * g + 3));
    } else if r == 1 {
      SecondByteRoundTrip(x, y, z, Sextet(e, 4 * g + 3));
    } else {
      ThirdByteRoundTrip(x, y, z);
    }
  }

  /** No character of an encoding is rejected. */
  lemma EncodingAccepted(b: seq<Byte>)
    ensures forall k :: 0 <= k < |Encode(b)| ==> DecodeTable(Encode(b)[k]) != Invalid
  {
    forall k | 0 <= k < |Encode(b)|
      ensures DecodeTable(Encode(b)[k]) != Invalid
    {
      EncodedValid(b, k);
    }
  }

  /** The decoded stream of an encoding starts with the encoded bytes. */
  lemma EncodingStream(b: seq<Byte>)
    ensures forall k :: 0 <= k < |b| ==> DecodedByte(Encode(b), k) == b[k]
  {
    forall k | 0 <= k < |b|
      ensures DecodedByte(Encode(b), k) == b[k]
    {
      EncodedByte(b, k);
    }
  }

  /** A stream that starts with b, cut at |b|, is b. */
  lemma StreamPrefix(e: seq<Byte>, b: seq<Byte>)
    requires forall k :: 0 <= k < |b| ==> DecodedByte(e, k) == b[k]
    ensures seq(|b|, k requires 0 <= k => DecodedByte(e, k)) == b
  {
  }

  /** Round trip: decoding the padded encoding of any bytes succeeds, has their
      length, and gives them back. */
  lemma DecodeEncode(b: seq<Byte>)
    ensures OutputLength(Encode(b)) == |b|
    ensures DecodeSpec(Encode(b)) == Some(b)
  {
    EncodedOutputLength(b);
    EncodingAccepted(b);
    EncodingStream(b);
    StreamPrefix(Encode(b), b);
  }
}
