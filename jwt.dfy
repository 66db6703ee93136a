/** `decode_jwt_and_extract_name`: pick the payload field of a compact JWT
    (section 7.1 of RFC 7515) with strtok_r, restore its base64 padding, decode it and
    look for the service-account name. */
module Jwt {
  import opened Bytes
  import Base64
  import ServiceAccount

  /** What one call reports, one constructor per branch of its log output. */
  datatype Outcome =
    | InvalidFormat                              // no payload field
    | DecodeFailed                               // base64_decode returned NULL
    | NameNotFound                               // the extractor returned NULL
    | Found(name: seq<Byte>, token: seq<Byte>)   // the name, then the whole token

  // ---------------------------------------------------------------------------
  // strtok_r(…, ".")

  /** strtok_r's skip over leading delimiters: the first non-'.' at or after i. */
  function SkipDots(s: seq<Byte>, i: nat): (r: nat)
    requires i <= |s|
    ensures i <= r <= |s| && (r == |s| || s[r] != Dot)
    ensures forall k :: i <= k < r ==> s[k] == Dot
    decreases |s| - i
  {
    if i == |s| || s[i] != Dot then i else SkipDots(s, i + 1)
  }

  /** The end of the field that starts at i: the first '.' at or after i, or the end. */
  function FieldEnd(s: seq<Byte>, i: nat): (r: nat)
    requires i <= |s|
    ensures i <= r <= |s| && (r == |s| || s[r] == Dot)
    ensures Dot !in s[i .. r]
    decreases |s| - i
  {
    if i == |s| || s[i] == Dot then i else FieldEnd(s, i + 1)
  }

  /** The token the second strtok_r call returns: the first call skips leading dots,
      takes the header up to the next '.' and resumes past it (or at the end); the
      second skips dots again and takes the next field. */
  function Payload(token: seq<Byte>): (r: Option<seq<Byte>>)
    ensures r.Some? ==> r.value != [] && Dot !in r.value
  {
    var a := SkipDots(token, 0);
    if a == |token| then None
    else
      var b := SkipDots(token, Resume(token, a));
      if b == |token| then None else Some(token[b .. FieldEnd(token, b)])
  }

  /** The fields of s between its dots, empty ones included. */
  function Split(s: seq<Byte>): (r: seq<seq<Byte>>)
    ensures |r| >= 1
  {
    if s == [] then [[]]
    else
      var rest := Split(s[1..]);
      if s[0] == Dot then [[]] + rest else [[s[0]] + rest[0]] + rest[1..]
  }

  /** The non-empty members of fs, in order. */
  function NonEmpty(fs: seq<seq<Byte>>): seq<seq<Byte>>
  {
    if |fs| == 0 then [] else (if |fs[0]| == 0 then [] else [fs[0]]) + NonEmpty(fs[1..])
  }

  /** Leading dots produce only empty fields. */
  lemma {:induction false} SplitDots(s: seq<Byte>, i: nat)
    requires i <= |s|
    ensures NonEmpty(Split(s[i..])) == NonEmpty(Split(s[SkipDots(s, i)..]))
    decreases |s| - i
  {
    if i < |s| && s[i] == Dot {
      assert s[i..][1..] == s[i + 1..];
      SplitDots(s, i + 1);
    }
  }

  /** A dot-free run s[i..e] that ends at a '.' or at the end starts the first field. */
  lemma {:induction false} SplitRun(s: seq<Byte>, i: nat, e: nat)
    requires i <= e <= |s| && Dot !in s[i .. e]
    ensures Split(s[i..]) == [s[i .. e] + Split(s[e..])[0]] + Split(s[e..])[1..]
    decreases e - i
  {
    var rest := Split(s[e..]);
    if i < e {
      assert s[i] == s[i .. e][0];
      assert s[i..][1..] == s[i + 1..];
      assert s[i + 1 .. e] == s[i .. e][1..];
      SplitRun(s, i + 1, e);
      var tail := Split(s[i + 1..]);
      assert tail[0] == s[i + 1 .. e] + rest[0] && tail[1..] == rest[1..];
      assert Split(s[i..]) == [[s[i]] + tail[0]] + tail[1..];
      assert [s[i]] + (s[i + 1 .. e] + rest[0]) == s[i .. e] + rest[0];
    } else {
      assert s[i .. e] == [] && s[i .. e] + rest[0] == rest[0];
      assert rest == [rest[0]] + rest[1..];
    }
  }

  /** Where a strtok_r call whose token starts at a leaves off: past the '.' that
      ends the token, or at the end. */
  function Resume(s: seq<Byte>, a: nat): (r: nat)
    requires a <= |s|
    ensures a <= r <= |s|
    ensures r < |s| ==> a < r && s[r - 1] == Dot && Dot !in s[a .. r - 1]
    ensures r == |s| && a < |s| ==> Dot !in s[a .. |s| - 1]
  {
    var e := FieldEnd(s, a);
    if e == |s| then e else e + 1
  }

  lemma NonEmptyCons(w: seq<Byte>, fs: seq<seq<Byte>>)
    ensures NonEmpty([w] + fs) == (if |w| == 0 then [] else [w]) + NonEmpty(fs)
  {
    assert ([w] + fs)[0] == w && ([w] + fs)[1..] == fs;
  }

  /** The first field of a non-empty run, when the run ends at a '.' or at the end. */
  lemma RunThenRest(s: seq<Byte>, a: nat, e: nat)
    requires a < e <= |s| && Dot !in s[a .. e] && (e == |s| || s[e] == Dot)
    ensures e == |s| ==> Split(s[a..]) == [s[a .. e]]
    ensures e < |s| ==> Split(s[a..]) == [s[a .. e]] + Split(s[e + 1..])
  {
    SplitRun(s, a, e);
    var rest := Split(s[e..]);
    if e == |s| {
      assert s[e..] == [];
      assert rest == [[]];
    } else {
      assert s[e..][1..] == s[e + 1..];
      assert rest == [[]] + Split(s[e + 1..]);
    }
    assert s[a .. e] + rest[0] == s[a .. e];
  }

  /** No field is left after the end. */
  lemma NoFieldsAtEnd(s: seq<Byte>)
    ensures NonEmpty(Split(s[|s|..])) == []
  {
    assert s[|s|..] == [];
    assert Split(s[|s|..]) == [[]];
    NonEmptyCons([], []);
  }

  /** From a non-'.' at a, the non-empty fields are the field at a, then those past
      the '.' that ends it. */
  lemma FieldThenRest(s: seq<Byte>, a: nat)
    requires a < |s| && s[a] != Dot
    ensures NonEmpty(Split(s[a..])) == [s[a .. FieldEnd(s, a)]] + NonEmpty(Split(s[Resume(s, a)..]))
  {
    var e := FieldEnd(s, a);
    assert s[a .. e][0] == s[a];
    RunThenRest(s, a, e);
    if e == |s| {
      LastField(s, a, e);
    } else {
      FieldBeforeDot(s, a, e);
    }
  }

  lemma LastField(s: seq<Byte>, a: nat, e: nat)
    requires a < e == |s| == FieldEnd(s, a) && Split(s[a..]) == [s[a .. e]] && s[a .. e] != []
    ensures NonEmpty(Split(s[a..])) == [s[a .. e]] + NonEmpty(Split(s[Resume(s, a)..]))
  {
    var w := s[a .. e];
    assert s[Resume(s, a)..] == s[|s|..];
    NoFieldsAtEnd(s);
    NonEmptyCons(w, []);
    assert [w] + [] == [w];
  }

  lemma FieldBeforeDot(s: seq<Byte>, a: nat, e: nat)
    requires a < e < |s| && e == FieldEnd(s, a)
    requires Split(s[a..]) == [s[a .. e]] + Split(s[e + 1..]) && s[a .. e] != []
    ensures NonEmpty(Split(s[a..])) == [s[a .. e]] + NonEmpty(Split(s[Resume(s, a)..]))
  {
    var later := s[e + 1..];
    assert s[Resume(s, a)..] == later;
    NonEmptyCons(s[a .. e], Split(later));
  }

  /** The non-empty fields from i on: none when only dots remain, otherwise the token
      a strtok_r call from i returns, then those from where it resumes. */
  lemma FirstField(s: seq<Byte>, i: nat)
    requires i <= |s|
    ensures var a := SkipDots(s, i);
            (a == |s| ==> NonEmpty(Split(s[i..])) == []) &&
            (a < |s| ==> NonEmpty(Split(s[i..])) == [s[a .. FieldEnd(s, a)]] + NonEmpty(Split(s[Resume(s, a)..])))
  {
    var a := SkipDots(s, i);
    SplitDots(s, i);
    if a == |s| {
      assert s[a..] == [];
    } else {
      FieldThenRest(s, a);
    }
  }

  /** strtok_r's payload is the second non-empty field of the token split at its dots,
      and there is none when the token has fewer than two such fields. */
  lemma PayloadIsSecondField(token: seq<Byte>)
    ensures var f := NonEmpty(Split(token));
            Payload(token) == if |f| >= 2 then Some(f[1]) else None
  {
    assert token[0..] == token;
    FirstField(token, 0);
    var a := SkipDots(token, 0);
    if a < |token| {
      FirstField(token, Resume(token, a));
    }
  }

  // ---------------------------------------------------------------------------
  // Re-padding

  /** `(4 - (payload_len % 4)) % 4`: the '=' that bring a length to a multiple of four. */
  function PadCount(n: nat): (k: nat)
    ensures k < 4 && (n + k) % 4 == 0
  {
    (4 - n % 4) % 4
  }

  /** The payload followed by PadCount copies of '='. */
  function Padded(payload: seq<Byte>): seq<Byte>
  {
    payload + seq(PadCount(|payload|), _ => Equals)
  }

  /** A non-empty payload pads to a positive multiple of four that keeps the payload
      and adds only '='; so the decoder's output length is not negative. */
  lemma PaddedShape(payload: seq<Byte>)
    requires payload != []
    ensures |Padded(payload)| % 4 == 0 && 4 <= |Padded(payload)| < |payload| + 4
    ensures Padded(payload)[..|payload|] == payload
    ensures forall k :: |payload| <= k < |Padded(payload)| ==> Padded(payload)[k] == Equals
    ensures Base64.OutputLength(Padded(payload)) >= 0
  {
  }

  /** `strcpy` then the `strcat(padded_payload, "=")` loop, in a buffer of
      payload_len + padding_needed + 1 bytes; strcat appends at the terminator. */
  method PadPayload(payload: seq<Byte>) returns (padded: seq<Byte>)
    ensures padded == Padded(payload)
  {
    var needed := (4 - |payload| % 4) % 4;
    var buffer := new Byte[|payload| + needed + 1];
    for k := 0 to |payload|
      invariant buffer[..k] == payload[..k]
    {
      buffer[k] := payload[k];
    }
    buffer[|payload|] := Nul;
    var len := |payload|;
    for i := 0 to needed
      invariant len == |payload| + i
      invariant buffer[..len] == Padded(payload)[..len]
    {
      buffer[len] := Equals;
      buffer[len + 1] := Nul;
      len := len + 1;
    }
    padded := buffer[..len];
  }

  /** An encoding with its trailing '=' removed, as JWTs carry their fields. */
  function Unpadded(e: seq<Byte>): (u: seq<Byte>)
  {
    e[..|e| - Base64.Padding(e)]
  }

  /** Re-padding undoes the removal for any text whose length is a multiple of four. */
  lemma Repad(e: seq<Byte>)
    requires |e| % 4 == 0
    ensures Padded(Unpadded(e)) == e
  {
    var p := Base64.Padding(e);
    assert PadCount(|e| - p) == p;
    assert Padded(Unpadded(e)) == e[..|e| - p] + seq(p, _ => Equals);
  }

  // ---------------------------------------------------------------------------
  // The whole call

  /** What decode_jwt_and_extract_name reports for a token. */
  function DecodeOutcome(token: seq<Byte>): (r: Outcome)
    ensures r == InvalidFormat <==> Payload(token).None?
    ensures r.Found? ==> r.token == token && Quote !in r.name && Nul !in r.name
  {
    match Payload(token)
    case None => InvalidFormat
    case Some(payload) =>
      PaddedShape(payload);
      match Base64.DecodeSpec(Padded(payload))
      case None => DecodeFailed
      case Some(json) =>
        match ServiceAccount.ExtractName(json)
        case None => NameNotFound
        case Some(name) =>
          ServiceAccount.ExtractedNameIsQuoted(json);
          Found(name, token)
  }

  /** The call itself: the two strtok_r calls, the padding loop, the decoder, the extractor. */
  method DecodeJwtAndExtractName(token: seq<Byte>) returns (outcome: Outcome)
    ensures outcome == DecodeOutcome(token)
  {
    var payload := Payload(token);
    if payload.None? {
      return InvalidFormat;
    }
    var padded := PadPayload(payload.value);
    PaddedShape(payload.value);
    var decoded := Base64.Decode(padded);
    if decoded.None? {
      return DecodeFailed;
    }
    var name := ServiceAccount.ExtractName(decoded.value);
    if name.None? {
      return NameNotFound;
    }
    return Found(name.value, token);
  }

  // ---------------------------------------------------------------------------
  // End to end

  /** The field that starts at i and ends at j. */
  lemma FieldAt(s: seq<Byte>, i: nat, j: nat)
    requires i <= j <= |s| && Dot !in s[i .. j] && (j == |s| || s[j] == Dot)
    ensures FieldEnd(s, i) == j
  {
  }

  /** No character of an encoding is a '.'. */
  lemma EncodingHasNoDot(b: seq<Byte>)
    ensures Dot !in Base64.Encode(b)
  {
    Base64.EncodingAccepted(b);
    assert Base64.DecodeTable(Dot) == Base64.Invalid;
  }

  /** The payload of header.payload.signature, for a non-empty dot-free header and a
      non-empty dot-free payload. */
  lemma PayloadOfCompactToken(header: seq<Byte>, payload: seq<Byte>, signature: seq<Byte>)
    requires header != [] && Dot !in header && payload != [] && Dot !in payload
    ensures Payload(header + [Dot] + payload + [Dot] + signature) == Some(payload)
  {
    var token := header + [Dot] + payload + [Dot] + signature;
    var h, p := |header|, |payload|;
    assert token[0] == header[0];
    assert token[0 .. h] == header;
    FieldAt(token, 0, h);
    assert token[h + 1] == payload[0];
    assert token[h + 1 .. h + 1 + p] == payload;
    FieldAt(token, h + 1, h + 1 + p);
  }

  /** Stripping the padding keeps a prefix, of at least two characters when there
      are at least four. */
  lemma UnpaddedPrefix(e: seq<Byte>)
    ensures Unpadded(e) == e[..|Unpadded(e)|] && |e| - 2 <= |Unpadded(e)|
  {
  }

  lemma NotInPrefix<T>(s: seq<T>, n: nat, x: T)
    requires n <= |s| && x !in s
    ensures x !in s[..n]
  {
    assert forall k :: 0 <= k < n ==> s[..n][k] == s[k];
  }

  /** Stripping the padding of a non-empty encoding leaves a non-empty, dot-free
      field, and re-padding it restores the encoding. */
  lemma UnpaddedEncoding(json: seq<Byte>)
    requires json != []
    ensures Unpadded(Base64.Encode(json)) != [] && Dot !in Unpadded(Base64.Encode(json))
    ensures Padded(Unpadded(Base64.Encode(json))) == Base64.Encode(json)
  {
    var e := Base64.Encode(json);
    Base64.EncodeLength(json);
    assert |e| >= 4 by { assert (|json| + 2) / 3 >= 1; }
    EncodingHasNoDot(json);
    UnpaddedPrefix(e);
    NotInPrefix(e, |Unpadded(e)|, Dot);
    Repad(e);
  }

  /** A token whose payload is the unpadded standard encoding of a JSON text is
      decoded back to that text, and the outcome is what the extractor finds in it. */
  lemma ServiceAccountToken(header: seq<Byte>, json: seq<Byte>, signature: seq<Byte>)
    requires header != [] && Dot !in header && json != []
    ensures var token := header + [Dot] + Unpadded(Base64.Encode(json)) + [Dot] + signature;
            DecodeOutcome(token) ==
              match ServiceAccount.ExtractName(json)
              case None => NameNotFound
              case Some(name) => Found(name, token)
  {
    UnpaddedEncoding(json);
    PayloadOfCompactToken(header, Unpadded(Base64.Encode(json)), signature);
    Base64.DecodeEncode(json);
  }
}
