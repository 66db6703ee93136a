/** `extract_serviceaccount_name`: the chain of leftmost `strstr`/`strchr` searches
    that digs the service-account name out of a decoded JWT payload. */
module ServiceAccount {
  import opened Bytes

  /** The three quoted keys of the path kubernetes.io / serviceaccount / name, as ASCII bytes. */
  const KubernetesKey: seq<Byte> :=   // "kubernetes.io" with its quotes
    [Quote, 0x6B, 0x75, 0x62, 0x65, 0x72, 0x6E, 0x65, 0x74, 0x65, 0x73, Dot, 0x69, 0x6F, Quote]
  const ServiceAccountKey: seq<Byte> :=   // "serviceaccount" with its quotes
    [Quote, 0x73, 0x65, 0x72, 0x76, 0x69, 0x63, 0x65, 0x61, 0x63, 0x63, 0x6F, 0x75, 0x6E, 0x74, Quote]
  const NameKey: seq<Byte> :=   // "name" with its quotes
    [Quote, 0x6E, 0x61, 0x6D, 0x65, Quote]

  /** `needle` occurs in `hay` starting at position i. */
  predicate MatchAt(hay: seq<Byte>, needle: seq<Byte>, i: nat)
  {
    i + |needle| <= |hay| && hay[i .. i + |needle|] == needle
  }

  /** `strstr(hay + from, needle)`: the leftmost occurrence of `needle` at or after `from`. */
  function Find(hay: seq<Byte>, needle: seq<Byte>, from: nat): (r: Option<nat>)
    requires from <= |hay|
    ensures r.Some? ==> from <= r.value && MatchAt(hay, needle, r.value)
    ensures r.Some? ==> forall i :: from <= i < r.value ==> !MatchAt(hay, needle, i)
    ensures r.None? ==> forall i :: from <= i <= |hay| ==> !MatchAt(hay, needle, i)
    decreases |hay| - from
  {
    if MatchAt(hay, needle, from) then Some(from)
    else if from == |hay| then None
    else Find(hay, needle, from + 1)
  }

  /** `strchr(hay + from, c)` for a non-NUL c: the leftmost c at or after `from`. */
  function FindByte(hay: seq<Byte>, c: Byte, from: nat): (r: Option<nat>)
    requires from <= |hay|
    ensures r.Some? ==> from <= r.value < |hay| && hay[r.value] == c
    ensures r.Some? ==> c !in hay[from .. r.value]
    ensures r.None? ==> c !in hay[from..]
    decreases |hay| - from
  {
    if from == |hay| then None
    else if hay[from] == c then Some(from)
    else FindByte(hay, c, from + 1)
  }

  /** The three key searches: "kubernetes.io" from the start, "serviceaccount" from
      the start of that match, "name" from the start of that one. The result is where
      the "name" key starts. */
  function FindKeys(text: seq<Byte>): (r: Option<nat>)
    ensures r.Some? ==> r.value + |NameKey| <= |text|
  {
    match Find(text, KubernetesKey, 0)
    case None => None
    case Some(k) =>
      match Find(text, ServiceAccountKey, k)
      case None => None
      case Some(s) => Find(text, NameKey, s)
  }

  /** The value search: the first ':' at or after `from`, then the text between the
      next two quotes. */
  function QuotedValue(text: seq<Byte>, from: nat): (r: Option<seq<Byte>>)
    requires from <= |text|
    ensures r.Some? ==> Quote !in r.value && (Nul !in text ==> Nul !in r.value)
  {
    match FindByte(text, Colon, from)
    case None => None
    case Some(colon) =>
      match FindByte(text, Quote, colon)
      case None => None
      case Some(q1) =>
        match FindByte(text, Quote, q1 + 1)
        case None => None
        case Some(q2) => Some(text[q1 + 1 .. q2])
  }

  /** The service-account name in the text of a C string; the ':' search starts six
      bytes (the length of the quoted "name" key) past the key's start. */
  function NameInText(text: seq<Byte>): (r: Option<seq<Byte>>)
    ensures FindKeys(text).None? ==> r.None?
    ensures r.Some? ==> Quote !in r.value && (Nul !in text ==> Nul !in r.value)
  {
    match FindKeys(text)
    case None => None
    case Some(n) => QuotedValue(text, n + |NameKey|)
  }

  /** `extract_serviceaccount_name` on a NUL-terminated buffer. */
  function ExtractName(json: seq<Byte>): (r: Option<seq<Byte>>)
    ensures r.Some? ==> Quote !in r.value && Nul !in r.value
  {
    NameInText(CString(json))
  }

  /** `name` stands between two quotes in `text`, the first of them at position q. */
  predicate QuotedAt(text: seq<Byte>, q: nat, name: seq<Byte>)
  {
    q + |name| + 1 < |text| && text[q] == Quote && text[q + 1 .. q + 1 + |name|] == name && text[q + 1 + |name|] == Quote
  }

  /** A found value holds no quote (nor a NUL when the text has none), and stands
      between two quotes that follow a ':' at or after `from`, with no quote between
      that ':' and the opening quote. */
  lemma QuotedValueShape(text: seq<Byte>, from: nat) returns (colon: nat, q: nat)
    requires from <= |text| && QuotedValue(text, from).Some?
    ensures Quote !in QuotedValue(text, from).value
    ensures Nul !in text ==> Nul !in QuotedValue(text, from).value
    ensures from <= colon < q < |text| && text[colon] == Colon && Quote !in text[colon .. q]
    ensures Colon !in text[from .. colon]
    ensures QuotedAt(text, q, QuotedValue(text, from).value)
  {
    colon := FindByte(text, Colon, from).value;
    q := FindByte(text, Quote, colon).value;
    var q2 := FindByte(text, Quote, q + 1).value;
    var name := text[q + 1 .. q2];
    assert QuotedValue(text, from).value == name;
    assert text[q + 1 .. q + 1 + |name|] == name;
  }

  /** The keys found occur in nesting order, each the leftmost from where its search started. */
  lemma FindKeysShape(text: seq<Byte>) returns (k: nat, s: nat)
    requires FindKeys(text).Some?
    ensures k <= s <= FindKeys(text).value
    ensures MatchAt(text, KubernetesKey, k) && MatchAt(text, ServiceAccountKey, s)
    ensures MatchAt(text, NameKey, FindKeys(text).value)
    ensures forall i :: 0 <= i < k ==> !MatchAt(text, KubernetesKey, i)
    ensures forall i :: k <= i < s ==> !MatchAt(text, ServiceAccountKey, i)
    ensures forall i :: s <= i < FindKeys(text).value ==> !MatchAt(text, NameKey, i)
  {
    k := Find(text, KubernetesKey, 0).value;
    s := Find(text, ServiceAccountKey, k).value;
    assert FindKeys(text) == Find(text, NameKey, s);
  }

  /** An extracted name holds no quote and no NUL, and stands between two quotes in the
      text searched: the first quote after the first ':' that follows the three keys
      in nesting order, and the next one. */
  lemma ExtractedNameIsQuoted(json: seq<Byte>)
    requires ExtractName(json).Some?
    ensures Quote !in ExtractName(json).value && Nul !in ExtractName(json).value
    ensures exists k: nat, s: nat, n: nat, colon: nat, q: nat ::
              k <= s <= n && n + |NameKey| <= colon < q && QuotedAt(CString(json), q, ExtractName(json).value) &&
              MatchAt(CString(json), KubernetesKey, k) && MatchAt(CString(json), ServiceAccountKey, s) &&
              MatchAt(CString(json), NameKey, n) && CString(json)[colon] == Colon &&
              Colon !in CString(json)[n + |NameKey| .. colon] && Quote !in CString(json)[colon .. q]
  {
    var text := CString(json);
    var n := FindKeys(text).value;
    var k, s := FindKeysShape(text);
    var colon, q := QuotedValueShape(text, n + |NameKey|);
  }

  /** Only the bytes before the first NUL are searched: whatever follows it is ignored. */
  lemma IgnoresBytesAfterNul(text: seq<Byte>, rest: seq<Byte>)
    requires Nul !in text
    ensures ExtractName(text + [Nul] + rest) == ExtractName(text)
  {
    CStringOfNulFree(text);
    CStringStopsAtNul(text, rest);
    SameText(text + [Nul] + rest, text);
  }

  lemma SameText(a: seq<Byte>, b: seq<Byte>)
    requires CString(a) == CString(b)
    ensures ExtractName(a) == ExtractName(b)
  {
  }

  lemma {:induction false} CStringStopsAtNul(text: seq<Byte>, rest: seq<Byte>)
    requires Nul !in text
    ensures CString(text + [Nul] + rest) == text
  {
    if text == [] {
      assert (text + [Nul] + rest)[0] == Nul;
    } else {
      assert (text + [Nul] + rest)[1..] == text[1..] + [Nul] + rest;
      CStringStopsAtNul(text[1..], rest);
    }
  }

  /** Without a "kubernetes.io" key before the first NUL there is no name. */
  lemma NoKubernetesKey(json: seq<Byte>)
    requires forall i :: 0 <= i <= |CString(json)| ==> !MatchAt(CString(json), KubernetesKey, i)
    ensures ExtractName(json) == None
  {
  }

  /** A "serviceaccount" key that occurs only before the first "kubernetes.io" is not
      found: the second search starts at the first key. */
  lemma ServiceAccountAfterKubernetes(json: seq<Byte>, k: nat)
    requires Find(CString(json), KubernetesKey, 0) == Some(k)
    requires forall i :: k <= i <= |CString(json)| ==> !MatchAt(CString(json), ServiceAccountKey, i)
    ensures ExtractName(json) == None
  {
  }

  /** Find returns the first match at or after `from`. */
  lemma {:induction false} FindFirst(hay: seq<Byte>, needle: seq<Byte>, from: nat, p: nat)
    requires from <= p <= |hay| && MatchAt(hay, needle, p)
    requires forall i :: from <= i < p ==> !MatchAt(hay, needle, i)
    ensures Find(hay, needle, from) == Some(p)
    decreases p - from
  {
    if from < p {
      FindFirst(hay, needle, from + 1, p);
    }
  }

  /** FindByte returns the first c at or after `from`. */
  lemma {:induction false} FindByteFirst(hay: seq<Byte>, c: Byte, from: nat, p: nat)
    requires from <= p < |hay| && hay[p] == c
    requires forall i :: from <= i < p ==> hay[i] != c
    ensures FindByte(hay, c, from) == Some(p)
    decreases p - from
  {
    if from < p {
      FindByteFirst(hay, c, from + 1, p);
    }
  }

  // ---------------------------------------------------------------------------
  // A well-formed claim yields its name

  /** `"kubernetes.io":{"serviceaccount":{"name":"` — the nested keys of a
      service-account claim up to the opening quote of the name. */
  const ClaimHead: seq<Byte> := KubernetesKey + KeyGap + ServiceAccountKey + KeyGap + NameKey + [Colon, Quote]
  /** `:{` between a key and the object it names. */
  const KeyGap: seq<Byte> := [Colon, 0x7B]

  /** Where the keys, the ':' and the opening quote stand in ClaimHead. */
  lemma ClaimHeadKeys()
    ensures |ClaimHead| == 43 && Nul !in ClaimHead
    ensures ClaimHead[0 .. 15] == KubernetesKey
    ensures ClaimHead[17 .. 33] == ServiceAccountKey
    ensures ClaimHead[35 .. 41] == NameKey
    ensures ClaimHead[41] == Colon && ClaimHead[42] == Quote
  {
    assert ClaimHead == (KubernetesKey + KeyGap) + ServiceAccountKey + (KeyGap + NameKey + [Colon, Quote]);
    assert ClaimHead == (KubernetesKey + KeyGap + ServiceAccountKey + KeyGap) + NameKey + [Colon, Quote];
  }

  /** The quotes of ClaimHead: those of the three keys and the opening one. */
  lemma ClaimHeadQuotes(d: nat)
    requires d < |ClaimHead| && ClaimHead[d] == Quote
    ensures d == 0 || d == 14 || d == 17 || d == 32 || d == 35 || d == 40 || d == 42
  {
  }

  /** A needle does not match where one of its bytes differs. */
  lemma Mismatch(hay: seq<Byte>, needle: seq<Byte>, i: nat, d: nat)
    requires d < |needle| && i + d < |hay| && hay[i + d] != needle[d]
    ensures !MatchAt(hay, needle, i)
  {
    if i + |needle| <= |hay| {
      assert hay[i .. i + |needle|][d] == hay[i + d];
    }
  }

  /** Indexing and slicing the middle part of a concatenation. */
  lemma Middle<T>(pre: seq<T>, mid: seq<T>, post: seq<T>, lo: nat, hi: nat)
    requires lo <= hi <= |mid|
    ensures (pre + mid + post)[|pre| + lo .. |pre| + hi] == mid[lo .. hi]
    ensures lo < hi ==> (pre + mid + post)[|pre| + lo] == mid[lo]
  {
  }

  /** The "kubernetes.io" search stops at ClaimHead when nothing before it holds a quote. */
  lemma FindsKubernetes(pre: seq<Byte>, tail: seq<Byte>)
    requires Quote !in pre
    ensures Find(pre + ClaimHead + tail, KubernetesKey, 0) == Some(|pre|)
  {
    var text := pre + ClaimHead + tail;
    ClaimHeadKeys();
    Middle(pre, ClaimHead, tail, 0, 15);
    forall i | 0 <= i < |pre|
      ensures !MatchAt(text, KubernetesKey, i)
    {
      assert text[i] == pre[i];
      Mismatch(text, KubernetesKey, i, 0);
    }
    FindFirst(text, KubernetesKey, 0, |pre|);
  }

  /** A quote-led key whose second byte differs from the byte after each quote of
      ClaimHead[lo..hi] matches nowhere in that range. */
  lemma NoKeyInHead(pre: seq<Byte>, tail: seq<Byte>, key: seq<Byte>, lo: nat, hi: nat)
    requires lo <= hi <= |ClaimHead| - 1 && |key| >= 2 && key[0] == Quote
    requires forall d :: lo <= d < hi && ClaimHead[d] == Quote ==> ClaimHead[d + 1] != key[1]
    ensures forall i :: |pre| + lo <= i < |pre| + hi ==> !MatchAt(pre + ClaimHead + tail, key, i)
  {
    var text := pre + ClaimHead + tail;
    forall i | |pre| + lo <= i < |pre| + hi
      ensures !MatchAt(text, key, i)
    {
      var d := i - |pre|;
      Middle(pre, ClaimHead, tail, d, d + 2);
      if ClaimHead[d] == Quote {
        Mismatch(text, key, i, 1);
      } else {
        Mismatch(text, key, i, 0);
      }
    }
  }

  /** The "serviceaccount" search from the first key stops at the second. */
  lemma FindsServiceAccount(pre: seq<Byte>, tail: seq<Byte>)
    ensures Find(pre + ClaimHead + tail, ServiceAccountKey, |pre|) == Some(|pre| + 17)
  {
    var text := pre + ClaimHead + tail;
    ClaimHeadKeys();
    Middle(pre, ClaimHead, tail, 17, 33);
    forall d | 0 <= d < 17 && ClaimHead[d] == Quote
      ensures ClaimHead[d + 1] != ServiceAccountKey[1]
    {
      ClaimHeadQuotes(d);
    }
    NoKeyInHead(pre, tail, ServiceAccountKey, 0, 17);
    FindFirst(text, ServiceAccountKey, |pre|, |pre| + 17);
  }

  /** The "name" search from the second key stops at the third. */
  lemma FindsName(pre: seq<Byte>, tail: seq<Byte>)
    ensures Find(pre + ClaimHead + tail, NameKey, |pre| + 17) == Some(|pre| + 35)
  {
    var text := pre + ClaimHead + tail;
    ClaimHeadKeys();
    Middle(pre, ClaimHead, tail, 35, 41);
    forall d | 17 <= d < 35 && ClaimHead[d] == Quote
      ensures ClaimHead[d + 1] != NameKey[1]
    {
      ClaimHeadQuotes(d);
    }
    NoKeyInHead(pre, tail, NameKey, 17, 35);
    FindFirst(text, NameKey, |pre| + 17, |pre| + 35);
  }

  /** Past the "name" key, the ':' search stops at once and the opening quote follows it. */
  lemma FindsOpeningQuote(pre: seq<Byte>, tail: seq<Byte>)
    ensures FindByte(pre + ClaimHead + tail, Colon, |pre| + 41) == Some(|pre| + 41)
    ensures FindByte(pre + ClaimHead + tail, Quote, |pre| + 41) == Some(|pre| + 42)
  {
    var text := pre + ClaimHead + tail;
    ClaimHeadKeys();
    Middle(pre, ClaimHead, tail, 41, 43);
    FindByteFirst(text, Colon, |pre| + 41, |pre| + 41);
    FindByteFirst(text, Quote, |pre| + 41, |pre| + 42);
  }

  /** A quote-free name is closed by the quote that follows it. */
  lemma FindsClosingQuote(head: seq<Byte>, name: seq<Byte>, post: seq<Byte>)
    requires Quote !in name
    ensures FindByte(head + name + [Quote] + post, Quote, |head|) == Some(|head| + |name|)
    ensures (head + name + [Quote] + post)[|head| .. |head| + |name|] == name
  {
    var text := head + name + [Quote] + post;
    assert text == head + (name + [Quote]) + post;
    Middle(head, name + [Quote], post, 0, |name| + 1);
    assert text[|head| + |name|] == Quote;
    forall i | |head| <= i < |head| + |name|
      ensures text[i] != Quote
    {
      assert text[i] == name[i - |head|];
    }
    FindByteFirst(text, Quote, |head|, |head| + |name|);
    assert text[|head| .. |head| + |name|] == (name + [Quote])[0 .. |name|];
  }

  /** Past the "name" key, the value search finds the ':' and the quoted name. */
  lemma FindsValue(pre: seq<Byte>, name: seq<Byte>, post: seq<Byte>)
    requires Quote !in name
    ensures |pre| + 41 <= |pre + ClaimHead + name + [Quote] + post|
    ensures QuotedValue(pre + ClaimHead + name + [Quote] + post, |pre| + 41) == Some(name)
  {
    var tail := name + [Quote] + post;
    var text := pre + ClaimHead + tail;
    assert text == (pre + ClaimHead) + name + [Quote] + post;
    ClaimHeadKeys();
    FindsOpeningQuote(pre, tail);
    FindsClosingQuote(pre + ClaimHead, name, post);
  }

  /** Completeness: a payload that holds the nested keys, with no quote before them,
      followed by a quoted name, yields that name. */
  lemma ExtractsClaimedName(pre: seq<Byte>, name: seq<Byte>, post: seq<Byte>)
    requires Quote !in pre && Quote !in name
    requires Nul !in pre && Nul !in name && Nul !in post
    ensures ExtractName(pre + ClaimHead + name + [Quote] + post) == Some(name)
  {
    var tail := name + [Quote] + post;
    var text := pre + ClaimHead + tail;
    assert text == pre + ClaimHead + name + [Quote] + post;
    ClaimHeadKeys();
    assert Nul !in text;
    CStringOfNulFree(text);
    FindsKubernetes(pre, tail);
    FindsServiceAccount(pre, tail);
    FindsName(pre, tail);
    FindsValue(pre, name, post);
  }

  /** The example claim `{"kubernetes.io":{"serviceaccount":{"name":"default"}}}`. */
  lemma DefaultServiceAccount()
    ensures ExtractName([0x7B] + ClaimHead + [0x64, 0x65, 0x66, 0x61, 0x75, 0x6C, 0x74] + [Quote] + [0x7D, 0x7D, 0x7D])
            == Some([0x64, 0x65, 0x66, 0x61, 0x75, 0x6C, 0x74])
  {
    ExtractsClaimedName([0x7B], [0x64, 0x65, 0x66, 0x61, 0x75, 0x6C, 0x74], [0x7D, 0x7D, 0x7D]);
  }

  // ---------------------------------------------------------------------------
  // Any claim whose keys are found first yields its name

  /** Completeness, converse of ExtractedNameIsQuoted and FindKeysShape: when the
      three keys are each the leftmost match from the previous key's start, the ':'
      is the first one past the "name" key and the name is quoted after it, the
      extractor returns that name. */
  lemma ExtractsLeftmostKeys(text: seq<Byte>, k: nat, s: nat, n: nat, colon: nat, q: nat, name: seq<Byte>)
    requires Nul !in text
    requires MatchAt(text, KubernetesKey, k) && forall i :: 0 <= i < k ==> !MatchAt(text, KubernetesKey, i)
    requires k <= s && MatchAt(text, ServiceAccountKey, s)
    requires forall i :: k <= i < s ==> !MatchAt(text, ServiceAccountKey, i)
    requires s <= n && MatchAt(text, NameKey, n) && forall i :: s <= i < n ==> !MatchAt(text, NameKey, i)
    requires n + |NameKey| <= colon < q < |text| && text[colon] == Colon && Colon !in text[n + |NameKey| .. colon]
    requires Quote !in text[colon .. q] && QuotedAt(text, q, name) && Quote !in name
    ensures ExtractName(text) == Some(name)
  {
    CStringOfNulFree(text);
    FindFirst(text, KubernetesKey, 0, k);
    FindFirst(text, ServiceAccountKey, k, s);
    FindFirst(text, NameKey, s, n);
    assert FindKeys(text) == Some(n);
    FindsQuotedValue(text, n + |NameKey|, colon, q, name);
  }

  /** Converse of QuotedValueShape: the first ':' from `from`, the first quote from it
      and a quote-free name closed by a quote give that name. */
  lemma FindsQuotedValue(text: seq<Byte>, from: nat, colon: nat, q: nat, name: seq<Byte>)
    requires from <= colon < q < |text| && text[colon] == Colon && Colon !in text[from .. colon]
    requires Quote !in text[colon .. q] && QuotedAt(text, q, name) && Quote !in name
    ensures QuotedValue(text, from) == Some(name)
  {
    assert forall i :: from <= i < colon ==> text[i] == text[from .. colon][i - from];
    FindByteFirst(text, Colon, from, colon);
    assert forall i :: colon <= i < q ==> text[i] == text[colon .. q][i - colon];
    FindByteFirst(text, Quote, colon, q);
    assert forall i :: q + 1 <= i < q + 1 + |name| ==> text[i] == name[i - q - 1];
    FindByteFirst(text, Quote, q + 1, q + 1 + |name|);
  }

  /** `key` first occurs in seg + key right after seg: no match starts inside seg. */
  predicate FirstAfter(seg: seq<Byte>, key: seq<Byte>)
  {
    forall j :: 0 <= j < |seg| ==> !MatchAt(seg + key, key, j)
  }

  /** A match that lies inside the middle part of a concatenation is a match of that part. */
  lemma MatchInMiddle(pre: seq<Byte>, mid: seq<Byte>, post: seq<Byte>, key: seq<Byte>, j: nat)
    requires j + |key| <= |mid|
    ensures MatchAt(pre + mid + post, key, |pre| + j) == MatchAt(mid, key, j)
  {
    Middle(pre, mid, post, j, j + |key|);
  }

  /** No quote of seg is directly followed by c. */
  predicate QuoteNotBefore(seg: seq<Byte>, c: Byte)
  {
    forall d :: 0 <= d < |seg| - 1 && seg[d] == Quote ==> seg[d + 1] != c
  }

  /** A quoted key cannot start inside a segment none of whose quotes is followed by
      the key's first letter (when the segment ends in a quote, the next byte is not
      that letter either). */
  lemma NoKeyInSegment(pre: seq<Byte>, seg: seq<Byte>, post: seq<Byte>, key: seq<Byte>)
    requires |key| >= 2 && key[0] == Quote && QuoteNotBefore(seg, key[1])
    requires seg != [] && seg[|seg| - 1] == Quote ==> post != [] && post[0] != key[1]
    ensures forall i :: |pre| <= i < |pre| + |seg| ==> !MatchAt(pre + seg + post, key, i)
  {
    var text := pre + seg + post;
    forall i | |pre| <= i < |pre| + |seg|
      ensures !MatchAt(text, key, i)
    {
      var d := i - |pre|;
      assert text[i] == seg[d];
      if seg[d] != Quote {
        Mismatch(text, key, i, 0);
      } else if d < |seg| - 1 {
        assert text[i + 1] == seg[d + 1];
        Mismatch(text, key, i, 1);
      } else {
        assert text[i + 1] == post[0];
        Mismatch(text, key, i, 1);
      }
    }
  }

  /** A key whose first letter follows no quote of seg first occurs after seg. */
  lemma FirstAfterQuotes(seg: seq<Byte>, key: seq<Byte>)
    requires |key| >= 2 && key[0] == Quote && key[1] != Quote && QuoteNotBefore(seg, key[1])
    ensures FirstAfter(seg, key)
  {
    NoKeyInSegment([], seg, key, key);
    assert [] + seg + key == seg + key;
  }

  /** `"serviceaccount":{"name":"` — the inner keys of a service-account claim up to
      the opening quote of the name. */
  const AccountHead: seq<Byte> := ServiceAccountKey + KeyGap + NameKey + [Colon, Quote]

  /** The quotes of the outer key and of the inner keys are followed by letters other
      than those that start the next key searched. */
  lemma KeyQuotes()
    ensures QuoteNotBefore(KubernetesKey + KeyGap, ServiceAccountKey[1])
    ensures QuoteNotBefore(ServiceAccountKey + KeyGap, NameKey[1])
    ensures Nul !in KubernetesKey + KeyGap && Nul !in AccountHead
    ensures |AccountHead| == 26 && AccountHead[24] == Colon && AccountHead[25] == Quote
  {
  }

  /** A claim laid out as in a projected service-account token: pre, then
      `"kubernetes.io":{`, then gap (other members of that object), then
      `"serviceaccount":{"name":"`, the name, its closing quote and post. */
  function NestedClaim(pre: seq<Byte>, gap: seq<Byte>, name: seq<Byte>, post: seq<Byte>): (r: seq<Byte>)
    ensures |r| == |pre| + 17 + |gap| + 26 + |name| + 1 + |post|
  {
    pre + KubernetesKey + KeyGap + gap + AccountHead + name + [Quote] + post
  }

  /** Completeness for the layout of a projected service-account token: the
      "kubernetes.io" object may hold other members (a pod with its own "name")
      before "serviceaccount", and anything may come before it, as long as the
      searched keys do not occur earlier. The pod's "name" is skipped because the
      "name" search starts at the "serviceaccount" key. */
  lemma ExtractsNestedName(pre: seq<Byte>, gap: seq<Byte>, name: seq<Byte>, post: seq<Byte>)
    requires FirstAfter(pre, KubernetesKey) && FirstAfter(gap, ServiceAccountKey)
    requires Quote !in name
    requires Nul !in pre && Nul !in gap && Nul !in name && Nul !in post
    ensures ExtractName(NestedClaim(pre, gap, name, post)) == Some(name)
  {
    var s := |pre| + 17 + |gap|;
    NulFreeClaim(pre, gap, name, post);
    OuterKey(pre, gap, name, post);
    OuterKeySkipped(pre, gap, name, post);
    InnerKey(pre, gap, name, post);
    NameAfterInnerKey(pre, gap, name, post);
    ClosingQuote(pre, gap, name, post);
    ExtractsLeftmostKeys(NestedClaim(pre, gap, name, post), |pre|, s, s + 18, s + 24, s + 25, name);
  }

  lemma NulFreeClaim(pre: seq<Byte>, gap: seq<Byte>, name: seq<Byte>, post: seq<Byte>)
    requires Nul !in pre && Nul !in gap && Nul !in name && Nul !in post
    ensures Nul !in NestedClaim(pre, gap, name, post)
  {
    KeyQuotes();
  }

  /** A key that first occurs right after seg is found there, whatever surrounds them. */
  lemma KeyAfterSegment(head: seq<Byte>, seg: seq<Byte>, key: seq<Byte>, rest: seq<Byte>)
    requires FirstAfter(seg, key)
    ensures MatchAt(head + (seg + key) + rest, key, |head| + |seg|)
    ensures forall i :: |head| <= i < |head| + |seg| ==> !MatchAt(head + (seg + key) + rest, key, i)
  {
    MatchInMiddle(head, seg + key, rest, key, |seg|);
    forall i | |head| <= i < |head| + |seg|
      ensures !MatchAt(head + (seg + key) + rest, key, i)
    {
      MatchInMiddle(head, seg + key, rest, key, i - |head|);
    }
  }

  /** The outer key is found right after pre. */
  lemma OuterKey(pre: seq<Byte>, gap: seq<Byte>, name: seq<Byte>, post: seq<Byte>)
    requires FirstAfter(pre, KubernetesKey)
    ensures MatchAt(NestedClaim(pre, gap, name, post), KubernetesKey, |pre|)
    ensures forall i :: 0 <= i < |pre| ==> !MatchAt(NestedClaim(pre, gap, name, post), KubernetesKey, i)
  {
    var rest := KeyGap + gap + AccountHead + name + [Quote] + post;
    assert NestedClaim(pre, gap, name, post) == [] + (pre + KubernetesKey) + rest;
    KeyAfterSegment([], pre, KubernetesKey, rest);
  }

  /** The "serviceaccount" search, which starts at the outer key, skips that key. */
  lemma OuterKeySkipped(pre: seq<Byte>, gap: seq<Byte>, name: seq<Byte>, post: seq<Byte>)
    ensures forall i :: |pre| <= i < |pre| + 17 ==>
      !MatchAt(NestedClaim(pre, gap, name, post), ServiceAccountKey, i)
  {
    KeyQuotes();
    var outer := KubernetesKey + KeyGap;
    var rest := gap + AccountHead + name + [Quote] + post;
    assert AccountHead == ServiceAccountKey + AccountHead[16..];
    assert outer[16] == 0x7B;
    assert NestedClaim(pre, gap, name, post) == pre + outer + rest;
    NoKeyInSegment(pre, outer, rest, ServiceAccountKey);
  }

  /** Past the outer key, the "serviceaccount" search skips the gap. */
  lemma InnerKey(pre: seq<Byte>, gap: seq<Byte>, name: seq<Byte>, post: seq<Byte>)
    requires FirstAfter(gap, ServiceAccountKey)
    ensures MatchAt(NestedClaim(pre, gap, name, post), ServiceAccountKey, |pre| + 17 + |gap|)
    ensures forall i :: |pre| + 17 <= i < |pre| + 17 + |gap| ==>
      !MatchAt(NestedClaim(pre, gap, name, post), ServiceAccountKey, i)
  {
    var head := pre + KubernetesKey + KeyGap;
    var rest := AccountHead[16..] + name + [Quote] + post;
    assert AccountHead == ServiceAccountKey + AccountHead[16..];
    assert NestedClaim(pre, gap, name, post) == head + (gap + ServiceAccountKey) + rest;
    KeyAfterSegment(head, gap, ServiceAccountKey, rest);
  }

  /** From the "serviceaccount" key, the "name" search stops at the next key, and the
      ':' and the opening quote follow it. */
  lemma NameAfterInnerKey(pre: seq<Byte>, gap: seq<Byte>, name: seq<Byte>, post: seq<Byte>)
    ensures var text, s := NestedClaim(pre, gap, name, post), |pre| + 17 + |gap|;
      && MatchAt(text, NameKey, s + 18)
      && (forall i :: s <= i < s + 18 ==> !MatchAt(text, NameKey, i))
      && s + 25 < |text| && text[s + 24] == Colon && text[s + 25] == Quote
      && Colon !in text[s + 18 + |NameKey| .. s + 24] && Quote !in text[s + 24 .. s + 25]
  {
    KeyQuotes();
    var text := NestedClaim(pre, gap, name, post);
    var head := pre + KubernetesKey + KeyGap + gap;
    var tail := name + [Quote] + post;
    assert text == head + AccountHead + tail;
    assert text == head + (ServiceAccountKey + KeyGap) + (NameKey + [Colon, Quote] + tail);
    NoKeyInSegment(head, ServiceAccountKey + KeyGap, NameKey + [Colon, Quote] + tail, NameKey);
    Middle(head, AccountHead, tail, 18, 24);
    assert AccountHead[18 .. 24] == NameKey;
    Middle(head, AccountHead, tail, 24, 25);
    Middle(head, AccountHead, tail, 25, 26);
  }

  /** The name runs from the opening quote to the next quote. */
  lemma ClosingQuote(pre: seq<Byte>, gap: seq<Byte>, name: seq<Byte>, post: seq<Byte>)
    ensures QuotedAt(NestedClaim(pre, gap, name, post), |pre| + 17 + |gap| + 25, name)
  {
    KeyQuotes();
    var head := pre + KubernetesKey + KeyGap + gap + AccountHead;
    Middle(head, name, [Quote] + post, 0, |name|);
    assert NestedClaim(pre, gap, name, post)[|head| + |name|] == Quote;
  }

  // ---------------------------------------------------------------------------
  // A projected service-account token's claims

  /** `{"aud":"api",` */
  const SampleHead: seq<Byte> := [0x7B, 0x22, 0x61, 0x75, 0x64, 0x22, 0x3A, 0x22, 0x61, 0x70, 0x69, 0x22, 0x2C]
  /** `"pod":{"name":"web-0"},` — a pod whose own "name" comes first */
  const SampleGap: seq<Byte> :=
    [0x22, 0x70, 0x6F, 0x64, 0x22, 0x3A, 0x7B, 0x22, 0x6E, 0x61, 0x6D, 0x65,
     0x22, 0x3A, 0x22, 0x77, 0x65, 0x62, 0x2D, 0x30, 0x22, 0x7D, 0x2C]
  /** `builder` */
  const SampleName: seq<Byte> := [0x62, 0x75, 0x69, 0x6C, 0x64, 0x65, 0x72]
  /** `}}}` */
  const SampleTail: seq<Byte> := [0x7D, 0x7D, 0x7D]

  /** Neither the head nor the pod's members hold the key searched next. */
  lemma SampleKeysFirst()
    ensures FirstAfter(SampleHead, KubernetesKey) && FirstAfter(SampleGap, ServiceAccountKey)
  {
    assert QuoteNotBefore(SampleHead, KubernetesKey[1]);
    FirstAfterQuotes(SampleHead, KubernetesKey);
    assert QuoteNotBefore(SampleGap, ServiceAccountKey[1]);
    FirstAfterQuotes(SampleGap, ServiceAccountKey);
  }

  lemma SampleNulFree()
    ensures Nul !in SampleHead && Nul !in SampleGap && Nul !in SampleName && Nul !in SampleTail
    ensures Quote !in SampleName
  {
  }

  /** The payload `{"aud":"api","kubernetes.io":{"pod":{"name":"web-0"},
      "serviceaccount":{"name":"builder"}}}`
      yields the service account's name "builder", not the pod's "web-0". */
  lemma ProjectedTokenClaim()
    ensures ExtractName(NestedClaim(SampleHead, SampleGap, SampleName, SampleTail)) == Some(SampleName)
  {
    SampleKeysFirst();
    SampleNulFree();
    ExtractsNestedName(SampleHead, SampleGap, SampleName, SampleTail);
  }
}
