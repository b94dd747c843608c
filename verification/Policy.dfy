/** The policy document on the host: its canonical bytes, the HTTP check and the response-schema check. */
module Policy {
  import opened Options
  import opened ByteStrings
  import opened Json

  datatype Tls = RequiredAttested | PreferredAttested | UnattestedPermitted

  /** Text of a message, one byte a character. */
  function Ascii(s: string): (b: Bytes)
    ensures |b| == |s|
  {
    seq(|s|, i requires 0 <= i < |s| => s[i] as int % 256)
  }

  // ----- URLs -----

  predicate SchemeAt(url: Bytes, i: nat) {
    i + 3 <= |url| && url[i] == 58 && url[i + 1] == 47 && url[i + 2] == 47
  }

  /** Position of the first "://" at or after i, or the length of the URL. */
  function SchemeEnd(url: Bytes, i: nat): (r: nat)
    requires i <= |url|
    ensures i <= r <= |url|
    ensures r < |url| ==> SchemeAt(url, r)
    ensures forall j | i <= j < r :: !SchemeAt(url, j)
    decreases |url| - i
  {
    if i == |url| || SchemeAt(url, i) then i else SchemeEnd(url, i + 1)
  }

  /** Everything before the first occurrence of a byte. */
  function Before(s: Bytes, stop: Byte): (r: Bytes)
    ensures stop !in r && r <= s && (r == s || s[|r|] == stop)
  {
    if s == [] || s[0] == stop then [] else [s[0]] + Before(s[1..], stop)
  }

  function AfterScheme(url: Bytes): Bytes {
    var i := SchemeEnd(url, 0);
    if i < |url| then url[i + 3..] else url
  }

  /** Host part of a URL with scheme, path and port stripped. */
  function ExtractDomain(url: Bytes): Option<Bytes> {
    var host := Before(Before(AfterScheme(url), 47), 58);
    if host == [] then None else Some(host)
  }

  function DomainOf(url: Bytes): Bytes {
    match ExtractDomain(url) case Some(d) => d case None => []
  }

  lemma {:induction false} BeforeStops(host: Bytes, stop: Byte, tail: Bytes)
    requires stop !in host && (tail == [] || tail[0] == stop)
    ensures Before(host + tail, stop) == host
  {
    if host == [] {
      assert host + tail == tail;
    } else {
      assert (host + tail)[1..] == host[1..] + tail;
      BeforeStops(host[1..], stop, tail);
    }
  }

  /** A URL written as scheme, host, optional port and optional path has that host as its domain. */
  lemma DomainOfUrl(scheme: Bytes, host: Bytes, port: Bytes, path: Bytes)
    requires 58 !in scheme && 58 !in host && 47 !in host && 47 !in port
    requires port == [] || port[0] == 58
    requires path == [] || path[0] == 47
    ensures DomainOf(scheme + [58, 47, 47] + (host + port + path)) == host
  {
    var rest := host + port + path;
    var url := scheme + [58, 47, 47] + rest;
    var i := SchemeEnd(url, 0);
    assert SchemeAt(url, |scheme|);
    assert forall j | 0 <= j < |scheme| :: url[j] == scheme[j];
    assert i == |scheme|;
    assert url[i + 3..] == rest;
    assert rest == (host + port) + path;
    BeforeStops(host + port, 47, path);
    BeforeStops(host, 58, port);
  }

  function HttpTool(name: Bytes): bool { name == Ascii("http_get") || name == Ascii("http_post") }

  // ----- Verdicts -----

  datatype Verdict = Permitted | Denied(message: Bytes)

  function MethodMessage(tool: Bytes): Bytes {
    Ascii("policy: HTTP method '") + tool + Ascii("' is not in allowed_http_methods")
  }

  function DomainMessage(domain: Bytes): Bytes {
    Ascii("policy: domain '") + domain + Ascii("' is not in allowed_domains")
  }

  // ----- The document -----

  datatype OraclePolicy = OraclePolicy(
    allowedDomains: seq<Bytes>,
    allowedMethods: seq<Bytes>,
    maxToolCalls: nat,
    maxPayloadBytes: nat,
    tls: Tls,
    outputSchema: Option<Json>,
    /** In the iteration order of the hash map. */
    schemaVersions: seq<Member>)
  {
    /** Empty lists mean no restriction. */
    function CheckHttpCall(tool: Bytes, url: Bytes): Verdict {
      if allowedMethods != [] && !(exists m | m in allowedMethods :: m == tool) then Denied(MethodMessage(tool))
      else
        var domain := DomainOf(url);
        if allowedDomains != [] && !(exists d | d in allowedDomains :: d == domain) then Denied(DomainMessage(domain))
        else Permitted
    }
  }

  function TlsByte(t: Tls): Byte {
    match t
    case UnattestedPermitted => 0
    case PreferredAttested => 1
    case RequiredAttested => 2
  }

  function Itself(s: Bytes): Bytes { s }

  /** A length cast to u32, then the bytes. */
  function Blob(b: Bytes): (r: Bytes)
    ensures |r| == 4 + |b|
  {
    U32(|b|) + b
  }

  function Blobs(list: seq<Bytes>): Bytes {
    if list == [] then [] else Blob(list[0]) + Blobs(list[1..])
  }

  function StringList(list: seq<Bytes>): Bytes { U32(|list|) + Blobs(list) }

  function SchemaBytes(schema: Option<Json>): Bytes {
    match schema case None => [] case Some(v) => Print(v)
  }

  function SchemaPairs(pairs: seq<Member>): Bytes {
    if pairs == [] then [] else (Blob(pairs[0].0) + Blob(Print(pairs[0].1))) + SchemaPairs(pairs[1..])
  }

  function SchemaMap(pairs: seq<Member>): Bytes { U32(|pairs|) + SchemaPairs(pairs) }

  /** The seven sections of the canonical encoding. */
  function Canonical(p: OraclePolicy): Bytes {
    StringList(Sort(Itself, p.allowedDomains))
    + (StringList(Sort(Itself, p.allowedMethods))
       + (U64(p.maxToolCalls)
          + (U64(p.maxPayloadBytes)
             + ([TlsByte(p.tls)]
                + (Blob(SchemaBytes(p.outputSchema))
                   + SchemaMap(Sort(KeyOf, p.schemaVersions)))))))
  }

  lemma {:induction false} BlobsAppend(list: seq<Bytes>, x: Bytes)
    ensures Blobs(list + [x]) == Blobs(list) + Blob(x)
  {
    if list == [] {
      assert Blobs([x]) == Blob(x) + Blobs([]);
    } else {
      assert (list + [x])[1..] == list[1..] + [x];
      BlobsAppend(list[1..], x);
    }
  }

  lemma {:induction false} SchemaPairsAppend(pairs: seq<Member>, x: Member)
    ensures SchemaPairs(pairs + [x]) == SchemaPairs(pairs) + (Blob(x.0) + Blob(Print(x.1)))
  {
    if pairs == [] {
      assert SchemaPairs([x]) == (Blob(x.0) + Blob(Print(x.1))) + SchemaPairs([]);
    } else {
      assert (pairs + [x])[1..] == pairs[1..] + [x];
      SchemaPairsAppend(pairs[1..], x);
    }
  }

  lemma AppendBlob(out: Bytes, count: Bytes, done: Bytes, b: Bytes)
    ensures out + (count + done) + U32(|b|) + b == out + (count + (done + Blob(b)))
  {
    hide U32;
  }

  method WriteStringList(out: Bytes, list: seq<Bytes>) returns (r: Bytes)
    ensures r == out + StringList(Sort(Itself, list))
  {
    hide U32, Blob, Blobs;
    var sorted := Sort(Itself, list);
    r := out + U32(|sorted|);
    assert Blobs(sorted[..0]) == [] by { BlobsEmpty(); }
    for i := 0 to |sorted|
      invariant r == out + (U32(|sorted|) + Blobs(sorted[..i]))
    {
      var b := sorted[i];
      AppendBlob(out, U32(|sorted|), Blobs(sorted[..i]), b);
      r := r + U32(|b|) + b;
      assert sorted[..i + 1] == sorted[..i] + [b];
      BlobsAppend(sorted[..i], b);
    }
    assert sorted[..|sorted|] == sorted;
  }

  lemma BlobsEmpty()
    ensures Blobs([]) == [] && SchemaPairs([]) == []
  {}

  lemma AppendPair(out: Bytes, count: Bytes, done: Bytes, x: Bytes, y: Bytes)
    ensures out + (count + done) + U32(|x|) + x + U32(|y|) + y == out + (count + (done + (Blob(x) + Blob(y))))
  {
    hide U32;
    var r := out + (count + done);
    AppendBlob(out, count, done, x);
    AppendBlob(out, count, done + Blob(x), y);
    assert (done + Blob(x)) + Blob(y) == done + (Blob(x) + Blob(y));
  }

  method WriteSchemaMap(out: Bytes, schemas: seq<Member>) returns (r: Bytes)
    ensures r == out + SchemaMap(Sort(KeyOf, schemas))
  {
    hide U32, Blob, SchemaPairs, Print;
    var pairs := Sort(KeyOf, schemas);
    r := out + U32(|pairs|);
    assert SchemaPairs(pairs[..0]) == [] by { BlobsEmpty(); }
    for i := 0 to |pairs|
      invariant r == out + (U32(|pairs|) + SchemaPairs(pairs[..i]))
    {
      var domain, text := pairs[i].0, Print(pairs[i].1);
      AppendPair(out, U32(|pairs|), SchemaPairs(pairs[..i]), domain, text);
      r := r + U32(|domain|) + domain;
      r := r + U32(|text|) + text;
      assert pairs[..i + 1] == pairs[..i] + [pairs[i]];
      SchemaPairsAppend(pairs[..i], pairs[i]);
    }
    assert pairs[..|pairs|] == pairs;
  }

  lemma Sections(a: Bytes, b: Bytes, c: Bytes, d: Bytes, e: Bytes, n: Bytes, f: Bytes, g: Bytes)
    ensures ([] + a) + b + c + d + e + n + f + g == a + (b + (c + (d + (e + ((n + f) + g)))))
  {}

  method CanonicalBytes(p: OraclePolicy) returns (out: Bytes)
    ensures out == Canonical(p)
  {
    hide StringList, U32, U64, SchemaMap, Print, SchemaBytes;
    out := WriteStringList([], p.allowedDomains);
    out := WriteStringList(out, p.allowedMethods);
    out := out + U64(p.maxToolCalls);
    out := out + U64(p.maxPayloadBytes);
    out := out + [TlsByte(p.tls)];
    var schema := SchemaBytes(p.outputSchema);
    out := out + U32(|schema|);
    out := out + schema;
    out := WriteSchemaMap(out, p.schemaVersions);
    Sections(StringList(Sort(Itself, p.allowedDomains)), StringList(Sort(Itself, p.allowedMethods)),
             U64(p.maxToolCalls), U64(p.maxPayloadBytes), [TlsByte(p.tls)], U32(|schema|), schema,
             SchemaMap(Sort(KeyOf, p.schemaVersions)));
  }

  // ----- What the bytes determine -----

  /** Every length and count fits its 32-bit prefix, every limit fits 64 bits, and the schemas are JSON values. */
  ghost predicate Encodable(p: OraclePolicy) {
    |p.allowedDomains| < U32_LIMIT && (forall d | d in p.allowedDomains :: |d| < U32_LIMIT) &&
    |p.allowedMethods| < U32_LIMIT && (forall m | m in p.allowedMethods :: |m| < U32_LIMIT) &&
    p.maxToolCalls < U64_LIMIT && p.maxPayloadBytes < U64_LIMIT &&
    |SchemaBytes(p.outputSchema)| < U32_LIMIT && (p.outputSchema.Some? ==> Valid(p.outputSchema.value)) &&
    |p.schemaVersions| < U32_LIMIT && Valid(Object(p.schemaVersions)) &&
    (forall s | s in p.schemaVersions :: |s.0| < U32_LIMIT && |Print(s.1)| < U32_LIMIT)
  }

  /** The same policy: lists as multisets, schemas as JSON values, the schema map as a map. */
  ghost predicate Equivalent(p: OraclePolicy, q: OraclePolicy) {
    multiset(p.allowedDomains) == multiset(q.allowedDomains) &&
    multiset(p.allowedMethods) == multiset(q.allowedMethods) &&
    p.maxToolCalls == q.maxToolCalls && p.maxPayloadBytes == q.maxPayloadBytes && p.tls == q.tls &&
    SameSchema(p.outputSchema, q.outputSchema) &&
    Same(Object(p.schemaVersions), Object(q.schemaVersions))
  }

  ghost predicate SameSchema(s: Option<Json>, t: Option<Json>) {
    (s.None? && t.None?) || (s.Some? && t.Some? && Same(s.value, t.value))
  }

  lemma U32Unambiguous(x: nat, y: nat, r: Bytes, q: Bytes)
    requires x < U32_LIMIT && y < U32_LIMIT && U32(x) + r == U32(y) + q
    ensures x == y && r == q
  {
    SplitEqual(U32(x), U32(y), r, q);
    U32RoundTrip(x);
    U32RoundTrip(y);
  }

  lemma U64Unambiguous(x: nat, y: nat, r: Bytes, q: Bytes)
    requires x < U64_LIMIT && y < U64_LIMIT && U64(x) + r == U64(y) + q
    ensures x == y && r == q
  {
    SplitEqual(U64(x), U64(y), r, q);
    U64RoundTrip(x);
    U64RoundTrip(y);
  }

  lemma BlobUnambiguous(a: Bytes, b: Bytes, r: Bytes, q: Bytes)
    requires |a| < U32_LIMIT && |b| < U32_LIMIT && Blob(a) + r == Blob(b) + q
    ensures a == b && r == q
  {
    assert Blob(a) + r == U32(|a|) + (a + r) && Blob(b) + q == U32(|b|) + (b + q);
    U32Unambiguous(|a|, |b|, a + r, b + q);
    SplitEqual(a, b, r, q);
  }

  lemma BlobsCons(s: seq<Bytes>, r: Bytes)
    requires s != []
    ensures Blobs(s) + r == Blob(s[0]) + (Blobs(s[1..]) + r)
  {
    hide Blob;
  }

  lemma {:induction false} BlobsUnambiguous(s: seq<Bytes>, t: seq<Bytes>, r: Bytes, q: Bytes)
    requires |s| == |t| && Blobs(s) + r == Blobs(t) + q
    requires (forall x | x in s :: |x| < U32_LIMIT) && (forall x | x in t :: |x| < U32_LIMIT)
    ensures s == t && r == q
  {
    if s == [] {
      assert Blobs(s) + r == r && Blobs(t) + q == q;
    } else {
      BlobsCons(s, r);
      BlobsCons(t, q);
      hide Blob, Blobs;
      BlobUnambiguous(s[0], t[0], Blobs(s[1..]) + r, Blobs(t[1..]) + q);
      BlobsUnambiguous(s[1..], t[1..], r, q);
      assert s == [s[0]] + s[1..] && t == [t[0]] + t[1..];
    }
  }

  lemma StringListUnambiguous(s: seq<Bytes>, t: seq<Bytes>, r: Bytes, q: Bytes)
    requires StringList(s) + r == StringList(t) + q
    requires |s| < U32_LIMIT && |t| < U32_LIMIT
    requires (forall x | x in s :: |x| < U32_LIMIT) && (forall x | x in t :: |x| < U32_LIMIT)
    ensures s == t && r == q
  {
    assert StringList(s) + r == U32(|s|) + (Blobs(s) + r) && StringList(t) + q == U32(|t|) + (Blobs(t) + q);
    U32Unambiguous(|s|, |t|, Blobs(s) + r, Blobs(t) + q);
    BlobsUnambiguous(s, t, r, q);
  }

  ghost predicate FitPairs(s: seq<Member>) {
    |s| < U32_LIMIT && forall x | x in s :: |x.0| < U32_LIMIT && |Print(x.1)| < U32_LIMIT && Valid(x.1)
  }

  lemma {:induction false} SchemaPairsUnambiguous(s: seq<Member>, t: seq<Member>)
    requires |s| == |t| && SchemaPairs(s) == SchemaPairs(t) && FitPairs(s) && FitPairs(t)
    ensures Paired(s, t)
  {
    hide Print, Same, Paired, Valid, Blob;
    if s == [] {
      NothingPaired(s, t);
    } else {
      PairUnambiguous(s[0], t[0], SchemaPairs(s[1..]), SchemaPairs(t[1..]));
      SchemaPairsUnambiguous(s[1..], t[1..]);
      PairedCons(s, t);
    }
  }

  lemma PairUnambiguous(x: Member, y: Member, r: Bytes, q: Bytes)
    requires (Blob(x.0) + Blob(Print(x.1))) + r == (Blob(y.0) + Blob(Print(y.1))) + q
    requires |x.0| < U32_LIMIT && |Print(x.1)| < U32_LIMIT && Valid(x.1)
    requires |y.0| < U32_LIMIT && |Print(y.1)| < U32_LIMIT && Valid(y.1)
    ensures x.0 == y.0 && Same(x.1, y.1) && r == q
  {
    var u, v := Print(x.1), Print(y.1);
    assert (Blob(x.0) + Blob(u)) + r == Blob(x.0) + (Blob(u) + r);
    assert (Blob(y.0) + Blob(v)) + q == Blob(y.0) + (Blob(v) + q);
    BlobUnambiguous(x.0, y.0, Blob(u) + r, Blob(v) + q);
    BlobUnambiguous(u, v, r, q);
    CanonicalTextIsIdentity(x.1, y.1);
  }

  lemma SortKeepsStrings(list: seq<Bytes>)
    requires forall x | x in list :: |x| < U32_LIMIT
    ensures forall x | x in Sort(Itself, list) :: |x| < U32_LIMIT
  {
    forall x | x in Sort(Itself, list)
      ensures |x| < U32_LIMIT
    {
      SortElements(Itself, list, x);
    }
  }

  lemma SortKeepsPairs(p: OraclePolicy)
    requires Encodable(p)
    ensures FitPairs(Sort(KeyOf, p.schemaVersions))
  {
    forall x | x in Sort(KeyOf, p.schemaVersions)
      ensures x in p.schemaVersions
    {
      SortElements(KeyOf, p.schemaVersions, x);
    }
  }

  ghost predicate FitStrings(s: seq<Bytes>) { |s| < U32_LIMIT && forall x | x in s :: |x| < U32_LIMIT }

  /** Sections one to five, followed by anything. */
  ghost function Head(d: seq<Bytes>, m: seq<Bytes>, calls: nat, payload: nat, tls: Byte, rest: Bytes): Bytes {
    StringList(d) + (StringList(m) + (U64(calls) + (U64(payload) + ([tls] + rest))))
  }

  lemma HeadUnambiguous(d: seq<Bytes>, m: seq<Bytes>, calls: nat, payload: nat, tls: Byte, rest: Bytes,
                        d': seq<Bytes>, m': seq<Bytes>, calls': nat, payload': nat, tls': Byte, rest': Bytes)
    requires Head(d, m, calls, payload, tls, rest) == Head(d', m', calls', payload', tls', rest')
    requires FitStrings(d) && FitStrings(m) && FitStrings(d') && FitStrings(m')
    requires calls < U64_LIMIT && payload < U64_LIMIT && calls' < U64_LIMIT && payload' < U64_LIMIT
    ensures d == d' && m == m' && calls == calls' && payload == payload' && tls == tls' && rest == rest'
  {
    hide StringList, U64;
    var r5, r5' := [tls] + rest, [tls'] + rest';
    var r4, r4' := U64(payload) + r5, U64(payload') + r5';
    var r3, r3' := U64(calls) + r4, U64(calls') + r4';
    StringListUnambiguous(d, d', StringList(m) + r3, StringList(m') + r3');
    StringListUnambiguous(m, m', r3, r3');
    U64Unambiguous(calls, calls', r4, r4');
    U64Unambiguous(payload, payload', r5, r5');
    SplitEqual([tls], [tls'], rest, rest');
  }

  ghost function Tail(p: OraclePolicy): Bytes {
    Blob(SchemaBytes(p.outputSchema)) + SchemaMap(Sort(KeyOf, p.schemaVersions))
  }

  lemma CanonicalHead(p: OraclePolicy)
    requires Encodable(p)
    ensures FitStrings(Sort(Itself, p.allowedDomains)) && FitStrings(Sort(Itself, p.allowedMethods))
    ensures Canonical(p) == Head(Sort(Itself, p.allowedDomains), Sort(Itself, p.allowedMethods),
                                 p.maxToolCalls, p.maxPayloadBytes, TlsByte(p.tls), Tail(p))
  {
    SortKeepsStrings(p.allowedDomains);
    SortKeepsStrings(p.allowedMethods);
    hide StringList, U64, Blob, SchemaBytes, SchemaMap, TlsByte;
  }

  /** Equal bytes come only from equivalent policies. */
  lemma CanonicalInjective(p: OraclePolicy, q: OraclePolicy)
    requires Encodable(p) && Encodable(q) && Canonical(p) == Canonical(q)
    ensures Equivalent(p, q)
  {
    hide Canonical, Head, Same, Sort, Tail;
    CanonicalHead(p);
    CanonicalHead(q);
    HeadUnambiguous(Sort(Itself, p.allowedDomains), Sort(Itself, p.allowedMethods),
                    p.maxToolCalls, p.maxPayloadBytes, TlsByte(p.tls), Tail(p),
                    Sort(Itself, q.allowedDomains), Sort(Itself, q.allowedMethods),
                    q.maxToolCalls, q.maxPayloadBytes, TlsByte(q.tls), Tail(q));
    TailUnambiguous(p, q);
  }

  lemma TailUnambiguous(p: OraclePolicy, q: OraclePolicy)
    requires Encodable(p) && Encodable(q) && Tail(p) == Tail(q)
    ensures SameSchema(p.outputSchema, q.outputSchema)
    ensures Same(Object(p.schemaVersions), Object(q.schemaVersions))
  {
    BlobUnambiguous(SchemaBytes(p.outputSchema), SchemaBytes(q.outputSchema),
                    SchemaMap(Sort(KeyOf, p.schemaVersions)), SchemaMap(Sort(KeyOf, q.schemaVersions)));
    SchemaEqual(p.outputSchema, q.outputSchema);
    SchemaMapEqual(p, q);
  }

  lemma SchemaEqual(s: Option<Json>, t: Option<Json>)
    requires (s.Some? ==> Valid(s.value)) && (t.Some? ==> Valid(t.value))
    ensures SchemaBytes(s) == SchemaBytes(t) <==> SameSchema(s, t)
  {
    if s.Some? { CanonicalTextNotEmpty(s.value); }
    if t.Some? { CanonicalTextNotEmpty(t.value); }
    if s.Some? && t.Some? { CanonicalTextIsIdentity(s.value, t.value); }
  }

  lemma SchemaMapEqual(p: OraclePolicy, q: OraclePolicy)
    requires Encodable(p) && Encodable(q)
    requires SchemaMap(Sort(KeyOf, p.schemaVersions)) == SchemaMap(Sort(KeyOf, q.schemaVersions))
    ensures Same(Object(p.schemaVersions), Object(q.schemaVersions))
  {
    hide SchemaPairs, Same, Print, Sort, Valid, U32, Paired, Encodable;
    var s, s' := Sort(KeyOf, p.schemaVersions), Sort(KeyOf, q.schemaVersions);
    SortKeepsPairs(p);
    SortKeepsPairs(q);
    U32Unambiguous(|s|, |s'|, SchemaPairs(s), SchemaPairs(s'));
    SchemaPairsUnambiguous(s, s');
    DistinctSchemas(p);
    DistinctSchemas(q);
    hide FitPairs;
    SameObjects(p.schemaVersions, q.schemaVersions, s, s');
  }

  lemma DistinctSchemas(p: OraclePolicy)
    requires Encodable(p)
    ensures DistinctBy(KeyOf, p.schemaVersions)
  {}

  /** Reordering the lists or the map iteration changes nothing. */
  lemma CanonicalOrderFree(p: OraclePolicy, q: OraclePolicy)
    requires Encodable(p) && Encodable(q) && Equivalent(p, q)
    ensures Canonical(p) == Canonical(q)
  {
    SortOrderFree(Itself, p.allowedDomains, q.allowedDomains);
    SortOrderFree(Itself, p.allowedMethods, q.allowedMethods);
    SchemaEqual(p.outputSchema, q.outputSchema);
    SchemaMapOrderFree(p, q);
    hide StringList, U32, U64, SchemaMap, Print, SchemaBytes, Sort;
  }

  lemma SchemaMapOrderFree(p: OraclePolicy, q: OraclePolicy)
    requires Encodable(p) && Encodable(q) && Same(Object(p.schemaVersions), Object(q.schemaVersions))
    ensures SchemaMap(Sort(KeyOf, p.schemaVersions)) == SchemaMap(Sort(KeyOf, q.schemaVersions))
  {
    hide Same, Print, Sort, Valid, U32, Paired, SchemaPairs, FitPairs, SortedBy;
    DistinctSchemas(p);
    DistinctSchemas(q);
    var s, s' := Sort(KeyOf, p.schemaVersions), Sort(KeyOf, q.schemaVersions);
    SameKeyMaps(p.schemaVersions, q.schemaVersions);
    SortSorted(KeyOf, p.schemaVersions);
    SortSorted(KeyOf, q.schemaVersions);
    DistinctPermutation(KeyOf, p.schemaVersions, s);
    DistinctPermutation(KeyOf, q.schemaVersions, s');
    SortedKeys(p.schemaVersions, s);
    SortedKeys(q.schemaVersions, s');
    SameSortedKeys(s, s');
    SamePairs(Object(p.schemaVersions), Object(q.schemaVersions), s, s');
    SortKeepsPairs(p);
    SortKeepsPairs(q);
    SamePairsSameBytes(s, s');
  }

  lemma SameKeyMaps(members: seq<Member>, others: seq<Member>)
    requires Same(Object(members), Object(others))
    ensures Keys(members) == Keys(others)
  {}

  lemma {:induction false} SamePairsSameBytes(s: seq<Member>, t: seq<Member>)
    requires FitPairs(s) && FitPairs(t) && Paired(s, t)
    ensures SchemaPairs(s) == SchemaPairs(t)
  {
    if s != [] {
      CanonicalTextIsIdentity(s[0].1, t[0].1);
      hide Print, Same, Valid, Blob;
      var s', t' := s[1..], t[1..];
      forall i | 0 <= i < |s'|
        ensures s'[i].0 == t'[i].0 && Same(s'[i].1, t'[i].1)
      {
        assert s'[i] == s[i + 1] && t'[i] == t[i + 1];
      }
      assert FitPairs(s') && FitPairs(t');
      SamePairsSameBytes(s', t');
    }
  }

  /** The canonical bytes are the policy up to order, and nothing less: two policies have the same bytes exactly when
      they are equivalent. */
  lemma CanonicalIsIdentity(p: OraclePolicy, q: OraclePolicy)
    requires Encodable(p) && Encodable(q)
    ensures Canonical(p) == Canonical(q) <==> Equivalent(p, q)
  {
    if Canonical(p) == Canonical(q) { CanonicalInjective(p, q); }
    if Equivalent(p, q) { CanonicalOrderFree(p, q); }
  }
}
