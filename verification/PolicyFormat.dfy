/** The language the strict parser accepts, written down as a format: exactly the buffers that are the seven sections
    one after the other, with any strings in any order; and, for every other buffer, what its error points at. */
module PolicyFormat {
  import opened Options
  import opened ByteStrings
  import opened Json
  import opened OutputWord
  import opened Policy
  import opened PolicyView

  /** Sections one to five: the two lists, the two limits and the TLS byte. */
  ghost function RulesBytes(v: View): Bytes {
    StringList(v.allowedDomains) + (StringList(v.allowedMethods) +
    (U64(v.maxToolCalls) + (U64(v.maxPayloadBytes) + [TlsByte(v.tls)])))
  }

  ghost predicate RulesFit(v: View) {
    FitStrings(v.allowedDomains) && FitStrings(v.allowedMethods) && v.maxToolCalls < U64_LIMIT &&
    v.maxPayloadBytes < U64_LIMIT
  }

  /** Sections six and seven: one schema, and an even number of blobs behind their number of pairs. */
  ghost function SchemasBytes(schema: Bytes, blobs: seq<Bytes>): Bytes {
    Blob(schema) + (U32(|blobs| / 2) + Blobs(blobs))
  }

  ghost predicate SchemasFit(schema: Bytes, blobs: seq<Bytes>) {
    |schema| < U32_LIMIT && |blobs| % 2 == 0 && |blobs| / 2 < U32_LIMIT && forall b | b in blobs :: |b| < U32_LIMIT
  }

  ghost predicate Formatted(buf: Bytes, v: View, schema: Bytes, blobs: seq<Bytes>) {
    RulesFit(v) && SchemasFit(schema, blobs) && buf == RulesBytes(v) + SchemasBytes(schema, blobs)
  }

  ghost predicate TextsValid(v: View, utf8: Bytes -> bool) {
    (forall s | s in v.allowedDomains :: utf8(s)) && (forall s | s in v.allowedMethods :: utf8(s))
  }

  // ----- What was read stands there -----

  lemma IntRead(buf: Bytes, pos: nat, n: nat)
    requires ReadInt(buf, pos, n).Got?
    ensures var r := ReadInt(buf, pos, n);
            r.next == pos + n <= |buf| && r.value < Pow256(n) && buf[pos..r.next] == LittleEndian(r.value, n)
  {
    var b := buf[pos..pos + n];
    EncodeDecode(b);
    DecodeBound(b);
  }

  lemma BlobRead(buf: Bytes, pos: nat)
    requires ReadBlob(buf, pos).Got?
    ensures var r := ReadBlob(buf, pos);
            pos <= r.next <= |buf| && |r.value| < U32_LIMIT && buf[pos..r.next] == Blob(r.value)
  {
    WordLimits();
    IntRead(buf, pos, 4);
    var r := ReadBlob(buf, pos);
    assert buf[pos..r.next] == buf[pos..pos + 4] + buf[pos + 4..r.next];
  }

  lemma NoBlobs()
    ensures Blobs([]) == []
  {}

  lemma NextString(buf: Bytes, pos: nat, count: nat, done: seq<Bytes>, utf8: Bytes -> bool)
    requires pos <= |buf| && ReadStrings(buf, pos, count, done, utf8).Got?
    ensures count == 0 ==> ReadStrings(buf, pos, count, done, utf8) == Got(done, pos)
    ensures count > 0 ==>
              ReadBlob(buf, pos).Got? && utf8(ReadBlob(buf, pos).value) &&
              ReadStrings(buf, pos, count, done, utf8) ==
              ReadStrings(buf, ReadBlob(buf, pos).next, count - 1, done + [ReadBlob(buf, pos).value], utf8)
  {
    hide ReadBlob;
  }

  lemma {:induction false} StringsRead(buf: Bytes, pos: nat, count: nat, done: seq<Bytes>, utf8: Bytes -> bool)
    returns (list: seq<Bytes>)
    requires pos <= |buf| && ReadStrings(buf, pos, count, done, utf8).Got?
    ensures var r := ReadStrings(buf, pos, count, done, utf8);
            pos <= r.next <= |buf| && r.value == done + list && buf[pos..r.next] == Blobs(list)
    ensures |list| == count && forall s | s in list :: |s| < U32_LIMIT && utf8(s)
    decreases count
  {
    hide ReadBlob, Blob, Blobs, ReadStrings;
    NextString(buf, pos, count, done, utf8);
    if count == 0 {
      NoBlobs();
      list := [];
    } else {
      var first := ReadBlob(buf, pos);
      BlobRead(buf, pos);
      var rest := StringsRead(buf, first.next, count - 1, done + [first.value], utf8);
      list := [first.value] + rest;
      BlobsCons(first.value, rest);
      TwoParts(buf, pos, first.next, ReadStrings(buf, pos, count, done, utf8).next);
      Regrouped(done, first.value, rest);
    }
  }

  lemma Regrouped(done: seq<Bytes>, x: Bytes, rest: seq<Bytes>)
    ensures (done + [x]) + rest == done + ([x] + rest)
  {}

  lemma BlobsCons(b: Bytes, rest: seq<Bytes>)
    ensures Blobs([b] + rest) == Blob(b) + Blobs(rest)
  {
    assert ([b] + rest)[1..] == rest;
  }

  lemma StringListRead(buf: Bytes, pos: nat, utf8: Bytes -> bool)
    requires ReadStringList(buf, pos, utf8).Got?
    ensures var r := ReadStringList(buf, pos, utf8);
            pos <= r.next <= |buf| && buf[pos..r.next] == StringList(r.value) && FitStrings(r.value) &&
            forall s | s in r.value :: utf8(s)
  {
    WordLimits();
    IntRead(buf, pos, 4);
    hide ReadInt, ReadStrings, LittleEndian, Blobs, Pow256;
    var count := ReadInt(buf, pos, 4);
    var list := StringsRead(buf, count.next, count.value, [], utf8);
    NothingBefore(list);
    TwoParts(buf, pos, count.next, ReadStringList(buf, pos, utf8).next);
  }

  lemma NothingBefore(list: seq<Bytes>)
    ensures [] + list == list
  {}

  lemma TwoParts(buf: Bytes, a: nat, b: nat, c: nat)
    requires a <= b <= c <= |buf|
    ensures buf[a..c] == buf[a..b] + buf[b..c]
  {}

  lemma {:induction false} BlobsSkipped(buf: Bytes, pos: nat, count: nat) returns (blobs: seq<Bytes>)
    requires pos <= |buf| && SkipBlobs(buf, pos, count).Got?
    ensures var r := SkipBlobs(buf, pos, count); pos <= r.next <= |buf| && buf[pos..r.next] == Blobs(blobs)
    ensures |blobs| == count && forall b | b in blobs :: |b| < U32_LIMIT
    decreases count
  {
    blobs := [];
    if count > 0 {
      var first := ReadBlob(buf, pos);
      BlobRead(buf, pos);
      hide ReadBlob, Blob, Blobs;
      var rest := BlobsSkipped(buf, first.next, count - 1);
      blobs := [first.value] + rest;
      BlobsCons(first.value, rest);
      TwoParts(buf, pos, first.next, SkipBlobs(buf, pos, count).next);
    }
  }

  lemma SchemasSkipped(buf: Bytes, pos: nat) returns (schema: Bytes, blobs: seq<Bytes>)
    requires SkipSchemas(buf, pos).Got?
    ensures var r := SkipSchemas(buf, pos);
            pos <= r.next <= |buf| && buf[pos..r.next] == SchemasBytes(schema, blobs) && SchemasFit(schema, blobs)
  {
    WordLimits();
    BlobRead(buf, pos);
    var first := ReadBlob(buf, pos);
    IntRead(buf, first.next, 4);
    var pairs := ReadInt(buf, first.next, 4);
    hide ReadBlob, ReadInt, Blob, LittleEndian, SkipBlobs, Blobs;
    schema := first.value;
    blobs := BlobsSkipped(buf, pairs.next, 2 * pairs.value);
    var end := SkipSchemas(buf, pos).next;
    assert |blobs| / 2 == pairs.value;
    ThreeParts(buf, pos, first.next, pairs.next, end);
  }

  lemma ThreeParts(buf: Bytes, a: nat, b: nat, c: nat, d: nat)
    requires a <= b <= c <= d <= |buf|
    ensures buf[a..d] == buf[a..b] + (buf[b..c] + buf[c..d])
  {}

  lemma RulesRead(buf: Bytes, utf8: Bytes -> bool)
    requires ReadRules(buf, 0, utf8).Got?
    ensures var r := ReadRules(buf, 0, utf8);
            var v := r.value;
            r.next <= |buf| && RulesFit(v) && TextsValid(v, utf8) && buf[..r.next] == RulesBytes(v)
  {
    WordLimits();
    hide ReadStringList, ReadInt, StringList, FitStrings, LittleEndian, Pow256;
    StringListRead(buf, 0, utf8);
    var d := ReadStringList(buf, 0, utf8);
    StringListRead(buf, d.next, utf8);
    var m := ReadStringList(buf, d.next, utf8);
    IntRead(buf, m.next, 8);
    var calls := ReadInt(buf, m.next, 8);
    IntRead(buf, calls.next, 8);
    var payload := ReadInt(buf, calls.next, 8);
    var end := ReadRules(buf, 0, utf8).next;
    TlsRead(buf, payload.next);
    ThreeParts(buf, m.next, calls.next, payload.next, end);
    ThreeParts(buf, 0, d.next, m.next, end);
  }

  lemma TlsRead(buf: Bytes, pos: nat)
    requires ReadByte(buf, pos).Got?
    ensures ReadByte(buf, pos).next == pos + 1 <= |buf| && buf[pos..pos + 1] == [ReadByte(buf, pos).value]
    ensures TlsOf(ReadByte(buf, pos).value).Some? ==>
              TlsByte(TlsOf(ReadByte(buf, pos).value).value) == ReadByte(buf, pos).value
  {}

  /** The parsed part of a buffer is formatted. */
  lemma ReadIsFormatted(buf: Bytes, utf8: Bytes -> bool) returns (schema: Bytes, blobs: seq<Bytes>)
    requires ReadRules(buf, 0, utf8).Got? && SkipSchemas(buf, ReadRules(buf, 0, utf8).next).Got?
    ensures var v, end := ReadRules(buf, 0, utf8).value, SkipSchemas(buf, ReadRules(buf, 0, utf8).next).next;
            end <= |buf| && Formatted(buf[..end], v, schema, blobs) && TextsValid(v, utf8)
  {
    hide *;
    RulesRead(buf, utf8);
    var rules := ReadRules(buf, 0, utf8);
    schema, blobs := SchemasSkipped(buf, rules.next);
    Front(buf, rules.next, SkipSchemas(buf, rules.next).next);
    Assemble(rules.value, schema, blobs);
  }

  lemma Front(buf: Bytes, b: nat, c: nat)
    requires b <= c <= |buf|
    ensures buf[..c] == buf[..b] + buf[b..c]
  {}

  lemma Assemble(v: View, schema: Bytes, blobs: seq<Bytes>)
    requires RulesFit(v) && SchemasFit(schema, blobs)
    ensures Formatted(RulesBytes(v) + SchemasBytes(schema, blobs), v, schema, blobs)
  {}

  // ----- What stands there is read -----

  lemma {:induction false} SkipBlobsAt(buf: Bytes, pos: nat, blobs: seq<Bytes>)
    requires At(buf, pos, Blobs(blobs)) && forall b | b in blobs :: |b| < U32_LIMIT
    ensures SkipBlobs(buf, pos, |blobs|) == Got((), pos + |Blobs(blobs)|)
    decreases |blobs|
  {
    hide At, Blob, LittleEndian, ReadBlob;
    if blobs != [] {
      AtSplit(buf, pos, Blob(blobs[0]), Blobs(blobs[1..]));
      BlobAt(buf, pos, blobs[0]);
      SkipBlobsAt(buf, pos + |Blob(blobs[0])|, blobs[1..]);
    }
  }

  lemma SkipSchemasAt(buf: Bytes, pos: nat, schema: Bytes, blobs: seq<Bytes>)
    requires At(buf, pos, SchemasBytes(schema, blobs)) && SchemasFit(schema, blobs)
    ensures SkipSchemas(buf, pos) == Got((), pos + |SchemasBytes(schema, blobs)|)
  {
    hide At, Blob, LittleEndian, ReadBlob, ReadInt, Blobs, SkipBlobs;
    AtSplit(buf, pos, Blob(schema), U32(|blobs| / 2) + Blobs(blobs));
    BlobAt(buf, pos, schema);
    var p := pos + |Blob(schema)|;
    AtSplit(buf, p, U32(|blobs| / 2), Blobs(blobs));
    WordLimits();
    IntAt(buf, p, |blobs| / 2, 4);
    SkipBlobsAt(buf, p + 4, blobs);
  }

  lemma FormattedIsAccepted(buf: Bytes, v: View, schema: Bytes, blobs: seq<Bytes>, utf8: Bytes -> bool)
    requires Formatted(buf, v, schema, blobs) && TextsValid(v, utf8)
    ensures Parse(buf, utf8) == Ok(v)
  {
    var rest, d, m := SchemasBytes(schema, blobs), v.allowedDomains, v.allowedMethods;
    HeadIs(v, rest);
    hide Parse, ReadRules, StringList, SkipSchemas, At, FitStrings, Blob, Blobs, TlsByte, Head, SchemasBytes;
    AtWhole(buf);
    HeadLength(d, m, v.maxToolCalls, v.maxPayloadBytes, TlsByte(v.tls), rest);
    RulesAt(buf, d, m, v.maxToolCalls, v.maxPayloadBytes, v.tls, rest, utf8);
    var pos := |StringList(d)| + |StringList(m)| + 17;
    SkipSchemasAt(buf, pos, schema, blobs);
    ParseOf(buf, utf8, v, pos);
  }

  lemma HeadIs(v: View, rest: Bytes)
    ensures RulesBytes(v) + rest ==
            Head(v.allowedDomains, v.allowedMethods, v.maxToolCalls, v.maxPayloadBytes, TlsByte(v.tls), rest)
  {
    hide StringList, LittleEndian, TlsByte;
    Joined(StringList(v.allowedDomains), StringList(v.allowedMethods), U64(v.maxToolCalls), U64(v.maxPayloadBytes),
           [TlsByte(v.tls)], rest);
  }

  lemma Joined(a: Bytes, b: Bytes, c: Bytes, d: Bytes, e: Bytes, rest: Bytes)
    ensures (a + (b + (c + (d + e)))) + rest == a + (b + (c + (d + (e + rest))))
  {}

  /** Strict parsing, exactly: a buffer gives a view if and only if it is formatted with it, all texts being UTF-8. */
  lemma AcceptedExactly(buf: Bytes, v: View, utf8: Bytes -> bool)
    ensures Parse(buf, utf8) == Ok(v) <==>
            TextsValid(v, utf8) && exists schema, blobs :: Formatted(buf, v, schema, blobs)
  {
    hide ReadRules, SkipSchemas, Formatted, TextsValid;
    if Parse(buf, utf8) == Ok(v) {
      var schema, blobs := ReadIsFormatted(buf, utf8);
      assert buf[..|buf|] == buf;
    }
    if schema, blobs :| TextsValid(v, utf8) && Formatted(buf, v, schema, blobs) {
      FormattedIsAccepted(buf, v, schema, blobs, utf8);
    }
  }

  // ----- What an error points at -----

  /** A truncated integer starts in the buffer and ends behind it; an overrun is a length prefix that promises more than
      there is; a text that is not UTF-8 stands behind its length prefix; the TLS byte is none of the three; and in
      front of trailing bytes stands an accepted buffer. */
  ghost predicate PointsAt(buf: Bytes, e: ParseError, utf8: Bytes -> bool) {
    match e
    case Truncated(at) => at <= |buf| < at + 8
    case LengthOverrun(at, len) => 4 <= at <= |buf| < at + len && len < U32_LIMIT && At(buf, at - 4, U32(len))
    case NotUtf8(at) => 4 <= at && exists s: Bytes :: At(buf, at - 4, Blob(s)) && !utf8(s)
    case BadTlsRequirement(b) => b > 2 && b in buf
    case TrailingBytes(extra) => 0 < extra <= |buf| && Parse(buf[..|buf| - extra], utf8).Ok?
  }

  lemma IntBad(buf: Bytes, pos: nat, n: nat, utf8: Bytes -> bool)
    requires pos <= |buf| && n <= 8 && ReadInt(buf, pos, n).Bad?
    ensures PointsAt(buf, ReadInt(buf, pos, n).error, utf8)
  {}

  lemma BlobBad(buf: Bytes, pos: nat, utf8: Bytes -> bool)
    requires pos <= |buf| && ReadBlob(buf, pos).Bad?
    ensures PointsAt(buf, ReadBlob(buf, pos).error, utf8)
  {
    WordLimits();
    if ReadInt(buf, pos, 4).Bad? { IntBad(buf, pos, 4, utf8); } else { IntRead(buf, pos, 4); }
    hide ReadInt, LittleEndian, Pow256;
  }

  lemma StringBad(buf: Bytes, pos: nat, utf8: Bytes -> bool)
    requires pos <= |buf| && ReadString(buf, pos, utf8).Bad?
    ensures PointsAt(buf, ReadString(buf, pos, utf8).error, utf8)
  {
    hide Parse;
    if ReadBlob(buf, pos).Bad? {
      BlobBad(buf, pos, utf8);
    } else {
      BlobRead(buf, pos);
      hide ReadBlob;
      var r := ReadBlob(buf, pos);
      assert At(buf, pos, Blob(r.value)) && r.next - |r.value| - 4 == pos;
    }
  }

  lemma {:induction false} StringsBad(buf: Bytes, pos: nat, count: nat, done: seq<Bytes>, utf8: Bytes -> bool)
    requires pos <= |buf| && ReadStrings(buf, pos, count, done, utf8).Bad?
    ensures PointsAt(buf, ReadStrings(buf, pos, count, done, utf8).error, utf8)
    decreases count
  {
    hide ReadString, PointsAt;
    var r := ReadString(buf, pos, utf8);
    if r.Bad? { StringBad(buf, pos, utf8); } else { StringsBad(buf, r.next, count - 1, done + [r.value], utf8); }
  }

  lemma StringListBad(buf: Bytes, pos: nat, utf8: Bytes -> bool)
    requires pos <= |buf| && ReadStringList(buf, pos, utf8).Bad?
    ensures PointsAt(buf, ReadStringList(buf, pos, utf8).error, utf8)
  {
    hide ReadInt, ReadStrings, PointsAt;
    var r := ReadInt(buf, pos, 4);
    if r.Bad? { IntBad(buf, pos, 4, utf8); } else { StringsBad(buf, r.next, r.value, [], utf8); }
  }

  lemma ByteBad(buf: Bytes, pos: nat, utf8: Bytes -> bool)
    requires pos <= |buf|
    ensures ReadByte(buf, pos).Bad? ==> PointsAt(buf, ReadByte(buf, pos).error, utf8)
    ensures ReadByte(buf, pos).Got? && TlsOf(ReadByte(buf, pos).value).None? ==>
              PointsAt(buf, BadTlsRequirement(ReadByte(buf, pos).value), utf8)
  {}

  lemma RulesBad(buf: Bytes, utf8: Bytes -> bool)
    requires ReadRules(buf, 0, utf8).Bad?
    ensures PointsAt(buf, ReadRules(buf, 0, utf8).error, utf8)
  {
    hide ReadStringList, ReadInt, ReadByte, PointsAt;
    var d := ReadStringList(buf, 0, utf8);
    if d.Bad? { StringListBad(buf, 0, utf8); return; }
    var m := ReadStringList(buf, d.next, utf8);
    if m.Bad? { StringListBad(buf, d.next, utf8); return; }
    var calls := ReadInt(buf, m.next, 8);
    if calls.Bad? { IntBad(buf, m.next, 8, utf8); return; }
    var payload := ReadInt(buf, calls.next, 8);
    if payload.Bad? { IntBad(buf, calls.next, 8, utf8); return; }
    ByteBad(buf, payload.next, utf8);
  }

  lemma {:induction false} SkipBad(buf: Bytes, pos: nat, count: nat, utf8: Bytes -> bool)
    requires pos <= |buf| && SkipBlobs(buf, pos, count).Bad?
    ensures PointsAt(buf, SkipBlobs(buf, pos, count).error, utf8)
    decreases count
  {
    hide ReadBlob, PointsAt;
    var r := ReadBlob(buf, pos);
    if r.Bad? { BlobBad(buf, pos, utf8); } else { SkipBad(buf, r.next, count - 1, utf8); }
  }

  lemma SchemasBad(buf: Bytes, pos: nat, utf8: Bytes -> bool)
    requires pos <= |buf| && SkipSchemas(buf, pos).Bad?
    ensures PointsAt(buf, SkipSchemas(buf, pos).error, utf8)
  {
    hide ReadBlob, ReadInt, SkipBlobs, PointsAt;
    var schema := ReadBlob(buf, pos);
    if schema.Bad? { BlobBad(buf, pos, utf8); return; }
    var pairs := ReadInt(buf, schema.next, 4);
    if pairs.Bad? { IntBad(buf, schema.next, 4, utf8); return; }
    SkipBad(buf, pairs.next, 2 * pairs.value, utf8);
  }

  /** Every refused buffer is refused for something that is there to be seen. */
  lemma ErrorPointsAt(buf: Bytes, utf8: Bytes -> bool)
    requires Parse(buf, utf8).Err?
    ensures PointsAt(buf, Parse(buf, utf8).error, utf8)
  {
    hide ReadRules, SkipSchemas, Formatted, TextsValid;
    var rules := ReadRules(buf, 0, utf8);
    if rules.Bad? { RulesBad(buf, utf8); return; }
    var schemas := SkipSchemas(buf, rules.next);
    if schemas.Bad? { SchemasBad(buf, rules.next, utf8); return; }
    var schema, blobs := ReadIsFormatted(buf, utf8);
    FormattedIsAccepted(buf[..schemas.next], rules.value, schema, blobs, utf8);
  }

  // ----- One document, byte by byte -----

  /** Domains b and a, the method m, at most 3 calls of 258 bytes, attested preferably, any output, and true for d. */
  function Sample(): OraclePolicy {
    OraclePolicy([[98], [97]], [[109]], 3, 258, PreferredAttested, Some(Null), [([100], Bool(true))])
  }

  lemma OneSorted<T>(key: T -> Bytes, x: T)
    ensures Sort(key, [x]) == [x]
  {
    assert [x][1..] == [] && Sort(key, []) == [];
    assert Sort(key, [x]) == Insert(key, x, []);
  }

  lemma TwoSorted()
    ensures Sort(Itself, [[98], [97]]) == [[97], [98]]
  {
    var d: seq<Bytes> := [[98], [97]];
    OneSorted(Itself, d[1]);
    assert d[1..] == [d[1]];
    hide Sort;
    assert Sort(Itself, d) == Insert(Itself, d[0], [d[1]]) by { SortCons(d); }
    var last: seq<Bytes> := [d[1]];
    assert last[1..] == [] && Insert(Itself, d[0], last[1..]) == [d[0]];
  }

  lemma SortCons(s: seq<Bytes>)
    requires s != []
    ensures Sort(Itself, s) == Insert(Itself, s[0], Sort(Itself, s[1..]))
  {}

  lemma SampleSorted()
    ensures Sort(Itself, Sample().allowedDomains) == [[97], [98]]
    ensures Sort(Itself, Sample().allowedMethods) == [[109]]
    ensures Sort(KeyOf, Sample().schemaVersions) == Sample().schemaVersions
  {
    hide Sort;
    TwoSorted();
    OneSorted(Itself, [109]);
    OneSorted(KeyOf, ([100], Bool(true)));
  }

  lemma {:induction false} NoBytes(n: nat)
    ensures LittleEndian(0, n) == Fill(0, n)
  {
    if n > 0 { NoBytes(n - 1); }
  }

  lemma SmallWord(x: nat, n: nat)
    requires n >= 2
    ensures LittleEndian(x, n) == [x % 256, x / 256 % 256] + LittleEndian(x / 0x1_0000, n - 2)
  {
    assert x / 256 / 256 == x / 0x1_0000;
    assert LittleEndian(x, n) == [x % 256] + LittleEndian(x / 256, n - 1);
  }

  lemma SmallWords()
    ensures U32(0) == [0, 0, 0, 0] && U32(1) == [1, 0, 0, 0] && U32(2) == [2, 0, 0, 0] && U32(4) == [4, 0, 0, 0]
    ensures U64(3) == [3, 0, 0, 0, 0, 0, 0, 0] && U64(258) == [2, 1, 0, 0, 0, 0, 0, 0]
  {
    SmallWord(0, 4);
    SmallWord(1, 4);
    SmallWord(2, 4);
    SmallWord(4, 4);
    SmallWord(3, 8);
    SmallWord(258, 8);
    NoBytes(2);
    NoBytes(6);
    hide LittleEndian;
  }

  lemma SampleLists()
    ensures StringList([[97], [98]]) == [2, 0, 0, 0, 1, 0, 0, 0, 97, 1, 0, 0, 0, 98]
    ensures StringList([[109]]) == [1, 0, 0, 0, 1, 0, 0, 0, 109]
  {
    SmallWords();
    hide LittleEndian;
    BlobsCons([97], [[98]]);
    BlobsCons([98], []);
    BlobsCons([109], []);
    NoBlobs();
    assert [[97]] + [[98]] == [[97], [98]] && [[98]] + [] == [[98]] && [[109]] + [] == [[109]];
    hide Blobs;
  }

  lemma SampleSchemas()
    ensures Blob(SchemaBytes(None)) == [0, 0, 0, 0]
    ensures Blob(Print(Null)) == [4, 0, 0, 0, 110, 117, 108, 108]
    ensures SchemaMap(Sample().schemaVersions) == [1, 0, 0, 0, 1, 0, 0, 0, 100, 4, 0, 0, 0, 116, 114, 117, 101]
  {
    SmallWords();
    hide LittleEndian;
    var pairs: seq<Member> := Sample().schemaVersions;
    assert pairs[1..] == [] && SchemaPairs(pairs[1..]) == [];
    assert Print(Bool(true)) == [116, 114, 117, 101] && Print(Null) == [110, 117, 108, 108];
    hide SchemaPairs, Print;
    assert SchemaPairs(pairs) == Blob([100]) + Blob(Print(Bool(true))) by { OnePair(pairs); }
  }

  lemma OnePair(pairs: seq<Member>)
    requires |pairs| == 1
    ensures SchemaPairs(pairs) == Blob(pairs[0].0) + Blob(Print(pairs[0].1))
  {
    hide Blob, Print;
    assert SchemaPairs(pairs[1..]) == [];
  }

  /** Its canonical bytes. */
  lemma SampleBytes()
    ensures Canonical(Sample()) ==
            [2, 0, 0, 0, 1, 0, 0, 0, 97, 1, 0, 0, 0, 98] + ([1, 0, 0, 0, 1, 0, 0, 0, 109] +
            ([3, 0, 0, 0, 0, 0, 0, 0] + ([2, 1, 0, 0, 0, 0, 0, 0] + ([1] +
            ([4, 0, 0, 0, 110, 117, 108, 108] +
            [1, 0, 0, 0, 1, 0, 0, 0, 100, 4, 0, 0, 0, 116, 114, 117, 101])))))
  {
    SampleSorted();
    SmallWords();
    SampleLists();
    SampleSchemas();
    hide Sort, LittleEndian, StringList, Blob, SchemaMap, Print;
  }
}
