/** The guest's view of a policy: the strict parser of the canonical bytes, and the check it enforces. */
module PolicyView {
  import opened Options
  import opened ByteStrings
  import opened Json
  import opened Policy

  datatype ParseError =
    | Truncated(at: nat)
    | LengthOverrun(at: nat, len: nat)
    | NotUtf8(at: nat)
    | BadTlsRequirement(b: Byte)
    | TrailingBytes(extra: nat)

  datatype View = View(
    allowedDomains: seq<Bytes>,
    allowedMethods: seq<Bytes>,
    maxToolCalls: nat,
    maxPayloadBytes: nat,
    tls: Tls)
  {
    /** Empty lists mean no restriction; the messages are those of the host. */
    function CheckHttpCall(tool: Bytes, url: Bytes): Verdict {
      if allowedMethods != [] && tool !in allowedMethods then Denied(MethodMessage(tool))
      else if allowedDomains != [] && DomainOf(url) !in allowedDomains then Denied(DomainMessage(DomainOf(url)))
      else Permitted
    }
  }

  // ----- Reading, as functions of the buffer and the position -----

  /** A value read and the position after it, or the error that stops the parse. */
  datatype Read<+T> = Got(value: T, next: nat) | Bad(error: ParseError)

  function ReadTake(buf: Bytes, pos: nat, n: nat): (r: Read<Bytes>)
    ensures r.Got? ==> pos <= r.next <= |buf|
  {
    if pos + n > |buf| then Bad(LengthOverrun(pos, n)) else Got(buf[pos..pos + n], pos + n)
  }

  /** A fixed-width little-endian integer of n bytes. */
  function ReadInt(buf: Bytes, pos: nat, n: nat): (r: Read<nat>)
    ensures r.Got? ==> pos <= r.next <= |buf|
  {
    match ReadTake(buf, pos, n)
    case Bad(_) => Bad(Truncated(pos))
    case Got(b, next) => Got(FromLittleEndian(b), next)
  }

  function ReadByte(buf: Bytes, pos: nat): (r: Read<Byte>)
    ensures r.Got? ==> pos <= r.next <= |buf|
  {
    match ReadTake(buf, pos, 1)
    case Bad(_) => Bad(Truncated(pos))
    case Got(b, next) => Got(b[0], next)
  }

  /** A length prefix and that many bytes. */
  function ReadBlob(buf: Bytes, pos: nat): (r: Read<Bytes>)
    ensures r.Got? ==> pos <= r.next <= |buf|
  {
    match ReadInt(buf, pos, 4)
    case Bad(e) => Bad(e)
    case Got(len, at) => ReadTake(buf, at, len)
  }

  function ReadString(buf: Bytes, pos: nat, utf8: Bytes -> bool): (r: Read<Bytes>)
    ensures r.Got? ==> pos <= r.next <= |buf|
  {
    match ReadBlob(buf, pos)
    case Bad(e) => Bad(e)
    case Got(s, next) => if utf8(s) then Got(s, next) else Bad(NotUtf8(next - |s|))
  }

  /** The remaining count strings of a list whose first strings are done. */
  function ReadStrings(buf: Bytes, pos: nat, count: nat, done: seq<Bytes>, utf8: Bytes -> bool): (r: Read<seq<Bytes>>)
    requires pos <= |buf|
    ensures r.Got? ==> pos <= r.next <= |buf|
    decreases count
  {
    if count == 0 then Got(done, pos)
    else
      match ReadString(buf, pos, utf8)
      case Bad(e) => Bad(e)
      case Got(s, next) => ReadStrings(buf, next, count - 1, done + [s], utf8)
  }

  function ReadStringList(buf: Bytes, pos: nat, utf8: Bytes -> bool): (r: Read<seq<Bytes>>)
    ensures r.Got? ==> pos <= r.next <= |buf|
  {
    match ReadInt(buf, pos, 4)
    case Bad(e) => Bad(e)
    case Got(count, next) => ReadStrings(buf, next, count, [], utf8)
  }

  /** Skips count blobs. */
  function SkipBlobs(buf: Bytes, pos: nat, count: nat): (r: Read<()>)
    requires pos <= |buf|
    ensures r.Got? ==> pos <= r.next <= |buf|
    decreases count
  {
    if count == 0 then Got((), pos)
    else
      match ReadBlob(buf, pos)
      case Bad(e) => Bad(e)
      case Got(_, next) => SkipBlobs(buf, next, count - 1)
  }

  function TlsOf(b: Byte): Option<Tls> {
    if b == 0 then Some(UnattestedPermitted)
    else if b == 1 then Some(PreferredAttested)
    else if b == 2 then Some(RequiredAttested)
    else None
  }

  /** Sections six and seven: one blob, then a count and that many pairs of blobs. */
  function SkipSchemas(buf: Bytes, pos: nat): (r: Read<()>)
    ensures r.Got? ==> pos <= r.next <= |buf|
  {
    match ReadBlob(buf, pos)
    case Bad(e) => Bad(e)
    case Got(_, p1) =>
      match ReadInt(buf, p1, 4)
      case Bad(e) => Bad(e)
      case Got(pairs, p2) => SkipBlobs(buf, p2, 2 * pairs)
  }

  /** Sections one to five. */
  function ReadRules(buf: Bytes, pos: nat, utf8: Bytes -> bool): (r: Read<View>)
    ensures r.Got? ==> pos <= r.next <= |buf|
  {
    match ReadStringList(buf, pos, utf8)
    case Bad(e) => Bad(e)
    case Got(domains, p1) =>
      match ReadStringList(buf, p1, utf8)
      case Bad(e) => Bad(e)
      case Got(methods, p2) =>
        match ReadInt(buf, p2, 8)
        case Bad(e) => Bad(e)
        case Got(calls, p3) =>
          match ReadInt(buf, p3, 8)
          case Bad(e) => Bad(e)
          case Got(payload, p4) =>
            match ReadByte(buf, p4)
            case Bad(e) => Bad(e)
            case Got(t, p5) =>
              if TlsOf(t).None? then Bad(BadTlsRequirement(t))
              else Got(View(domains, methods, calls, payload, TlsOf(t).value), p5)
  }

  function Parse(buf: Bytes, utf8: Bytes -> bool): Result<View, ParseError> {
    match ReadRules(buf, 0, utf8)
    case Bad(e) => Err(e)
    case Got(view, p5) =>
      match SkipSchemas(buf, p5)
      case Bad(e) => Err(e)
      case Got(_, end) => if end != |buf| then Err(TrailingBytes(|buf| - end)) else Ok(view)
  }

  // ----- The reader object -----

  class Reader {
    const buf: Bytes
    const utf8: Bytes -> bool
    var pos: nat

    constructor (buf: Bytes, utf8: Bytes -> bool)
      ensures this.buf == buf && this.utf8 == utf8 && pos == 0
    {
      this.buf := buf;
      this.utf8 := utf8;
      pos := 0;
    }

    method Take(n: nat) returns (r: Result<Bytes, ParseError>)
      modifies this
      ensures match ReadTake(buf, old(pos), n)
              case Bad(e) => r == Err(e) && pos == old(pos)
              case Got(b, next) => r == Ok(b) && pos == next
    {
      var end := pos + n;
      if end > |buf| {
        return Err(LengthOverrun(pos, n));
      }
      r := Ok(buf[pos..end]);
      pos := end;
    }

    method Int(n: nat) returns (r: Result<nat, ParseError>)
      modifies this
      ensures match ReadInt(buf, old(pos), n)
              case Bad(e) => r == Err(e)
              case Got(x, next) => r == Ok(x) && pos == next
    {
      var at := pos;
      var b := Take(n);
      if b.Err? {
        return Err(Truncated(at));
      }
      return Ok(FromLittleEndian(b.value));
    }

    method U8() returns (r: Result<Byte, ParseError>)
      modifies this
      ensures match ReadByte(buf, old(pos))
              case Bad(e) => r == Err(e)
              case Got(x, next) => r == Ok(x) && pos == next
    {
      var at := pos;
      var b := Take(1);
      if b.Err? {
        return Err(Truncated(at));
      }
      return Ok(b.value[0]);
    }

    method NextString() returns (r: Result<Bytes, ParseError>)
      modifies this
      ensures match ReadString(buf, old(pos), utf8)
              case Bad(e) => r == Err(e)
              case Got(s, next) => r == Ok(s) && pos == next
    {
      var len := Int(4);
      if len.Err? {
        return Err(len.error);
      }
      var at := pos;
      var bytes := Take(len.value);
      if bytes.Err? {
        return Err(bytes.error);
      }
      if !utf8(bytes.value) {
        return Err(NotUtf8(at));
      }
      return bytes;
    }

    method StringList() returns (r: Result<seq<Bytes>, ParseError>)
      modifies this
      ensures match ReadStringList(buf, old(pos), utf8)
              case Bad(e) => r == Err(e)
              case Got(list, next) => r == Ok(list) && pos == next
    {
      hide ReadString, ReadInt;
      var count := Int(4);
      if count.Err? {
        return Err(count.error);
      }
      ghost var start := pos;
      var out: seq<Bytes> := [];
      for i := 0 to count.value
        invariant pos <= |buf|
        invariant ReadStrings(buf, pos, count.value - i, out, utf8) == ReadStrings(buf, start, count.value, [], utf8)
      {
        var s := NextString();
        if s.Err? {
          return Err(s.error);
        }
        out := out + [s.value];
      }
      return Ok(out);
    }

    method SkipBlob() returns (r: Result<(), ParseError>)
      modifies this
      ensures match ReadBlob(buf, old(pos))
              case Bad(e) => r == Err(e)
              case Got(_, next) => r == Ok(()) && pos == next
    {
      var len := Int(4);
      if len.Err? {
        return Err(len.error);
      }
      var b := Take(len.value);
      if b.Err? {
        return Err(b.error);
      }
      return Ok(());
    }
  }

  lemma SkipTwo(buf: Bytes, pos: nat, count: nat)
    requires pos <= |buf| && count > 0
    ensures SkipBlobs(buf, pos, 2 * count) ==
            match ReadBlob(buf, pos)
            case Bad(e) => Bad(e)
            case Got(_, p1) =>
              match ReadBlob(buf, p1)
              case Bad(e) => Bad(e)
              case Got(_, p2) => SkipBlobs(buf, p2, 2 * (count - 1))
  {
    if ReadBlob(buf, pos).Got? {
      var p1 := ReadBlob(buf, pos).next;
      assert SkipBlobs(buf, pos, 2 * count) == SkipBlobs(buf, p1, 2 * count - 1);
    }
  }

  method ParseSchemas(r: Reader) returns (e: Option<ParseError>)
    modifies r
    ensures match SkipSchemas(r.buf, old(r.pos))
            case Bad(error) => e == Some(error)
            case Got(_, next) => e == None && r.pos == next
  {
    var schema := r.SkipBlob();
    if schema.Err? {
      return Some(schema.error);
    }
    var pairs := r.Int(4);
    if pairs.Err? {
      return Some(pairs.error);
    }
    ghost var start := r.pos;
    for i := 0 to pairs.value
      invariant r.pos <= |r.buf|
      invariant SkipBlobs(r.buf, r.pos, 2 * (pairs.value - i)) == SkipBlobs(r.buf, start, 2 * pairs.value)
    {
      SkipTwo(r.buf, r.pos, pairs.value - i);
      var domain := r.SkipBlob();
      if domain.Err? {
        return Some(domain.error);
      }
      var text := r.SkipBlob();
      if text.Err? {
        return Some(text.error);
      }
    }
    return None;
  }

  method ParseRules(r: Reader) returns (v: Result<View, ParseError>)
    modifies r
    ensures match ReadRules(r.buf, old(r.pos), r.utf8)
            case Bad(error) => v == Err(error)
            case Got(view, next) => v == Ok(view) && r.pos == next
  {
    var domains := r.StringList();
    if domains.Err? {
      return Err(domains.error);
    }
    var methods := r.StringList();
    if methods.Err? {
      return Err(methods.error);
    }
    var calls := r.Int(8);
    if calls.Err? {
      return Err(calls.error);
    }
    var payload := r.Int(8);
    if payload.Err? {
      return Err(payload.error);
    }
    var t := r.U8();
    if t.Err? {
      return Err(t.error);
    }
    if TlsOf(t.value).None? {
      return Err(BadTlsRequirement(t.value));
    }
    return Ok(View(domains.value, methods.value, calls.value, payload.value, TlsOf(t.value).value));
  }

  method ParseView(buf: Bytes, utf8: Bytes -> bool) returns (v: Result<View, ParseError>)
    ensures v == Parse(buf, utf8)
  {
    hide ReadRules, SkipSchemas;
    var r := new Reader(buf, utf8);
    v := ParseRules(r);
    if v.Err? {
      return;
    }
    var e := ParseSchemas(r);
    if e.Some? {
      return Err(e.value);
    }
    if r.pos != |buf| {
      return Err(TrailingBytes(|buf| - r.pos));
    }
  }

  // ----- Accepted buffers are prefix-free -----

  /** A successful read does not look past where it ends. */
  ghost predicate Stable<T>(short: Read<T>, long: Read<T>) { short.Got? ==> long == short }

  lemma TakeStable(a: Bytes, s: Bytes, pos: nat, n: nat)
    ensures Stable(ReadTake(a, pos, n), ReadTake(a + s, pos, n))
  {
    if pos + n <= |a| { assert (a + s)[pos..pos + n] == a[pos..pos + n]; }
  }

  lemma IntStable(a: Bytes, s: Bytes, pos: nat, n: nat)
    ensures Stable(ReadInt(a, pos, n), ReadInt(a + s, pos, n))
  {
    TakeStable(a, s, pos, n);
  }

  lemma BlobStable(a: Bytes, s: Bytes, pos: nat)
    ensures Stable(ReadBlob(a, pos), ReadBlob(a + s, pos))
  {
    IntStable(a, s, pos, 4);
    if ReadInt(a, pos, 4).Got? {
      var i := ReadInt(a, pos, 4);
      TakeStable(a, s, i.next, i.value);
    }
  }

  lemma {:induction false} StringsStable(a: Bytes, s: Bytes, pos: nat, count: nat, done: seq<Bytes>,
                                         utf8: Bytes -> bool)
    requires pos <= |a|
    ensures Stable(ReadStrings(a, pos, count, done, utf8), ReadStrings(a + s, pos, count, done, utf8))
    decreases count
  {
    if count > 0 {
      BlobStable(a, s, pos);
      var r := ReadString(a, pos, utf8);
      if r.Got? { StringsStable(a, s, r.next, count - 1, done + [r.value], utf8); }
    }
  }

  lemma StringListStable(a: Bytes, s: Bytes, pos: nat, utf8: Bytes -> bool)
    ensures Stable(ReadStringList(a, pos, utf8), ReadStringList(a + s, pos, utf8))
  {
    IntStable(a, s, pos, 4);
    var r := ReadInt(a, pos, 4);
    if r.Got? { StringsStable(a, s, r.next, r.value, [], utf8); }
  }

  lemma {:induction false} SkipStable(a: Bytes, s: Bytes, pos: nat, count: nat)
    requires pos <= |a|
    ensures Stable(SkipBlobs(a, pos, count), SkipBlobs(a + s, pos, count))
    decreases count
  {
    if count > 0 {
      BlobStable(a, s, pos);
      if ReadBlob(a, pos).Got? { SkipStable(a, s, ReadBlob(a, pos).next, count - 1); }
    }
  }

  lemma SchemasStable(a: Bytes, s: Bytes, pos: nat)
    ensures Stable(SkipSchemas(a, pos), SkipSchemas(a + s, pos))
  {
    BlobStable(a, s, pos);
    var b := ReadBlob(a, pos);
    if b.Got? {
      IntStable(a, s, b.next, 4);
      var n := ReadInt(a, b.next, 4);
      if n.Got? { SkipStable(a, s, n.next, 2 * n.value); }
    }
  }

  lemma RulesStable(a: Bytes, s: Bytes, pos: nat, utf8: Bytes -> bool)
    ensures Stable(ReadRules(a, pos, utf8), ReadRules(a + s, pos, utf8))
  {
    hide ReadStringList, ReadInt;
    StringListStable(a, s, pos, utf8);
    var domains := ReadStringList(a, pos, utf8);
    if domains.Got? {
      StringListStable(a, s, domains.next, utf8);
      var methods := ReadStringList(a, domains.next, utf8);
      if methods.Got? {
        IntStable(a, s, methods.next, 8);
        var calls := ReadInt(a, methods.next, 8);
        if calls.Got? {
          IntStable(a, s, calls.next, 8);
          var payload := ReadInt(a, calls.next, 8);
          if payload.Got? { TakeStable(a, s, payload.next, 1); }
        }
      }
    }
  }

  /** No accepted buffer is a proper prefix of another: over all byte strings, canonical or not. */
  lemma AcceptedBuffersPrefixFree(a: Bytes, s: Bytes, utf8: Bytes -> bool)
    requires Parse(a, utf8).Ok? && Parse(a + s, utf8).Ok?
    ensures s == []
  {
    hide ReadRules, SkipSchemas;
    RulesStable(a, s, 0, utf8);
    SchemasStable(a, s, ReadRules(a, 0, utf8).next);
  }

  /** What is left over after an accepted buffer is exactly what the error reports. */
  lemma ExtensionRejected(a: Bytes, s: Bytes, utf8: Bytes -> bool)
    requires Parse(a, utf8).Ok? && s != []
    ensures Parse(a + s, utf8) == Err(TrailingBytes(|s|))
  {
    hide ReadRules, SkipSchemas;
    RulesStable(a, s, 0, utf8);
    SchemasStable(a, s, ReadRules(a, 0, utf8).next);
  }

  // ----- Round trip -----

  /** The bytes x stand in the buffer at pos. */
  ghost predicate At(buf: Bytes, pos: nat, x: Bytes) { pos + |x| <= |buf| && buf[pos..pos + |x|] == x }

  lemma AtSplit(buf: Bytes, pos: nat, x: Bytes, y: Bytes)
    requires At(buf, pos, x + y)
    ensures At(buf, pos, x) && At(buf, pos + |x|, y)
  {
    assert buf[pos..pos + |x|] == (x + y)[..|x|];
    assert buf[pos + |x|..pos + |x| + |y|] == (x + y)[|x|..];
  }

  lemma IntAt(buf: Bytes, pos: nat, x: nat, n: nat)
    requires At(buf, pos, LittleEndian(x, n)) && x < Pow256(n)
    ensures ReadInt(buf, pos, n) == Got(x, pos + n)
  {
    DecodeEncode(x, n);
  }

  lemma BlobAt(buf: Bytes, pos: nat, b: Bytes)
    requires At(buf, pos, Blob(b)) && |b| < U32_LIMIT
    ensures ReadBlob(buf, pos) == Got(b, pos + |Blob(b)|)
  {
    AtSplit(buf, pos, U32(|b|), b);
    WordLimits();
    IntAt(buf, pos, |b|, 4);
  }

  lemma {:induction false} StringsAt(buf: Bytes, pos: nat, list: seq<Bytes>, done: seq<Bytes>, utf8: Bytes -> bool)
    requires At(buf, pos, Blobs(list))
    requires forall s | s in list :: |s| < U32_LIMIT && utf8(s)
    ensures ReadStrings(buf, pos, |list|, done, utf8) == Got(done + list, pos + |Blobs(list)|)
    decreases |list|
  {
    hide At, Blob, LittleEndian, ReadBlob;
    if list == [] {
      assert done + list == done;
    } else {
      AtSplit(buf, pos, Blob(list[0]), Blobs(list[1..]));
      BlobAt(buf, pos, list[0]);
      StringsAt(buf, pos + |Blob(list[0])|, list[1..], done + [list[0]], utf8);
      assert done + list == (done + [list[0]]) + list[1..];
    }
  }

  lemma StringListAt(buf: Bytes, pos: nat, list: seq<Bytes>, utf8: Bytes -> bool)
    requires At(buf, pos, StringList(list)) && FitStrings(list)
    requires forall s | s in list :: utf8(s)
    ensures ReadStringList(buf, pos, utf8) == Got(list, pos + |StringList(list)|)
  {
    hide At, Blobs, LittleEndian, ReadInt, ReadStrings;
    AtSplit(buf, pos, U32(|list|), Blobs(list));
    WordLimits();
    IntAt(buf, pos, |list|, 4);
    StringsAt(buf, pos + 4, list, [], utf8);
    assert [] + list == list;
  }

  lemma {:induction false} SkipPairsAt(buf: Bytes, pos: nat, pairs: seq<Member>)
    requires At(buf, pos, SchemaPairs(pairs)) && FitPairs(pairs)
    ensures SkipBlobs(buf, pos, 2 * |pairs|) == Got((), pos + |SchemaPairs(pairs)|)
    decreases |pairs|
  {
    hide At, Blob, LittleEndian, ReadBlob, Print;
    if pairs != [] {
      var x, y := Blob(pairs[0].0), Blob(Print(pairs[0].1));
      AtSplit(buf, pos, x + y, SchemaPairs(pairs[1..]));
      AtSplit(buf, pos, x, y);
      BlobAt(buf, pos, pairs[0].0);
      BlobAt(buf, pos + |x|, Print(pairs[0].1));
      SkipTwo(buf, pos, |pairs|);
      SkipPairsAt(buf, pos + |x + y|, pairs[1..]);
    }
  }

  lemma SchemasAt(buf: Bytes, pos: nat, schema: Bytes, pairs: seq<Member>)
    requires At(buf, pos, Blob(schema) + SchemaMap(pairs)) && |schema| < U32_LIMIT
    requires FitPairs(pairs)
    ensures SkipSchemas(buf, pos) == Got((), pos + |Blob(schema) + SchemaMap(pairs)|)
  {
    hide At, Blob, LittleEndian, ReadBlob, ReadInt, SchemaPairs, SkipBlobs;
    AtSplit(buf, pos, Blob(schema), SchemaMap(pairs));
    BlobAt(buf, pos, schema);
    var p1 := pos + |Blob(schema)|;
    AtSplit(buf, p1, U32(|pairs|), SchemaPairs(pairs));
    WordLimits();
    IntAt(buf, p1, |pairs|, 4);
    SkipPairsAt(buf, p1 + 4, pairs);
  }

  lemma LimitsAt(buf: Bytes, pos: nat, calls: nat, payload: nat, tls: Byte, rest: Bytes)
    requires At(buf, pos, U64(calls) + (U64(payload) + ([tls] + rest))) && calls < U64_LIMIT && payload < U64_LIMIT
    ensures ReadInt(buf, pos, 8) == Got(calls, pos + 8) && ReadInt(buf, pos + 8, 8) == Got(payload, pos + 16)
    ensures ReadByte(buf, pos + 16) == Got(tls, pos + 17) && At(buf, pos + 17, rest)
  {
    hide At, ReadInt, ReadByte, LittleEndian;
    WordLimits();
    AtSplit(buf, pos, U64(calls), U64(payload) + ([tls] + rest));
    IntAt(buf, pos, calls, 8);
    AtSplit(buf, pos + 8, U64(payload), [tls] + rest);
    IntAt(buf, pos + 8, payload, 8);
    AtSplit(buf, pos + 16, [tls], rest);
    ByteAt(buf, pos + 16, tls);
  }

  lemma RulesAt(buf: Bytes, d: seq<Bytes>, m: seq<Bytes>, calls: nat, payload: nat, tls: Tls, rest: Bytes,
                utf8: Bytes -> bool)
    requires At(buf, 0, Head(d, m, calls, payload, TlsByte(tls), rest))
    requires FitStrings(d) && FitStrings(m) && calls < U64_LIMIT && payload < U64_LIMIT
    requires (forall s | s in d :: utf8(s)) && (forall s | s in m :: utf8(s))
    ensures ReadRules(buf, 0, utf8) ==
            Got(View(d, m, calls, payload, tls), |StringList(d)| + |StringList(m)| + 17)
    ensures At(buf, |StringList(d)| + |StringList(m)| + 17, rest)
  {
    hide At, ReadStringList, ReadInt, ReadByte, StringList, U64, FitStrings;
    var limits := U64(calls) + (U64(payload) + ([TlsByte(tls)] + rest));
    var p := |StringList(d)|;
    AtSplit(buf, 0, StringList(d), StringList(m) + limits);
    StringListAt(buf, 0, d, utf8);
    AtSplit(buf, p, StringList(m), limits);
    StringListAt(buf, p, m, utf8);
    LimitsAt(buf, p + |StringList(m)|, calls, payload, TlsByte(tls), rest);
  }

  lemma ByteAt(buf: Bytes, pos: nat, b: Byte)
    requires At(buf, pos, [b])
    ensures ReadByte(buf, pos) == Got(b, pos + 1)
  {}

  ghost predicate AllUtf8(p: OraclePolicy, utf8: Bytes -> bool) {
    (forall d | d in p.allowedDomains :: utf8(d)) && (forall m | m in p.allowedMethods :: utf8(m))
  }

  /** The view a policy is expected to parse to: sorted lists, the exact limits and TLS value. */
  function ViewOf(p: OraclePolicy): View {
    View(Sort(Itself, p.allowedDomains), Sort(Itself, p.allowedMethods), p.maxToolCalls, p.maxPayloadBytes, p.tls)
  }

  lemma SortKeepsUtf8(list: seq<Bytes>, utf8: Bytes -> bool)
    requires forall s | s in list :: utf8(s)
    ensures forall s | s in Sort(Itself, list) :: utf8(s)
  {
    forall s | s in Sort(Itself, list)
      ensures utf8(s)
    {
      SortElements(Itself, list, s);
    }
  }

  /** Parsing the canonical bytes gives the policy back. */
  lemma PolicyRoundTrip(p: OraclePolicy, utf8: Bytes -> bool)
    requires Encodable(p) && AllUtf8(p, utf8)
    ensures Parse(Canonical(p), utf8) == Ok(ViewOf(p))
  {
    SortKeepsUtf8(p.allowedDomains, utf8);
    SortKeepsUtf8(p.allowedMethods, utf8);
    SortKeepsPairs(p);
    CanonicalHead(p);
    SchemaFits(p);
    EncodedRoundTrip(Canonical(p), Sort(Itself, p.allowedDomains), Sort(Itself, p.allowedMethods),
                     p.maxToolCalls, p.maxPayloadBytes, p.tls,
                     SchemaBytes(p.outputSchema), Sort(KeyOf, p.schemaVersions), utf8);
  }

  lemma EncodedRoundTrip(buf: Bytes, d: seq<Bytes>, m: seq<Bytes>, calls: nat, payload: nat, tls: Tls,
                         schema: Bytes, pairs: seq<Member>, utf8: Bytes -> bool)
    requires buf == Head(d, m, calls, payload, TlsByte(tls), Blob(schema) + SchemaMap(pairs))
    requires FitStrings(d) && FitStrings(m) && calls < U64_LIMIT && payload < U64_LIMIT
    requires (forall s | s in d :: utf8(s)) && (forall s | s in m :: utf8(s))
    requires |schema| < U32_LIMIT && FitPairs(pairs)
    ensures Parse(buf, utf8) == Ok(View(d, m, calls, payload, tls))
  {
    hide Parse, ReadRules, StringList, SkipSchemas, At, Head, SchemaMap, TlsByte, FitStrings, FitPairs, Blob;
    var rest := Blob(schema) + SchemaMap(pairs);
    AtWhole(buf);
    HeadLength(d, m, calls, payload, TlsByte(tls), rest);
    RulesAt(buf, d, m, calls, payload, tls, rest, utf8);
    var pos := |StringList(d)| + |StringList(m)| + 17;
    SchemasAt(buf, pos, schema, pairs);
    ParseOf(buf, utf8, View(d, m, calls, payload, tls), pos);
  }

  lemma AtWhole(buf: Bytes)
    ensures At(buf, 0, buf)
  {}

  lemma SchemaFits(p: OraclePolicy)
    requires Encodable(p)
    ensures |SchemaBytes(p.outputSchema)| < U32_LIMIT
  {}

  lemma HeadLength(d: seq<Bytes>, m: seq<Bytes>, calls: nat, payload: nat, tls: Byte, rest: Bytes)
    ensures |Head(d, m, calls, payload, tls, rest)| == |StringList(d)| + |StringList(m)| + 17 + |rest|
  {
    hide StringList;
  }

  lemma ParseOf(buf: Bytes, utf8: Bytes -> bool, view: View, pos: nat)
    requires ReadRules(buf, 0, utf8) == Got(view, pos) && SkipSchemas(buf, pos) == Got((), |buf|)
    ensures Parse(buf, utf8) == Ok(view)
  {
    hide ReadRules, SkipSchemas;
  }

  /** Host and guest give the same verdict, message included, for every tool and every URL. */
  lemma SameVerdict(p: OraclePolicy, tool: Bytes, url: Bytes)
    ensures ViewOf(p).CheckHttpCall(tool, url) == p.CheckHttpCall(tool, url)
  {
    SortElements(Itself, p.allowedMethods, tool);
    SortElements(Itself, p.allowedDomains, DomainOf(url));
  }

  /** The document that is hashed is the document that is enforced. */
  lemma ParsedViewEnforcesPolicy(p: OraclePolicy, utf8: Bytes -> bool, tool: Bytes, url: Bytes)
    requires Encodable(p) && AllUtf8(p, utf8)
    ensures Parse(Canonical(p), utf8).Ok?
    ensures Parse(Canonical(p), utf8).value.CheckHttpCall(tool, url) == p.CheckHttpCall(tool, url)
    ensures Parse(Canonical(p), utf8).value.maxToolCalls == p.maxToolCalls
    ensures Parse(Canonical(p), utf8).value.maxPayloadBytes == p.maxPayloadBytes
  {
    PolicyRoundTrip(p, utf8);
    SameVerdict(p, tool, url);
  }
}
