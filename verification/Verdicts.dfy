/** The rules of a policy in terms of its lists: which calls are refused, with which text, and where the others are
    answered, for every replay and every dry run. Hosts, methods, schemas and texts are spelled out here once more, not
    taken from the checks that are judged by them. */
module Verdicts {
  import opened Options
  import opened ByteStrings
  import opened Json
  import opened OutputWord
  import opened Policy
  import opened PolicyView
  import opened Hosts
  import opened GuestInputs
  import opened Replay
  import opened Schemas

  // ----- The host a URL names -----

  /** A place where "://" stands. */
  ghost predicate MarkAt(url: Bytes, i: nat) { i + 3 <= |url| && url[i..i + 3] == [58, 47, 47] }

  /** The URL is the given front, the host, and then nothing or a slash or a colon and more. */
  ghost predicate HostBehind(url: Bytes, front: Bytes, host: Bytes) {
    front + host <= url && 47 !in host && 58 !in host &&
    (|url| > |front| + |host| ==> url[|front| + |host|] in {47, 58})
  }

  /** What stands in front of the host: everything through the first "://", or nothing when there is none. */
  ghost predicate FrontOf(url: Bytes, front: Bytes) {
    front <= url &&
    if exists i: nat :: MarkAt(url, i)
    then 3 <= |front| && MarkAt(url, |front| - 3) && forall i: nat | i < |front| - 3 :: !MarkAt(url, i)
    else front == []
  }

  ghost predicate NamesHost(url: Bytes, host: Bytes) {
    exists front: Bytes :: FrontOf(url, front) && HostBehind(url, front, host)
  }

  lemma MarkIsScheme(url: Bytes, i: nat)
    ensures MarkAt(url, i) <==> SchemeAt(url, i)
  {
    if i + 3 <= |url| {
      assert url[i..i + 3] == [url[i], url[i + 1], url[i + 2]];
      assert [58, 47, 47] == [58 as Byte, 47, 47];
    }
  }

  lemma FrontUnique(url: Bytes, front: Bytes, other: Bytes)
    requires FrontOf(url, front) && FrontOf(url, other)
    ensures front == other
  {
    hide MarkAt;
    assert forall i: nat | MarkAt(url, i) :: 3 <= |front| <= i + 3 && 3 <= |other| <= i + 3;
  }

  lemma HostUnique(url: Bytes, front: Bytes, host: Bytes, other: Bytes)
    requires HostBehind(url, front, host) && HostBehind(url, front, other)
    ensures host == other
  {
    assert forall k | 0 <= k < |host| :: url[|front| + k] == (front + host)[|front| + k] == host[k];
    assert forall k | 0 <= k < |other| :: url[|front| + k] == (front + other)[|front| + k] == other[k];
  }

  lemma FrontWithMark(url: Bytes, i: nat)
    requires MarkAt(url, i) && forall j: nat | j < i :: !MarkAt(url, j)
    ensures i + 3 <= |url| && FrontOf(url, url[..i + 3])
  {
    MarkFits(url, i);
    assert |url[..i + 3]| - 3 == i;
    hide MarkAt;
  }

  lemma FrontWithout(url: Bytes)
    requires forall j: nat :: !MarkAt(url, j)
    ensures FrontOf(url, [])
  {
    hide MarkAt;
  }

  /** What stands in front of the rest the source searches for the host. */
  lemma FrontFound(url: Bytes)
    ensures var i := SchemeEnd(url, 0);
            FrontOf(url, if i < |url| then url[..i + 3] else [])
  {
    hide MarkAt, SchemeAt, FrontOf;
    var i := SchemeEnd(url, 0);
    forall j: nat
      ensures MarkAt(url, j) <==> SchemeAt(url, j)
      ensures MarkAt(url, j) ==> j + 3 <= |url|
    {
      MarkIsScheme(url, j);
      MarkFits(url, j);
    }
    if i < |url| { FrontWithMark(url, i); } else { FrontWithout(url); }
  }

  lemma MarkFits(url: Bytes, i: nat)
    ensures MarkAt(url, i) ==> i + 3 <= |url|
  {}

  lemma HostAfterFront(front: Bytes, rest: Bytes, host: Bytes)
    requires HostBehind(rest, [], host)
    ensures HostBehind(front + rest, front, host)
  {
    assert [] + host == host;
    assert front + rest == front + host + rest[|host|..];
  }

  /** The front and the host that the source computes. */
  lemma DomainNamed(url: Bytes)
    ensures NamesHost(url, DomainOf(url))
  {
    hide FrontOf, HostBehind, Before, DomainOf;
    FrontFound(url);
    DomainOfRest(url);
    var i := SchemeEnd(url, 0);
    assert i < |url| ==> SchemeAt(url, i);
    var front := if i < |url| then url[..i + 3] else [];
    assert url == front + AfterScheme(url);
    HostOfRest(AfterScheme(url));
    HostAfterFront(front, AfterScheme(url), DomainOf(url));
  }

  lemma DomainOfRest(url: Bytes)
    ensures DomainOf(url) == Before(Before(AfterScheme(url), 47), 58)
  {
    hide Before, AfterScheme;
  }

  lemma HostOfRest(rest: Bytes)
    ensures HostBehind(rest, [], Before(Before(rest, 47), 58))
  {
    var front := Before(rest, 47);
    var host := Before(front, 58);
    assert [] + host == host;
    assert forall k | 0 <= k < |host| :: host[k] == front[k];
  }

  /** For every URL, the domain the policy looks up is the host the URL names. */
  lemma DomainExactly(url: Bytes, host: Bytes)
    ensures DomainOf(url) == host <==> NamesHost(url, host)
  {
    DomainNamed(url);
    hide DomainOf, FrontOf, HostBehind;
    if NamesHost(url, host) {
      var front: Bytes :| FrontOf(url, front) && HostBehind(url, front, host);
      var other: Bytes :| FrontOf(url, other) && HostBehind(url, other, DomainOf(url));
      FrontUnique(url, front, other);
      HostUnique(url, front, host, DomainOf(url));
    }
  }

  /** A URL of scheme, host, optional port and optional path names that host and no other. */
  lemma UrlNamesHost(scheme: Bytes, host: Bytes, port: Bytes, path: Bytes, named: Bytes)
    requires 58 !in scheme && 58 !in host && 47 !in host && 47 !in port
    requires port == [] || port[0] == 58
    requires path == [] || path[0] == 47
    ensures NamesHost(scheme + Ascii("://") + (host + port + path), named) <==> named == host
  {
    assert Ascii("://") == [58, 47, 47];
    hide DomainOf, NamesHost;
    DomainOfUrl(scheme, host, port, path);
    DomainExactly(scheme + Ascii("://") + (host + port + path), named);
  }

  // ----- The lists -----

  lemma NamesInBytes()
    ensures Ascii("http_get") == [104, 116, 116, 112, 95, 103, 101, 116]
    ensures Ascii("http_post") == [104, 116, 116, 112, 95, 112, 111, 115, 116]
  {}

  /** The two tools the rules of a policy are about. */
  ghost predicate IsHttp(c: Call) { c.name == Ascii("http_get") || c.name == Ascii("http_post") }

  /** The host a call asks for; a call without a URL asks for the empty one. */
  ghost predicate AsksFor(c: Call, host: Bytes) {
    match c.url
    case Some(url) => NamesHost(url, host)
    case None => host == []
  }

  ghost predicate MethodRefused(p: OraclePolicy, c: Call) {
    IsHttp(c) && p.allowedMethods != [] && c.name !in p.allowedMethods
  }

  ghost predicate HostRefused(p: OraclePolicy, c: Call) {
    IsHttp(c) && p.allowedDomains != [] && forall d | d in p.allowedDomains :: !AsksFor(c, d)
  }

  ghost predicate Refused(p: OraclePolicy, c: Call) { MethodRefused(p, c) || HostRefused(p, c) }

  ghost function MethodText(name: Bytes): Bytes {
    Ascii("policy: HTTP method '") + name + Ascii("' is not in allowed_http_methods")
  }

  ghost function HostText(host: Bytes): Bytes {
    Ascii("policy: domain '") + host + Ascii("' is not in allowed_domains")
  }

  ghost function BudgetText(digits: Bytes): Bytes {
    Ascii("policy: tool call limit ") + digits + Ascii(" exceeded")
  }

  /** Decimal digits, most significant first, and the number they denote. */
  ghost function NumberOf(digits: Bytes): int {
    if digits == [] then 0 else 10 * NumberOf(digits[..|digits| - 1]) + digits[|digits| - 1] - 48
  }

  ghost predicate DigitsOf(digits: Bytes, n: nat) {
    NumberOf(digits) == n && (forall d | d in digits :: 48 <= d <= 57) && digits != [] &&
    (digits[0] == 48 ==> |digits| == 1)
  }

  lemma {:induction false} DecimalDigits(n: nat)
    ensures DigitsOf(Decimal(n), n) && (n > 0 ==> Decimal(n)[0] != 48)
  {
    if n >= 10 {
      DecimalDigits(n / 10);
      assert Decimal(n)[..|Decimal(n)| - 1] == Decimal(n / 10);
    } else {
      assert Decimal(n) == [48 + n];
      assert NumberOf([]) == 0;
    }
  }

  lemma AsksForExactly(c: Call, host: Bytes)
    ensures AsksFor(c, host) <==> DomainOf(UrlOf(c)) == host
  {
    if c.url.Some? {
      hide NamesHost, DomainOf;
      DomainExactly(c.url.value, host);
    }
  }

  /** The verdict on a call, from the lists of the policy. The method is looked at first. */
  lemma ListsDecide(p: OraclePolicy, c: Call)
    ensures Permits(ViewOf(p), c) <==> !Refused(p, c)
    ensures MethodRefused(p, c) ==> Denial(ViewOf(p), c) == Err(MethodText(c.name))
    ensures HostRefused(p, c) && !MethodRefused(p, c) ==>
              exists host :: AsksFor(c, host) && Denial(ViewOf(p), c) == Err(HostText(host))
  {
    hide AsksFor, Ascii, DomainOf, UrlOf, ViewOf;
    SameVerdict(p, c.name, UrlOf(c));
    AsksForExactly(c, DomainOf(UrlOf(c)));
    forall d | d in p.allowedDomains
      ensures AsksFor(c, d) <==> DomainOf(UrlOf(c)) == d
    {
      AsksForExactly(c, d);
    }
  }

  // ----- Replays -----

  /** How many of the calls are answered from the tape: those within the budget that the lists do not refuse. */
  ghost function TapeCalls(p: OraclePolicy, calls: seq<Call>): nat {
    if calls == [] then 0
    else
      var n := |calls| - 1;
      TapeCalls(p, calls[..n]) + if n < p.maxToolCalls && !Refused(p, calls[n]) then 1 else 0
  }

  lemma {:induction false} TapeCallsForwarded(p: OraclePolicy, calls: seq<Call>)
    ensures TapeCalls(p, calls) == |Forwarded(ViewOf(p), calls)|
  {
    if calls != [] {
      hide Refused, Permits;
      TapeCallsForwarded(p, calls[..|calls| - 1]);
      ListsDecide(p, calls[|calls| - 1]);
    }
  }

  /** What call i of a replay under the policy is answered. */
  ghost predicate RuledAnswer(p: OraclePolicy, tape: Tape, calls: seq<Call>, i: nat, answer: Answer)
    requires i < |calls|
  {
    var c, k := calls[i], TapeCalls(p, calls[..i]);
    if i >= p.maxToolCalls then
      exists digits: Bytes :: DigitsOf(digits, p.maxToolCalls) && answer == Err(BudgetText(digits))
    else if MethodRefused(p, c) then answer == Err(MethodText(c.name))
    else if HostRefused(p, c) then exists host :: AsksFor(c, host) && answer == Err(HostText(host))
    else if k < |tape| then answer == tape[k]
    else answer == Err(Ascii("tape exhausted"))
  }

  lemma AnswerIsRuled(p: OraclePolicy, tape: Tape, calls: seq<Call>, i: nat)
    requires i < |calls|
    ensures RuledAnswer(p, tape, calls, i, AnswerTo(ViewOf(p), tape, calls[..i], calls[i]))
  {
    hide Decimal, DigitsOf, AsksFor, Ascii, Permits, TapeCalls, Forwarded, MethodRefused, HostRefused, Denial;
    DecimalDigits(p.maxToolCalls);
    ListsDecide(p, calls[i]);
    TapeCallsForwarded(p, calls[..i]);
  }

  /** Every successful replay of a policy document answers each call by its lists: past the budget, refused for its
      method, refused for its host, or from the next entry of the tape. */
  lemma ReplayFollowsLists(p: OraclePolicy, input: GuestInput, fuel: nat, backend: Backend)
    requires Encodable(p) && AllUtf8(p, backend.utf8) && input.policyCanonical == Canonical(p)
    requires Replayed(input, fuel, backend).Ok?
    ensures var run := Replayed(input, fuel, backend).value.run;
            |run.calls| == |run.answers| &&
            forall i: nat | i < |run.calls| :: RuledAnswer(p, input.tape, run.calls, i, run.answers[i])
  {
    PolicyRoundTrip(p, backend.utf8);
    CanonicalNotEmpty(p);
    ReplayEnforcesPolicy(input, fuel, backend);
    hide Replayed, Parse, RuledAnswer, AnswerTo, ViewOf, StateAfter, Forwarded, WithinCap;
    var run := Replayed(input, fuel, backend).value.run;
    forall i: nat | i < |run.calls|
      ensures RuledAnswer(p, input.tape, run.calls, i, run.answers[i])
    {
      AnswerIsRuled(p, input.tape, run.calls, i);
    }
  }

  // ----- Dry runs -----

  /** The registered schemas are JSON values, one a host. */
  ghost predicate RegisteredSchemas(p: OraclePolicy) { Valid(Object(p.schemaVersions)) }

  /** The calls the live host sees: those the lists do not refuse. */
  ghost function LiveCalls(p: OraclePolicy, calls: seq<Call>): seq<Call> {
    if calls == [] then []
    else
      var n := |calls| - 1;
      LiveCalls(p, calls[..n]) + if Refused(p, calls[n]) then [] else [calls[n]]
  }

  lemma {:induction false} LiveCallsSeen(p: OraclePolicy, calls: seq<Call>)
    ensures LiveCalls(p, calls) == Seen(ViewOf(p), calls)
  {
    if calls != [] {
      hide Refused, Permits;
      LiveCallsSeen(p, calls[..|calls| - 1]);
      ListsDecide(p, calls[|calls| - 1]);
    }
  }

  ghost function MismatchText(host: Bytes): Bytes {
    Ascii("policy: response from '") + host + Ascii("' does not match registered schema")
  }

  /** What the response check makes of a response to call c: refused when a schema is registered for the host and the
      response is not JSON or does not conform; passed on otherwise. */
  ghost predicate CheckedResponse(p: OraclePolicy, parse: Parser, c: Call, response: Bytes, answer: Answer) {
    (forall m | m in p.schemaVersions && AsksFor(c, m.0) ::
       match parse(response)
       case Err(reason) => answer == Err(Ascii("policy: response is not valid JSON: ") + reason)
       case Ok(actual) => answer == if Conforms(m.1, actual) then Ok(response) else Err(MismatchText(m.0))) &&
    ((forall m | m in p.schemaVersions :: !AsksFor(c, m.0)) ==> answer == Ok(response))
  }

  /** What the dry run answers, and records, for call i. */
  ghost predicate RecordedAnswer(p: OraclePolicy, world: World, calls: seq<Call>, i: nat, answer: Answer)
    requires i < |calls|
  {
    var c := calls[i];
    if MethodRefused(p, c) then answer == Err(MethodText(c.name))
    else if HostRefused(p, c) then exists host :: AsksFor(c, host) && answer == Err(HostText(host))
    else
      var live := world.live(LiveCalls(p, calls[..i]) + [c]);
      if IsHttp(c) && live.Ok? then CheckedResponse(p, world.parse, c, live.value, answer) else answer == live
  }

  lemma ResponseIsChecked(p: OraclePolicy, parse: Parser, c: Call, response: Bytes)
    requires RegisteredSchemas(p)
    ensures CheckedResponse(p, parse, c, response,
                            match CheckResponseSchema(p, UrlOf(c), response, parse)
                            case Denied(m) => Err(m)
                            case Permitted => Ok(response))
  {
    hide AsksFor, Ascii, DomainOf, UrlOf, Conforms, SchemaMatches, Lookup, RegisteredSchemas;
    var host := DomainOf(UrlOf(c));
    AsksForExactly(c, host);
    forall m | m in p.schemaVersions
      ensures AsksFor(c, m.0) ==> m.0 == host && Lookup(p.schemaVersions, host) == Some(m.1)
    {
      AsksForExactly(c, m.0);
      RegisteredOnce(p, m);
    }
    LookupGives(p.schemaVersions, host);
    var schema, actual := Lookup(p.schemaVersions, host), parse(response);
    if schema.Some? && actual.Ok? {
      RegisteredValid(p, host);
      MatchesExactly(schema.value, actual.value);
    }
  }

  lemma RegisteredOnce(p: OraclePolicy, m: Member)
    requires RegisteredSchemas(p) && m in p.schemaVersions
    ensures Lookup(p.schemaVersions, m.0) == Some(m.1)
  {
    var j: nat :| j < |p.schemaVersions| && p.schemaVersions[j] == m;
    LookupMember(p.schemaVersions, j);
  }

  lemma RegisteredValid(p: OraclePolicy, host: Bytes)
    requires RegisteredSchemas(p) && Lookup(p.schemaVersions, host).Some?
    ensures Valid(Lookup(p.schemaVersions, host).value)
  {
    LookupValid(p.schemaVersions, host);
  }

  lemma LookupGives(members: seq<Member>, key: Bytes)
    ensures Lookup(members, key).Some? ==> exists m | m in members :: m.0 == key && m.1 == Lookup(members, key).value
  {}

  lemma LiveAnswerIsRecorded(p: OraclePolicy, world: World, calls: seq<Call>, i: nat)
    requires RegisteredSchemas(p) && i < |calls|
    ensures RecordedAnswer(p, world, calls, i, HostCall(p, world, Seen(ViewOf(p), calls[..i]), calls[i]).0)
  {
    hide AsksFor, Ascii, HostCall, Permits, MethodRefused, HostRefused, Denial, CheckResponseSchema, CheckedResponse,
         LiveCalls, Seen, RegisteredSchemas;
    var c := calls[i];
    ListsDecide(p, c);
    LiveCallsSeen(p, calls[..i]);
    HostStep(p, world, calls[..i], c);
    if Permits(ViewOf(p), c) {
      LiveAnswer(p, world, Seen(ViewOf(p), calls[..i]), c);
      var live := world.live(LiveCalls(p, calls[..i]) + [c]);
      if live.Ok? { ResponseIsChecked(p, world.parse, c, live.value); }
    }
  }

  /** Every answer of a dry run, and so every entry of the tape it records, follows from the lists, the live host and
      the registered schemas. */
  lemma DryRunFollowsLists(program: Program, p: OraclePolicy, world: World, fuel: nat)
    requires RegisteredSchemas(p)
    ensures var run := DryRun(program, p, world, fuel);
            |run.calls| == |run.answers| &&
            forall i: nat | i < |run.calls| :: RecordedAnswer(p, world, run.calls, i, run.answers[i])
  {
    DryRunIsLive(program, p, world, fuel);
    hide DryRun, RecordedAnswer, HostCall, Seen, RegisteredSchemas;
    var run := DryRun(program, p, world, fuel);
    forall i: nat | i < |run.calls|
      ensures RecordedAnswer(p, world, run.calls, i, run.answers[i])
    {
      LiveAnswerIsRecorded(p, world, run.calls, i);
    }
  }
}
