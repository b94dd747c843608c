/** What it means that a response matches a schema, place by place: the value at every path the schema reaches has the
    kind the schema names there. */
module Schemas {
  import opened Options
  import opened ByteStrings
  import opened Json
  import opened Hosts

  // ----- Paths -----

  datatype Place = Key(name: Bytes) | Index(i: nat)

  type Path = seq<Place>

  /** The value a path leads to. */
  function ValueAt(v: Json, path: Path): Option<Json>
    decreases |path|
  {
    if path == [] then Some(v)
    else
      match path[0]
      case Key(name) =>
        var member := if v.Object? then Lookup(v.members, name) else None;
        if member.Some? then ValueAt(member.value, path[1..]) else None
      case Index(i) => if v.Array? && i < |v.items| then ValueAt(v.items[i], path[1..]) else None
  }

  /** What a schema says about the values at a path: its first item speaks for every index. */
  function SchemaAt(schema: Json, path: Path): Option<Json>
    decreases |path|
  {
    if path == [] then Some(schema)
    else
      match path[0]
      case Key(name) =>
        var member := if schema.Object? then Lookup(schema.members, name) else None;
        if member.Some? then SchemaAt(member.value, path[1..]) else None
      case Index(_) => if schema.Array? && schema.items != [] then SchemaAt(schema.items[0], path[1..]) else None
  }

  ghost predicate OneKind(v: Json, w: Json) {
    (v.Null? <==> w.Null?) && (v.Bool? <==> w.Bool?) && (v.Number? <==> w.Number?) && (v.String? <==> w.String?) &&
    (v.Array? <==> w.Array?) && (v.Object? <==> w.Object?)
  }

  /** At a path the schema reaches, the value has the schema's kind, null standing for any; and a key the schema names
      in a value that is there is there too. */
  ghost predicate ConformsAt(schema: Json, actual: Json, path: Path) {
    var demanded, found := SchemaAt(schema, path), ValueAt(actual, path);
    demanded.Some? ==>
      (found.Some? && !demanded.value.Null? ==> OneKind(demanded.value, found.value)) &&
      (path != [] && path[|path| - 1].Key? && ValueAt(actual, path[..|path| - 1]).Some? ==> found.Some?)
  }

  ghost predicate Conforms(schema: Json, actual: Json) { forall path: Path :: ConformsAt(schema, actual, path) }

  // ----- The check is conformance -----

  lemma DropLast(path: Path)
    requires |path| > 1
    ensures path[..|path| - 1] != [] && path[..|path| - 1][0] == path[0]
    ensures path[..|path| - 1][1..] == path[1..][..|path[1..]| - 1]
    ensures path[|path| - 1] == path[1..][|path[1..]| - 1]
  {}

  lemma {:induction false} MatchConforms(schema: Json, actual: Json, path: Path)
    requires SchemaMatches(schema, actual)
    ensures ConformsAt(schema, actual, path)
    decreases |path|
  {
    if path != [] && SchemaAt(schema, path).Some? {
      if |path| > 1 { DropLast(path); }
      match path[0]
      case Key(name) =>
        var demanded := Lookup(schema.members, name).value;
        var j: nat :| j < |schema.members| && schema.members[j] == (name, demanded);
        var found := Lookup(actual.members, schema.members[j].0);
        assert found.Some? && SchemaMatches(schema.members[j].1, found.value);
        MatchConforms(demanded, found.value, path[1..]);
      case Index(i) =>
        if i < |actual.items| { MatchConforms(schema.items[0], actual.items[i], path[1..]); }
    }
  }

  /** Conformance of a value goes down to the value at its first place. */
  lemma ConformsBelow(schema: Json, actual: Json, place: Place, demanded: Json, found: Json, path: Path)
    requires Conforms(schema, actual)
    requires SchemaAt(schema, [place] + path) == SchemaAt(demanded, path)
    requires forall q: Path :: ValueAt(actual, [place] + q) == ValueAt(found, q)
    ensures ConformsAt(demanded, found, path)
  {
    assert ConformsAt(schema, actual, [place] + path);
    if path != [] {
      assert ([place] + path)[..|path|] == [place] + path[..|path| - 1];
    }
  }

  lemma BelowKey(v: Json, name: Bytes, path: Path)
    requires v.Object? && Lookup(v.members, name).Some?
    ensures ValueAt(v, [Key(name)] + path) == ValueAt(Lookup(v.members, name).value, path)
    ensures SchemaAt(v, [Key(name)] + path) == SchemaAt(Lookup(v.members, name).value, path)
  {
    assert ([Key(name)] + path)[1..] == path;
  }

  lemma BelowIndex(v: Json, i: nat, path: Path)
    requires v.Array?
    ensures i < |v.items| ==> ValueAt(v, [Index(i)] + path) == ValueAt(v.items[i], path)
    ensures v.items != [] ==> SchemaAt(v, [Index(i)] + path) == SchemaAt(v.items[0], path)
  {
    assert ([Index(i)] + path)[1..] == path;
  }

  lemma ConformsKey(schema: Json, actual: Json, name: Bytes)
    requires Conforms(schema, actual) && schema.Object? && Lookup(schema.members, name).Some?
    ensures actual.Object? && Lookup(actual.members, name).Some?
    ensures Conforms(Lookup(schema.members, name).value, Lookup(actual.members, name).value)
  {
    assert ConformsAt(schema, actual, []);
    assert ConformsAt(schema, actual, [Key(name)]);
    BelowKey(schema, name, []);
    assert [Key(name)] + [] == [Key(name)] && [Key(name)][..0] == [];
    var demanded, found := Lookup(schema.members, name).value, Lookup(actual.members, name).value;
    forall q: Path
      ensures ValueAt(actual, [Key(name)] + q) == ValueAt(found, q)
    {
      BelowKey(actual, name, q);
    }
    forall path: Path
      ensures ConformsAt(demanded, found, path)
    {
      BelowKey(schema, name, path);
      ConformsBelow(schema, actual, Key(name), demanded, found, path);
    }
  }

  lemma ConformsIndex(schema: Json, actual: Json, i: nat)
    requires Conforms(schema, actual) && schema.Array? && schema.items != [] && actual.Array? && i < |actual.items|
    ensures Conforms(schema.items[0], actual.items[i])
  {
    forall q: Path
      ensures ValueAt(actual, [Index(i)] + q) == ValueAt(actual.items[i], q)
    {
      BelowIndex(actual, i, q);
    }
    forall path: Path
      ensures ConformsAt(schema.items[0], actual.items[i], path)
    {
      BelowIndex(schema, i, path);
      ConformsBelow(schema, actual, Index(i), schema.items[0], actual.items[i], path);
    }
  }

  /** With distinct keys, looking one up finds its member. */
  lemma LookupMember(members: seq<Member>, j: nat)
    requires DistinctBy(KeyOf, members) && j < |members|
    ensures Lookup(members, members[j].0) == Some(members[j].1)
  {
    var found := Lookup(members, members[j].0);
    var m :| m in members && m.0 == members[j].0 && m.1 == found.value;
    DistinctEntry(KeyOf, members, m, members[j]);
  }

  lemma {:induction false} ConformsMatches(schema: Json, actual: Json)
    requires Valid(schema) && Conforms(schema, actual)
    ensures SchemaMatches(schema, actual)
    decreases schema
  {
    assert ConformsAt(schema, actual, []);
    match schema
    case Array(items) =>
      if items != [] {
        forall i | 0 <= i < |actual.items|
          ensures SchemaMatches(items[0], actual.items[i])
        {
          ConformsIndex(schema, actual, i);
          ConformsMatches(items[0], actual.items[i]);
        }
      }
    case Object(members) =>
      forall j | 0 <= j < |members|
        ensures var v := Lookup(actual.members, members[j].0);
                v.Some? && SchemaMatches(members[j].1, v.value)
      {
        LookupMember(members, j);
        ConformsKey(schema, actual, members[j].0);
        ConformsMatches(members[j].1, Lookup(actual.members, members[j].0).value);
      }
    case _ =>
  }

  /** The check of the source accepts a response exactly when it conforms at every path. */
  lemma MatchesExactly(schema: Json, actual: Json)
    requires Valid(schema)
    ensures SchemaMatches(schema, actual) <==> Conforms(schema, actual)
  {
    if SchemaMatches(schema, actual) {
      forall path: Path
        ensures ConformsAt(schema, actual, path)
      {
        MatchConforms(schema, actual, path);
      }
    }
    if Conforms(schema, actual) { ConformsMatches(schema, actual); }
  }

  // ----- What may change without breaking a match -----

  /** Whatever one value has, the other has with the same kind, and its arrays have no further items. */
  ghost predicate Covers(other: Json, actual: Json) {
    (forall path: Path | ValueAt(actual, path).Some? ::
       ValueAt(other, path).Some? && OneKind(ValueAt(actual, path).value, ValueAt(other, path).value)) &&
    (forall path: Path | path != [] && path[|path| - 1].Index? && ValueAt(other, path).Some? ::
       ValueAt(actual, path[..|path| - 1]).Some? ==> ValueAt(actual, path).Some?)
  }

  lemma {:induction false} PrefixReached(v: Json, path: Path)
    requires path != []
    ensures ValueAt(v, path).Some? ==> ValueAt(v, path[..|path| - 1]).Some?
    ensures SchemaAt(v, path).Some? ==> SchemaAt(v, path[..|path| - 1]).Some?
    decreases |path|
  {
    if |path| > 1 {
      DropLast(path);
      match path[0]
      case Key(name) =>
        if v.Object? && Lookup(v.members, name).Some? { PrefixReached(Lookup(v.members, name).value, path[1..]); }
      case Index(i) =>
        if v.Array? && i < |v.items| { PrefixReached(v.items[i], path[1..]); }
        if v.Array? && v.items != [] { PrefixReached(v.items[0], path[1..]); }
    }
  }

  /** Where the schema reaches, a covering value has nothing the covered one has not. */
  lemma {:induction false} ReachedInBoth(schema: Json, actual: Json, other: Json, path: Path)
    requires Conforms(schema, actual) && Covers(other, actual)
    requires SchemaAt(schema, path).Some? && ValueAt(other, path).Some?
    ensures ValueAt(actual, path).Some?
    decreases |path|
  {
    if path != [] {
      PrefixReached(schema, path);
      PrefixReached(other, path);
      ReachedInBoth(schema, actual, other, path[..|path| - 1]);
      assert ConformsAt(schema, actual, path);
    }
  }

  /** Replacing values by others of their kind and adding keys keeps a match, at any depth. */
  lemma CoveringMatches(schema: Json, actual: Json, other: Json)
    requires Valid(schema) && SchemaMatches(schema, actual) && Covers(other, actual)
    ensures SchemaMatches(schema, other)
  {
    MatchesExactly(schema, actual);
    forall path: Path
      ensures ConformsAt(schema, other, path)
    {
      if SchemaAt(schema, path).Some? {
        assert ConformsAt(schema, actual, path);
        if ValueAt(other, path).Some? {
          ReachedInBoth(schema, actual, other, path);
        } else if path != [] && ValueAt(other, path[..|path| - 1]).Some? {
          PrefixReached(schema, path);
          ReachedInBoth(schema, actual, other, path[..|path| - 1]);
        }
      }
    }
    MatchesExactly(schema, other);
  }

  /** A value of another kind, or a missing key, at a single place breaks the match. */
  lemma ViolationBreaks(schema: Json, actual: Json, path: Path)
    requires Valid(schema) && SchemaAt(schema, path).Some?
    requires ValueAt(actual, path).Some? ==>
               !SchemaAt(schema, path).value.Null? &&
               !OneKind(SchemaAt(schema, path).value, ValueAt(actual, path).value)
    requires ValueAt(actual, path).None? ==>
               path != [] && path[|path| - 1].Key? && ValueAt(actual, path[..|path| - 1]).Some?
    ensures !SchemaMatches(schema, actual)
  {
    MatchesExactly(schema, actual);
    assert !ConformsAt(schema, actual, path);
  }

  /** One more key in an object never breaks a match. */
  lemma ExtraKeyMatches(schema: Json, members: seq<Member>, extra: Member)
    requires Valid(schema) && SchemaMatches(schema, Object(members)) && forall m | m in members :: m.0 != extra.0
    ensures SchemaMatches(schema, Object(members + [extra]))
  {
    var actual, other := Object(members), Object(members + [extra]);
    forall path: Path | ValueAt(actual, path).Some?
      ensures ValueAt(other, path).Some? && OneKind(ValueAt(actual, path).value, ValueAt(other, path).value)
    {
      if path != [] { SameBelow(members, extra, path, path); }
    }
    forall path: Path | path != [] && path[|path| - 1].Index? && ValueAt(other, path).Some?
      ensures ValueAt(actual, path[..|path| - 1]).Some? ==> ValueAt(actual, path).Some?
    {
      if |path| > 1 && ValueAt(actual, path[..|path| - 1]).Some? {
        SameBelow(members, extra, path[..|path| - 1], path);
      }
    }
    CoveringMatches(schema, actual, other);
  }

  /** Behind a key it had before, the extended object has what it had. */
  lemma SameBelow(members: seq<Member>, extra: Member, front: Path, path: Path)
    requires front != [] && front <= path && ValueAt(Object(members), front).Some?
    ensures ValueAt(Object(members + [extra]), path) == ValueAt(Object(members), path)
  {
    assert path[0] == front[0];
    LookupExtended(members, extra, path[0].name);
  }

  lemma {:induction false} LookupExtended(members: seq<Member>, extra: Member, key: Bytes)
    ensures Lookup(members, key).Some? ==> Lookup(members + [extra], key) == Lookup(members, key)
  {
    if members != [] {
      assert (members + [extra])[1..] == members[1..] + [extra];
      LookupExtended(members[1..], extra, key);
    }
  }
}
