/** The canonical JSON printer of the policy document, and why two values print alike only when they are the same
    value with objects read as key maps. */
module Json {
  import opened ByteStrings

  type Member = (Bytes, Json)

  /** A JSON value. Numbers are kept as the token the number type prints; an object lists its members in the order
      its map iterates over them. */
  datatype Json =
    | Null
    | Bool(b: bool)
    | Number(token: Bytes)
    | String(s: Bytes)
    | Array(items: seq<Json>)
    | Object(members: seq<Member>)

  function KeyOf(m: Member): Bytes { m.0 }

  // ----- The printer -----

  /** Lower-case hexadecimal digit. */
  function Hex(d: nat): Byte
    requires d < 16
  {
    if d < 10 then 48 + d else 87 + d
  }

  /** Escaping of one byte: the two-character forms for quote, backslash, \b, \t, \n, \f and \r, \u00xx for the other
      control characters, everything else as it is. */
  function Escape(b: Byte): Bytes {
    if b == 34 then [92, 34]
    else if b == 92 then [92, 92]
    else if b == 8 then [92, 98]
    else if b == 9 then [92, 116]
    else if b == 10 then [92, 110]
    else if b == 12 then [92, 102]
    else if b == 13 then [92, 114]
    else if b < 32 then [92, 117, 48, 48, Hex(b / 16), Hex(b % 16)]
    else [b]
  }

  function EscapeAll(s: Bytes): Bytes {
    if s == [] then [] else Escape(s[0]) + EscapeAll(s[1..])
  }

  function Quote(s: Bytes): Bytes { [34] + EscapeAll(s) + [34] }

  /** The sorted members of an object that is part of the value v. */
  function SortedMembers(members: seq<Member>, ghost v: Json): (r: seq<Member>)
    requires forall m | m in members :: m.1 < v
    ensures multiset(r) == multiset(members)
    ensures forall m | m in r :: m.1 < v
  {
    var r := Sort(KeyOf, members);
    assert forall m | m in r :: m in members by {
      forall m | m in r
        ensures m in members
      {
        SortElements(KeyOf, members, m);
      }
    }
    r
  }

  function Print(v: Json): Bytes
    decreases v, 1
  {
    match v
    case Null => [110, 117, 108, 108]
    case Bool(b) => if b then [116, 114, 117, 101] else [102, 97, 108, 115, 101]
    case Number(token) => token
    case String(s) => Quote(s)
    case Array(items) => [91] + PrintItems(items, v) + [93]
    case Object(members) => [123] + PrintMembers(SortedMembers(members, v), v) + [125]
  }

  /** The items joined with commas. */
  function PrintItems(items: seq<Json>, ghost v: Json): Bytes
    requires forall i | 0 <= i < |items| :: items[i] < v
    decreases v, 0, |items|
  {
    if items == [] then []
    else if |items| == 1 then Print(items[0])
    else Print(items[0]) + [44] + PrintItems(items[1..], v)
  }

  function PrintMember(m: Member, ghost v: Json): Bytes
    requires m.1 < v
    decreases v, 0, 0
  {
    Quote(m.0) + [58] + Print(m.1)
  }

  /** The members joined with commas. */
  function PrintMembers(members: seq<Member>, ghost v: Json): Bytes
    requires forall m | m in members :: m.1 < v
    decreases v, 0, |members|
  {
    if members == [] then []
    else if |members| == 1 then PrintMember(members[0], v)
    else PrintMember(members[0], v) + [44] + PrintMembers(members[1..], v)
  }

  // ----- What a value is -----

  predicate NumberByte(b: Byte) {
    48 <= b <= 57 || b == 45 || b == 43 || b == 46 || b == 101 || b == 69
  }

  /** A number token: not empty, made of digits, signs, the decimal point and the exponent letter, and starting with
      a digit or a minus sign. */
  ghost predicate NumberToken(t: Bytes) {
    t != [] && (t[0] == 45 || 48 <= t[0] <= 57) && forall i | 0 <= i < |t| :: NumberByte(t[i])
  }

  /** Number tokens are tokens and the keys of an object are distinct, at every depth. */
  ghost predicate Valid(v: Json) {
    match v
    case Number(token) => NumberToken(token)
    case Array(items) => forall x | x in items :: Valid(x)
    case Object(members) => DistinctBy(KeyOf, members) && forall m | m in members :: Valid(m.1)
    case _ => true
  }

  /** Equality of values with objects read as key maps. */
  ghost predicate Same(v: Json, w: Json) {
    match v
    case Array(items) =>
      w.Array? && |items| == |w.items| && forall i | 0 <= i < |items| :: Same(items[i], w.items[i])
    case Object(members) =>
      w.Object? && Keys(members) == Keys(w.members) &&
      forall m, n | m in members && n in w.members && m.0 == n.0 :: Same(m.1, n.1)
    case _ => v == w
  }

  ghost function Keys(members: seq<Member>): set<Bytes> { set m | m in members :: m.0 }

  /** Member lists with the same keys and the same values, place by place. */
  ghost predicate Paired(s: seq<Member>, t: seq<Member>) {
    |s| == |t| && forall i | 0 <= i < |s| :: s[i].0 == t[i].0 && Same(s[i].1, t[i].1)
  }

  lemma PairedCons(s: seq<Member>, t: seq<Member>)
    requires s != [] && t != [] && s[0].0 == t[0].0 && Same(s[0].1, t[0].1) && Paired(s[1..], t[1..])
    ensures Paired(s, t)
  {
    hide Same;
    forall i | 0 <= i < |s|
      ensures s[i].0 == t[i].0 && Same(s[i].1, t[i].1)
    {
      if i > 0 { assert s[i] == s[1..][i - 1] && t[i] == t[1..][i - 1]; }
    }
  }

  // ----- Reading back: each printed form ends where it says it ends -----

  /** What may follow a value: the end of the text, a comma or a closing bracket. */
  ghost predicate Follow(r: Bytes) { r == [] || r[0] == 44 || r[0] == 93 || r[0] == 125 }

  lemma EscapeHead(a: Byte, b: Byte, r: Bytes, q: Bytes)
    requires Escape(a) + r == Escape(b) + q
    ensures a == b && r == q
  {
    var x, y := Escape(a), Escape(b);
    PrefixAt(x, r, 0);
    PrefixAt(y, q, 0);
    if |x| > 1 && |y| > 1 {
      PrefixAt(x, r, 1);
      PrefixAt(y, q, 1);
    }
    if |x| == 6 && |y| == 6 {
      PrefixAt(x, r, 4);
      PrefixAt(y, q, 4);
      PrefixAt(x, r, 5);
      PrefixAt(y, q, 5);
    }
    SplitEqual(x, y, r, q);
  }

  lemma PrefixAt(x: Bytes, r: Bytes, i: nat)
    requires i < |x|
    ensures (x + r)[i] == x[i]
  {}

  lemma TextFirstByte(s: Bytes, r: Bytes)
    ensures (EscapeAll(s) + [34] + r)[0] == 34 <==> s == []
  {
    if s != [] { assert EscapeAll(s)[0] == Escape(s[0])[0]; }
  }

  /** A quoted string is self-delimiting. */
  lemma {:induction false} EscapeAllUnambiguous(s: Bytes, t: Bytes, r: Bytes, q: Bytes)
    requires EscapeAll(s) + [34] + r == EscapeAll(t) + [34] + q
    ensures s == t && r == q
  {
    TextFirstByte(s, r);
    TextFirstByte(t, q);
    if s == [] {
      assert EscapeAll(s) + [34] + r == [34] + r && EscapeAll(t) + [34] + q == [34] + q;
      SplitEqual([34], [34], r, q);
    } else {
      EscapeAllCons(s, r);
      EscapeAllCons(t, q);
      var s', t' := EscapeAll(s[1..]) + [34] + r, EscapeAll(t[1..]) + [34] + q;
      EscapeHead(s[0], t[0], s', t');
      EscapeAllUnambiguous(s[1..], t[1..], r, q);
      assert s == [s[0]] + s[1..] && t == [t[0]] + t[1..];
    }
  }

  lemma EscapeAllCons(s: Bytes, r: Bytes)
    requires s != []
    ensures EscapeAll(s) + [34] + r == Escape(s[0]) + (EscapeAll(s[1..]) + [34] + r)
  {}

  lemma QuoteStart(s: Bytes)
    ensures Quote(s) != [] && Quote(s)[0] == 34
  {}

  lemma QuoteUnambiguous(s: Bytes, t: Bytes, r: Bytes, q: Bytes)
    requires Quote(s) + r == Quote(t) + q
    ensures s == t && r == q
  {
    var x, y := EscapeAll(s) + [34] + r, EscapeAll(t) + [34] + q;
    assert Quote(s) + r == [34] + x && Quote(t) + q == [34] + y;
    SplitEqual([34], [34], x, y);
    EscapeAllUnambiguous(s, t, r, q);
  }

  lemma NextByte(s: Bytes, t: Bytes, r: Bytes, q: Bytes)
    requires s + r == t + q && |s| < |t|
    ensures r != [] && r[0] == t[|s|]
  {
    assert (s + r)[|s|] == (t + q)[|s|];
  }

  lemma TokenUnambiguous(s: Bytes, t: Bytes, r: Bytes, q: Bytes)
    requires s + r == t + q && Follow(r) && Follow(q)
    requires forall i | 0 <= i < |s| :: NumberByte(s[i])
    requires forall i | 0 <= i < |t| :: NumberByte(t[i])
    ensures s == t && r == q
  {
    if |s| < |t| {
      NextByte(s, t, r, q);
      assert false;
    } else if |t| < |s| {
      NextByte(t, s, q, r);
      assert false;
    }
    SplitEqual(s, t, r, q);
  }

  /** The first byte of a value tells what kind of value it is, and is never a closing bracket or a comma. */
  ghost function KindByte(v: Json): Byte
    requires Valid(v)
  {
    match v
    case Null => 110
    case Bool(b) => if b then 116 else 102
    case Number(token) => token[0]
    case String(_) => 34
    case Array(_) => 91
    case Object(_) => 123
  }

  lemma FirstByte(v: Json)
    requires Valid(v)
    ensures Print(v) != [] && Print(v)[0] == KindByte(v)
  {}

  lemma SameKind(v: Json, w: Json, r: Bytes, q: Bytes)
    requires Valid(v) && Valid(w) && Print(v) + r == Print(w) + q
    ensures KindByte(v) == KindByte(w)
  {
    FirstByte(v);
    FirstByte(w);
    assert (Print(v) + r)[0] == Print(v)[0] && (Print(w) + q)[0] == Print(w)[0];
  }

  /** Reading a value from the front of a text gives the value and the rest back. */
  lemma {:induction false} PrintUnambiguous(v: Json, w: Json, r: Bytes, q: Bytes)
    requires Valid(v) && Valid(w) && Follow(r) && Follow(q)
    requires Print(v) + r == Print(w) + q
    ensures Same(v, w) && r == q
    decreases v, 2
  {
    SameKind(v, w, r, q);
    match v
    case Null => SplitEqual(Print(v), Print(w), r, q);
    case Bool(_) => SplitEqual(Print(v), Print(w), r, q);
    case Number(t) => TokenUnambiguous(t, w.token, r, q);
    case String(s) => QuoteUnambiguous(s, w.s, r, q);
    case Array(items) => ArrayUnambiguous(v, w, r, q);
    case Object(members) => ObjectUnambiguous(v, w, r, q);
  }

  lemma {:induction false} ArrayUnambiguous(v: Json, w: Json, r: Bytes, q: Bytes)
    requires Valid(v) && Valid(w) && v.Array? && w.Array? && Print(v) + r == Print(w) + q
    ensures Same(v, w) && r == q
    decreases v, 1
  {
    var x, y := ItemsText(v.items, v, r), ItemsText(w.items, w, q);
    assert Print(v) + r == [91] + x && Print(w) + q == [91] + y;
    SplitEqual([91], [91], x, y);
    ItemsUnambiguous(v.items, w.items, v, w, r, q);
  }

  lemma ObjectText(v: Json, r: Bytes)
    requires v.Object?
    ensures Print(v) + r == [123] + MembersText(SortedMembers(v.members, v), v, r)
  {
    var t := PrintMembers(SortedMembers(v.members, v), v);
    assert ([123] + t + [125]) + r == [123] + (t + [125] + r);
  }

  lemma {:induction false} ObjectUnambiguous(v: Json, w: Json, r: Bytes, q: Bytes)
    requires Valid(v) && Valid(w) && v.Object? && w.Object? && Print(v) + r == Print(w) + q
    ensures Same(v, w) && r == q
    decreases v, 1
  {
    var m, n := SortedMembers(v.members, v), SortedMembers(w.members, w);
    var x, y := MembersText(m, v, r), MembersText(n, w, q);
    ObjectText(v, r);
    ObjectText(w, q);
    SplitEqual([123], [123], x, y);
    hide Print, MembersText;
    ValidMembers(v.members, m);
    ValidMembers(w.members, n);
    MembersUnambiguous(m, n, v, w, r, q);
    SameObjects(v.members, w.members, m, n);
  }

  lemma ValidMembers(members: seq<Member>, sorted: seq<Member>)
    requires multiset(sorted) == multiset(members)
    requires forall m | m in members :: Valid(m.1)
    ensures forall m | m in sorted :: Valid(m.1)
  {
    forall m | m in sorted
      ensures Valid(m.1)
    {
      SameElements(sorted, members, m);
    }
  }

  /** The items, the closing bracket and the rest of the text. */
  ghost function ItemsText(items: seq<Json>, v: Json, r: Bytes): Bytes
    requires forall i | 0 <= i < |items| :: items[i] < v
  {
    PrintItems(items, v) + [93] + r
  }

  /** What follows the first item. */
  ghost function ItemsTail(items: seq<Json>, v: Json, r: Bytes): (t: Bytes)
    requires items != [] && forall i | 0 <= i < |items| :: items[i] < v
    ensures t != [] && Follow(t) && t[0] == if |items| == 1 then 93 else 44
  {
    if |items| == 1 then [93] + r else [44] + ItemsText(items[1..], v, r)
  }

  lemma ItemsCons(items: seq<Json>, v: Json, r: Bytes)
    requires items != [] && forall i | 0 <= i < |items| :: items[i] < v && Valid(items[i])
    ensures ItemsText(items, v, r) == Print(items[0]) + ItemsTail(items, v, r)
    ensures ItemsText(items, v, r)[0] != 93
  {
    FirstByte(items[0]);
    PrintItemsCons(items, v);
    hide Print, PrintItems, Valid, KindByte;
    var p := Print(items[0]);
    if |items| > 1 {
      Regroup(p, [44], PrintItems(items[1..], v), [93], r);
    } else {
      Regroup(p, [], [], [93], r);
      assert p + [] == p && [] + [93] + r == [93] + r;
    }
    PrefixAt(p, ItemsTail(items, v, r), 0);
    hide ItemsText, ItemsTail;
  }

  lemma PrintItemsCons(items: seq<Json>, v: Json)
    requires items != [] && forall i | 0 <= i < |items| :: items[i] < v
    ensures PrintItems(items, v) ==
            Print(items[0]) + if |items| == 1 then [] else [44] + PrintItems(items[1..], v)
  {}

  lemma Regroup(p: Bytes, c: Bytes, rest: Bytes, e: Bytes, r: Bytes)
    ensures (p + c + rest) + e + r == p + (c + (rest + e + r))
    ensures (p + c + rest) == p + (c + rest)
  {}

  lemma {:induction false} ItemsUnambiguous(items: seq<Json>, others: seq<Json>, v: Json, w: Json, r: Bytes, q: Bytes)
    requires forall i | 0 <= i < |items| :: items[i] < v && Valid(items[i])
    requires forall i | 0 <= i < |others| :: others[i] < w && Valid(others[i])
    requires ItemsText(items, v, r) == ItemsText(others, w, q)
    ensures |items| == |others| && forall i | 0 <= i < |items| :: Same(items[i], others[i])
    ensures r == q
    decreases v, 0, |items|
  {
    if items != [] { ItemsCons(items, v, r); }
    if others != [] { ItemsCons(others, w, q); }
    if items == [] {
      assert ItemsText(items, v, r) == [93] + r && ItemsText(others, w, q) == [93] + q;
      SplitEqual([93], [93], r, q);
    } else {
      var x, y := ItemsTail(items, v, r), ItemsTail(others, w, q);
      PrintUnambiguous(items[0], others[0], x, y);
      if |items| == 1 {
        SplitEqual([93], [93], r, q);
      } else {
        SplitEqual([44], [44], ItemsText(items[1..], v, r), ItemsText(others[1..], w, q));
        ItemsUnambiguous(items[1..], others[1..], v, w, r, q);
        forall i | 0 <= i < |items|
          ensures Same(items[i], others[i])
        {
          if i > 0 { assert items[i] == items[1..][i - 1] && others[i] == others[1..][i - 1]; }
        }
      }
    }
  }

  ghost function MembersText(members: seq<Member>, v: Json, r: Bytes): Bytes
    requires forall m | m in members :: m.1 < v
  {
    PrintMembers(members, v) + [125] + r
  }

  ghost function MembersTail(members: seq<Member>, v: Json, r: Bytes): (t: Bytes)
    requires members != [] && forall m | m in members :: m.1 < v
    ensures t != [] && Follow(t) && t[0] == if |members| == 1 then 125 else 44
  {
    if |members| == 1 then [125] + r else [44] + MembersText(members[1..], v, r)
  }

  lemma MembersCons(members: seq<Member>, v: Json, r: Bytes)
    requires members != [] && forall m | m in members :: m.1 < v
    ensures MembersText(members, v, r) ==
            Quote(members[0].0) + ([58] + (Print(members[0].1) + MembersTail(members, v, r)))
    ensures MembersText(members, v, r)[0] != 125
  {
    hide Print, Quote;
    var t := MembersTail(members, v, r);
    var m := PrintMember(members[0], v);
    if |members| > 1 { Regroup(m, [44], PrintMembers(members[1..], v), [125], r); }
    else { Regroup(m, [], [], [125], r); }
    var k, x := Quote(members[0].0), Print(members[0].1);
    Regroup(k, [58], x, [], t);
    QuoteStart(members[0].0);
    PrefixAt(k, [58] + (x + t), 0);
  }

  lemma {:induction false} MembersUnambiguous(members: seq<Member>, others: seq<Member>, v: Json, w: Json,
                                              r: Bytes, q: Bytes)
    requires forall m | m in members :: m.1 < v && Valid(m.1)
    requires forall m | m in others :: m.1 < w && Valid(m.1)
    requires MembersText(members, v, r) == MembersText(others, w, q)
    ensures Paired(members, others) && r == q
    decreases v, 0, |members|
  {
    hide MembersText, Quote, Print, Same, Paired;
    if members != [] { MembersCons(members, v, r); }
    if others != [] { MembersCons(others, w, q); }
    if members == [] {
      NoMembers(members, v, r);
      NoMembersIsEnd(others, w, q);
      SplitEqual([125], [125], r, q);
      NothingPaired(members, others);
    } else {
      if others == [] { NoMembers(others, w, q); }
      var m, n := members[0], others[0];
      var x, y := MembersTail(members, v, r), MembersTail(others, w, q);
      QuoteUnambiguous(m.0, n.0, [58] + (Print(m.1) + x), [58] + (Print(n.1) + y));
      SplitEqual([58], [58], Print(m.1) + x, Print(n.1) + y);
      PrintUnambiguous(m.1, n.1, x, y);
      if |members| == 1 {
        SplitEqual([125], [125], r, q);
        NothingPaired(members[1..], others[1..]);
      } else {
        SplitEqual([44], [44], MembersText(members[1..], v, r), MembersText(others[1..], w, q));
        MembersUnambiguous(members[1..], others[1..], v, w, r, q);
      }
      PairedCons(members, others);
    }
  }

  lemma NoMembers(members: seq<Member>, v: Json, r: Bytes)
    requires members == []
    ensures MembersText(members, v, r) == [125] + r
  {}

  lemma NoMembersIsEnd(members: seq<Member>, v: Json, r: Bytes)
    requires (forall m | m in members :: m.1 < v) && MembersText(members, v, r)[0] == 125
    ensures members == [] && MembersText(members, v, r) == [125] + r
  {
    if members != [] { MembersCons(members, v, r); }
  }

  lemma NothingPaired(s: seq<Member>, t: seq<Member>)
    requires s == [] && t == []
    ensures Paired(s, t)
  {}

  lemma SortedEntry(members: seq<Member>, sorted: seq<Member>, m: Member) returns (i: nat)
    requires multiset(sorted) == multiset(members) && m in members
    ensures i < |sorted| && sorted[i] == m
  {
    SameElements(sorted, members, m);
    i :| 0 <= i < |sorted| && sorted[i] == m;
  }

  /** Equal keys in two objects have equal values, when the sorted lists are paired. */
  lemma SameValueAt(members: seq<Member>, others: seq<Member>, sorted: seq<Member>, sortedOthers: seq<Member>,
                    m: Member, n: Member)
    requires multiset(sorted) == multiset(members) && multiset(sortedOthers) == multiset(others)
    requires DistinctBy(KeyOf, others) && Paired(sorted, sortedOthers)
    requires m in members && n in others && m.0 == n.0
    ensures Same(m.1, n.1)
  {
    hide Same, DistinctBy;
    var i := SortedEntry(members, sorted, m);
    SameElements(sortedOthers, others, sortedOthers[i]);
    DistinctEntry(KeyOf, others, n, sortedOthers[i]);
  }

  lemma PairedKeys(s: seq<Member>, t: seq<Member>)
    requires Paired(s, t)
    ensures Keys(s) == Keys(t)
  {
    hide Same;
    forall k
      ensures k in Keys(s) <==> k in Keys(t)
    {
      if k in Keys(s) {
        var i :| 0 <= i < |s| && s[i].0 == k;
        assert t[i] in t;
      }
      if k in Keys(t) {
        var i :| 0 <= i < |t| && t[i].0 == k;
        assert s[i] in s;
      }
    }
  }

  /** Paired sorted member lists are equal objects. */
  lemma SameObjects(members: seq<Member>, others: seq<Member>, sorted: seq<Member>, sortedOthers: seq<Member>)
    requires multiset(sorted) == multiset(members) && multiset(sortedOthers) == multiset(others)
    requires DistinctBy(KeyOf, members) && DistinctBy(KeyOf, others) && Paired(sorted, sortedOthers)
    ensures Same(Object(members), Object(others))
  {
    SortedKeys(members, sorted);
    SortedKeys(others, sortedOthers);
    PairedKeys(sorted, sortedOthers);
    SameFromParts(members, others) by {
      forall m, n | m in members && n in others && m.0 == n.0
        ensures Same(m.1, n.1)
      {
        hide Same, Keys, Paired;
        SameValueAt(members, others, sorted, sortedOthers, m, n);
      }
    }
  }

  lemma SameFromParts(members: seq<Member>, others: seq<Member>)
    requires Keys(members) == Keys(others)
    requires forall m, n | m in members && n in others && m.0 == n.0 :: Same(m.1, n.1)
    ensures Same(Object(members), Object(others))
  {}

  // ----- Equal values print alike -----

  lemma {:induction false} SameSortedKeys(s: seq<Member>, r: seq<Member>)
    requires SortedBy(KeyOf, s) && SortedBy(KeyOf, r) && DistinctBy(KeyOf, s) && DistinctBy(KeyOf, r)
    requires Keys(s) == Keys(r)
    ensures |s| == |r| && forall i | 0 <= i < |s| :: s[i].0 == r[i].0
  {
    if s == [] {
      assert r != [] ==> r[0].0 in Keys(r);
    } else {
      assert s[0].0 in Keys(r);
      assert r != [] && r[0].0 in Keys(s);
      var m :| m in r && m.0 == s[0].0;
      var n :| n in s && n.0 == r[0].0;
      HeadIsLeast(KeyOf, r, m);
      HeadIsLeast(KeyOf, s, n);
      LexAntisymmetric(s[0].0, r[0].0);
      TailKeys(s);
      TailKeys(r);
      SameSortedKeys(s[1..], r[1..]);
      forall i | 0 <= i < |s|
        ensures s[i].0 == r[i].0
      {
        if i > 0 { assert s[i] == s[1..][i - 1] && r[i] == r[1..][i - 1]; }
      }
    }
  }

  lemma TailKeys(s: seq<Member>)
    requires s != [] && DistinctBy(KeyOf, s)
    ensures Keys(s[1..]) == Keys(s) - {s[0].0}
  {
    forall k
      ensures k in Keys(s[1..]) <==> k in Keys(s) && k != s[0].0
    {
      if k in Keys(s[1..]) {
        var m :| m in s[1..] && m.0 == k;
        var i :| 0 <= i < |s[1..]| && s[1..][i] == m;
        assert KeyOf(s[0]) != KeyOf(s[i + 1]);
      }
      if k in Keys(s) && k != s[0].0 {
        var m :| m in s && m.0 == k;
        var i :| 0 <= i < |s| && s[i] == m;
        assert s[1..][i - 1] == m;
      }
    }
  }

  lemma SortedKeys(members: seq<Member>, sorted: seq<Member>)
    requires multiset(members) == multiset(sorted)
    ensures Keys(members) == Keys(sorted)
  {
    forall m
      ensures m in members <==> m in sorted
    {
      SameElements(members, sorted, m);
    }
  }

  lemma {:induction false} SameImpliesSamePrint(v: Json, w: Json)
    requires Valid(v) && Valid(w) && Same(v, w)
    ensures Print(v) == Print(w)
    decreases v, 1
  {
    match v
    case Array(items) =>
      SameItems(items, w.items, v, w);
    case Object(members) =>
      var m, n := SortedMembers(members, v), SortedMembers(w.members, w);
      SortSorted(KeyOf, members);
      SortSorted(KeyOf, w.members);
      DistinctPermutation(KeyOf, members, m);
      DistinctPermutation(KeyOf, w.members, n);
      SortedKeys(members, m);
      SortedKeys(w.members, n);
      SameSortedKeys(m, n);
      ValidMembers(members, m);
      ValidMembers(w.members, n);
      SamePairs(v, w, m, n);
      SameMembers(m, n, v, w);
    case _ =>
  }

  lemma SamePairs(v: Json, w: Json, m: seq<Member>, n: seq<Member>)
    requires v.Object? && w.Object? && Same(v, w)
    requires multiset(m) == multiset(v.members) && multiset(n) == multiset(w.members)
    requires |m| == |n| && forall i | 0 <= i < |m| :: m[i].0 == n[i].0
    ensures Paired(m, n)
  {
    forall i | 0 <= i < |m|
      ensures Same(m[i].1, n[i].1)
    {
      SameElements(m, v.members, m[i]);
      SameElements(n, w.members, n[i]);
    }
  }

  lemma {:induction false} SameItems(items: seq<Json>, others: seq<Json>, v: Json, w: Json)
    requires forall i | 0 <= i < |items| :: items[i] < v && Valid(items[i])
    requires forall i | 0 <= i < |others| :: others[i] < w && Valid(others[i])
    requires |items| == |others| && forall i | 0 <= i < |items| :: Same(items[i], others[i])
    ensures PrintItems(items, v) == PrintItems(others, w)
    decreases v, 0, |items|
  {
    if items != [] {
      SameImpliesSamePrint(items[0], others[0]);
      SameItems(items[1..], others[1..], v, w);
    }
  }

  lemma {:induction false} SameMembers(m: seq<Member>, n: seq<Member>, v: Json, w: Json)
    requires forall x | x in m :: x.1 < v && Valid(x.1)
    requires forall x | x in n :: x.1 < w && Valid(x.1)
    requires Paired(m, n)
    ensures PrintMembers(m, v) == PrintMembers(n, w)
    decreases v, 0, |m|
  {
    hide Print, Valid, Same, Quote;
    if m != [] {
      SameImpliesSamePrint(m[0].1, n[0].1);
      SameMembers(m[1..], n[1..], v, w);
    }
  }

  /** Canonical text is unambiguous and order free: two values print to the same bytes exactly when they are the same
      value with objects read as key maps. */
  lemma CanonicalTextIsIdentity(v: Json, w: Json)
    requires Valid(v) && Valid(w)
    ensures Print(v) == Print(w) <==> Same(v, w)
  {
    if Same(v, w) { SameImpliesSamePrint(v, w); }
    if Print(v) == Print(w) {
      assert Print(v) + [] == Print(w) + [];
      PrintUnambiguous(v, w, [], []);
    }
  }

  lemma {:induction false} SameReflexive(v: Json)
    requires Valid(v)
    ensures Same(v, v)
  {
    match v
    case Array(items) =>
      forall i | 0 <= i < |items|
        ensures Same(items[i], items[i])
      {
        SameReflexive(items[i]);
      }
    case Object(members) =>
      forall m, n | m in members && n in members && m.0 == n.0
        ensures Same(m.1, n.1)
      {
        DistinctEntry(KeyOf, members, m, n);
        SameReflexive(m.1);
      }
    case _ =>
  }

  /** Any iteration order of the same object gives the same text. */
  lemma PrintIgnoresMemberOrder(members: seq<Member>, shuffled: seq<Member>)
    requires Valid(Object(members)) && multiset(members) == multiset(shuffled)
    ensures Valid(Object(shuffled)) && Print(Object(shuffled)) == Print(Object(members))
  {
    DistinctPermutation(KeyOf, members, shuffled);
    ValidMembers(members, shuffled);
    SortedKeys(members, shuffled);
    forall m, n | m in members && n in shuffled && m.0 == n.0
      ensures Same(m.1, n.1)
    {
      SameElements(members, shuffled, n);
      DistinctEntry(KeyOf, members, m, n);
      SameReflexive(m.1);
    }
    SameImpliesSamePrint(Object(members), Object(shuffled));
  }

  /** Canonical text is never empty, which is what tells an absent schema from every present one. */
  lemma CanonicalTextNotEmpty(v: Json)
    requires Valid(v)
    ensures Print(v) != []
  {
    FirstByte(v);
  }
}
