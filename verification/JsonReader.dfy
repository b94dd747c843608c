/** A reader of JSON text as RFC 8259 defines it, independent of the printer, and the round trip: the canonical text is
    JSON and reads back as the value it was printed from. */
module JsonReader {
  import opened ByteStrings
  import opened Json

  /** A value read from the front of a text and the text behind it. */
  datatype Parsed<+T> = Parsed(value: T, rest: Bytes) | Nothing

  // ----- Strings, section 7 -----

  /** Value of a hexadecimal digit in either case, or 16. */
  function HexValue(b: Byte): nat {
    if 48 <= b <= 57 then b - 48
    else if 65 <= b <= 70 then b - 55
    else if 97 <= b <= 102 then b - 87
    else 16
  }

  /** What stands behind a backslash. A code point of \u is read when it is a single byte in UTF-8. */
  function ReadEscape(t: Bytes): (r: Parsed<Byte>)
    ensures r.Parsed? ==> |r.rest| < |t|
  {
    if t == [] then Nothing
    else
      match t[0]
      case 34 => Parsed(34, t[1..])    // quotation mark
      case 92 => Parsed(92, t[1..])    // reverse solidus
      case 47 => Parsed(47, t[1..])    // solidus
      case 98 => Parsed(8, t[1..])     // b: backspace
      case 102 => Parsed(12, t[1..])   // f: form feed
      case 110 => Parsed(10, t[1..])   // n: line feed
      case 114 => Parsed(13, t[1..])   // r: carriage return
      case 116 => Parsed(9, t[1..])    // t: tab
      case 117 => ReadCodePoint(t)
      case _ => Nothing
  }

  function ReadCodePoint(t: Bytes): (r: Parsed<Byte>)
    ensures r.Parsed? ==> |r.rest| < |t|
  {
    if |t| < 5 then Nothing
    else
      var a, b, c, d := HexValue(t[1]), HexValue(t[2]), HexValue(t[3]), HexValue(t[4]);
      if a == 16 || b == 16 || c == 16 || d == 16 then Nothing
      else
        var code := ((a * 16 + b) * 16 + c) * 16 + d;
        if code < 128 then Parsed(code, t[5..]) else Nothing
  }

  /** The text of a string behind its opening quotation mark, through the closing one. Control characters must be
      escaped. */
  function ReadText(t: Bytes): (r: Parsed<Bytes>)
    ensures r.Parsed? ==> |r.rest| < |t|
    decreases |t|
  {
    if t == [] then Nothing
    else if t[0] == 34 then Parsed([], t[1..])
    else if t[0] < 32 then Nothing
    else
      var first := if t[0] == 92 then ReadEscape(t[1..]) else Parsed(t[0], t[1..]);
      match first
      case Nothing => Nothing
      case Parsed(b, rest) =>
        match ReadText(rest)
        case Nothing => Nothing
        case Parsed(s, after) => Parsed([b] + s, after)
  }

  // ----- Values, sections 3 to 6 -----

  /** How many bytes at the front can belong to a number. */
  function NumberRun(t: Bytes): (n: nat)
    ensures n <= |t|
  {
    if t == [] || !NumberByte(t[0]) then 0 else 1 + NumberRun(t[1..])
  }

  function ReadValue(t: Bytes): (r: Parsed<Json>)
    ensures r.Parsed? ==> |r.rest| < |t|
    decreases |t|, 0
  {
    if t == [] then Nothing
    else if t[0] == 34 then
      match ReadText(t[1..])
      case Nothing => Nothing
      case Parsed(s, rest) => Parsed(String(s), rest)
    else if t[0] == 91 then
      if |t| > 1 && t[1] == 93 then Parsed(Array([]), t[2..])
      else
        match ReadItems(t[1..])
        case Nothing => Nothing
        case Parsed(items, rest) => Parsed(Array(items), rest)
    else if t[0] == 123 then
      if |t| > 1 && t[1] == 125 then Parsed(Object([]), t[2..])
      else
        match ReadMembers(t[1..])
        case Nothing => Nothing
        case Parsed(members, rest) => Parsed(Object(members), rest)
    else if [110, 117, 108, 108] <= t then Parsed(Null, t[4..])
    else if [116, 114, 117, 101] <= t then Parsed(Bool(true), t[4..])
    else if [102, 97, 108, 115, 101] <= t then Parsed(Bool(false), t[5..])
    else if t[0] == 45 || 48 <= t[0] <= 57 then
      var n := NumberRun(t);
      if n > 0 then Parsed(Number(t[..n]), t[n..]) else Nothing
    else Nothing
  }

  /** Values separated by commas, through the closing bracket. */
  function ReadItems(t: Bytes): (r: Parsed<seq<Json>>)
    ensures r.Parsed? ==> |r.rest| < |t|
    decreases |t|, 1
  {
    match ReadValue(t)
    case Nothing => Nothing
    case Parsed(x, rest) =>
      if rest == [] then Nothing
      else if rest[0] == 93 then Parsed([x], rest[1..])
      else if rest[0] == 44 then
        match ReadItems(rest[1..])
        case Nothing => Nothing
        case Parsed(xs, after) => Parsed([x] + xs, after)
      else Nothing
  }

  /** A name, a colon and a value. */
  function ReadMember(t: Bytes): (r: Parsed<Member>)
    ensures r.Parsed? ==> |r.rest| < |t|
    decreases |t|, 1
  {
    if t == [] || t[0] != 34 then Nothing
    else
      match ReadText(t[1..])
      case Nothing => Nothing
      case Parsed(name, rest) =>
        if rest == [] || rest[0] != 58 then Nothing
        else
          match ReadValue(rest[1..])
          case Nothing => Nothing
          case Parsed(x, after) => Parsed((name, x), after)
  }

  /** Members separated by commas, through the closing brace. */
  function ReadMembers(t: Bytes): (r: Parsed<seq<Member>>)
    ensures r.Parsed? ==> |r.rest| < |t|
    decreases |t|, 2
  {
    match ReadMember(t)
    case Nothing => Nothing
    case Parsed(m, rest) =>
      if rest == [] then Nothing
      else if rest[0] == 125 then Parsed([m], rest[1..])
      else if rest[0] == 44 then
        match ReadMembers(rest[1..])
        case Nothing => Nothing
        case Parsed(ms, after) => Parsed([m] + ms, after)
      else Nothing
  }

  // ----- Strings read back -----

  lemma HexRead(d: nat)
    requires d < 16
    ensures HexValue(Hex(d)) == d
  {}

  lemma ShortEscapeRead(c: Byte, b: Byte, r: Bytes)
    requires c != 117 && ReadEscape([c]) == Parsed(b, [])
    ensures ReadEscape([c] + r) == Parsed(b, r)
  {
    assert ([c] + r)[1..] == r;
  }

  /** The escape of a byte, with what follows, reads as that byte. */
  lemma EscapeRead(b: Byte, r: Bytes)
    ensures var t := Escape(b) + r;
            if t[0] == 92 then ReadEscape(t[1..]) == Parsed(b, r) else b >= 32 && b != 34 && t == [b] + r
  {
    var e := Escape(b);
    if e[0] == 92 {
      assert (e + r)[1..] == e[1..] + r;
      if |e| == 2 {
        assert e[1..] == [e[1]];
        ShortEscapeRead(e[1], b, r);
      } else {
        HexRead(b / 16);
        HexRead(b % 16);
        var t := e[1..] + r;
        assert t[0] == 117 && t[1] == 48 && t[2] == 48 && t[3] == Hex(b / 16) && t[4] == Hex(b % 16);
        assert t[5..] == r;
      }
    }
  }

  /** A quoted string reads as the string. */
  lemma {:induction false} TextRead(s: Bytes, r: Bytes)
    ensures ReadText(EscapeAll(s) + [34] + r) == Parsed(s, r)
  {
    if s == [] {
      assert EscapeAll(s) + [34] + r == [34] + r && ([34] + r)[1..] == r;
    } else {
      EscapeAllCons(s, r);
      var rest := EscapeAll(s[1..]) + [34] + r;
      EscapeRead(s[0], rest);
      TextRead(s[1..], r);
      assert ([s[0]] + rest)[1..] == rest && [s[0]] + s[1..] == s;
      hide Escape, EscapeAll, ReadEscape;
    }
  }

  lemma QuoteRead(s: Bytes, r: Bytes)
    ensures (Quote(s) + r)[0] == 34 && ReadText((Quote(s) + r)[1..]) == Parsed(s, r)
  {
    hide ReadText, EscapeAll;
    TextRead(s, r);
    assert Quote(s) + r == [34] + (EscapeAll(s) + [34] + r);
  }

  // ----- Values read back -----

  lemma {:induction false} RunOfToken(token: Bytes, r: Bytes)
    requires Follow(r) && forall i | 0 <= i < |token| :: NumberByte(token[i])
    ensures NumberRun(token + r) == |token|
  {
    if token == [] {
      assert token + r == r;
    } else {
      assert (token + r)[1..] == token[1..] + r;
      RunOfToken(token[1..], r);
    }
  }

  lemma NumberRead(token: Bytes, r: Bytes)
    requires NumberToken(token) && Follow(r)
    ensures ReadValue(token + r) == Parsed(Number(token), r)
  {
    RunOfToken(token, r);
    var t := token + r;
    assert t[0] == token[0] && t[..|token|] == token && t[|token|..] == r;
  }

  lemma LiteralRead(v: Json, r: Bytes)
    requires v.Null? || v.Bool?
    ensures ReadValue(Print(v) + r) == Parsed(v, r)
  {
    var p := Print(v);
    assert (p + r)[0] == p[0] && (p + r)[..|p|] == p && (p + r)[|p|..] == r;
    if v == Bool(true) { assert (p + r)[1] == p[1]; }
  }

  lemma StringRead(s: Bytes, r: Bytes)
    ensures ReadValue(Print(String(s)) + r) == Parsed(String(s), r)
  {
    hide ReadText, Quote;
    QuoteRead(s, r);
    QuoteStart(s);
  }

  /** The canonical text of a value, whatever may follow it, reads as the same value, objects being key maps. */
  lemma {:induction false} PrintReads(v: Json, r: Bytes) returns (read: Json)
    requires Valid(v) && Follow(r)
    ensures ReadValue(Print(v) + r) == Parsed(read, r) && Same(v, read)
    decreases v, 2
  {
    match v
    case Null =>
      LiteralRead(v, r);
      return v;
    case Bool(_) =>
      LiteralRead(v, r);
      return v;
    case Number(token) =>
      NumberRead(token, r);
      return v;
    case String(s) =>
      StringRead(s, r);
      return v;
    case Array(_) => read := ArrayReads(v, r);
    case Object(_) => read := ObjectReads(v, r);
  }

  lemma ArrayText(v: Json, r: Bytes)
    requires v.Array?
    ensures Print(v) + r == [91] + ItemsText(v.items, v, r)
  {
    var t := PrintItems(v.items, v);
    assert ([91] + t + [93]) + r == [91] + (t + [93] + r);
  }

  lemma OpenArray(x: Bytes, items: seq<Json>, r: Bytes)
    requires x != [] && x[0] != 93 && ReadItems(x) == Parsed(items, r)
    ensures ReadValue([91] + x) == Parsed(Array(items), r)
  {
    assert ([91] + x)[1..] == x;
    hide ReadItems;
  }

  lemma EmptyArray(r: Bytes)
    ensures ReadValue([91] + ([93] + r)) == Parsed(Array([]), r)
  {
    assert ([91] + ([93] + r))[2..] == r;
  }

  lemma {:induction false} ArrayReads(v: Json, r: Bytes) returns (read: Json)
    requires Valid(v) && v.Array?
    ensures ReadValue(Print(v) + r) == Parsed(read, r) && Same(v, read)
    decreases v, 1
  {
    ArrayText(v, r);
    if v.items == [] {
      assert ItemsText(v.items, v, r) == [93] + r;
      EmptyArray(r);
      return v;
    }
    ItemsCons(v.items, v, r);
    var items := ItemsRead(v.items, v, r);
    OpenArray(ItemsText(v.items, v, r), items, r);
    read := Array(items);
  }

  lemma LastItem(t: Bytes, x: Json, r: Bytes)
    requires ReadValue(t) == Parsed(x, [93] + r)
    ensures ReadItems(t) == Parsed([x], r)
  {
    hide ReadValue;
    assert ([93] + r)[1..] == r;
  }

  lemma MoreItems(t: Bytes, x: Json, more: Bytes, xs: seq<Json>, r: Bytes)
    requires ReadValue(t) == Parsed(x, [44] + more) && ReadItems(more) == Parsed(xs, r)
    ensures ReadItems(t) == Parsed([x] + xs, r)
  {
    hide ReadValue;
    assert ([44] + more)[1..] == more;
  }

  lemma {:induction false} ItemsRead(items: seq<Json>, v: Json, r: Bytes) returns (read: seq<Json>)
    requires items != [] && forall i | 0 <= i < |items| :: items[i] < v && Valid(items[i])
    ensures ReadItems(ItemsText(items, v, r)) == Parsed(read, r)
    ensures |read| == |items| && forall i | 0 <= i < |items| :: Same(items[i], read[i])
    decreases v, 0, |items|
  {
    ItemsCons(items, v, r);
    var first := PrintReads(items[0], ItemsTail(items, v, r));
    hide Print, Valid, ReadValue, ReadItems, Same, ItemsText;
    if |items| == 1 {
      LastItem(ItemsText(items, v, r), first, r);
      read := [first];
    } else {
      var rest := ItemsRead(items[1..], v, r);
      MoreItems(ItemsText(items, v, r), first, ItemsText(items[1..], v, r), rest, r);
      read := [first] + rest;
      forall i | 0 <= i < |items|
        ensures Same(items[i], read[i])
      {
        if i > 0 { assert items[i] == items[1..][i - 1] && read[i] == rest[i - 1]; }
      }
    }
  }

  lemma OpenObject(x: Bytes, members: seq<Member>, r: Bytes)
    requires x != [] && x[0] != 125 && ReadMembers(x) == Parsed(members, r)
    ensures ReadValue([123] + x) == Parsed(Object(members), r)
  {
    assert ([123] + x)[1..] == x;
    hide ReadMembers;
  }

  lemma EmptyObject(r: Bytes)
    ensures ReadValue([123] + ([125] + r)) == Parsed(Object([]), r)
  {
    assert ([123] + ([125] + r))[2..] == r;
  }

  lemma {:induction false} ObjectReads(v: Json, r: Bytes) returns (read: Json)
    requires Valid(v) && v.Object?
    ensures ReadValue(Print(v) + r) == Parsed(read, r) && Same(v, read)
    decreases v, 1
  {
    var sorted := SortedMembers(v.members, v);
    ObjectText(v, r);
    hide Print, MembersText, ReadValue, ReadMembers;
    var members: seq<Member> := [];
    if sorted == [] {
      NoMembers(sorted, v, r);
      EmptyObject(r);
      NothingPaired(sorted, members);
    } else {
      ValidMembers(v.members, sorted);
      MembersCons(sorted, v, r);
      members := MembersRead(sorted, v, r);
      OpenObject(MembersText(sorted, v, r), members, r);
    }
    DistinctPermutation(KeyOf, v.members, sorted);
    PairedDistinct(sorted, members);
    SameObjects(v.members, members, sorted, members);
    read := Object(members);
  }

  lemma PairedDistinct(s: seq<Member>, t: seq<Member>)
    requires Paired(s, t) && DistinctBy(KeyOf, s)
    ensures DistinctBy(KeyOf, t)
  {
    forall i, j | 0 <= i < j < |t|
      ensures KeyOf(t[i]) != KeyOf(t[j])
    {
      assert KeyOf(s[i]) != KeyOf(s[j]);
    }
  }

  lemma LastMember(t: Bytes, m: Member, r: Bytes)
    requires ReadMember(t) == Parsed(m, [125] + r)
    ensures ReadMembers(t) == Parsed([m], r)
  {
    hide ReadMember;
    assert ([125] + r)[1..] == r;
  }

  lemma MoreMembers(t: Bytes, m: Member, more: Bytes, ms: seq<Member>, r: Bytes)
    requires ReadMember(t) == Parsed(m, [44] + more) && ReadMembers(more) == Parsed(ms, r)
    ensures ReadMembers(t) == Parsed([m] + ms, r)
  {
    hide ReadMember;
    assert ([44] + more)[1..] == more;
  }

  lemma OneMember(name: Bytes, x: Json, text: Bytes, r: Bytes)
    requires ReadValue(text) == Parsed(x, r)
    ensures ReadMember(Quote(name) + ([58] + text)) == Parsed((name, x), r)
  {
    hide ReadText, ReadValue, Quote;
    QuoteRead(name, [58] + text);
    assert ([58] + text)[1..] == text;
  }

  lemma {:induction false} MembersRead(members: seq<Member>, v: Json, r: Bytes) returns (read: seq<Member>)
    requires members != [] && forall m | m in members :: m.1 < v && Valid(m.1)
    ensures ReadMembers(MembersText(members, v, r)) == Parsed(read, r) && Paired(members, read)
    decreases v, 0, |members|
  {
    MembersCons(members, v, r);
    var m, tail := members[0], MembersTail(members, v, r);
    var x := PrintReads(m.1, tail);
    hide Print, Valid, ReadValue, ReadMembers, ReadMember, Same, MembersText, Quote, Paired;
    OneMember(m.0, x, Print(m.1) + tail, tail);
    var rest: seq<Member> := [];
    if |members| == 1 {
      LastMember(MembersText(members, v, r), (m.0, x), r);
      NothingPaired(members[1..], rest);
      assert [(m.0, x)] + rest == [(m.0, x)];
    } else {
      rest := MembersRead(members[1..], v, r);
      MoreMembers(MembersText(members, v, r), (m.0, x), MembersText(members[1..], v, r), rest, r);
    }
    read := [(m.0, x)] + rest;
    assert read[1..] == rest;
    PairedCons(members, read);
  }

  /** The canonical text as a whole is JSON text of the value. */
  lemma CanonicalTextReads(v: Json)
    requires Valid(v)
    ensures ReadValue(Print(v)).Parsed? && ReadValue(Print(v)).rest == [] && Same(v, ReadValue(Print(v)).value)
  {
    var read := PrintReads(v, []);
    assert Print(v) + [] == Print(v);
  }
}
