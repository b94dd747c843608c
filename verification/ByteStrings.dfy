/** Byte strings: the lexicographic order Rust uses for str, sorting by it, and little-endian integers. */
module ByteStrings {

  type Byte = b: int | 0 <= b < 256

  type Bytes = seq<Byte>

  // ----- Order -----

  /** The order of str and [u8] in Rust. */
  predicate LexLe(a: Bytes, b: Bytes) {
    a == [] || (b != [] && (a[0] < b[0] || (a[0] == b[0] && LexLe(a[1..], b[1..]))))
  }

  /** The first place at which the strings differ, both having one there. */
  ghost predicate DifferAt(a: Bytes, b: Bytes, k: nat) {
    k < |a| && k < |b| && a[..k] == b[..k] && a[k] != b[k]
  }

  lemma DifferLater(a: Bytes, b: Bytes, k: nat)
    requires a != [] && b != [] && a[0] == b[0]
    ensures DifferAt(a, b, k + 1) <==> DifferAt(a[1..], b[1..], k)
    ensures !DifferAt(a, b, 0)
  {
    if k < |a| - 1 && k < |b| - 1 {
      assert a[..k + 1] == [a[0]] + a[1..][..k] && b[..k + 1] == [b[0]] + b[1..][..k];
      assert a[..k + 1][1..] == a[1..][..k] && b[..k + 1][1..] == b[1..][..k];
    }
  }

  lemma DifferFirst(a: Bytes, b: Bytes, k: nat)
    requires a != [] && b != [] && a[0] != b[0]
    ensures DifferAt(a, b, k) <==> k == 0
  {
    if 0 < k < |a| && k < |b| { assert a[..k][0] == a[0] && b[..k][0] == b[0]; }
  }

  lemma PrefixLater(a: Bytes, b: Bytes)
    requires a != [] && b != []
    ensures a <= b <==> a[0] == b[0] && a[1..] <= b[1..]
  {
    assert a == [a[0]] + a[1..] && b == [b[0]] + b[1..];
  }

  ghost predicate LessAtDifference(a: Bytes, b: Bytes) { exists k: nat :: DifferAt(a, b, k) && a[k] < b[k] }

  lemma NoDifference(a: Bytes, b: Bytes)
    requires a == [] || b == []
    ensures !LessAtDifference(a, b)
  {}

  lemma FirstDifference(a: Bytes, b: Bytes)
    requires a != [] && b != [] && a[0] != b[0]
    ensures LessAtDifference(a, b) <==> a[0] < b[0]
  {
    DifferFirst(a, b, 0);
    if k: nat :| DifferAt(a, b, k) { DifferFirst(a, b, k); }
  }

  lemma FirstDifferenceLater(a: Bytes, b: Bytes)
    requires a != [] && b != [] && a[0] == b[0]
    ensures LessAtDifference(a, b) <==> LessAtDifference(a[1..], b[1..])
  {
    if k: nat :| DifferAt(a, b, k) && a[k] < b[k] {
      DifferLater(a, b, if k > 0 then k - 1 else 0);
    }
    if k: nat :| DifferAt(a[1..], b[1..], k) && a[1..][k] < b[1..][k] {
      DifferLater(a, b, k);
      assert a[k + 1] < b[k + 1];
    }
  }

  /** The order is that of the first difference, and a prefix comes before what extends it. */
  lemma {:induction false} LexLeExactly(a: Bytes, b: Bytes)
    ensures LexLe(a, b) <==> a <= b || LessAtDifference(a, b)
  {
    hide LessAtDifference;
    if a == [] || b == [] {
      NoDifference(a, b);
    } else {
      PrefixLater(a, b);
      if a[0] == b[0] {
        LexLeExactly(a[1..], b[1..]);
        FirstDifferenceLater(a, b);
      } else {
        FirstDifference(a, b);
      }
    }
  }

  lemma {:induction false} LexTotal(a: Bytes, b: Bytes)
    ensures LexLe(a, b) || LexLe(b, a)
  {
    if a != [] && b != [] { LexTotal(a[1..], b[1..]); }
  }

  lemma {:induction false} LexAntisymmetric(a: Bytes, b: Bytes)
    requires LexLe(a, b) && LexLe(b, a)
    ensures a == b
  {
    if a != [] && b != [] {
      LexAntisymmetric(a[1..], b[1..]);
      assert a == [a[0]] + a[1..] && b == [b[0]] + b[1..];
    }
  }

  lemma {:induction false} LexTransitive(a: Bytes, b: Bytes, c: Bytes)
    requires LexLe(a, b) && LexLe(b, c)
    ensures LexLe(a, c)
  {
    if a != [] && a[0] == b[0] == c[0] { LexTransitive(a[1..], b[1..], c[1..]); }
  }

  // ----- Sorting by a key, for any type of entry -----

  ghost predicate SortedBy<T>(key: T -> Bytes, s: seq<T>) {
    forall i, j | 0 <= i < j < |s| :: LexLe(key(s[i]), key(s[j]))
  }

  function Insert<T>(key: T -> Bytes, x: T, s: seq<T>): (r: seq<T>)
    ensures multiset(r) == multiset{x} + multiset(s)
  {
    if s == [] then [x]
    else if LexLe(key(x), key(s[0])) then [x] + s
    else
      assert s == [s[0]] + s[1..];
      [s[0]] + Insert(key, x, s[1..])
  }

  /** The stable sort of the standard library, as a function of the list. */
  function Sort<T>(key: T -> Bytes, s: seq<T>): (r: seq<T>)
    ensures multiset(r) == multiset(s)
    ensures |r| == |s|
  {
    if s == [] then []
    else
      assert s == [s[0]] + s[1..];
      var r := Insert(key, s[0], Sort(key, s[1..]));
      assert |multiset(r)| == |multiset(s)|;
      r
  }

  lemma InMultiset<T>(s: seq<T>, x: T)
    ensures x in s <==> x in multiset(s)
  {}

  lemma SameElements<T>(s: seq<T>, r: seq<T>, x: T)
    requires multiset(s) == multiset(r)
    ensures x in s <==> x in r
  {
    InMultiset(s, x);
    InMultiset(r, x);
  }

  lemma SortElements<T>(key: T -> Bytes, s: seq<T>, x: T)
    ensures x in Sort(key, s) <==> x in s
  {
    SameElements(Sort(key, s), s, x);
  }

  lemma {:induction false} InsertSorted<T>(key: T -> Bytes, x: T, s: seq<T>)
    requires SortedBy(key, s)
    ensures SortedBy(key, Insert(key, x, s))
  {
    if s == [] {
    } else if LexLe(key(x), key(s[0])) {
      forall j | 0 <= j < |s|
        ensures LexLe(key(x), key(s[j]))
      {
        HeadIsLeast(key, s, s[j]);
        LexTransitive(key(x), key(s[0]), key(s[j]));
      }
    } else {
      var rest := Insert(key, x, s[1..]);
      InsertSorted(key, x, s[1..]);
      LexTotal(key(x), key(s[0]));
      forall j | 0 <= j < |rest|
        ensures LexLe(key(s[0]), key(rest[j]))
      {
        assert rest[j] in multiset(rest);
        assert rest[j] == x || rest[j] in s[1..];
      }
    }
  }

  lemma {:induction false} SortSorted<T>(key: T -> Bytes, s: seq<T>)
    ensures SortedBy(key, Sort(key, s))
  {
    if s != [] {
      SortSorted(key, s[1..]);
      InsertSorted(key, s[0], Sort(key, s[1..]));
    }
  }

  /** No two entries have the same key. */
  ghost predicate DistinctBy<T>(key: T -> Bytes, s: seq<T>) {
    forall i, j | 0 <= i < j < |s| :: key(s[i]) != key(s[j])
  }

  lemma DistinctEntry<T>(key: T -> Bytes, s: seq<T>, x: T, y: T)
    requires DistinctBy(key, s) && x in s && y in s && key(x) == key(y)
    ensures x == y
  {
    var i :| 0 <= i < |s| && s[i] == x;
    var j :| 0 <= j < |s| && s[j] == y;
    assert key(s[i]) == key(s[j]);
  }

  lemma DistinctCount<T>(key: T -> Bytes, s: seq<T>, x: T)
    requires DistinctBy(key, s)
    ensures multiset(s)[x] <= 1
  {
    if i :| 0 <= i < |s| && s[i] == x {
      assert s == s[..i] + [x] + s[i + 1..];
      assert x !in s[..i] && x !in s[i + 1..] by {
        assert forall j | 0 <= j < |s| && j != i :: key(s[j]) != key(s[i]);
      }
    }
  }

  lemma TwiceCount<T>(s: seq<T>, i: nat, j: nat)
    requires i < j < |s| && s[i] == s[j]
    ensures multiset(s)[s[i]] >= 2
  {
    assert s == s[..j] + s[j..];
    assert s[i] in s[..j] && s[i] in s[j..] by { assert s[..j][i] == s[i] && s[j..][0] == s[j]; }
  }

  /** Reordering keeps keys distinct. */
  lemma DistinctPermutation<T>(key: T -> Bytes, s: seq<T>, r: seq<T>)
    requires DistinctBy(key, s) && multiset(s) == multiset(r)
    ensures DistinctBy(key, r)
  {
    forall i, j | 0 <= i < j < |r|
      ensures key(r[i]) != key(r[j])
    {
      if key(r[i]) == key(r[j]) {
        SameElements(s, r, r[i]);
        SameElements(s, r, r[j]);
        DistinctEntry(key, s, r[i], r[j]);
        DistinctCount(key, s, r[i]);
        TwiceCount(r, i, j);
      }
    }
  }

  /** A sorted list is determined by its multiset of entries, when equal keys mean equal entries. */
  lemma {:induction false} SortedUnique<T>(key: T -> Bytes, s: seq<T>, r: seq<T>)
    requires SortedBy(key, s) && SortedBy(key, r) && multiset(s) == multiset(r)
    requires forall x, y | x in s && y in s :: key(x) == key(y) ==> x == y
    ensures s == r
  {
    PermutationLength(s, r);
    if s != [] {
      SameElements(s, r, s[0]);
      SameElements(s, r, r[0]);
      HeadIsLeast(key, s, r[0]);
      HeadIsLeast(key, r, s[0]);
      LexAntisymmetric(key(s[0]), key(r[0]));
      SameTails(s, r);
      SortedUnique(key, s[1..], r[1..]);
      assert s == [s[0]] + s[1..] && r == [r[0]] + r[1..];
    }
  }

  lemma SameTails<T>(s: seq<T>, r: seq<T>)
    requires s != [] && r != [] && s[0] == r[0] && multiset(s) == multiset(r)
    ensures multiset(s[1..]) == multiset(r[1..])
  {
    assert s == [s[0]] + s[1..] && r == [r[0]] + r[1..];
    assert multiset(s[1..]) == multiset(s) - multiset{s[0]};
    assert multiset(r[1..]) == multiset(r) - multiset{r[0]};
  }

  lemma HeadIsLeast<T>(key: T -> Bytes, s: seq<T>, x: T)
    requires SortedBy(key, s) && x in s
    ensures LexLe(key(s[0]), key(x))
  {
    var i :| 0 <= i < |s| && s[i] == x;
    if i == 0 { LexTotal(key(x), key(x)); }
  }

  lemma PermutationLength<T>(s: seq<T>, r: seq<T>)
    requires multiset(s) == multiset(r)
    ensures |s| == |r|
  {
    assert |multiset(s)| == |s| && |multiset(r)| == |r|;
  }

  /** Sorting forgets the order of its input. */
  lemma SortOrderFree<T>(key: T -> Bytes, s: seq<T>, r: seq<T>)
    requires multiset(s) == multiset(r)
    requires forall x, y | x in s && y in s :: key(x) == key(y) ==> x == y
    ensures Sort(key, s) == Sort(key, r)
  {
    SortSorted(key, s);
    SortSorted(key, r);
    forall x | x in Sort(key, s)
      ensures x in s
    {
      SortElements(key, s, x);
    }
    SortedUnique(key, Sort(key, s), Sort(key, r));
  }

  // ----- Little-endian integers -----

  /** The n low-order bytes of x, least significant first; a narrowing cast keeps exactly these. */
  function LittleEndian(x: nat, n: nat): (b: Bytes)
    ensures |b| == n
  {
    if n == 0 then [] else [x % 256] + LittleEndian(x / 256, n - 1)
  }

  function FromLittleEndian(b: Bytes): nat {
    if b == [] then 0 else b[0] + 256 * FromLittleEndian(b[1..])
  }

  function Pow256(n: nat): (p: nat)
    ensures p >= 1
  {
    if n == 0 then 1 else 256 * Pow256(n - 1)
  }

  lemma {:induction false} DecodeEncode(x: nat, n: nat)
    requires x < Pow256(n)
    ensures FromLittleEndian(LittleEndian(x, n)) == x
  {
    if n > 0 {
      DecodeEncode(x / 256, n - 1);
      assert LittleEndian(x, n)[1..] == LittleEndian(x / 256, n - 1);
    }
  }

  lemma {:induction false} DecodeBound(b: Bytes)
    ensures FromLittleEndian(b) < Pow256(|b|)
  {
    if b != [] { DecodeBound(b[1..]); }
  }

  lemma {:induction false} EncodeDecode(b: Bytes)
    ensures LittleEndian(FromLittleEndian(b), |b|) == b
  {
    if b != [] {
      EncodeDecode(b[1..]);
      var x := FromLittleEndian(b);
      assert x % 256 == b[0] && x / 256 == FromLittleEndian(b[1..]);
    }
  }

  /** u32::to_le_bytes of a length cast to u32. */
  function U32(x: nat): (b: Bytes)
    ensures |b| == 4
  {
    LittleEndian(x, 4)
  }

  function U64(x: nat): (b: Bytes)
    ensures |b| == 8
  {
    LittleEndian(x, 8)
  }

  const U32_LIMIT: nat := 0x1_0000_0000

  const U64_LIMIT: nat := 0x1_0000_0000_0000_0000

  lemma WordLimits()
    ensures Pow256(4) == U32_LIMIT && Pow256(8) == U64_LIMIT
  {
    assert Pow256(2) == 0x1_0000;
    assert Pow256(4) == 0x1_0000_0000;
    assert Pow256(6) == 0x1_0000_0000_0000;
  }

  lemma U32RoundTrip(x: nat)
    requires x < U32_LIMIT
    ensures FromLittleEndian(U32(x)) == x
  {
    WordLimits();
    DecodeEncode(x, 4);
  }

  lemma U64RoundTrip(x: nat)
    requires x < U64_LIMIT
    ensures FromLittleEndian(U64(x)) == x
  {
    WordLimits();
    DecodeEncode(x, 8);
  }

  // ----- Splitting concatenations -----

  lemma SplitEqual<T>(a: seq<T>, b: seq<T>, r: seq<T>, q: seq<T>)
    requires a + r == b + q && |a| == |b|
    ensures a == b && r == q
  {
    assert a == (a + r)[..|a|] && b == (b + q)[..|b|];
    assert r == (a + r)[|a|..] && q == (b + q)[|b|..];
  }
}
