/** Orders, sorting and counting facts shared by the other modules. */
module Ordering {

  datatype Option<+T> = None | Some(value: T)

  // ---------------------------------------------------------------------
  // Lexicographic order on strings
  // ---------------------------------------------------------------------

  /** Code-unit order: the order Go's `<` and JavaScript's default sort use. */
  predicate Less(a: string, b: string) {
    if b == [] then false
    else if a == [] then true
    else a[0] < b[0] || (a[0] == b[0] && Less(a[1..], b[1..]))
  }

  predicate AtMost(a: string, b: string) {
    a == b || Less(a, b)
  }

  /** What the order means: at the first difference the smaller code unit comes
      first, and a proper prefix comes before what it begins. */
  lemma {:induction false} LessIff(a: string, b: string)
    ensures Less(a, b) <==>
      exists k :: 0 <= k <= |a| && k < |b| && a[..k] == b[..k] && (k == |a| || a[k] < b[k])
  {
    if a == [] || b == [] {
      if b != [] { assert a[..0] == b[..0]; }
    } else {
      LessIff(a[1..], b[1..]);
      if Less(a, b) && a[0] == b[0] {
        var k :| 0 <= k <= |a[1..]| && k < |b[1..]| && a[1..][..k] == b[1..][..k]
          && (k == |a[1..]| || a[1..][k] < b[1..][k]);
        assert a[..k + 1] == [a[0]] + a[1..][..k] && b[..k + 1] == [b[0]] + b[1..][..k];
      } else if a[0] < b[0] {
        assert a[..0] == b[..0];
      }
      if k :| 0 <= k <= |a| && k < |b| && a[..k] == b[..k] && (k == |a| || a[k] < b[k]) {
        if k > 0 {
          assert a[0] == a[..k][0] == b[..k][0] == b[0];
          assert a[1..][..k - 1] == a[..k][1..] && b[1..][..k - 1] == b[..k][1..];
        }
      }
    }
  }

  lemma {:induction false} LessIrreflexive(a: string)
    ensures !Less(a, a)
  {
    if a == [] {
    } else {
      LessIrreflexive(a[1..]);
    }
  }

  lemma {:induction false} LessTransitive(a: string, b: string, c: string)
    requires Less(a, b) && Less(b, c)
    ensures Less(a, c)
  {
    if a == [] {
    } else if a[0] == b[0] == c[0] {
      LessTransitive(a[1..], b[1..], c[1..]);
    }
  }

  lemma {:induction false} LessTotal(a: string, b: string)
    ensures Less(a, b) || a == b || Less(b, a)
  {
    if a == [] || b == [] {
    } else if a[0] == b[0] {
      LessTotal(a[1..], b[1..]);
      assert a == [a[0]] + a[1..] && b == [b[0]] + b[1..];
    }
  }

  // ---------------------------------------------------------------------
  // Sorting by an arbitrary total preorder
  // ---------------------------------------------------------------------

  ghost predicate TotalPreorder<T(!new)>(le: (T, T) -> bool) {
    && (forall x, y :: le(x, y) || le(y, x))
    && (forall x, y, z :: le(x, y) && le(y, z) ==> le(x, z))
  }

  ghost predicate SortedBy<T>(le: (T, T) -> bool, s: seq<T>) {
    forall i, j :: 0 <= i < j < |s| ==> le(s[i], s[j])
  }

  lemma AtMostIsTotalPreorder()
    ensures TotalPreorder(AtMost)
  {
    forall x, y ensures AtMost(x, y) || AtMost(y, x) { LessTotal(x, y); }
    forall x, y, z | AtMost(x, y) && AtMost(y, z) ensures AtMost(x, z) {
      if Less(x, y) && Less(y, z) { LessTransitive(x, y, z); }
    }
  }

  /** The contract of `sort.Slice` and of `Array.sort`: some permutation that
      respects the comparison. Nothing is promised about the order of ties. */
  method Sort<T(!new)>(s: seq<T>, le: (T, T) -> bool) returns (r: seq<T>)
    requires TotalPreorder(le)
    ensures SortedBy(le, r)
    ensures multiset(r) == multiset(s)
  {
    r := [];
    for i := 0 to |s|
      invariant SortedBy(le, r)
      invariant multiset(r) == multiset(s[..i])
    {
      r := Insert(s[i], r, le);
      assert s[..i + 1] == s[..i] + [s[i]];
    }
    assert s[..|s|] == s;
  }

  method Insert<T(!new)>(x: T, s: seq<T>, le: (T, T) -> bool) returns (r: seq<T>)
    requires TotalPreorder(le) && SortedBy(le, s)
    ensures SortedBy(le, r)
    ensures multiset(r) == multiset(s) + multiset{x}
  {
    var k := 0;
    while k < |s| && !le(x, s[k])
      invariant 0 <= k <= |s|
      invariant forall i :: 0 <= i < k ==> !le(x, s[i])
    {
      k := k + 1;
    }
    r := s[..k] + [x] + s[k..];
    InsertedSorted(x, s, k, le);
    InsertedMultiset(x, s, k);
  }

  lemma InsertedSorted<T(!new)>(x: T, s: seq<T>, k: nat, le: (T, T) -> bool)
    requires TotalPreorder(le) && SortedBy(le, s) && k <= |s|
    requires forall i :: 0 <= i < k ==> !le(x, s[i])
    requires k < |s| ==> le(x, s[k])
    ensures SortedBy(le, s[..k] + [x] + s[k..])
  {
    var r := s[..k] + [x] + s[k..];
    forall i, j | 0 <= i < j < |r| ensures le(r[i], r[j]) {
      if i == k { assert le(x, s[k]) && le(s[k], s[j - 1]); }
    }
  }

  /** Two permutations that respect the comparison are equal if no two
      different elements tie. */
  lemma {:induction false} UntiedSortUnique<T(!new)>(le: (T, T) -> bool, a: seq<T>, b: seq<T>)
    requires SortedBy(le, a) && SortedBy(le, b) && multiset(a) == multiset(b)
    requires forall x, y :: x in a && y in a && le(x, y) && le(y, x) ==> x == y
    ensures a == b
  {
    assert |a| == |multiset(a)| == |multiset(b)| == |b|;
    if a == [] {
    } else {
      assert a[0] in multiset(b) && b[0] in multiset(a);
      assert a[0] == b[0];
      TailMultiset(a);
      TailMultiset(b);
      UntiedSortUnique(le, a[1..], b[1..]);
    }
  }

  lemma TailMultiset<T>(s: seq<T>)
    requires s != []
    ensures s == [s[0]] + s[1..] && multiset(s[1..]) == multiset(s) - multiset{s[0]}
  {
    assert s == [s[0]] + s[1..];
  }

  // ---------------------------------------------------------------------
  // Stable sorting
  // ---------------------------------------------------------------------

  /** The elements of a list that tie with x, in the order of the list. */
  function Ties<T>(le: (T, T) -> bool, s: seq<T>, x: T): seq<T> {
    if s == [] then []
    else (if le(x, s[0]) && le(s[0], x) then [s[0]] else []) + Ties(le, s[1..], x)
  }

  /** Elements that tie keep their order. */
  ghost predicate SameTies<T(!new)>(le: (T, T) -> bool, a: seq<T>, b: seq<T>) {
    forall x :: Ties(le, a, x) == Ties(le, b, x)
  }

  lemma {:induction false} TiesConcat<T>(le: (T, T) -> bool, a: seq<T>, b: seq<T>, x: T)
    ensures Ties(le, a + b, x) == Ties(le, a, x) + Ties(le, b, x)
  {
    if a == [] {
      assert a + b == b;
    } else {
      TiesConcat(le, a[1..], b, x);
      assert (a + b)[1..] == a[1..] + b;
      var head := if le(x, a[0]) && le(a[0], x) then [a[0]] else [];
      assert head + (Ties(le, a[1..], x) + Ties(le, b, x)) == head + Ties(le, a[1..], x) + Ties(le, b, x);
    }
  }

  lemma {:induction false} TiesMembers<T>(le: (T, T) -> bool, s: seq<T>, x: T, y: T)
    ensures y in Ties(le, s, x) <==> y in s && le(x, y) && le(y, x)
  {
    if s == [] {
    } else {
      TiesMembers(le, s[1..], x, y);
      assert s == [s[0]] + s[1..];
    }
  }

  /** The contract of Rust's `sort_by`: sorted, a permutation, and stable. */
  method StableSort<T(!new)>(s: seq<T>, le: (T, T) -> bool) returns (r: seq<T>)
    requires TotalPreorder(le)
    ensures SortedBy(le, r)
    ensures multiset(r) == multiset(s)
    ensures SameTies(le, r, s)
  {
    r := [];
    for i := 0 to |s|
      invariant SortedBy(le, r)
      invariant multiset(r) == multiset(s[..i])
      invariant SameTies(le, r, s[..i])
    {
      assert s[..i + 1] == s[..i] + [s[i]];
      SameTiesSnoc(le, r, s[..i], s[i]);
      r := StableInsert(s[i], r, le);
    }
    assert s[..|s|] == s;
  }

  lemma SameTiesSnoc<T(!new)>(le: (T, T) -> bool, a: seq<T>, b: seq<T>, x: T)
    requires SameTies(le, a, b)
    ensures SameTies(le, a + [x], b + [x])
  {
    forall y ensures Ties(le, a + [x], y) == Ties(le, b + [x], y) {
      TiesConcat(le, a, [x], y);
      TiesConcat(le, b, [x], y);
    }
  }

  /** Puts x behind everything it does not precede. */
  method StableInsert<T(!new)>(x: T, s: seq<T>, le: (T, T) -> bool) returns (r: seq<T>)
    requires TotalPreorder(le) && SortedBy(le, s)
    ensures SortedBy(le, r)
    ensures multiset(r) == multiset(s) + multiset{x}
    ensures SameTies(le, r, s + [x])
  {
    var k := 0;
    while k < |s| && le(s[k], x)
      invariant 0 <= k <= |s|
      invariant forall i :: 0 <= i < k ==> le(s[i], x)
    {
      k := k + 1;
    }
    r := s[..k] + [x] + s[k..];
    StablyInserted(x, s, k, le);
    InsertedMultiset(x, s, k);
  }

  lemma InsertedMultiset<T>(x: T, s: seq<T>, k: nat)
    requires k <= |s|
    ensures multiset(s[..k] + [x] + s[k..]) == multiset(s) + multiset{x}
  {
    assert s == s[..k] + s[k..];
  }

  lemma StablyInserted<T(!new)>(x: T, s: seq<T>, k: nat, le: (T, T) -> bool)
    requires TotalPreorder(le) && SortedBy(le, s) && k <= |s|
    requires forall i :: 0 <= i < k ==> le(s[i], x)
    requires k < |s| ==> !le(s[k], x)
    ensures SortedBy(le, s[..k] + [x] + s[k..])
    ensures SameTies(le, s[..k] + [x] + s[k..], s + [x])
  {
    var r := s[..k] + [x] + s[k..];
    forall i, j | 0 <= i < j < |r| ensures le(r[i], r[j]) {
      if i == k { assert le(x, s[k]) && (j > k + 1 ==> le(s[k], s[j - 1])); }
    }
    assert s + [x] == s[..k] + s[k..] + [x];
    forall i | 0 <= i < |s[k..]| ensures !le(s[k..][i], x) { assert i > 0 ==> le(s[k], s[k + i]); }
    forall y ensures Ties(le, r, y) == Ties(le, s + [x], y) { MovedTies(le, s[..k], s[k..], x, y); }
  }

  /** x may move past elements that do not tie with it. */
  lemma MovedTies<T(!new)>(le: (T, T) -> bool, a: seq<T>, b: seq<T>, x: T, y: T)
    requires TotalPreorder(le) && forall i :: 0 <= i < |b| ==> !le(b[i], x)
    ensures Ties(le, a + [x] + b, y) == Ties(le, a + b + [x], y)
  {
    TiesConcat(le, a + [x], b, y);
    TiesConcat(le, a, [x], y);
    TiesConcat(le, a + b, [x], y);
    TiesConcat(le, a, b, y);
    var s, t, u := Ties(le, a, y), Ties(le, b, y), Ties(le, [x], y);
    if le(y, x) && le(x, y) {
      NoTies(le, b, y);
      assert s + u + [] == s + [] + u;
    } else {
      assert s + [] + t == s + t + [];
    }
  }

  lemma {:induction false} NoTies<T>(le: (T, T) -> bool, s: seq<T>, x: T)
    requires forall i :: 0 <= i < |s| ==> !(le(x, s[i]) && le(s[i], x))
    ensures Ties(le, s, x) == []
  {
    if s == [] {
    } else {
      NoTies(le, s[1..], x);
    }
  }

  /** A sorted list is determined by the order of its ties. */
  lemma {:induction false} StableSortUnique<T(!new)>(le: (T, T) -> bool, a: seq<T>, b: seq<T>)
    requires TotalPreorder(le) && SortedBy(le, a) && SortedBy(le, b) && SameTies(le, a, b)
    ensures a == b
  {
    EmptyTogether(le, a, b);
    if a == [] {
    } else {
      SameFirst(le, a, b);
      SameTiesTail(le, a, b);
      StableSortUnique(le, a[1..], b[1..]);
      assert a == [a[0]] + a[1..] && b == [b[0]] + b[1..];
    }
  }

  lemma EmptyTogether<T(!new)>(le: (T, T) -> bool, a: seq<T>, b: seq<T>)
    requires TotalPreorder(le) && SameTies(le, a, b)
    ensures a == [] <==> b == []
  {
    assert a != [] ==> Ties(le, a, a[0]) != [] && Ties(le, a, a[0]) == Ties(le, b, a[0]);
    assert b != [] ==> Ties(le, b, b[0]) != [] && Ties(le, a, b[0]) == Ties(le, b, b[0]);
  }

  lemma SameFirst<T(!new)>(le: (T, T) -> bool, a: seq<T>, b: seq<T>)
    requires TotalPreorder(le) && SortedBy(le, a) && SortedBy(le, b) && SameTies(le, a, b)
    requires a != [] && b != []
    ensures a[0] == b[0]
  {
    var x, y := a[0], b[0];
    TiesMembers(le, a, x, x);
    TiesMembers(le, b, x, x);
    TiesMembers(le, a, y, y);
    TiesMembers(le, b, y, y);
    assert x in Ties(le, b, x) && y in Ties(le, a, y);
    AtLeastFirst(le, b, x);
    AtLeastFirst(le, a, y);
    assert Ties(le, a, x)[0] == x && Ties(le, b, x)[0] == y;
  }

  lemma AtLeastFirst<T(!new)>(le: (T, T) -> bool, s: seq<T>, x: T)
    requires TotalPreorder(le) && SortedBy(le, s) && x in s
    ensures le(s[0], x)
  {
  }

  lemma SameTiesTail<T(!new)>(le: (T, T) -> bool, a: seq<T>, b: seq<T>)
    requires a != [] && b != [] && a[0] == b[0] && SameTies(le, a, b)
    ensures SameTies(le, a[1..], b[1..])
  {
    forall x ensures Ties(le, a[1..], x) == Ties(le, b[1..], x) {
      var head := if le(x, a[0]) && le(a[0], x) then [a[0]] else [];
      assert Ties(le, a, x) == head + Ties(le, a[1..], x);
      assert Ties(le, b, x) == head + Ties(le, b[1..], x);
      assert Ties(le, a[1..], x) == Ties(le, a, x)[|head|..];
      assert Ties(le, b[1..], x) == Ties(le, b, x)[|head|..];
    }
  }

  // ---------------------------------------------------------------------
  // Sequences as sets
  // ---------------------------------------------------------------------

  function Elements<T>(s: seq<T>): set<T> {
    set x | x in s
  }

  ghost predicate Distinct<T>(s: seq<T>) {
    forall i, j :: 0 <= i < j < |s| ==> s[i] != s[j]
  }

  ghost predicate Ascending(s: seq<string>) {
    forall i, j :: 0 <= i < j < |s| ==> Less(s[i], s[j])
  }

  lemma {:induction false} DistinctCount<T>(s: seq<T>)
    requires Distinct(s)
    ensures |Elements(s)| == |s|
  {
    if s == [] {
    } else {
      var t := s[..|s| - 1];
      DistinctCount(t);
      ElementsSnoc(t, s[|s| - 1]);
      assert s == t + [s[|s| - 1]];
      assert s[|s| - 1] !in Elements(t);
    }
  }

  lemma {:induction false} ElementsCount<T>(s: seq<T>)
    ensures |Elements(s)| <= |s|
    ensures |Elements(s)| == |s| ==> Distinct(s)
  {
    if s == [] {
    } else {
      var n := |s| - 1;
      ElementsCount(s[..n]);
      ElementsSnoc(s[..n], s[n]);
      assert s == s[..n] + [s[n]];
    }
  }

  lemma ElementsSnoc<T>(s: seq<T>, x: T)
    ensures Elements(s + [x]) == Elements(s) + {x}
  {
  }

  lemma ElementsPrefix<T>(s: seq<T>, i: nat)
    requires i < |s|
    ensures Elements(s[..i + 1]) == Elements(s[..i]) + {s[i]}
  {
    assert s[..i + 1] == s[..i] + [s[i]];
  }

  /** Distinct elements occur once in every permutation. */
  lemma PermutationDistinct<T>(s: seq<T>, r: seq<T>)
    requires Distinct(s) && multiset(r) == multiset(s)
    ensures Distinct(r) && Elements(r) == Elements(s) && |r| == |s|
  {
    assert |multiset(r)| == |r| && |multiset(s)| == |s|;
    forall x ensures x in r <==> x in s {
      assert (x in r <==> x in multiset(r)) && (x in s <==> x in multiset(s));
    }
    assert Elements(r) == Elements(s);
    DistinctCount(s);
    ElementsCount(r);
  }

  lemma SubsetCount<T>(a: set<T>, b: set<T>)
    requires a <= b
    ensures |a| <= |b|
  {
    assert b == a + (b - a);
  }

  ghost predicate StrictOrder<T(!new)>(lt: (T, T) -> bool) {
    (forall x :: !lt(x, x)) && (forall x, y, z :: lt(x, y) && lt(y, z) ==> lt(x, z))
  }

  /** A set has at most one strictly ascending enumeration. */
  lemma {:induction false} SortedUnique<T(!new)>(lt: (T, T) -> bool, a: seq<T>, b: seq<T>)
    requires StrictOrder(lt) && SortedBy(lt, a) && SortedBy(lt, b)
    requires Elements(a) == Elements(b)
    ensures a == b
  {
    if a == [] || b == [] {
      assert |a| == |b| by { DistinctCount(a); DistinctCount(b); }
    } else {
      assert a[0] in Elements(b) && b[0] in Elements(a);
      FirstIsLeast(lt, b, a[0]);
      FirstIsLeast(lt, a, b[0]);
      assert a[0] == b[0];
      assert a == [a[0]] + a[1..] && b == [b[0]] + b[1..];
      TailElements(lt, a);
      TailElements(lt, b);
      SortedUnique(lt, a[1..], b[1..]);
    }
  }

  lemma FirstIsLeast<T(!new)>(lt: (T, T) -> bool, a: seq<T>, x: T)
    requires SortedBy(lt, a) && x in a
    ensures x == a[0] || lt(a[0], x)
  {
  }

  lemma TailElements<T(!new)>(lt: (T, T) -> bool, a: seq<T>)
    requires StrictOrder(lt) && SortedBy(lt, a) && a != []
    ensures Elements(a[1..]) == Elements(a) - {a[0]}
  {
    forall x | x in Elements(a) - {a[0]} ensures x in a[1..] {
      var i :| 0 <= i < |a| && a[i] == x;
      assert a[1..][i - 1] == x;
    }
  }

  lemma LessIsStrictOrder()
    ensures StrictOrder(Less)
  {
    forall x ensures !Less(x, x) { LessIrreflexive(x); }
    forall x, y, z | Less(x, y) && Less(y, z) ensures Less(x, z) { LessTransitive(x, y, z); }
  }

  /** A set of strings has one ascending enumeration. */
  lemma AscendingUnique(a: seq<string>, b: seq<string>)
    requires Ascending(a) && Ascending(b)
    requires Elements(a) == Elements(b)
    ensures a == b
  {
    LessIsStrictOrder();
    SortedUnique(Less, a, b);
  }

  lemma AscendingDistinct(a: seq<string>)
    requires Ascending(a)
    ensures Distinct(a) && |Elements(a)| == |a|
  {
    forall i, j | 0 <= i < j < |a| ensures a[i] != a[j] { LessIrreflexive(a[i]); }
    DistinctCount(a);
  }

  lemma AscendingSnoc(a: seq<string>, x: string)
    requires Ascending(a) && x !in a && forall y :: y in a ==> AtMost(y, x)
    ensures Ascending(a + [x])
  {
    var b := a + [x];
    forall i, j | 0 <= i < j < |b| ensures Less(b[i], b[j]) {
      assert b[i] in a;
    }
  }

  // ---------------------------------------------------------------------
  // Walking a map
  // ---------------------------------------------------------------------

  /** The keys of a map, in some order. */
  method Enumerate<T(==)>(keys: set<T>) returns (ks: seq<T>)
    ensures Distinct(ks) && Elements(ks) == keys
  {
    ks := [];
    var rest := keys;
    while rest != {}
      invariant rest <= keys && Distinct(ks) && Elements(ks) == keys - rest
      decreases |rest|
    {
      var k :| k in rest;
      ElementsSnoc(ks, k);
      assert k !in Elements(ks);
      ks := ks + [k];
      rest := rest - {k};
    }
  }
}
