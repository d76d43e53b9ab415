/** Deduplication, replacement and ordering of go.sum rows in both languages,
    and what their results have in common. */
module GosumParity {
  import opened Ordering
  import opened Scanner
  import opened Gosum

  datatype Row = Row(name: string, version: string, hash: string)

  type Targets = map<string, Target>

  ghost function GoTargets(g: map<string, GoTarget>): Targets {
    map m | m in g :: GoMeaning(g[m])
  }

  ghost function RustTargets(r: map<string, RustTarget>): Targets {
    map m | m in r :: RustMeaning(r[m])
  }

  // ---------------------------------------------------------------------
  // Which hash a key gets
  // ---------------------------------------------------------------------

  function KeysOf(es: seq<Entry>): set<Key> {
    set e | e in es :: e.key
  }

  predicate HasPrimary(es: seq<Entry>, k: Key) {
    exists e :: e in es && e.key == k && e.primary
  }

  /** The first primary entry of a key if it has one, else its last entry. */
  ghost predicate Chosen(es: seq<Entry>, k: Key, i: int) {
    && 0 <= i < |es| && es[i].key == k
    && (es[i].primary ==> forall j :: 0 <= j < i && es[j].key == k ==> !es[j].primary)
    && (!es[i].primary ==> forall j :: 0 <= j < |es| && es[j].key == k ==> !es[j].primary && j <= i)
  }

  ghost predicate HasHash(es: seq<Entry>, k: Key, h: string) {
    exists i :: Chosen(es, k, i) && es[i].hash == h
  }

  /** The map of the hashes of all keys. */
  ghost predicate IsDedup(es: seq<Entry>, m: map<Key, string>) {
    m.Keys == KeysOf(es) && forall k :: k in m ==> HasHash(es, k, m[k])
  }

  lemma ChosenUnique(es: seq<Entry>, k: Key, i: int, j: int)
    requires Chosen(es, k, i) && Chosen(es, k, j)
    ensures i == j
  {
  }

  lemma DedupUnique(es: seq<Entry>, m: map<Key, string>, m': map<Key, string>)
    requires IsDedup(es, m) && IsDedup(es, m')
    ensures m == m'
  {
    forall k | k in m ensures m[k] == m'[k] { HashUnique(es, k, m[k], m'[k]); }
  }

  /** What both loops keep: the hashes so far and which of them are primary. */
  ghost predicate Deduping(es: seq<Entry>, m: map<Key, string>, primary: map<Key, bool>) {
    IsDedup(es, m) && primary.Keys == m.Keys && forall k :: k in m ==> (primary[k] <==> HasPrimary(es, k))
  }

  lemma KeepsHash(es: seq<Entry>, e: Entry, k: Key, h: string)
    requires HasHash(es, k, h) && (e.key != k || HasPrimary(es, k))
    ensures HasHash(es + [e], k, h)
  {
    var i :| Chosen(es, k, i) && es[i].hash == h;
    if HasPrimary(es, k) {
      var p :| p in es && p.key == k && p.primary;
      var j :| 0 <= j < |es| && es[j] == p;
    }
    assert Chosen(es + [e], k, i);
  }

  lemma TakesHash(es: seq<Entry>, e: Entry)
    requires !HasPrimary(es, e.key)
    ensures HasHash(es + [e], e.key, e.hash)
  {
    forall j | 0 <= j < |es| && es[j].key == e.key ensures !es[j].primary { assert es[j] in es; }
    assert Chosen(es + [e], e.key, |es|);
  }

  lemma KeysSnoc(es: seq<Entry>, e: Entry)
    ensures KeysOf(es + [e]) == KeysOf(es) + {e.key}
  {
    assert forall x :: x in es + [e] <==> x in es || x == e;
  }

  lemma PrimarySnoc(es: seq<Entry>, e: Entry, k: Key)
    ensures HasPrimary(es + [e], k) <==> HasPrimary(es, k) || (e.key == k && e.primary)
  {
    if HasPrimary(es, k) { var p :| p in es && p.key == k && p.primary; assert p in es + [e]; }
    if e.key == k && e.primary { assert e in es + [e]; }
  }

  lemma SkipKeeps(es: seq<Entry>, e: Entry, m: map<Key, string>, primary: map<Key, bool>)
    requires Deduping(es, m, primary) && e.key in primary && primary[e.key]
    ensures Deduping(es + [e], m, primary)
  {
    KeysSnoc(es, e);
    forall k | k in m ensures HasHash(es + [e], k, m[k]) { KeepsHash(es, e, k, m[k]); }
    forall k | k in m ensures primary[k] <==> HasPrimary(es + [e], k) { PrimarySnoc(es, e, k); }
  }

  lemma NoPrimaryYet(es: seq<Entry>, k: Key, m: map<Key, string>, primary: map<Key, bool>)
    requires Deduping(es, m, primary) && !(k in primary && primary[k])
    ensures !HasPrimary(es, k)
  {
    if k !in m { assert forall x :: x in es ==> x.key in KeysOf(es); }
  }

  lemma TakeKeeps(es: seq<Entry>, e: Entry, m: map<Key, string>, primary: map<Key, bool>)
    requires Deduping(es, m, primary) && !(e.key in primary && primary[e.key])
    ensures Deduping(es + [e], m[e.key := e.hash], primary[e.key := e.primary])
  {
    var m', primary' := m[e.key := e.hash], primary[e.key := e.primary];
    KeysSnoc(es, e);
    NoPrimaryYet(es, e.key, m, primary);
    forall k | k in m' ensures HasHash(es + [e], k, m'[k]) {
      if k == e.key { TakesHash(es, e); } else { KeepsHash(es, e, k, m[k]); }
    }
    forall k | k in m' ensures primary'[k] <==> HasPrimary(es + [e], k) { PrimarySnoc(es, e, k); }
  }

  method GoDedup(es: seq<Entry>) returns (hashes: map<Key, string>)
    ensures IsDedup(es, hashes)
  {
    hashes := map[];
    var primary: map<Key, bool> := map[];
    for i := 0 to |es|
      invariant Deduping(es[..i], hashes, primary)
    {
      assert es[..i + 1] == es[..i] + [es[i]];
      var k := es[i].key;
      if k in primary && primary[k] {
        SkipKeeps(es[..i], es[i], hashes, primary);
        continue;
      }
      TakeKeeps(es[..i], es[i], hashes, primary);
      hashes := hashes[k := es[i].hash];
      primary := primary[k := es[i].primary];
    }
    assert es[..|es|] == es;
  }

  method RustDedup(es: seq<Entry>) returns (deduped: map<Key, string>)
    ensures IsDedup(es, deduped)
  {
    deduped := map[];
    var preferPrimary: map<Key, bool> := map[];
    for i := 0 to |es|
      invariant Deduping(es[..i], deduped, preferPrimary)
    {
      assert es[..i + 1] == es[..i] + [es[i]];
      var alreadyPrimary := if es[i].key in preferPrimary then preferPrimary[es[i].key] else false;
      if alreadyPrimary {
        SkipKeeps(es[..i], es[i], deduped, preferPrimary);
      } else {
        TakeKeeps(es[..i], es[i], deduped, preferPrimary);
        deduped := deduped[es[i].key := es[i].hash];
        preferPrimary := preferPrimary[es[i].key := es[i].primary];
      }
    }
    assert es[..|es|] == es;
  }

  // ---------------------------------------------------------------------
  // Rows
  // ---------------------------------------------------------------------

  /** The row of a key; None if a local replacement drops it. */
  function RowOf(targets: Targets, k: Key, h: string): Option<Row> {
    if k.moduleName !in targets then Some(Row(k.moduleName, k.version, h))
    else
      match targets[k.moduleName]
      case Local => None
      case Remote(path, version) => Some(Row(path, version, h))
  }

  ghost function RowsOf(targets: Targets, hashes: map<Key, string>, ks: seq<Key>): seq<Row>
    requires forall k :: k in ks ==> k in hashes
  {
    if ks == [] then []
    else
      var n := |ks| - 1;
      var r := RowOf(targets, ks[n], hashes[ks[n]]);
      RowsOf(targets, hashes, ks[..n]) + (if r.None? then [] else [r.value])
  }

  predicate KeyLess(a: Key, b: Key) {
    Less(a.moduleName, b.moduleName) || (a.moduleName == b.moduleName && Less(a.version, b.version))
  }

  predicate KeyAtMost(a: Key, b: Key) { a == b || KeyLess(a, b) }

  predicate RowLess(a: Row, b: Row) { KeyLess(Key(a.name, a.version), Key(b.name, b.version)) }

  predicate RowAtMost(a: Row, b: Row) { KeyAtMost(Key(a.name, a.version), Key(b.name, b.version)) }

  lemma KeyOrders()
    ensures StrictOrder(KeyLess) && TotalPreorder(KeyAtMost)
  {
    LessIsStrictOrder();
    forall a, b ensures KeyAtMost(a, b) || KeyAtMost(b, a) {
      LessTotal(a.moduleName, b.moduleName);
      LessTotal(a.version, b.version);
    }
  }

  lemma RowOrders()
    ensures StrictOrder(RowLess) && TotalPreorder(RowAtMost)
  {
    KeyOrders();
    forall x ensures !RowLess(x, x) { assert !KeyLess(Key(x.name, x.version), Key(x.name, x.version)); }
    forall x, y, z | RowLess(x, y) && RowLess(y, z) ensures RowLess(x, z) {
      assert KeyLess(Key(x.name, x.version), Key(y.name, y.version))
        && KeyLess(Key(y.name, y.version), Key(z.name, z.version));
    }
    forall x, y ensures RowAtMost(x, y) || RowAtMost(y, x) {
      assert KeyAtMost(Key(x.name, x.version), Key(y.name, y.version))
        || KeyAtMost(Key(y.name, y.version), Key(x.name, x.version));
    }
    forall x, y, z | RowAtMost(x, y) && RowAtMost(y, z) ensures RowAtMost(x, z) {
      assert KeyAtMost(Key(x.name, x.version), Key(y.name, y.version))
        && KeyAtMost(Key(y.name, y.version), Key(z.name, z.version));
    }
  }

  /** `rows` are the rows of all keys of the entries, in key order. */
  ghost predicate AreRows(es: seq<Entry>, targets: Targets, rows: seq<Row>) {
    exists ks: seq<Key>, m: map<Key, string> :: AreRowsOf(es, targets, ks, m, rows)
  }

  ghost predicate AreRowsOf(es: seq<Entry>, targets: Targets, ks: seq<Key>, m: map<Key, string>, rows: seq<Row>) {
    && SortedBy(KeyLess, ks) && Elements(ks) == KeysOf(es) && IsDedup(es, m)
    && (forall k :: k in ks ==> k in m)
    && rows == RowsOf(targets, m, ks)
  }

  lemma RowsUnique(es: seq<Entry>, targets: Targets, a: seq<Row>, b: seq<Row>)
    requires AreRows(es, targets, a) && AreRows(es, targets, b)
    ensures a == b
  {
    var ks, m :| AreRowsOf(es, targets, ks, m, a);
    var ks', m' :| AreRowsOf(es, targets, ks', m', b);
    DedupUnique(es, m, m');
    KeyOrders();
    SortedUnique(KeyLess, ks, ks');
  }

  /** What `sort.Slice` makes of the rows: sorted by name and version, rows
      that tie in any order. */
  ghost predicate IsParse(es: seq<Entry>, targets: Targets, rows: seq<Row>) {
    SortedBy(RowAtMost, rows) && exists raw :: AreRows(es, targets, raw) && multiset(rows) == multiset(raw)
  }

  /** What `sort_by` makes of them: rows that tie stay in key order. */
  ghost predicate IsStableParse(es: seq<Entry>, targets: Targets, rows: seq<Row>) {
    SortedBy(RowAtMost, rows) &&
    exists raw :: AreRows(es, targets, raw) && multiset(rows) == multiset(raw) && SameTies(RowAtMost, rows, raw)
  }

  /** The keys in order: Go sorts them, a BTreeMap iterates that way. */
  method InKeyOrder(keys: set<Key>) returns (ks: seq<Key>)
    ensures SortedBy(KeyLess, ks) && Elements(ks) == keys
  {
    var raw := Enumerate(keys);
    KeyOrders();
    ks := Sort(raw, KeyAtMost);
    PermutationDistinct(raw, ks);
  }

  /** Ascending by name, and by version where names are equal. */
  ghost predicate ByNameThenVersion(rows: seq<Row>) {
    forall i, j :: 0 <= i < j < |rows| ==>
      Less(rows[i].name, rows[j].name) || (rows[i].name == rows[j].name && AtMost(rows[i].version, rows[j].version))
  }

  lemma SortedMeans(rows: seq<Row>)
    requires SortedBy(RowAtMost, rows)
    ensures ByNameThenVersion(rows)
  {
    forall i, j | 0 <= i < j < |rows|
      ensures Less(rows[i].name, rows[j].name)
        || (rows[i].name == rows[j].name && AtMost(rows[i].version, rows[j].version))
    {
      assert RowAtMost(rows[i], rows[j]);
    }
  }

  /** `Parse` of the Go engine. */
  method GoParse(gosum: string, gomod: string) returns (out: Option<seq<Row>>)
    ensures out.Some? <==> !Scan(gomod).1 && !Scan(gosum).1 && EntriesOf(GoSumLine, Scan(gosum).0).Some?
    ensures out.Some? ==>
      IsParse(EntriesOf(GoSumLine, Scan(gosum).0).value,
              GoTargets(ReplacesOf(GoModLine, Scan(gomod).0).targets), out.value)
    ensures out.Some? ==> ByNameThenVersion(out.value)
  {
    var subst := GoParseGomod(gomod);
    if subst.None? { return None; }
    var entries := GoParseGosum(gosum);
    if entries.None? { return None; }
    var rows := GoRows(entries.value, subst.value);
    SortedMeans(rows);
    out := Some(rows);
  }

  method GoRows(es: seq<Entry>, subst: map<string, GoTarget>) returns (rows: seq<Row>)
    ensures IsParse(es, GoTargets(subst), rows)
  {
    var hashes := GoDedup(es);
    var keys := InKeyOrder(hashes.Keys);
    assert forall k :: k in keys <==> k in Elements(keys);
    var pkgs := GoReplace(hashes, keys, subst);
    assert AreRowsOf(es, GoTargets(subst), keys, hashes, pkgs);
    assert AreRows(es, GoTargets(subst), pkgs);
    RowOrders();
    rows := Sort(pkgs, RowAtMost);
  }

  method GoReplace(hashes: map<Key, string>, keys: seq<Key>, subst: map<string, GoTarget>) returns (pkgs: seq<Row>)
    requires forall k :: k in keys ==> k in hashes
    ensures pkgs == RowsOf(GoTargets(subst), hashes, keys)
  {
    pkgs := [];
    for i := 0 to |keys|
      invariant pkgs == RowsOf(GoTargets(subst), hashes, keys[..i])
    {
      assert keys[..i + 1][..i] == keys[..i];
      var k := keys[i];
      var name, ver := k.moduleName, k.version;
      if k.moduleName in subst {
        var target := subst[k.moduleName];
        if target.version == "" { continue; }
        name, ver := target.path, target.version;
      }
      pkgs := pkgs + [Row(name, ver, hashes[k])];
    }
    assert keys[..|keys|] == keys;
  }

  /** `parse` of the Rust sidecar. */
  method RustParse(gosum: string, gomod: string) returns (out: Option<seq<Row>>)
    ensures out.Some? <==> EntriesOf(RustSumLine, RustLines(gosum)).Some?
    ensures out.Some? ==>
      IsStableParse(EntriesOf(RustSumLine, RustLines(gosum)).value,
                    RustTargets(ReplacesOf(RustModLine, RustLines(gomod)).targets), out.value)
    ensures out.Some? ==> ByNameThenVersion(out.value)
  {
    var subst := RustParseGomod(gomod);
    var entries := RustParseGosum(gosum);
    if entries.None? { return None; }
    var rows := RustRows(entries.value, subst);
    SortedMeans(rows);
    out := Some(rows);
  }

  method RustRows(es: seq<Entry>, subst: map<string, RustTarget>) returns (rows: seq<Row>)
    ensures IsStableParse(es, RustTargets(subst), rows)
  {
    var deduped := RustDedup(es);
    var keys := InKeyOrder(deduped.Keys);
    assert forall k :: k in keys <==> k in Elements(keys);
    var packages := RustReplace(deduped, keys, subst);
    assert AreRowsOf(es, RustTargets(subst), keys, deduped, packages);
    assert AreRows(es, RustTargets(subst), packages);
    RowOrders();
    rows := StableSort(packages, RowAtMost);
  }

  method RustReplace(deduped: map<Key, string>, keys: seq<Key>, subst: map<string, RustTarget>)
    returns (packages: seq<Row>)
    requires forall k :: k in keys ==> k in deduped
    ensures packages == RowsOf(RustTargets(subst), deduped, keys)
  {
    packages := [];
    for i := 0 to |keys|
      invariant packages == RowsOf(RustTargets(subst), deduped, keys[..i])
    {
      assert keys[..i + 1][..i] == keys[..i];
      var k := keys[i];
      if k.moduleName in subst {
        match subst[k.moduleName].version {
          case Some(v) => packages := packages + [Row(subst[k.moduleName].path, v, deduped[k])];
          case None =>
        }
      } else {
        packages := packages + [Row(k.moduleName, k.version, deduped[k])];
      }
    }
    assert keys[..|keys|] == keys;
  }

  // ---------------------------------------------------------------------
  // Parity
  // ---------------------------------------------------------------------

  lemma ParsesArePermutations(es: seq<Entry>, targets: Targets, a: seq<Row>, b: seq<Row>)
    requires IsParse(es, targets, a) && IsParse(es, targets, b)
    ensures multiset(a) == multiset(b)
  {
    var raw :| AreRows(es, targets, raw) && multiset(a) == multiset(raw);
    var raw' :| AreRows(es, targets, raw') && multiset(b) == multiset(raw');
    RowsUnique(es, targets, raw, raw');
  }

  lemma StableIsParse(es: seq<Entry>, targets: Targets, rows: seq<Row>)
    requires IsStableParse(es, targets, rows)
    ensures IsParse(es, targets, rows)
  {
    var raw :| AreRows(es, targets, raw) && multiset(rows) == multiset(raw) && SameTies(RowAtMost, rows, raw);
  }

  predicate Tie(a: Row, b: Row) {
    a.name == b.name && a.version == b.version
  }

  /** Rows with the same name and version have the same hash. */
  ghost predicate Untied(rows: seq<Row>) {
    forall a, b :: a in rows && b in rows && Tie(a, b) ==> a == b
  }

  lemma TieIsBothWays(a: Row, b: Row)
    ensures RowAtMost(a, b) && RowAtMost(b, a) <==> Tie(a, b)
  {
    RowOrders();
    assert !(RowLess(a, b) && RowLess(b, a));
  }

  /** The Rust result is determined by the entries and the replacements, ties
      or not. */
  lemma RustOrderDetermined(es: seq<Entry>, targets: Targets, a: seq<Row>, b: seq<Row>)
    requires IsStableParse(es, targets, a) && IsStableParse(es, targets, b)
    ensures a == b
  {
    var raw :| AreRows(es, targets, raw) && multiset(a) == multiset(raw) && SameTies(RowAtMost, a, raw);
    var raw' :| AreRows(es, targets, raw') && multiset(b) == multiset(raw') && SameTies(RowAtMost, b, raw');
    RowsUnique(es, targets, raw, raw');
    RowOrders();
    assert SameTies(RowAtMost, a, b) by {
      forall x ensures Ties(RowAtMost, a, x) == Ties(RowAtMost, b, x) {
        assert Ties(RowAtMost, a, x) == Ties(RowAtMost, raw, x);
      }
    }
    StableSortUnique(RowAtMost, a, b);
  }

  /** What Go's unstable sort may return is determined exactly when no two
      different rows tie. */
  lemma GoOrderDeterminedIff(es: seq<Entry>, targets: Targets, rows: seq<Row>)
    requires IsParse(es, targets, rows)
    ensures (forall other :: IsParse(es, targets, other) ==> other == rows) <==> Untied(rows)
  {
    if Untied(rows) {
      forall other | IsParse(es, targets, other) ensures other == rows {
        ParsesArePermutations(es, targets, rows, other);
        UntiedUnique(rows, other);
      }
    } else {
      var i, j := TiedPair(rows);
      var other := Swapped(es, targets, rows, i, j);
    }
  }

  lemma TiedPair(rows: seq<Row>) returns (i: nat, j: nat)
    requires !Untied(rows)
    ensures i < j < |rows| && Tie(rows[i], rows[j]) && rows[i] != rows[j]
  {
    var a, b :| a in rows && b in rows && Tie(a, b) && a != b;
    i :| 0 <= i < |rows| && rows[i] == a;
    j :| 0 <= j < |rows| && rows[j] == b;
    if j < i { i, j := j, i; }
  }

  lemma UntiedUnique(a: seq<Row>, b: seq<Row>)
    requires multiset(a) == multiset(b) && SortedBy(RowAtMost, a) && SortedBy(RowAtMost, b) && Untied(a)
    ensures a == b
  {
    forall x, y | x in a && y in a && RowAtMost(x, y) && RowAtMost(y, x) ensures x == y { TieIsBothWays(x, y); }
    UntiedSortUnique(RowAtMost, a, b);
  }

  lemma Swapped(es: seq<Entry>, targets: Targets, rows: seq<Row>, i: nat, j: nat) returns (other: seq<Row>)
    requires IsParse(es, targets, rows) && i < j < |rows| && Tie(rows[i], rows[j]) && rows[i] != rows[j]
    ensures other != rows && IsParse(es, targets, other)
  {
    other := rows[i := rows[j]][j := rows[i]];
    assert other[i] != rows[i];
    SwapKeepsOrder(rows, other, i, j);
  }

  lemma SwapKeepsOrder(rows: seq<Row>, other: seq<Row>, i: nat, j: nat)
    requires SortedBy(RowAtMost, rows) && i < j < |rows| && other == rows[i := rows[j]][j := rows[i]]
    requires Tie(rows[i], rows[j])
    ensures SortedBy(RowAtMost, other) && multiset(other) == multiset(rows)
  {
    forall x, y | 0 <= x < y < |other| ensures RowAtMost(other[x], other[y]) {
      assert RowAtMost(rows[x], rows[y]);
      assert Tie(other[x], rows[x]) && Tie(other[y], rows[y]);
    }
  }

  /** On ASCII files the Go engine accepts what the Rust sidecar accepts and
      its scanner can hold. Then both give the same rows; the order Rust gives
      is one Go may give; and Go must give it exactly when no two different
      rows tie. */
  lemma Parity(gosum: string, gomod: string, go: Option<seq<Row>>, rust: Option<seq<Row>>)
    requires go.Some? <==> !Scan(gomod).1 && !Scan(gosum).1 && EntriesOf(GoSumLine, Scan(gosum).0).Some?
    requires go.Some? ==>
      IsParse(EntriesOf(GoSumLine, Scan(gosum).0).value,
              GoTargets(ReplacesOf(GoModLine, Scan(gomod).0).targets), go.value)
    requires rust.Some? <==> EntriesOf(RustSumLine, RustLines(gosum)).Some?
    requires rust.Some? ==>
      IsStableParse(EntriesOf(RustSumLine, RustLines(gosum)).value,
                    RustTargets(ReplacesOf(RustModLine, RustLines(gomod)).targets), rust.value)
    ensures go.Some? <==> rust.Some? && forall l :: l in RawLines(gosum) || l in RawLines(gomod) ==> |l| <= MAX_LINE
    ensures go.Some? ==> multiset(go.value) == multiset(rust.value)
    ensures go.Some? ==>
      var es, targets := EntriesOf(GoSumLine, Scan(gosum).0).value,
        GoTargets(ReplacesOf(GoModLine, Scan(gomod).0).targets);
      && IsParse(es, targets, rust.value)
      && ((forall other :: IsParse(es, targets, other) ==> other == rust.value) <==> Untied(rust.value))
  {
    ScanFailsIff(gosum);
    ScanFailsIff(gomod);
    if !Scan(gosum).1 && !Scan(gomod).1 {
      ScannersAgree(gosum);
      ScannersAgree(gomod);
      EntriesAgree(Scan(gosum).0, RustLines(gosum));
      ReplacesAgree(Scan(gomod).0, RustLines(gomod));
      if go.Some? {
        var g, r := ReplacesOf(GoModLine, Scan(gomod).0).targets, ReplacesOf(RustModLine, RustLines(gomod)).targets;
        assert GoTargets(g) == RustTargets(r);
        var es := EntriesOf(GoSumLine, Scan(gosum).0).value;
        StableIsParse(es, GoTargets(g), rust.value);
        ParsesArePermutations(es, GoTargets(g), go.value, rust.value);
        GoOrderDeterminedIff(es, GoTargets(g), rust.value);
      }
    }
  }

  /** Every row stems from one module and version of go.sum and carries the
      hash of its first primary line, or else of its last line. */
  lemma RowsCarryChosenHash(es: seq<Entry>, targets: Targets, rows: seq<Row>, r: Row)
    requires IsParse(es, targets, rows)
    ensures r in rows <==>
      exists k, h :: k in KeysOf(es) && HasHash(es, k, h) && RowOf(targets, k, h) == Some(r)
  {
    var raw :| AreRows(es, targets, raw) && multiset(rows) == multiset(raw);
    var ks, m :| AreRowsOf(es, targets, ks, m, raw);
    assert r in rows <==> r in multiset(RowsOf(targets, m, ks));
    RowsOfMember(targets, m, ks, r);
    if k, h :| k in KeysOf(es) && HasHash(es, k, h) && RowOf(targets, k, h) == Some(r) {
      HashUnique(es, k, h, m[k]);
      assert k in Elements(ks);
    } else {
      forall k | k in ks ensures RowOf(targets, k, m[k]) != Some(r) {
        assert k in Elements(ks) && HasHash(es, k, m[k]);
      }
    }
  }

  /** The hash of a key is that of its first primary entry. */
  lemma FirstPrimaryWins(es: seq<Entry>, i: nat, h: string)
    requires i < |es| && es[i].primary && forall j :: 0 <= j < i && es[j].key == es[i].key ==> !es[j].primary
    ensures HasHash(es, es[i].key, h) <==> h == es[i].hash
  {
    assert Chosen(es, es[i].key, i);
    if HasHash(es, es[i].key, h) { HashUnique(es, es[i].key, h, es[i].hash); }
  }

  /** Without a primary entry it is that of its last one. */
  lemma LastOtherwise(es: seq<Entry>, i: nat, h: string)
    requires i < |es| && forall j :: 0 <= j < |es| && es[j].key == es[i].key ==> !es[j].primary && j <= i
    ensures HasHash(es, es[i].key, h) <==> h == es[i].hash
  {
    assert Chosen(es, es[i].key, i);
    if HasHash(es, es[i].key, h) { HashUnique(es, es[i].key, h, es[i].hash); }
  }

  /** A row keeps the module and version of its entries, unless a remote
      replacement names others; a local one drops it. */
  lemma RowsMean(es: seq<Entry>, targets: Targets, rows: seq<Row>, r: Row)
    requires IsParse(es, targets, rows)
    ensures r in rows <==> exists e :: e in es && HasHash(es, e.key, r.hash) && BecomesRow(targets, e.key, r)
  {
    RowsCarryChosenHash(es, targets, rows, r);
    if k, h :| k in KeysOf(es) && HasHash(es, k, h) && RowOf(targets, k, h) == Some(r) {
      var e :| e in es && e.key == k;
      RowOfMeans(targets, k, h, r);
      assert HasHash(es, e.key, r.hash) && BecomesRow(targets, e.key, r);
    }
    if e :| e in es && HasHash(es, e.key, r.hash) && BecomesRow(targets, e.key, r) {
      RowOfMeans(targets, e.key, r.hash, r);
      assert e.key in KeysOf(es);
    }
  }

  ghost predicate BecomesRow(targets: Targets, k: Key, r: Row) {
    if k.moduleName in targets then targets[k.moduleName] == Remote(r.name, r.version)
    else k.moduleName == r.name && k.version == r.version
  }

  lemma RowOfMeans(targets: Targets, k: Key, h: string, r: Row)
    ensures RowOf(targets, k, h) == Some(r) <==> h == r.hash && BecomesRow(targets, k, r)
  {
  }

  lemma HashUnique(es: seq<Entry>, k: Key, h: string, h': string)
    requires HasHash(es, k, h) && HasHash(es, k, h')
    ensures h == h'
  {
    var i :| Chosen(es, k, i) && es[i].hash == h;
    var j :| Chosen(es, k, j) && es[j].hash == h';
    ChosenUnique(es, k, i, j);
  }

  lemma {:induction false} RowsOfMember(targets: Targets, m: map<Key, string>, ks: seq<Key>, r: Row)
    requires forall k :: k in ks ==> k in m
    ensures r in RowsOf(targets, m, ks) <==> exists k :: k in ks && RowOf(targets, k, m[k]) == Some(r)
  {
    if ks == [] {
    } else {
      var n := |ks| - 1;
      RowsOfMember(targets, m, ks[..n], r);
      assert forall k :: k in ks <==> k in ks[..n] || k == ks[n];
    }
  }
}
