/** The in-memory storage backend: four maps and the listings over them. A Go
    map is walked in an arbitrary order, and `sort.Slice` leaves ties in an
    arbitrary order; the contracts promise nothing about either. */
module Store {
  import opened Ordering
  import opened Domain
  import opened Engine
  import opened EngineTheorems

  /** A ULID: any string not in use. */
  method FreshId(used: set<string>) returns (id: string)
    ensures id !in used
  {
    id := "";
    var rest := used;
    while rest != {}
      invariant rest <= used
      invariant forall u :: u in used && u !in rest ==> |u| < |id|
      decreases |rest|
    {
      var u :| u in rest;
      rest := rest - {u};
      if |u| >= |id| { id := u + "0"; }
    }
  }

  datatype PackageRow = PackageRow(ref: string, package: PackageVersion)

  function RowsOfPackages(ref: string, ps: seq<PackageVersion>, name: string): (rows: seq<PackageRow>)
    ensures forall r :: r in rows <==> r.ref == ref && r.package in ps && r.package.name == name
  {
    if ps == [] then []
    else
      var n := |ps| - 1;
      assert forall p :: p in ps <==> p in ps[..n] || p == ps[n];
      RowsOfPackages(ref, ps[..n], name) + (if ps[n].name == name then [PackageRow(ref, ps[n])] else [])
  }

  /** One row per package called `name` in the SBOMs listed, of that ecosystem. */
  function RowsOf(sboms: map<string, SBOM>, ks: seq<string>, ecosystem: string, name: string): (rows: seq<PackageRow>)
    requires forall k :: k in ks ==> k in sboms
  {
    if ks == [] then []
    else
      var n := |ks| - 1;
      var b := sboms[ks[n]];
      RowsOf(sboms, ks[..n], ecosystem, name) +
      (if b.ecosystem == ecosystem then RowsOfPackages(b.componentRef, b.packages, name) else [])
  }

  ghost predicate IsRow(b: SBOM, ecosystem: string, name: string, r: PackageRow) {
    b.ecosystem == ecosystem && r.ref == b.componentRef && r.package in b.packages && r.package.name == name
  }

  lemma {:induction false} RowsOfMember(sboms: map<string, SBOM>, ks: seq<string>, ecosystem: string, name: string,
      r: PackageRow)
    requires forall k :: k in ks ==> k in sboms
    ensures r in RowsOf(sboms, ks, ecosystem, name) <==> exists k :: k in ks && IsRow(sboms[k], ecosystem, name, r)
  {
    if ks == [] {
    } else {
      var n := |ks| - 1;
      RowsOfMember(sboms, ks[..n], ecosystem, name, r);
      assert forall k :: k in ks <==> k in ks[..n] || k == ks[n];
    }
  }

  predicate ByRef(a: Component, b: Component) { AtMost(a.ref, b.ref) }
  predicate ByGeneration(a: SBOM, b: SBOM) { a.generatedAt <= b.generatedAt }
  predicate ByPublication(a: IoC, b: IoC) { a.publishedAt <= b.publishedAt }
  predicate ByOpening(a: Incident, b: Incident) { a.openedAt <= b.openedAt }

  predicate ByRefThenVersion(a: PackageRow, b: PackageRow) {
    if a.ref != b.ref then Less(a.ref, b.ref) else AtMost(a.package.version, b.package.version)
  }

  lemma ComparisonsAreOrders()
    ensures TotalPreorder(ByRef) && TotalPreorder(ByGeneration) && TotalPreorder(ByPublication)
      && TotalPreorder(ByOpening)
  {
    AtMostIsTotalPreorder();
    forall a, b ensures ByRef(a, b) || ByRef(b, a) { assert AtMost(a.ref, b.ref) || AtMost(b.ref, a.ref); }
    forall a, b, c | ByRef(a, b) && ByRef(b, c) ensures ByRef(a, c) {
      assert AtMost(a.ref, b.ref) && AtMost(b.ref, c.ref);
    }
  }

  lemma RowOrderIsOrder()
    ensures TotalPreorder(ByRefThenVersion)
  {
    forall a, b ensures ByRefThenVersion(a, b) || ByRefThenVersion(b, a) {
      LessTotal(a.ref, b.ref);
      LessTotal(a.package.version, b.package.version);
    }
    forall a, b, c | ByRefThenVersion(a, b) && ByRefThenVersion(b, c) ensures ByRefThenVersion(a, c) {
      AtMostIsTotalPreorder();
      if a.ref != b.ref && b.ref != c.ref {
        LessTransitive(a.ref, b.ref, c.ref);
        LessIrreflexive(a.ref);
      }
      if a.ref == b.ref == c.ref {
        assert AtMost(a.package.version, b.package.version) && AtMost(b.package.version, c.package.version);
      }
    }
  }

  class Store {
    var components: map<string, Component>
    var sboms: map<string, SBOM>
    var iocs: map<string, IoC>
    var incidents: Incidents

    constructor ()
      ensures components == map[] && sboms == map[] && iocs == map[] && incidents == map[]
    {
      components, sboms, iocs, incidents := map[], map[], map[], map[];
    }

    /** Ascending by ref; every stored component once. */
    method ListComponents() returns (out: seq<Component>)
      requires forall r :: r in components ==> components[r].ref == r
      ensures forall c :: c in out <==> c.ref in components && components[c.ref] == c
      ensures forall i, j :: 0 <= i < j < |out| ==> Less(out[i].ref, out[j].ref)
    {
      var ks := Enumerate(components.Keys);
      assert forall k :: k in ks <==> k in Elements(ks);
      var raw: seq<Component> := [];
      for i := 0 to |ks|
        invariant |raw| == i && forall j :: 0 <= j < i ==> raw[j] == components[ks[j]]
      {
        raw := raw + [components[ks[i]]];
      }
      ComparisonsAreOrders();
      out := Sort(raw, ByRef);
      PermutationDistinct(raw, out);
      forall c ensures c in out <==> c.ref in components && components[c.ref] == c {
        assert c in out <==> c in Elements(raw);
        if c.ref in components && components[c.ref] == c {
          var i :| 0 <= i < |ks| && ks[i] == c.ref;
          assert raw[i] == c;
        }
      }
      forall i, j | 0 <= i < j < |out| ensures Less(out[i].ref, out[j].ref) {
        assert ByRef(out[i], out[j]) && out[i] in out && out[j] in out;
      }
    }

    /** Oldest first. */
    method ListSBOMsByComponent(ref: string) returns (out: seq<SBOM>)
      ensures forall b :: b in out <==> b.componentRef == ref && exists id :: id in sboms && sboms[id] == b
      ensures forall i, j :: 0 <= i < j < |out| ==> out[i].generatedAt <= out[j].generatedAt
      ensures (forall id :: id in sboms ==> sboms[id].id == id) ==> Distinct(out)
    {
      var ks := Enumerate(sboms.Keys);
      assert forall k :: k in ks <==> k in Elements(ks);
      var raw: seq<SBOM> := [];
      for i := 0 to |ks|
        invariant forall b :: b in raw <==> b.componentRef == ref && exists j :: 0 <= j < i && sboms[ks[j]] == b
        invariant (forall id :: id in sboms ==> sboms[id].id == id) ==> Distinct(raw)
      {
        if sboms[ks[i]].componentRef == ref {
          raw := raw + [sboms[ks[i]]];
        }
      }
      ComparisonsAreOrders();
      out := Sort(raw, ByGeneration);
      if forall id :: id in sboms ==> sboms[id].id == id { PermutationDistinct(raw, out); }
      forall b ensures b in out <==> b.componentRef == ref && exists id :: id in sboms && sboms[id] == b {
        assert b in out <==> b in multiset(out);
        assert b in raw <==> b in multiset(raw);
      }
    }

    /** The bulk lookup: one row per matching package, by ref and version. */
    method ListSBOMPackages(ecosystem: string, name: string) returns (out: seq<PackageRow>)
      ensures SortedBy(ByRefThenVersion, out)
      ensures exists ks :: Distinct(ks) && Elements(ks) == sboms.Keys && (forall k :: k in ks ==> k in sboms) &&
                           multiset(out) == multiset(RowsOf(sboms, ks, ecosystem, name))
      ensures forall r :: r in out <==> exists id :: id in sboms && IsRow(sboms[id], ecosystem, name, r)
      ensures forall r :: r in out <==> exists id ::
        && id in sboms && sboms[id].ecosystem == ecosystem && sboms[id].componentRef == r.ref
        && r.package in sboms[id].packages && r.package.name == name
      ensures forall i, j :: 0 <= i < j < |out| ==>
        Less(out[i].ref, out[j].ref)
          || (out[i].ref == out[j].ref && AtMost(out[i].package.version, out[j].package.version))
    {
      var ks := Enumerate(sboms.Keys);
      assert forall k :: k in ks <==> k in Elements(ks);
      var raw: seq<PackageRow> := [];
      for i := 0 to |ks|
        invariant raw == RowsOf(sboms, ks[..i], ecosystem, name)
      {
        assert ks[..i + 1][..i] == ks[..i];
        var b := sboms[ks[i]];
        if b.ecosystem != ecosystem { continue; }
        raw := AppendRows(raw, b, name);
      }
      assert ks[..|ks|] == ks;
      RowOrderIsOrder();
      out := Sort(raw, ByRefThenVersion);
      forall r ensures r in out <==> exists id :: id in sboms && IsRow(sboms[id], ecosystem, name, r) {
        RowsOfMember(sboms, ks, ecosystem, name, r);
        assert r in out <==> r in multiset(out);
        assert r in raw <==> r in multiset(raw);
      }
    }

    method ListIoCs() returns (out: seq<IoC>)
      requires forall id :: id in iocs ==> iocs[id].id == id
      ensures forall i :: i in out <==> i.id in iocs && iocs[i.id] == i
      ensures Distinct(out) && forall i, j :: 0 <= i < j < |out| ==> out[i].publishedAt <= out[j].publishedAt
    {
      var ks := Enumerate(iocs.Keys);
      assert forall k :: k in ks <==> k in Elements(ks);
      var raw: seq<IoC> := [];
      for i := 0 to |ks|
        invariant |raw| == i && forall j :: 0 <= j < i ==> raw[j] == iocs[ks[j]]
      {
        raw := raw + [iocs[ks[i]]];
      }
      ComparisonsAreOrders();
      out := Sort(raw, ByPublication);
      PermutationDistinct(raw, out);
      forall x ensures x in out <==> x.id in iocs && iocs[x.id] == x {
        assert x in out <==> x in Elements(raw);
        if x.id in iocs && iocs[x.id] == x {
          var i :| 0 <= i < |ks| && ks[i] == x.id;
          assert raw[i] == x;
        }
      }
    }

    method ListIncidents() returns (out: seq<Incident>)
      requires forall id :: id in incidents ==> incidents[id].id == id
      ensures forall i :: i in out <==> i.id in incidents && incidents[i.id] == i
      ensures Distinct(out) && forall i, j :: 0 <= i < j < |out| ==> out[i].openedAt <= out[j].openedAt
    {
      var ks := Enumerate(incidents.Keys);
      assert forall k :: k in ks <==> k in Elements(ks);
      var raw: seq<Incident> := [];
      for i := 0 to |ks|
        invariant |raw| == i && forall j :: 0 <= j < i ==> raw[j] == incidents[ks[j]]
      {
        raw := raw + [incidents[ks[i]]];
      }
      ComparisonsAreOrders();
      out := Sort(raw, ByOpening);
      PermutationDistinct(raw, out);
      forall x ensures x in out <==> x.id in incidents && incidents[x.id] == x {
        assert x in out <==> x in Elements(raw);
        if x.id in incidents && incidents[x.id] == x {
          var i :| 0 <= i < |ks| && ks[i] == x.id;
          assert raw[i] == x;
        }
      }
    }

    /** The distinct components of an indicator's incidents, ascending. */
    method MatchedComponentRefsByIoC(iocId: string) returns (out: seq<string>)
      ensures Ascending(out) && Elements(out) == CachedRefs(incidents, iocId)
    {
      var ks := Enumerate(incidents.Keys);
      assert forall k :: k in ks <==> k in Elements(ks);
      var raw: seq<string> := [];
      for i := 0 to |ks|
        invariant Distinct(raw)
        invariant forall r :: r in raw <==>
          exists j :: 0 <= j < i && incidents[ks[j]].iocId == iocId && r in incidents[ks[j]].snapshot
      {
        var inc := incidents[ks[i]];
        if inc.iocId != iocId { continue; }
        raw := AppendUnseen(raw, inc.snapshot);
      }
      AtMostIsTotalPreorder();
      out := Sort(raw, AtMost);
      PermutationDistinct(raw, out);
      forall r ensures r in Elements(out) <==> r in CachedRefs(incidents, iocId) {
        assert r in Elements(out) <==> r in raw;
        if r in CachedRefs(incidents, iocId) {
          var id :| id in incidents && incidents[id].iocId == iocId && r in incidents[id].snapshot;
          var j :| 0 <= j < |ks| && ks[j] == id;
        }
      }
    }

    method UpsertComponent(c: Component)
      modifies this`components
      ensures components == old(components)[c.ref := c]
    {
      components := components[c.ref := c];
    }

    method UpsertSBOM(b: SBOM)
      modifies this`sboms
      ensures sboms == old(sboms)[b.id := b]
    {
      sboms := sboms[b.id := b];
    }

    method UpsertIoC(i: IoC)
      modifies this`iocs
      ensures iocs == old(iocs)[i.id := i]
    {
      iocs := iocs[i.id := i];
    }

    method UpsertIncident(i: Incident)
      modifies this`incidents
      ensures incidents == old(incidents)[i.id := i]
    {
      incidents := incidents[i.id := i];
    }

    method AppendRemediation(id: string, r: Remediation) returns (found: bool)
      modifies this`incidents
      ensures found <==> id in old(incidents)
      ensures incidents == if found
        then old(incidents)[id := old(incidents)[id].(remediations := old(incidents)[id].remediations + [r])]
        else old(incidents)
    {
      found := id in incidents;
      if found {
        var inc := incidents[id];
        incidents := incidents[id := inc.(remediations := inc.remediations + [r])];
      }
    }
  }

  /** Appends the SBOM's packages of that name. */
  method AppendRows(rows: seq<PackageRow>, b: SBOM, name: string) returns (out: seq<PackageRow>)
    ensures out == rows + RowsOfPackages(b.componentRef, b.packages, name)
  {
    out := rows;
    for j := 0 to |b.packages|
      invariant out == rows + RowsOfPackages(b.componentRef, b.packages[..j], name)
    {
      assert b.packages[..j + 1][..j] == b.packages[..j];
      if b.packages[j].name != name { continue; }
      out := out + [PackageRow(b.componentRef, b.packages[j])];
    }
    assert b.packages[..|b.packages|] == b.packages;
  }

  /** Appends the refs not seen yet. */
  method AppendUnseen(seen: seq<string>, refs: seq<string>) returns (out: seq<string>)
    requires Distinct(seen)
    ensures Distinct(out) && forall r :: r in out <==> r in seen || r in refs
  {
    out := seen;
    for i := 0 to |refs|
      invariant Distinct(out) && forall r :: r in out <==> r in seen || r in refs[..i]
    {
      assert forall r :: r in refs[..i + 1] <==> r in refs[..i] || r == refs[i];
      if refs[i] in out { continue; }
      out := out + [refs[i]];
    }
    assert refs[..|refs|] == refs;
  }
}
