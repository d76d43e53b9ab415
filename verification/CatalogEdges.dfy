/** What the edges of the catalog graph mean in terms of the entities: which
    dependency texts name which component, and that the one named is pushed
    first. */
module CatalogEdges {
  import opened Ordering
  import opened DependencyGraph
  import opened CatalogSort
  import opened Text

  /** The entity lists the text under dependsOn, or has a dependsOn relation
      with it as its target. */
  ghost predicate Lists(e: Entity, text: string) {
    text in e.dependsOn || Relation("dependsOn", text) in e.relations
  }

  /** The entity's kind, namespace and name as the catalog spells a full ref. */
  predicate HasRef(d: Entity, kind: string, namespace: string, name: string) {
    && ToLower(d.kind) == kind && d.name == name
    && (match d.namespace case None => namespace == "default" case Some(n) => namespace == n)
  }

  /** The text names the entity, case aside: a full ref spells out kind,
      namespace and name; anything without a colon is the name of a component
      in the default namespace. */
  ghost predicate NamesEntity(text: string, d: Entity) {
    if ':' in text then
      exists kind, namespace, name :: HasRef(d, kind, namespace, name)
        && ToLower(text) == kind + ":" + namespace + "/" + name
    else HasRef(d, "component", "default", ToLower(text))
  }

  /** The entity format of the catalog: no separator in a kind or namespace. */
  predicate Separable(d: Entity) {
    ':' !in d.kind && '/' !in NamespaceOf(d)
  }

  lemma RefParts(d: Entity, kind: string, namespace: string, name: string)
    requires HasRef(d, kind, namespace, name)
    ensures RefOf(d) == kind + ":" + namespace + "/" + name
  {
  }

  lemma {:induction false} SplitFirst(a: string, b: string, x: string, y: string, c: char)
    requires a + [c] + x == b + [c] + y && c !in a && c !in b
    ensures a == b && x == y
  {
    var s, t := a + [c] + x, b + [c] + y;
    assert s[|a|] == c && t[|b|] == c;
    forall i | 0 <= i < |a| ensures s[i] != c { assert s[i] == a[i] && a[i] in a; }
    forall i | 0 <= i < |b| ensures t[i] != c { assert t[i] == b[i] && b[i] in b; }
    assert |a| == |b|;
    assert a == s[..|a|] && b == t[..|b|] && x == s[|a| + 1..] && y == t[|b| + 1..];
  }

  lemma LowerKeepsSeparable(kind: string)
    ensures ':' in ToLower(kind) <==> ':' in kind
  {
    if ':' in kind {
      var i :| 0 <= i < |kind| && kind[i] == ':';
      assert ToLower(kind)[i] == ':';
    }
    if ':' in ToLower(kind) {
      var i :| 0 <= i < |kind| && ToLower(kind)[i] == ':';
      assert kind[i] == ':';
    }
  }

  /** A text names an entity exactly when it resolves to the entity's ref. */
  lemma NamesIff(text: string, d: Entity)
    requires Separable(d)
    ensures NormaliseDep(text) == RefOf(d) <==> NamesEntity(text, d)
  {
    var ns := NamespaceOf(d);
    assert HasRef(d, ToLower(d.kind), ns, d.name);
    RefParts(d, ToLower(d.kind), ns, d.name);
    if ':' in text {
      if NamesEntity(text, d) {
        var kind, namespace, name :| HasRef(d, kind, namespace, name)
          && ToLower(text) == kind + ":" + namespace + "/" + name;
        RefParts(d, kind, namespace, name);
      }
    } else {
      ShortNameIff(text, d);
    }
  }

  lemma ShortNameIff(text: string, d: Entity)
    requires Separable(d) && ':' !in text
    ensures NormaliseDep(text) == RefOf(d) <==> HasRef(d, "component", "default", ToLower(text))
  {
    var ns, low := NamespaceOf(d), ToLower(text);
    if HasRef(d, "component", "default", low) {
      RefParts(d, "component", "default", low);
      ShortText(low);
    }
    if NormaliseDep(text) == RefOf(d) {
      ShortText(low);
      LowerKeepsSeparable(d.kind);
      var x, y := "default" + "/" + low, ns + "/" + d.name;
      assert "component" + ":" + x == "component" + ":" + "default" + "/" + low;
      assert RefOf(d) == ToLower(d.kind) + ":" + y;
      SplitFirst("component", ToLower(d.kind), x, y, ':');
      SplitFirst("default", ns, low, d.name, '/');
    }
  }

  lemma ShortText(low: string)
    ensures "component:default/" + low == "component" + ":" + "default" + "/" + low
  {
    assert "component:default/" == "component" + ":" + "default" + "/";
  }

  /** In the graph, the ref of e depends on the ref of d if and only if some
      entity carrying e's ref lists a text that names d. */
  lemma EdgeIff(es: seq<Entity>, e: Entity, d: Entity)
    requires e in es && d in es && Separable(d)
    ensures RefOf(e) in Refs(es)
    ensures RefOf(d) in GraphOf(es)[RefOf(e)] <==>
      exists x, text :: x in es && RefOf(x) == RefOf(e) && Lists(x, text) && NamesEntity(text, d)
  {
    InRefs(es, e);
    InRefs(es, d);
    var v, r := RefOf(e), RefOf(d);
    if r in GraphOf(es)[v] {
      assert Edge(es, |es|, v, r);
      var i :| 0 <= i < |es| && RefOf(es[i]) == v && r in DependenciesOf(es[i]);
      var text := ListedText(es[i], r);
      NamesIff(text, d);
      assert es[i] in es && Lists(es[i], text) && NamesEntity(text, d);
    }
    if x, text :| x in es && RefOf(x) == v && Lists(x, text) && NamesEntity(text, d) {
      NamesIff(text, d);
      ListedResolves(x, text);
      var i :| 0 <= i < |es| && es[i] == x;
      assert Edge(es, |es|, v, r);
    }
  }

  lemma InRefs(es: seq<Entity>, e: Entity)
    requires e in es
    ensures RefOf(e) in Refs(es)
  {
    var i :| 0 <= i < |es| && es[i] == e;
    assert RefList(es)[i] == RefOf(e);
  }

  lemma ListedText(e: Entity, r: string) returns (text: string)
    requires r in DependenciesOf(e)
    ensures Lists(e, text) && NormaliseDep(text) == r
  {
    if t :| t in e.dependsOn && NormaliseDep(t) == r {
      text := t;
    } else {
      var rel :| rel in e.relations && rel.kind == "dependsOn" && NormaliseDep(rel.targetRef) == r;
      text := rel.targetRef;
      assert rel == Relation("dependsOn", text);
    }
  }

  lemma ListedResolves(e: Entity, text: string)
    requires Lists(e, text)
    ensures NormaliseDep(text) in DependenciesOf(e)
  {
  }

  /** A component of the default namespace may be named by its lower-case name
      alone. */
  lemma ShortNameResolves(es: seq<Entity>, e: Entity, d: Entity)
    requires e in es && d in es && Lists(e, d.name)
    requires d.kind == "Component" && (d.namespace == None || d.namespace == Some("default"))
    requires ':' !in d.name && ToLower(d.name) == d.name
    ensures RefOf(e) in Refs(es) && RefOf(d) in GraphOf(es)[RefOf(e)]
  {
    assert ToLower("Component") == "component";
    assert NamesEntity(d.name, d);
    EdgeIff(es, e, d);
  }

  /** Any component whose namespace and name are lower case may be named by its
      full ref, in any case. */
  lemma FullRefResolves(es: seq<Entity>, e: Entity, d: Entity, text: string)
    requires e in es && d in es && Lists(e, text)
    requires d.kind == "Component" && d.namespace.Some? && '/' !in d.namespace.value
    requires ToLower(text) == "component:" + d.namespace.value + "/" + d.name
    ensures RefOf(e) in Refs(es) && RefOf(d) in GraphOf(es)[RefOf(e)]
  {
    assert ToLower("Component") == "component";
    assert ToLower(text)[9] == ':' && text[9] == ':';
    assert "component:" == "component" + ":";
    assert HasRef(d, "component", d.namespace.value, d.name);
    assert NamesEntity(text, d);
    EdgeIff(es, e, d);
  }

  /** Whatever e lists and d is named by is pushed before e. */
  lemma NamedComesFirst(es: seq<Entity>, order: seq<Entity>, e: Entity, d: Entity, text: string, i: nat)
    requires KahnOrder(GraphOf(es), RefList(order)) && e in es && d in es && Separable(d)
    requires Lists(e, text) && NamesEntity(text, d)
    requires i < |order| && RefOf(order[i]) == RefOf(e)
    ensures exists j :: 0 <= j < i && RefOf(order[j]) == RefOf(d)
  {
    EdgeIff(es, e, d);
    var refs := RefList(order);
    assert refs[i] == RefOf(e) && RefOf(d) in Elements(refs[..i]);
    var j :| 0 <= j < i && refs[..i][j] == RefOf(d);
    assert refs[j] == RefOf(order[j]);
  }
}
