/** The schemas of a whole document: loaded through every link, then merged by namespace. */
module SchemaDocument {
  import opened Wrappers
  import opened SchemaLoading
  import opened SchemaMerging

  /** Where declarations come from: a schema element of the document, by its place, or a file. */
  datatype Source = Inline(place: nat) | Imported(path: string)

  predicate IsSource(files: Files, nodes: seq<Node>, source: Source) {
    match source
    case Inline(place) => place < |nodes|
    case Imported(path) => path in files && files[path].SchemaFile?
  }

  predicate AreSources(files: Files, nodes: seq<Node>, sources: seq<Source>) {
    forall k :: 0 <= k < |sources| ==> IsSource(files, nodes, sources[k])
  }

  function NodeOf(files: Files, nodes: seq<Node>, source: Source): Node
    requires IsSource(files, nodes, source)
  {
    match source
    case Inline(place) => nodes[place]
    case Imported(path) => files[path].node
  }

  /** The declarations of one kind among the children of an element, in order. */
  function DeclaredBy(children: seq<Child>, kind: Kind): seq<Definition> {
    if children == [] then []
    else
      (match (children[0], kind)
       case (Element(d), Elements) => [d]
       case (ComplexType(d), ComplexTypes) => [d]
       case (SimpleType(d), SimpleTypes) => [d]
       case _ => [])
      + DeclaredBy(children[1..], kind)
  }

  /** The declarations of one kind that sources make in a namespace, source by source. */
  function DeclaredIn(files: Files, nodes: seq<Node>, sources: seq<Source>, ns: string, kind: Kind): seq<Definition>
    requires AreSources(files, nodes, sources)
  {
    if sources == [] then []
    else
      var front, last := sources[..|sources| - 1], sources[|sources| - 1];
      var node := NodeOf(files, nodes, last);
      DeclaredIn(files, nodes, front, ns, kind)
      + if node.targetNamespace == ns then DeclaredBy(node.children, kind) else []
  }

  /** The namespaces of sources in the order of their first appearance. */
  function NamespacesOf(files: Files, nodes: seq<Node>, sources: seq<Source>): seq<string>
    requires AreSources(files, nodes, sources)
  {
    if sources == [] then []
    else
      var before := NamespacesOf(files, nodes, sources[..|sources| - 1]);
      var ns := NodeOf(files, nodes, sources[|sources| - 1]).targetNamespace;
      if ns in before then before else before + [ns]
  }

  /** What the schema of a namespace holds, nothing if there is none. */
  function Holds(merged: seq<Schema>, ns: string, kind: Kind): seq<Definition> {
    if IndexOf(merged, ns) < |merged| then Of(merged[IndexOf(merged, ns)], kind) else []
  }

  /** A source is an element of the list, or a file that an element of it leads to. */
  ghost predicate Belongs(files: Files, nodes: seq<Node>, source: Source) {
    match source
    case Inline(place) => place < |nodes|
    case Imported(path) => ReachableFrom(files, nodes, path)
  }

  predicate Once(sources: seq<Source>) {
    forall j, k :: 0 <= j < k < |sources| ==> sources[j] != sources[k]
  }

  /** Every source that belongs, and no other, once; the elements in order, and before each of them exactly
      the elements before it and the files that those lead to. */
  ghost predicate InTurn(files: Files, nodes: seq<Node>, sources: seq<Source>) {
    && Once(sources)
    && (forall s :: s in sources <==> Belongs(files, nodes, s))
    && (forall k, s :: 0 <= k < |sources| && sources[k].Inline? && sources[k].place <= |nodes| ==>
          (s in sources[..k] <==> Belongs(files, nodes[..sources[k].place], s)))
  }

  /** One schema for each namespace, in the order of first appearance, holding just what the sources declare
      in it, in order. */
  ghost predicate MergesSources(files: Files, nodes: seq<Node>, sources: seq<Source>, merged: seq<Schema>) {
    && AreSources(files, nodes, sources)
    && Names(merged) == NamespacesOf(files, nodes, sources)
    && Apart(merged)
    && forall ns, kind :: Holds(merged, ns, kind) == DeclaredIn(files, nodes, sources, ns, kind)
  }

  // ---- The sources of a load --------------------------------------------------------------

  function Imports(paths: seq<string>): (sources: seq<Source>)
    ensures |sources| == |paths| && forall k :: 0 <= k < |paths| ==> sources[k] == Imported(paths[k])
  {
    seq(|paths|, k requires 0 <= k < |paths| => Imported(paths[k]))
  }

  predicate Ascending(order: seq<string>, cuts: seq<nat>) {
    && cuts != [] && cuts[0] == 0
    && (forall i :: 0 <= i < |cuts| - 1 ==> cuts[i] <= cuts[i + 1])
    && (forall i :: 0 <= i < |cuts| ==> cuts[i] <= |order|)
  }

  /** The first schema elements, each followed by the files of its stretch. */
  function SourcesUpTo(order: seq<string>, cuts: seq<nat>, i: nat): seq<Source>
    requires Ascending(order, cuts) && i < |cuts|
  {
    if i == 0 then []
    else SourcesUpTo(order, cuts, i - 1) + [Inline(i - 1)] + Imports(order[cuts[i - 1]..cuts[i]])
  }

  lemma {:induction false} SourcesAre(order: seq<string>, cuts: seq<nat>, i: nat, s: Source)
    requires Ascending(order, cuts) && i < |cuts|
    ensures s in SourcesUpTo(order, cuts, i)
            <==> match s case Inline(place) => place < i case Imported(path) => path in order[..cuts[i]]
  {
    if i > 0 {
      SourcesAre(order, cuts, i - 1, s);
      var stretch := order[cuts[i - 1]..cuts[i]];
      assert order[..cuts[i]] == order[..cuts[i - 1]] + stretch;
      if s.Imported? && s.path in stretch {
        var k :| 0 <= k < |stretch| && stretch[k] == s.path;
        assert Imports(stretch)[k] == s;
      }
    }
  }

  lemma {:induction false} SourcesOnce(order: seq<string>, cuts: seq<nat>, i: nat)
    requires Ascending(order, cuts) && i < |cuts| && Distinct(order)
    ensures Once(SourcesUpTo(order, cuts, i))
  {
    if i > 0 {
      hide Once, Distinct;
      SourcesOnce(order, cuts, i - 1);
      var before, stretch := SourcesUpTo(order, cuts, i - 1), order[cuts[i - 1]..cuts[i]];
      SourcesAre(order, cuts, i - 1, Inline(i - 1));
      forall k | 0 <= k < |stretch|
        ensures Imported(stretch[k]) !in before
      {
        SourcesAre(order, cuts, i - 1, Imported(stretch[k]));
      }
      StretchDistinct(order, cuts[i - 1], cuts[i]);
      OneMoreOnce(before, i - 1, stretch);
      assert SourcesUpTo(order, cuts, i) == before + [Inline(i - 1)] + Imports(stretch);
    }
  }

  lemma StretchDistinct(order: seq<string>, from: nat, to: nat)
    requires from <= to <= |order| && Distinct(order)
    ensures Distinct(order[from..to])
  {
  }

  lemma OneMoreOnce(before: seq<Source>, i: nat, stretch: seq<string>)
    requires Once(before)
    requires Inline(i) !in before && forall k :: 0 <= k < |stretch| ==> Imported(stretch[k]) !in before
    requires Distinct(stretch)
    ensures Once(before + [Inline(i)] + Imports(stretch))
  {
  }

  /** What stands before a schema element is what the elements before it brought. */
  lemma {:induction false} BeforeInline(order: seq<string>, cuts: seq<nat>, i: nat, k: nat)
    requires Ascending(order, cuts) && i < |cuts| && k < |SourcesUpTo(order, cuts, i)|
    requires SourcesUpTo(order, cuts, i)[k].Inline?
    ensures var place := SourcesUpTo(order, cuts, i)[k].place;
            place < i && SourcesUpTo(order, cuts, i)[..k] == SourcesUpTo(order, cuts, place)
  {
    var before := SourcesUpTo(order, cuts, i - 1);
    if k < |before| {
      BeforeInline(order, cuts, i - 1, k);
    }
  }

  lemma SourcesInTurn(files: Files, nodes: seq<Node>, order: seq<string>, cuts: seq<nat>)
    requires Distinct(order) && Cuts(nodes, order, 0, cuts) && Ascending(order, cuts)
    requires forall i, path :: 0 <= i <= |nodes| ==>
               (path in order[..cuts[i]] <==> ReachableFrom(files, nodes[..i], path))
    ensures InTurn(files, nodes, SourcesUpTo(order, cuts, |nodes|))
  {
    hide ReachableFrom, SourcesUpTo, Distinct;
    var n := |nodes|;
    var sources := SourcesUpTo(order, cuts, n);
    assert nodes[..n] == nodes;
    SourcesOnce(order, cuts, n);
    forall s
      ensures s in sources <==> Belongs(files, nodes, s)
    {
      SourcesAre(order, cuts, n, s);
    }
    forall k, s | 0 <= k < |sources| && sources[k].Inline? && sources[k].place <= n
      ensures s in sources[..k] <==> Belongs(files, nodes[..sources[k].place], s)
    {
      BeforeInline(order, cuts, n, k);
      SourcesAre(order, cuts, sources[k].place, s);
    }
  }

  /** The files among sources, in order. */
  function Paths(sources: seq<Source>): seq<string> {
    if sources == [] then []
    else
      var last := sources[|sources| - 1];
      Paths(sources[..|sources| - 1]) + if last.Imported? then [last.path] else []
  }

  lemma {:induction false} PathsOfImports(before: seq<Source>, paths: seq<string>)
    ensures Paths(before + Imports(paths)) == Paths(before) + paths
  {
    if paths == [] {
      assert before + Imports(paths) == before;
    } else {
      var last := |paths| - 1;
      var sources := before + Imports(paths);
      PathsOfImports(before, paths[..last]);
      assert sources[..|sources| - 1] == before + Imports(paths[..last]);
      assert paths[..last] + [paths[last]] == paths;
    }
  }

  lemma {:induction false} PathsUpTo(order: seq<string>, cuts: seq<nat>, i: nat)
    requires Ascending(order, cuts) && i < |cuts|
    ensures Paths(SourcesUpTo(order, cuts, i)) == order[..cuts[i]]
  {
    if i > 0 {
      hide Paths;
      var before, stretch := SourcesUpTo(order, cuts, i - 1), order[cuts[i - 1]..cuts[i]];
      PathsUpTo(order, cuts, i - 1);
      PathsOfInline(before, i - 1);
      PathsOfImports(before + [Inline(i - 1)], stretch);
      assert order[..cuts[i]] == order[..cuts[i - 1]] + stretch;
    } else {
      assert Paths([]) == [];
    }
  }

  lemma PathsOfInline(before: seq<Source>, i: nat)
    ensures Paths(before + [Inline(i)]) == Paths(before)
  {
    assert (before + [Inline(i)])[..|before|] == before;
  }

  // ---- The schemas of the sources ---------------------------------------------------------

  function SchemasFrom(files: Files, nodes: seq<Node>, sources: seq<Source>): (schemas: seq<Schema>)
    requires AreSources(files, nodes, sources)
    ensures |schemas| == |sources|
  {
    if sources == [] then []
    else
      SchemasFrom(files, nodes, sources[..|sources| - 1]) + [SchemaOf(NodeOf(files, nodes, sources[|sources| - 1]))]
  }

  lemma {:induction false} SchemasFromBoth(files: Files, nodes: seq<Node>, a: seq<Source>, b: seq<Source>)
    requires AreSources(files, nodes, a) && AreSources(files, nodes, b)
    ensures AreSources(files, nodes, a + b)
    ensures SchemasFrom(files, nodes, a + b) == SchemasFrom(files, nodes, a) + SchemasFrom(files, nodes, b)
  {
    if b == [] {
      assert a + b == a;
    } else {
      var last := |b| - 1;
      SchemasFromBoth(files, nodes, a, b[..last]);
      assert (a + b)[..|a + b| - 1] == a + b[..last];
    }
  }

  lemma {:induction false} SchemasOfImports(files: Files, nodes: seq<Node>, paths: seq<string>)
    requires AreSchemas(files, paths)
    ensures AreSources(files, nodes, Imports(paths))
    ensures SchemasFrom(files, nodes, Imports(paths)) == SchemasOf(files, paths)
  {
    if paths != [] {
      var front := paths[..|paths| - 1];
      SchemasOfImports(files, nodes, front);
      assert Imports(paths)[..|paths| - 1] == Imports(front);
    }
  }

  /** The schemas loaded are those of the first sources, followed by what the rest of the elements bring. */
  lemma {:induction false} SchemasUpTo(files: Files, nodes: seq<Node>, order: seq<string>, cuts: seq<nat>, i: nat)
    requires Cuts(nodes, order, 0, cuts) && Ascending(order, cuts) && AreSchemas(files, order[0..]) && i <= |nodes|
    ensures AreSources(files, nodes, SourcesUpTo(order, cuts, i))
    ensures Cuts(nodes[i..], order, cuts[i], cuts[i..]) && AreSchemas(files, order[cuts[i]..])
    ensures TypeSchemas(files, nodes, order, 0, cuts)
            == SchemasFrom(files, nodes, SourcesUpTo(order, cuts, i))
               + TypeSchemas(files, nodes[i..], order, cuts[i], cuts[i..])
  {
    assert |cuts| == |nodes| + 1;
    hide SchemasOf, AreSchemas, SchemaOf, SchemasFrom, AreSources, Cuts, TypeSchemas;
    if i == 0 {
      assert nodes[0..] == nodes && cuts[0..] == cuts;
      NothingFrom(files, nodes);
    } else {
      SchemasUpTo(files, nodes, order, cuts, i - 1);
      var before, stretch := SourcesUpTo(order, cuts, i - 1), order[cuts[i - 1]..cuts[i]];
      FirstStretch(files, nodes[i - 1..], order, cuts[i - 1], cuts[i - 1..]);
      assert nodes[i - 1..][0] == nodes[i - 1] && nodes[i - 1..][1..] == nodes[i..];
      assert cuts[i - 1..][1] == cuts[i] && cuts[i - 1..][1..] == cuts[i..];
      OneMoreElement(files, nodes, before, i - 1, stretch);
      assert SourcesUpTo(order, cuts, i) == before + [Inline(i - 1)] + Imports(stretch);
      Reassociate(SchemasFrom(files, nodes, before), [SchemaOf(nodes[i - 1])], SchemasOf(files, stretch),
                  TypeSchemas(files, nodes[i..], order, cuts[i], cuts[i..]));
    }
  }

  lemma NothingFrom(files: Files, nodes: seq<Node>)
    ensures AreSources(files, nodes, []) && SchemasFrom(files, nodes, []) == []
  {
  }

  lemma FirstStretch(files: Files, nodes: seq<Node>, order: seq<string>, start: nat, cuts: seq<nat>)
    requires Cuts(nodes, order, start, cuts) && AreSchemas(files, order[start..]) && nodes != []
    ensures start <= cuts[1] <= |order| && AreSchemas(files, order[start..cuts[1]])
    ensures Cuts(nodes[1..], order, cuts[1], cuts[1..]) && AreSchemas(files, order[cuts[1]..])
    ensures TypeSchemas(files, nodes, order, start, cuts)
            == [SchemaOf(nodes[0])] + SchemasOf(files, order[start..cuts[1]])
               + TypeSchemas(files, nodes[1..], order, cuts[1], cuts[1..])
  {
    hide SchemaOf, SchemasOf;
    CutsRest(files, nodes, order, start, cuts);
  }

  lemma Reassociate(a: seq<Schema>, b: seq<Schema>, c: seq<Schema>, d: seq<Schema>)
    ensures a + (b + c + d) == a + b + c + d
  {
  }

  lemma OneMoreElement(files: Files, nodes: seq<Node>, before: seq<Source>, i: nat, stretch: seq<string>)
    requires AreSources(files, nodes, before) && i < |nodes| && AreSchemas(files, stretch)
    ensures AreSources(files, nodes, before + [Inline(i)] + Imports(stretch))
    ensures SchemasFrom(files, nodes, before + [Inline(i)] + Imports(stretch))
            == SchemasFrom(files, nodes, before) + [SchemaOf(nodes[i])] + SchemasOf(files, stretch)
  {
    hide SchemasOf, AreSchemas, SchemaOf;
    SchemasOfImports(files, nodes, stretch);
    assert SchemasFrom(files, nodes, [Inline(i)]) == [SchemaOf(nodes[i])];
    SchemasFromBoth(files, nodes, before, [Inline(i)]);
    SchemasFromBoth(files, nodes, before + [Inline(i)], Imports(stretch));
  }

  // ---- What the schemas hold --------------------------------------------------------------

  lemma {:induction false} DeclaredHolds(schema: Schema, children: seq<Child>, kind: Kind)
    ensures Declared(schema, children).targetNamespace == schema.targetNamespace
    ensures Of(Declared(schema, children), kind) == Of(schema, kind) + DeclaredBy(children, kind)
    decreases |children|
  {
    if children != [] {
      DeclaredHolds(Adding(schema, children[0]), children[1..], kind);
    }
  }

  lemma OwnHolds(node: Node, kind: Kind)
    ensures SchemaOf(node).targetNamespace == node.targetNamespace
    ensures Of(SchemaOf(node), kind) == DeclaredBy(node.children, kind)
  {
    hide Declared, DeclaredBy;
    DeclaredHolds(Schema(node.targetNamespace, [], [], []), node.children, kind);
  }

  lemma {:induction false} GatherDeclared(files: Files, nodes: seq<Node>, sources: seq<Source>, ns: string, kind: Kind)
    requires AreSources(files, nodes, sources)
    ensures Gather(SchemasFrom(files, nodes, sources), ns, kind) == DeclaredIn(files, nodes, sources, ns, kind)
  {
    if sources != [] {
      hide DeclaredBy, SchemaOf, Gather;
      var front, node := sources[..|sources| - 1], NodeOf(files, nodes, sources[|sources| - 1]);
      var schemas := SchemasFrom(files, nodes, sources);
      GatherDeclared(files, nodes, front, ns, kind);
      OwnHolds(node, kind);
      assert schemas[..|sources| - 1] == SchemasFrom(files, nodes, front);
      assert schemas[|sources| - 1] == SchemaOf(node);
      GatherLast(schemas, ns, kind);
    }
  }

  lemma {:induction false} NamespacesFrom(files: Files, nodes: seq<Node>, sources: seq<Source>)
    requires AreSources(files, nodes, sources)
    ensures Namespaces(SchemasFrom(files, nodes, sources)) == NamespacesOf(files, nodes, sources)
  {
    if sources != [] {
      hide SchemaOf;
      var front, node := sources[..|sources| - 1], NodeOf(files, nodes, sources[|sources| - 1]);
      NamespacesFrom(files, nodes, front);
      OwnHolds(node, Elements);
      assert SchemasFrom(files, nodes, sources)[..|sources| - 1] == SchemasFrom(files, nodes, front);
    }
  }

  /** Where namespaces stand apart, all that is declared in one is in its schema. */
  lemma {:induction false} GatheredIsHeld(merged: seq<Schema>, ns: string, kind: Kind)
    requires Apart(merged)
    ensures Gather(merged, ns, kind) == Holds(merged, ns, kind)
  {
    var i := IndexOf(merged, ns);
    if i < |merged| {
      GatherOnly(merged, i, kind);
    } else {
      NoneGathered(merged, ns, kind);
    }
  }

  lemma {:induction false} GatherOnly(merged: seq<Schema>, i: nat, kind: Kind)
    requires Apart(merged) && i < |merged|
    ensures Gather(merged, merged[i].targetNamespace, kind) == Of(merged[i], kind)
    decreases |merged|
  {
    var last := |merged| - 1;
    if i == last {
      NoneGathered(merged[..last], merged[i].targetNamespace, kind);
    } else {
      GatherOnly(merged[..last], i, kind);
    }
  }

  // ---- The document -----------------------------------------------------------------------

  /** The schemas of a document are loaded exactly when everything its schema elements lead to can be, and
      merged they are one schema for each namespace, holding every declaration of every element and of every
      file that any of them leads to, once, in the order of loading, and nothing else. */
  lemma DocumentKeepsEveryDeclaration(files: Files, nodes: seq<Node>) returns (sources: seq<Source>)
    ensures ParseTypes(files, nodes, []).Ok? <==> forall i :: 0 <= i < |nodes| ==> AllGood(files, nodes[i].children)
    ensures ParseTypes(files, nodes, []).Ok? ==>
              var (schemas, order) := ParseTypes(files, nodes, []).value;
              && InTurn(files, nodes, sources) && Paths(sources) == order
              && MergesSources(files, nodes, sources, Merge(schemas))
  {
    hide ParseTypes, AllGood, Reachable, ReachableFrom, InTurn, AreSchemas, AreSources, TypeSchemas, Merge, Apart,
         Gather, Holds, DeclaredIn, SourcesUpTo, SchemasFrom, Paths;
    var cuts := TypesFollowEveryLinkOnce(files, nodes);
    sources := [];
    if ParseTypes(files, nodes, []).Ok? {
      var (schemas, order) := ParseTypes(files, nodes, []).value;
      var n := |nodes|;
      assert Ascending(order, cuts);
      sources := SourcesUpTo(order, cuts, n);
      SourcesInTurn(files, nodes, order, cuts);
      PathsUpTo(order, cuts, n);
      assert order[..cuts[n]] == order;
      SchemasUpTo(files, nodes, order, cuts, n);
      NoTypeSchemas(files, nodes[n..], order, cuts[n], cuts[n..]);
      assert schemas == SchemasFrom(files, nodes, sources);
      MergeKeepsEverything(schemas);
      NamespacesFrom(files, nodes, sources);
      forall ns, kind
        ensures Holds(Merge(schemas), ns, kind) == DeclaredIn(files, nodes, sources, ns, kind)
      {
        GatherDeclared(files, nodes, sources, ns, kind);
        GatheredIsHeld(Merge(schemas), ns, kind);
      }
    }
  }

  lemma NoTypeSchemas(files: Files, nodes: seq<Node>, order: seq<string>, start: nat, cuts: seq<nat>)
    requires Cuts(nodes, order, start, cuts) && AreSchemas(files, order[start..]) && nodes == []
    ensures TypeSchemas(files, nodes, order, start, cuts) == []
  {
  }

  /** The schemas of a document, by a parser made for it. */
  method DocumentSchemas(files: Files, nodes: seq<Node>)
    returns (r: Result<seq<Schema>, LoadError>, ghost sources: seq<Source>)
    ensures r.Ok? <==> forall i :: 0 <= i < |nodes| ==> AllGood(files, nodes[i].children)
    ensures r.Ok? ==> InTurn(files, nodes, sources) && MergesSources(files, nodes, sources, r.value)
  {
    hide ParseTypes, AllGood, InTurn, MergesSources, Merge;
    sources := DocumentKeepsEveryDeclaration(files, nodes);
    var parser := new SchemaParser(files);
    var parsed := parser.ParseTypesOf(nodes);
    if parsed.Err? {
      return parsed, sources;
    }
    var merged := MergeSchemasByTargetNamespace(parsed.value);
    r := Ok(merged);
  }
}
