/** Merging schemas by target namespace: the first of a namespace takes in the declarations of the rest. */
module SchemaMerging {
  import opened SchemaLoading

  datatype Kind = Elements | ComplexTypes | SimpleTypes

  function Of(s: Schema, kind: Kind): seq<Definition> {
    match kind
    case Elements => s.elements
    case ComplexTypes => s.complexTypes
    case SimpleTypes => s.simpleTypes
  }

  /** Everything a list of schemas declares in a namespace, in order. */
  function Gather(schemas: seq<Schema>, ns: string, kind: Kind): seq<Definition> {
    if schemas == [] then []
    else
      var last := schemas[|schemas| - 1];
      Gather(schemas[..|schemas| - 1], ns, kind) + if last.targetNamespace == ns then Of(last, kind) else []
  }

  /** The namespaces of a list of schemas in the order of their first appearance. */
  function Namespaces(schemas: seq<Schema>): seq<string> {
    if schemas == [] then []
    else
      var before, ns := Namespaces(schemas[..|schemas| - 1]), schemas[|schemas| - 1].targetNamespace;
      if ns in before then before else before + [ns]
  }

  function IndexOf(schemas: seq<Schema>, ns: string): (i: nat)
    ensures i <= |schemas|
    ensures i < |schemas| ==> schemas[i].targetNamespace == ns
    ensures forall k :: 0 <= k < i ==> schemas[k].targetNamespace != ns
  {
    if schemas == [] || schemas[0].targetNamespace == ns then 0 else 1 + IndexOf(schemas[1..], ns)
  }

  function Joined(a: Schema, b: Schema): Schema {
    a.(elements := a.elements + b.elements, complexTypes := a.complexTypes + b.complexTypes,
       simpleTypes := a.simpleTypes + b.simpleTypes)
  }

  function MergeInto(merged: seq<Schema>, s: Schema): seq<Schema> {
    var i := IndexOf(merged, s.targetNamespace);
    if i < |merged| then merged[i := Joined(merged[i], s)] else merged + [s]
  }

  function Merge(schemas: seq<Schema>): seq<Schema> {
    if schemas == [] then [] else MergeInto(Merge(schemas[..|schemas| - 1]), schemas[|schemas| - 1])
  }

  /** One schema for each namespace, in the order of their first appearance, and nothing declared in a
      namespace is lost, repeated or moved. */
  lemma {:induction false} MergeKeepsEverything(schemas: seq<Schema>)
    ensures Apart(Merge(schemas))
    ensures Names(Merge(schemas)) == Namespaces(schemas)
    ensures forall ns, kind :: Gather(Merge(schemas), ns, kind) == Gather(schemas, ns, kind)
  {
    if schemas != [] {
      hide Gather, MergeInto, Apart;
      var front, last := schemas[..|schemas| - 1], schemas[|schemas| - 1];
      MergeKeepsEverything(front);
      IntoKeeps(Merge(front), last);
      forall ns, kind
        ensures Gather(Merge(schemas), ns, kind) == Gather(schemas, ns, kind)
      {
        IntoGathers(Merge(front), last, ns, kind);
        GatherLast(schemas, ns, kind);
      }
    }
  }

  predicate Apart(schemas: seq<Schema>) {
    forall i, j :: 0 <= i < j < |schemas| ==> schemas[i].targetNamespace != schemas[j].targetNamespace
  }

  function Names(schemas: seq<Schema>): seq<string> {
    seq(|schemas|, i requires 0 <= i < |schemas| => schemas[i].targetNamespace)
  }

  lemma GatherLast(schemas: seq<Schema>, ns: string, kind: Kind)
    requires schemas != []
    ensures var last := schemas[|schemas| - 1];
            Gather(schemas, ns, kind)
            == Gather(schemas[..|schemas| - 1], ns, kind) + if last.targetNamespace == ns then Of(last, kind) else []
  {
  }

  lemma IntoKeeps(merged: seq<Schema>, s: Schema)
    requires Apart(merged)
    ensures Apart(MergeInto(merged, s))
    ensures Names(MergeInto(merged, s))
            == if s.targetNamespace in Names(merged) then Names(merged) else Names(merged) + [s.targetNamespace]
  {
    var i := IndexOf(merged, s.targetNamespace);
    if i < |merged| {
      assert Names(merged)[i] == s.targetNamespace;
      assert Names(merged[i := Joined(merged[i], s)]) == Names(merged);
    } else {
      assert Names(merged + [s]) == Names(merged) + [s.targetNamespace];
    }
  }

  lemma IntoGathers(merged: seq<Schema>, s: Schema, ns: string, kind: Kind)
    requires Apart(merged)
    ensures Gather(MergeInto(merged, s), ns, kind)
            == Gather(merged, ns, kind) + if s.targetNamespace == ns then Of(s, kind) else []
  {
    hide Gather;
    var i := IndexOf(merged, s.targetNamespace);
    if i < |merged| {
      JoinGathers(merged, i, s, ns, kind);
    } else {
      assert (merged + [s])[..|merged|] == merged;
      GatherLast(merged + [s], ns, kind);
    }
  }

  lemma {:induction false} NoneGathered(schemas: seq<Schema>, ns: string, kind: Kind)
    requires forall k :: 0 <= k < |schemas| ==> schemas[k].targetNamespace != ns
    ensures Gather(schemas, ns, kind) == []
  {
    if schemas != [] {
      NoneGathered(schemas[..|schemas| - 1], ns, kind);
    }
  }

  /** A schema that takes in another of its namespace, being the only one of it in the list. */
  lemma {:induction false} JoinGathers(merged: seq<Schema>, i: nat, s: Schema, ns: string, kind: Kind)
    requires Apart(merged) && i < |merged| && merged[i].targetNamespace == s.targetNamespace
    ensures Gather(merged[i := Joined(merged[i], s)], ns, kind)
            == Gather(merged, ns, kind) + if s.targetNamespace == ns then Of(s, kind) else []
    decreases |merged|
  {
    hide Gather;
    var joined := merged[i := Joined(merged[i], s)];
    var n := |merged| - 1;
    GatherLast(joined, ns, kind);
    GatherLast(merged, ns, kind);
    if i == n {
      assert joined[..n] == merged[..n];
      if ns == s.targetNamespace {
        NoneGathered(merged[..n], ns, kind);
        JoinedOf(merged[n], s, kind);
      }
    } else {
      assert joined[..n] == merged[..n][i := Joined(merged[i], s)];
      JoinGathers(merged[..n], i, s, ns, kind);
      assert merged[n].targetNamespace != s.targetNamespace;
    }
  }

  lemma JoinedOf(a: Schema, b: Schema, kind: Kind)
    ensures Of(Joined(a, b), kind) == Of(a, kind) + Of(b, kind)
  {
  }

  method MergeSchemasByTargetNamespace(schemas: seq<Schema>) returns (merged: seq<Schema>)
    ensures merged == Merge(schemas)
  {
    hide IndexOf;
    var indexByNamespace: map<string, nat> := map[];
    merged := [];
    for n := 0 to |schemas|
      invariant merged == Merge(schemas[..n])
      invariant forall ns :: ns in indexByNamespace ==> indexByNamespace[ns] < |merged|
      invariant forall ns :: (if ns in indexByNamespace then indexByNamespace[ns] else |merged|) == IndexOf(merged, ns)
    {
      var schema := schemas[n];
      assert schemas[..n + 1][..n] == schemas[..n];
      ghost var before := merged;
      if schema.targetNamespace !in indexByNamespace {
        indexByNamespace := indexByNamespace[schema.targetNamespace := |merged|];
        merged := merged + [schema];
      } else {
        var idx := indexByNamespace[schema.targetNamespace];
        merged := merged[idx := Joined(merged[idx], schema)];
      }
      forall ns
        ensures IndexOf(merged, ns)
                == if IndexOf(before, ns) < |before| then IndexOf(before, ns)
                   else if ns == schema.targetNamespace then |before| else |merged|
      {
        IndexAfter(before, schema, ns);
      }
    }
    assert schemas[..|schemas|] == schemas;
  }

  lemma IndexAfter(merged: seq<Schema>, s: Schema, ns: string)
    ensures var after := MergeInto(merged, s);
            IndexOf(after, ns) == if IndexOf(merged, ns) < |merged| then IndexOf(merged, ns)
                                  else if ns == s.targetNamespace then |merged| else |after|
  {
    var i, j := IndexOf(merged, s.targetNamespace), IndexOf(merged, ns);
    var after := MergeInto(merged, s);
    IndexUnique(after, ns, if j < |merged| then j else if ns == s.targetNamespace then |merged| else |after|);
  }

  lemma IndexUnique(schemas: seq<Schema>, ns: string, i: nat)
    requires i <= |schemas| && (i < |schemas| ==> schemas[i].targetNamespace == ns)
    requires forall k :: 0 <= k < i ==> schemas[k].targetNamespace != ns
    ensures IndexOf(schemas, ns) == i
  {
  }
}
