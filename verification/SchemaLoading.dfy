/** Loading the schemas a WSDL document includes and imports, file by file, through a set of files already
    visited; and merging the schemas of a namespace. */
module SchemaLoading {
  import opened Wrappers

  /** A declaration, by its name; what is inside it plays no part here. */
  type Definition = string

  /** Where an include or import points: nowhere, off this machine, or at a file, by its absolute path. */
  datatype Target = Blank | Remote | Local(path: string)

  /** A child of a schema element. Broken stands for a declaration that does not parse. */
  datatype Child =
    | Element(d: Definition) | ComplexType(d: Definition) | SimpleType(d: Definition)
    | Broken | Link(target: Target) | Other

  datatype Node = Node(targetNamespace: string, children: seq<Child>)

  datatype File = NotXml | NotSchema | SchemaFile(node: Node)

  type Files = map<string, File>

  datatype Schema = Schema(targetNamespace: string, elements: seq<Definition>, complexTypes: seq<Definition>,
                           simpleTypes: seq<Definition>)

  datatype LoadError = RemoteLocation | Unreadable | InvalidXml | NotASchema | BadDeclaration

  // ---- What a node declares ---------------------------------------------------------------

  /** The schema with one more child's declaration. */
  function Adding(schema: Schema, child: Child): Schema {
    match child
    case Element(d) => schema.(elements := schema.elements + [d])
    case ComplexType(d) => schema.(complexTypes := schema.complexTypes + [d])
    case SimpleType(d) => schema.(simpleTypes := schema.simpleTypes + [d])
    case Broken => schema
    case Link(_) => schema
    case Other => schema
  }

  function Declared(schema: Schema, children: seq<Child>): Schema
    decreases |children|
  {
    if children == [] then schema else Declared(Adding(schema, children[0]), children[1..])
  }

  /** The schema of a node on its own. */
  function SchemaOf(node: Node): Schema {
    Declared(Schema(node.targetNamespace, [], [], []), node.children)
  }

  // ---- Loading ----------------------------------------------------------------------------

  function Unseen(files: Files, seen: seq<string>): set<string> {
    set p | p in files && p !in seen
  }

  type Loaded = Result<(seq<Schema>, seq<string>), LoadError>

  /** The children of a schema element from some point on: the files loaded so far are `seen`, in order,
      `schema` what this element has declared so far, `imported` what its links brought in. */
  function ParseChildren(files: Files, children: seq<Child>, seen: seq<string>, schema: Schema, imported: seq<Schema>)
    : (r: Loaded)
    ensures r.Ok? ==> seen <= r.value.1
    decreases |Unseen(files, seen)|, 1, |children|
  {
    if children == [] then Ok(([schema] + imported, seen))
    else
      match children[0]
      case Broken => Err(BadDeclaration)
      case Link(target) =>
        (match ParseLink(files, target, seen)
         case Err(e) => Err(e)
         case Ok((more, seen2)) =>
           UnseenShrinks(files, seen, seen2);
           ParseChildren(files, children[1..], seen2, schema, imported + more))
      case _ => ParseChildren(files, children[1..], seen, Adding(schema, children[0]), imported)
  }

  function ParseLink(files: Files, target: Target, seen: seq<string>): (r: Loaded)
    ensures r.Ok? ==> seen <= r.value.1
    decreases |Unseen(files, seen)|, 0, 0
  {
    match target
    case Blank => Ok(([], seen))
    case Remote => Err(RemoteLocation)
    case Local(path) =>
      if path in seen then Ok(([], seen))
      else if path !in files then Err(Unreadable)
      else
        match files[path]
        case NotXml => Err(InvalidXml)
        case NotSchema => Err(NotASchema)
        case SchemaFile(node) =>
          UnseenLess(files, seen, path);
          ParseChildren(files, node.children, seen + [path], Schema(node.targetNamespace, [], [], []), [])
  }

  lemma UnseenShrinks(files: Files, seen: seq<string>, seen2: seq<string>)
    requires seen <= seen2
    ensures |Unseen(files, seen2)| <= |Unseen(files, seen)|
  {
    assert Unseen(files, seen2) <= Unseen(files, seen) by {
      assert forall p :: p in seen ==> p in seen2;
    }
    SubsetSize(Unseen(files, seen2), Unseen(files, seen));
  }

  lemma UnseenLess(files: Files, seen: seq<string>, path: string)
    requires path in files && path !in seen
    ensures |Unseen(files, seen + [path])| < |Unseen(files, seen)|
  {
    assert Unseen(files, seen + [path]) == Unseen(files, seen) - {path};
  }

  lemma {:induction false} SubsetSize(a: set<string>, b: set<string>)
    requires a <= b
    ensures |a| <= |b|
  {
    if a != {} {
      var x :| x in a;
      SubsetSize(a - {x}, b - {x});
    }
  }

  function ParseSchemaNode(files: Files, node: Node, seen: seq<string>): Loaded {
    ParseChildren(files, node.children, seen, Schema(node.targetNamespace, [], [], []), [])
  }

  // ---- What may be reached ----------------------------------------------------------------

  predicate LinksTo(children: seq<Child>, path: string) {
    Link(Local(path)) in children
  }

  /** A chain of links from a node, file by file; the last path need not be a readable file. */
  ghost predicate Chain(files: Files, children: seq<Child>, chain: seq<string>)
    decreases |chain|
  {
    && chain != []
    && LinksTo(children, chain[0])
    && (|chain| > 1 ==>
          chain[0] in files && files[chain[0]].SchemaFile? && Chain(files, files[chain[0]].node.children, chain[1..]))
  }

  ghost predicate Reachable(files: Files, children: seq<Child>, path: string) {
    exists chain :: Chain(files, children, chain) && chain[|chain| - 1] == path
  }

  /** Every declaration parses and no link leaves the machine. */
  predicate Sound(children: seq<Child>) {
    Broken !in children && Link(Remote) !in children
  }

  predicate GoodFile(files: Files, path: string) {
    path in files && files[path].SchemaFile? && Sound(files[path].node.children)
  }

  /** Everything a node leads to can be loaded. */
  ghost predicate AllGood(files: Files, children: seq<Child>) {
    Sound(children) && forall path :: Reachable(files, children, path) ==> GoodFile(files, path)
  }

  function SchemasOf(files: Files, paths: seq<string>): seq<Schema>
    requires forall p :: p in paths ==> p in files && files[p].SchemaFile?
  {
    if paths == [] then []
    else SchemasOf(files, paths[..|paths| - 1]) + [SchemaOf(files[paths[|paths| - 1]].node)]
  }

  // ---- What a successful load has done ----------------------------------------------------

  ghost predicate LinksSeen(children: seq<Child>, seen: seq<string>) {
    forall target :: Link(target) in children && target.Local? ==> target.path in seen
  }

  /** Files loaded from place n on: each good, with nothing it links to left out. */
  ghost predicate Complete(files: Files, seen: seq<string>, n: nat) {
    forall i :: n <= i < |seen| ==> GoodFile(files, seen[i]) && LinksSeen(files[seen[i]].node.children, seen)
  }

  predicate Distinct(seen: seq<string>) {
    forall i, j :: 0 <= i < j < |seen| ==> seen[i] != seen[j]
  }

  lemma CompleteMore(files: Files, seen: seq<string>, mid: seq<string>, end: seq<string>)
    requires seen <= mid <= end
    requires Complete(files, mid, |seen|) && Complete(files, end, |mid|)
    ensures Complete(files, end, |seen|)
  {
    assert forall p :: p in mid ==> p in end;
    forall i | |seen| <= i < |end|
      ensures GoodFile(files, end[i]) && LinksSeen(files[end[i]].node.children, end)
    {
      if i < |mid| {
        assert end[i] == mid[i];
      }
    }
  }

  lemma LinksSeenMore(children: seq<Child>, mid: seq<string>, end: seq<string>)
    requires mid <= end && LinksSeen(children, mid)
    ensures LinksSeen(children, end)
  {
    assert forall p :: p in mid ==> p in end;
  }

  /** A load that succeeds has followed every link there is, once. */
  lemma {:induction false} ChildrenComplete(files: Files, children: seq<Child>, seen: seq<string>, schema: Schema,
                                            imported: seq<Schema>)
    requires ParseChildren(files, children, seen, schema, imported).Ok?
    requires Distinct(seen)
    ensures var end := ParseChildren(files, children, seen, schema, imported).value.1;
            && seen <= end && Distinct(end) && Sound(children) && LinksSeen(children, end) && Complete(files, end, |seen|)
    decreases |Unseen(files, seen)|, 1, |children|
  {
    if children != [] {
      hide Complete, Distinct, LinksSeen;
      var rest := children[1..];
      match children[0]
      case Broken =>
      case Link(target) =>
        var (more, mid) := ParseLink(files, target, seen).value;
        LinkComplete(files, target, seen);
        UnseenShrinks(files, seen, mid);
        ChildrenComplete(files, rest, mid, schema, imported + more);
        var end := ParseChildren(files, rest, mid, schema, imported + more).value.1;
        CompleteMore(files, seen, mid, end);
        LinkFirst(children, target, mid, end);
      case _ =>
        ChildrenComplete(files, rest, seen, Adding(schema, children[0]), imported);
        OtherFirst(children, ParseChildren(files, children, seen, schema, imported).value.1);
    } else {
      assert Complete(files, seen, |seen|) && LinksSeen(children, seen);
    }
  }

  lemma LinkFirst(children: seq<Child>, target: Target, mid: seq<string>, end: seq<string>)
    requires children != [] && children[0] == Link(target) && mid <= end
    requires target.Local? ==> target.path in mid
    requires target != Remote && Sound(children[1..]) && LinksSeen(children[1..], end)
    ensures Sound(children) && LinksSeen(children, end)
  {
    assert children == [children[0]] + children[1..];
    assert forall p :: p in mid ==> p in end;
  }

  lemma OtherFirst(children: seq<Child>, end: seq<string>)
    requires children != [] && !children[0].Link? && !children[0].Broken?
    requires Sound(children[1..]) && LinksSeen(children[1..], end)
    ensures Sound(children) && LinksSeen(children, end)
  {
    assert children == [children[0]] + children[1..];
  }

  lemma {:induction false} LinkComplete(files: Files, target: Target, seen: seq<string>)
    requires ParseLink(files, target, seen).Ok?
    requires Distinct(seen)
    ensures var end := ParseLink(files, target, seen).value.1;
            && seen <= end && Distinct(end) && target != Remote && (target.Local? ==> target.path in end)
            && Complete(files, end, |seen|)
    decreases |Unseen(files, seen)|, 0, 0
  {
    if target.Local? && target.path !in seen {
      hide LinksSeen;
      var node := files[target.path].node;
      var mid := seen + [target.path];
      UnseenLess(files, seen, target.path);
      ChildrenComplete(files, node.children, mid, Schema(node.targetNamespace, [], [], []), []);
      var end := ParseLink(files, target, seen).value.1;
      assert end[|seen|] == mid[|seen|] == target.path;
    }
  }

  /** And what it gives is the schema of the element itself, what came before, and then one schema for
      every file loaded, in the order of loading. */
  lemma {:induction false} ChildrenSchemas(files: Files, children: seq<Child>, seen: seq<string>, schema: Schema,
                                           imported: seq<Schema>)
    requires ParseChildren(files, children, seen, schema, imported).Ok?
    ensures var (schemas, end) := ParseChildren(files, children, seen, schema, imported).value;
            && seen <= end
            && AreSchemas(files, end[|seen|..])
            && schemas == [Declared(schema, children)] + imported + SchemasOf(files, end[|seen|..])
    decreases |Unseen(files, seen)|, 1, |children|
  {
    if children == [] {
      assert seen[|seen|..] == [];
      assert [schema] + imported + [] == [schema] + imported;
    } else {
      hide Declared, Adding, SchemasOf, AreSchemas;
      DeclaredStep(schema, children);
      var rest := children[1..];
      match children[0]
      case Broken =>
      case Link(target) =>
        var (more, mid) := ParseLink(files, target, seen).value;
        LinkSchemas(files, target, seen);
        UnseenShrinks(files, seen, mid);
        ChildrenSchemas(files, rest, mid, schema, imported + more);
        var end := ParseChildren(files, rest, mid, schema, imported + more).value.1;
        JoinLoads(files, seen, mid, end, [Declared(schema, children)], imported, more);
      case _ =>
        ChildrenSchemas(files, rest, seen, Adding(schema, children[0]), imported);
    }
  }

  lemma JoinLoads(files: Files, seen: seq<string>, mid: seq<string>, end: seq<string>, own: seq<Schema>,
                  imported: seq<Schema>, more: seq<Schema>)
    requires seen <= mid <= end
    requires AreSchemas(files, mid[|seen|..]) && more == SchemasOf(files, mid[|seen|..])
    requires AreSchemas(files, end[|mid|..])
    ensures AreSchemas(files, end[|seen|..])
    ensures own + (imported + more) + SchemasOf(files, end[|mid|..]) == own + imported + SchemasOf(files, end[|seen|..])
  {
    hide SchemasOf, AreSchemas;
    var a, b := mid[|seen|..], end[|mid|..];
    assert end[|seen|..] == a + b;
    SchemasConcat(files, a, b);
    assert own + (imported + more) + SchemasOf(files, b) == own + imported + (more + SchemasOf(files, b));
  }

  predicate AreSchemas(files: Files, paths: seq<string>) {
    forall p :: p in paths ==> p in files && files[p].SchemaFile?
  }

  lemma DeclaredStep(schema: Schema, children: seq<Child>)
    requires children != []
    ensures Declared(schema, children) == Declared(Adding(schema, children[0]), children[1..])
    ensures children[0].Link? || children[0].Broken? ==> Adding(schema, children[0]) == schema
  {
  }

  lemma {:induction false} SchemasConcat(files: Files, a: seq<string>, b: seq<string>)
    requires AreSchemas(files, a) && AreSchemas(files, b)
    ensures AreSchemas(files, a + b)
    ensures SchemasOf(files, a + b) == SchemasOf(files, a) + SchemasOf(files, b)
  {
    if b == [] {
      assert a + b == a;
    } else {
      var last := |b| - 1;
      assert b == b[..last] + [b[last]];
      SchemasConcat(files, a, b[..last]);
      assert (a + b)[..|a + b| - 1] == a + b[..last];
    }
  }

  lemma {:induction false} LinkSchemas(files: Files, target: Target, seen: seq<string>)
    requires ParseLink(files, target, seen).Ok?
    ensures var (schemas, end) := ParseLink(files, target, seen).value;
            && seen <= end
            && AreSchemas(files, end[|seen|..])
            && schemas == SchemasOf(files, end[|seen|..])
    decreases |Unseen(files, seen)|, 0, 0
  {
    if target.Local? && target.path !in seen {
      hide Declared;
      var node := files[target.path].node;
      UnseenLess(files, seen, target.path);
      ChildrenSchemas(files, node.children, seen + [target.path], Schema(node.targetNamespace, [], [], []), []);
      var end := ParseLink(files, target, seen).value.1;
      assert end[|seen|..] == [target.path] + end[|seen| + 1..];
      SchemasConcat(files, [target.path], end[|seen| + 1..]);
      assert [target.path][..0] == [];
    } else {
      assert seen[|seen|..] == [];
    }
  }

  // ---- Exactly what can be reached --------------------------------------------------------

  lemma ReachDirectly(files: Files, children: seq<Child>, path: string)
    requires LinksTo(children, path)
    ensures Reachable(files, children, path)
  {
    assert Chain(files, children, [path]);
  }

  lemma ReachThrough(files: Files, children: seq<Child>, via: string, path: string)
    requires LinksTo(children, via) && via in files && files[via].SchemaFile?
    requires Reachable(files, files[via].node.children, path)
    ensures Reachable(files, children, path)
  {
    var chain :| Chain(files, files[via].node.children, chain) && chain[|chain| - 1] == path;
    var longer := [via] + chain;
    assert longer[1..] == chain;
    assert Chain(files, children, longer) && longer[|longer| - 1] == path;
  }

  lemma ReachMore(files: Files, children: seq<Child>, more: seq<Child>, path: string)
    requires Reachable(files, children, path) && forall c :: c in children ==> c in more
    ensures Reachable(files, more, path)
  {
    var chain :| Chain(files, children, chain) && chain[|chain| - 1] == path;
    assert Chain(files, more, chain);
  }

  /** Nothing is loaded that is not linked to, and a load fails only where something linked to is bad. */
  lemma {:induction false} ChildrenReach(files: Files, children: seq<Child>, seen: seq<string>, schema: Schema,
                                         imported: seq<Schema>)
    ensures var r := ParseChildren(files, children, seen, schema, imported);
            && (r.Ok? ==> NewReachable(files, children, r.value.1, |seen|))
            && (r.Err? ==> !AllGood(files, children))
    decreases |Unseen(files, seen)|, 1, |children|
  {
    if children != [] {
      hide NewReachable, AllGood;
      var rest := children[1..];
      assert children == [children[0]] + rest;
      match children[0]
      case Broken =>
        NotSound(files, children);
      case Link(target) =>
        LinkReach(files, children, target, seen);
        match ParseLink(files, target, seen) {
          case Err(_) =>
          case Ok((more, mid)) =>
            UnseenShrinks(files, seen, mid);
            ChildrenReach(files, rest, mid, schema, imported + more);
            RestReach(files, children, rest);
            if ParseChildren(files, rest, mid, schema, imported + more).Ok? {
              NewJoin(files, children, rest, mid, ParseChildren(files, rest, mid, schema, imported + more).value.1, |seen|);
            }
        }
      case _ =>
        ChildrenReach(files, rest, seen, Adding(schema, children[0]), imported);
        RestReach(files, children, rest);
        if ParseChildren(files, children, seen, schema, imported).Ok? {
          NewJoin(files, children, rest, seen, ParseChildren(files, children, seen, schema, imported).value.1, |seen|);
        }
    }
  }

  ghost predicate NewReachable(files: Files, children: seq<Child>, end: seq<string>, n: nat) {
    forall i :: n <= i < |end| ==> Reachable(files, children, end[i])
  }

  lemma NotSound(files: Files, children: seq<Child>)
    requires !Sound(children)
    ensures !AllGood(files, children)
  {
  }

  /** What the rest of the children reach, the children reach; so a bad rest is bad. */
  lemma RestReach(files: Files, children: seq<Child>, rest: seq<Child>)
    requires forall c :: c in rest ==> c in children
    ensures AllGood(files, children) ==> AllGood(files, rest)
  {
    if AllGood(files, children) {
      forall path | Reachable(files, rest, path)
        ensures GoodFile(files, path)
      {
        ReachMore(files, rest, children, path);
      }
    }
  }

  lemma NewJoin(files: Files, children: seq<Child>, rest: seq<Child>, mid: seq<string>, end: seq<string>, n: nat)
    requires mid <= end && n <= |mid| && forall c :: c in rest ==> c in children
    requires n < |mid| ==> NewReachable(files, children, mid, n)
    requires NewReachable(files, rest, end, |mid|)
    ensures NewReachable(files, children, end, n)
  {
    forall i | n <= i < |end|
      ensures Reachable(files, children, end[i])
    {
      if i < |mid| {
        assert end[i] == mid[i];
      } else {
        ReachMore(files, rest, children, end[i]);
      }
    }
  }

  lemma {:induction false} LinkReach(files: Files, children: seq<Child>, target: Target, seen: seq<string>)
    requires Link(target) in children
    ensures var r := ParseLink(files, target, seen);
            && (r.Ok? ==> NewReachable(files, children, r.value.1, |seen|))
            && (r.Err? ==> !AllGood(files, children))
    decreases |Unseen(files, seen)|, 0, 0
  {
    match target
    case Blank =>
    case Remote =>
    case Local(path) =>
      if path !in seen {
        ReachDirectly(files, children, path);
        if path in files && files[path].SchemaFile? {
          var node := files[path].node;
          UnseenLess(files, seen, path);
          ChildrenReach(files, node.children, seen + [path], Schema(node.targetNamespace, [], [], []), []);
          if ParseLink(files, target, seen).Ok? {
            ThroughLink(files, children, path, ParseLink(files, target, seen).value.1, |seen|);
          } else {
            BadThroughLink(files, children, path);
          }
        }
      }
  }

  lemma ThroughLink(files: Files, children: seq<Child>, path: string, end: seq<string>, n: nat)
    requires LinksTo(children, path) && path in files && files[path].SchemaFile?
    requires n < |end| && end[n] == path && NewReachable(files, files[path].node.children, end, n + 1)
    ensures NewReachable(files, children, end, n)
  {
    ReachDirectly(files, children, path);
    forall i | n < i < |end|
      ensures Reachable(files, children, end[i])
    {
      ReachThrough(files, children, path, end[i]);
    }
  }

  lemma BadThroughLink(files: Files, children: seq<Child>, path: string)
    requires LinksTo(children, path) && path in files && files[path].SchemaFile?
    requires !AllGood(files, files[path].node.children)
    ensures !AllGood(files, children)
  {
    ReachDirectly(files, children, path);
    if AllGood(files, children) {
      forall p | Reachable(files, files[path].node.children, p)
        ensures GoodFile(files, p)
      {
        ReachThrough(files, children, path, p);
      }
      assert GoodFile(files, path);
      assert AllGood(files, files[path].node.children);
    }
  }

  /** A complete set of files has everything that can be reached. */
  lemma {:induction false} ChainIsSeen(files: Files, children: seq<Child>, chain: seq<string>, seen: seq<string>)
    requires Chain(files, children, chain) && LinksSeen(children, seen) && Complete(files, seen, 0)
    ensures chain[|chain| - 1] in seen
    decreases |chain|
  {
    assert Link(Local(chain[0])) in children && Local(chain[0]).path == chain[0];
    assert chain[0] in seen;
    var i :| 0 <= i < |seen| && seen[i] == chain[0];
    if |chain| > 1 {
      ChainIsSeen(files, files[chain[0]].node.children, chain[1..], seen);
    }
  }

  /** Loading a schema element terminates, succeeds exactly when everything it leads to can be loaded, and
      then has parsed every file that can be reached, and no other, exactly once, however the files link
      to one another; and gives the element's own schema followed by one for each of those files. */
  lemma LoadingFollowsEveryLinkOnce(files: Files, node: Node)
    ensures ParseSchemaNode(files, node, []).Ok? <==> AllGood(files, node.children)
    ensures ParseSchemaNode(files, node, []).Ok? ==>
              var (schemas, order) := ParseSchemaNode(files, node, []).value;
              && Distinct(order)
              && (forall path :: path in order <==> Reachable(files, node.children, path))
              && AreSchemas(files, order)
              && schemas == [SchemaOf(node)] + SchemasOf(files, order)
  {
    hide Declared;
    var start := Schema(node.targetNamespace, [], [], []);
    ChildrenReach(files, node.children, [], start, []);
    if ParseSchemaNode(files, node, []).Ok? {
      ChildrenComplete(files, node.children, [], start, []);
      ChildrenSchemas(files, node.children, [], start, []);
      var (schemas, order) := ParseSchemaNode(files, node, []).value;
      assert order[0..] == order;
      assert [SchemaOf(node)] + [] == [SchemaOf(node)];
      forall path
        ensures path in order <==> Reachable(files, node.children, path)
        ensures Reachable(files, node.children, path) ==> GoodFile(files, path)
      {
        if Reachable(files, node.children, path) {
          var chain :| Chain(files, node.children, chain) && chain[|chain| - 1] == path;
          ChainIsSeen(files, node.children, chain, order);
        }
      }
    }
  }

  // ---- Several schema elements in one document --------------------------------------------

  /** The schema elements of a document share one set of visited files. */
  function ParseTypes(files: Files, nodes: seq<Node>, seen: seq<string>): Loaded {
    if nodes == [] then Ok(([], seen))
    else
      match ParseSchemaNode(files, nodes[0], seen)
      case Err(e) => Err(e)
      case Ok((schemas, mid)) =>
        match ParseTypes(files, nodes[1..], mid)
        case Err(e) => Err(e)
        case Ok((more, end)) => Ok((schemas + more, end))
  }

  ghost predicate ReachableFrom(files: Files, nodes: seq<Node>, path: string) {
    exists i :: 0 <= i < |nodes| && Reachable(files, nodes[i].children, path)
  }

  lemma {:induction false} TypesComplete(files: Files, nodes: seq<Node>, seen: seq<string>)
    requires Distinct(seen)
    ensures var r := ParseTypes(files, nodes, seen);
            && (r.Err? ==> exists i :: 0 <= i < |nodes| && !AllGood(files, nodes[i].children))
            && (r.Ok? ==>
                  var (schemas, end) := r.value;
                  && seen <= end && Distinct(end) && Complete(files, end, |seen|)
                  && (forall i :: 0 <= i < |nodes| ==> Sound(nodes[i].children) && LinksSeen(nodes[i].children, end))
                  && (forall j :: |seen| <= j < |end| ==> ReachableFrom(files, nodes, end[j])))
  {
    hide AllGood, Complete, Distinct, LinksSeen, Sound, Reachable, Declared;
    if nodes == [] {
      NothingLoaded(files, seen);
    } else {
      var start := Schema(nodes[0].targetNamespace, [], [], []);
      ChildrenReach(files, nodes[0].children, seen, start, []);
      if ParseSchemaNode(files, nodes[0], seen).Err? {
        assert !AllGood(files, nodes[0].children);
      } else {
        var (schemas, mid) := ParseSchemaNode(files, nodes[0], seen).value;
        ChildrenComplete(files, nodes[0].children, seen, start, []);
        TypesComplete(files, nodes[1..], mid);
        if ParseTypes(files, nodes[1..], mid).Ok? {
          var end := ParseTypes(files, nodes[1..], mid).value.1;
          CompleteMore(files, seen, mid, end);
          LinksSeenMore(nodes[0].children, mid, end);
          forall j | |seen| <= j < |end|
            ensures ReachableFrom(files, nodes, end[j])
          {
            FromFirstOrRest(files, nodes, seen, mid, end, j);
          }
        } else {
          var i :| 0 <= i < |nodes[1..]| && !AllGood(files, nodes[1..][i].children);
          assert nodes[1..][i] == nodes[i + 1];
        }
      }
    }
  }

  lemma NothingLoaded(files: Files, seen: seq<string>)
    ensures Complete(files, seen, |seen|)
  {
  }

  lemma FromFirstOrRest(files: Files, nodes: seq<Node>, seen: seq<string>, mid: seq<string>, end: seq<string>, j: nat)
    requires nodes != [] && seen <= mid <= end && |seen| <= j < |end|
    requires NewReachable(files, nodes[0].children, mid, |seen|)
    requires |mid| <= j ==> ReachableFrom(files, nodes[1..], end[j])
    ensures ReachableFrom(files, nodes, end[j])
  {
    if j < |mid| {
      assert end[j] == mid[j];
    } else {
      var i :| 0 <= i < |nodes[1..]| && Reachable(files, nodes[1..][i].children, end[j]);
      assert nodes[1..][i] == nodes[i + 1];
    }
  }

  lemma TypesReachAll(files: Files, nodes: seq<Node>)
    ensures ParseTypes(files, nodes, []).Ok? <==> forall i :: 0 <= i < |nodes| ==> AllGood(files, nodes[i].children)
    ensures ParseTypes(files, nodes, []).Ok? ==>
              var order := ParseTypes(files, nodes, []).value.1;
              Distinct(order) && forall path :: path in order <==> ReachableFrom(files, nodes, path)
  {
    TypesComplete(files, nodes, []);
    if ParseTypes(files, nodes, []).Ok? {
      var order := ParseTypes(files, nodes, []).value.1;
      forall i, path | 0 <= i < |nodes| && Reachable(files, nodes[i].children, path)
        ensures path in order && GoodFile(files, path)
      {
        var chain :| Chain(files, nodes[i].children, chain) && chain[|chain| - 1] == path;
        ChainIsSeen(files, nodes[i].children, chain, order);
      }
    }
  }

  /** The loaded files fall into one stretch for each schema element; the cuts say where. */
  predicate Cuts(nodes: seq<Node>, order: seq<string>, start: nat, cuts: seq<nat>) {
    && |cuts| == |nodes| + 1 && cuts[0] == start && cuts[|nodes|] == |order|
    && (forall i :: 0 <= i < |nodes| ==> cuts[i] <= cuts[i + 1])
    && (forall i :: 0 <= i < |cuts| ==> start <= cuts[i] <= |order|)
  }

  /** For each schema element its own schema, then those of the files in its stretch. */
  function TypeSchemas(files: Files, nodes: seq<Node>, order: seq<string>, start: nat, cuts: seq<nat>): seq<Schema>
    requires Cuts(nodes, order, start, cuts) && AreSchemas(files, order[start..])
  {
    if nodes == [] then []
    else
      CutsRest(files, nodes, order, start, cuts);
      [SchemaOf(nodes[0])] + SchemasOf(files, order[start..cuts[1]])
      + TypeSchemas(files, nodes[1..], order, cuts[1], cuts[1..])
  }

  lemma CutsRest(files: Files, nodes: seq<Node>, order: seq<string>, start: nat, cuts: seq<nat>)
    requires Cuts(nodes, order, start, cuts) && AreSchemas(files, order[start..]) && nodes != []
    ensures Cuts(nodes[1..], order, cuts[1], cuts[1..])
    ensures AreSchemas(files, order[start..cuts[1]]) && AreSchemas(files, order[cuts[1]..])
  {
    assert forall i :: 0 <= i < |cuts[1..]| ==> cuts[1..][i] == cuts[i + 1];
    forall i | 1 <= i < |cuts|
      ensures cuts[1] <= cuts[i]
    {
      CutsIncrease(nodes, order, start, cuts, i);
    }
    assert forall k :: 0 <= k < |order[start..cuts[1]]| ==> order[start..cuts[1]][k] == order[start..][k];
    assert forall k :: 0 <= k < |order[cuts[1]..]| ==> order[cuts[1]..][k] == order[start..][k + cuts[1] - start];
  }

  lemma {:induction false} CutsIncrease(nodes: seq<Node>, order: seq<string>, start: nat, cuts: seq<nat>, i: nat)
    requires Cuts(nodes, order, start, cuts) && 1 <= i < |cuts|
    ensures cuts[1] <= cuts[i]
  {
    if i > 1 {
      CutsIncrease(nodes, order, start, cuts, i - 1);
    }
  }

  /** How many files have been loaded before each schema element, and after all. */
  function StretchEnds(files: Files, nodes: seq<Node>, seen: seq<string>): (cuts: seq<nat>)
    requires ParseTypes(files, nodes, seen).Ok?
    ensures |cuts| == |nodes| + 1 && cuts[0] == |seen|
  {
    if nodes == [] then [|seen|]
    else [|seen|] + StretchEnds(files, nodes[1..], ParseSchemaNode(files, nodes[0], seen).value.1)
  }

  lemma CutsFirst(files: Files, nodes: seq<Node>, order: seq<string>, start: nat, mid: nat, rest: seq<nat>)
    requires nodes != [] && start <= mid <= |order| && Cuts(nodes[1..], order, mid, rest)
    requires AreSchemas(files, order[start..mid]) && AreSchemas(files, order[mid..])
    ensures AreSchemas(files, order[start..]) && Cuts(nodes, order, start, [start] + rest)
    ensures TypeSchemas(files, nodes, order, start, [start] + rest)
            == [SchemaOf(nodes[0])] + SchemasOf(files, order[start..mid]) + TypeSchemas(files, nodes[1..], order, mid, rest)
  {
    hide AreSchemas, SchemaOf, SchemasOf;
    JoinStretches(files, order, start, mid);
    var cuts := [start] + rest;
    assert cuts[1..] == rest;
    forall i | 0 <= i < |nodes|
      ensures cuts[i] <= cuts[i + 1]
    {
      if i > 0 {
        assert rest[i - 1] <= rest[i];
      }
    }
  }

  lemma {:induction false} TypesGrouped(files: Files, nodes: seq<Node>, seen: seq<string>)
    requires ParseTypes(files, nodes, seen).Ok?
    ensures var (schemas, end) := ParseTypes(files, nodes, seen).value;
            var cuts := StretchEnds(files, nodes, seen);
            && seen <= end && Cuts(nodes, end, |seen|, cuts) && AreSchemas(files, end[|seen|..])
            && schemas == TypeSchemas(files, nodes, end, |seen|, cuts)
  {
    var end := ParseTypes(files, nodes, seen).value.1;
    if nodes == [] {
      NoSchemas(files, end[|seen|..]);
    } else {
      hide AreSchemas, SchemaOf, SchemasOf, ParseSchemaNode, Cuts, TypeSchemas;
      var mid := ParseSchemaNode(files, nodes[0], seen).value.1;
      OwnSchemas(files, nodes[0], seen);
      TypesGrouped(files, nodes[1..], mid);
      assert mid == end[..|mid|];
      assert mid[|seen|..] == end[|seen|..|mid|];
      CutsFirst(files, nodes, end, |seen|, |mid|, StretchEnds(files, nodes[1..], mid));
    }
  }

  /** The first schema elements on their own load the files before the cut. */
  lemma {:induction false} PrefixLoads(files: Files, nodes: seq<Node>, seen: seq<string>, i: nat)
    requires ParseTypes(files, nodes, seen).Ok? && i <= |nodes|
    ensures var end := ParseTypes(files, nodes, seen).value.1;
            var cut := StretchEnds(files, nodes, seen)[i];
            && seen <= end && cut <= |end|
            && ParseTypes(files, nodes[..i], seen).Ok? && ParseTypes(files, nodes[..i], seen).value.1 == end[..cut]
    decreases |nodes|
  {
    hide ParseSchemaNode, TypeSchemas, AreSchemas;
    TypesGrouped(files, nodes, seen);
    var end := ParseTypes(files, nodes, seen).value.1;
    if i == 0 {
      assert nodes[..i] == [];
      assert seen == end[..|seen|];
    } else {
      PrefixLoads(files, nodes[1..], ParseSchemaNode(files, nodes[0], seen).value.1, i - 1);
      assert nodes[..i][0] == nodes[0] && nodes[..i][1..] == nodes[1..][..i - 1];
    }
  }

  lemma NoSchemas(files: Files, paths: seq<string>)
    requires paths == []
    ensures AreSchemas(files, paths)
  {
  }

  lemma OwnSchemas(files: Files, node: Node, seen: seq<string>)
    requires ParseSchemaNode(files, node, seen).Ok?
    ensures var (schemas, end) := ParseSchemaNode(files, node, seen).value;
            && seen <= end && AreSchemas(files, end[|seen|..])
            && schemas == [SchemaOf(node)] + SchemasOf(files, end[|seen|..])
  {
    hide Declared, SchemasOf, AreSchemas, ParseChildren;
    var start := Schema(node.targetNamespace, [], [], []);
    ChildrenSchemas(files, node.children, seen, start, []);
    assert [SchemaOf(node)] + [] == [SchemaOf(node)];
  }

  lemma JoinStretches(files: Files, order: seq<string>, start: nat, mid: nat)
    requires start <= mid <= |order| && AreSchemas(files, order[start..mid]) && AreSchemas(files, order[mid..])
    ensures AreSchemas(files, order[start..])
  {
    assert order[start..] == order[start..mid] + order[mid..];
  }

  /** Parsing the schemas of a document succeeds exactly when everything they lead to can be loaded, and
      then loads every file that any of them leads to, and no other, exactly once. It gives, element by
      element, its own schema and one for each file that it leads to and none before it does. */
  lemma TypesFollowEveryLinkOnce(files: Files, nodes: seq<Node>) returns (cuts: seq<nat>)
    ensures ParseTypes(files, nodes, []).Ok? <==> forall i :: 0 <= i < |nodes| ==> AllGood(files, nodes[i].children)
    ensures ParseTypes(files, nodes, []).Ok? ==>
              var (schemas, order) := ParseTypes(files, nodes, []).value;
              && Distinct(order)
              && (forall path :: path in order <==> ReachableFrom(files, nodes, path))
              && Cuts(nodes, order, 0, cuts)
              && (forall i, path :: 0 <= i <= |nodes| ==>
                    (path in order[..cuts[i]] <==> ReachableFrom(files, nodes[..i], path)))
              && AreSchemas(files, order[0..]) && schemas == TypeSchemas(files, nodes, order, 0, cuts)
  {
    hide ParseTypes, TypeSchemas, AreSchemas, Reachable, AllGood;
    TypesReachAll(files, nodes);
    cuts := [];
    if ParseTypes(files, nodes, []).Ok? {
      cuts := StretchEnds(files, nodes, []);
      TypesGrouped(files, nodes, []);
      var order := ParseTypes(files, nodes, []).value.1;
      forall i, path | 0 <= i <= |nodes|
        ensures path in order[..cuts[i]] <==> ReachableFrom(files, nodes[..i], path)
      {
        TypesReachAll(files, nodes[..i]);
        PrefixLoads(files, nodes, [], i);
      }
    }
  }

  // ---- The loader and the parser ----------------------------------------------------------

  class LocalLoader {
    var visited: set<string>
    ghost var order: seq<string>

    ghost predicate Valid()
      reads this
    {
      visited == set p | p in order
    }

    constructor ()
      ensures Valid() && order == []
    {
      visited, order := {}, [];
    }

    /** The file at a path, unless it has been loaded before. */
    method Load(files: Files, path: string) returns (r: Result<Option<File>, LoadError>)
      requires Valid()
      modifies this
      ensures Valid()
      ensures path in old(order) ==> r == Ok(None) && order == old(order)
      ensures path !in old(order) && path !in files ==> r == Err(Unreadable) && order == old(order)
      ensures path !in old(order) && path in files ==> r == Ok(Some(files[path])) && order == old(order) + [path]
    {
      if path in visited {
        return Ok(None);
      }
      if path !in files {
        return Err(Unreadable);
      }
      visited := visited + {path};
      order := order + [path];
      r := Ok(Some(files[path]));
    }
  }

  class SchemaParser {
    const files: Files
    const loader: LocalLoader

    constructor (files: Files)
      ensures this.files == files && fresh(loader) && loader.Valid() && loader.order == []
    {
      this.files := files;
      loader := new LocalLoader();
    }

    /** The schema of an element and those its links bring in, as ParseSchemaNode says. */
    method ParseNode(node: Node) returns (r: Result<seq<Schema>, LoadError>)
      requires loader.Valid()
      modifies loader
      ensures loader.Valid()
      ensures match ParseSchemaNode(files, node, old(loader.order))
              case Ok((schemas, end)) => r == Ok(schemas) && loader.order == end
              case Err(e) => r == Err(e)
      decreases |Unseen(files, loader.order)|, 1
    {
      hide ParseLink, Unseen;
      var schema := Schema(node.targetNamespace, [], [], []);
      var imported: seq<Schema> := [];
      assert node.children[0..] == node.children;
      for n := 0 to |node.children|
        invariant loader.Valid() && old(loader.order) <= loader.order
        invariant ParseChildren(files, node.children[n..], loader.order, schema, imported)
                  == ParseSchemaNode(files, node, old(loader.order))
      {
        ghost var left := node.children[n..];
        assert left[0] == node.children[n] && left[1..] == node.children[n + 1..];
        match node.children[n] {
          case Element(d) =>
            schema := schema.(elements := schema.elements + [d]);
          case ComplexType(d) =>
            schema := schema.(complexTypes := schema.complexTypes + [d]);
          case SimpleType(d) =>
            schema := schema.(simpleTypes := schema.simpleTypes + [d]);
          case Broken =>
            return Err(BadDeclaration);
          case Link(target) =>
            UnseenShrinks(files, old(loader.order), loader.order);
            var more := ParseImported(target);
            if more.Err? {
              return more;
            }
            imported := imported + more.value;
          case Other =>
        }
      }
      r := Ok([schema] + imported);
    }

    method ParseImported(target: Target) returns (r: Result<seq<Schema>, LoadError>)
      requires loader.Valid()
      modifies loader
      ensures loader.Valid()
      ensures match ParseLink(files, target, old(loader.order))
              case Ok((schemas, end)) => r == Ok(schemas) && loader.order == end
              case Err(e) => r == Err(e)
      decreases |Unseen(files, loader.order)|, 0
    {
      match target
      case Blank =>
        return Ok([]);
      case Remote =>
        return Err(RemoteLocation);
      case Local(path) =>
        var loaded := loader.Load(files, path);
        if loaded.Err? {
          return Err(loaded.error);
        }
        if loaded.value.None? {
          return Ok([]);
        }
        match loaded.value.value
        case NotXml => return Err(InvalidXml);
        case NotSchema => return Err(NotASchema);
        case SchemaFile(node) =>
          UnseenLess(files, old(loader.order), path);
          r := ParseNode(node);
    }

    method ParseTypesOf(nodes: seq<Node>) returns (r: Result<seq<Schema>, LoadError>)
      requires loader.Valid()
      modifies loader
      ensures loader.Valid()
      ensures match ParseTypes(files, nodes, old(loader.order))
              case Ok((schemas, end)) => r == Ok(schemas) && loader.order == end
              case Err(e) => r == Err(e)
    {
      hide ParseSchemaNode;
      var schemas: seq<Schema> := [];
      assert nodes[0..] == nodes;
      if ParseTypes(files, nodes, loader.order).Ok? {
        assert [] + ParseTypes(files, nodes, loader.order).value.0 == ParseTypes(files, nodes, loader.order).value.0;
      }
      for n := 0 to |nodes|
        invariant loader.Valid()
        invariant ParseTypes(files, nodes, old(loader.order))
                  == match ParseTypes(files, nodes[n..], loader.order)
                     case Err(e) => Err(e)
                     case Ok((more, end)) => Ok((schemas + more, end))
      {
        assert nodes[n..][0] == nodes[n] && nodes[n..][1..] == nodes[n + 1..];
        ghost var before := schemas;
        var parsed := ParseNode(nodes[n]);
        if parsed.Err? {
          return parsed;
        }
        schemas := schemas + parsed.value;
        if ParseTypes(files, nodes[n + 1..], loader.order).Ok? {
          ghost var more := ParseTypes(files, nodes[n + 1..], loader.order).value.0;
          assert before + (parsed.value + more) == schemas + more;
        }
      }
      assert nodes[|nodes|..] == [] && schemas + [] == schemas;
      r := Ok(schemas);
    }
  }
}
