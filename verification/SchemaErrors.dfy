/** Why a load fails: the error names a fault of its own kind in something that the schema element leads to. */
module SchemaErrors {
  import opened Wrappers
  import opened SchemaLoading

  /** A fault among the children of an element, or in a file that one of them links to. */
  ghost predicate FaultIn(files: Files, children: seq<Child>, e: LoadError) {
    match e
    case BadDeclaration => Broken in children
    case RemoteLocation => Link(Remote) in children
    case Unreadable => exists path :: Link(Local(path)) in children && path !in files
    case InvalidXml => exists path :: Link(Local(path)) in children && path in files && files[path] == NotXml
    case NotASchema => exists path :: Link(Local(path)) in children && path in files && files[path] == NotSchema
  }

  /** In the element itself, or in a schema that it leads to. */
  ghost predicate Caused(files: Files, children: seq<Child>, e: LoadError) {
    FaultIn(files, children, e)
    || exists path :: Reachable(files, children, path) && path in files && files[path].SchemaFile?
                      && FaultIn(files, files[path].node.children, e)
  }

  lemma CausedInMore(files: Files, children: seq<Child>, more: seq<Child>, e: LoadError)
    requires Caused(files, children, e) && forall c :: c in children ==> c in more
    ensures Caused(files, more, e)
  {
    hide Reachable;
    if !FaultIn(files, children, e) {
      var path :| Reachable(files, children, path) && path in files && files[path].SchemaFile?
                  && FaultIn(files, files[path].node.children, e);
      ReachMore(files, children, more, path);
    }
  }

  lemma CausedThrough(files: Files, children: seq<Child>, via: string, e: LoadError)
    requires LinksTo(children, via) && via in files && files[via].SchemaFile?
    requires Caused(files, files[via].node.children, e)
    ensures Caused(files, children, e)
  {
    hide Reachable, FaultIn;
    ReachDirectly(files, children, via);
    if !FaultIn(files, files[via].node.children, e) {
      var path :| Reachable(files, files[via].node.children, path) && path in files && files[path].SchemaFile?
                  && FaultIn(files, files[path].node.children, e);
      ReachThrough(files, children, via, path);
    }
  }

  lemma {:induction false} ChildrenErrors(files: Files, children: seq<Child>, seen: seq<string>, schema: Schema,
                                          imported: seq<Schema>)
    ensures var r := ParseChildren(files, children, seen, schema, imported);
            r.Err? ==> Caused(files, children, r.error)
    decreases |Unseen(files, seen)|, 1, |children|
  {
    if children != [] {
      hide Caused;
      var rest := children[1..];
      assert children == [children[0]] + rest;
      var r := ParseChildren(files, children, seen, schema, imported);
      match children[0]
      case Broken => FaultHere(files, children, BadDeclaration);
      case Link(target) =>
        LinkErrors(files, children, target, seen);
        if ParseLink(files, target, seen).Ok? {
          var (more, mid) := ParseLink(files, target, seen).value;
          UnseenShrinks(files, seen, mid);
          ChildrenErrors(files, rest, mid, schema, imported + more);
          if r.Err? {
            CausedInMore(files, rest, children, r.error);
          }
        }
      case _ =>
        ChildrenErrors(files, rest, seen, Adding(schema, children[0]), imported);
        if r.Err? {
          CausedInMore(files, rest, children, r.error);
        }
    }
  }

  lemma FaultHere(files: Files, children: seq<Child>, e: LoadError)
    ensures FaultIn(files, children, e) ==> Caused(files, children, e)
  {
  }

  lemma {:induction false} LinkErrors(files: Files, children: seq<Child>, target: Target, seen: seq<string>)
    requires Link(target) in children
    ensures var r := ParseLink(files, target, seen); r.Err? ==> Caused(files, children, r.error)
    decreases |Unseen(files, seen)|, 0, 0
  {
    hide Caused;
    var r := ParseLink(files, target, seen);
    if r.Err? {
      FaultHere(files, children, r.error);
      if target.Local? && target.path in files && files[target.path].SchemaFile? {
        var path := target.path;
        var node := files[path].node;
        UnseenLess(files, seen, path);
        ChildrenErrors(files, node.children, seen + [path], Schema(node.targetNamespace, [], [], []), []);
        CausedThrough(files, children, path, r.error);
      }
    }
  }

  /** A document whose schemas do not load: some element of it leads to a fault of the kind reported. */
  lemma {:induction false} ErrorsAreFaults(files: Files, nodes: seq<Node>, seen: seq<string>)
    ensures var r := ParseTypes(files, nodes, seen);
            r.Err? ==> exists i :: 0 <= i < |nodes| && Caused(files, nodes[i].children, r.error)
  {
    if nodes != [] {
      hide Caused;
      ChildrenErrors(files, nodes[0].children, seen, Schema(nodes[0].targetNamespace, [], [], []), []);
      if ParseSchemaNode(files, nodes[0], seen).Ok? {
        var mid := ParseSchemaNode(files, nodes[0], seen).value.1;
        ErrorsAreFaults(files, nodes[1..], mid);
        var r := ParseTypes(files, nodes, seen);
        if r.Err? {
          var i :| 0 <= i < |nodes[1..]| && Caused(files, nodes[1..][i].children, r.error);
          assert nodes[i + 1] == nodes[1..][i];
        }
      }
    }
  }
}
