/** The radix tree as linked nodes. A ghost map from positions to nodes ties the nodes to the
    trie they represent; what a node holds is its view, and the laws of linking are stated on
    views, away from the heap. */
module RouteTree {
  import opened Wrappers
  import opened RoutePaths
  import opened RouteTrie
  import opened RouteTrieLaws

  class Node {
    var children: map<string, Node>
    var paramChild: Node?
    var wildcardChild: Node?
    var paramName: string
    var entry: Option<RouteEntry>

    constructor (name: string)
      ensures ViewOf(this) == View(map[], null, null, name, None)
    {
      children := map[];
      paramChild := null;
      wildcardChild := null;
      paramName := name;
      entry := None;
    }
  }

  method AttachTo(node: Node, segment: string) returns (child: Node)
    requires segment != ""
    modifies node
    ensures fresh(child)
    ensures ViewOf(node) == WithChild(old(ViewOf(node)), EdgeOf(segment), child)
    ensures ViewOf(child) == NewView(segment)
  {
    match segment[0] {
      case ':' =>
        child := new Node(segment[1..]);
        node.paramChild := child;
      case '*' =>
        child := new Node(segment[1..]);
        node.wildcardChild := child;
      case _ =>
        child := new Node("");
        node.children := node.children[segment := child];
    }
  }

  ghost function NewView(segment: string): View
    requires segment != ""
  {
    View(map[], null, null, if EdgeOf(segment).Lit? then "" else segment[1..], None)
  }

  method DetachFrom(node: Node, segment: string)
    requires segment != ""
    modifies node
    ensures ViewOf(node) == WithoutChild(old(ViewOf(node)), EdgeOf(segment))
  {
    match segment[0] {
      case ':' =>
        node.paramChild := null;
      case '*' =>
        node.wildcardChild := null;
      case _ =>
        node.children := node.children - {segment};
    }
  }

  /** The parameter map that one search fills. */
  class ParamStore {
    var values: Params

    constructor (initial: Params)
      ensures values == initial
    {
      values := initial;
    }
  }

  datatype View = View(children: map<string, Node>, paramChild: Node?, wildcardChild: Node?, paramName: string,
                       entry: Option<RouteEntry>)

  ghost function ViewOf(n: Node): View
    reads n
  {
    View(n.children, n.paramChild, n.wildcardChild, n.paramName, n.entry)
  }

  ghost function ViewsOf(nodes: map<Position, Node>): map<Position, View>
    reads nodes.Values
  {
    map p | p in nodes :: ViewOf(nodes[p])
  }

  ghost function ModelOf(views: map<Position, View>): Trie {
    map p | p in views :: Slot(views[p].paramName, views[p].entry)
  }

  ghost function Routes(t: Trie): set<Position> {
    set p | p in t && t[p].entry.Some?
  }

  // ---- Linking ----------------------------------------------------------------------------

  ghost predicate Injective(nodes: map<Position, Node>) {
    forall p, q :: p in nodes && q in nodes && nodes[p] == nodes[q] ==> p == q
  }

  /** The child that a view holds along an edge. */
  ghost function ChildAlong(v: View, e: Edge): Node? {
    match e
    case Lit(k) => if k in v.children then v.children[k] else null
    case Param => v.paramChild
    case CatchAll => v.wildcardChild
  }

  /** Every link leads to the node at the extended position, and every node but the root hangs from
      its parent. */
  ghost predicate WellLinked(nodes: map<Position, Node>, views: map<Position, View>) {
    && nodes.Keys == views.Keys
    && Injective(nodes)
    && (forall p, e :: p + [e] in nodes ==> p in nodes)
    && (forall p, e :: p in nodes ==>
          ChildAlong(views[p], e) == if p + [e] in nodes then nodes[p + [e]] else null)
  }

  ghost function WithChild(v: View, e: Edge, child: Node): View {
    match e
    case Lit(k) => v.(children := v.children[k := child])
    case Param => v.(paramChild := child)
    case CatchAll => v.(wildcardChild := child)
  }

  ghost function WithoutChild(v: View, e: Edge): View {
    match e
    case Lit(k) => v.(children := v.children - {k})
    case Param => v.(paramChild := null)
    case CatchAll => v.(wildcardChild := null)
  }

  lemma AttachKeepsLinks(nodes: map<Position, Node>, views: map<Position, View>, p: Position, e: Edge,
                         child: Node, name: string)
    requires WellLinked(nodes, views) && p in nodes && p + [e] !in nodes
    requires child !in nodes.Values
    ensures WellLinked(nodes[p + [e] := child],
                       views[p := WithChild(views[p], e, child)][p + [e] := View(map[], null, null, name, None)])
  {
    var c := p + [e];
    var nodes1 := nodes[c := child];
    var views1 := views[p := WithChild(views[p], e, child)][c := View(map[], null, null, name, None)];
    OnlyParent(p, e);
    forall q, f | q in nodes1
      ensures ChildAlong(views1[q], f) == if q + [f] in nodes1 then nodes1[q + [f]] else null
    {
      if q == c {
        assert c + [f] !in nodes && |c + [f]| != |c|;
      }
    }
  }

  lemma OnlyParent(p: Position, e: Edge)
    ensures p + [e] != p
    ensures forall q, f {:trigger q + [f]} :: q + [f] == p + [e] ==> q == p && f == e
  {
    assert |p + [e]| != |p|;
    forall q, f | q + [f] == p + [e]
      ensures q == p && f == e
    {
      SnocInjective(q, f, p, e);
    }
  }

  lemma DetachKeepsLinks(nodes: map<Position, Node>, views: map<Position, View>, p: Position, e: Edge)
    requires WellLinked(nodes, views) && p in nodes && p + [e] in nodes
    requires forall f :: (p + [e]) + [f] !in nodes
    ensures WellLinked(nodes - {p + [e]}, views[p := WithoutChild(views[p], e)] - {p + [e]})
  {
    var c := p + [e];
    var nodes1 := nodes - {c};
    var views1 := views[p := WithoutChild(views[p], e)] - {c};
    OnlyParent(p, e);
    assert forall q :: q in nodes1 <==> q in nodes && q != c;
    forall q, f | q in nodes1
      ensures ChildAlong(views1[q], f) == if q + [f] in nodes1 then nodes1[q + [f]] else null
    {
      assert ChildAlong(views[q], f) == if q + [f] in nodes then nodes[q + [f]] else null;
    }
    assert nodes1.Keys == views1.Keys;
  }

  lemma CutViews(views: map<Position, View>, cut: map<Position, View>, p: Position, v: View, c: Position)
    requires p in views && c != p && cut.Keys == views.Keys - {c}
    requires forall q :: q in cut ==> cut[q] == if q == p then v else views[q]
    ensures cut == views[p := v] - {c}
  {
  }

  lemma GrowViews(views: map<Position, View>, grown: map<Position, View>, p: Position, v: View, c: Position, w: View)
    requires p in views && c != p && grown.Keys == views.Keys + {c}
    requires forall q :: q in grown ==> grown[q] == if q == c then w else if q == p then v else views[q]
    ensures grown == views[p := v][c := w]
  {
  }

  lemma LoneRoot(root: Node, view: View)
    requires view == View(map[], null, null, "", None)
    ensures WellLinked(map[[] := root], map[[] := view])
    ensures ModelOf(map[[] := view]) == EMPTY_TRIE && |Routes(EMPTY_TRIE)| == 0
  {
    assert Routes(EMPTY_TRIE) == {};
  }

  lemma EntryKeepsLinks(nodes: map<Position, Node>, views: map<Position, View>, p: Position, entry: Option<RouteEntry>)
    requires WellLinked(nodes, views) && p in nodes
    ensures WellLinked(nodes, views[p := views[p].(entry := entry)])
  {
  }

  // ---- The tree ---------------------------------------------------------------------------

  class RadixTree {
    var root: Node
    var size: int
    ghost var nodes: map<Position, Node>

    ghost predicate Valid()
      reads this, nodes.Values
    {
      && [] in nodes && nodes[[]] == root
      && WellLinked(nodes, ViewsOf(nodes))
      && size == |Routes(Model())|
    }

    ghost function Model(): Trie
      reads this, nodes.Values
    {
      ModelOf(ViewsOf(nodes))
    }

    constructor ()
      ensures Valid() && Model() == EMPTY_TRIE && fresh(nodes.Values)
    {
      root := new Node("");
      size := 0;
      nodes := map[[] := root];
      new;
      LoneRoot(root, ViewOf(root));
      assert ViewsOf(nodes) == map[[] := ViewOf(root)];
    }

    /** What the links of one node, and its slot in the model, are. */
    lemma Links(p: Position, e: Edge)
      requires WellLinked(nodes, ViewsOf(nodes)) && p in nodes
      ensures Injective(nodes)
      ensures Model().Keys == nodes.Keys && Model()[p] == Slot(nodes[p].paramName, nodes[p].entry)
      ensures ChildAlong(ViewOf(nodes[p]), e) == if p + [e] in nodes then nodes[p + [e]] else null
      ensures p + [e] in nodes ==>
                Model()[p + [e]] == Slot(nodes[p + [e]].paramName, nodes[p + [e]].entry) && nodes[p + [e]] in nodes.Values
    {
    }

    lemma ModelKeys()
      ensures Model().Keys == ViewsOf(nodes).Keys == nodes.Keys
    {
    }

    method ChildOf(ghost p: Position, node: Node, segment: string) returns (child: Node?)
      requires WellLinked(nodes, ViewsOf(nodes)) && p in nodes && nodes[p] == node && segment != ""
      ensures child == if p + [EdgeOf(segment)] in nodes then nodes[p + [EdgeOf(segment)]] else null
    {
      hide WellLinked, ViewsOf;
      Links(p, EdgeOf(segment));
      match segment[0] {
        case ':' => child := node.paramChild;
        case '*' => child := node.wildcardChild;
        case _ => child := if segment in node.children then node.children[segment] else null;
      }
    }

    lemma ModelIsRooted()
      requires Valid()
      ensures [] in Model()
    {
    }

    // ---- Changes to one node --------------------------------------------------------------

    method Attach(ghost p: Position, current: Node, segment: string) returns (child: Node)
      requires Injective(nodes) && p in nodes && nodes[p] == current && segment != ""
      requires p + [EdgeOf(segment)] !in nodes
      modifies this`nodes, current
      ensures var e := EdgeOf(segment);
              && nodes == old(nodes)[p + [e] := child] && fresh(child)
              && ViewsOf(nodes) == old(ViewsOf(nodes))[p := WithChild(old(ViewsOf(nodes))[p], e, child)]
                                   [p + [e] := NewView(segment)]
    {
      ghost var c, views := p + [EdgeOf(segment)], ViewsOf(nodes);
      assert c != p by { OnlyParent(p, EdgeOf(segment)); }
      OtherNodes(p);
      ViewsAre();
      hide WithChild, NewView, EdgeOf, Injective, ViewsOf;
      child := AttachTo(current, segment);
      nodes := nodes[c := child];
      ViewsAre();
      forall q | q in nodes
        ensures ViewOf(nodes[q]) == if q == c then NewView(segment)
                                    else if q == p then WithChild(views[p], EdgeOf(segment), child) else views[q]
      {
        assert q != p && q != c ==> old(nodes[q]) != current;
      }
      GrowViews(views, ViewsOf(nodes), p, WithChild(views[p], EdgeOf(segment), child), c, NewView(segment));
    }

    method PutEntry(ghost p: Position, node: Node, entry: Option<RouteEntry>)
      requires Injective(nodes) && p in nodes && nodes[p] == node
      modifies node`entry
      ensures ViewsOf(nodes) == old(ViewsOf(nodes))[p := old(ViewsOf(nodes))[p].(entry := entry)]
    {
      node.entry := entry;
    }

    method Detach(ghost p: Position, current: Node, segment: string)
      requires Injective(nodes) && p in nodes && nodes[p] == current && segment != ""
      requires p + [EdgeOf(segment)] in nodes
      modifies this`nodes, current
      ensures var e := EdgeOf(segment);
              && nodes == old(nodes) - {p + [e]}
              && ViewsOf(nodes) == old(ViewsOf(nodes))[p := WithoutChild(old(ViewsOf(nodes))[p], e)] - {p + [e]}
    {
      ghost var c, views := p + [EdgeOf(segment)], ViewsOf(nodes);
      assert c != p by { OnlyParent(p, EdgeOf(segment)); }
      OtherNodes(p);
      ViewsAre();
      hide WithoutChild, EdgeOf, Injective, ViewsOf;
      DetachFrom(current, segment);
      nodes := nodes - {c};
      ViewsAre();
      forall q | q in nodes
        ensures ViewOf(nodes[q]) == if q == p then WithoutChild(views[p], EdgeOf(segment)) else views[q]
      {
        assert q != p ==> old(nodes[q]) != current;
      }
      CutViews(views, ViewsOf(nodes), p, WithoutChild(views[p], EdgeOf(segment)), c);
    }

    lemma ViewsAre()
      ensures ViewsOf(nodes).Keys == nodes.Keys
      ensures forall q :: q in nodes ==> ViewsOf(nodes)[q] == ViewOf(nodes[q])
    {
    }

    lemma OtherNodes(p: Position)
      requires Injective(nodes) && p in nodes
      ensures forall q :: q in nodes && q != p ==> nodes[q] != nodes[p]
    {
    }

    // ---- Insertion ------------------------------------------------------------------------

    /** The node along a segment's edge, created if it is missing. */
    method Child(ghost p: Position, current: Node, segment: string) returns (child: Node)
      requires WellLinked(nodes, ViewsOf(nodes)) && p in nodes && nodes[p] == current && segment != ""
      modifies this`nodes, current
      ensures WellLinked(nodes, ViewsOf(nodes))
      ensures Model() == AddChild(old(Model()), p, segment)
      ensures p + [EdgeOf(segment)] in nodes && nodes[p + [EdgeOf(segment)]] == child
      ensures forall q :: q in old(nodes) ==> q in nodes && nodes[q] == old(nodes[q])
      ensures fresh(nodes.Values - old(nodes.Values))
    {
      hide AddChild, WellLinked;
      ghost var views, e := ViewsOf(nodes), EdgeOf(segment);
      ExistingChild(views, p, segment);
      Links(p, e);
      var existing := ChildOf(p, current, segment);
      if existing != null {
        return existing;
      }
      child := Attach(p, current, segment);
      AttachKeepsLinks(old(nodes), views, p, e, child, if e.Lit? then "" else segment[1..]);
      AddedView(views, p, segment, child);
    }

    /** What the model says of a node. */
    lemma SlotOf(p: Position)
      requires Valid() && p in nodes
      ensures Model().Keys == nodes.Keys && Model()[p] == Slot(nodes[p].paramName, nodes[p].entry)
    {
    }

    method Descend(ghost p: Position, current: Node, segment: string) returns (child: Node)
      requires Valid() && p in nodes && nodes[p] == current && segment != ""
      modifies this`nodes, current
      ensures Valid() && root == old(root)
      ensures Model() == AddChild(old(Model()), p, segment)
      ensures p + [EdgeOf(segment)] in nodes && nodes[p + [EdgeOf(segment)]] == child
      ensures fresh(nodes.Values - old(nodes.Values))
    {
      hide WellLinked, ViewsOf, ModelOf, Routes, AddChild;
      AddChildRoutes(Model(), p, segment);
      child := Child(p, current, segment);
    }

    /** The loop of insert: the node of the path, with the nodes missing on the way there created, unless a
        catch-all is not the last segment. */
    method Reach(segments: seq<string>, ghost entry: RouteEntry) returns (node: Node?, ghost p: Position)
      requires Valid()
      modifies this`nodes, nodes.Values
      ensures Valid() && p in Model()
      ensures node != null ==> p in nodes && nodes[p] == node
      ensures InsertAt(old(Model()), [], segments, entry)
              == if node != null then Placed(Model(), p, entry) else (Model(), false)
      ensures fresh(nodes.Values - old(nodes.Values))
    {
      hide InsertAt, AddChild, Valid, Model, EdgeOf, Placed, PrefixClosed;
      var current := root;
      p := [];
      RootIsNode();
      SlotOf(p);
      ghost var goal := InsertAt(Model(), [], segments, entry);
      for i := 0 to |segments|
        invariant Valid() && p in nodes && nodes[p] == current && p in Model()
        invariant InsertAt(Model(), p, segments[i..], entry) == goal
        invariant forall n :: n in nodes.Values ==> n in old(nodes.Values) || fresh(n)
      {
        var segment := segments[i];
        assert segments[i..][1..] == segments[i + 1..];
        if segment == "" {
          InsertSkips(Model(), p, segments[i..], entry);
          continue;
        }
        if segment[0] == '*' && i != |segments| - 1 {
          InsertRefuses(Model(), p, segments[i..], entry);
          return null, p;
        }
        InsertDescends(Model(), p, segments[i..], entry);
        current := Descend(p, current, segment);
        p := p + [EdgeOf(segment)];
        SlotOf(p);
        if segment[0] == '*' {
          return current, p;
        }
      }
      assert segments[|segments|..] == [];
      InsertEnds(Model(), p, entry);
      node := current;
    }

    method Insert(entry: RouteEntry) returns (ok: bool)
      requires Valid()
      modifies this, nodes.Values
      ensures Valid() && root == old(root)
      ensures (Model(), ok) == InsertAt(old(Model()), [], SplitPathSegments(entry.path), entry)
      ensures fresh(nodes.Values - old(nodes.Values))
    {
      hide InsertAt, SplitPathSegments, Valid, Model, Placed;
      var node, p := Reach(SplitPathSegments(entry.path), entry);
      if node == null {
        return false;
      }
      ok := Place(p, node, entry);
    }

    /** The entry of a node, unless it has one. */
    method Place(ghost p: Position, node: Node, entry: RouteEntry) returns (ok: bool)
      requires Valid() && p in nodes && nodes[p] == node
      modifies node`entry, this`size
      ensures Valid() && p in old(Model())
      ensures (Model(), ok) == Placed(old(Model()), p, entry)
    {
      hide Valid, Model, SetEntry;
      SlotOf(p);
      if node.entry.Some? {
        return false;
      }
      Fill(p, node, entry);
      return true;
    }

    lemma RootIsNode()
      requires Valid()
      ensures [] in nodes && nodes[[]] == root
    {
    }

    method Fill(ghost p: Position, node: Node, entry: RouteEntry)
      requires Valid() && p in nodes && nodes[p] == node && node.entry.None?
      modifies node`entry, this`size
      ensures p in old(Model()) && Valid() && Model() == SetEntry(old(Model()), p, Some(entry))
    {
      hide WellLinked, Routes, ModelOf, SetEntry, ViewsOf;
      ghost var views := ViewsOf(nodes);
      WellLinkedInjective(nodes, views);
      SlotOf(p);
      ModelKeys();
      PutEntry(p, node, Some(entry));
      size := size + 1;
      EntryKeepsLinks(nodes, views, p, Some(entry));
      FilledView(views, p, Some(entry));
      FilledRoutes(ModelOf(views), p, entry);
      assert ViewsOf(nodes) == views[p := views[p].(entry := Some(entry))];
      assert ModelOf(ViewsOf(nodes)) == SetEntry(ModelOf(views), p, Some(entry));
    }

    // ---- Removal --------------------------------------------------------------------------

    method IsEmptyNode(ghost p: Position, node: Node) returns (empty: bool)
      requires WellLinked(nodes, ViewsOf(nodes)) && p in nodes && nodes[p] == node
      ensures empty <==> IsEmpty(Model(), p)
    {
      empty := node.entry.None? && node.children == map[] && node.paramChild == null && node.wildcardChild == null;
      EmptyView(nodes, ViewsOf(nodes), p);
    }

    method TakeEntry(ghost p: Position, node: Node)
      requires WellLinked(nodes, ViewsOf(nodes)) && p in nodes && nodes[p] == node
      modifies node`entry
      ensures p in old(Model()) && WellLinked(nodes, ViewsOf(nodes))
      ensures Model() == SetEntry(old(Model()), p, None)
    {
      hide WellLinked, ModelOf, SetEntry, ViewsOf;
      ghost var views := ViewsOf(nodes);
      ModelKeys();
      WellLinkedInjective(nodes, views);
      PutEntry(p, node, None);
      EntryKeepsLinks(nodes, views, p, None);
      FilledView(views, p, None);
      assert ViewsOf(nodes) == views[p := views[p].(entry := None)];
    }

    method RemoveNode(ghost p: Position, current: Node, segments: seq<string>) returns (removed: bool, prune: bool)
      requires WellLinked(nodes, ViewsOf(nodes)) && p in nodes && nodes[p] == current
      modifies this`nodes, nodes.Values
      ensures WellLinked(nodes, ViewsOf(nodes))
      ensures (Model(), removed) == RemoveAt(old(Model()), p, segments)
      ensures forall q :: q in nodes ==> q in old(nodes) && nodes[q] == old(nodes[q])
      ensures prune <==> removed && IsEmpty(Model(), p)
      decreases |segments|, 1
    {
      hide WellLinked, ViewsOf, IsEmpty, ModelOf, Prune, RemoveAt, SetEntry;
      ModelKeys();
      Links(p, CatchAll);
      ghost var goal := RemoveAt(Model(), p, segments);
      if |segments| == 0 {
        RemoveEnds(Model(), p);
        if current.entry.None? {
          return false, false;
        }
        TakeEntry(p, current);
        prune := IsEmptyNode(p, current);
        return true, prune;
      }
      var segment := segments[0];
      RemoveMisses(Model(), p, segments);
      if segment == "" {
        return false, false;
      }
      var child := ChildOf(p, current, segment);
      if child == null {
        return false, false;
      }
      var childEmpty: bool;
      removed, childEmpty := RemoveBelow(p, current, segments, child);
      if !removed {
        return false, false;
      }
      ghost var between := nodes;
      DropIfEmpty(p, current, segment, childEmpty);
      assert forall q :: q in nodes ==> q in between && nodes[q] == between[q];
      prune := IsEmptyNode(p, current);
      assert (Model(), removed) == goal;
    }

    /** The removal in the child along the first segment, not yet pruned. */
    method RemoveBelow(ghost p: Position, current: Node, segments: seq<string>, child: Node)
      returns (removed: bool, empty: bool)
      requires WellLinked(nodes, ViewsOf(nodes)) && p in nodes && nodes[p] == current
      requires segments != [] && segments[0] != ""
      requires p + [EdgeOf(segments[0])] in nodes && nodes[p + [EdgeOf(segments[0])]] == child
      modifies this`nodes, nodes.Values
      ensures WellLinked(nodes, ViewsOf(nodes))
      ensures p + [EdgeOf(segments[0])] in old(Model())
      ensures (Model(), removed) == RemovedBelow(old(Model()), p + [EdgeOf(segments[0])], segments)
      ensures forall q :: q in nodes ==> q in old(nodes) && nodes[q] == old(nodes[q])
      ensures p in nodes && p + [EdgeOf(segments[0])] in nodes
      ensures empty <==> removed && IsEmpty(Model(), p + [EdgeOf(segments[0])])
      decreases |segments|, 0
    {
      hide WellLinked, ViewsOf, IsEmpty, ModelOf, RemoveAt, SetEntry;
      ghost var c := p + [EdgeOf(segments[0])];
      var segment, rest := segments[0], segments[1..];
      ModelKeys();
      Links(p, EdgeOf(segment));
      if segment[0] == '*' {
        if |rest| != 0 || child.paramName != segment[1..] || child.entry.None? {
          return false, false;
        }
        TakeEntry(c, child);
        empty := IsEmptyNode(c, child);
        return true, empty;
      }
      removed, empty := RemoveNode(c, child, rest);
      ModelKeys();
      assert !(c <= p);
    }

    method DropIfEmpty(ghost p: Position, current: Node, segment: string, empty: bool)
      requires WellLinked(nodes, ViewsOf(nodes)) && p in nodes && nodes[p] == current
      requires segment != "" && p + [EdgeOf(segment)] in nodes && (empty <==> IsEmpty(Model(), p + [EdgeOf(segment)]))
      modifies this`nodes, current
      ensures WellLinked(nodes, ViewsOf(nodes))
      ensures Model() == Prune(old(Model()), p + [EdgeOf(segment)])
      ensures forall q :: q in nodes ==> q in old(nodes) && nodes[q] == old(nodes[q])
      ensures p in nodes
    {
      hide WellLinked;
      if empty {
        ghost var views := ViewsOf(nodes);
        WellLinkedInjective(nodes, views);
        DetachedView(views, p, EdgeOf(segment));
        Detach(p, current, segment);
        DetachKeepsLinks(old(nodes), views, p, EdgeOf(segment));
      }
    }

    method Remove(path: string) returns (removed: bool)
      requires Valid()
      modifies this, nodes.Values
      ensures Valid() && root == old(root)
      ensures (Model(), removed) == RemoveAt(old(Model()), [], SplitPathSegments(path))
      ensures nodes.Values <= old(nodes.Values)
    {
      hide WellLinked, ViewsOf, RemoveAt, Routes, ModelOf, SplitPathSegments;
      ghost var model := Model();
      ModelKeys();
      var prune;
      removed, prune := RemoveNode([], root, SplitPathSegments(path));
      ModelKeys();
      ModelPrefixClosed(old(nodes), old(ViewsOf(nodes)));
      RemovedRoutes(model, SplitPathSegments(path));
      if removed {
        size := size - 1;
      }
    }

    // ---- Search ---------------------------------------------------------------------------

    method Find(ghost p: Position, n: Node, segments: seq<string>, params: ParamStore)
      returns (entry: Option<RouteEntry>)
      requires WellLinked(nodes, ViewsOf(nodes)) && p in nodes && nodes[p] == n
      modifies params
      ensures var f := FindAt(Model(), p, segments, old(params.values));
              && params.values == f.params
              && entry == EntryAt(Model(), p, f)
      decreases |segments|, 1
    {
      hide WellLinked, Join, ViewsOf, ModelOf, FindAt, FindLit, FindParam, Below;
      Links(p, CatchAll);
      FindStep(Model(), p, segments, params.values);
      if |segments| == 0 {
        if n.entry.Some? {
          assert p + [] == p;
          return n.entry;
        }
        if n.wildcardChild != null && n.wildcardChild.entry.Some? {
          params.values := params.values[n.wildcardChild.paramName := ""];
          return n.wildcardChild.entry;
        }
        return None;
      }
      var segment := segments[0];
      var rest := segments[1..];
      Links(p, Lit(segment));
      if |segment| > 0 && segment in n.children {
        entry := Find(p + [Lit(segment)], n.children[segment], rest, params);
        if entry.Some? {
          return entry;
        }
      }
      entry := FindThroughParam(p, n, segments, params);
      if entry.Some? {
        return entry;
      }
      if n.wildcardChild != null && n.wildcardChild.entry.Some? {
        params.values := params.values[n.wildcardChild.paramName := Join(segments)];
        return n.wildcardChild.entry;
      }
      return None;
    }

    method FindThroughParam(ghost p: Position, n: Node, segments: seq<string>, params: ParamStore)
      returns (entry: Option<RouteEntry>)
      requires WellLinked(nodes, ViewsOf(nodes)) && p in nodes && nodes[p] == n && |segments| > 0
      modifies params
      ensures p in Model()
      ensures var f := FindParam(Model(), p, segments, old(params.values));
              && params.values == f.params && entry == EntryAt(Model(), p, f) && (entry.Some? <==> f.position.Some?)
      decreases |segments|, 0
    {
      hide WellLinked, ViewsOf, ModelOf, FindAt, FindParam;
      var segment := segments[0];
      Links(p, Param);
      ParamStep(Model(), p, segments, params.values);
      if n.paramChild != null && |segment| > 0 {
        params.values := params.values[n.paramChild.paramName := segment];
        entry := Find(p + [Param], n.paramChild, segments[1..], params);
        if entry.Some? {
          return entry;
        }
        params.values := params.values - {n.paramChild.paramName};
        return None;
      }
      return None;
    }

    /** search: a new parameter map. */
    method Search(path: string) returns (result: Option<(RouteEntry, Params)>)
      requires Valid()
      ensures var f := FindAt(Model(), [], SplitPathSegments(path), map[]);
              result == match EntryAt(Model(), [], f)
                        case None => None
                        case Some(e) => Some((e, f.params))
    {
      hide FindAt, WellLinked, Routes, SplitPathSegments, ViewsOf, ModelOf;
      var store := new ParamStore(map[]);
      var entry := Find([], root, SplitPathSegments(path), store);
      return if entry.Some? then Some((entry.value, store.values)) else None;
    }

    /** searchInto: the caller's parameter map. */
    method SearchInto(path: string, dst: ParamStore) returns (entry: Option<RouteEntry>)
      requires Valid()
      modifies dst
      ensures var f := FindAt(Model(), [], SplitPathSegments(path), old(dst.values));
              entry == EntryAt(Model(), [], f) && dst.values == f.params
    {
      hide FindAt, WellLinked, Routes, SplitPathSegments, ViewsOf, ModelOf;
      entry := Find([], root, SplitPathSegments(path), dst);
    }
  }

  // ---- Views and tries --------------------------------------------------------------------

  lemma WellLinkedInjective(nodes: map<Position, Node>, views: map<Position, View>)
    requires WellLinked(nodes, views)
    ensures Injective(nodes)
  {
  }

  lemma ModelPrefixClosed(nodes: map<Position, Node>, views: map<Position, View>)
    requires WellLinked(nodes, views) && [] in nodes
    ensures PrefixClosed(ModelOf(views))
  {
  }

  lemma ExistingChild(views: map<Position, View>, p: Position, segment: string)
    requires segment != ""
    ensures p + [EdgeOf(segment)] in views ==> ModelOf(views) == AddChild(ModelOf(views), p, segment)
  {
  }

  lemma AddedView(views: map<Position, View>, p: Position, segment: string, child: Node)
    requires segment != "" && p in views && p + [EdgeOf(segment)] !in views
    ensures ModelOf(views[p := WithChild(views[p], EdgeOf(segment), child)][p + [EdgeOf(segment)] := NewView(segment)])
         == AddChild(ModelOf(views), p, segment)
  {
  }

  lemma FilledView(views: map<Position, View>, p: Position, entry: Option<RouteEntry>)
    requires p in views
    ensures ModelOf(views[p := views[p].(entry := entry)]) == SetEntry(ModelOf(views), p, entry)
  {
  }

  lemma DetachedView(views: map<Position, View>, p: Position, e: Edge)
    requires p in views && p + [e] in views && IsEmpty(ModelOf(views), p + [e])
    ensures ModelOf(views[p := WithoutChild(views[p], e)] - {p + [e]}) == Prune(ModelOf(views), p + [e])
    ensures forall f :: (p + [e]) + [f] !in views
  {
    forall f
      ensures (p + [e]) + [f] !in ModelOf(views)
    {
    }
  }

  lemma EmptyView(nodes: map<Position, Node>, views: map<Position, View>, p: Position)
    requires WellLinked(nodes, views) && p in nodes
    ensures var v := views[p];
            IsEmpty(ModelOf(views), p) <==>
            v.entry.None? && v.children == map[] && v.paramChild == null && v.wildcardChild == null
  {
    var v := views[p];
    forall e
      ensures p + [e] in ModelOf(views) <==> ChildAlong(v, e) != null
    {
    }
    if !HasChildren(ModelOf(views), p) {
      forall k
        ensures k !in v.children
      {
        assert ChildAlong(v, Lit(k)) == null;
      }
      assert ChildAlong(v, Param) == null && ChildAlong(v, CatchAll) == null;
    }
  }

  /** A route at a position that may have one. */
  ghost function Placed(t: Trie, p: Position, entry: RouteEntry): (Trie, bool)
    requires p in t
  {
    if t[p].entry.Some? then (t, false) else (SetEntry(t, p, Some(entry)), true)
  }

  lemma InsertEnds(t: Trie, p: Position, entry: RouteEntry)
    requires p in t
    ensures InsertAt(t, p, [], entry) == Placed(t, p, entry)
  {
  }

  lemma InsertSkips(t: Trie, p: Position, segs: seq<string>, entry: RouteEntry)
    requires p in t && segs != [] && segs[0] == ""
    ensures InsertAt(t, p, segs, entry) == InsertAt(t, p, segs[1..], entry)
  {
  }

  lemma InsertRefuses(t: Trie, p: Position, segs: seq<string>, entry: RouteEntry)
    requires p in t && |segs| > 1 && segs[0] != "" && segs[0][0] == '*'
    ensures InsertAt(t, p, segs, entry) == (t, false)
  {
  }

  lemma InsertDescends(t: Trie, p: Position, segs: seq<string>, entry: RouteEntry)
    requires p in t && segs != [] && segs[0] != "" && (segs[0][0] == '*' ==> |segs| == 1)
    ensures var t1, child := AddChild(t, p, segs[0]), p + [EdgeOf(segs[0])];
            && child in t1
            && InsertAt(t, p, segs, entry)
               == if segs[0][0] == '*' then Placed(t1, child, entry) else InsertAt(t1, child, segs[1..], entry)
  {
  }

  lemma RemoveEnds(t: Trie, p: Position)
    requires p in t
    ensures RemoveAt(t, p, []) == if t[p].entry.None? then (t, false) else (SetEntry(t, p, None), true)
  {
  }

  /** What a removal does at the child along the first segment and below, before the child is pruned. */
  ghost function RemovedBelow(t: Trie, child: Position, segs: seq<string>): (Trie, bool)
    requires child in t && segs != [] && segs[0] != ""
  {
    if segs[0][0] == '*' then
      if |segs| == 1 && t[child].paramName == segs[0][1..] && t[child].entry.Some? then (SetEntry(t, child, None), true)
      else (t, false)
    else
      RemoveAt(t, child, segs[1..])
  }

  lemma RemoveMisses(t: Trie, p: Position, segs: seq<string>)
    requires p in t && segs != []
    ensures segs[0] == "" || p + [EdgeOf(segs[0])] !in t ==> RemoveAt(t, p, segs) == (t, false)
    ensures segs[0] != "" && p + [EdgeOf(segs[0])] in t ==>
              var child := p + [EdgeOf(segs[0])];
              var r := RemovedBelow(t, child, segs);
              RemoveAt(t, p, segs) == if r.1 then (Prune(r.0, child), true) else (t, false)
  {
  }

  lemma AddChildRoutes(t: Trie, p: Position, segment: string)
    requires segment != ""
    ensures p + [EdgeOf(segment)] in AddChild(t, p, segment)
    ensures Routes(AddChild(t, p, segment)) == Routes(t)
  {
  }

  lemma FilledRoutes(t: Trie, p: Position, entry: RouteEntry)
    requires p in t && t[p].entry.None?
    ensures |Routes(SetEntry(t, p, Some(entry)))| == |Routes(t)| + 1
  {
    assert Routes(SetEntry(t, p, Some(entry))) == Routes(t) + {p};
  }

  lemma RemovedRoutes(t: Trie, segs: seq<string>)
    requires PrefixClosed(t)
    ensures var r := RemoveAt(t, [], segs);
            |Routes(r.0)| == |Routes(t)| - if r.1 then 1 else 0
  {
    hide RemoveAt;
    RemoveEffect(t, [], segs);
    var r, target := RemoveAt(t, [], segs), [] + Shape(segs);
    if r.1 {
      forall q
        ensures q in Routes(r.0) <==> q in Routes(t) && q != target
      {
        assert HasEntry(r.0, q) <==> q in Routes(r.0);
      }
      assert Routes(t) == Routes(r.0) + {target};
    }
  }

  function EntryAt(t: Trie, p: Position, f: Found): Option<RouteEntry> {
    if f.position.Some? && p + f.position.value in t then t[p + f.position.value].entry else None
  }

  /** FindAt unfolded once, with the literal branch unfolded too. */
  lemma FindStep(t: Trie, p: Position, segs: seq<string>, params: Params)
    requires p in t
    ensures var f := FindAt(t, p, segs, params);
            if segs == [] then
              if t[p].entry.Some? then f.params == params && EntryAt(t, p, f) == t[p].entry
              else if HasEntry(t, p + [CatchAll]) then
                f.params == params[t[p + [CatchAll]].paramName := ""] && EntryAt(t, p, f) == t[p + [CatchAll]].entry
              else f.params == params && EntryAt(t, p, f) == None
            else
              var g := if segs[0] != "" && p + [Lit(segs[0])] in t
                       then FindAt(t, p + [Lit(segs[0])], segs[1..], params) else Found(None, params);
              if EntryAt(t, p + [Lit(segs[0])], g).Some? then
                f.params == g.params && EntryAt(t, p, f) == EntryAt(t, p + [Lit(segs[0])], g)
              else AfterLit(t, p, segs, g.params, f)
  {
    if segs == [] {
      assert p + [] == p;
    } else {
      if segs[0] != "" && p + [Lit(segs[0])] in t {
        BelowEntry(t, p, Lit(segs[0]), segs[1..], params);
      }
      FoundHasEntry(t, p, segs, params);
      ParamStep(t, p, segs, FindLit(t, p, segs, params).params);
    }
  }

  /** The rest of the search once the literal branch has failed. */
  ghost predicate AfterLit(t: Trie, p: Position, segs: seq<string>, params: Params, f: Found)
    requires segs != []
  {
    var par := FindParam(t, p, segs, params);
    if EntryAt(t, p, par).Some? then f == par
    else if HasEntry(t, p + [CatchAll]) then
      f.params == par.params[t[p + [CatchAll]].paramName := Join(segs)] && EntryAt(t, p, f) == t[p + [CatchAll]].entry
    else f.params == par.params && EntryAt(t, p, f) == None
  }

  lemma ParamStep(t: Trie, p: Position, segs: seq<string>, params: Params)
    requires p in t && segs != []
    ensures var par := FindParam(t, p, segs, params);
            if segs[0] != "" && p + [Param] in t then
              var name := t[p + [Param]].paramName;
              var g := FindAt(t, p + [Param], segs[1..], params[name := segs[0]]);
              && EntryAt(t, p, par) == EntryAt(t, p + [Param], g)
              && (par.position.Some? <==> EntryAt(t, p, par).Some?)
              && par.params == if par.position.Some? then g.params else g.params - {name}
            else par == Found(None, params) && EntryAt(t, p, par).None?
  {
    if segs[0] != "" && p + [Param] in t {
      BelowEntry(t, p, Param, segs[1..], params[t[p + [Param]].paramName := segs[0]]);
    }
  }

  lemma {:induction false} FoundHasEntry(t: Trie, p: Position, segs: seq<string>, params: Params)
    requires p in t
    ensures var f := FindAt(t, p, segs, params); f.position.Some? <==> EntryAt(t, p, f).Some?
    decreases |segs|, 0
  {
    if segs == [] {
      assert p + [] == p;
    } else if segs[0] != "" {
      if p + [Lit(segs[0])] in t {
        BelowEntry(t, p, Lit(segs[0]), segs[1..], params);
      }
      if p + [Param] in t {
        BelowEntry(t, p, Param, segs[1..], FindLit(t, p, segs, params).params[t[p + [Param]].paramName := segs[0]]);
      }
    }
  }

  lemma {:induction false} BelowEntry(t: Trie, p: Position, e: Edge, segs: seq<string>, params: Params)
    requires p + [e] in t
    ensures var f := FindAt(t, p + [e], segs, params);
            EntryAt(t, p, Below(e, f)) == EntryAt(t, p + [e], f) && (f.position.Some? <==> EntryAt(t, p + [e], f).Some?)
    decreases |segs|, 1
  {
    var f := FindAt(t, p + [e], segs, params);
    if f.position.Some? {
      assert p + ([e] + f.position.value) == (p + [e]) + f.position.value;
    }
    FoundHasEntry(t, p + [e], segs, params);
  }
}
