/** The matcher of one HTTP method as an object: a table of exact paths, a tree for each segment
    count, and a tree for catch-all routes. */
module RouteMatcher {
  import opened Wrappers
  import opened RoutePaths
  import opened RouteTrie
  import opened RouteTrieLaws
  import opened RouteTree
  import opened RouteRegistry
  import opened RouteHistory

  lemma InsertKeepsTidy(t: Trie, entry: RouteEntry)
    requires Tidy(t) && ValidPath(entry.path)
    ensures Tidy(InsertAt(t, [], SplitPathSegments(entry.path), entry).0)
  {
    ValidIsWellPlaced(entry.path);
    InsertTidy(t, [], SplitPathSegments(entry.path), entry);
  }

  lemma EmptyIsTidy()
    ensures Tidy(EMPTY_TRIE)
  {
    assert forall p: Position, e :: |p + [e]| > 0;
  }

  /** Whatever is added or removed, no tree is left with a dead node. */
  lemma AddKeepsSound(m: Matcher, path: string, handlers: Handlers)
    requires Sound(m)
    ensures Sound(AddRoute(m, path, handlers).0)
  {
    hide Tidy, InsertAt, ValidPath, KindOf, SplitPathSegments;
    if ValidPath(path) {
      var count := |SplitPathSegments(path)|;
      TreeForIsTidy(m, count);
      InsertKeepsTidy(m.wild, RouteEntry(path, handlers));
      InsertKeepsTidy(TreeFor(m, count), RouteEntry(path, handlers));
    }
  }

  lemma TreeForIsTidy(m: Matcher, count: nat)
    requires Sound(m)
    ensures Tidy(m.wild) && Tidy(TreeFor(m, count))
  {
    EmptyIsTidy();
  }

  lemma RemoveKeepsSound(m: Matcher, path: string)
    requires Sound(m)
    ensures Sound(RemoveRoute(m, path).0)
  {
    hide RemoveAt, KindOf;
    RemoveTidy(m.wild, [], SplitPathSegments(path));
    var count := |SplitPathSegments(path)|;
    if count in m.index {
      RemoveTidy(m.index[count], [], SplitPathSegments(path));
    }
  }

  lemma SoundIsRooted(m: Matcher)
    requires Sound(m)
    ensures [] in m.wild && forall k :: k in m.index ==> [] in m.index[k]
  {
  }

  // ---- Matching into a caller's map -------------------------------------------------------

  /** matchInto: the route found, and the caller's map afterwards. */
  ghost function MatchIntoResult(m: Matcher, path: string, dst: Params): (Option<RouteEntry>, Params)
    requires Sound(m)
  {
    if path in m.exact then (Some(m.exact[path]), map[])
    else
      var count := CountOf(path);
      var f := if count in m.index then SearchTrie(m.index[count], path, map[]) else Found(None, map[]);
      if f.position.Some? then (EntryAt(m.index[count], [], f), f.params)
      else
        var g := SearchTrie(m.wild, path, f.params);
        (EntryAt(m.wild, [], g), g.params)
  }

  /** Whatever the map held before, matching into it agrees with matching: the same route with the
      same parameters, or no route and an empty map. */
  lemma MatchIntoAgrees(m: Matcher, path: string, dst: Params)
    requires Sound(m)
    ensures var (entry, params) := MatchIntoResult(m, path, dst);
            match Match(m, path)
            case None => entry == None && params == map[]
            case Some(hit) => entry == Some(hit.entry) && params == hit.params
  {
    hide FindAt, Tidy, SplitPathSegments, EntryAt;
    var segs, count := SplitPathSegments(path), CountOf(path);
    SoundIsRooted(m);
    if path !in m.exact {
      if count in m.index {
        FoundHasEntry(m.index[count], [], segs, map[]);
        if SearchTrie(m.index[count], path, map[]).position.None? {
          FailedFindLeavesNothing(m.index[count], [], segs, map[]);
        }
      }
      FoundHasEntry(m.wild, [], segs, map[]);
      if SearchTrie(m.wild, path, map[]).position.None? {
        FailedFindLeavesNothing(m.wild, [], segs, map[]);
      }
    }
  }

  // ---- The matcher object -----------------------------------------------------------------

  /** A tree seen from outside: its trie, its nodes, whether it is well formed. */
  datatype TreeView = TreeView(model: Trie, nodes: set<Node>, valid: bool)

  ghost function ViewOfTree(t: RadixTree): TreeView
    reads t, t.nodes.Values
  {
    TreeView(t.Model(), t.nodes.Values, t.Valid())
  }

  /** The trees of a matcher are different objects with nodes of their own. */
  ghost predicate Separate(index: map<nat, RadixTree>, wild: RadixTree, views: map<RadixTree, TreeView>) {
    && wild !in index.Values
    && (forall j, k :: j in index && k in index && index[j] == index[k] ==> j == k)
    && views.Keys == index.Values + {wild}
    && (forall t :: t in views ==> views[t].valid)
    && (forall s, t :: s in views && t in views && s != t ==> views[s].nodes !! views[t].nodes)
  }

  ghost function MatcherOf(exact: map<string, RouteEntry>, index: map<nat, RadixTree>, wild: RadixTree,
                           views: map<RadixTree, TreeView>): Matcher
    requires views.Keys == index.Values + {wild}
  {
    Matcher(exact, map k | k in index :: views[index[k]].model, views[wild].model)
  }

  ghost function NodesIn(views: map<RadixTree, TreeView>): set<Node> {
    set t, n | t in views && n in views[t].nodes :: n
  }

  lemma NodesAreIn(views: map<RadixTree, TreeView>, tree: RadixTree)
    requires tree in views
    ensures views[tree].nodes <= NodesIn(views)
  {
  }

  lemma NodesInOneMore(views: map<RadixTree, TreeView>, tree: RadixTree, view: TreeView)
    ensures NodesIn(views[tree := view]) <= NodesIn(views) + view.nodes
    ensures tree !in views ==> NodesIn(views[tree := view]) == NodesIn(views) + view.nodes
  {
    var more := views[tree := view];
    forall n | n in view.nodes
      ensures n in NodesIn(more)
    {
      assert tree in more && more[tree] == view;
    }
    forall n | n in NodesIn(views) && tree !in views
      ensures n in NodesIn(more)
    {
      var t: RadixTree :| t in views && n in views[t].nodes;
      assert t in more && more[t] == views[t];
    }
  }

  /** Replacing the view of one tree by one with the same nodes, fewer, or new ones besides. */
  lemma ViewReplaced(index: map<nat, RadixTree>, wild: RadixTree, views: map<RadixTree, TreeView>, tree: RadixTree,
                     view: TreeView)
    requires Separate(index, wild, views) && tree in views && view.valid
    requires forall t :: t in views && t != tree ==> view.nodes !! views[t].nodes
    ensures Separate(index, wild, views[tree := view])
  {
    assert views[tree := view].Keys == views.Keys;
  }

  lemma WildReplaced(exact: map<string, RouteEntry>, index: map<nat, RadixTree>, wild: RadixTree,
                     views: map<RadixTree, TreeView>, view: TreeView)
    requires Separate(index, wild, views)
    ensures views[wild := view].Keys == views.Keys
    ensures MatcherOf(exact, index, wild, views[wild := view])
         == MatcherOf(exact, index, wild, views).(wild := view.model)
  {
    assert views[wild := view].Keys == views.Keys;
    forall k | k in index
      ensures views[wild := view][index[k]] == views[index[k]]
    {
      assert index[k] in index.Values;
    }
  }

  lemma IndexReplaced(exact: map<string, RouteEntry>, index: map<nat, RadixTree>, wild: RadixTree,
                      views: map<RadixTree, TreeView>, count: nat, view: TreeView)
    requires Separate(index, wild, views) && count in index
    ensures views[index[count] := view].Keys == views.Keys
    ensures var m := MatcherOf(exact, index, wild, views);
            MatcherOf(exact, index, wild, views[index[count] := view]) == m.(index := m.index[count := view.model])
  {
    assert index[count] in index.Values;
    assert views[index[count] := view].Keys == views.Keys;
  }

  lemma IndexGrown(exact: map<string, RouteEntry>, index: map<nat, RadixTree>, wild: RadixTree,
                   views: map<RadixTree, TreeView>, count: nat, tree: RadixTree, view: TreeView)
    requires Separate(index, wild, views) && count !in index && tree !in views && view.valid
    requires forall t :: t in views ==> view.nodes !! views[t].nodes
    ensures Separate(index[count := tree], wild, views[tree := view])
    ensures var m := MatcherOf(exact, index, wild, views);
            MatcherOf(exact, index[count := tree], wild, views[tree := view]) == m.(index := m.index[count := view.model])
  {
    GrownValues(index, wild, views, count, tree, view);
    GrownModel(exact, index, wild, views, count, tree, view);
  }

  lemma GrownValues(index: map<nat, RadixTree>, wild: RadixTree, views: map<RadixTree, TreeView>, count: nat,
                    tree: RadixTree, view: TreeView)
    requires Separate(index, wild, views) && count !in index && tree !in views
    ensures index[count := tree].Values == index.Values + {tree}
    ensures views[tree := view].Keys == index[count := tree].Values + {wild}
    ensures forall k :: k in index ==> index[k] in views && index[k] != tree
  {
    IndexValues(index, count, tree);
    assert forall k :: k in index ==> index[k] in index.Values;
  }

  lemma GrownModel(exact: map<string, RouteEntry>, index: map<nat, RadixTree>, wild: RadixTree,
                   views: map<RadixTree, TreeView>, count: nat, tree: RadixTree, view: TreeView)
    requires views.Keys == index.Values + {wild} && tree !in views && count !in index
    requires views[tree := view].Keys == index[count := tree].Values + {wild}
    requires forall k :: k in index ==> index[k] in views && index[k] != tree
    ensures var m := MatcherOf(exact, index, wild, views);
            MatcherOf(exact, index[count := tree], wild, views[tree := view]) == m.(index := m.index[count := view.model])
  {
  }

  lemma LoneTree(tree: RadixTree, view: TreeView)
    requires view.valid && view.model == EMPTY_TRIE
    ensures Separate(map[], tree, map[tree := view])
    ensures MatcherOf(map[], map[], tree, map[tree := view]) == EMPTY_MATCHER && Sound(EMPTY_MATCHER)
  {
    EmptyIsTidy();
  }

  class MethodMatcher {
    var staticGroup: map<string, RouteEntry>
    var segmentIndex: map<nat, RadixTree>
    var radixTree: RadixTree

    ghost function Trees(): set<RadixTree>
      reads this
    {
      segmentIndex.Values + {radixTree}
    }

    ghost function Nodes(): set<Node>
      reads this, Trees()
    {
      set t, n | t in Trees() && n in t.nodes.Values :: n
    }

    ghost function Views(): map<RadixTree, TreeView>
      reads this, Trees(), Nodes()
    {
      map t | t in Trees() :: ViewOfTree(t)
    }

    ghost predicate Valid()
      reads this, Trees(), Nodes()
    {
      Separate(segmentIndex, radixTree, Views()) && Sound(Model())
    }

    ghost function Model(): Matcher
      reads this, Trees(), Nodes()
    {
      MatcherOf(staticGroup, segmentIndex, radixTree, Views())
    }

    constructor ()
      ensures Valid() && Model() == EMPTY_MATCHER
      ensures fresh(Trees()) && fresh(Nodes())
    {
      hide Separate, Sound, RadixTree.Valid, RadixTree.Model, ViewOfTree;
      staticGroup := map[];
      segmentIndex := map[];
      radixTree := new RadixTree();
      new;
      ViewFields(radixTree);
      LoneTree(radixTree, ViewOfTree(radixTree));
      assert Views() == map[radixTree := ViewOfTree(radixTree)];
    }

    /** What separation means for the heap. */
    lemma TreeFacts(tree: RadixTree)
      requires Separate(segmentIndex, radixTree, Views()) && tree in Trees()
      ensures tree.Valid() && Views()[tree] == ViewOfTree(tree)
      ensures forall t :: t in Trees() && t != tree ==> t.nodes.Values !! tree.nodes.Values
      ensures forall t :: t in Trees() ==> Views()[t].nodes == t.nodes.Values
    {
      assert Views()[tree] == ViewOfTree(tree);
      forall t | t in Trees() && t != tree
        ensures t.nodes.Values !! tree.nodes.Values
      {
        assert Views()[t].nodes !! Views()[tree].nodes;
      }
    }

    lemma NodesAreInViews()
      ensures Nodes() == NodesIn(Views())
    {
      hide RadixTree.Valid, RadixTree.Model;
      assert Views().Keys == Trees();
      assert forall t :: t in Trees() ==> Views()[t].nodes == t.nodes.Values;
    }

    method InsertInto(tree: RadixTree, entry: RouteEntry) returns (ok: bool)
      requires Separate(segmentIndex, radixTree, Views()) && tree in Trees()
      modifies tree, tree.nodes.Values
      ensures Separate(segmentIndex, radixTree, Views())
      ensures Views() == old(Views())[tree := ViewOfTree(tree)]
      ensures old(tree.Valid()) && (tree.Model(), ok) == InsertAt(old(tree.Model()), [], SplitPathSegments(entry.path), entry)
      ensures fresh(Nodes() - old(Nodes()))
    {
      hide Separate, InsertAt, RadixTree.Valid, RadixTree.Model, ViewOfTree, SplitPathSegments, Nodes, NodesIn;
      TreeFacts(tree);
      ghost var views := Views();
      NodesAreInViews();
      ok := tree.Insert(entry);
      ViewFields(tree);
      forall t | t in views && t != tree
        ensures ViewOfTree(t) == views[t] && t.nodes.Values == old(t.nodes.Values)
        ensures ViewOfTree(tree).nodes !! views[t].nodes
      {
        assert t in Trees();
      }
      assert Views() == views[tree := ViewOfTree(tree)];
      ViewReplaced(segmentIndex, radixTree, views, tree, ViewOfTree(tree));
      NodesAreInViews();
      NodesInOneMore(views, tree, ViewOfTree(tree));
      assert tree.nodes.Values <= NodesIn(views) + (tree.nodes.Values - old(tree.nodes.Values)) by {
        NodesAreIn(views, tree);
      }
    }

    lemma ViewFields(tree: RadixTree)
      ensures ViewOfTree(tree) == TreeView(tree.Model(), tree.nodes.Values, tree.Valid())
    {
    }

    method RemoveFrom(tree: RadixTree, path: string) returns (removed: bool)
      requires Separate(segmentIndex, radixTree, Views()) && tree in Trees()
      modifies tree, tree.nodes.Values
      ensures Separate(segmentIndex, radixTree, Views())
      ensures Views() == old(Views())[tree := ViewOfTree(tree)]
      ensures old(tree.Valid()) && (tree.Model(), removed) == RemoveAt(old(tree.Model()), [], SplitPathSegments(path))
      ensures Nodes() <= old(Nodes())
    {
      hide Separate, RemoveAt, RadixTree.Valid, RadixTree.Model, ViewOfTree, SplitPathSegments;
      TreeFacts(tree);
      ghost var views := Views();
      removed := tree.Remove(path);
      ViewFields(tree);
      forall t | t in views && t != tree
        ensures ViewOfTree(t) == views[t] && t.nodes.Values == old(t.nodes.Values)
        ensures ViewOfTree(tree).nodes !! views[t].nodes
      {
        assert t in Trees();
      }
      assert Views() == views[tree := ViewOfTree(tree)];
      ViewReplaced(segmentIndex, radixTree, views, tree, ViewOfTree(tree));
    }

    method NewTree(count: nat)
      requires Separate(segmentIndex, radixTree, Views()) && count !in segmentIndex
      modifies this`segmentIndex
      ensures Separate(segmentIndex, radixTree, Views()) && count in segmentIndex
      ensures Model() == old(Model()).(index := old(Model()).index[count := EMPTY_TRIE])
      ensures fresh(segmentIndex[count]) && fresh(Trees() - old(Trees())) && fresh(Nodes() - old(Nodes()))
      ensures fresh(segmentIndex[count].nodes.Values)
    {
      hide Separate, RadixTree.Valid, RadixTree.Model, ViewOfTree, MatcherOf;
      ghost var trees, ns := Trees(), Nodes();
      var tree := new RadixTree();
      assert forall n :: n in ns ==> n !in tree.nodes.Values;
      assert Trees() == trees && Nodes() == ns;
      EnterTree(count, tree);
    }

    /** Enters a tree of its own under a segment count that has none. */
    method EnterTree(count: nat, tree: RadixTree)
      requires Separate(segmentIndex, radixTree, Views()) && count !in segmentIndex
      requires tree !in Trees() && tree.Valid() && tree.nodes.Values !! Nodes()
      modifies this`segmentIndex
      ensures Separate(segmentIndex, radixTree, Views()) && segmentIndex == old(segmentIndex)[count := tree]
      ensures Model() == old(Model()).(index := old(Model()).index[count := tree.Model()])
      ensures Trees() == old(Trees()) + {tree} && Nodes() == old(Nodes()) + tree.nodes.Values
    {
      hide Separate, RadixTree.Valid, RadixTree.Model, ViewOfTree, MatcherOf, Nodes, NodesIn;
      ghost var views := Views();
      ViewFields(tree);
      NodesAreInViews();
      forall t | t in views
        ensures ViewOfTree(tree).nodes !! views[t].nodes
      {
        NodesAreIn(views, t);
      }
      IndexGrown(staticGroup, segmentIndex, radixTree, views, count, tree, ViewOfTree(tree));
      segmentIndex := segmentIndex[count := tree];
      IndexValues(old(segmentIndex), count, tree);
      assert Views() == views[tree := ViewOfTree(tree)];
      NodesAreInViews();
      NodesInOneMore(views, tree, ViewOfTree(tree));
    }

    /** What the model says of the trees. */
    lemma ModelFacts(count: nat)
      requires Separate(segmentIndex, radixTree, Views())
      ensures Model().exact == staticGroup && Model().wild == radixTree.Model() && radixTree in Trees()
      ensures count in Model().index <==> count in segmentIndex
      ensures count in segmentIndex ==>
                segmentIndex[count] in Trees() && Model().index[count] == segmentIndex[count].Model()
    {
      hide RadixTree.Valid, RadixTree.Model;
      if count in segmentIndex {
        assert segmentIndex[count] in segmentIndex.Values;
        TreeFacts(segmentIndex[count]);
        ViewFields(segmentIndex[count]);
      }
      TreeFacts(radixTree);
      ViewFields(radixTree);
    }

    method SetExact(group: map<string, RouteEntry>)
      requires Separate(segmentIndex, radixTree, Views())
      modifies this`staticGroup
      ensures staticGroup == group && Views() == old(Views())
      ensures Separate(segmentIndex, radixTree, Views())
      ensures Model() == old(Model()).(exact := group)
    {
      hide Separate, ViewOfTree, MatcherOf;
      ghost var views := Views();
      ExactChanged(staticGroup, group, segmentIndex, radixTree, views);
      staticGroup := group;
      assert Views() == views;
    }

    method AddStatic(entry: RouteEntry) returns (outcome: AddOutcome)
      requires Separate(segmentIndex, radixTree, Views())
      modifies this`staticGroup
      ensures Separate(segmentIndex, radixTree, Views())
      ensures Trees() == old(Trees()) && Nodes() == old(Nodes())
      ensures var exact := old(Model()).exact;
              (Model(), outcome) == if entry.path in exact then (old(Model()), Duplicate)
                                    else (old(Model()).(exact := exact[entry.path := entry]), Added)
    {
      hide Separate, ViewOfTree, MatcherOf, RadixTree.Valid, RadixTree.Model, Views;
      ModelFacts(0);
      if entry.path in staticGroup {
        return Duplicate;
      }
      SetExact(staticGroup[entry.path := entry]);
      return Added;
    }

    method AddWild(entry: RouteEntry) returns (outcome: AddOutcome)
      requires Separate(segmentIndex, radixTree, Views())
      modifies radixTree, radixTree.nodes.Values
      ensures Separate(segmentIndex, radixTree, Views()) && fresh(Nodes() - old(Nodes()))
      ensures [] in old(Model()).wild
      ensures var (t, ok) := InsertAt(old(Model()).wild, [], SplitPathSegments(entry.path), entry);
              Model() == old(Model()).(wild := t) && outcome == if ok then Added else Duplicate
    {
      hide Separate, InsertAt, SplitPathSegments, ViewOfTree, MatcherOf, RadixTree.Valid, RadixTree.Model;
      ModelFacts(0);
      TreeFacts(radixTree);
      radixTree.ModelIsRooted();
      ghost var views := Views();
      var ok := InsertInto(radixTree, entry);
      WildReplaced(staticGroup, segmentIndex, radixTree, views, ViewOfTree(radixTree));
      ViewFields(radixTree);
      return if ok then Added else Duplicate;
    }

    method AddParam(entry: RouteEntry) returns (outcome: AddOutcome)
      requires Separate(segmentIndex, radixTree, Views())
      modifies this`segmentIndex, Trees(), Nodes()
      ensures Separate(segmentIndex, radixTree, Views())
      ensures fresh(Trees() - old(Trees())) && fresh(Nodes() - old(Nodes()))
      ensures var count := |SplitPathSegments(entry.path)|;
              var tree := TreeFor(old(Model()), count);
              && [] in tree
              && var (t, ok) := InsertAt(tree, [], SplitPathSegments(entry.path), entry);
                 && Model() == old(Model()).(index := old(Model()).index[count := t])
                 && outcome == if ok then Added else Duplicate
    {
      hide Separate, InsertAt, SplitPathSegments, ViewOfTree, MatcherOf, RadixTree.Valid, RadixTree.Model, Model, Views;
      var count := |SplitPathSegments(entry.path)|;
      ModelFacts(count);
      if count !in segmentIndex {
        NewTree(count);
      }
      outcome := AddAtCount(count, entry);
    }

    method AddAtCount(count: nat, entry: RouteEntry) returns (outcome: AddOutcome)
      requires Separate(segmentIndex, radixTree, Views()) && count in segmentIndex
      modifies segmentIndex[count], segmentIndex[count].nodes.Values
      ensures Separate(segmentIndex, radixTree, Views()) && fresh(Nodes() - old(Nodes()))
      ensures count in old(Model()).index && [] in old(Model()).index[count]
      ensures var (t, ok) := InsertAt(old(Model()).index[count], [], SplitPathSegments(entry.path), entry);
              Model() == old(Model()).(index := old(Model()).index[count := t]) && outcome == if ok then Added else Duplicate
    {
      hide Separate, InsertAt, SplitPathSegments, ViewOfTree, MatcherOf, RadixTree.Valid, RadixTree.Model;
      ModelFacts(count);
      var tree := segmentIndex[count];
      TreeFacts(tree);
      tree.ModelIsRooted();
      ghost var views := Views();
      var ok := InsertInto(tree, entry);
      IndexReplaced(staticGroup, segmentIndex, radixTree, views, count, ViewOfTree(tree));
      ViewFields(tree);
      return if ok then Added else Duplicate;
    }

    method AddRoute(path: string, handlers: Handlers) returns (outcome: AddOutcome)
      requires Valid()
      modifies this, Trees(), Nodes()
      ensures Valid() && fresh(Trees() - old(Trees())) && fresh(Nodes() - old(Nodes()))
      ensures (Model(), outcome) == RouteRegistry.AddRoute(old(Model()), path, handlers)
    {
      hide Sound, Separate, InsertAt, ValidPath, SplitPathSegments, KindOf, ViewOfTree, MatcherOf, RadixTree.Valid,
        RadixTree.Model, Views;
      ghost var goal := RouteRegistry.AddRoute(Model(), path, handlers);
      AddKeepsSound(Model(), path, handlers);
      var panics := CheckPathValid(path);
      if panics {
        return InvalidPath;
      }
      var entry := RouteEntry(path, handlers);
      match KindOf(path) {
        case StaticKind =>
          outcome := AddStatic(entry);
        case WildKind =>
          outcome := AddWild(entry);
        case ParamKind =>
          outcome := AddParam(entry);
      }
      assert (Model(), outcome) == goal;
    }

    method RemoveRoute(path: string) returns (outcome: RemoveOutcome)
      requires Valid()
      modifies this`staticGroup, Trees(), Nodes()
      ensures Valid() && Trees() == old(Trees()) && Nodes() <= old(Nodes())
      ensures (Model(), outcome) == RouteRegistry.RemoveRoute(old(Model()), path)
    {
      hide Sound, Separate, RemoveAt, SplitPathSegments, KindOf, ViewOfTree, MatcherOf, RadixTree.Valid,
        RadixTree.Model;
      var count := |SplitPathSegments(path)|;
      RemoveKeepsSound(Model(), path);
      ModelFacts(count);
      ghost var views := Views();
      match KindOf(path) {
        case StaticKind =>
          if path !in staticGroup {
            return NotFound;
          }
          SetExact(staticGroup - {path});
          return Removed;
        case WildKind =>
          var removed := RemoveFrom(radixTree, path);
          WildReplaced(staticGroup, segmentIndex, radixTree, views, ViewOfTree(radixTree));
          ViewFields(radixTree);
          return if removed then Removed else NotFound;
        case ParamKind =>
          if count !in segmentIndex {
            return NilTree;
          }
          var tree := segmentIndex[count];
          var removed := RemoveFrom(tree, path);
          IndexReplaced(staticGroup, segmentIndex, radixTree, views, count, ViewOfTree(tree));
          ViewFields(tree);
          return if removed then Removed else NotFound;
      }
    }

    method Match(path: string) returns (result: Option<Hit>)
      requires Valid()
      ensures result == RouteRegistry.Match(old(Model()), path)
    {
      hide Sound, Separate, FindAt, SplitPathSegments, ViewOfTree, MatcherOf, RadixTree.Valid, RadixTree.Model, EntryAt,
        Views, Model;
      ghost var m := Model();
      SoundIsRooted(m);
      TreeFacts(radixTree);
      ghost var count := CountOf(path);
      ModelFacts(count);
      if count in segmentIndex {
        TreeFacts(segmentIndex[count]);
        FoundHasEntry(m.index[count], [], SplitPathSegments(path), map[]);
      }
      FoundHasEntry(m.wild, [], SplitPathSegments(path), map[]);
      var segCnt := PathSegmentCount(path);
      if path in staticGroup {
        return Some(Hit(staticGroup[path], map[]));
      }
      if segCnt in segmentIndex {
        var found := segmentIndex[segCnt].Search(path);
        if found.Some? {
          return Some(Hit(found.value.0, found.value.1));
        }
      }
      var found := radixTree.Search(path);
      return if found.Some? then Some(Hit(found.value.0, found.value.1)) else None;
    }

    method MatchInto(path: string, dst: ParamStore) returns (entry: Option<RouteEntry>)
      requires Valid()
      modifies dst
      ensures (entry, dst.values) == MatchIntoResult(old(Model()), path, old(dst.values))
    {
      hide Sound, Separate, FindAt, SplitPathSegments, ViewOfTree, MatcherOf, RadixTree.Valid, RadixTree.Model, EntryAt,
        Views, Model;
      ghost var m := Model();
      SoundIsRooted(m);
      TreeFacts(radixTree);
      ghost var count := CountOf(path);
      ModelFacts(count);
      if count in segmentIndex {
        TreeFacts(segmentIndex[count]);
        FoundHasEntry(m.index[count], [], SplitPathSegments(path), map[]);
      }
      var segCnt := PathSegmentCount(path);
      dst.values := map[];
      if path in staticGroup {
        return Some(staticGroup[path]);
      }
      if segCnt in segmentIndex {
        entry := segmentIndex[segCnt].SearchInto(path, dst);
        if entry.Some? {
          return entry;
        }
      }
      entry := radixTree.SearchInto(path, dst);
    }
  }

  lemma ExactChanged(exact: map<string, RouteEntry>, exact': map<string, RouteEntry>, index: map<nat, RadixTree>,
                     wild: RadixTree, views: map<RadixTree, TreeView>)
    requires Separate(index, wild, views)
    ensures MatcherOf(exact', index, wild, views) == MatcherOf(exact, index, wild, views).(exact := exact')
  {
  }

  lemma IndexValues(index: map<nat, RadixTree>, count: nat, tree: RadixTree)
    requires count !in index
    ensures index[count := tree].Values == index.Values + {tree}
  {
    forall t
      ensures t in index[count := tree].Values <==> t == tree || t in index.Values
    {
      if t == tree {
        assert index[count := tree][count] == tree;
      } else if t in index.Values {
        var k :| k in index && index[k] == t;
        assert index[count := tree][k] == t;
      }
    }
  }
}
