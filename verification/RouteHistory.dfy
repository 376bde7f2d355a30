/** Additions and removals keep a matcher in step with its registry, over any history. */
module RouteHistory {
  import opened Wrappers
  import opened RoutePaths
  import opened RouteTrie
  import opened RouteTrieLaws
  import opened RouteRegistry

  // ---- One tree ---------------------------------------------------------------------------

  lemma ValidIsWellPlaced(path: string)
    requires ValidPath(path)
    ensures WellPlaced(SplitPathSegments(path))
  {
    var segs := SplitPathSegments(path);
    forall k | 0 <= k < |segs| - 1
      ensures !IsCatchAll(segs[k])
    {
      CatchAllIsLast(path, k);
    }
  }

  lemma WildEndsInCatchAll(segs: seq<string>)
    requires WellPlaced(segs) && HasWild(segs)
    ensures segs != [] && IsCatchAll(segs[|segs| - 1])
  {
  }

  lemma {:induction false} ShapeOfNonEmpty(segs: seq<string>)
    requires NoEmptySegments(segs) && segs != []
    ensures |Shape(segs)| == |segs| && Shape(segs)[|segs| - 1] == EdgeOf(segs[|segs| - 1])
  {
    if |segs| == 1 {
      assert segs[1..] == [];
    } else {
      ShapeOfNonEmpty(segs[1..]);
    }
  }

  lemma TakenIsStored(t: Trie, routes: seq<RouteEntry>, kind: Kind, count: nat, path: string)
    requires Stores(t, routes, kind, count) && !kind.StaticKind?
    requires KindOf(path) == kind && (kind.ParamKind? ==> CountOf(path) == count)
    ensures Taken(routes, path) <==> HasEntry(t, ShapeOf(path))
  {
    hide KindOf, CountOf, ShapeOf;
    if HasEntry(t, ShapeOf(path)) {
      var e := t[ShapeOf(path)].entry.value;
      var i :| 0 <= i < |routes| && routes[i] == e;
      assert Collides(routes[i].path, path);
    }
    if Taken(routes, path) {
      var i :| 0 <= i < |routes| && Collides(routes[i].path, path);
      assert routes[i] in routes && InGroup(routes[i], kind, count);
    }
  }

  lemma AddToTree(t: Trie, routes: seq<RouteEntry>, kind: Kind, count: nat, path: string, handlers: Handlers)
    requires Tidy(t) && Stores(t, routes, kind, count) && !kind.StaticKind? && ValidPath(path)
    requires KindOf(path) == kind && (kind.ParamKind? ==> CountOf(path) == count)
    ensures var entry := RouteEntry(path, handlers);
            var (t', ok) := InsertAt(t, [], SplitPathSegments(path), entry);
            && Tidy(t') && (ok <==> !Taken(routes, path))
            && (if ok then Stores(t', routes + [entry], kind, count) else t' == t)
  {
    hide KindOf, CountOf, InsertAt, ValidPath, Tidy;
    var entry, segs := RouteEntry(path, handlers), SplitPathSegments(path);
    TidyPrefixClosed(t);
    var (t', ok) := InsertAt(t, [], segs, entry);
    ValidIsWellPlaced(path);
    InsertEffect(t, [], segs, entry);
    InsertTidy(t, [], segs, entry);
    TakenIsStored(t, routes, kind, count, path);
    assert [] + Shape(segs) == ShapeOf(path);
    if ok {
      StoresInserted(t, t', routes, kind, count, entry);
    }
  }

  lemma StoresInserted(t: Trie, t': Trie, routes: seq<RouteEntry>, kind: Kind, count: nat, entry: RouteEntry)
    requires Stores(t, routes, kind, count) && InGroup(entry, kind, count)
    requires var target := ShapeOf(entry.path);
             && !HasEntry(t, target) && HasEntry(t', target) && t'[target].entry == Some(entry)
             && SameRoutesBut(t, t', target)
    ensures Stores(t', routes + [entry], kind, count)
  {
    hide InGroup, ShapeOf;
    var target, more := ShapeOf(entry.path), routes + [entry];
    forall e | e in more && InGroup(e, kind, count)
      ensures HasEntry(t', ShapeOf(e.path)) && t'[ShapeOf(e.path)].entry == Some(e)
    {
      assert e == entry || e in routes;
    }
    forall p | HasEntry(t', p)
      ensures var e := t'[p].entry.value; e in more && InGroup(e, kind, count) && ShapeOf(e.path) == p
    {
      if p == target {
        assert entry in more;
      } else {
        assert t[p].entry.value in routes;
      }
    }
  }

  lemma TidyPrefixClosed(t: Trie)
    requires Tidy(t)
    ensures PrefixClosed(t) && TidyBut(t, []) && [] in t
  {
  }

  lemma AddToOther(t: Trie, routes: seq<RouteEntry>, kind: Kind, count: nat, entry: RouteEntry)
    requires Stores(t, routes, kind, count) && !InGroup(entry, kind, count)
    ensures Stores(t, routes + [entry], kind, count)
  {
    hide KindOf, CountOf, ShapeOf;
  }

  lemma EmptyStores(routes: seq<RouteEntry>, count: nat)
    requires forall e :: e in routes ==> !InGroup(e, ParamKind, count)
    ensures Tidy(EMPTY_TRIE) && Stores(EMPTY_TRIE, routes, ParamKind, count)
  {
    assert forall p: Position, e :: |p + [e]| > 0;
  }

  /** A new catch-all node is named by the route that creates it. */
  lemma {:induction false} InsertNames(t: Trie, p: Position, segs: seq<string>, entry: RouteEntry)
    requires PrefixClosed(t) && p in t && WellPlaced(segs) && segs != [] && IsCatchAll(segs[|segs| - 1])
    requires p + Shape(segs) !in t
    ensures var t' := InsertAt(t, p, segs, entry).0;
            p + Shape(segs) in t' && t'[p + Shape(segs)].paramName == segs[|segs| - 1][1..]
    decreases |segs|
  {
    if |segs| == 1 {
      assert segs[1..] == [];
      assert Shape(segs) == [CatchAll];
    } else {
      SegmentsStep(segs);
      if segs[0] == "" {
        InsertNames(t, p, segs[1..], entry);
      } else {
        var child := p + [EdgeOf(segs[0])];
        AddChildKeeps(t, p, segs[0]);
        assert p + ([EdgeOf(segs[0])] + Shape(segs[1..])) == child + Shape(segs[1..]);
        ShapeNotEmpty(segs[1..]);
        assert |child + Shape(segs[1..])| != |child|;
        InsertNames(AddChild(t, p, segs[0]), child, segs[1..], entry);
      }
    }
  }

  lemma {:induction false} ShapeNotEmpty(segs: seq<string>)
    requires segs != [] && IsCatchAll(segs[|segs| - 1])
    ensures Shape(segs) != []
  {
    if |segs| > 1 {
      ShapeNotEmpty(segs[1..]);
    }
  }

  lemma AddKeepsNames(t: Trie, path: string, handlers: Handlers)
    requires Tidy(t) && NamedByRoute(t) && ValidPath(path) && KindOf(path).WildKind?
    ensures NamedByRoute(InsertAt(t, [], SplitPathSegments(path), RouteEntry(path, handlers)).0)
  {
    hide InsertAt, ValidPath, SplitPathSegments, Tidy, Shape, NamedByRoute;
    var segs, entry := SplitPathSegments(path), RouteEntry(path, handlers);
    TidyPrefixClosed(t);
    var (t', ok) := InsertAt(t, [], segs, entry);
    ValidIsWellPlaced(path);
    WildEndsInCatchAll(segs);
    InsertEffect(t, [], segs, entry);
    InsertTidy(t, [], segs, entry);
    var target := Shape(segs);
    assert [] + target == target;
    if ok {
      if target in t {
        LeafHasEntry(t, segs);
      } else {
        InsertNames(t, [], segs, entry);
      }
      NamesInserted(t, t', target, entry);
    }
  }

  lemma NamesInserted(t: Trie, t': Trie, target: Position, entry: RouteEntry)
    requires NamedByRoute(t) && SameRoutesBut(t, t', target)
    requires forall q :: q in t ==> q in t' && t'[q].paramName == t[q].paramName
    requires HasEntry(t', target) && t'[target].entry == Some(entry)
    requires var own := SplitPathSegments(entry.path);
             own != [] && IsCatchAll(own[|own| - 1]) && t'[target].paramName == own[|own| - 1][1..]
    ensures NamedByRoute(t')
  {
    hide SplitPathSegments, IsCatchAll;
  }

  /** A catch-all node never stands without a route. */
  lemma LeafHasEntry(t: Trie, segs: seq<string>)
    requires Tidy(t) && WellPlaced(segs) && segs != [] && IsCatchAll(segs[|segs| - 1]) && Shape(segs) in t
    ensures HasEntry(t, Shape(segs))
  {
    LastEdge(segs);
    var shape := Shape(segs);
    assert shape == shape[..|shape| - 1] + [CatchAll];
  }

  lemma {:induction false} LastEdge(segs: seq<string>)
    requires segs != [] && IsCatchAll(segs[|segs| - 1])
    ensures Shape(segs) != [] && Shape(segs)[|Shape(segs)| - 1] == CatchAll
  {
    if |segs| == 1 {
      assert segs[1..] == [];
    } else {
      LastEdge(segs[1..]);
    }
  }

  // ---- Adding a route ---------------------------------------------------------------------

  lemma AppendApart(routes: seq<RouteEntry>, entry: RouteEntry)
    requires Apart(routes) && !Taken(routes, entry.path)
    ensures Apart(routes + [entry])
  {
    hide KindOf, CountOf, ShapeOf;
    forall e | e in routes
      ensures !Collides(e.path, entry.path) && !Collides(entry.path, e.path)
    {
      var i :| 0 <= i < |routes| && routes[i] == e;
      assert !Collides(routes[i].path, entry.path);
    }
  }

  lemma NotInGroups(e: RouteEntry)
    ensures KindOf(e.path).StaticKind? ==> forall k :: !InGroup(e, WildKind, k) && !InGroup(e, ParamKind, k)
    ensures KindOf(e.path).WildKind? ==> forall k :: !InGroup(e, ParamKind, k)
    ensures forall k :: InGroup(e, ParamKind, k) ==> KindOf(e.path).ParamKind?
    ensures KindOf(e.path).ParamKind? ==>
              forall k :: !InGroup(e, WildKind, k) && (InGroup(e, ParamKind, k) <==> k == CountOf(e.path))
  {
    hide KindOf, CountOf;
  }

  lemma ExactUnaffected(exact: map<string, RouteEntry>, routes: seq<RouteEntry>, e: RouteEntry)
    requires ExactAgrees(exact, routes) && !KindOf(e.path).StaticKind?
    ensures ExactAgrees(exact, routes + [e])
  {
    hide KindOf;
  }

  lemma IndexUnaffected(index: map<nat, Trie>, counts: set<nat>, routes: seq<RouteEntry>, e: RouteEntry)
    requires IndexAgrees(index, counts, routes) && !KindOf(e.path).ParamKind?
    ensures IndexAgrees(index, counts, routes + [e])
  {
    hide KindOf, CountOf, InGroup, Stores, Tidy;
    NotInGroups(e);
    forall k | k in index
      ensures Stores(index[k], routes + [e], ParamKind, k)
    {
      AddToOther(index[k], routes, ParamKind, k, e);
    }
  }

  lemma WildUnaffected(wild: Trie, routes: seq<RouteEntry>, e: RouteEntry)
    requires WildAgrees(wild, routes) && !KindOf(e.path).WildKind?
    ensures WildAgrees(wild, routes + [e])
  {
    hide KindOf, CountOf, Stores, Tidy, NamedByRoute;
    AddToOther(wild, routes, WildKind, 0, e);
  }

  lemma StaticTaken(exact: map<string, RouteEntry>, routes: seq<RouteEntry>, path: string)
    requires ExactAgrees(exact, routes) && KindOf(path).StaticKind?
    ensures Taken(routes, path) <==> path in exact
  {
    hide KindOf, CountOf, ShapeOf;
    if path in exact {
      var i :| 0 <= i < |routes| && routes[i] == exact[path];
      assert Collides(routes[i].path, path);
    }
  }

  lemma AddParam(index: map<nat, Trie>, r: Registry, path: string, handlers: Handlers)
    requires IndexAgrees(index, r.counts, r.routes) && ValidPath(path) && KindOf(path).ParamKind?
    ensures var entry, count := RouteEntry(path, handlers), CountOf(path);
            var t := if count in index then index[count] else EMPTY_TRIE;
            && [] in t
            && var (t', ok) := InsertAt(t, [], SplitPathSegments(path), entry);
               && (ok <==> !Taken(r.routes, path))
               && IndexAgrees(index[count := t'], r.counts + {count}, if ok then r.routes + [entry] else r.routes)
  {
    hide KindOf, CountOf, ShapeOf, InsertAt, ValidPath, Tidy, Stores, Taken, InGroup, SplitPathSegments;
    var entry, count := RouteEntry(path, handlers), CountOf(path);
    var t := if count in index then index[count] else EMPTY_TRIE;
    NotInGroups(entry);
    if count !in index {
      forall e | e in r.routes
        ensures !InGroup(e, ParamKind, count)
      {
        NotInGroups(e);
      }
      EmptyStores(r.routes, count);
    }
    TidyPrefixClosed(t);
    AddToTree(t, r.routes, ParamKind, count, path, handlers);
    forall k | k in index && k != count
      ensures Stores(index[k], r.routes + [entry], ParamKind, k)
    {
      AddToOther(index[k], r.routes, ParamKind, k, entry);
    }
  }

  lemma AddWild(wild: Trie, routes: seq<RouteEntry>, path: string, handlers: Handlers)
    requires WildAgrees(wild, routes) && ValidPath(path) && KindOf(path).WildKind?
    ensures [] in wild
    ensures var entry := RouteEntry(path, handlers);
            var (t', ok) := InsertAt(wild, [], SplitPathSegments(path), entry);
            && (ok <==> !Taken(routes, path))
            && WildAgrees(t', if ok then routes + [entry] else routes)
  {
    hide KindOf, CountOf, InsertAt, ValidPath, Tidy, Stores, Taken, SplitPathSegments, NamedByRoute;
    TidyPrefixClosed(wild);
    AddToTree(wild, routes, WildKind, 0, path, handlers);
    AddKeepsNames(wild, path, handlers);
  }

  lemma SoundParts(m: Matcher, r: Registry)
    requires IndexAgrees(m.index, r.counts, r.routes) && WildAgrees(m.wild, r.routes)
    ensures Sound(m)
  {
    hide Tidy, Stores, NamedByRoute;
  }

  /** Adding a route does to the matcher what it does to the registry, with the same outcome. */
  lemma AddAgrees(m: Matcher, r: Registry, path: string, handlers: Handlers)
    requires Represents(m, r)
    ensures var (m', done) := AddRoute(m, path, handlers);
            var (r', registered) := RegisterRoute(r, path, handlers);
            done == registered && Represents(m', r')
  {
    hide KindOf, CountOf, ShapeOf, InsertAt, ValidPath, Stores, Apart, NamedByRoute, Taken, SplitPathSegments,
      ExactAgrees, IndexAgrees, WildAgrees, Sound;
    if ValidPath(path) {
      var entry := RouteEntry(path, handlers);
      var (m', done) := AddRoute(m, path, handlers);
      var (r', registered) := RegisterRoute(r, path, handlers);
      if !Taken(r.routes, path) {
        AppendApart(r.routes, entry);
      }
      match KindOf(path) {
        case StaticKind =>
          StaticTaken(m.exact, r.routes, path);
          if path !in m.exact {
            AddExact(m.exact, r.routes, entry);
            IndexUnaffected(m.index, r.counts, r.routes, entry);
            WildUnaffected(m.wild, r.routes, entry);
          }
        case WildKind =>
          AddWild(m.wild, r.routes, path, handlers);
          ExactUnaffected(m.exact, r.routes, entry);
          IndexUnaffected(m.index, r.counts, r.routes, entry);
        case ParamKind =>
          AddParam(m.index, r, path, handlers);
          CountIsLength(path);
          ExactUnaffected(m.exact, r.routes, entry);
          WildUnaffected(m.wild, r.routes, entry);
      }
      SoundParts(m', r');
    }
  }

  lemma CountIsLength(path: string)
    ensures CountOf(path) == |SplitPathSegments(path)|
  {
  }

  lemma AddExact(exact: map<string, RouteEntry>, routes: seq<RouteEntry>, entry: RouteEntry)
    requires ExactAgrees(exact, routes) && KindOf(entry.path).StaticKind? && entry.path !in exact
    ensures ExactAgrees(exact[entry.path := entry], routes + [entry])
  {
    hide KindOf;
  }

  // ---- Removing a route -------------------------------------------------------------------

  lemma WithoutApart(routes: seq<RouteEntry>, path: string)
    requires Apart(routes) && AllValid(routes)
    ensures Apart(Without(routes, path)) && AllValid(Without(routes, path))
  {
    hide KindOf, CountOf, ShapeOf, Collides;
  }

  /** The removals that a tree and the registry accept are the same. */
  lemma RemovableIsNamed(t: Trie, routes: seq<RouteEntry>, kind: Kind, count: nat, path: string)
    requires Tidy(t) && Stores(t, routes, kind, count) && AllValid(routes) && !kind.StaticKind?
    requires KindOf(path) == kind && (kind.ParamKind? ==> CountOf(path) == count)
    requires kind.WildKind? ==> NamedByRoute(t)
    ensures Removable(t, [], SplitPathSegments(path)) <==> exists e :: e in routes && Names(path, e)
  {
    hide CountOf, ValidPath, Tidy, SplitPathSegments, Shape, Stores, Collides;
    var segs, shape := SplitPathSegments(path), ShapeOf(path);
    assert [] + Shape(segs) == shape;
    if exists e :: e in routes && Names(path, e) {
      var e :| e in routes && Names(path, e);
      NamedIsStored(t, routes, kind, count, path, e);
      NameAgrees(t, path, e);
    }
    if Removable(t, [], segs) {
      var e := t[shape].entry.value;
      StoredCollides(t, routes, kind, count, path);
      NameAgrees(t, path, e);
      assert Names(path, e);
    }
  }

  lemma NamedIsStored(t: Trie, routes: seq<RouteEntry>, kind: Kind, count: nat, path: string, e: RouteEntry)
    requires Stores(t, routes, kind, count) && e in routes && Collides(e.path, path) && !kind.StaticKind?
    requires KindOf(path) == kind && (kind.ParamKind? ==> CountOf(path) == count)
    ensures HasEntry(t, ShapeOf(path)) && t[ShapeOf(path)].entry == Some(e)
  {
    hide KindOf, CountOf, ShapeOf;
  }

  lemma StoredCollides(t: Trie, routes: seq<RouteEntry>, kind: Kind, count: nat, path: string)
    requires Stores(t, routes, kind, count) && HasEntry(t, ShapeOf(path)) && !kind.StaticKind?
    requires KindOf(path) == kind && (kind.ParamKind? ==> CountOf(path) == count)
    ensures var e := t[ShapeOf(path)].entry.value; e in routes && Collides(e.path, path)
  {
    hide KindOf, CountOf, ShapeOf;
  }

  /** For a catch-all pattern the name in the tree is the name in the stored route. */
  lemma NameAgrees(t: Trie, path: string, e: RouteEntry)
    requires HasEntry(t, ShapeOf(path)) && t[ShapeOf(path)].entry == Some(e) && !KindOf(path).StaticKind?
    requires KindOf(path).WildKind? ==> NamedByRoute(t)
    requires NoEmptySegments(SplitPathSegments(path)) && WellPlaced(SplitPathSegments(path))
    ensures var segs, own := SplitPathSegments(path), SplitPathSegments(e.path);
            if KindOf(path).WildKind? then
              && segs != [] && IsCatchAll(segs[|segs| - 1])
              && own != [] && (t[ShapeOf(path)].paramName == segs[|segs| - 1][1..] <==> segs[|segs| - 1] == own[|own| - 1])
            else segs != [] && !IsCatchAll(segs[|segs| - 1])
  {
    hide SplitPathSegments, Shape, WellPlaced, NoEmptySegments, EdgeOf;
    var segs, own := SplitPathSegments(path), SplitPathSegments(e.path);
    if KindOf(path).WildKind? {
      WildEndsInCatchAll(segs);
      ShapeOfNonEmpty(segs);
      CatchAllEdge(segs[|segs| - 1]);
      SameName(segs[|segs| - 1], own[|own| - 1]);
    } else {
      assert HasParam(segs);
    }
  }

  lemma CatchAllEdge(segment: string)
    requires IsCatchAll(segment)
    ensures EdgeOf(segment).CatchAll?
  {
  }

  lemma SameName(a: string, b: string)
    requires IsCatchAll(a) && IsCatchAll(b)
    ensures a[1..] == b[1..] <==> a == b
  {
    assert a == [a[0]] + a[1..] && b == [b[0]] + b[1..];
  }

  lemma RemoveFromTree(t: Trie, routes: seq<RouteEntry>, kind: Kind, count: nat, path: string)
    requires Tidy(t) && Stores(t, routes, kind, count) && AllValid(routes) && !kind.StaticKind?
    requires KindOf(path) == kind && (kind.ParamKind? ==> CountOf(path) == count)
    requires kind.WildKind? ==> NamedByRoute(t)
    ensures [] in t
    ensures var (t', removed) := RemoveAt(t, [], SplitPathSegments(path));
            && (removed <==> exists e :: e in routes && Names(path, e))
            && Tidy(t') && Stores(t', if removed then Without(routes, path) else routes, kind, count)
            && (kind.WildKind? ==> NamedByRoute(t'))
  {
    hide KindOf, CountOf, RemoveAt, ValidPath, Tidy, SplitPathSegments, Names, Stores, NamedByRoute, Removable, Without;
    TidyPrefixClosed(t);
    var segs := SplitPathSegments(path);
    var (t', removed) := RemoveAt(t, [], segs);
    RemoveEffect(t, [], segs);
    RemoveTidy(t, [], segs);
    TidyIsTidyBut(t');
    RemovableIsNamed(t, routes, kind, count, path);
    assert [] + Shape(segs) == ShapeOf(path);
    if removed {
      RemovableHasEntry(t, segs);
      StoresRemoved(t, t', routes, kind, count, path);
      if kind.WildKind? {
        NamesRemoved(t, t', ShapeOf(path));
      }
    }
  }

  lemma RemovableHasEntry(t: Trie, segs: seq<string>)
    requires Removable(t, [], segs)
    ensures HasEntry(t, [] + Shape(segs))
  {
  }

  lemma TidyIsTidyBut(t: Trie)
    requires TidyBut(t, [])
    ensures Tidy(t)
  {
  }

  lemma StoresRemoved(t: Trie, t': Trie, routes: seq<RouteEntry>, kind: Kind, count: nat, path: string)
    requires Stores(t, routes, kind, count) && !kind.StaticKind?
    requires KindOf(path) == kind && (kind.ParamKind? ==> CountOf(path) == count)
    requires !HasEntry(t', ShapeOf(path)) && SameRoutesBut(t, t', ShapeOf(path))
    ensures Stores(t', Without(routes, path), kind, count)
  {
    hide KindOf, CountOf, ShapeOf, Without;
    var others := Without(routes, path);
    forall e | e in others && InGroup(e, kind, count)
      ensures HasEntry(t', ShapeOf(e.path)) && t'[ShapeOf(e.path)].entry == Some(e)
    {
      assert e in routes && ShapeOf(e.path) != ShapeOf(path);
    }
    forall p | HasEntry(t', p)
      ensures var e := t'[p].entry.value; e in others && InGroup(e, kind, count) && ShapeOf(e.path) == p
    {
      assert p != ShapeOf(path);
      assert t[p].entry.value in routes;
    }
  }

  lemma NamesRemoved(t: Trie, t': Trie, target: Position)
    requires NamedByRoute(t) && SameRoutesBut(t, t', target) && !HasEntry(t', target)
    requires forall q :: q in t' ==> q in t && t'[q].paramName == t[q].paramName
    ensures NamedByRoute(t')
  {
    hide SplitPathSegments, IsCatchAll;
  }

  lemma OtherStoresRemoved(t: Trie, routes: seq<RouteEntry>, kind: Kind, count: nat, path: string)
    requires Stores(t, routes, kind, count)
    requires KindOf(path) != kind || (kind.ParamKind? && CountOf(path) != count)
    ensures Stores(t, Without(routes, path), kind, count)
  {
    hide KindOf, CountOf, ShapeOf, Without;
    forall e | e in routes && InGroup(e, kind, count)
      ensures e in Without(routes, path)
    {
      assert !Collides(e.path, path);
    }
  }

  lemma ExactWithout(exact: map<string, RouteEntry>, routes: seq<RouteEntry>, path: string)
    requires ExactAgrees(exact, routes)
    ensures ExactAgrees(if KindOf(path).StaticKind? then exact - {path} else exact, Without(routes, path))
  {
    hide KindOf, CountOf, ShapeOf, Without;
  }

  lemma IndexWithout(index: map<nat, Trie>, counts: set<nat>, routes: seq<RouteEntry>, path: string, t': Trie)
    requires IndexAgrees(index, counts, routes)
    requires KindOf(path).ParamKind? ==>
               CountOf(path) in index && Tidy(t') && Stores(t', Without(routes, path), ParamKind, CountOf(path))
    ensures IndexAgrees(if KindOf(path).ParamKind? then index[CountOf(path) := t'] else index, counts,
                        Without(routes, path))
  {
    hide KindOf, CountOf, ShapeOf, Without, Tidy, Stores, Collides;
    forall k | k in index && (KindOf(path).ParamKind? ==> k != CountOf(path))
      ensures Stores(index[k], Without(routes, path), ParamKind, k)
    {
      OtherStoresRemoved(index[k], routes, ParamKind, k, path);
    }
  }

  lemma WildWithout(wild: Trie, routes: seq<RouteEntry>, path: string)
    requires WildAgrees(wild, routes) && !KindOf(path).WildKind?
    ensures WildAgrees(wild, Without(routes, path))
  {
    hide KindOf, Tidy, Stores, NamedByRoute;
    OtherStoresRemoved(wild, routes, WildKind, 0, path);
  }

  lemma ExactNamed(exact: map<string, RouteEntry>, routes: seq<RouteEntry>, path: string)
    requires ExactAgrees(exact, routes) && KindOf(path).StaticKind?
    ensures path in exact <==> exists e :: e in routes && Names(path, e)
  {
    hide KindOf, CountOf, ShapeOf, NoEmptySegments, WellPlaced;
    if path in exact {
      assert Names(path, exact[path]);
    }
  }

  lemma IndexHas(m: Matcher, r: Registry, count: nat)
    requires IndexAgrees(m.index, r.counts, r.routes)
    ensures count in m.index <==> count in r.counts
    ensures count in m.index ==> Tidy(m.index[count]) && Stores(m.index[count], r.routes, ParamKind, count)
    ensures IndexAgrees(m.index, r.counts, r.routes)
  {
  }

  lemma IndexRewritten(index: map<nat, Trie>, counts: set<nat>, routes: seq<RouteEntry>, count: nat, t': Trie)
    requires IndexAgrees(index, counts, routes) && count in index && Tidy(t') && Stores(t', routes, ParamKind, count)
    ensures IndexAgrees(index[count := t'], counts, routes)
  {
    hide Tidy, Stores, KindOf, CountOf;
  }

  lemma WildParts(wild: Trie, routes: seq<RouteEntry>)
    ensures WildAgrees(wild, routes) <==> Tidy(wild) && Stores(wild, routes, WildKind, 0) && NamedByRoute(wild)
  {
  }

  /** Removing a route does to the matcher what it does to the registry, with the same outcome. */
  lemma RemoveAgrees(m: Matcher, r: Registry, path: string)
    requires Represents(m, r)
    ensures var (m', done) := RemoveRoute(m, path);
            var (r', unregistered) := UnregisterRoute(r, path);
            done == unregistered && Represents(m', r')
  {
    hide KindOf, CountOf, ShapeOf, RemoveAt, Stores, Apart, NamedByRoute, SplitPathSegments, AllValid, Names, Without,
      ExactAgrees, IndexAgrees, WildAgrees, Sound, Tidy;
    var (m', done) := RemoveRoute(m, path);
    var (r', unregistered) := UnregisterRoute(r, path);
    var count := CountOf(path);
    WithoutApart(r.routes, path);
    ExactWithout(m.exact, r.routes, path);
    CountIsLength(path);
    match KindOf(path) {
      case StaticKind =>
        ExactNamed(m.exact, r.routes, path);
        IndexWithout(m.index, r.counts, r.routes, path, EMPTY_TRIE);
        WildWithout(m.wild, r.routes, path);
      case WildKind =>
        WildParts(m.wild, r.routes);
        RemoveFromTree(m.wild, r.routes, WildKind, 0, path);
        WildParts(m'.wild, r'.routes);
        IndexWithout(m.index, r.counts, r.routes, path, EMPTY_TRIE);
      case ParamKind =>
        IndexHas(m, r, count);
        if count in m.index {
          RemoveFromTree(m.index[count], r.routes, ParamKind, count, path);
          if done.Removed? {
            IndexWithout(m.index, r.counts, r.routes, path, m'.index[count]);
          } else {
            IndexRewritten(m.index, r.counts, r.routes, count, m'.index[count]);
          }
          WildWithout(m.wild, r.routes, path);
        }
    }
    SoundParts(m', r');
  }

  // ---- Histories --------------------------------------------------------------------------

  datatype RouteOp = AddOp(path: string, handlers: Handlers) | RemoveOp(path: string)

  datatype Outcome = AddDone(added: AddOutcome) | RemoveDone(removed: RemoveOutcome)

  ghost function Step(m: Matcher, op: RouteOp): (Matcher, Outcome)
    requires Sound(m)
  {
    match op
    case AddOp(path, handlers) => var (m', o) := AddRoute(m, path, handlers); (m', AddDone(o))
    case RemoveOp(path) => var (m', o) := RemoveRoute(m, path); (m', RemoveDone(o))
  }

  ghost function RegistryStep(r: Registry, op: RouteOp): (Registry, Outcome) {
    match op
    case AddOp(path, handlers) => var (r', o) := RegisterRoute(r, path, handlers); (r', AddDone(o))
    case RemoveOp(path) => var (r', o) := UnregisterRoute(r, path); (r', RemoveDone(o))
  }

  ghost function RegistryRun(r: Registry, ops: seq<RouteOp>): (Registry, seq<Outcome>)
    decreases |ops|
  {
    if ops == [] then (r, [])
    else
      var step := RegistryStep(r, ops[0]);
      var rest := RegistryRun(step.0, ops[1..]);
      (rest.0, [step.1] + rest.1)
  }

  /** A history of the matcher: the state and the outcome after each operation. */
  ghost predicate IsRun(ms: seq<Matcher>, ops: seq<RouteOp>, os: seq<Outcome>) {
    && |ms| == |ops| + 1 && |os| == |ops|
    && forall i :: 0 <= i < |ops| ==> Sound(ms[i]) && (ms[i + 1], os[i]) == Step(ms[i], ops[i])
  }

  /** Over any history from a matcher that represents a registry, every addition and removal has
      the outcome it has on the registry, and in the end every lookup is a linear scan of the
      surviving routes. */
  lemma {:induction false} HistoryIsRegistry(ms: seq<Matcher>, ops: seq<RouteOp>, os: seq<Outcome>, r: Registry)
    requires IsRun(ms, ops, os) && Represents(ms[0], r)
    ensures RegistryRun(r, ops).1 == os && Represents(ms[|ops|], RegistryRun(r, ops).0)
    decreases |ops|
  {
    hide Represents, Step, RegistryStep;
    if ops != [] {
      StepAgrees(ms[0], r, ops[0]);
      assert (ms[1], os[0]) == Step(ms[0], ops[0]);
      var (r1, o) := RegistryStep(r, ops[0]);
      RestIsRun(ms, ops, os);
      HistoryIsRegistry(ms[1..], ops[1..], os[1..], r1);
      assert os == [os[0]] + os[1..];
    }
  }

  lemma RestIsRun(ms: seq<Matcher>, ops: seq<RouteOp>, os: seq<Outcome>)
    requires IsRun(ms, ops, os) && ops != []
    ensures IsRun(ms[1..], ops[1..], os[1..])
  {
    hide Step, Sound;
    forall i | 0 <= i < |ops[1..]|
      ensures Sound(ms[1..][i]) && (ms[1..][i + 1], os[1..][i]) == Step(ms[1..][i], ops[1..][i])
    {
      assert Sound(ms[i + 1]) && (ms[i + 2], os[i + 1]) == Step(ms[i + 1], ops[i + 1]);
    }
  }

  lemma StepAgrees(m: Matcher, r: Registry, op: RouteOp)
    requires Represents(m, r)
    ensures Sound(m)
    ensures var (m', o) := Step(m, op);
            var (r', o') := RegistryStep(r, op);
            o == o' && Represents(m', r')
  {
    match op
    case AddOp(path, handlers) => AddAgrees(m, r, path, handlers);
    case RemoveOp(path) => RemoveAgrees(m, r, path);
  }

  /** The router's promise, from an empty matcher. */
  lemma LookupIsScanOfSurvivors(ms: seq<Matcher>, ops: seq<RouteOp>, os: seq<Outcome>, path: string)
    requires IsRun(ms, ops, os) && ms[0] == EMPTY_MATCHER
    ensures var (survivors, outcomes) := RegistryRun(Registry([], {}), ops);
            && os == outcomes && Sound(ms[|ops|])
            && match Match(ms[|ops|], path)
               case None => Scan(survivors.routes, path).None?
               case Some(hit) => Scan(survivors.routes, path) == Some(hit.entry)
  {
    hide Scan, Match, RegistryRun, IsRun;
    EmptyRepresents();
    RunLength(ms, ops, os);
    HistoryIsRegistry(ms, ops, os, Registry([], {}));
    MatchIsScan(ms[|ops|], RegistryRun(Registry([], {}), ops).0, path);
  }

  lemma RunLength(ms: seq<Matcher>, ops: seq<RouteOp>, os: seq<Outcome>)
    requires IsRun(ms, ops, os)
    ensures |ms| == |ops| + 1
  {
  }
}
