/** The matcher of one HTTP method as a value, and the registry it stands for: the list of
    surviving routes, matched by a linear scan. */
module RouteRegistry {
  import opened Wrappers
  import opened RoutePaths
  import opened RouteTrie
  import opened RouteTrieLaws
  import opened RouteTree

  // ---- Kinds of route ---------------------------------------------------------------------

  datatype Kind = StaticKind | ParamKind | WildKind

  predicate IsParam(segment: string) {
    segment != "" && segment[0] == ':'
  }

  predicate HasWild(segs: seq<string>) {
    exists i :: 0 <= i < |segs| && IsCatchAll(segs[i])
  }

  predicate HasParam(segs: seq<string>) {
    exists i :: 0 <= i < |segs| && IsParam(segs[i])
  }

  function KindOf(path: string): Kind {
    var segs := SplitPathSegments(path);
    if HasWild(segs) then WildKind else if HasParam(segs) then ParamKind else StaticKind
  }

  function ShapeOf(path: string): Position {
    Shape(SplitPathSegments(path))
  }

  function CountOf(path: string): nat {
    |SplitPathSegments(path)|
  }

  // ---- The matcher ------------------------------------------------------------------------

  datatype Matcher = Matcher(exact: map<string, RouteEntry>, index: map<nat, Trie>, wild: Trie)

  const EMPTY_MATCHER := Matcher(map[], map[], EMPTY_TRIE)

  ghost predicate Sound(m: Matcher) {
    Tidy(m.wild) && forall k :: k in m.index ==> Tidy(m.index[k])
  }

  datatype AddOutcome = Added | Duplicate | InvalidPath

  function TreeFor(m: Matcher, count: nat): Trie {
    if count in m.index then m.index[count] else EMPTY_TRIE
  }

  ghost function AddRoute(m: Matcher, path: string, handlers: Handlers): (Matcher, AddOutcome)
    requires Sound(m)
  {
    var entry, segs := RouteEntry(path, handlers), SplitPathSegments(path);
    if !ValidPath(path) then (m, InvalidPath)
    else
      match KindOf(path)
      case StaticKind =>
        if path in m.exact then (m, Duplicate) else (m.(exact := m.exact[path := entry]), Added)
      case WildKind =>
        var (t, ok) := InsertAt(m.wild, [], segs, entry);
        (m.(wild := t), if ok then Added else Duplicate)
      case ParamKind =>
        var (t, ok) := InsertAt(TreeFor(m, |segs|), [], segs, entry);
        (m.(index := m.index[|segs| := t]), if ok then Added else Duplicate)
  }

  /** NilTree is the nil dereference when no tree exists for a segment count. */
  datatype RemoveOutcome = Removed | NotFound | NilTree

  ghost function RemoveRoute(m: Matcher, path: string): (Matcher, RemoveOutcome)
    requires Sound(m)
  {
    var segs := SplitPathSegments(path);
    match KindOf(path)
    case StaticKind =>
      if path in m.exact then (m.(exact := m.exact - {path}), Removed) else (m, NotFound)
    case WildKind =>
      var (t, removed) := RemoveAt(m.wild, [], segs);
      (m.(wild := t), if removed then Removed else NotFound)
    case ParamKind =>
      if |segs| !in m.index then (m, NilTree)
      else
        var (t, removed) := RemoveAt(m.index[|segs|], [], segs);
        (m.(index := m.index[|segs| := t]), if removed then Removed else NotFound)
  }

  /** A match: the route, and the request's parameters. */
  datatype Hit = Hit(entry: RouteEntry, params: Params)

  function SearchTrie(t: Trie, path: string, params: Params): Found
    requires [] in t
  {
    FindAt(t, [], SplitPathSegments(path), params)
  }

  ghost function Match(m: Matcher, path: string): Option<Hit>
    requires Sound(m)
  {
    if path in m.exact then Some(Hit(m.exact[path], map[]))
    else
      var count := CountOf(path);
      var f := if count in m.index then SearchTrie(m.index[count], path, map[]) else Found(None, map[]);
      if count in m.index then
        FoundHasEntry(m.index[count], [], SplitPathSegments(path), map[]);
        if f.position.Some? then Some(Hit(EntryAt(m.index[count], [], f).value, f.params)) else MatchWild(m, path, map[])
      else MatchWild(m, path, map[])
  }

  ghost function MatchWild(m: Matcher, path: string, params: Params): Option<Hit>
    requires Sound(m)
  {
    var f := SearchTrie(m.wild, path, params);
    FoundHasEntry(m.wild, [], SplitPathSegments(path), params);
    if f.position.Some? then Some(Hit(EntryAt(m.wild, [], f).value, f.params)) else None
  }

  // ---- The registry -----------------------------------------------------------------------

  /** Routes in registration order, and the segment counts for which a parameter route was ever
      registered. */
  datatype Registry = Registry(routes: seq<RouteEntry>, counts: set<nat>)

  /** Two paths that cannot both be registered. */
  predicate Collides(a: string, b: string) {
    KindOf(a) == KindOf(b) &&
    match KindOf(a)
    case StaticKind => a == b
    case ParamKind => CountOf(a) == CountOf(b) && ShapeOf(a) == ShapeOf(b)
    case WildKind => ShapeOf(a) == ShapeOf(b)
  }

  predicate Taken(routes: seq<RouteEntry>, path: string) {
    exists i :: 0 <= i < |routes| && Collides(routes[i].path, path)
  }

  function RegisterRoute(r: Registry, path: string, handlers: Handlers): (Registry, AddOutcome) {
    if !ValidPath(path) then (r, InvalidPath)
    else
      var counted := if KindOf(path).ParamKind? then r.(counts := r.counts + {CountOf(path)}) else r;
      if Taken(r.routes, path) then (counted, Duplicate)
      else (counted.(routes := r.routes + [RouteEntry(path, handlers)]), Added)
  }

  function Without(routes: seq<RouteEntry>, path: string): (others: seq<RouteEntry>)
    ensures forall e :: e in others <==> e in routes && !Collides(e.path, path)
  {
    if routes == [] then []
    else
      assert forall e :: e in routes <==> e == routes[0] || e in routes[1..];
      (if Collides(routes[0].path, path) then [] else [routes[0]]) + Without(routes[1..], path)
  }

  /** The route that a removal names: same kind and shape, no empty segments, and for a catch-all
      route the same catch-all name. Parameter names do not matter. */
  predicate Names(path: string, e: RouteEntry) {
    var segs, own := SplitPathSegments(path), SplitPathSegments(e.path);
    && Collides(e.path, path)
    && (!KindOf(path).StaticKind? ==> NoEmptySegments(segs))
    && (KindOf(path).WildKind? ==> WellPlaced(segs) && segs != [] && own != [] && segs[|segs| - 1] == own[|own| - 1])
  }

  ghost function UnregisterRoute(r: Registry, path: string): (Registry, RemoveOutcome) {
    if KindOf(path).ParamKind? && CountOf(path) !in r.counts then (r, NilTree)
    else if exists e :: e in r.routes && Names(path, e) then (r.(routes := Without(r.routes, path)), Removed)
    else (r, NotFound)
  }

  // ---- The linear scan --------------------------------------------------------------------

  predicate Eligible(e: RouteEntry, kind: Kind, path: string) {
    && KindOf(e.path) == kind
    && (kind.ParamKind? ==> CountOf(e.path) == CountOf(path))
    && Matches(ShapeOf(e.path), SplitPathSegments(path))
  }

  /** The eligible route that comes before all others, by running through the list once. */
  function ScanBest(routes: seq<RouteEntry>, kind: Kind, path: string): Option<RouteEntry> {
    if routes == [] then None
    else
      var rest := ScanBest(routes[1..], kind, path);
      if !Eligible(routes[0], kind, path) then rest
      else if rest.Some? && Before(ShapeOf(rest.value.path), ShapeOf(routes[0].path)) then rest
      else Some(routes[0])
  }

  function ScanStatic(routes: seq<RouteEntry>, path: string): Option<RouteEntry> {
    if routes == [] then None
    else if KindOf(routes[0].path).StaticKind? && routes[0].path == path then Some(routes[0])
    else ScanStatic(routes[1..], path)
  }

  /** Exact path first, then parameter routes of the same length, then catch-alls. */
  function Scan(routes: seq<RouteEntry>, path: string): Option<RouteEntry> {
    if ScanStatic(routes, path).Some? then ScanStatic(routes, path)
    else if ScanBest(routes, ParamKind, path).Some? then ScanBest(routes, ParamKind, path)
    else ScanBest(routes, WildKind, path)
  }

  ghost predicate IsScanBest(routes: seq<RouteEntry>, kind: Kind, path: string, e: RouteEntry) {
    && e in routes && Eligible(e, kind, path)
    && forall other :: other in routes && Eligible(other, kind, path) ==>
         ShapeOf(other.path) == ShapeOf(e.path) || Before(ShapeOf(e.path), ShapeOf(other.path))
  }

  lemma {:induction false} ScanBestMeaning(routes: seq<RouteEntry>, kind: Kind, path: string)
    ensures match ScanBest(routes, kind, path)
            case None => forall e :: e in routes ==> !Eligible(e, kind, path)
            case Some(e) => IsScanBest(routes, kind, path, e)
  {
    hide Before, Matches, KindOf, SplitPathSegments, Shape;
    if routes != [] {
      ScanBestMeaning(routes[1..], kind, path);
      var head, rest := routes[0], ScanBest(routes[1..], kind, path);
      assert forall e :: e in routes <==> e == head || e in routes[1..];
      if Eligible(head, kind, path) && rest.Some? {
        var segs := SplitPathSegments(path);
        if ShapeOf(head.path) != ShapeOf(rest.value.path) {
          MatchingAreOrdered(ShapeOf(head.path), ShapeOf(rest.value.path), segs);
        }
        forall other | other in routes && Eligible(other, kind, path)
          ensures ScanBest(routes, kind, path) == Some(head) ==>
                    ShapeOf(other.path) == ShapeOf(head.path) || Before(ShapeOf(head.path), ShapeOf(other.path))
        {
          if other != head && ShapeOf(other.path) != ShapeOf(rest.value.path)
             && Before(ShapeOf(head.path), ShapeOf(rest.value.path)) {
            BeforeIsTransitive(ShapeOf(head.path), ShapeOf(rest.value.path), ShapeOf(other.path));
          }
        }
      }
    }
  }

  lemma {:induction false} ScanStaticMeaning(routes: seq<RouteEntry>, path: string)
    ensures match ScanStatic(routes, path)
            case None => forall e :: e in routes && KindOf(e.path).StaticKind? ==> e.path != path
            case Some(e) => e in routes && KindOf(e.path).StaticKind? && e.path == path
  {
    if routes != [] {
      ScanStaticMeaning(routes[1..], path);
    }
  }

  // ---- Representation ---------------------------------------------------------------------

  ghost predicate Apart(routes: seq<RouteEntry>) {
    forall a: RouteEntry, b: RouteEntry :: a in routes && b in routes && Collides(a.path, b.path) ==> a == b
  }

  predicate InGroup(e: RouteEntry, kind: Kind, count: nat) {
    KindOf(e.path) == kind && (kind.ParamKind? ==> CountOf(e.path) == count)
  }

  /** The entries of a trie are the routes of one group, each at its own shape. */
  ghost predicate Stores(t: Trie, routes: seq<RouteEntry>, kind: Kind, count: nat) {
    && (forall e :: e in routes && InGroup(e, kind, count) ==>
          HasEntry(t, ShapeOf(e.path)) && t[ShapeOf(e.path)].entry == Some(e))
    && (forall p :: HasEntry(t, p) ==>
          var e := t[p].entry.value; e in routes && InGroup(e, kind, count) && ShapeOf(e.path) == p)
  }

  /** Each catch-all node is named by the route it holds. */
  ghost predicate NamedByRoute(t: Trie) {
    forall p: Position :: HasEntry(t, p) && p != [] && p[|p| - 1].CatchAll? ==>
      var own := SplitPathSegments(t[p].entry.value.path);
      own != [] && IsCatchAll(own[|own| - 1]) && t[p].paramName == own[|own| - 1][1..]
  }

  ghost predicate ExactAgrees(exact: map<string, RouteEntry>, routes: seq<RouteEntry>) {
    && (forall p :: p in exact ==> exact[p] in routes && exact[p].path == p && KindOf(p).StaticKind?)
    && (forall e :: e in routes && KindOf(e.path).StaticKind? ==> e.path in exact && exact[e.path] == e)
  }

  ghost predicate IndexAgrees(index: map<nat, Trie>, counts: set<nat>, routes: seq<RouteEntry>) {
    && index.Keys == counts
    && (forall e :: e in routes && KindOf(e.path).ParamKind? ==> CountOf(e.path) in counts)
    && (forall k :: k in index ==> Tidy(index[k]) && Stores(index[k], routes, ParamKind, k))
  }

  ghost predicate WildAgrees(wild: Trie, routes: seq<RouteEntry>) {
    Tidy(wild) && Stores(wild, routes, WildKind, 0) && NamedByRoute(wild)
  }

  ghost predicate AllValid(routes: seq<RouteEntry>) {
    forall e :: e in routes ==> ValidPath(e.path)
  }

  ghost predicate Represents(m: Matcher, r: Registry) {
    && Sound(m) && Apart(r.routes) && AllValid(r.routes)
    && ExactAgrees(m.exact, r.routes)
    && IndexAgrees(m.index, r.counts, r.routes)
    && WildAgrees(m.wild, r.routes)
  }

  lemma EmptyRepresents()
    ensures Represents(EMPTY_MATCHER, Registry([], {}))
  {
    assert forall p: Position, e :: |p + [e]| > 0;
  }

  // ---- Matching is scanning ---------------------------------------------------------------

  lemma TrieSearchIsScan(t: Trie, routes: seq<RouteEntry>, kind: Kind, path: string, params: Params)
    requires Tidy(t) && Stores(t, routes, kind, CountOf(path))
    ensures var f := SearchTrie(t, path, params);
            if f.position.Some? then EntryAt(t, [], f).Some? && ScanBest(routes, kind, path) == EntryAt(t, [], f)
            else ScanBest(routes, kind, path).None?
  {
    hide Before, Matches, KindOf, SplitPathSegments, Shape, ScanBest, FindAt;
    var segs := SplitPathSegments(path);
    var f := SearchTrie(t, path, params);
    FindIsBest(t, [], segs, params);
    ScanBestMeaning(routes, kind, path);
    assert forall q: Position :: [] + q == q;
    if f.position.Some? {
      var p := f.position.value;
      assert Candidate(t, [], p, segs);
      var found := t[p].entry.value;
      assert Eligible(found, kind, path);
      var best := ScanBest(routes, kind, path).value;
      assert Candidate(t, [], ShapeOf(best.path), segs);
      if ShapeOf(best.path) != p {
        MatchingAreOrdered(p, ShapeOf(best.path), segs);
      }
    } else {
      forall e | e in routes
        ensures !Eligible(e, kind, path)
      {
        assert !Candidate(t, [], ShapeOf(e.path), segs);
      }
    }
  }

  /** A match finds exactly the route that a linear scan of the registered routes finds. */
  lemma MatchIsScan(m: Matcher, r: Registry, path: string)
    requires Represents(m, r)
    ensures match Match(m, path)
            case None => Scan(r.routes, path).None?
            case Some(hit) => Scan(r.routes, path) == Some(hit.entry)
  {
    hide ScanBest, ScanStatic, SearchTrie, KindOf, CountOf, Stores;
    ScanStaticMeaning(r.routes, path);
    if path !in m.exact {
      var count := CountOf(path);
      if count in m.index {
        TrieSearchIsScan(m.index[count], r.routes, ParamKind, path, map[]);
      } else {
        ScanBestMeaning(r.routes, ParamKind, path);
      }
      StoresAnyCount(m.wild, r.routes, 0, count);
      TrieSearchIsScan(m.wild, r.routes, WildKind, path, map[]);
    }
  }

  lemma StoresAnyCount(t: Trie, routes: seq<RouteEntry>, a: nat, b: nat)
    requires Stores(t, routes, WildKind, a)
    ensures Stores(t, routes, WildKind, b)
  {
  }

  /** So the outcome depends on which routes survive, not on the order of their registration. */
  lemma OrderDoesNotMatter(routes: seq<RouteEntry>, others: seq<RouteEntry>, path: string)
    requires Apart(routes) && forall e :: e in routes <==> e in others
    ensures Scan(routes, path) == Scan(others, path)
  {
    hide ScanBest, ScanStatic, KindOf, CountOf, ShapeOf, Before, Matches;
    ScanStaticMeaning(routes, path);
    ScanStaticMeaning(others, path);
    if ScanStatic(routes, path).Some? && ScanStatic(others, path).Some? {
      SameStatic(ScanStatic(routes, path).value, ScanStatic(others, path).value);
    }
    ScanBestUnique(routes, others, ParamKind, path);
    ScanBestUnique(routes, others, WildKind, path);
  }

  lemma SameStatic(a: RouteEntry, b: RouteEntry)
    requires KindOf(a.path).StaticKind? && a.path == b.path
    ensures Collides(a.path, b.path)
  {
  }

  lemma ScanBestUnique(routes: seq<RouteEntry>, others: seq<RouteEntry>, kind: Kind, path: string)
    requires Apart(routes) && (forall e :: e in routes <==> e in others) && !kind.StaticKind?
    ensures ScanBest(routes, kind, path) == ScanBest(others, kind, path)
  {
    hide ScanBest, KindOf, CountOf, ShapeOf, Before, Matches;
    ScanBestMeaning(routes, kind, path);
    ScanBestMeaning(others, kind, path);
    if ScanBest(routes, kind, path).Some? && ScanBest(others, kind, path).Some? {
      var a, b := ScanBest(routes, kind, path).value, ScanBest(others, kind, path).value;
      if ShapeOf(a.path) != ShapeOf(b.path) {
        MatchingAreOrdered(ShapeOf(a.path), ShapeOf(b.path), SplitPathSegments(path));
      }
      assert Collides(a.path, b.path);
    }
  }
}
