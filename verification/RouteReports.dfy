/** Exactly what a match reports, after any history: the tree's names bound to the parts of the request, less
    those lost; and exactly when that is what the route found calls its parameters. */
module RouteReports {
  import opened Wrappers
  import opened RoutePaths
  import opened RouteTrie
  import opened RouteTrieLaws
  import opened RouteTree
  import opened RouteRegistry
  import opened RouteHistory
  import opened RouteParams
  import opened RouteBindings

  /** The tree in which a match looks for a route. */
  function Consulted(m: Matcher, e: RouteEntry, path: string): Trie {
    if KindOf(e.path).ParamKind? then TreeFor(m, CountOf(path)) else m.wild
  }

  // ---- Names and values -------------------------------------------------------------------

  /** The value that a name stands for where it is used last. */
  function LastValue(names: seq<string>, values: seq<string>, n: string): (v: Option<string>)
    requires |names| == |values|
    ensures v.Some? <==> n in names
  {
    if names == [] then None
    else
      var later := LastValue(names[1..], values[1..], n);
      assert n in names <==> n == names[0] || n in names[1..];
      if later.Some? then later else if names[0] == n then Some(values[0]) else None
  }

  lemma {:induction false} AssignsLast(params: Params, names: seq<string>, values: seq<string>, n: string)
    requires |names| == |values|
    ensures var all, last := Assign(params, names, values), LastValue(names, values, n);
            && (n in all <==> n in params || last.Some?)
            && (n in all ==> all[n] == if last.Some? then last.value else params[n])
    decreases |names|
  {
    if names != [] {
      AssignsLast(params[names[0] := values[0]], names[1..], values[1..], n);
    }
  }

  /** Names used once stand for the value at their place. */
  lemma {:induction false} DistinctLast(names: seq<string>, values: seq<string>, i: nat)
    requires |names| == |values| && Distinct(names) && i < |names|
    ensures LastValue(names, values, names[i]) == Some(values[i])
    decreases |names|
  {
    var rest := names[1..];
    assert Distinct(rest) by {
      assert forall k :: 0 <= k < |rest| ==> rest[k] == names[k + 1];
    }
    if i > 0 {
      assert rest[i - 1] == names[i];
      DistinctLast(rest, values[1..], i - 1);
    } else {
      assert names[0] !in rest;
    }
  }

  lemma {:induction false} LastPlace(names: seq<string>, values: seq<string>, n: string) returns (i: nat)
    requires |names| == |values| && n in names
    ensures i < |names| && names[i] == n && LastValue(names, values, n) == Some(values[i])
    decreases |names|
  {
    if n in names[1..] {
      var j := LastPlace(names[1..], values[1..], n);
      i := j + 1;
    } else {
      i := 0;
    }
  }

  // ---- One tree ---------------------------------------------------------------------------

  /** What a match on a pattern of a tree reports for a request. */
  function Reported(t: Trie, pattern: seq<string>, request: seq<string>): Params
    requires Matches(Shape(pattern), request)
  {
    Assign(map[], TreeNames(t, [], pattern), Values(pattern, request)) - Lost(t, [], Shape(pattern), request)
  }

  /** The tree has each of the route's names, stands it for the same value, and does not lose it; and it loses
      every other name on the way. */
  predicate NamesKept(t: Trie, pattern: seq<string>, request: seq<string>)
    requires Matches(Shape(pattern), request)
  {
    var own, tree := OwnNames(pattern), TreeNames(t, [], pattern);
    var values, lost := Values(pattern, request), Lost(t, [], Shape(pattern), request);
    && (forall n :: n in own ==> n !in lost && LastValue(tree, values, n) == LastValue(own, values, n))
    && (forall n :: n in tree && n !in own ==> n in lost)
  }

  /** A route's own parameters are reported exactly when the tree keeps its names. */
  lemma OwnReportedExactly(t: Trie, pattern: seq<string>, request: seq<string>)
    requires Matches(Shape(pattern), request)
    ensures Reported(t, pattern, request) == OwnParams(pattern, request) <==> NamesKept(t, pattern, request)
  {
    hide Assign, LastValue, Matches, Lost, Values, OwnNames, TreeNames;
    var own, tree := OwnNames(pattern), TreeNames(t, [], pattern);
    var values, lost := Values(pattern, request), Lost(t, [], Shape(pattern), request);
    var ours, theirs := OwnParams(pattern, request), Assign(map[], tree, values);
    forall n
      ensures n in ours <==> n in own
      ensures n in ours ==> Some(ours[n]) == LastValue(own, values, n)
      ensures n in theirs <==> n in tree
      ensures n in theirs ==> Some(theirs[n]) == LastValue(tree, values, n)
    {
      AssignsLast(map[], own, values, n);
      AssignsLast(map[], tree, values, n);
    }
    SameBindings(theirs - lost, ours);
  }

  lemma SameBindings(a: Params, b: Params)
    ensures a == b <==> (forall n :: (n in a <==> n in b) && (n in a && n in b ==> a[n] == b[n]))
  {
    if forall n :: (n in a <==> n in b) && (n in a && n in b ==> a[n] == b[n]) {
      assert a.Keys == b.Keys;
    }
  }

  /** For a route that uses each name once, and a request that has another value for each parameter: exactly
      when the tree names the route's positions as the route does and none of the names is lost. */
  lemma NamesKeptExactly(t: Trie, pattern: seq<string>, request: seq<string>)
    requires Matches(Shape(pattern), request)
    requires Distinct(OwnNames(pattern)) && Distinct(Values(pattern, request))
    ensures NamesKept(t, pattern, request)
            <==> TreeNames(t, [], pattern) == OwnNames(pattern)
                 && forall n :: n in OwnNames(pattern) ==> n !in Lost(t, [], Shape(pattern), request)
  {
    hide LastValue, Matches, Lost, Values, OwnNames, TreeNames, Distinct;
    var own, tree, values := OwnNames(pattern), TreeNames(t, [], pattern), Values(pattern, request);
    if NamesKept(t, pattern, request) {
      forall i | 0 <= i < |own|
        ensures tree[i] == own[i]
      {
        DistinctLast(own, values, i);
        assert own[i] in own && LastValue(tree, values, own[i]) == Some(values[i]);
        var j := LastPlace(tree, values, own[i]);
        OnlyPlace(values, i, j);
      }
      assert tree == own;
    }
  }

  lemma OnlyPlace(values: seq<string>, i: nat, j: nat)
    requires Distinct(values) && i < |values| && j < |values| && values[i] == values[j]
    ensures i == j
  {
  }

  /** What a search finds, it reports like this. */
  lemma SearchReportsNames(t: Trie, pattern: seq<string>, request: seq<string>)
    requires PrefixClosed(t) && [] in t && FindAt(t, [], request, map[]).position == Some(Shape(pattern))
    ensures Matches(Shape(pattern), request)
    ensures FindAt(t, [], request, map[]).params == Reported(t, pattern, request)
  {
    hide FindAt, PrefixClosed, Candidate, PrefixClosedBelow, Bind, Lost, Assign, Values, TreeNames;
    SearchReports(t, [], request, map[]);
    BindAssigns(t, [], pattern, request, map[]);
  }

  // ---- A matcher, and any history ---------------------------------------------------------

  /** The tree consulted finds the route that the scan finds. */
  lemma FoundInTree(m: Matcher, r: Registry, path: string, e: RouteEntry)
    requires Represents(m, r) && Scan(r.routes, path) == Some(e) && !KindOf(e.path).StaticKind?
    ensures var t := Consulted(m, e, path);
            && [] in t && PrefixClosed(t)
            && FindAt(t, [], SplitPathSegments(path), map[]).position == Some(ShapeOf(e.path))
            && Match(m, path) == Some(Hit(e, FindAt(t, [], SplitPathSegments(path), map[]).params))
  {
    hide Scan, FindAt, KindOf, SplitPathSegments, Stores, Tidy, ValidPath, ShapeOf, NamedByRoute;
    MatchIsScan(m, r, path);
    var segs, count := SplitPathSegments(path), CountOf(path);
    TidyIsRooted(m.wild);
    if count in m.index {
      TidyIsRooted(m.index[count]);
      FoundIsStored(m.index[count], r.routes, ParamKind, count, segs);
    }
    FoundIsStored(m.wild, r.routes, WildKind, 0, segs);
  }

  lemma FoundIsStored(t: Trie, routes: seq<RouteEntry>, kind: Kind, count: nat, segs: seq<string>)
    requires Tidy(t) && [] in t && Stores(t, routes, kind, count)
    ensures var f := FindAt(t, [], segs, map[]);
            f.position.Some? ==>
              && EntryAt(t, [], f).Some? && KindOf(EntryAt(t, [], f).value.path) == kind
              && f.position == Some(ShapeOf(EntryAt(t, [], f).value.path))
  {
    hide FindAt, KindOf, Tidy, ShapeOf, Stores;
    FoundHasEntry(t, [], segs, map[]);
    var f := FindAt(t, [], segs, map[]);
    if f.position.Some? {
      assert [] + f.position.value == f.position.value;
      var e := StoredAt(t, routes, kind, count, f.position.value);
    }
  }

  /** What a match of a represented registry reports, and exactly when it is the route's own parameters. */
  lemma MatchReports(m: Matcher, r: Registry, path: string, e: RouteEntry)
    requires Represents(m, r) && Scan(r.routes, path) == Some(e) && !KindOf(e.path).StaticKind?
    ensures var pattern, request, t := SplitPathSegments(e.path), SplitPathSegments(path), Consulted(m, e, path);
            && Matches(ShapeOf(e.path), request)
            && Match(m, path) == Some(Hit(e, Reported(t, pattern, request)))
            && (Match(m, path) == Some(Hit(e, ParametersOf(e.path, path))) <==> NamesKept(t, pattern, request))
  {
    hide Scan, FindAt, KindOf, SplitPathSegments, Match, Represents, PrefixClosed, NamesKept, Reported, OwnParams, Matches;
    var pattern, request, t := SplitPathSegments(e.path), SplitPathSegments(path), Consulted(m, e, path);
    FoundInTree(m, r, path, e);
    SearchReportsNames(t, pattern, request);
    OwnReportedExactly(t, pattern, request);
  }

  lemma StaticReportsNothing(m: Matcher, r: Registry, path: string, e: RouteEntry)
    requires Represents(m, r) && Scan(r.routes, path) == Some(e) && KindOf(e.path).StaticKind?
    ensures Match(m, path) == Some(Hit(e, map[]))
  {
    hide ScanBest, SearchTrie, KindOf, CountOf, Stores, Tidy, NamedByRoute, Shape;
    MatchIsScan(m, r, path);
    ScanStaticMeaning(r.routes, path);
    ScanBestMeaning(r.routes, ParamKind, path);
    ScanBestMeaning(r.routes, WildKind, path);
  }

  /** The router's promise in full. After any history from an empty matcher, a match finds what the linear scan
      of the survivors finds; it reports the names that the tree consulted has on the route's way, bound to the
      parts of the request, less those lost; and that is what the route calls its parameters exactly when
      the tree keeps its names. */
  lemma LookupReportsExactly(ms: seq<Matcher>, ops: seq<RouteOp>, os: seq<Outcome>, path: string)
    requires IsRun(ms, ops, os) && ms[0] == EMPTY_MATCHER
    ensures Sound(ms[|ops|])
    ensures var m := ms[|ops|];
            match Scan(RegistryRun(Registry([], {}), ops).0.routes, path)
            case None => Match(m, path) == None
            case Some(e) =>
              if KindOf(e.path).StaticKind? then Match(m, path) == Some(Hit(e, map[]))
              else
                var pattern, request, t := SplitPathSegments(e.path), SplitPathSegments(path), Consulted(m, e, path);
                && Matches(ShapeOf(e.path), request)
                && Match(m, path) == Some(Hit(e, Reported(t, pattern, request)))
                && (Match(m, path) == Some(Hit(e, ParametersOf(e.path, path))) <==> NamesKept(t, pattern, request))
  {
    hide Scan, Match, RegistryRun, IsRun, KindOf, NamesKept, Reported, ParametersOf, SplitPathSegments, Consulted, Matches;
    EmptyRepresents();
    RunLength(ms, ops, os);
    var r := RegistryRun(Registry([], {}), ops).0;
    HistoryIsRegistry(ms, ops, os, Registry([], {}));
    MatchIsScan(ms[|ops|], r, path);
    if Scan(r.routes, path).Some? {
      var e := Scan(r.routes, path).value;
      if KindOf(e.path).StaticKind? {
        StaticReportsNothing(ms[|ops|], r, path, e);
      } else {
        MatchReports(ms[|ops|], r, path, e);
      }
    }
  }
}
