/** The parameters of a match at the level of histories: routes that agree on names get their own, and what
    happens to two routes that do not, or to a name used twice. */
module RouteBindings {
  import opened Wrappers
  import opened RoutePaths
  import opened RouteTrie
  import opened RouteTrieLaws
  import opened RouteTree
  import opened RouteRegistry
  import opened RouteHistory
  import opened RouteParams

  // ---- One naming for each tree -----------------------------------------------------------

  /** Parameter routes have a tree for each segment count; catch-all routes share one. */
  type Namings = (Kind, nat) -> Naming

  function TreeOf(path: string): nat {
    if KindOf(path).ParamKind? then CountOf(path) else 0
  }

  /** A route names its parameters as is agreed for its tree. */
  predicate Agrees(path: string, namings: Namings) {
    KindOf(path).StaticKind? || Follows(SplitPathSegments(path), [], namings(KindOf(path), TreeOf(path)))
  }

  ghost predicate Named(m: Matcher, namings: Namings) {
    && NamedBy(m.wild, namings(WildKind, 0))
    && forall k :: k in m.index ==> NamedBy(m.index[k], namings(ParamKind, k))
  }

  ghost predicate AllAgree(routes: seq<RouteEntry>, namings: Namings) {
    forall e :: e in routes ==> Agrees(e.path, namings)
  }

  lemma EmptyIsNamed(naming: Naming)
    ensures NamedBy(EMPTY_TRIE, naming)
  {
    assert forall p: Position, e :: |p + [e]| > 0;
  }

  lemma AddKeepsNames(m: Matcher, path: string, handlers: Handlers, namings: Namings)
    requires Sound(m) && Named(m, namings) && (ValidPath(path) ==> Agrees(path, namings))
    ensures Named(AddRoute(m, path, handlers).0, namings)
  {
    hide NamedBy, InsertAt, ValidPath, KindOf, SplitPathSegments, Follows;
    if ValidPath(path) && !KindOf(path).StaticKind? {
      var kind, count, segs := KindOf(path), TreeOf(path), SplitPathSegments(path);
      var t := if kind.WildKind? then m.wild else TreeFor(m, |segs|);
      EmptyIsNamed(namings(kind, count));
      InsertKeepsNaming(t, [], segs, RouteEntry(path, handlers), namings(kind, count));
    }
  }

  lemma RemoveKeepsNames(m: Matcher, path: string, namings: Namings)
    requires Sound(m) && Named(m, namings)
    ensures Named(RemoveRoute(m, path).0, namings)
  {
    hide NamedBy, RemoveAt, KindOf, SplitPathSegments;
    var segs := SplitPathSegments(path);
    RemoveKeepsNaming(m.wild, segs, namings(WildKind, 0));
    if |segs| in m.index {
      RemoveKeepsNaming(m.index[|segs|], segs, namings(ParamKind, |segs|));
    }
  }

  /** Every route that a history adds names its parameters as is agreed. */
  predicate OpsAgree(ops: seq<RouteOp>, namings: Namings) {
    forall i :: 0 <= i < |ops| && ops[i].AddOp? && ValidPath(ops[i].path) ==> Agrees(ops[i].path, namings)
  }

  lemma {:induction false} RunKeepsNames(ms: seq<Matcher>, ops: seq<RouteOp>, os: seq<Outcome>, namings: Namings)
    requires IsRun(ms, ops, os) && Named(ms[0], namings) && OpsAgree(ops, namings)
    ensures Named(ms[|ops|], namings)
    decreases |ops|
  {
    hide Named, Sound, ValidPath, Agrees, AddRoute, RemoveRoute;
    if ops != [] {
      assert Sound(ms[0]) && (ms[1], os[0]) == Step(ms[0], ops[0]);
      match ops[0] {
        case AddOp(path, handlers) => AddKeepsNames(ms[0], path, handlers, namings);
        case RemoveOp(path) => RemoveKeepsNames(ms[0], path, namings);
      }
      RestIsRun(ms, ops, os);
      assert forall i :: 0 <= i < |ops[1..]| ==> ops[1..][i] == ops[i + 1];
      RunKeepsNames(ms[1..], ops[1..], os[1..], namings);
    }
  }

  lemma {:induction false} SurvivorsAgree(r: Registry, ops: seq<RouteOp>, namings: Namings)
    requires AllAgree(r.routes, namings) && OpsAgree(ops, namings)
    ensures AllAgree(RegistryRun(r, ops).0.routes, namings)
    decreases |ops|
  {
    hide Agrees, ValidPath, KindOf, CountOf, Names, Collides;
    if ops != [] {
      assert forall i :: 0 <= i < |ops[1..]| ==> ops[1..][i] == ops[i + 1];
      SurvivorsAgree(RegistryStep(r, ops[0]).0, ops[1..], namings);
    }
  }

  // ---- Names distinct along the tree ------------------------------------------------------

  lemma {:induction false} LongestPosition(t: Trie) returns (n: nat)
    ensures forall q :: q in t ==> |q| <= n
    decreases |t|
  {
    if t == map[] {
      n := 0;
    } else {
      var p :| p in t;
      assert |t - {p}| < |t| by { assert (t - {p}).Keys == t.Keys - {p}; }
      n := LongestPosition(t - {p});
      n := if n < |p| then |p| else n;
      assert forall q :: q in t && q != p ==> q in t - {p};
    }
  }

  /** In a tree without dead nodes every node leads to a route. */
  lemma {:induction false} LeadsToRoute(t: Trie, p: Position, longest: nat) returns (r: Position)
    requires Tidy(t) && p in t && p != [] && forall q :: q in t ==> |q| <= longest
    ensures HasEntry(t, p + r)
    decreases longest - |p|
  {
    if t[p].entry.Some? {
      r := [];
      assert p + r == p;
    } else {
      var e :| p + [e] in t;
      var s := LeadsToRoute(t, p + [e], longest);
      r := [e] + s;
      assert p + r == (p + [e]) + s;
    }
  }

  /** The non-static routes each use distinct names. */
  predicate OwnNamesDistinct(path: string) {
    KindOf(path).StaticKind? || Distinct(OwnNames(SplitPathSegments(path)))
  }

  lemma TreeIsDistinct(t: Trie, routes: seq<RouteEntry>, kind: Kind, count: nat, naming: Naming)
    requires Tidy(t) && Stores(t, routes, kind, count) && NamedBy(t, naming)
    requires forall e :: e in routes && InGroup(e, kind, count) ==>
               && ValidPath(e.path) && Follows(SplitPathSegments(e.path), [], naming)
               && Distinct(OwnNames(SplitPathSegments(e.path)))
    ensures DistinctNames(t)
  {
    hide Tidy, Stores, ValidPath, Follows, Distinct, OwnNames, KindOf, CountOf, SplitPathSegments, Shape, NamedBy;
    var longest := LongestPosition(t);
    forall p, e, q, f | !Lit?(e) && !Lit?(f) && p + [e] in t && (p + [e]) + (q + [f]) in t
      ensures t[p + [e]].paramName != t[(p + [e]) + (q + [f])].paramName
    {
      var n := (p + [e]) + (q + [f]);
      var r := LeadsToRoute(t, n, longest);
      var entry := StoredAt(t, routes, kind, count, n + r);
      var pattern := SplitPathSegments(entry.path);
      ValidIsWellPlaced(entry.path);
      ShapeOfWellPlaced(pattern);
      NamesDiffer(pattern, [], naming, p, e, q, f, r);
      assert [] + (p + [e]) == p + [e];
      assert n == ((p + [e]) + q) + [f];
      NameIn(t, naming, p, e);
      NameIn(t, naming, (p + [e]) + q, f);
    }
  }

  lemma NameIn(t: Trie, naming: Naming, p: Position, e: Edge)
    requires NamedBy(t, naming) && !Lit?(e) && p + [e] in t
    ensures t[p + [e]].paramName == naming(p + [e])
  {
  }

  lemma StoredAt(t: Trie, routes: seq<RouteEntry>, kind: Kind, count: nat, p: Position) returns (e: RouteEntry)
    requires Stores(t, routes, kind, count) && HasEntry(t, p)
    ensures e in routes && InGroup(e, kind, count) && ShapeOf(e.path) == p && t[p].entry == Some(e)
  {
    e := t[p].entry.value;
  }

  // ---- Parameters over histories ----------------------------------------------------------

  /** The parameters of a route for a request, by its own names. */
  function ParametersOf(route: string, path: string): Params {
    if KindOf(route).StaticKind? || !Matches(ShapeOf(route), SplitPathSegments(path)) then map[]
    else OwnParams(SplitPathSegments(route), SplitPathSegments(path))
  }

  lemma SearchReportsOwn(t: Trie, routes: seq<RouteEntry>, kind: Kind, path: string, naming: Naming)
    requires Tidy(t) && Stores(t, routes, kind, CountOf(path)) && NamedBy(t, naming) && !kind.StaticKind?
    requires forall e :: e in routes && InGroup(e, kind, CountOf(path)) ==>
               && ValidPath(e.path) && Follows(SplitPathSegments(e.path), [], naming)
               && Distinct(OwnNames(SplitPathSegments(e.path)))
    ensures var f := SearchTrie(t, path, map[]);
            f.position.Some? ==> EntryAt(t, [], f).Some? && f.params == ParametersOf(EntryAt(t, [], f).value.path, path)
  {
    hide Tidy, Stores, ValidPath, Follows, Distinct, OwnNames, KindOf, SplitPathSegments, NamedBy, FindAt, Bind,
      DistinctNames, PrefixClosedBelow, Candidate;
    var segs := SplitPathSegments(path);
    TidyIsRooted(t);
    var f := FindAt(t, [], segs, map[]);
    TreeIsDistinct(t, routes, kind, CountOf(path), naming);
    NothingBound(t);
    FindBindsRoute(t, [], segs, map[]);
    if f.position.Some? {
      var q := f.position.value;
      CandidateHasEntry(t, q, segs);
      var e := StoredAt(t, routes, kind, CountOf(path), q);
      var pattern := SplitPathSegments(e.path);
      BindAssigns(t, [], pattern, segs, map[]);
      NamesAgree(t, [], pattern, naming);
      assert [] + q == q;
    }
  }

  lemma TidyIsRooted(t: Trie)
    requires Tidy(t)
    ensures PrefixClosed(t) && [] in t
  {
  }

  lemma NothingBound(t: Trie)
    ensures Unbound(t, [], map[])
  {
  }

  lemma CandidateHasEntry(t: Trie, q: Position, segs: seq<string>)
    requires Candidate(t, [], q, segs)
    ensures HasEntry(t, q)
  {
    assert [] + q == q;
  }

  /** A match of a matcher that represents a registry reports the parameters of the route that the scan
      finds, by its own names. */
  lemma MatchReportsOwn(m: Matcher, r: Registry, path: string, namings: Namings)
    requires Represents(m, r) && Named(m, namings) && AllAgree(r.routes, namings)
    requires forall e :: e in r.routes ==> OwnNamesDistinct(e.path)
    ensures Match(m, path) == match Scan(r.routes, path)
                              case None => None
                              case Some(e) => Some(Hit(e, ParametersOf(e.path, path)))
  {
    hide Scan, ScanBest, ScanStatic, SearchTrie, KindOf, CountOf, Stores, OwnNames, Distinct, Follows, Tidy, NamedBy,
      ValidPath, SplitPathSegments, ParametersOf;
    MatchIsScan(m, r, path);
    var count := CountOf(path);
    if path in m.exact {
      StaticHasNone(m.exact[path], path);
    } else {
      if count in m.index {
        SearchReportsOwn(m.index[count], r.routes, ParamKind, path, namings(ParamKind, count));
      }
      StoresAnyCount(m.wild, r.routes, 0, count);
      SearchReportsOwn(m.wild, r.routes, WildKind, path, namings(WildKind, 0));
    }
  }

  lemma StaticHasNone(e: RouteEntry, path: string)
    requires KindOf(e.path).StaticKind?
    ensures ParametersOf(e.path, path) == map[]
  {
  }

  /** The router's promise, parameters included: after any history from an empty matcher whose routes, in each
      tree, agree on the name of every position, and whose survivors each use distinct names, a match is
      the linear scan of the survivors and reports exactly the parameters of the route found, under the
      names that route was registered with. */
  lemma LookupReportsOwnParameters(ms: seq<Matcher>, ops: seq<RouteOp>, os: seq<Outcome>, path: string, namings: Namings)
    requires IsRun(ms, ops, os) && ms[0] == EMPTY_MATCHER && OpsAgree(ops, namings)
    requires forall e :: e in RegistryRun(Registry([], {}), ops).0.routes ==> OwnNamesDistinct(e.path)
    ensures Sound(ms[|ops|])
    ensures Match(ms[|ops|], path) == match Scan(RegistryRun(Registry([], {}), ops).0.routes, path)
                                      case None => None
                                      case Some(e) => Some(Hit(e, ParametersOf(e.path, path)))
  {
    hide Scan, Match, RegistryRun, IsRun, OpsAgree, OwnNamesDistinct, ParametersOf;
    EmptyRepresents();
    RunLength(ms, ops, os);
    HistoryIsRegistry(ms, ops, os, Registry([], {}));
    EmptyIsNamed(namings(WildKind, 0));
    RunKeepsNames(ms, ops, os, namings);
    SurvivorsAgree(Registry([], {}), ops, namings);
    MatchReportsOwn(ms[|ops|], RegistryRun(Registry([], {}), ops).0, path, namings);
  }

  // ---- A name used twice, and a name given second -----------------------------------------

  /** No piece has a slash in it. */
  ghost predicate Plain(segs: seq<string>) {
    forall i :: 0 <= i < |segs| ==> '/' !in segs[i]
  }

  lemma {:induction false} SplitJoin(segs: seq<string>)
    requires segs != [] && Plain(segs)
    ensures Split(Join(segs)) == segs
  {
    var head, rest := segs[0], segs[1..];
    assert '/' !in head && Plain(rest);
    hide Split, Join, IndexOf, Plain;
    JoinStep(segs);
    SplitStep(Join(segs));
    if rest == [] {
      assert segs == [head];
    } else {
      FirstSlash(head, Join(rest));
      SplitJoin(rest);
      assert segs == [head] + rest;
    }
  }

  lemma JoinStep(segs: seq<string>)
    requires segs != []
    ensures Join(segs) == if |segs| == 1 then segs[0] else segs[0] + "/" + Join(segs[1..])
  {
  }

  lemma FirstSlash(head: string, tail: string)
    requires '/' !in head
    ensures var s := head + "/" + tail;
            '/' in s && IndexOf(s) == |head| && s[..|head|] == head && s[|head| + 1..] == tail
  {
    hide IndexOf;
    var s := head + "/" + tail;
    assert s[|head|] == '/';
    assert forall k :: 0 <= k < |head| ==> s[k] == head[k];
  }

  lemma {:induction false} JoinEnds(segs: seq<string>)
    requires segs != [] && segs[0] != "" && segs[|segs| - 1] != ""
    ensures Join(segs) != "" && Join(segs)[0] == segs[0][0]
    ensures var last := segs[|segs| - 1]; Join(segs)[|Join(segs)| - 1] == last[|last| - 1]
    decreases |segs|
  {
    if |segs| > 1 {
      var rest := segs[1..];
      if rest[0] != "" {
        JoinEnds(rest);
      } else {
        JoinLast(rest);
      }
    }
  }

  lemma {:induction false} JoinLast(segs: seq<string>)
    requires segs != [] && segs[|segs| - 1] != ""
    ensures Join(segs) != ""
    ensures var last := segs[|segs| - 1]; Join(segs)[|Join(segs)| - 1] == last[|last| - 1]
  {
    if |segs| > 1 {
      JoinLast(segs[1..]);
    }
  }

  /** The segments of a path spelled from segments. */
  lemma SegmentsOf(segs: seq<string>)
    requires segs != [] && segs[0] != "" && segs[|segs| - 1] != "" && forall i :: 0 <= i < |segs| ==> '/' !in segs[i]
    ensures SplitPathSegments("/" + Join(segs)) == segs
  {
    hide Trim, Join;
    var path := "/" + Join(segs);
    JoinEnds(segs);
    TrimIs(path, 1, |path|);
    assert path[1..|path|] == Join(segs);
    SplitJoin(segs);
  }

  /** A request of two segments or more, one of whose routes is looked for below a literal first, in vain. */
  lemma LitThenParam(t: Trie, p: Position, segs: seq<string>, params: Params)
    requires p in t && segs != [] && segs[0] != "" && p + [Param] in t
    requires FindLit(t, p, segs, params).position.None?
    requires FindParam(t, p, segs, FindLit(t, p, segs, params).params).position.Some?
    ensures FindAt(t, p, segs, params) == FindParam(t, p, segs, FindLit(t, p, segs, params).params)
  {
  }

  const TWICE := "/:a/x/:a/y"
  const ONCE := "/:a/:b/:c/d"
  const TWICE_SEGMENTS := [":a", "x", ":a", "y"]
  const ONCE_SEGMENTS := [":a", ":b", ":c", "d"]

  lemma FourSegments(a: string, b: string, c: string, d: string)
    ensures "/" + Join([a, b, c, d]) == "/" + a + "/" + b + "/" + c + "/" + d
  {
    assert [a, b, c, d][1..] == [b, c, d] && [b, c, d][1..] == [c, d] && [c, d][1..] == [d];
    assert Join([c, d]) == c + "/" + d;
    assert Join([b, c, d]) == b + "/" + (c + "/" + d);
  }

  lemma TwiceIsValid()
    ensures ValidPath(TWICE)
  {
    var path := TWICE;
    assert path[3] == path[8] == '/' && path[2] == path[7] == 'a';
    forall i | 0 <= i < |path|
      ensures ByteValid(path, i)
    {
      if i == 1 || i == 6 {
        assert path[i] == ':' && !NoSlash(path, i + 1, i + 3) && path[i + 2] == '/';
      } else {
        assert path[i] in "/axy";
      }
    }
  }

  lemma OnceIsValid()
    ensures ValidPath(ONCE)
  {
    var path := ONCE;
    assert path[3] == path[6] == path[9] == '/' && path[2] == 'a' && path[5] == 'b' && path[8] == 'c';
    forall i | 0 <= i < |path|
      ensures ByteValid(path, i)
    {
      if i == 1 || i == 4 || i == 7 {
        assert path[i] == ':' && !NoSlash(path, i + 1, i + 3) && path[i + 2] == '/';
      } else {
        assert path[i] in "/abcd";
      }
    }
  }

  lemma TwiceAndOnce()
    ensures SplitPathSegments(TWICE) == TWICE_SEGMENTS && SplitPathSegments(ONCE) == ONCE_SEGMENTS
    ensures SplitPathSegments("/1/x/2/d") == ["1", "x", "2", "d"]
    ensures ValidPath(TWICE) && ValidPath(ONCE)
    ensures KindOf(TWICE) == KindOf(ONCE) == ParamKind
  {
    hide SplitPathSegments, ValidPath, Join;
    TwiceIsValid();
    OnceIsValid();
    FourSegments(":a", "x", ":a", "y");
    FourSegments(":a", ":b", ":c", "d");
    FourSegments("1", "x", "2", "d");
    assert TWICE == "/" + ":a" + "/" + "x" + "/" + ":a" + "/" + "y";
    assert ONCE == "/" + ":a" + "/" + ":b" + "/" + ":c" + "/" + "d";
    assert "/1/x/2/d" == "/" + "1" + "/" + "x" + "/" + "2" + "/" + "d";
    SegmentsOf(TWICE_SEGMENTS);
    SegmentsOf(ONCE_SEGMENTS);
    SegmentsOf(["1", "x", "2", "d"]);
    assert IsParam(TWICE_SEGMENTS[0]) && IsParam(ONCE_SEGMENTS[0]);
  }

  const FIRST_ENTRY := RouteEntry(TWICE, [1])
  const SECOND_ENTRY := RouteEntry(ONCE, [2])

  const T1 := EMPTY_TRIE[[Param] := Slot("a", None)]
  const T2 := T1[[Param, Lit("x")] := Slot("", None)]
  const T3 := T2[[Param, Lit("x"), Param] := Slot("a", None)]
  const T4 := T3[[Param, Lit("x"), Param, Lit("y")] := Slot("", None)]

  /** The tree after the first addition. */
  const FIRST_ONLY := T4[[Param, Lit("x"), Param, Lit("y")] := Slot("", Some(FIRST_ENTRY))]

  const T5 := FIRST_ONLY[[Param, Param] := Slot("b", None)]
  const T6 := T5[[Param, Param, Param] := Slot("c", None)]
  const T7 := T6[[Param, Param, Param, Lit("d")] := Slot("", None)]

  /** And after both. */
  const BOTH := T7[[Param, Param, Param, Lit("d")] := Slot("", Some(SECOND_ENTRY))]

  /** A step of insertion that makes a child, and one that finds it. */
  lemma StepDown(t: Trie, p: Position, segs: seq<string>, entry: RouteEntry, child: Position, rest: seq<string>)
    requires p in t && segs != [] && segs == [segs[0]] + rest && segs[0] != "" && !EdgeOf(segs[0]).CatchAll?
    requires child == p + [EdgeOf(segs[0])]
    ensures var t1 := if child in t then t else t[child := Slot(if EdgeOf(segs[0]).Lit? then "" else segs[0][1..], None)];
            InsertAt(t, p, segs, entry) == InsertAt(t1, child, rest, entry)
  {
    assert segs[1..] == rest;
  }

  lemma InsertHere(t: Trie, p: Position, entry: RouteEntry)
    requires p in t && t[p].entry.None?
    ensures InsertAt(t, p, [], entry) == (t[p := t[p].(entry := Some(entry))], true)
  {
  }

  lemma FirstAdded()
    ensures InsertAt(EMPTY_TRIE, [], TWICE_SEGMENTS, FIRST_ENTRY) == (FIRST_ONLY, true)
  {
    hide InsertAt;
    StepDown(EMPTY_TRIE, [], [":a", "x", ":a", "y"], FIRST_ENTRY, [Param], ["x", ":a", "y"]);
    StepDown(T1, [Param], ["x", ":a", "y"], FIRST_ENTRY, [Param, Lit("x")], [":a", "y"]);
    StepDown(T2, [Param, Lit("x")], [":a", "y"], FIRST_ENTRY, [Param, Lit("x"), Param], ["y"]);
    StepDown(T3, [Param, Lit("x"), Param], ["y"], FIRST_ENTRY, [Param, Lit("x"), Param, Lit("y")], []);
    InsertHere(T4, [Param, Lit("x"), Param, Lit("y")], FIRST_ENTRY);
  }

  lemma SecondAdded()
    ensures InsertAt(FIRST_ONLY, [], ONCE_SEGMENTS, SECOND_ENTRY) == (BOTH, true)
  {
    hide InsertAt;
    StepDown(FIRST_ONLY, [], [":a", ":b", ":c", "d"], SECOND_ENTRY, [Param], [":b", ":c", "d"]);
    StepDown(FIRST_ONLY, [Param], [":b", ":c", "d"], SECOND_ENTRY, [Param, Param], [":c", "d"]);
    StepDown(T5, [Param, Param], [":c", "d"], SECOND_ENTRY, [Param, Param, Param], ["d"]);
    StepDown(T6, [Param, Param, Param], ["d"], SECOND_ENTRY, [Param, Param, Param, Lit("d")], []);
    InsertHere(T7, [Param, Param, Param, Lit("d")], SECOND_ENTRY);
  }

  /** A node with nothing to go on to. */
  lemma DeadEnd(t: Trie, p: Position, s: string, params: Params)
    requires p in t && s != "" && p + [Lit(s)] !in t && p + [Param] !in t && p + [CatchAll] !in t
    ensures FindAt(t, p, [s], params) == Found(None, params)
  {
  }

  /** A node with only a parameter to go on to, in vain. */
  lemma ParamFails(t: Trie, p: Position, segs: seq<string>, params: Params)
    requires p in t && segs != [] && segs[0] != "" && p + [Lit(segs[0])] !in t && p + [CatchAll] !in t && p + [Param] in t
    requires FindAt(t, p + [Param], segs[1..], params[t[p + [Param]].paramName := segs[0]]).position.None?
    ensures var f := FindAt(t, p + [Param], segs[1..], params[t[p + [Param]].paramName := segs[0]]);
            FindAt(t, p, segs, params) == Found(None, f.params - {t[p + [Param]].paramName})
  {
  }

  /** The attempt at the first route fails and takes the outer binding with it. */
  lemma DeeperAttemptFails()
    ensures [Param, Lit("x")] in BOTH
    ensures FindAt(BOTH, [Param, Lit("x")], ["2", "d"], map["a" := "1"]) == Found(None, map[])
  {
    hide FindAt;
    var base: Position := [Param, Lit("x")];
    var inner := base + [Param];
    InnerDeadEnd();
    assert inner == [Param, Lit("x"), Param] && inner in BOTH && BOTH[inner].paramName == "a";
    assert base + [Lit("2")] == [Param, Lit("x"), Lit("2")] && base + [CatchAll] == [Param, Lit("x"), CatchAll];
    assert ["2", "d"][1..] == ["d"];
    assert map["a" := "1"]["a" := "2"] == map["a" := "2"];
    ParamFails(BOTH, base, ["2", "d"], map["a" := "1"]);
    assert map["a" := "2"] - {"a"} == map[];
  }

  lemma InnerDeadEnd()
    ensures [Param, Lit("x"), Param] in BOTH
    ensures FindAt(BOTH, [Param, Lit("x"), Param], ["d"], map["a" := "2"]) == Found(None, map["a" := "2"])
  {
    hide FindAt;
    var inner: Position := [Param, Lit("x"), Param];
    assert inner + [Lit("d")] == [Param, Lit("x"), Param, Lit("d")] && inner + [Param] == [Param, Lit("x"), Param, Param];
    assert inner + [CatchAll] == [Param, Lit("x"), Param, CatchAll];
    DeadEnd(BOTH, inner, "d", map["a" := "2"]);
  }

  lemma SecondTakesOver(params: Params)
    ensures [Param, Param] in BOTH
    ensures FindAt(BOTH, [Param, Param], ["2", "d"], params) == Found(Some([Param, Lit("d")]), params["c" := "2"])
  {
    hide FindAt;
    var base: Position := [Param, Param];
    LeafFound(params["c" := "2"]);
    assert base + [Param] == [Param, Param, Param] && base + [Lit("2")] == [Param, Param, Lit("2")];
    assert ["2", "d"][1..] == ["d"];
    assert [Param] + [Lit("d")] == [Param, Lit("d")];
    ParamTakesAll(BOTH, base, ["2", "d"], params);
  }

  /** Where there is no literal child to try, the parameter branch that succeeds is the result. */
  lemma ParamTakesAll(t: Trie, p: Position, segs: seq<string>, params: Params)
    requires p in t && segs != [] && segs[0] != "" && p + [Lit(segs[0])] !in t && p + [Param] in t
    requires FindAt(t, p + [Param], segs[1..], params[t[p + [Param]].paramName := segs[0]]).position.Some?
    ensures FindAt(t, p, segs, params)
            == Below(Param, FindAt(t, p + [Param], segs[1..], params[t[p + [Param]].paramName := segs[0]]))
  {
    hide Join;
  }

  lemma LeafFound(params: Params)
    ensures [Param, Param, Param] in BOTH
    ensures FindAt(BOTH, [Param, Param, Param], ["d"], params) == Found(Some([Lit("d")]), params)
  {
    hide Join;
    var inner: Position := [Param, Param, Param];
    var leaf := inner + [Lit("d")];
    assert leaf == [Param, Param, Param, Lit("d")];
    assert ["d"][1..] == [];
    assert FindAt(BOTH, leaf, [], params) == Found(Some([]), params);
    assert [Lit("d")] + [] == [Lit("d")];
  }

  lemma BothSearched()
    ensures FindAt(BOTH, [], ["1", "x", "2", "d"], map[])
            == Found(Some([Param, Param, Param, Lit("d")]), map["b" := "x", "c" := "2"])
  {
    hide FindAt, Join;
    var one: Params := map["a" := "1"];
    var none: Params := map[];
    DeeperAttemptFails();
    SecondTakesOver(none["b" := "x"]);
    assert ["x", "2", "d"][1..] == ["2", "d"] && ["1", "x", "2", "d"][1..] == ["x", "2", "d"];
    assert [Param] + [Lit("x")] == [Param, Lit("x")] && [Param] + [Param] == [Param, Param];
    assert [Param] + [Param, Lit("d")] == [Param, Param, Lit("d")];
    LitThenParam(BOTH, [Param], ["x", "2", "d"], one);
    assert FindAt(BOTH, [Param], ["x", "2", "d"], one)
           == Found(Some([Param, Param, Lit("d")]), none["b" := "x"]["c" := "2"]);
    var root: Position := [];
    assert root + [Lit("1")] == [Lit("1")] && root + [Param] == [Param];
    assert none["a" := "1"] == one;
    assert [Param] + [Param, Param, Lit("d")] == [Param, Param, Param, Lit("d")];
    LitThenParam(BOTH, root, ["1", "x", "2", "d"], none);
    assert none["b" := "x"]["c" := "2"] == map["b" := "x", "c" := "2"];
  }

  lemma AddKeepsSound(m: Matcher, r: Registry, path: string, handlers: Handlers)
    requires Represents(m, r)
    ensures Sound(m) && Sound(AddRoute(m, path, handlers).0)
    ensures Represents(AddRoute(m, path, handlers).0, RegisterRoute(r, path, handlers).0)
  {
    hide AddRoute, RegisterRoute;
    AddAgrees(m, r, path, handlers);
  }

  lemma OnceParameters()
    ensures ParametersOf(ONCE, "/1/x/2/d") == map["a" := "1", "b" := "x", "c" := "2"]
  {
    hide SplitPathSegments, KindOf, Shape, Matches, Values, OwnNames, Assign;
    TwiceAndOnce();
    var request := ["1", "x", "2", "d"];
    assert [":a", ":b", ":c", "d"][1..] == [":b", ":c", "d"];
    assert [":b", ":c", "d"][1..] == [":c", "d"] && [":c", "d"][1..] == ["d"];
    assert request[1..] == ["x", "2", "d"] && request[2..] == ["2", "d"];
    assert request[1..][1..] == request[2..] && request[2..][1..] == ["d"];
    LastIsLiteral("d");
    NamesAndValues([":c", "d"], request[2..], "c", "2");
    NamesAndValues([":b", ":c", "d"], request[1..], "b", "x");
    NamesAndValues([":a", ":b", ":c", "d"], request, "a", "1");
    var none: Params := map[];
    AssignCons(none, "a", "1", ["b", "c"], ["x", "2"]);
    AssignCons(none["a" := "1"], "b", "x", ["c"], ["2"]);
    AssignCons(none["a" := "1"]["b" := "x"], "c", "2", [], []);
    assert ["c"] + [] == ["c"] && ["2"] + [] == ["2"];
    assert ["b"] + ["c"] == ["b", "c"] && ["x"] + ["2"] == ["x", "2"];
    AssignNothing(none["a" := "1"]["b" := "x"]["c" := "2"]);
  }

  lemma NamesAndValues(pattern: seq<string>, request: seq<string>, name: string, value: string)
    requires pattern != [] && pattern[0] == ":" + name && request != [] && request[0] == value != ""
    requires Matches(Shape(pattern[1..]), request[1..])
    ensures Matches(Shape(pattern), request)
    ensures OwnNames(pattern) == [name] + OwnNames(pattern[1..])
    ensures Values(pattern, request) == [value] + Values(pattern[1..], request[1..])
  {
    assert Shape(pattern)[1..] == Shape(pattern[1..]);
  }

  lemma LastIsLiteral(s: string)
    requires s != "" && EdgeOf(s).Lit?
    ensures Matches(Shape([s]), [s]) && OwnNames([s]) == [] && Values([s], [s]) == []
  {
    assert [s][1..] == [];
    assert Shape([s]) == [Lit(s)];
  }

  lemma AssignNothing(params: Params)
    ensures Assign(params, [], []) == params
  {
  }

  lemma FirstRouteAdded()
    ensures Sound(EMPTY_MATCHER)
    ensures AddRoute(EMPTY_MATCHER, TWICE, [1]) == (Matcher(map[], map[4 := FIRST_ONLY], EMPTY_TRIE), Added)
  {
    hide SplitPathSegments, ValidPath, KindOf, InsertAt, Tidy;
    TwiceAndOnce();
    EmptyRepresents();
    FirstAdded();
  }

  lemma SecondRouteAdded()
    requires Sound(Matcher(map[], map[4 := FIRST_ONLY], EMPTY_TRIE))
    ensures AddRoute(Matcher(map[], map[4 := FIRST_ONLY], EMPTY_TRIE), ONCE, [2])
            == (Matcher(map[], map[4 := BOTH], EMPTY_TRIE), Added)
  {
    hide SplitPathSegments, ValidPath, KindOf, InsertAt, Tidy;
    TwiceAndOnce();
    SecondAdded();
    assert map[4 := FIRST_ONLY][4 := BOTH] == map[4 := BOTH];
  }

  lemma SecondRouteMatched()
    requires Sound(Matcher(map[], map[4 := BOTH], EMPTY_TRIE))
    ensures Match(Matcher(map[], map[4 := BOTH], EMPTY_TRIE), "/1/x/2/d")
            == Some(Hit(SECOND_ENTRY, map["b" := "x", "c" := "2"]))
  {
    hide SplitPathSegments, FindAt, Tidy;
    TwiceAndOnce();
    BothSearched();
    assert BOTH[[Param, Param, Param, Lit("d")]].entry == Some(SECOND_ENTRY);
    assert [] + [Param, Param, Param, Lit("d")] == [Param, Param, Param, Lit("d")];
  }

  /** Two routes added to an empty matcher: /:a/x/:a/y and /:a/:b/:c/d. The request /1/x/2/d is tried on the
      first, which uses the name a twice, in vain; it then matches the second, but the binding of a is gone,
      though that route binds it too. */
  lemma RepeatedNameIsLost() returns (m1: Matcher, m2: Matcher)
    ensures Sound(EMPTY_MATCHER) && (m1, Added) == AddRoute(EMPTY_MATCHER, TWICE, [1])
    ensures Sound(m1) && (m2, Added) == AddRoute(m1, ONCE, [2])
    ensures Sound(m2) && Match(m2, "/1/x/2/d") == Some(Hit(SECOND_ENTRY, map["b" := "x", "c" := "2"]))
    ensures ParametersOf(ONCE, "/1/x/2/d") == map["a" := "1", "b" := "x", "c" := "2"]
  {
    hide AddRoute, Match, Sound, Represents, RegisterRoute, ParametersOf;
    m1, m2 := Matcher(map[], map[4 := FIRST_ONLY], EMPTY_TRIE), Matcher(map[], map[4 := BOTH], EMPTY_TRIE);
    var r := Registry([], {});
    EmptyRepresents();
    FirstRouteAdded();
    AddKeepsSound(EMPTY_MATCHER, r, TWICE, [1]);
    SecondRouteAdded();
    AddKeepsSound(m1, RegisterRoute(r, TWICE, [1]).0, ONCE, [2]);
    SecondRouteMatched();
    OnceParameters();
  }

  const EARLIER := "/:a/x"
  const LATER := "/:b/y"
  const EARLIER_ENTRY := RouteEntry(EARLIER, [1])
  const LATER_ENTRY := RouteEntry(LATER, [2])

  const E1 := EMPTY_TRIE[[Param] := Slot("a", None)]
  const E2 := E1[[Param, Lit("x")] := Slot("", None)]
  const EARLIER_ONLY := E2[[Param, Lit("x")] := Slot("", Some(EARLIER_ENTRY))]
  const E3 := EARLIER_ONLY[[Param, Lit("y")] := Slot("", None)]

  /** The tree of both: its parameter node keeps the name it was given first. */
  const LATER_TOO := E3[[Param, Lit("y")] := Slot("", Some(LATER_ENTRY))]

  lemma TwoSegments(a: string, b: string)
    ensures "/" + Join([a, b]) == "/" + a + "/" + b
  {
    assert [a, b][1..] == [b];
  }

  lemma ShortIsValid(path: string)
    requires path == EARLIER || path == LATER
    ensures ValidPath(path)
  {
    assert path[3] == '/';
    forall i | 0 <= i < |path|
      ensures ByteValid(path, i)
    {
      if i == 1 {
        assert path[i] == ':' && !NoSlash(path, i + 1, i + 3) && path[i + 2] == '/';
      } else {
        assert path[i] in "/abxy";
      }
    }
  }

  lemma EarlierAndLater()
    ensures SplitPathSegments(EARLIER) == [":a", "x"] && SplitPathSegments(LATER) == [":b", "y"]
    ensures SplitPathSegments("/1/y") == ["1", "y"]
    ensures ValidPath(EARLIER) && ValidPath(LATER)
    ensures KindOf(EARLIER) == KindOf(LATER) == ParamKind
  {
    hide SplitPathSegments, ValidPath, Join;
    ShortIsValid(EARLIER);
    ShortIsValid(LATER);
    TwoSegments(":a", "x");
    TwoSegments(":b", "y");
    TwoSegments("1", "y");
    assert EARLIER == "/" + ":a" + "/" + "x" && LATER == "/" + ":b" + "/" + "y" && "/1/y" == "/" + "1" + "/" + "y";
    SegmentsOf([":a", "x"]);
    SegmentsOf([":b", "y"]);
    SegmentsOf(["1", "y"]);
    assert IsParam([":a", "x"][0]) && IsParam([":b", "y"][0]);
  }

  lemma BothShortAdded()
    ensures InsertAt(EMPTY_TRIE, [], [":a", "x"], EARLIER_ENTRY) == (EARLIER_ONLY, true)
    ensures InsertAt(EARLIER_ONLY, [], [":b", "y"], LATER_ENTRY) == (LATER_TOO, true)
  {
    hide InsertAt;
    StepDown(EMPTY_TRIE, [], [":a", "x"], EARLIER_ENTRY, [Param], ["x"]);
    StepDown(E1, [Param], ["x"], EARLIER_ENTRY, [Param, Lit("x")], []);
    InsertHere(E2, [Param, Lit("x")], EARLIER_ENTRY);
    StepDown(EARLIER_ONLY, [], [":b", "y"], LATER_ENTRY, [Param], ["y"]);
    StepDown(EARLIER_ONLY, [Param], ["y"], LATER_ENTRY, [Param, Lit("y")], []);
    InsertHere(E3, [Param, Lit("y")], LATER_ENTRY);
  }

  lemma LaterSearched()
    ensures FindAt(LATER_TOO, [], ["1", "y"], map[]) == Found(Some([Param, Lit("y")]), map["a" := "1"])
  {
    hide Join;
    var root: Position := [];
    var leaf: Position := [Param, Lit("y")];
    var one: Params := map["a" := "1"];
    assert [Param] + [Lit("y")] == leaf && root + [Lit("1")] == [Lit("1")] && root + [Param] == [Param];
    assert ["1", "y"][1..] == ["y"] && ["y"][1..] == [];
    assert FindAt(LATER_TOO, leaf, [], one) == Found(Some([]), one);
    assert [Lit("y")] + [] == [Lit("y")];
    assert FindAt(LATER_TOO, [Param], ["y"], one) == Found(Some([Lit("y")]), one);
    ParamTakesAll(LATER_TOO, root, ["1", "y"], map[]);
  }

  lemma EarlierRouteAdded()
    ensures Sound(EMPTY_MATCHER)
    ensures AddRoute(EMPTY_MATCHER, EARLIER, [1]) == (Matcher(map[], map[2 := EARLIER_ONLY], EMPTY_TRIE), Added)
  {
    hide SplitPathSegments, ValidPath, KindOf, InsertAt, Tidy;
    EarlierAndLater();
    EmptyRepresents();
    BothShortAdded();
  }

  lemma LaterRouteAdded()
    requires Sound(Matcher(map[], map[2 := EARLIER_ONLY], EMPTY_TRIE))
    ensures AddRoute(Matcher(map[], map[2 := EARLIER_ONLY], EMPTY_TRIE), LATER, [2])
            == (Matcher(map[], map[2 := LATER_TOO], EMPTY_TRIE), Added)
  {
    hide SplitPathSegments, ValidPath, KindOf, InsertAt, Tidy;
    EarlierAndLater();
    BothShortAdded();
    assert map[2 := EARLIER_ONLY][2 := LATER_TOO] == map[2 := LATER_TOO];
  }

  lemma LaterRouteMatched()
    requires Sound(Matcher(map[], map[2 := LATER_TOO], EMPTY_TRIE))
    ensures Match(Matcher(map[], map[2 := LATER_TOO], EMPTY_TRIE), "/1/y") == Some(Hit(LATER_ENTRY, map["a" := "1"]))
  {
    hide SplitPathSegments, FindAt, Tidy;
    EarlierAndLater();
    LaterSearched();
    assert LATER_TOO[[Param, Lit("y")]].entry == Some(LATER_ENTRY);
    assert [] + [Param, Lit("y")] == [Param, Lit("y")];
  }

  /** Two routes that name one position differently, /:a/x and then /:b/y: the second is matched with the name
      of the first. */
  lemma SecondNameIsNotReported() returns (m1: Matcher, m2: Matcher)
    ensures Sound(EMPTY_MATCHER) && (m1, Added) == AddRoute(EMPTY_MATCHER, EARLIER, [1])
    ensures Sound(m1) && (m2, Added) == AddRoute(m1, LATER, [2])
    ensures Sound(m2) && Match(m2, "/1/y") == Some(Hit(LATER_ENTRY, map["a" := "1"]))
    ensures ParametersOf(LATER, "/1/y") == map["b" := "1"]
  {
    hide AddRoute, Match, Sound, Represents, RegisterRoute, ParametersOf;
    m1, m2 := Matcher(map[], map[2 := EARLIER_ONLY], EMPTY_TRIE), Matcher(map[], map[2 := LATER_TOO], EMPTY_TRIE);
    var r := Registry([], {});
    EmptyRepresents();
    EarlierRouteAdded();
    AddKeepsSound(EMPTY_MATCHER, r, EARLIER, [1]);
    LaterRouteAdded();
    AddKeepsSound(m1, RegisterRoute(r, EARLIER, [1]).0, LATER, [2]);
    LaterRouteMatched();
    LaterParameters();
  }

  lemma LaterParameters()
    ensures ParametersOf(LATER, "/1/y") == map["b" := "1"]
  {
    hide SplitPathSegments, KindOf, Shape, Matches, Values, OwnNames, Assign;
    EarlierAndLater();
    assert [":b", "y"][1..] == ["y"] && ["1", "y"][1..] == ["y"];
    LastIsLiteral("y");
    NamesAndValues([":b", "y"], ["1", "y"], "b", "1");
    var none: Params := map[];
    AssignCons(none, "b", "1", [], []);
    AssignNothing(none["b" := "1"]);
    assert ["b"] + [] == ["b"] && ["1"] + [] == ["1"];
  }
}
