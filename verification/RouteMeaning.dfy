/** The router in terms of paths alone: which routes answer a request and which of them comes first, which
    routes survive a history, and what the parameters of a match are. Nothing here speaks of kinds of route,
    of positions in trees or of the linear scan. */
module RouteMeaning {
  import opened Wrappers
  import opened RoutePaths
  import opened RouteTrie
  import opened RouteTrieLaws
  import opened RouteRegistry
  import opened RouteHistory
  import opened RouteParams
  import opened RouteBindings

  // ---- Segments ---------------------------------------------------------------------------

  predicate OnlySlashes(s: string) {
    forall i :: 0 <= i < |s| ==> s[i] == '/'
  }

  lemma TrimMeans(path: string) returns (front: string, back: string)
    ensures path == front + Trim(path) + back && OnlySlashes(front) && OnlySlashes(back)
    ensures Trim(path) == "" || (Trim(path)[0] != '/' && Trim(path)[|Trim(path)| - 1] != '/')
  {
    hide TrimLeft, TrimRight;
    var left := TrimLeft(path);
    var s := TrimRight(left);
    front, back := path[..|path| - |left|], left[|s|..];
    assert path == front + left && left == s + back;
  }

  lemma {:induction false} JoinedEnds(segs: seq<string>)
    requires segs != [] && Join(segs) != ""
    ensures Join(segs)[0] != '/' ==> segs[0] != ""
    ensures Join(segs)[|Join(segs)| - 1] != '/' ==> segs[|segs| - 1] != ""
  {
    if |segs| > 1 {
      if Join(segs[1..]) != "" {
        JoinedEnds(segs[1..]);
      }
      var s := Join(segs);
      assert s == segs[0] + "/" + Join(segs[1..]);
      assert segs[0] == "" ==> s[0] == '/';
      assert Join(segs[1..]) == "" ==> s[|s| - 1] == '/';
      assert Join(segs[1..]) != "" ==> s[|s| - 1] == Join(segs[1..])[|Join(segs[1..])| - 1];
    }
  }

  /** The segments of a path are what stands between its slashes, those at either end left out. */
  lemma SegmentsMean(path: string) returns (front: string, back: string)
    ensures var segs := SplitPathSegments(path);
            && path == front + Join(segs) + back && OnlySlashes(front) && OnlySlashes(back)
            && (forall i :: 0 <= i < |segs| ==> '/' !in segs[i])
            && (segs != [] ==> segs[0] != "" && segs[|segs| - 1] != "")
  {
    hide Trim, Split, Join, OnlySlashes;
    front, back := TrimMeans(path);
    JoinSplit(Trim(path));
    var segs := SplitPathSegments(path);
    JoinOfNone();
    if segs != [] {
      JoinedEnds(segs);
    }
  }

  lemma JoinOfNone()
    ensures Join([]) == ""
  {
  }

  // ---- What a route answers ---------------------------------------------------------------

  predicate Starts(segment: string, c: char) {
    segment != "" && segment[0] == c
  }

  predicate Marked(pattern: seq<string>, c: char) {
    exists i :: 0 <= i < |pattern| && Starts(pattern[i], c)
  }

  /** A pattern takes a request, segment by segment: ':' takes any one segment that is not empty, '*', last, takes
      all that are left, if any, and every other segment takes itself. Empty segments of a pattern play no
      part. */
  predicate Takes(pattern: seq<string>, request: seq<string>) {
    if pattern == [] then request == []
    else if pattern[0] == "" then Takes(pattern[1..], request)
    else if Starts(pattern[0], '*') then forall i :: 0 < i < |pattern| ==> pattern[i] == ""
    else
      && request != [] && request[0] != ""
      && (Starts(pattern[0], ':') || pattern[0] == request[0])
      && Takes(pattern[1..], request[1..])
  }

  lemma {:induction false} NoShape(pattern: seq<string>)
    ensures Shape(pattern) == [] <==> forall i :: 0 <= i < |pattern| ==> pattern[i] == ""
  {
    if pattern != [] {
      NoShape(pattern[1..]);
      if pattern[0] == "" {
        assert forall i :: 0 < i < |pattern| ==> pattern[i] == pattern[1..][i - 1];
      }
    }
  }

  lemma {:induction false} TakesIsMatches(pattern: seq<string>, request: seq<string>)
    ensures Takes(pattern, request) <==> Matches(Shape(pattern), request)
  {
    if pattern != [] {
      var rest := pattern[1..];
      if pattern[0] == "" {
        TakesIsMatches(rest, request);
      } else {
        assert Shape(pattern)[1..] == Shape(rest);
        if Starts(pattern[0], '*') {
          NoShape(rest);
          assert forall i :: 0 < i < |pattern| ==> pattern[i] == rest[i - 1];
        } else if request != [] {
          TakesIsMatches(rest, request[1..]);
        }
      }
    }
  }

  /** A route with a '*' segment answers what its pattern takes; one with ':' segments only, what it takes of
      equal length; any other route answers its own path, to the letter. */
  predicate Answers(route: string, path: string) {
    var pattern, request := SplitPathSegments(route), SplitPathSegments(path);
    if Marked(pattern, '*') then Takes(pattern, request)
    else if Marked(pattern, ':') then |pattern| == |request| && Takes(pattern, request)
    else route == path
  }

  lemma KindsAreMarks(route: string)
    ensures var pattern := SplitPathSegments(route);
            KindOf(route) == if Marked(pattern, '*') then WildKind else if Marked(pattern, ':') then ParamKind else StaticKind
  {
    hide SplitPathSegments;
    var pattern := SplitPathSegments(route);
    assert forall i :: 0 <= i < |pattern| ==> (Starts(pattern[i], '*') <==> IsCatchAll(pattern[i]));
    assert forall i :: 0 <= i < |pattern| ==> (Starts(pattern[i], ':') <==> IsParam(pattern[i]));
  }

  /** Where no segment is empty, lengths agree by themselves. */
  lemma {:induction false} TakenIsAsLong(pattern: seq<string>, request: seq<string>)
    requires Takes(pattern, request) && !Marked(pattern, '*') && forall i :: 0 <= i < |pattern| ==> pattern[i] != ""
    ensures |pattern| == |request|
  {
    if pattern != [] {
      forall i | 0 <= i < |pattern| - 1
        ensures !Starts(pattern[1..][i], '*') && pattern[1..][i] != ""
      {
        assert !Starts(pattern[i + 1], '*');
      }
      assert !Starts(pattern[0], '*');
      TakenIsAsLong(pattern[1..], request[1..]);
    }
  }

  /** A route without empty segments, one of which is marked, answers exactly what its pattern takes. */
  lemma PatternsAnswer(route: string, path: string)
    requires var pattern := SplitPathSegments(route);
             (Marked(pattern, ':') || Marked(pattern, '*')) && forall i :: 0 <= i < |pattern| ==> pattern[i] != ""
    ensures Answers(route, path) <==> Takes(SplitPathSegments(route), SplitPathSegments(path))
  {
    hide SplitPathSegments, Takes;
    var pattern, request := SplitPathSegments(route), SplitPathSegments(path);
    if Takes(pattern, request) && !Marked(pattern, '*') {
      TakenIsAsLong(pattern, request);
    }
  }

  // ---- Which route comes first ------------------------------------------------------------

  function Weight(segment: string): nat {
    if Starts(segment, '*') then 2 else if Starts(segment, ':') then 1 else 0
  }

  function Heaviest(pattern: seq<string>): nat {
    if Marked(pattern, '*') then 2 else if Marked(pattern, ':') then 1 else 0
  }

  /** Segments that lead the same way: two literals that are equal, two ':', or two '*'. */
  predicate SameWay(a: string, b: string) {
    Weight(a) == Weight(b) && (Weight(a) == 0 ==> a == b)
  }

  /** At the first segment that differs the lighter one comes first, and a pattern that ends there comes before
      one that goes on. */
  predicate Earlier(p: seq<string>, q: seq<string>)
    decreases |p| + |q|
  {
    if p != [] && p[0] == "" then Earlier(p[1..], q)
    else if q != [] && q[0] == "" then Earlier(p, q[1..])
    else if p == [] then q != []
    else if q == [] then false
    else if SameWay(p[0], q[0]) then Earlier(p[1..], q[1..])
    else Weight(p[0]) < Weight(q[0])
  }

  lemma {:induction false} EarlierIsBefore(p: seq<string>, q: seq<string>)
    ensures Earlier(p, q) <==> Before(Shape(p), Shape(q))
    decreases |p| + |q|
  {
    if p != [] && p[0] == "" {
      EarlierIsBefore(p[1..], q);
    } else if q != [] && q[0] == "" {
      EarlierIsBefore(p, q[1..]);
    } else if p != [] && q != [] {
      assert Shape(p)[1..] == Shape(p[1..]) && Shape(q)[1..] == Shape(q[1..]);
      assert SameWay(p[0], q[0]) <==> EdgeOf(p[0]) == EdgeOf(q[0]);
      assert Rank(EdgeOf(p[0])) == Weight(p[0]) && Rank(EdgeOf(q[0])) == Weight(q[0]);
      if SameWay(p[0], q[0]) {
        EarlierIsBefore(p[1..], q[1..]);
      }
    }
  }

  /** Plain paths come before routes with ':' only, these before routes with '*'. */
  predicate Precedes(a: string, b: string) {
    var p, q := SplitPathSegments(a), SplitPathSegments(b);
    Heaviest(p) < Heaviest(q) || (Heaviest(p) == Heaviest(q) && Earlier(p, q))
  }

  // ---- Which routes are in each other's place ---------------------------------------------

  predicate Alike(p: seq<string>, q: seq<string>)
    decreases |p| + |q|
  {
    if p != [] && p[0] == "" then Alike(p[1..], q)
    else if q != [] && q[0] == "" then Alike(p, q[1..])
    else if p == [] || q == [] then p == q
    else SameWay(p[0], q[0]) && Alike(p[1..], q[1..])
  }

  lemma {:induction false} AlikeIsSameShape(p: seq<string>, q: seq<string>)
    ensures Alike(p, q) <==> Shape(p) == Shape(q)
    decreases |p| + |q|
  {
    if p != [] && p[0] == "" {
      AlikeIsSameShape(p[1..], q);
    } else if q != [] && q[0] == "" {
      AlikeIsSameShape(p, q[1..]);
    } else if p != [] && q != [] {
      assert Shape(p)[1..] == Shape(p[1..]) && Shape(q)[1..] == Shape(q[1..]);
      assert SameWay(p[0], q[0]) <==> EdgeOf(p[0]) == EdgeOf(q[0]);
      AlikeIsSameShape(p[1..], q[1..]);
    }
  }

  /** Two routes that cannot both be there: patterns that lead the same way all along, whatever they call their
      parameters, or one and the same plain path. */
  predicate InPlaceOf(a: string, b: string) {
    var p, q := SplitPathSegments(a), SplitPathSegments(b);
    && Heaviest(p) == Heaviest(q)
    && (Heaviest(p) == 0 ==> a == b)
    && (Heaviest(p) == 1 ==> |p| == |q|)
    && (Heaviest(p) > 0 ==> Alike(p, q))
  }

  lemma InPlaceIsCollision(a: string, b: string)
    ensures InPlaceOf(a, b) <==> Collides(a, b)
  {
    hide SplitPathSegments, Shape, Alike, Marked;
    KindsAreMarks(a);
    KindsAreMarks(b);
    AlikeIsSameShape(SplitPathSegments(a), SplitPathSegments(b));
  }

  // ---- Lookups after a history ------------------------------------------------------------

  lemma AnswersIsEligible(e: RouteEntry, path: string)
    ensures Answers(e.path, path)
       <==> if KindOf(e.path).StaticKind? then e.path == path else Eligible(e, KindOf(e.path), path)
  {
    hide SplitPathSegments, Takes, Matches, Shape, Marked;
    KindsAreMarks(e.path);
    TakesIsMatches(SplitPathSegments(e.path), SplitPathSegments(path));
  }

  ghost predicate ComesFirst(routes: seq<RouteEntry>, path: string, e: RouteEntry) {
    && e in routes && Answers(e.path, path)
    && forall other :: other in routes && Answers(other.path, path) && other != e ==> Precedes(e.path, other.path)
  }

  /** The linear scan, said of paths alone. */
  lemma ScanMeans(routes: seq<RouteEntry>, path: string)
    requires Apart(routes)
    ensures match Scan(routes, path)
            case None => forall e :: e in routes ==> !Answers(e.path, path)
            case Some(e) => ComesFirst(routes, path, e)
  {
    hide ScanStatic, ScanBest, KindOf, Eligible, Answers, Precedes, Apart;
    ScanStaticMeaning(routes, path);
    ScanBestMeaning(routes, ParamKind, path);
    ScanBestMeaning(routes, WildKind, path);
    EligibleIsOfKind(routes, path);
    forall e | e in routes
      ensures Answers(e.path, path)
         <==> if KindOf(e.path).StaticKind? then e.path == path else Eligible(e, KindOf(e.path), path)
    {
      AnswersIsEligible(e, path);
    }
    if Scan(routes, path).Some? {
      var e := Scan(routes, path).value;
      forall other | other in routes && Answers(other.path, path) && other != e
        ensures Precedes(e.path, other.path)
      {
        FirstPrecedes(routes, path, e, other);
      }
    }
  }

  lemma EligibleIsOfKind(routes: seq<RouteEntry>, path: string)
    ensures forall e, kind :: e in routes && Eligible(e, kind, path) ==> KindOf(e.path) == kind
  {
    hide KindOf;
  }

  lemma FirstPrecedes(routes: seq<RouteEntry>, path: string, e: RouteEntry, other: RouteEntry)
    requires Apart(routes) && Scan(routes, path) == Some(e)
    requires other in routes && other != e && Answers(other.path, path)
    ensures Precedes(e.path, other.path)
  {
    hide ScanStatic, ScanBest, KindOf, Answers, SplitPathSegments, Before, Matches, Apart, Shape, Marked, Collides;
    ScanStaticMeaning(routes, path);
    ScanBestMeaning(routes, ParamKind, path);
    ScanBestMeaning(routes, WildKind, path);
    AnswersIsEligible(other, path);
    NotBoth(routes, e, other);
    KindsAreMarks(e.path);
    KindsAreMarks(other.path);
    EarlierIsBefore(SplitPathSegments(e.path), SplitPathSegments(other.path));
    SameKindCollides(e.path, other.path);
  }

  lemma NotBoth(routes: seq<RouteEntry>, e: RouteEntry, other: RouteEntry)
    requires Apart(routes) && e != other
    ensures e in routes && other in routes ==> !Collides(e.path, other.path)
  {
    hide Collides;
  }

  lemma SameKindCollides(a: string, b: string)
    ensures KindOf(a) == KindOf(b) && ShapeOf(a) == ShapeOf(b) && !KindOf(a).StaticKind? && CountOf(a) == CountOf(b)
            ==> Collides(a, b)
    ensures KindOf(a).WildKind? && KindOf(b).WildKind? && ShapeOf(a) == ShapeOf(b) ==> Collides(a, b)
    ensures KindOf(a).StaticKind? && a == b ==> Collides(a, b)
  {
    hide KindOf, CountOf, ShapeOf;
  }

  lemma RepresentedAreApart(m: Matcher, r: Registry)
    requires Represents(m, r)
    ensures Apart(r.routes) && Sound(m)
  {
  }

  /** The router's promise, of paths alone. From an empty matcher, after any history, a lookup finds nothing if and
      only if no surviving route answers the path, and otherwise the surviving route that answers it and
      comes before all others that do. */
  lemma LookupMeans(ms: seq<Matcher>, ops: seq<RouteOp>, os: seq<Outcome>, path: string)
    requires IsRun(ms, ops, os) && ms[0] == EMPTY_MATCHER
    ensures Sound(ms[|ops|])
    ensures var survivors := RegistryRun(Registry([], {}), ops).0.routes;
            match Match(ms[|ops|], path)
            case None => forall e :: e in survivors ==> !Answers(e.path, path)
            case Some(hit) => ComesFirst(survivors, path, hit.entry)
  {
    hide Scan, Match, RegistryRun, IsRun, Answers, ComesFirst, Represents;
    LookupIsScanOfSurvivors(ms, ops, os, path);
    EmptyRepresents();
    RunLength(ms, ops, os);
    HistoryIsRegistry(ms, ops, os, Registry([], {}));
    RepresentedAreApart(ms[|ops|], RegistryRun(Registry([], {}), ops).0);
    ScanMeans(RegistryRun(Registry([], {}), ops).0.routes, path);
  }

  /** A surviving route with a marked segment and no empty one is found, or another one instead of it, on every path
      that its pattern takes. */
  lemma SurvivingPatternIsFound(ms: seq<Matcher>, ops: seq<RouteOp>, os: seq<Outcome>, e: RouteEntry, path: string)
    requires IsRun(ms, ops, os) && ms[0] == EMPTY_MATCHER
    requires e in RegistryRun(Registry([], {}), ops).0.routes
    requires var pattern := SplitPathSegments(e.path);
             && (Marked(pattern, ':') || Marked(pattern, '*')) && (forall i :: 0 <= i < |pattern| ==> pattern[i] != "")
             && Takes(pattern, SplitPathSegments(path))
    ensures Sound(ms[|ops|]) && Match(ms[|ops|], path).Some?
  {
    hide Match, RegistryRun, IsRun, Answers, SplitPathSegments, Takes;
    LookupMeans(ms, ops, os, path);
    PatternsAnswer(e.path, path);
  }

  // ---- Histories --------------------------------------------------------------------------

  /** Operation i adds a route, and no later one removes what stands in its place. */
  ghost predicate AddedForGood(ops: seq<RouteOp>, os: seq<Outcome>, i: nat, e: RouteEntry)
    requires i < |ops| == |os|
  {
    && ops[i] == AddOp(e.path, e.handlers) && os[i] == AddDone(Added)
    && KeptFrom(ops, os, i + 1, e)
  }

  ghost predicate KeptFrom(ops: seq<RouteOp>, os: seq<Outcome>, n: nat, e: RouteEntry)
    requires |ops| == |os|
  {
    forall j :: n <= j < |ops| ==> !TakesAway(ops[j], os[j], e)
  }

  ghost predicate TakesAway(op: RouteOp, o: Outcome, e: RouteEntry) {
    op.RemoveOp? && o == RemoveDone(Removed) && InPlaceOf(e.path, op.path)
  }

  lemma StepMeans(r: Registry, op: RouteOp, e: RouteEntry)
    ensures var (r', o) := RegistryStep(r, op);
            e in r'.routes <==> (e in r.routes && !TakesAway(op, o, e))
                                || (op == AddOp(e.path, e.handlers) && o == AddDone(Added))
  {
    hide KindOf, CountOf, Collides, InPlaceOf, ValidPath, Names;
    if op.RemoveOp? {
      InPlaceIsCollision(e.path, op.path);
    }
  }

  lemma {:induction false} SurvivorsFrom(r: Registry, ops: seq<RouteOp>, e: RouteEntry)
    ensures var (r', os) := RegistryRun(r, ops);
            && |os| == |ops|
            && (e in r'.routes <==>
                  || (e in r.routes && KeptFrom(ops, os, 0, e))
                  || exists i :: 0 <= i < |ops| && AddedForGood(ops, os, i, e))
    decreases |ops|
  {
    hide RegistryStep, TakesAway, AddedForGood;
    if ops != [] {
      hide KeptFrom;
      var (r1, o) := RegistryStep(r, ops[0]);
      StepMeans(r, ops[0], e);
      SurvivorsFrom(r1, ops[1..], e);
      var rest := RegistryRun(r1, ops[1..]).1;
      GoodFromTail(ops, [o] + rest, e);
      assert ([o] + rest)[1..] == rest;
    }
  }

  lemma KeptFromTail(ops: seq<RouteOp>, os: seq<Outcome>, n: nat, e: RouteEntry)
    requires |ops| == |os| > 0
    ensures KeptFrom(ops, os, n + 1, e) <==> KeptFrom(ops[1..], os[1..], n, e)
    ensures KeptFrom(ops, os, 0, e) <==> !TakesAway(ops[0], os[0], e) && KeptFrom(ops, os, 1, e)
  {
    hide TakesAway;
    var ops1, os1 := ops[1..], os[1..];
    assert forall j :: 0 <= j < |ops1| ==> ops1[j] == ops[j + 1] && os1[j] == os[j + 1];
    if KeptFrom(ops, os, n + 1, e) {
      forall j | n <= j < |ops1|
        ensures !TakesAway(ops1[j], os1[j], e)
      {
        assert !TakesAway(ops[j + 1], os[j + 1], e);
      }
    }
    if KeptFrom(ops1, os1, n, e) {
      forall j | n + 1 <= j < |ops|
        ensures !TakesAway(ops[j], os[j], e)
      {
        assert !TakesAway(ops1[j - 1], os1[j - 1], e);
      }
    }
  }

  lemma GoodFromTail(ops: seq<RouteOp>, os: seq<Outcome>, e: RouteEntry)
    requires |ops| == |os| > 0
    ensures (exists i :: 0 <= i < |ops| && AddedForGood(ops, os, i, e)) <==>
              || (ops[0] == AddOp(e.path, e.handlers) && os[0] == AddDone(Added) && KeptFrom(ops[1..], os[1..], 0, e))
              || exists i :: 0 <= i < |ops[1..]| && AddedForGood(ops[1..], os[1..], i, e)
    ensures KeptFrom(ops, os, 0, e) <==> !TakesAway(ops[0], os[0], e) && KeptFrom(ops[1..], os[1..], 0, e)
  {
    hide TakesAway, KeptFrom;
    KeptFromTail(ops, os, 0, e);
    if i :| 0 <= i < |ops| && AddedForGood(ops, os, i, e) {
      if i > 0 {
        KeptFromTail(ops, os, i, e);
        assert AddedForGood(ops[1..], os[1..], i - 1, e);
      }
    }
    if i :| 0 <= i < |ops[1..]| && AddedForGood(ops[1..], os[1..], i, e) {
      KeptFromTail(ops, os, i + 1, e);
      assert AddedForGood(ops, os, i + 1, e);
    }
    if ops[0] == AddOp(e.path, e.handlers) && os[0] == AddDone(Added) && KeptFrom(ops[1..], os[1..], 0, e) {
      assert AddedForGood(ops, os, 0, e);
    }
  }

  /** The routes that survive a history are those added and not removed since. */
  lemma SurvivorsMean(ops: seq<RouteOp>, e: RouteEntry)
    ensures var (r, os) := RegistryRun(Registry([], {}), ops);
            && |os| == |ops|
            && (e in r.routes <==> exists i :: 0 <= i < |ops| && AddedForGood(ops, os, i, e))
  {
    hide RegistryRun, AddedForGood;
    SurvivorsFrom(Registry([], {}), ops, e);
  }

  /** A valid pattern with ':' but without '*', of a given length, added by an operation. */
  ghost predicate Counts(op: RouteOp, count: nat) {
    op.AddOp? && ValidPath(op.path) && Heaviest(SplitPathSegments(op.path)) == 1 && |SplitPathSegments(op.path)| == count
  }

  /** Whether a removal takes a route away: not with an empty segment in it, and with the same last segment where
      that is a '*'. */
  predicate Reaches(path: string, route: string) {
    var p, q := SplitPathSegments(path), SplitPathSegments(route);
    && InPlaceOf(route, path)
    && (Heaviest(p) > 0 ==> forall i :: 0 <= i < |p| ==> p[i] != "")
    && (Heaviest(p) == 2 ==>
          && p != [] && q != [] && p[|p| - 1] == q[|q| - 1]
          && forall i :: 0 <= i < |p| - 1 ==> !Starts(p[i], '*'))
  }

  lemma ReachesIsNames(path: string, e: RouteEntry)
    ensures Reaches(path, e.path) <==> Names(path, e)
  {
    hide SplitPathSegments, InPlaceOf, Collides, Marked, KindOf;
    InPlaceIsCollision(e.path, path);
    KindsAreMarks(path);
    var p := SplitPathSegments(path);
    assert forall i :: 0 <= i < |p| ==> (Starts(p[i], '*') <==> IsCatchAll(p[i]));
  }

  lemma {:induction false} CountsFrom(r: Registry, ops: seq<RouteOp>, count: nat)
    ensures count in RegistryRun(r, ops).0.counts <==>
              count in r.counts || exists i :: 0 <= i < |ops| && Counts(ops[i], count)
    decreases |ops|
  {
    hide RegistryStep, Counts;
    if ops != [] {
      var r1 := RegistryStep(r, ops[0]).0;
      CountsStep(r, ops[0], count);
      CountsFrom(r1, ops[1..], count);
      if i :| 0 <= i < |ops| && Counts(ops[i], count) {
        assert i > 0 ==> Counts(ops[1..][i - 1], count);
      }
      if i :| 0 <= i < |ops[1..]| && Counts(ops[1..][i], count) {
        assert Counts(ops[i + 1], count);
      }
    }
  }

  lemma CountsStep(r: Registry, op: RouteOp, count: nat)
    ensures count in RegistryStep(r, op).0.counts <==> count in r.counts || Counts(op, count)
  {
    hide KindOf, ValidPath, SplitPathSegments, Names, Marked, Taken;
    KindsAreMarks(op.path);
  }

  lemma {:induction false} OutcomeAt(r: Registry, ops: seq<RouteOp>, i: nat)
    requires i < |ops|
    ensures |RegistryRun(r, ops).1| == |ops|
    ensures RegistryRun(r, ops).1[i] == RegistryStep(RegistryRun(r, ops[..i]).0, ops[i]).1
    decreases i, |ops|
  {
    hide RegistryStep;
    SurvivorsFrom(r, ops, RouteEntry("", []));
    if i == 0 {
      assert ops[..0] == [];
    } else {
      OutcomeAt(RegistryStep(r, ops[0]).0, ops[1..], i - 1);
      assert ops[..i][1..] == ops[1..][..i - 1];
    }
  }

  lemma TakenMeans(routes: seq<RouteEntry>, path: string)
    ensures Taken(routes, path) <==> exists e :: e in routes && InPlaceOf(e.path, path)
  {
    hide Collides, InPlaceOf;
    if Taken(routes, path) {
      var i :| 0 <= i < |routes| && Collides(routes[i].path, path);
      InPlaceIsCollision(routes[i].path, path);
      assert routes[i] in routes;
    }
    if e :| e in routes && InPlaceOf(e.path, path) {
      InPlaceIsCollision(e.path, path);
      var i :| 0 <= i < |routes| && routes[i] == e;
    }
  }

  /** What every operation of a history reports: an addition whether its path is valid and its place free; a
      removal whether it reaches a route, or that no pattern of its length was ever added. */
  lemma OutcomesMean(ops: seq<RouteOp>, i: nat)
    requires i < |ops|
    ensures |RegistryRun(Registry([], {}), ops).1| == |ops|
    ensures var there := RegistryRun(Registry([], {}), ops[..i]).0.routes;
            RegistryRun(Registry([], {}), ops).1[i]
            == match ops[i]
               case AddOp(path, _) =>
                 AddDone(if !ValidPath(path) then InvalidPath
                         else if exists e :: e in there && InPlaceOf(e.path, path) then Duplicate else Added)
               case RemoveOp(path) =>
                 var p := SplitPathSegments(path);
                 RemoveDone(if Heaviest(p) == 1 && !exists j :: 0 <= j < i && Counts(ops[j], |p|) then NilTree
                            else if exists e :: e in there && Reaches(path, e.path) then Removed else NotFound)
  {
    hide RegistryRun, ValidPath, InPlaceOf, Reaches, Names, KindOf, Taken, SplitPathSegments, Counts, Marked;
    OutcomeAt(Registry([], {}), ops, i);
    var before := RegistryRun(Registry([], {}), ops[..i]).0;
    match ops[i]
    case AddOp(path, _) => TakenMeans(before.routes, path);
    case RemoveOp(path) =>
      KindsAreMarks(path);
      CountsFrom(Registry([], {}), ops[..i], CountOf(path));
      assert forall j :: 0 <= j < i ==> ops[..i][j] == ops[j];
      forall e | e in before.routes
        ensures Reaches(path, e.path) <==> Names(path, e)
      {
        ReachesIsNames(path, e);
      }
  }

  // ---- Valid paths ------------------------------------------------------------------------

  /** A piece between slashes: at most one ':', with a name behind it and no '*' in that name; a '*' only in front
      of the last piece, with a name behind it; no '?'. */
  predicate PieceValid(piece: string, last: bool) {
    forall c :: 0 <= c < |piece| ==> MarkValid(piece, c, last)
  }

  predicate MarkValid(piece: string, c: nat, last: bool)
    requires c < |piece|
  {
    match piece[c]
    case ':' => c + 1 < |piece| && forall d :: c < d < |piece| ==> piece[d] != ':' && piece[d] != '*'
    case '*' => c == 0 && last && |piece| > 1
    case '?' => false
    case _ => true
  }

  lemma BytesOfLastPiece(s: string, c: nat)
    requires '/' !in s && c < |s|
    ensures ByteValid(s, c) <==> MarkValid(s, c, true)
  {
  }

  lemma BytesOfPiece(s: string, n: nat, c: nat)
    requires n < |s| && s[n] == '/' && '/' !in s[..n] && c < n
    ensures ByteValid(s, c) <==> MarkValid(s[..n], c, false)
  {
    var piece := s[..n];
    assert forall k :: 0 <= k < n ==> piece[k] == s[k] && s[k] != '/';
    if s[c] == ':' && c + 1 < n {
      var d := c + 1;
      assert forall j :: d <= j <= n ==> NoSlash(s, d, j);
    }
  }

  lemma BytesBehind(s: string, n: nat, c: nat)
    requires n < |s| && s[n] == '/' && n < c < |s|
    ensures ByteValid(s, c) <==> ByteValid(s[n + 1..], c - n - 1)
  {
    var rest, d := s[n + 1..], c - n - 1;
    assert forall k :: 0 <= k < |rest| ==> rest[k] == s[n + 1 + k];
    if rest[d] == ':' {
      assert OneWildcard(s, c + 1) <==> OneWildcard(rest, d + 1) by {
        MarksBehind(s, n + 1, c + 1);
      }
    }
    if rest[d] == '*' {
      assert NoSlash(s, c, |s|) <==> NoSlash(rest, d, |rest|) by {
        SlashesBehind(s, n + 1, c, |s|);
      }
    }
  }

  lemma SlashesBehind(s: string, n: nat, i: nat, j: nat)
    requires n <= i <= j <= |s|
    ensures NoSlash(s, i, j) <==> NoSlash(s[n..], i - n, j - n)
  {
    var rest := s[n..];
    assert forall k :: n <= k < |s| ==> rest[k - n] == s[k];
    if NoSlash(s[n..], i - n, j - n) {
      forall k | i <= k < j
        ensures s[k] != '/'
      {
        assert rest[k - n] == s[k];
      }
    }
  }

  lemma MarksBehind(s: string, n: nat, i: nat)
    requires n <= i <= |s|
    ensures OneWildcard(s, i) <==> OneWildcard(s[n..], i - n)
  {
    hide NoSlash;
    var rest := s[n..];
    forall j | i <= j < |s|
      ensures s[j] == rest[j - n] && (NoSlash(s, i, j) <==> NoSlash(rest, i - n, j - n))
    {
      SlashesBehind(s, n, i, j);
    }
    if OneWildcard(s, i) {
      forall j | i - n <= j < |rest| && NoSlash(rest, i - n, j)
        ensures rest[j] != ':' && rest[j] != '*'
      {
        assert s[j + n] == rest[j + n - n];
      }
    }
  }

  lemma {:induction false} BytesByPieces(s: string)
    ensures (forall i :: 0 <= i < |s| ==> ByteValid(s, i))
       <==> forall k :: 0 <= k < |Split(s)| ==> PieceValid(Split(s)[k], k == |Split(s)| - 1)
    decreases |s|
  {
    hide ByteValid, MarkValid, IndexOf, Split;
    SplitStep(s);
    if '/' in s {
      var n := IndexOf(s);
      var rest, pieces := s[n + 1..], Split(s);
      BytesByPieces(rest);
      assert pieces[0] == s[..n] && pieces[1..] == Split(rest) && |pieces| > 1;
      forall c | 0 <= c < n
        ensures ByteValid(s, c) <==> MarkValid(s[..n], c, false)
      {
        BytesOfPiece(s, n, c);
      }
      forall c | n < c < |s|
        ensures ByteValid(s, c) <==> ByteValid(rest, c - n - 1)
      {
        BytesBehind(s, n, c);
      }
      assert ByteValid(s, n) by { SlashIsValid(s, n); }
      PiecesInTurn(pieces, Split(rest));
      AllBytes(s, n);
    } else {
      forall c | 0 <= c < |s|
        ensures ByteValid(s, c) <==> MarkValid(s, c, true)
      {
        BytesOfLastPiece(s, c);
      }
      assert Split(s)[0] == s;
    }
  }

  lemma SlashIsValid(s: string, n: nat)
    requires n < |s| && s[n] == '/'
    ensures ByteValid(s, n)
  {
  }

  lemma PiecesInTurn(pieces: seq<string>, rest: seq<string>)
    requires rest != [] && |pieces| == |rest| + 1 && pieces[1..] == rest
    ensures (forall k :: 0 <= k < |pieces| ==> PieceValid(pieces[k], k == |pieces| - 1))
       <==> PieceValid(pieces[0], false) && forall k :: 0 <= k < |rest| ==> PieceValid(rest[k], k == |rest| - 1)
  {
    hide PieceValid;
    assert forall k :: 0 < k < |pieces| ==> pieces[k] == rest[k - 1];
    if forall k :: 0 <= k < |pieces| ==> PieceValid(pieces[k], k == |pieces| - 1) {
      forall k | 0 <= k < |rest|
        ensures PieceValid(rest[k], k == |rest| - 1)
      {
        assert PieceValid(pieces[k + 1], k + 1 == |pieces| - 1);
      }
    }
  }

  lemma AllBytes(s: string, n: nat)
    requires n < |s| && ByteValid(s, n)
    requires forall c :: n < c < |s| ==> (ByteValid(s, c) <==> ByteValid(s[n + 1..], c - n - 1))
    ensures var rest := s[n + 1..];
            (forall i :: 0 <= i < |s| ==> ByteValid(s, i)) <==>
              (forall c :: 0 <= c < n ==> ByteValid(s, c)) && (forall c :: 0 <= c < |rest| ==> ByteValid(rest, c))
  {
    hide ByteValid;
    var rest := s[n + 1..];
    if forall i :: 0 <= i < |s| ==> ByteValid(s, i) {
      forall c | 0 <= c < |rest|
        ensures ByteValid(rest, c)
      {
        assert ByteValid(s, n + 1 + c);
      }
    }
  }

  /** A path can be registered if and only if it begins with a slash and all its pieces are valid. */
  lemma ValidIsByPieces(path: string)
    ensures ValidPath(path) <==>
              && path != "" && path[0] == '/'
              && forall k :: 0 <= k < |Split(path)| ==> PieceValid(Split(path)[k], k == |Split(path)| - 1)
  {
    hide ByteValid, Split;
    BytesByPieces(path);
  }

  // ---- Parameters -------------------------------------------------------------------------

  /** A pattern gives a name a value: a ':' the segment in its place, a '*' all that are left, joined. */
  ghost predicate Binds(pattern: seq<string>, request: seq<string>, n: string, v: string) {
    exists i :: 0 <= i < |pattern| && BindsAt(pattern, request, i, n, v)
  }

  predicate BindsAt(pattern: seq<string>, request: seq<string>, i: nat, n: string, v: string)
    requires i < |pattern|
  {
    || (Starts(pattern[i], ':') && i < |request| && n == pattern[i][1..] && v == request[i])
    || (Starts(pattern[i], '*') && i <= |request| && n == pattern[i][1..] && v == Join(request[i..]))
  }

  predicate NamesDiffer(pattern: seq<string>) {
    forall i, j :: 0 <= i < j < |pattern| && Weight(pattern[i]) > 0 && Weight(pattern[j]) > 0 ==>
      pattern[i][1..] != pattern[j][1..]
  }

  lemma {:induction false} BoundIsGiven(pattern: seq<string>, request: seq<string>, n: string, v: string)
    requires Matches(Shape(pattern), request) && forall i :: 0 <= i < |pattern| ==> pattern[i] != ""
    ensures Given(OwnNames(pattern), Values(pattern, request), n, v) <==> Binds(pattern, request, n, v)
    decreases |pattern|
  {
    hide Join, Given;
    GivenNothing(n, v);
    if pattern != [] {
      var rest := pattern[1..];
      assert Shape(pattern)[1..] == Shape(rest);
      BindsInTurn(pattern, request, n, v);
      match EdgeOf(pattern[0])
      case CatchAll =>
        NoShape(rest);
        assert rest == [];
        GivenOnce(pattern[0][1..], Join(request), n, v);
        assert request[0..] == request;
        assert OwnNames(pattern) == [pattern[0][1..]] && Values(pattern, request) == [Join(request)];
      case Param =>
        BoundIsGiven(rest, request[1..], n, v);
        GivenCons(pattern[0][1..], request[0], OwnNames(rest), Values(rest, request[1..]), n, v);
      case Lit(_) => BoundIsGiven(rest, request[1..], n, v);
    }
  }

  lemma GivenNothing(n: string, v: string)
    ensures !Given([], [], n, v)
  {
  }

  lemma GivenOnce(name: string, value: string, n: string, v: string)
    ensures Given([name], [value], n, v) <==> n == name && v == value
  {
    if n == name && v == value {
      assert [name][0] == n && [value][0] == v;
    }
  }

  lemma GivenCons(name: string, value: string, names: seq<string>, values: seq<string>, n: string, v: string)
    requires |names| == |values|
    ensures Given([name] + names, [value] + values, n, v) <==> (n == name && v == value) || Given(names, values, n, v)
  {
    var ns, vs := [name] + names, [value] + values;
    if i :| 0 <= i < |ns| && ns[i] == n && vs[i] == v {
      assert i > 0 ==> names[i - 1] == n && values[i - 1] == v;
    }
    if i :| 0 <= i < |names| && names[i] == n && values[i] == v {
      assert ns[i + 1] == n && vs[i + 1] == v;
    }
    if n == name && v == value {
      assert ns[0] == n && vs[0] == v;
    }
  }

  lemma BindsInTurn(pattern: seq<string>, request: seq<string>, n: string, v: string)
    requires pattern != []
    ensures Binds(pattern, request, n, v) <==>
              BindsAt(pattern, request, 0, n, v) || (request != [] && Binds(pattern[1..], request[1..], n, v))
              || (request == [] && exists i :: 0 < i < |pattern| && BindsAt(pattern, request, i, n, v))
  {
    var rest := pattern[1..];
    if request != [] {
      forall i | 0 < i < |pattern|
        ensures BindsAt(pattern, request, i, n, v) <==> BindsAt(rest, request[1..], i - 1, n, v)
      {
        assert rest[i - 1] == pattern[i];
        if i <= |request| {
          assert request[1..][i - 1..] == request[i..];
        }
      }
      if i :| 0 <= i < |pattern| && BindsAt(pattern, request, i, n, v) {
        assert i > 0 ==> BindsAt(rest, request[1..], i - 1, n, v);
      }
      if i :| 0 <= i < |rest| && BindsAt(rest, request[1..], i, n, v) {
        assert BindsAt(pattern, request, i + 1, n, v);
      }
    }
  }

  lemma {:induction false} OwnNamesDiffer(pattern: seq<string>)
    requires NamesDiffer(pattern) && forall i :: 0 <= i < |pattern| ==> pattern[i] != ""
    ensures Distinct(OwnNames(pattern))
    ensures forall n :: n in OwnNames(pattern) ==>
              exists i :: 0 <= i < |pattern| && Weight(pattern[i]) > 0 && pattern[i][1..] == n
  {
    if pattern != [] {
      var rest := pattern[1..];
      assert forall i :: 0 <= i < |rest| ==> rest[i] == pattern[i + 1];
      OwnNamesDiffer(rest);
      forall n | n in OwnNames(rest)
        ensures exists i :: 0 < i < |pattern| && Weight(pattern[i]) > 0 && pattern[i][1..] == n
      {
        var i :| 0 <= i < |rest| && Weight(rest[i]) > 0 && rest[i][1..] == n;
        assert pattern[i + 1] == rest[i];
      }
      if Weight(pattern[0]) > 0 {
        assert pattern[0][1..] !in OwnNames(rest);
      }
    }
  }

  /** The parameters of a route whose names all differ: a name has a value if and only if the pattern gives it. */
  lemma ParametersMean(route: string, path: string)
    requires var pattern := SplitPathSegments(route);
             && (Marked(pattern, ':') || Marked(pattern, '*')) && NamesDiffer(pattern)
             && forall i :: 0 <= i < |pattern| ==> pattern[i] != ""
    requires Answers(route, path)
    ensures forall n, v :: n in ParametersOf(route, path) && ParametersOf(route, path)[n] == v
                           <==> Binds(SplitPathSegments(route), SplitPathSegments(path), n, v)
  {
    hide SplitPathSegments, Takes, Matches, Shape, OwnNames, Values, Assign, Binds, Given, Distinct;
    var pattern, request := SplitPathSegments(route), SplitPathSegments(path);
    KindsAreMarks(route);
    TakesIsMatches(pattern, request);
    var names, values := OwnNames(pattern), Values(pattern, request);
    OwnNamesDiffer(pattern);
    assert ParametersOf(route, path) == Assign(map[], names, values);
    forall n, v
      ensures n in ParametersOf(route, path) && ParametersOf(route, path)[n] == v <==> Binds(pattern, request, n, v)
    {
      BoundIsGiven(pattern, request, n, v);
      AssignedIsGiven(names, values, n, v);
    }
  }

  lemma AssignedIsGiven(names: seq<string>, values: seq<string>, n: string, v: string)
    requires |names| == |values| && Distinct(names)
    ensures var all := Assign(map[], names, values);
            n in all && all[n] == v <==> Given(names, values, n, v)
  {
    hide Assign, Distinct;
    AssignMeaning(map[], names, values);
    if Given(names, values, n, v) {
      var i :| 0 <= i < |names| && names[i] == n && values[i] == v;
    }
  }
}
