/** What parameters a match reports. A search binds names as it descends and unbinds them where it
    fails; the tree keeps, at each position, the name given by the route that created it. */
module RouteParams {
  import opened Wrappers
  import opened RoutePaths
  import opened RouteTrie
  import opened RouteTrieLaws

  // ---- What a search does to the map ------------------------------------------------------

  /** The names that a search below p unbinds when it fails: those of the parameter nodes it tries. */
  function Tried(t: Trie, p: Position, segs: seq<string>): set<string>
    decreases |segs|, 1
  {
    if segs == [] || segs[0] == "" then {}
    else TriedLit(t, p, segs)
         + if p + [Param] in t then {t[p + [Param]].paramName} + Tried(t, p + [Param], segs[1..]) else {}
  }

  function TriedLit(t: Trie, p: Position, segs: seq<string>): set<string>
    requires segs != []
    decreases |segs|, 0
  {
    if segs[0] != "" && p + [Lit(segs[0])] in t then Tried(t, p + [Lit(segs[0])], segs[1..]) else {}
  }

  /** The names that the nodes along q have in the tree. */
  function NamesOn(t: Trie, base: Position, q: Position): set<string>
    decreases |q|
  {
    if q == [] then {}
    else
      var here := base + [q[0]];
      (if !Lit?(q[0]) && here in t then {t[here].paramName} else {}) + NamesOn(t, here, q[1..])
  }

  /** The names that alternatives tried in vain take away from a route that is found along q: used by an
      alternative that comes first at some node, and not by the route from that node on. */
  function Lost(t: Trie, base: Position, q: Position, segs: seq<string>): set<string>
    decreases |q|
  {
    if q == [] || segs == [] then {}
    else
      match q[0]
      case Lit(s) => Lost(t, base + [q[0]], q[1..], segs[1..])
      case Param => (TriedLit(t, base, segs) - NamesOn(t, base, q)) + Lost(t, base + [Param], q[1..], segs[1..])
      case CatchAll => Tried(t, base, segs) - NamesOn(t, base, q)
  }

  /** The bindings of a route come on top of what was bound before. */
  lemma {:induction false} BindMerges(t: Trie, base: Position, q: Position, segs: seq<string>, params: Params)
    requires Candidate(t, base, q, segs) && PrefixClosedBelow(t, base, q) && PrefixClosed(t)
    ensures Bind(t, base, q, segs, params) == params + Bind(t, base, q, segs, map[])
    ensures Bind(t, base, q, segs, map[]).Keys == NamesOn(t, base, q)
    decreases |q|
  {
    hide Candidate, PrefixClosed, PrefixClosedBelow, Bind, Join;
    BindHead(t, base, q, segs, params);
    BindHead(t, base, q, segs, map[]);
    if q != [] {
      BindStep(t, base, q);
      match q[0]
      case CatchAll =>
        assert q[1..] == [];
      case Param =>
        var name := t[base + [Param]].paramName;
        BindMerges(t, base + [Param], q[1..], segs[1..], params[name := segs[0]]);
        BindMerges(t, base + [Param], q[1..], segs[1..], map[name := segs[0]]);
      case Lit(s) =>
        BindMerges(t, base + [Lit(s)], q[1..], segs[1..], params);
    }
  }

  /** What a search leaves in the map, whatever names the tree holds: a failed one unbinds the names it
      tried; a successful one adds the bindings of the route found, less those lost. */
  lemma {:induction false} SearchReports(t: Trie, base: Position, segs: seq<string>, params: Params)
    requires PrefixClosed(t) && base in t
    ensures var f := FindAt(t, base, segs, params);
            if f.position.None? then f.params == params - Tried(t, base, segs)
            else
              && Candidate(t, base, f.position.value, segs) && PrefixClosedBelow(t, base, f.position.value)
              && f.params == Bind(t, base, f.position.value, segs, params) - Lost(t, base, f.position.value, segs)
    decreases |segs|
  {
    hide PrefixClosed, Candidate, Bind, PrefixClosedBelow, Lost, NamesOn, Join;
    var f := FindAt(t, base, segs, params);
    FindIsBest(t, base, segs, params);
    JoinNothing();
    if f.position.Some? {
      CandidateIsStored(t, base, f.position.value, segs);
      ClosedBelow(t, base, f.position.value);
      BindHead(t, base, f.position.value, segs, params);
      LostHead(t, base, f.position.value, segs);
    }
    if segs != [] && segs[0] != "" {
      var lit, par := base + [Lit(segs[0])], base + [Param];
      if lit in t {
        SearchReports(t, lit, segs[1..], params);
      }
      var left := FindLit(t, base, segs, params);
      assert left.position.None? ==> left.params == params - TriedLit(t, base, segs);
      if left.position.None? && par in t {
        var name, value := t[par].paramName, segs[0];
        var g := FindAt(t, par, segs[1..], left.params[name := value]);
        SearchReports(t, par, segs[1..], left.params[name := value]);
        if g.position.Some? {
          ParamReports(t, base, g.position.value, segs, params);
        } else {
          TakenAway(params, TriedLit(t, base, segs), Tried(t, par, segs[1..]), name, value);
        }
      }
    }
    if f.position == Some([CatchAll]) && segs != [] {
      CatchAllReports(t, base, segs, params, Tried(t, base, segs));
    }
  }

  lemma TakenAway(params: Params, a: set<string>, b: set<string>, name: string, value: string)
    ensures (params - a)[name := value] - b - {name} == params - (a + ({name} + b))
  {
  }

  lemma CatchAllReports(t: Trie, base: Position, segs: seq<string>, params: Params, tried: set<string>)
    requires base + [CatchAll] in t
    ensures var name, value := t[base + [CatchAll]].paramName, Join(segs);
            (params - tried)[name := value] == params[name := value] - (tried - {name})
  {
  }

  lemma JoinNothing()
    ensures Join([]) == ""
  {
  }

  lemma LostHead(t: Trie, base: Position, q: Position, segs: seq<string>)
    ensures q == [] || segs == [] ==> Lost(t, base, q, segs) == {}
    ensures q != [] && segs != [] && q[0].Lit? ==> Lost(t, base, q, segs) == Lost(t, base + [q[0]], q[1..], segs[1..])
    ensures q == [CatchAll] && segs != [] && base + [CatchAll] in t ==>
              Lost(t, base, q, segs) == Tried(t, base, segs) - {t[base + [CatchAll]].paramName}
  {
    if q == [CatchAll] {
      assert q[1..] == [];
      assert NamesOn(t, base + [CatchAll], []) == {};
    }
  }

  /** The parameter branch, when it succeeds after the literal one failed. */
  lemma ParamReports(t: Trie, base: Position, q: Position, segs: seq<string>, params: Params)
    requires PrefixClosed(t) && segs != [] && segs[0] != "" && base + [Param] in t
    requires Candidate(t, base + [Param], q, segs[1..]) && PrefixClosedBelow(t, base + [Param], q)
    requires Candidate(t, base, [Param] + q, segs) && PrefixClosedBelow(t, base, [Param] + q)
    ensures var name := t[base + [Param]].paramName;
            Bind(t, base + [Param], q, segs[1..], (params - TriedLit(t, base, segs))[name := segs[0]])
              - Lost(t, base + [Param], q, segs[1..])
            == Bind(t, base, [Param] + q, segs, params) - Lost(t, base, [Param] + q, segs)
  {
    hide PrefixClosed, Candidate, Bind, PrefixClosedBelow, TriedLit;
    var par, all := base + [Param], [Param] + q;
    var name, value, tried := t[par].paramName, segs[0], TriedLit(t, base, segs);
    assert all[1..] == q;
    BindHead(t, base, all, segs, params);
    BindMerges(t, par, q, segs[1..], (params - tried)[name := value]);
    BindMerges(t, par, q, segs[1..], params[name := value]);
    var own := Bind(t, par, q, segs[1..], map[]);
    var lost := Lost(t, par, q, segs[1..]);
    assert Lost(t, base, all, segs) == (tried - ({name} + own.Keys)) + lost;
    assert (params - tried)[name := value] + own - lost
           == params[name := value] + own - ((tried - ({name} + own.Keys)) + lost);
  }

  /** A search started with no parameters reports all the bindings of the route it finds if and only if none
      of the route's names is lost: bound above a node where an alternative is tried first, in vain, that
      uses the name as well, and not bound again from there on. */
  lemma AllBoundExactly(t: Trie, segs: seq<string>)
    requires PrefixClosed(t) && FindAt(t, [], segs, map[]).position.Some?
    ensures var f := FindAt(t, [], segs, map[]);
            && Candidate(t, [], f.position.value, segs) && PrefixClosedBelow(t, [], f.position.value)
            && (f.params == Bind(t, [], f.position.value, segs, map[])
                <==> NamesOn(t, [], f.position.value) !! Lost(t, [], f.position.value, segs))
            && f.params.Keys == NamesOn(t, [], f.position.value) - Lost(t, [], f.position.value, segs)
  {
    hide Candidate, Bind, PrefixClosedBelow, Lost, NamesOn, FindAt;
    var q := FindAt(t, [], segs, map[]).position.value;
    SearchReports(t, [], segs, map[]);
    BindMerges(t, [], q, segs, map[]);
    var bound, lost := Bind(t, [], q, segs, map[]), Lost(t, [], q, segs);
    assert (bound - lost).Keys == bound.Keys - lost;
    if bound.Keys !! lost {
      assert bound - lost == bound;
    }
  }

  // ---- A route's own names ----------------------------------------------------------------

  /** The names a pattern gives its parameters, in order. Empty segments play no part. */
  function OwnNames(pattern: seq<string>): seq<string> {
    if pattern == [] then []
    else if pattern[0] == "" then OwnNames(pattern[1..])
    else
      match EdgeOf(pattern[0])
      case CatchAll => [pattern[0][1..]]
      case Param => [pattern[0][1..]] + OwnNames(pattern[1..])
      case Lit(_) => OwnNames(pattern[1..])
  }

  /** The names the tree has for them. */
  function TreeNames(t: Trie, base: Position, pattern: seq<string>): (names: seq<string>)
    ensures |names| == |OwnNames(pattern)|
    decreases |pattern|
  {
    if pattern == [] then []
    else if pattern[0] == "" then TreeNames(t, base, pattern[1..])
    else
      var here := base + [EdgeOf(pattern[0])];
      var name := if here in t then t[here].paramName else "";
      match EdgeOf(pattern[0])
      case CatchAll => [name]
      case Param => [name] + TreeNames(t, here, pattern[1..])
      case Lit(_) => TreeNames(t, here, pattern[1..])
  }

  /** The parts of a request that they stand for. */
  function Values(pattern: seq<string>, request: seq<string>): (values: seq<string>)
    requires Matches(Shape(pattern), request)
    ensures |values| == |OwnNames(pattern)|
    decreases |pattern|
  {
    if pattern == [] then []
    else if pattern[0] == "" then Values(pattern[1..], request)
    else
      assert Shape(pattern)[1..] == Shape(pattern[1..]);
      match EdgeOf(pattern[0])
      case CatchAll => [Join(request)]
      case Param => [request[0]] + Values(pattern[1..], request[1..])
      case Lit(_) => Values(pattern[1..], request[1..])
  }

  /** Names bound to values from left to right. */
  function Assign(params: Params, names: seq<string>, values: seq<string>): Params
    requires |names| == |values|
    decreases |names|
  {
    if names == [] then params else Assign(params[names[0] := values[0]], names[1..], values[1..])
  }

  /** What the parameters of a pattern are for a request, by the pattern's own names. */
  function OwnParams(pattern: seq<string>, request: seq<string>): Params
    requires Matches(Shape(pattern), request)
  {
    Assign(map[], OwnNames(pattern), Values(pattern, request))
  }

  /** What the tree binds for a pattern, by the tree's names. */
  lemma {:induction false} BindAssigns(t: Trie, base: Position, pattern: seq<string>, request: seq<string>, params: Params)
    requires PrefixClosed(t)
    requires Candidate(t, base, Shape(pattern), request) && PrefixClosedBelow(t, base, Shape(pattern))
    ensures Matches(Shape(pattern), request)
    ensures Bind(t, base, Shape(pattern), request, params)
            == Assign(params, TreeNames(t, base, pattern), Values(pattern, request))
    decreases |pattern|
  {
    hide PrefixClosed, PrefixClosedBelow, Bind, Join, HasEntry;
    BindHead(t, base, Shape(pattern), request, params);
    if pattern != [] {
      if pattern[0] == "" {
        BindAssigns(t, base, pattern[1..], request, params);
      } else {
        var e := EdgeOf(pattern[0]);
        BindStep(t, base, Shape(pattern));
        assert Shape(pattern)[1..] == Shape(pattern[1..]);
        var name := t[base + [e]].paramName;
        match e
        case CatchAll =>
          assert Assign(params, [name], [Join(request)]) == params[name := Join(request)];
        case Param =>
          BindAssigns(t, base + [Param], pattern[1..], request[1..], params[name := request[0]]);
          AssignCons(params, name, request[0], TreeNames(t, base + [Param], pattern[1..]),
                     Values(pattern[1..], request[1..]));
        case Lit(s) =>
          BindAssigns(t, base + [Lit(s)], pattern[1..], request[1..], params);
      }
    }
  }

  lemma AssignCons(params: Params, name: string, value: string, names: seq<string>, values: seq<string>)
    requires |names| == |values|
    ensures Assign(params, [name] + names, [value] + values) == Assign(params[name := value], names, values)
  {
    assert ([name] + names)[1..] == names && ([value] + values)[1..] == values;
  }

  predicate Distinct(names: seq<string>) {
    forall i, j :: 0 <= i < j < |names| ==> names[i] != names[j]
  }

  predicate Given(names: seq<string>, values: seq<string>, n: string, v: string)
    requires |names| == |values|
  {
    exists i :: 0 <= i < |names| && names[i] == n && values[i] == v
  }

  lemma GivenMore(names: seq<string>, values: seq<string>, n: string, v: string)
    requires |names| == |values| > 0
    ensures Given(names[1..], values[1..], n, v) ==> Given(names, values, n, v)
    ensures Given(names, values, names[0], values[0])
  {
    if Given(names[1..], values[1..], n, v) {
      var i :| 0 <= i < |names[1..]| && names[1..][i] == n && values[1..][i] == v;
      assert names[i + 1] == n && values[i + 1] == v;
    }
  }

  /** A name that is bound has one of the values given for it; one given once has that value. */
  lemma {:induction false} AssignMeaning(params: Params, names: seq<string>, values: seq<string>)
    requires |names| == |values|
    ensures var all := Assign(params, names, values);
            && (forall n :: n in all ==> (n in params && all[n] == params[n]) || Given(names, values, n, all[n]))
            && (forall n :: n in params && n !in names ==> n in all && all[n] == params[n])
            && (Distinct(names) ==> forall i :: 0 <= i < |names| ==> names[i] in all && all[names[i]] == values[i])
    decreases |names|
  {
    if names != [] {
      var rest, params1 := names[1..], params[names[0] := values[0]];
      AssignMeaning(params1, rest, values[1..]);
      var all := Assign(params, names, values);
      assert all == Assign(params1, rest, values[1..]);
      forall n | n in all
        ensures (n in params && all[n] == params[n]) || Given(names, values, n, all[n])
      {
        GivenMore(names, values, n, all[n]);
      }
      if Distinct(names) {
        assert Distinct(rest);
        assert names[0] !in rest;
        forall i | 0 <= i < |names|
          ensures names[i] in all && all[names[i]] == values[i]
        {
          if i > 0 {
            assert rest[i - 1] == names[i] && values[1..][i - 1] == values[i];
          }
        }
      }
    }
  }

  /** Different values tell different names apart. */
  lemma SameAssignments(a: seq<string>, b: seq<string>, values: seq<string>)
    requires |a| == |b| == |values| && Distinct(b) && Distinct(values)
    requires Assign(map[], a, values) == Assign(map[], b, values)
    ensures a == b
  {
    hide Assign;
    AssignMeaning(map[], a, values);
    AssignMeaning(map[], b, values);
    forall i | 0 <= i < |b|
      ensures a[i] == b[i]
    {
      var all := Assign(map[], a, values);
      assert b[i] in all && all[b[i]] == values[i];
      assert Given(a, values, b[i], values[i]);
      var j :| 0 <= j < |a| && a[j] == b[i] && values[j] == values[i];
      assert j == i;
    }
  }

  /** A request that a pattern matches, with a value of its own for each parameter. */
  function RequestFor(pattern: seq<string>, n: nat): seq<string> {
    if pattern == [] then []
    else if pattern[0] == "" then RequestFor(pattern[1..], n)
    else
      match EdgeOf(pattern[0])
      case CatchAll => [Mark(n)]
      case Param => [Mark(n)] + RequestFor(pattern[1..], n + 1)
      case Lit(s) => [s] + RequestFor(pattern[1..], n)
  }

  function Mark(n: nat): string {
    seq(n + 1, _ => 'v')
  }

  predicate MarkedFrom(values: seq<string>, n: nat) {
    forall i :: 0 <= i < |values| ==> values[i] == Mark(n + i)
  }

  lemma MarkedCons(values: seq<string>, n: nat)
    requires MarkedFrom(values, n + 1)
    ensures MarkedFrom([Mark(n)] + values, n)
  {
    hide Mark;
    var all := [Mark(n)] + values;
    forall i | 0 <= i < |all|
      ensures all[i] == Mark(n + i)
    {
      if i > 0 {
        assert all[i] == values[i - 1] == Mark(n + 1 + (i - 1));
      }
    }
  }

  lemma MarksDiffer(values: seq<string>, n: nat)
    requires MarkedFrom(values, n)
    ensures Distinct(values)
  {
    assert forall i :: 0 <= i < |values| ==> |values[i]| == n + i + 1;
  }

  lemma {:induction false} RequestMatches(pattern: seq<string>, n: nat)
    requires WellPlaced(pattern)
    ensures Matches(Shape(pattern), RequestFor(pattern, n))
    ensures MarkedFrom(Values(pattern, RequestFor(pattern, n)), n)
    decreases |pattern|
  {
    hide MarkedFrom, Mark;
    if pattern == [] {
      NoneMarked(n);
    } else {
      var rest, request := pattern[1..], RequestFor(pattern, n);
      assert forall i :: 0 <= i < |rest| ==> rest[i] == pattern[i + 1];
      if pattern[0] == "" {
        RequestMatches(rest, n);
      } else {
        assert Shape(pattern)[1..] == Shape(rest);
        match EdgeOf(pattern[0])
        case CatchAll =>
          assert rest == [];
          NoneMarked(n + 1);
          MarkedCons([], n);
          assert [Mark(n)] + [] == [Mark(n)];
        case Param =>
          RequestMatches(rest, n + 1);
          assert request[1..] == RequestFor(rest, n + 1);
          MarkedCons(Values(rest, request[1..]), n);
          MarkNotEmpty(n);
        case Lit(s) =>
          RequestMatches(rest, n);
          assert request[1..] == RequestFor(rest, n);
      }
    }
  }

  lemma NoneMarked(n: nat)
    ensures MarkedFrom([], n)
  {
  }

  lemma MarkNotEmpty(n: nat)
    ensures Mark(n) != ""
  {
    assert |Mark(n)| == n + 1;
  }

  /** A route whose own names are distinct gets them from the tree, for every request it matches, if and
      only if the tree names each of its positions as it does. */
  lemma OwnNamesExactly(t: Trie, pattern: seq<string>)
    requires PrefixClosed(t) && HasEntry(t, [] + Shape(pattern)) && PrefixClosedBelow(t, [], Shape(pattern))
    requires WellPlaced(pattern) && Distinct(OwnNames(pattern))
    ensures (forall request :: Matches(Shape(pattern), request) ==>
               Bind(t, [], Shape(pattern), request, map[]) == OwnParams(pattern, request))
            <==> TreeNames(t, [], pattern) == OwnNames(pattern)
  {
    hide PrefixClosed, PrefixClosedBelow, Bind, Assign, Distinct, Matches, HasEntry, Values, RequestFor, MarkedFrom;
    forall request | Matches(Shape(pattern), request)
      ensures Bind(t, [], Shape(pattern), request, map[])
              == Assign(map[], TreeNames(t, [], pattern), Values(pattern, request))
    {
      BindAssigns(t, [], pattern, request, map[]);
    }
    var request := RequestFor(pattern, 0);
    RequestMatches(pattern, 0);
    if Bind(t, [], Shape(pattern), request, map[]) == OwnParams(pattern, request) {
      MarksDiffer(Values(pattern, request), 0);
      SameAssignments(TreeNames(t, [], pattern), OwnNames(pattern), Values(pattern, request));
    }
  }

  /** The names of a pattern's positions once it has been added: those that are there already, and its own
      for the others. */
  function NamesAfter(t: Trie, base: Position, pattern: seq<string>): seq<string>
    decreases |pattern|
  {
    if pattern == [] then []
    else if pattern[0] == "" then NamesAfter(t, base, pattern[1..])
    else
      var here := base + [EdgeOf(pattern[0])];
      var name := if here in t then t[here].paramName else pattern[0][1..];
      match EdgeOf(pattern[0])
      case CatchAll => [name]
      case Param => [name] + NamesAfter(t, here, pattern[1..])
      case Lit(_) => NamesAfter(t, here, pattern[1..])
  }

  lemma {:induction false} NamesBelow(t: Trie, t1: Trie, p: Position, pattern: seq<string>)
    requires forall q :: |q| > |p| ==> (q in t1 <==> q in t) && (q in t ==> t1[q] == t[q])
    ensures NamesAfter(t1, p, pattern) == NamesAfter(t, p, pattern)
    decreases |pattern|
  {
    if pattern != [] {
      NamesBelow(t, t1, if pattern[0] == "" then p else p + [EdgeOf(pattern[0])], pattern[1..]);
    }
  }

  /** The name at a position is given by the route that creates it: adding another route changes no name
      that is there, and that route's positions have its own names only where it is the first. */
  lemma {:induction false} FirstNameStays(t: Trie, p: Position, segs: seq<string>, entry: RouteEntry)
    requires PrefixClosed(t) && p in t && WellPlaced(segs)
    ensures var t' := InsertAt(t, p, segs, entry).0;
            && (forall q :: q in t ==> q in t' && t'[q].paramName == t[q].paramName)
            && TreeNames(t', p, segs) == NamesAfter(t, p, segs)
    decreases |segs|
  {
    InsertEffect(t, p, segs, entry);
    if segs != [] {
      var rest := segs[1..];
      assert forall i :: 0 <= i < |rest| ==> rest[i] == segs[i + 1];
      if segs[0] == "" {
        FirstNameStays(t, p, rest, entry);
      } else {
        hide PrefixClosed;
        var child, t1 := p + [EdgeOf(segs[0])], AddChild(t, p, segs[0]);
        AddChildKeeps(t, p, segs[0]);
        if !EdgeOf(segs[0]).CatchAll? {
          FirstNameStays(t1, child, rest, entry);
          NamesBelow(t, t1, child, rest);
        }
      }
    }
  }

  lemma {:induction false} ShapeOfWellPlaced(pattern: seq<string>)
    requires WellPlaced(pattern)
    ensures forall i :: 0 <= i < |Shape(pattern)| - 1 ==> !Shape(pattern)[i].CatchAll?
  {
    if pattern != [] {
      var rest := pattern[1..];
      assert forall i :: 0 <= i < |rest| ==> rest[i] == pattern[i + 1];
      ShapeOfWellPlaced(rest);
      if pattern[0] != "" && IsCatchAll(pattern[0]) {
        assert rest == [];
      }
    }
  }

  /** Adding a route whose own names are distinct: for every request it then gets them from the tree if and
      only if every position on its way that was there before has the name it would give. */
  lemma AddedRouteGetsItsNames(t: Trie, pattern: seq<string>, entry: RouteEntry)
    requires PrefixClosed(t) && WellPlaced(pattern) && Distinct(OwnNames(pattern)) && InsertAt(t, [], pattern, entry).1
    ensures var t' := InsertAt(t, [], pattern, entry).0;
            && HasEntry(t', [] + Shape(pattern)) && PrefixClosedBelow(t', [], Shape(pattern))
            && ((forall request :: Matches(Shape(pattern), request) ==>
                   Bind(t', [], Shape(pattern), request, map[]) == OwnParams(pattern, request))
                <==> NamesAfter(t, [], pattern) == OwnNames(pattern))
  {
    hide PrefixClosedBelow, Bind, Matches, InsertAt, Distinct, OwnParams;
    var t' := InsertAt(t, [], pattern, entry).0;
    InsertEffect(t, [], pattern, entry);
    FirstNameStays(t, [], pattern, entry);
    ClosedBelow(t', [], Shape(pattern));
    OwnNamesExactly(t', pattern);
  }

  // ---- Routes that agree on their names ---------------------------------------------------

  /** A choice of one name for each position of a tree. */
  type Naming = Position -> string

  /** The pattern names its parameters as the naming does. */
  predicate Follows(pattern: seq<string>, base: Position, naming: Naming)
    decreases |pattern|
  {
    if pattern == [] then true
    else if pattern[0] == "" then Follows(pattern[1..], base, naming)
    else
      var here := base + [EdgeOf(pattern[0])];
      && (!EdgeOf(pattern[0]).Lit? ==> pattern[0][1..] == naming(here))
      && Follows(pattern[1..], here, naming)
  }

  ghost predicate NamedBy(t: Trie, naming: Naming) {
    forall p, e :: !Lit?(e) && p + [e] in t ==> t[p + [e]].paramName == naming(p + [e])
  }

  /** Adding a route that follows the naming keeps the tree named by it. */
  lemma {:induction false} InsertKeepsNaming(t: Trie, p: Position, segs: seq<string>, entry: RouteEntry, naming: Naming)
    requires NamedBy(t, naming) && p in t && Follows(segs, p, naming)
    ensures NamedBy(InsertAt(t, p, segs, entry).0, naming)
    decreases |segs|
  {
    if segs != [] {
      if segs[0] == "" {
        InsertKeepsNaming(t, p, segs[1..], entry, naming);
      } else {
        AddChildKeepsNaming(t, p, segs[0], naming);
        if !EdgeOf(segs[0]).CatchAll? {
          InsertKeepsNaming(AddChild(t, p, segs[0]), p + [EdgeOf(segs[0])], segs[1..], entry, naming);
        }
      }
    }
  }

  lemma AddChildKeepsNaming(t: Trie, p: Position, segment: string, naming: Naming)
    requires NamedBy(t, naming) && p in t && segment != ""
    requires !EdgeOf(segment).Lit? ==> segment[1..] == naming(p + [EdgeOf(segment)])
    ensures NamedBy(AddChild(t, p, segment), naming)
  {
    forall q, e | q + [e] == p + [EdgeOf(segment)]
      ensures e == EdgeOf(segment)
    {
      SnocInjective(q, e, p, EdgeOf(segment));
    }
  }

  /** Removing any route keeps the naming. */
  lemma RemoveKeepsNaming(t: Trie, segs: seq<string>, naming: Naming)
    requires NamedBy(t, naming) && PrefixClosed(t)
    ensures NamedBy(RemoveAt(t, [], segs).0, naming)
  {
    RemoveEffect(t, [], segs);
  }

  lemma {:induction false} NamesAgree(t: Trie, base: Position, pattern: seq<string>, naming: Naming)
    requires NamedBy(t, naming) && Follows(pattern, base, naming) && PrefixClosedBelow(t, base, Shape(pattern))
    ensures TreeNames(t, base, pattern) == OwnNames(pattern)
    decreases |pattern|
  {
    hide PrefixClosedBelow, NamedBy;
    if pattern != [] {
      if pattern[0] == "" {
        NamesAgree(t, base, pattern[1..], naming);
      } else {
        var e := EdgeOf(pattern[0]);
        NameHere(t, base, e, naming, Shape(pattern));
        assert Shape(pattern)[1..] == Shape(pattern[1..]);
        BindStep(t, base, Shape(pattern));
        NamesAgree(t, base + [e], pattern[1..], naming);
      }
    }
  }

  lemma NameHere(t: Trie, base: Position, e: Edge, naming: Naming, q: Position)
    requires NamedBy(t, naming) && q != [] && q[0] == e && PrefixClosedBelow(t, base, q)
    ensures base + [e] in t && (!Lit?(e) ==> t[base + [e]].paramName == naming(base + [e]))
  {
    BindStep(t, base, q);
  }

  // ---- Distinct names ---------------------------------------------------------------------

  /** A named position on the way of a pattern has one of the pattern's names. */
  lemma {:induction false} NameAlong(pattern: seq<string>, base: Position, naming: Naming, q: Position, f: Edge, r: Position)
    requires Follows(pattern, base, naming) && Shape(pattern) == (q + [f]) + r && !Lit?(f)
    requires forall i :: 0 <= i < |Shape(pattern)| - 1 ==> !Shape(pattern)[i].CatchAll?
    ensures naming(base + (q + [f])) in OwnNames(pattern)
    decreases |pattern|
  {
    if pattern[0] == "" {
      NameAlong(pattern[1..], base, naming, q, f, r);
    } else {
      var e := EdgeOf(pattern[0]);
      assert Shape(pattern)[1..] == Shape(pattern[1..]);
      if q == [] {
        assert q + [f] == [f];
        assert Shape(pattern)[0] == f;
      } else {
        assert q == [e] + q[1..] by { assert Shape(pattern)[0] == q[0]; }
        assert (q + [f]) + r == [e] + ((q[1..] + [f]) + r);
        assert base + (q + [f]) == (base + [e]) + (q[1..] + [f]);
        NameAlong(pattern[1..], base + [e], naming, q[1..], f, r);
        assert !Shape(pattern)[0].CatchAll?;
        if e.Param? {
          assert OwnNames(pattern) == [pattern[0][1..]] + OwnNames(pattern[1..]);
        }
      }
    }
  }

  /** Two of them have different names where the pattern's own names are distinct. */
  lemma {:induction false} NamesDiffer(pattern: seq<string>, base: Position, naming: Naming, p: Position, e: Edge,
                                       q: Position, f: Edge, r: Position)
    requires Follows(pattern, base, naming) && Distinct(OwnNames(pattern)) && !Lit?(e) && !Lit?(f)
    requires Shape(pattern) == ((p + [e]) + (q + [f])) + r
    requires forall i :: 0 <= i < |Shape(pattern)| - 1 ==> !Shape(pattern)[i].CatchAll?
    ensures naming(base + (p + [e])) != naming((base + (p + [e])) + (q + [f]))
    decreases |pattern|
  {
    var rest := pattern[1..];
    if pattern[0] == "" {
      NamesDiffer(rest, base, naming, p, e, q, f, r);
    } else {
      var h := EdgeOf(pattern[0]);
      assert Shape(pattern)[1..] == Shape(rest);
      assert Shape(pattern)[0] == if p == [] then e else p[0];
      if p == [] {
        assert p + [e] == [e];
        assert ([e] + (q + [f])) + r == [e] + ((q + [f]) + r);
        assert Shape(rest) == (q + [f]) + r;
        NameAlong(rest, base + [e], naming, q, f, r);
        assert OwnNames(pattern) == [pattern[0][1..]] + OwnNames(rest);
        HeadDiffers(pattern[0][1..], OwnNames(rest), naming((base + [e]) + (q + [f])));
      } else {
        assert p == [h] + p[1..];
        assert ((p + [e]) + (q + [f])) + r == [h] + (((p[1..] + [e]) + (q + [f])) + r);
        assert base + (p + [e]) == (base + [h]) + (p[1..] + [e]);
        if !h.Lit? {
          assert OwnNames(pattern) == [pattern[0][1..]] + OwnNames(rest);
          TailDistinct(pattern[0][1..], OwnNames(rest));
        }
        NamesDiffer(rest, base + [h], naming, p[1..], e, q, f, r);
      }
    }
  }

  lemma HeadDiffers(head: string, rest: seq<string>, name: string)
    requires Distinct([head] + rest) && name in rest
    ensures head != name
  {
    var i :| 0 <= i < |rest| && rest[i] == name;
    assert ([head] + rest)[i + 1] == name && ([head] + rest)[0] == head;
  }

  lemma TailDistinct(head: string, rest: seq<string>)
    requires Distinct([head] + rest)
    ensures Distinct(rest)
  {
    assert ([head] + rest)[1..] == rest;
    assert forall i :: 0 <= i < |rest| ==> ([head] + rest)[i + 1] == rest[i];
  }
}
