/** What insertion and removal do to the routes of a trie, and what a search does to the
    parameter map. */
module RouteTrieLaws {
  import opened Wrappers
  import opened RoutePaths
  import opened RouteTrie

  lemma SnocInjective(p: Position, e: Edge, q: Position, f: Edge)
    requires p + [e] == q + [f]
    ensures p == q && e == f
  {
    assert (p + [e])[..|p|] == p;
    assert (q + [f])[..|q|] == q;
    assert (p + [e])[|p|] == e;
  }

  /** A catch-all, if any, is in the last segment. */
  predicate WellPlaced(segs: seq<string>) {
    forall i :: 0 <= i < |segs| - 1 ==> !IsCatchAll(segs[i])
  }

  predicate NoEmptySegments(segs: seq<string>) {
    forall i :: 0 <= i < |segs| ==> segs[i] != ""
  }

  predicate IsCatchAll(segment: string) {
    segment != "" && segment[0] == '*'
  }

  /** Same positions and names, except possibly entries. */
  ghost predicate SameRoutesBut(t: Trie, t': Trie, target: Position) {
    forall q :: q != target ==>
      (HasEntry(t', q) <==> HasEntry(t, q)) && (HasEntry(t, q) ==> t'[q].entry == t[q].entry)
  }

  /** No node except the root, and possibly p, is without both an entry and children; catch-alls are
      leaves. */
  ghost predicate TidyBut(t: Trie, p: Position) {
    && PrefixClosed(t)
    && (forall q :: q in t && q != [] && q != p ==> t[q].entry.Some? || HasChildren(t, q))
    && (forall q :: q + [CatchAll] in t ==> !HasChildren(t, q + [CatchAll]))
  }

  ghost predicate Tidy(t: Trie) {
    TidyBut(t, [])
  }

  lemma AddChildKeeps(t: Trie, p: Position, segment: string)
    requires PrefixClosed(t) && p in t && segment != ""
    ensures var t1 := AddChild(t, p, segment);
            && PrefixClosed(t1)
            && (forall q :: q in t ==> q in t1 && t1[q] == t[q])
            && (forall q :: q in t1 ==> q in t || (q == p + [EdgeOf(segment)] && t1[q].entry == None))
  {
    var child := p + [EdgeOf(segment)];
    forall q, e | q + [e] == child
      ensures q == p
    {
      SnocInjective(q, e, p, EdgeOf(segment));
    }
  }

  /** Insertion fails exactly on a position that already has a route, and then changes nothing;
      otherwise it adds that one route and keeps all others, and every name, as they were. */
  lemma {:induction false} InsertEffect(t: Trie, p: Position, segs: seq<string>, entry: RouteEntry)
    requires PrefixClosed(t) && p in t && WellPlaced(segs)
    ensures var (t', ok) := InsertAt(t, p, segs, entry);
            var target := p + Shape(segs);
            && PrefixClosed(t')
            && (ok <==> !HasEntry(t, target))
            && (ok ==> HasEntry(t', target) && t'[target].entry == Some(entry) && SameRoutesBut(t, t', target))
            && (forall q :: q in t ==> q in t' && t'[q].paramName == t[q].paramName)
            && (!ok ==> SameRoutesBut(t, t', target) && HasEntry(t', target) && t'[target].entry == t[target].entry)
    decreases |segs|
  {
    if segs == [] {
      assert p + [] == p;
    } else if segs[0] == "" {
      InsertEffect(t, p, segs[1..], entry);
    } else {
      var child := p + [EdgeOf(segs[0])];
      AddChildKeeps(t, p, segs[0]);
      assert p + ([EdgeOf(segs[0])] + Shape(segs[1..])) == child + Shape(segs[1..]);
      if EdgeOf(segs[0]).CatchAll? {
        assert |segs| == 1;
        assert segs[1..] == [];
        assert child + [] == child;
      } else {
        InsertEffect(AddChild(t, p, segs[0]), child, segs[1..], entry);
      }
    }
  }

  lemma PruneKeeps(t: Trie, p: Position)
    requires PrefixClosed(t) && p in t && p != []
    ensures var t' := Prune(t, p);
            && PrefixClosed(t')
            && (forall q :: HasEntry(t', q) <==> HasEntry(t, q))
            && (forall q :: q in t' ==> q in t && t'[q] == t[q])
            && (forall q :: q in t && q != p ==> q in t')
  {
  }

  /** Removal succeeds exactly on a pattern without empty segments whose position has a route, and
      whose catch-all, if it ends in one, bears the name in the tree; it then takes away that one
      route and keeps all others. */
  lemma {:induction false} RemoveEffect(t: Trie, p: Position, segs: seq<string>)
    requires PrefixClosed(t) && p in t
    ensures var (t', removed) := RemoveAt(t, p, segs);
            var target := p + Shape(segs);
            && PrefixClosed(t')
            && (removed <==> Removable(t, p, segs))
            && (removed ==> !HasEntry(t', target) && SameRoutesBut(t, t', target))
            && (forall q :: q in t' ==> q in t && t'[q].paramName == t[q].paramName)
    decreases |segs|
  {
    if segs == [] {
      assert p + [] == p;
    } else if segs[0] != "" {
      var child := p + [EdgeOf(segs[0])];
      assert p + ([EdgeOf(segs[0])] + Shape(segs[1..])) == child + Shape(segs[1..]);
      if child in t {
        if EdgeOf(segs[0]).CatchAll? {
          if |segs| == 1 && t[child].paramName == segs[0][1..] && t[child].entry.Some? {
            PruneKeeps(SetEntry(t, child, None), child);
          }
          assert |segs| == 1 ==> segs[1..] == [] && child + [] == child;
        } else {
          RemoveEffect(t, child, segs[1..]);
          PruneKeeps(RemoveAt(t, child, segs[1..]).0, child);
        }
        RemovableStep(t, p, segs);
      } else {
        if HasEntry(t, child + Shape(segs[1..])) {
          AncestorsPresent(t, child, Shape(segs[1..]));
        }
        RemovableStep(t, p, segs);
      }
    }
  }

  predicate Removable(t: Trie, p: Position, segs: seq<string>) {
    && NoEmptySegments(segs) && WellPlaced(segs)
    && HasEntry(t, p + Shape(segs))
    && (segs != [] && IsCatchAll(segs[|segs| - 1]) ==> t[p + Shape(segs)].paramName == segs[|segs| - 1][1..])
  }

  lemma RemovableStep(t: Trie, p: Position, segs: seq<string>)
    requires segs != [] && segs[0] != ""
    ensures var child := p + [EdgeOf(segs[0])];
            Removable(t, p, segs) <==>
            if EdgeOf(segs[0]).CatchAll? then |segs| == 1 && HasEntry(t, child) && t[child].paramName == segs[0][1..]
            else Removable(t, child, segs[1..])
  {
    var child := p + [EdgeOf(segs[0])];
    assert p + ([EdgeOf(segs[0])] + Shape(segs[1..])) == child + Shape(segs[1..]);
    if |segs| == 1 {
      assert segs[1..] == [] && child + [] == child;
    } else {
      SegmentsStep(segs);
    }
  }

  lemma SegmentsStep(segs: seq<string>)
    requires |segs| > 1
    ensures segs[|segs| - 1] == segs[1..][|segs[1..]| - 1]
    ensures NoEmptySegments(segs) <==> segs[0] != "" && NoEmptySegments(segs[1..])
    ensures WellPlaced(segs) <==> !IsCatchAll(segs[0]) && WellPlaced(segs[1..])
  {
    var rest := segs[1..];
    assert forall i :: 0 < i < |segs| ==> segs[i] == rest[i - 1];
    assert forall i :: 0 <= i < |rest| ==> rest[i] == segs[i + 1];
  }

  // ---- No node is left behind -------------------------------------------------------------

  lemma AddChildTidy(t: Trie, p: Position, segment: string)
    requires TidyBut(t, p) && p in t && segment != "" && (p == [] || !p[|p| - 1].CatchAll?)
    ensures TidyBut(AddChild(t, p, segment), p + [EdgeOf(segment)])
    ensures p + [EdgeOf(segment)] !in t ==> !HasChildren(AddChild(t, p, segment), p + [EdgeOf(segment)])
  {
    var child, t1 := p + [EdgeOf(segment)], AddChild(t, p, segment);
    AddChildKeeps(t, p, segment);
    forall q | q in t1 && q != [] && q != child
      ensures t1[q].entry.Some? || HasChildren(t1, q)
    {
      if q == p {
        assert child in t1;
      } else if HasChildren(t, q) {
        var e :| q + [e] in t;
        assert q + [e] in t1;
      }
    }
    forall q, e | q + [e] == child
      ensures q == p
    {
      SnocInjective(q, e, p, EdgeOf(segment));
    }
    if child !in t {
      forall e
        ensures child + [e] !in t1
      {
        assert |child + [e]| != |child|;
      }
    }
  }

  /** A node that gets an entry needs no children. */
  lemma FilledIsTidy(t: Trie, p: Position, entry: RouteEntry)
    requires TidyBut(t, p) && p in t
    ensures Tidy(SetEntry(t, p, Some(entry)))
  {
    var t' := SetEntry(t, p, Some(entry));
    assert forall q :: HasChildren(t, q) ==> HasChildren(t', q) by { ChildrenSurvive(t, t'); }
    assert forall q :: HasChildren(t', q) ==> HasChildren(t, q) by { ChildrenSurvive(t', t); }
  }

  lemma {:induction false} InsertTidy(t: Trie, p: Position, segs: seq<string>, entry: RouteEntry)
    requires TidyBut(t, p) && p in t && WellPlaced(segs) && (p == [] || !p[|p| - 1].CatchAll?)
    ensures var (t', ok) := InsertAt(t, p, segs, entry);
            (ok ==> Tidy(t')) && (!ok ==> t' == t)
    decreases |segs|
  {
    TidyIsClosed(t, p);
    if segs == [] {
      FilledIsTidy(t, p, entry);
    } else if segs[0] == "" {
      InsertTidy(t, p, segs[1..], entry);
    } else {
      hide TidyBut, Tidy, HasChildren, PrefixClosed;
      var child, t1 := p + [EdgeOf(segs[0])], AddChild(t, p, segs[0]);
      AddChildTidy(t, p, segs[0]);
      AddChildKeeps(t, p, segs[0]);
      if EdgeOf(segs[0]).CatchAll? {
        FilledIsTidy(t1, child, entry);
      } else {
        InsertTidy(t1, child, segs[1..], entry);
        InsertEffect(t1, child, segs[1..], entry);
        if child !in t && HasEntry(t1, child + Shape(segs[1..])) {
          NothingBelow(t, t1, p, segs);
        }
      }
    }
  }

  lemma TidyIsClosed(t: Trie, p: Position)
    requires TidyBut(t, p)
    ensures PrefixClosed(t)
  {
  }

  lemma ChildrenSurvive(t: Trie, t': Trie)
    requires forall q :: q in t ==> q in t'
    ensures forall q :: HasChildren(t, q) ==> HasChildren(t', q)
  {
  }

  /** A child that was not there before leads to no entry. */
  lemma NothingBelow(t: Trie, t1: Trie, p: Position, segs: seq<string>)
    requires PrefixClosed(t) && p in t && segs != [] && segs[0] != ""
    requires p + [EdgeOf(segs[0])] !in t && t1 == AddChild(t, p, segs[0])
    ensures !HasEntry(t1, p + [EdgeOf(segs[0])] + Shape(segs[1..]))
  {
    var child, rest := p + [EdgeOf(segs[0])], Shape(segs[1..]);
    if child + rest in t {
      AncestorsPresent(t, child, rest);
    }
    if rest == [] {
      assert child + rest == child;
    } else {
      assert |child + rest| != |child|;
    }
  }

  lemma PruneTidy(t: Trie, p: Position, e: Edge)
    requires TidyBut(t, p + [e]) && p + [e] in t
    ensures TidyBut(Prune(t, p + [e]), p)
  {
    var child, t' := p + [e], Prune(t, p + [e]);
    PruneKeeps(t, child);
    forall q | q in t' && q != [] && q != p
      ensures t'[q].entry.Some? || HasChildren(t', q)
    {
      if t[q].entry.None? && q != child {
        var f :| q + [f] in t;
        if q + [f] == child {
          SnocInjective(q, f, p, e);
        }
        assert q + [f] in t';
      }
    }
  }

  lemma {:induction false} RemoveTidy(t: Trie, p: Position, segs: seq<string>)
    requires Tidy(t) && p in t
    ensures TidyBut(RemoveAt(t, p, segs).0, p)
    decreases |segs|
  {
    if RemoveAt(t, p, segs).1 {
      if segs == [] {
        var t' := SetEntry(t, p, None);
        assert forall q :: HasChildren(t, q) ==> HasChildren(t', q) by { ChildrenSurvive(t, t'); }
        assert forall q :: HasChildren(t', q) ==> HasChildren(t, q) by { ChildrenSurvive(t', t); }
      } else {
        var e := EdgeOf(segs[0]);
        if e.CatchAll? {
          var t' := SetEntry(t, p + [e], None);
          assert forall q :: HasChildren(t, q) ==> HasChildren(t', q) by { ChildrenSurvive(t, t'); }
          assert forall q :: HasChildren(t', q) ==> HasChildren(t, q) by { ChildrenSurvive(t', t); }
          PruneTidy(t', p, e);
        } else {
          RemoveTidy(t, p + [e], segs[1..]);
          PruneTidy(RemoveAt(t, p + [e], segs[1..]).0, p, e);
        }
      }
    }
  }

  /** Removing the route just inserted gives back the very same trie: nodes, names and entries. */
  lemma {:induction false} RemoveUndoesInsert(t: Trie, p: Position, segs: seq<string>, entry: RouteEntry)
    requires TidyBut(t, p) && p in t && (p == [] || !p[|p| - 1].CatchAll?)
    requires WellPlaced(segs) && NoEmptySegments(segs)
    requires InsertAt(t, p, segs, entry).1
    ensures RemoveAt(InsertAt(t, p, segs, entry).0, p, segs) == (t, true)
    decreases |segs|
  {
    var t' := InsertAt(t, p, segs, entry).0;
    if segs == [] {
      assert SetEntry(t', p, None) == t;
    } else {
      var child, t1 := p + [EdgeOf(segs[0])], AddChild(t, p, segs[0]);
      AddChildKeeps(t, p, segs[0]);
      AddChildTidy(t, p, segs[0]);
      AddThenPrune(t, p, segs[0]);
      hide TidyBut, AddChild, Prune;
      if EdgeOf(segs[0]).CatchAll? {
        assert |segs| == 1;
        assert SetEntry(t', child, None) == t1;
      } else {
        if |segs| > 1 {
          SegmentsStep(segs);
        }
        RemoveUndoesInsert(t1, child, segs[1..], entry);
      }
    }
  }

  lemma AddThenPrune(t: Trie, p: Position, segment: string)
    requires TidyBut(t, p) && p in t && segment != "" && (p == [] || !p[|p| - 1].CatchAll?)
    ensures p + [EdgeOf(segment)] in AddChild(t, p, segment)
    ensures Prune(AddChild(t, p, segment), p + [EdgeOf(segment)]) == t
  {
    AddChildTidy(t, p, segment);
    assert |p + [EdgeOf(segment)]| != |p|;
  }

  // ---- Parameters -------------------------------------------------------------------------

  /** A failed search only ever takes bindings away. In particular, started with no parameters it
      leaves none. */
  lemma {:induction false} FailedFindLeavesNothing(t: Trie, p: Position, segs: seq<string>, params: Params)
    requires p in t && FindAt(t, p, segs, params).position.None?
    ensures var left := FindAt(t, p, segs, params).params;
            left.Keys <= params.Keys && forall k :: k in left ==> left[k] == params[k]
    decreases |segs|
  {
    if segs != [] && segs[0] != "" {
      if p + [Lit(segs[0])] in t {
        FailedFindLeavesNothing(t, p + [Lit(segs[0])], segs[1..], params);
      }
      if p + [Param] in t {
        FailedFindLeavesNothing(t, p + [Param], segs[1..],
                                FindLit(t, p, segs, params).params[t[p + [Param]].paramName := segs[0]]);
      }
    }
  }

  /** The parameters of a route: each parameter and catch-all along it takes its part of the request. */
  function Bind(t: Trie, base: Position, q: Position, segs: seq<string>, params: Params): Params
    requires Candidate(t, base, q, segs) && PrefixClosedBelow(t, base, q)
    decreases |q|
  {
    if q == [] then params
    else
      BindStep(t, base, q);
      match q[0]
      case CatchAll => params[t[base + [CatchAll]].paramName := Join(segs)]
      case Param => Bind(t, base + [Param], q[1..], segs[1..], params[t[base + [Param]].paramName := segs[0]])
      case Lit(s) => Bind(t, base + [Lit(s)], q[1..], segs[1..], params)
  }

  predicate PrefixClosedBelow(t: Trie, base: Position, q: Position) {
    forall i :: 0 <= i <= |q| ==> base + q[..i] in t
  }

  lemma BindStep(t: Trie, base: Position, q: Position)
    requires q != [] && PrefixClosedBelow(t, base, q)
    ensures base + [q[0]] in t && PrefixClosedBelow(t, base + [q[0]], q[1..])
    ensures (base + [q[0]]) + q[1..] == base + q
  {
    assert q[..1] == [q[0]];
    forall i | 0 <= i <= |q[1..]|
      ensures (base + [q[0]]) + q[1..][..i] in t
    {
      assert (base + [q[0]]) + q[1..][..i] == base + q[..i + 1];
    }
  }

  lemma {:induction false} ClosedBelow(t: Trie, base: Position, q: Position)
    requires PrefixClosed(t) && base + q in t
    ensures PrefixClosedBelow(t, base, q)
  {
    forall i | 0 <= i <= |q|
      ensures base + q[..i] in t
    {
      assert base + q == (base + q[..i]) + q[i..];
      AncestorsPresent(t, base + q[..i], q[i..]);
    }
  }

  /** No name occurs twice on the way from the root to any node. */
  ghost predicate DistinctNames(t: Trie) {
    forall p, e, q, f :: !Lit?(e) && !Lit?(f) && p + [e] in t && (p + [e]) + (q + [f]) in t ==>
      t[p + [e]].paramName != t[(p + [e]) + (q + [f])].paramName
  }

  predicate Lit?(e: Edge) {
    e.Lit?
  }

  /** No name in use below base is already bound. */
  ghost predicate Unbound(t: Trie, base: Position, params: Params) {
    forall q, f :: !Lit?(f) && base + (q + [f]) in t ==> t[base + (q + [f])].paramName !in params
  }

  lemma UnboundBelow(t: Trie, base: Position, e: Edge, params: Params)
    requires Unbound(t, base, params)
    ensures Unbound(t, base + [e], params)
  {
    forall q, f | !Lit?(f) && (base + [e]) + (q + [f]) in t
      ensures t[(base + [e]) + (q + [f])].paramName !in params
    {
      assert (base + [e]) + (q + [f]) == base + (([e] + q) + [f]);
    }
  }

  lemma UnboundChild(t: Trie, base: Position, e: Edge, params: Params)
    requires Unbound(t, base, params) && base + [e] in t && !Lit?(e)
    ensures t[base + [e]].paramName !in params
  {
    assert base + [e] == base + ([] + [e]);
  }

  /** When names are distinct along every path of the tree, a failed search leaves the parameters as
      they were, and a successful one adds exactly the bindings of the route it found. */
  lemma {:induction false} FindBindsRoute(t: Trie, base: Position, segs: seq<string>, params: Params)
    requires PrefixClosed(t) && base in t && DistinctNames(t) && Unbound(t, base, params)
    ensures var f := FindAt(t, base, segs, params);
            if f.position.None? then f.params == params
            else
              && Candidate(t, base, f.position.value, segs) && PrefixClosedBelow(t, base, f.position.value)
              && f.params == Bind(t, base, f.position.value, segs, params)
    decreases |segs|
  {
    hide DistinctNames, Unbound, PrefixClosed, Candidate, Bind, PrefixClosedBelow;
    var f := FindAt(t, base, segs, params);
    FindIsBest(t, base, segs, params);
    if f.position.Some? {
      CandidateIsStored(t, base, f.position.value, segs);
      ClosedBelow(t, base, f.position.value);
      BindHead(t, base, f.position.value, segs, params);
    }
    if segs != [] {
      if segs[0] != "" && base + [Lit(segs[0])] in t {
        UnboundBelow(t, base, Lit(segs[0]), params);
        FindBindsRoute(t, base + [Lit(segs[0])], segs[1..], params);
      }
      assert FindLit(t, base, segs, params).position.None? ==> FindLit(t, base, segs, params).params == params;
      if segs[0] != "" && base + [Param] in t {
        var name := t[base + [Param]].paramName;
        UnboundChild(t, base, Param, params);
        UnboundBelow(t, base, Param, params);
        UnboundAfter(t, base, params, segs[0]);
        FindBindsRoute(t, base + [Param], segs[1..], params[name := segs[0]]);
        assert params[name := segs[0]] - {name} == params;
      }
    }
  }

  lemma CandidateIsStored(t: Trie, base: Position, q: Position, segs: seq<string>)
    requires Candidate(t, base, q, segs)
    ensures base + q in t
  {
  }

  lemma UnboundAfter(t: Trie, base: Position, params: Params, value: string)
    requires DistinctNames(t) && base + [Param] in t && Unbound(t, base + [Param], params)
    ensures Unbound(t, base + [Param], params[t[base + [Param]].paramName := value])
  {
  }

  /** Bind, unfolded once. */
  lemma BindHead(t: Trie, base: Position, q: Position, segs: seq<string>, params: Params)
    requires Candidate(t, base, q, segs) && PrefixClosedBelow(t, base, q) && PrefixClosed(t)
    ensures CandidateByEdge(t, base, q, segs)
    ensures q != [] && !q[0].CatchAll? ==> PrefixClosedBelow(t, base + [q[0]], q[1..])
    ensures Bind(t, base, q, segs, params) ==
            if q == [] then params
            else match q[0]
                 case CatchAll => params[t[base + [CatchAll]].paramName := Join(segs)]
                 case Param => Bind(t, base + [Param], q[1..], segs[1..], params[t[base + [Param]].paramName := segs[0]])
                 case Lit(s) => Bind(t, base + [Lit(s)], q[1..], segs[1..], params)
  {
    CandidateStep(t, base, q, segs);
    if q != [] {
      BindStep(t, base, q);
    }
  }
}
