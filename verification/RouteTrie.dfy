/** The radix tree of a router as a value: the set of its positions, each position being the
    edges that lead to a node. Insertion, removal and the backtracking search, and what the search
    finds among all the routes stored. */
module RouteTrie {
  import opened Wrappers
  import opened RoutePaths

  /** Handlers are opaque to matching. */
  type Handlers = seq<int>

  datatype RouteEntry = RouteEntry(path: string, handlers: Handlers)

  datatype Edge = Lit(segment: string) | Param | CatchAll

  type Position = seq<Edge>

  datatype Slot = Slot(paramName: string, entry: Option<RouteEntry>)

  type Trie = map<Position, Slot>

  type Params = map<string, string>

  const EMPTY_TRIE: Trie := map[[] := Slot("", None)]

  ghost predicate PrefixClosed(t: Trie) {
    [] in t && forall p, e :: p + [e] in t ==> p in t
  }

  predicate HasEntry(t: Trie, p: Position) {
    p in t && t[p].entry.Some?
  }

  // ---- Insertion --------------------------------------------------------------------------

  function EdgeOf(segment: string): Edge
    requires segment != ""
  {
    match segment[0]
    case ':' => Param
    case '*' => CatchAll
    case _ => Lit(segment)
  }

  /** The position of a pattern: empty segments lead nowhere. */
  function Shape(segs: seq<string>): Position {
    if segs == [] then []
    else if segs[0] == "" then Shape(segs[1..])
    else [EdgeOf(segs[0])] + Shape(segs[1..])
  }

  /** The child along the edge of a segment, created without an entry if missing. A parameter or
      catch-all node is named by the segment that creates it. */
  function AddChild(t: Trie, p: Position, segment: string): Trie
    requires segment != ""
  {
    var child := p + [EdgeOf(segment)];
    if child in t then t
    else t[child := Slot(if EdgeOf(segment).Lit? then "" else segment[1..], None)]
  }

  function SetEntry(t: Trie, p: Position, entry: Option<RouteEntry>): Trie
    requires p in t
  {
    t[p := t[p].(entry := entry)]
  }

  /** Insertion below position p; the flag is false for a duplicate or a misplaced catch-all. */
  function InsertAt(t: Trie, p: Position, segs: seq<string>, entry: RouteEntry): (r: (Trie, bool))
    requires p in t
    ensures forall q :: q in t ==> q in r.0
    decreases |segs|
  {
    if segs == [] then
      if t[p].entry.Some? then (t, false) else (SetEntry(t, p, Some(entry)), true)
    else if segs[0] == "" then InsertAt(t, p, segs[1..], entry)
    else
      var child := p + [EdgeOf(segs[0])];
      if EdgeOf(segs[0]).CatchAll? then
        if |segs| > 1 then (t, false)
        else
          var t1 := AddChild(t, p, segs[0]);
          if t1[child].entry.Some? then (t1, false) else (SetEntry(t1, child, Some(entry)), true)
      else InsertAt(AddChild(t, p, segs[0]), child, segs[1..], entry)
  }

  // ---- Removal ----------------------------------------------------------------------------

  ghost predicate HasChildren(t: Trie, p: Position) {
    exists e :: p + [e] in t
  }

  ghost predicate IsEmpty(t: Trie, p: Position)
    requires p in t
  {
    t[p].entry.None? && !HasChildren(t, p)
  }

  ghost function Prune(t: Trie, p: Position): Trie
    requires p in t
  {
    if IsEmpty(t, p) then t - {p} else t
  }

  /** Removal below position p; it only touches positions at or below p. */
  ghost function RemoveAt(t: Trie, p: Position, segs: seq<string>): (r: (Trie, bool))
    requires p in t
    ensures p in r.0
    ensures !r.1 ==> r.0 == t
    ensures forall q :: q in r.0 ==> q in t
    ensures forall q :: q in t && !(p <= q) ==> q in r.0 && r.0[q] == t[q]
    decreases |segs|
  {
    if segs == [] then
      if t[p].entry.None? then (t, false) else (SetEntry(t, p, None), true)
    else if segs[0] == "" || p + [EdgeOf(segs[0])] !in t then (t, false)
    else
      var child := p + [EdgeOf(segs[0])];
      if EdgeOf(segs[0]).CatchAll? then
        if |segs| == 1 && t[child].paramName == segs[0][1..] && t[child].entry.Some? then
          (Prune(SetEntry(t, child, None), child), true)
        else (t, false)
      else
        var r := RemoveAt(t, child, segs[1..]);
        if r.1 then (Prune(r.0, child), true) else (t, false)
  }

  // ---- Search -----------------------------------------------------------------------------

  /** What a search below a position finds: along which edges, and the parameters as the shared map
      holds them afterwards, found or not. */
  datatype Found = Found(position: Option<Position>, params: Params)

  function FindAt(t: Trie, p: Position, segs: seq<string>, params: Params): Found
    requires p in t
    decreases |segs|, 1
  {
    if segs == [] then
      if t[p].entry.Some? then Found(Some([]), params)
      else if HasEntry(t, p + [CatchAll]) then Found(Some([CatchAll]), params[t[p + [CatchAll]].paramName := ""])
      else Found(None, params)
    else
      var lit := FindLit(t, p, segs, params);
      if lit.position.Some? then lit
      else
        var par := FindParam(t, p, segs, lit.params);
        if par.position.Some? then par
        else if HasEntry(t, p + [CatchAll]) then
          Found(Some([CatchAll]), par.params[t[p + [CatchAll]].paramName := Join(segs)])
        else par
  }

  function FindLit(t: Trie, p: Position, segs: seq<string>, params: Params): Found
    requires segs != []
    decreases |segs|, 0
  {
    if segs[0] != "" && p + [Lit(segs[0])] in t then
      Below(Lit(segs[0]), FindAt(t, p + [Lit(segs[0])], segs[1..], params))
    else Found(None, params)
  }

  /** The parameter branch: bind, search below, and unbind again on failure. */
  function FindParam(t: Trie, p: Position, segs: seq<string>, params: Params): Found
    requires segs != []
    decreases |segs|, 0
  {
    if segs[0] != "" && p + [Param] in t then
      var name := t[p + [Param]].paramName;
      var f := FindAt(t, p + [Param], segs[1..], params[name := segs[0]]);
      if f.position.Some? then Below(Param, f) else Found(None, f.params - {name})
    else Found(None, params)
  }

  function Below(e: Edge, f: Found): Found {
    if f.position.Some? then f.(position := Some([e] + f.position.value)) else f
  }

  // ---- Which route wins -------------------------------------------------------------------

  /** A pattern position matches a request's segments. Parameters and literals take one nonempty
      segment; a catch-all, last, takes any number of segments. */
  predicate Matches(q: Position, segs: seq<string>) {
    if q == [] then segs == []
    else
      match q[0]
      case CatchAll => |q| == 1
      case Param => segs != [] && segs[0] != "" && Matches(q[1..], segs[1..])
      case Lit(s) => segs != [] && segs[0] != "" && segs[0] == s && Matches(q[1..], segs[1..])
  }

  function Rank(e: Edge): nat {
    match e
    case Lit(_) => 0
    case Param => 1
    case CatchAll => 2
  }

  /** Lexicographic priority, segment by segment: static before parameter before catch-all, and a
      pattern that ends before a catch-all that takes nothing. */
  predicate Before(p: Position, q: Position) {
    if p == [] then q != []
    else if q == [] then false
    else if p[0] == q[0] then Before(p[1..], q[1..])
    else Rank(p[0]) < Rank(q[0])
  }

  /** Two different positions that match the same request are always ordered, one way. */
  lemma {:induction false} MatchingAreOrdered(p: Position, q: Position, segs: seq<string>)
    requires Matches(p, segs) && Matches(q, segs) && p != q
    ensures Before(p, q) <==> !Before(q, p)
    decreases |p|
  {
    if p != [] && q != [] && p[0] == q[0] {
      assert p == [p[0]] + p[1..] && q == [q[0]] + q[1..];
      if !p[0].CatchAll? {
        MatchingAreOrdered(p[1..], q[1..], segs[1..]);
      }
    }
  }

  lemma {:induction false} BeforeIsTransitive(p: Position, q: Position, r: Position)
    requires Before(p, q) && Before(q, r)
    ensures Before(p, r)
    decreases |p|
  {
    if p != [] && q != [] && r != [] && p[0] == q[0] == r[0] {
      BeforeIsTransitive(p[1..], q[1..], r[1..]);
    }
  }

  /** The route stored below base along q is a candidate for the request. */
  predicate Candidate(t: Trie, base: Position, q: Position, segs: seq<string>) {
    HasEntry(t, base + q) && Matches(q, segs)
  }

  ghost predicate IsBest(t: Trie, base: Position, q: Position, segs: seq<string>) {
    && Candidate(t, base, q, segs)
    && forall r :: Candidate(t, base, r, segs) && r != q ==> Before(q, r)
  }

  /** The search finds a candidate exactly when there is one, and then it is the one that comes
      before all others, whatever the parameters passed in. */
  lemma {:induction false} FindIsBest(t: Trie, base: Position, segs: seq<string>, params: Params)
    requires base in t && PrefixClosed(t)
    ensures var f := FindAt(t, base, segs, params);
            && (f.position.None? ==> forall q :: !Candidate(t, base, q, segs))
            && (f.position.Some? ==> IsBest(t, base, f.position.value, segs))
    decreases |segs|
  {
    hide PrefixClosed, Candidate, Matches;
    forall q
      ensures Candidate(t, base, q, segs) <==> CandidateByEdge(t, base, q, segs)
    {
      CandidateStep(t, base, q, segs);
    }
    if segs != [] && segs[0] != "" {
      var lit, par := base + [Lit(segs[0])], base + [Param];
      if lit in t {
        FindIsBest(t, lit, segs[1..], params);
      }
      if par in t {
        FindIsBest(t, par, segs[1..], FindLit(t, base, segs, params).params[t[par].paramName := segs[0]]);
      }
      assert forall q: Position :: ([Lit(segs[0])] + q)[1..] == q;
      assert forall q: Position :: ([Param] + q)[1..] == q;
    }
  }

  predicate CandidateByEdge(t: Trie, base: Position, q: Position, segs: seq<string>) {
    if q == [] then segs == [] && HasEntry(t, base)
    else
      match q[0]
      case CatchAll => q == [CatchAll] && HasEntry(t, base + [CatchAll])
      case Param =>
        segs != [] && segs[0] != "" && base + [Param] in t && Candidate(t, base + [Param], q[1..], segs[1..])
      case Lit(s) =>
        && segs != [] && segs[0] != "" && segs[0] == s && base + [Lit(s)] in t
        && Candidate(t, base + [Lit(s)], q[1..], segs[1..])
  }

  lemma CandidateStep(t: Trie, base: Position, q: Position, segs: seq<string>)
    requires PrefixClosed(t)
    ensures Candidate(t, base, q, segs) <==> CandidateByEdge(t, base, q, segs)
  {
    if q == [] {
      assert base + q == base;
    } else {
      assert base + q == (base + [q[0]]) + q[1..];
      if (base + [q[0]]) + q[1..] in t {
        AncestorsPresent(t, base + [q[0]], q[1..]);
      }
      if |q| == 1 {
        assert q == [q[0]];
      }
    }
  }

  lemma {:induction false} AncestorsPresent(t: Trie, p: Position, q: Position)
    requires PrefixClosed(t) && p + q in t
    ensures p in t
    decreases |q|
  {
    if q == [] {
      assert p + q == p;
    } else {
      assert p + q == (p + q[..|q| - 1]) + [q[|q| - 1]];
      AncestorsPresent(t, p, q[..|q| - 1]);
    }
  }
}
