/** What the tree of a document is, told from its tokens: which element is in which, the prefixes an element sees,
    and where a name ends. */
module XmlMeaning {
  import opened Wrappers
  import opened XmlTree

  // ---- Which element is in which ----------------------------------------------------------

  /** How many elements are open after some tokens; an end without a start closes nothing. */
  function Depth(tokens: seq<Token>): nat {
    if tokens == [] then 0
    else
      var d := Depth(tokens[..|tokens| - 1]);
      match tokens[|tokens| - 1]
      case Start(_, _) => d + 1
      case End => if d > 0 then d - 1 else 0
      case Other => d
  }

  /** How many elements have started. */
  function Starts(tokens: seq<Token>): nat {
    if tokens == [] then 0
    else Starts(tokens[..|tokens| - 1]) + if tokens[|tokens| - 1].Start? then 1 else 0
  }

  /** The m-th token starts an element with d elements around it. */
  predicate StartsAt(tokens: seq<Token>, m: int, d: int) {
    0 <= m < |tokens| && tokens[m].Start? && Depth(tokens[..m]) == d
  }

  /** The i-th element is the last to have started with d elements around it. */
  ghost predicate LastAt(tokens: seq<Token>, d: int, i: nat) {
    exists m :: StartsAt(tokens, m, d) && i == Starts(tokens[..m]) && forall k :: m < k ==> !StartsAt(tokens, k, d)
  }

  /** The open elements are, from the outermost, the last to have started at each depth. */
  ghost predicate OpenAre(tokens: seq<Token>, open: seq<nat>) {
    && |open| == Depth(tokens)
    && forall d :: 0 <= d < |open| ==> LastAt(tokens, d, open[d])
  }

  /** What the tree is to be after some tokens: the elements in the order of their starts; each is in the element
      that was the last to start one level further out; and the root is the last that started in none. */
  ghost predicate TreeIs(tokens: seq<Token>, t: Tree) {
    && |t.forest.heads| == |t.forest.parents| == Starts(tokens)
    && (forall n :: 0 <= n < |tokens| && tokens[n].Start? ==> ElementIs(tokens, n, t.forest))
    && RootIs(tokens, t.root)
  }

  ghost predicate ElementIs(tokens: seq<Token>, n: nat, f: Forest)
    requires n < |tokens|
  {
    var i, d := Starts(tokens[..n]), Depth(tokens[..n]);
    && i < |f.heads| == |f.parents| && f.heads[i] == tokens[n]
    && (d == 0 ==> f.parents[i] == None)
    && (d > 0 ==> f.parents[i].Some? && LastAt(tokens[..n], d - 1, f.parents[i].value))
  }

  ghost predicate RootIs(tokens: seq<Token>, root: Option<nat>) {
    && (root == None ==> forall m :: !StartsAt(tokens, m, 0))
    && (root.Some? ==> LastAt(tokens, 0, root.value))
  }

  lemma StartsOneMore(tokens: seq<Token>, token: Token, m: int, d: int)
    ensures StartsAt(tokens + [token], m, d)
            <==> StartsAt(tokens, m, d) || (m == |tokens| && token.Start? && Depth(tokens) == d)
    ensures 0 <= m <= |tokens| ==> (tokens + [token])[..m] == tokens[..m]
  {
    if 0 <= m <= |tokens| {
      assert (tokens + [token])[..m] == tokens[..m];
    }
    assert tokens[..|tokens|] == tokens;
  }

  /** The last start at a depth stays so over a token that starts none there. */
  lemma LastStays(tokens: seq<Token>, token: Token, d: int, i: nat)
    requires LastAt(tokens, d, i) && (token.Start? ==> Depth(tokens) != d)
    ensures LastAt(tokens + [token], d, i)
  {
    hide Depth, Starts;
    var m :| StartsAt(tokens, m, d) && i == Starts(tokens[..m]) && forall k :: m < k ==> !StartsAt(tokens, k, d);
    hide StartsAt;
    forall k
      ensures StartsAt(tokens + [token], k, d) <==> StartsAt(tokens, k, d)
    {
      StartsOneMore(tokens, token, k, d);
    }
    StartsOneMore(tokens, token, m, d);
    assert StartsAt(tokens + [token], m, d) && i == Starts((tokens + [token])[..m]);
  }

  lemma LastIsNew(tokens: seq<Token>, token: Token)
    requires token.Start?
    ensures LastAt(tokens + [token], Depth(tokens), Starts(tokens))
  {
    var all, d := tokens + [token], Depth(tokens);
    assert all[..|tokens|] == tokens;
    assert StartsAt(all, |tokens|, d) && forall k :: |tokens| < k ==> !StartsAt(all, k, d);
  }

  lemma OneMore(tokens: seq<Token>, token: Token)
    ensures var all := tokens + [token];
            && Built(all) == Step(Built(tokens), token)
            && Starts(all) == Starts(tokens) + (if token.Start? then 1 else 0)
            && Depth(all) == match token
                             case Start(_, _) => Depth(tokens) + 1
                             case End => if Depth(tokens) > 0 then Depth(tokens) - 1 else 0
                             case Other => Depth(tokens)
  {
    assert (tokens + [token])[..|tokens|] == tokens;
  }

  lemma OpenGoesOn(tokens: seq<Token>, token: Token)
    requires OpenAre(tokens, Built(tokens).open) && |Built(tokens).forest.heads| == Starts(tokens)
    ensures OpenAre(tokens + [token], Built(tokens + [token]).open)
  {
    hide LastAt, Built, Depth, Starts;
    OneMore(tokens, token);
    var all, open := tokens + [token], Built(tokens).open;
    var after := Built(all).open;
    forall d | 0 <= d < |after|
      ensures LastAt(all, d, after[d])
    {
      if d < |open| {
        LastStays(tokens, token, d, open[d]);
      } else {
        LastIsNew(tokens, token);
      }
    }
  }

  lemma ElementStays(tokens: seq<Token>, token: Token, n: nat, f: Forest, head: Token, parent: Option<nat>)
    requires n < |tokens| && tokens[n].Start? && ElementIs(tokens, n, f)
    ensures ElementIs(tokens + [token], n, f) && ElementIs(tokens + [token], n, Grown(f, head, parent))
  {
    hide LastAt, Depth, Starts;
    assert (tokens + [token])[..n] == tokens[..n] && (tokens + [token])[n] == tokens[n];
  }

  lemma ElementIsNew(tokens: seq<Token>, head: Token)
    requires head.Start? && OpenAre(tokens, Built(tokens).open)
    requires var f := Built(tokens).forest; |f.heads| == |f.parents| == Starts(tokens)
    ensures ElementIs(tokens + [head], |tokens|, Built(tokens + [head]).forest)
  {
    hide LastAt, Built, Depth, Starts;
    OneMore(tokens, head);
    assert (tokens + [head])[..|tokens|] == tokens;
  }

  lemma RootGoesOn(tokens: seq<Token>, token: Token)
    requires RootIs(tokens, Built(tokens).root) && OpenAre(tokens, Built(tokens).open)
    requires |Built(tokens).forest.heads| == Starts(tokens)
    ensures RootIs(tokens + [token], Built(tokens + [token]).root)
  {
    hide Built, Starts, Depth, LastAt, StartsAt;
    OneMore(tokens, token);
    var t := Built(tokens);
    if token.Start? && t.open == [] {
      LastIsNew(tokens, token);
    } else if t.root.Some? {
      LastStays(tokens, token, 0, t.root.value);
    } else {
      forall m
        ensures !StartsAt(tokens + [token], m, 0)
      {
        StartsOneMore(tokens, token, m, 0);
      }
    }
  }

  /** The tree of any stream of tokens. */
  lemma {:induction false} TreeMeans(tokens: seq<Token>)
    ensures TreeIs(tokens, Built(tokens)) && OpenAre(tokens, Built(tokens).open)
  {
    if tokens != [] {
      hide ElementIs, RootIs, OpenAre, Built, Depth, Starts;
      var front, last := tokens[..|tokens| - 1], tokens[|tokens| - 1];
      assert front + [last] == tokens;
      TreeMeans(front);
      OneMore(front, last);
      OpenGoesOn(front, last);
      RootGoesOn(front, last);
      forall n | 0 <= n < |tokens| && tokens[n].Start?
        ensures ElementIs(tokens, n, Built(tokens).forest)
      {
        if n < |front| {
          assert front[n] == tokens[n];
          ElementStays(front, last, n, Built(front).forest, last, Top(Built(front)));
        } else {
          ElementIsNew(front, last);
        }
      }
    }
  }

  /** The element events of a stream, in order: what is no element event is left out. */
  lemma ElementsMean(tokens: seq<Token>, token: Token)
    ensures Elements([]) == []
    ensures Elements(tokens + [token])
            == match token case Other => Elements(tokens) case _ => Elements(tokens) + [token]
  {
    ElementsMore(tokens, token);
  }

  // ---- Namespaces -------------------------------------------------------------------------

  /** An attribute xmlns:p declares p, and the attribute xmlns the empty prefix. */
  predicate Binds(a: Attr, prefix: string) {
    (a.name.space == "xmlns" && a.name.local == prefix)
    || (a.name.space == "" && a.name.local == "xmlns" && prefix == "")
  }

  /** An element and those around it, from the inside out. */
  function Outward(f: Forest, i: nat): (r: seq<nat>)
    requires Rooted(f) && i < |f.heads|
    ensures forall n :: 0 <= n < |r| ==> r[n] < |f.heads|
    decreases i
  {
    [i] + if f.parents[i].None? then [] else Outward(f, f.parents[i].value)
  }

  ghost predicate BindsNot(attrs: seq<Attr>, prefix: string) {
    forall k :: 0 <= k < |attrs| ==> !Binds(attrs[k], prefix)
  }

  /** Some element of those gives the prefix that value in its last attribute to declare it, and none further
      in declares it. */
  ghost predicate BoundOutward(f: Forest, around: seq<nat>, prefix: string, value: string)
    requires Rooted(f) && forall n :: 0 <= n < |around| ==> around[n] < |f.heads|
  {
    exists n :: 0 <= n < |around| && BoundIn(f.heads[around[n]].attrs, prefix, value)
                && forall m :: 0 <= m < n ==> BindsNot(f.heads[around[m]].attrs, prefix)
  }

  ghost predicate NoneOutward(f: Forest, around: seq<nat>, prefix: string)
    requires Rooted(f) && forall n :: 0 <= n < |around| ==> around[n] < |f.heads|
  {
    forall n :: 0 <= n < |around| ==> BindsNot(f.heads[around[n]].attrs, prefix)
  }

  ghost predicate BoundIn(attrs: seq<Attr>, prefix: string, value: string) {
    exists k :: BoundAt(attrs, k, prefix, value)
  }

  ghost predicate BoundAt(attrs: seq<Attr>, k: int, prefix: string, value: string) {
    && 0 <= k < |attrs| && Binds(attrs[k], prefix) && attrs[k].value == value
    && forall j :: k < j < |attrs| ==> !Binds(attrs[j], prefix)
  }

  lemma {:induction false} DeclaresMeans(attrs: seq<Attr>, prefix: string)
    ensures Declares(attrs, prefix) == None <==> BindsNot(attrs, prefix)
    ensures Declares(attrs, prefix).Some? ==> BoundIn(attrs, prefix, Declares(attrs, prefix).value)
  {
    if attrs != [] {
      var front, last := attrs[..|attrs| - 1], attrs[|attrs| - 1];
      DeclaresMeans(front, prefix);
      assert front + [last] == attrs;
      DeclaresLast(front, last, prefix);
    }
  }

  lemma DeclaresLast(front: seq<Attr>, last: Attr, prefix: string)
    requires Declares(front, prefix) == None <==> BindsNot(front, prefix)
    requires Declares(front, prefix).Some? ==> BoundIn(front, prefix, Declares(front, prefix).value)
    ensures Declares(front + [last], prefix) == None <==> BindsNot(front + [last], prefix)
    ensures Declares(front + [last], prefix).Some? ==>
              BoundIn(front + [last], prefix, Declares(front + [last], prefix).value)
  {
    var attrs, n := front + [last], |front|;
    assert attrs[..n] == front && attrs[n] == last && forall k :: 0 <= k < n ==> attrs[k] == front[k];
    if Binds(last, prefix) {
      assert BoundAt(attrs, n, prefix, last.value);
    } else if Declares(front, prefix).Some? {
      var k :| BoundAt(front, k, prefix, Declares(front, prefix).value);
      assert BoundAt(attrs, k, prefix, Declares(front, prefix).value);
    }
  }

  /** The namespaces in force at an element, for every prefix: the value in the innermost element that declares it. */
  lemma {:induction false} NamespacesMean(f: Forest, i: nat, prefix: string)
    requires Rooted(f) && i < |f.heads|
    ensures var around := Outward(f, i);
            && (prefix !in Scope(f, i) <==> NoneOutward(f, around, prefix))
            && (prefix in Scope(f, i) ==> BoundOutward(f, around, prefix, Scope(f, i)[prefix]))
    decreases i
  {
    hide Applied, Declares, BindsNot, BoundIn, BoundOutward;
    var attrs, outer := f.heads[i].attrs, if f.parents[i].None? then map[] else Scope(f, f.parents[i].value);
    AppliedAt(outer, attrs, prefix);
    DeclaresMeans(attrs, prefix);
    if f.parents[i].None? {
      Nearest(f, i, [], prefix);
    } else {
      NamespacesMean(f, f.parents[i].value, prefix);
      Nearest(f, i, Outward(f, f.parents[i].value), prefix);
    }
  }

  /** The elements around, with one more inside them. */
  lemma Nearest(f: Forest, i: nat, around: seq<nat>, prefix: string)
    requires Rooted(f) && i < |f.heads| && forall n :: 0 <= n < |around| ==> around[n] < |f.heads|
    ensures NoneOutward(f, [i] + around, prefix)
            <==> BindsNot(f.heads[i].attrs, prefix) && NoneOutward(f, around, prefix)
    ensures forall v :: BoundIn(f.heads[i].attrs, prefix, v) ==> BoundOutward(f, [i] + around, prefix, v)
    ensures forall v :: BindsNot(f.heads[i].attrs, prefix) && BoundOutward(f, around, prefix, v) ==>
              BoundOutward(f, [i] + around, prefix, v)
  {
    hide BindsNot, BoundIn, NoneOutward, BoundOutward;
    NoneInMore(f, i, around, prefix);
    forall v | BoundIn(f.heads[i].attrs, prefix, v)
      ensures BoundOutward(f, [i] + around, prefix, v)
    {
      BoundHere(f, i, around, prefix, v);
    }
    forall v | BindsNot(f.heads[i].attrs, prefix) && BoundOutward(f, around, prefix, v)
      ensures BoundOutward(f, [i] + around, prefix, v)
    {
      BoundFurther(f, i, around, prefix, v);
    }
  }

  lemma NoneInMore(f: Forest, i: nat, around: seq<nat>, prefix: string)
    requires Rooted(f) && i < |f.heads| && forall n :: 0 <= n < |around| ==> around[n] < |f.heads|
    ensures NoneOutward(f, [i] + around, prefix)
            <==> BindsNot(f.heads[i].attrs, prefix) && NoneOutward(f, around, prefix)
  {
    hide BindsNot;
    var all := [i] + around;
    assert all[0] == i;
    assert forall n :: 0 <= n < |around| ==> all[n + 1] == around[n];
    assert forall n :: 0 < n < |all| ==> all[n] == around[n - 1];
  }

  lemma BoundHere(f: Forest, i: nat, around: seq<nat>, prefix: string, v: string)
    requires Rooted(f) && i < |f.heads| && forall n :: 0 <= n < |around| ==> around[n] < |f.heads|
    requires BoundIn(f.heads[i].attrs, prefix, v)
    ensures BoundOutward(f, [i] + around, prefix, v)
  {
    hide BindsNot, BoundIn;
    assert BoundIn(f.heads[([i] + around)[0]].attrs, prefix, v);
  }

  lemma BoundFurther(f: Forest, i: nat, around: seq<nat>, prefix: string, v: string)
    requires Rooted(f) && i < |f.heads| && forall n :: 0 <= n < |around| ==> around[n] < |f.heads|
    requires BindsNot(f.heads[i].attrs, prefix) && BoundOutward(f, around, prefix, v)
    ensures BoundOutward(f, [i] + around, prefix, v)
  {
    hide BindsNot, BoundIn;
    var all := [i] + around;
    var n :| 0 <= n < |around| && BoundIn(f.heads[around[n]].attrs, prefix, v)
             && forall m :: 0 <= m < n ==> BindsNot(f.heads[around[m]].attrs, prefix);
    assert BoundIn(f.heads[all[n + 1]].attrs, prefix, v);
    assert forall m :: 0 < m < n + 1 ==> all[m] == around[m - 1];
  }

  // ---- Trimmed text -----------------------------------------------------------------------

  /** Tab to carriage return, blank, next line, and Unicode's other spaces. */
  const SPACES: set<int> := {9, 10, 11, 12, 13, 32, 0x85, 0xA0, 0x1680, 0x2000, 0x2001, 0x2002, 0x2003, 0x2004, 0x2005,
                             0x2006, 0x2007, 0x2008, 0x2009, 0x200A, 0x2028, 0x2029, 0x202F, 0x205F, 0x3000}

  ghost predicate AllSpaces(s: string) {
    forall c :: c in s ==> c as int in SPACES
  }

  lemma BlankIsSpace(c: char)
    ensures Blank(c) <==> c as int in SPACES
  {
  }

  /** Trimming takes off spaces in front and behind, all there are, and nothing else. */
  lemma {:induction false} TrimSpaceMeans(s: string) returns (a: nat, b: nat)
    ensures a <= b <= |s| && TrimSpace(s) == s[a..b] && AllSpaces(s[..a]) && AllSpaces(s[b..])
    ensures a < b ==> s[a] as int !in SPACES && s[b - 1] as int !in SPACES
  {
    hide Blank;
    if s == "" {
      a, b := 0, 0;
    } else {
      BlankIsSpace(s[0]);
      BlankIsSpace(s[|s| - 1]);
      if Blank(s[0]) {
        a, b := TrimSpaceMeans(s[1..]);
        a, b := SpaceInFront(s, a, b);
      } else if Blank(s[|s| - 1]) {
        a, b := TrimSpaceMeans(s[..|s| - 1]);
        SpaceBehind(s, a, b);
      } else {
        a, b := 0, |s|;
      }
    }
  }

  lemma SpaceInFront(s: string, a: nat, b: nat) returns (a1: nat, b1: nat)
    requires s != "" && s[0] as int in SPACES && a <= b <= |s[1..]|
    requires AllSpaces(s[1..][..a]) && AllSpaces(s[1..][b..])
    ensures a1 == a + 1 && b1 == b + 1 && b1 <= |s| && s[a1..b1] == s[1..][a..b]
    ensures AllSpaces(s[..a1]) && AllSpaces(s[b1..])
  {
    a1, b1 := a + 1, b + 1;
    assert s[..a1] == [s[0]] + s[1..][..a] && s[b1..] == s[1..][b..];
    SliceOfTail(s, a, b);
  }

  lemma SliceOfTail(s: string, a: nat, b: nat)
    requires s != "" && a <= b < |s|
    ensures s[a + 1..b + 1] == s[1..][a..b]
  {
    forall k | 0 <= k < b - a
      ensures s[a + 1..b + 1][k] == s[1..][a..b][k]
    {
      assert s[1..][a..b][k] == s[1..][a + k] == s[a + k + 1];
    }
  }

  lemma SpaceBehind(s: string, a: nat, b: nat)
    requires s != "" && s[|s| - 1] as int in SPACES && a <= b < |s|
    requires AllSpaces(s[..|s| - 1][..a]) && AllSpaces(s[..|s| - 1][b..])
    ensures s[a..b] == s[..|s| - 1][a..b] && AllSpaces(s[..a]) && AllSpaces(s[b..])
  {
    assert s[..a] == s[..|s| - 1][..a] && s[b..] == s[..|s| - 1][b..] + [s[|s| - 1]];
  }
}
