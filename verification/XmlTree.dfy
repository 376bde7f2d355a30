/** The tree built from a stream of XML tokens with a stack of open elements, and the namespaces in force
    at each of its nodes. */
module XmlTree {
  import opened Wrappers

  datatype Name = Name(space: string, local: string)

  datatype Attr = Attr(name: Name, value: string)

  /** What the decoder delivers: starts and ends of elements, and text, comments and the like. */
  datatype Token = Start(name: Name, attrs: seq<Attr>) | End | Other

  // ---- Namespace declarations -------------------------------------------------------------

  /** The prefix an attribute declares, the empty one for the default namespace. */
  function Prefix(a: Attr): Option<string> {
    if a.name.space == "xmlns" then Some(a.name.local)
    else if a.name.space == "" && a.name.local == "xmlns" then Some("")
    else None
  }

  function Applied(ns: map<string, string>, attrs: seq<Attr>): map<string, string> {
    if attrs == [] then ns
    else
      var a := attrs[|attrs| - 1];
      var before := Applied(ns, attrs[..|attrs| - 1]);
      match Prefix(a)
      case None => before
      case Some(p) => before[p := a.value]
  }

  /** The last declaration of a prefix among the attributes of an element. */
  function Declares(attrs: seq<Attr>, prefix: string): Option<string> {
    if attrs == [] then None
    else
      var a := attrs[|attrs| - 1];
      if Prefix(a) == Some(prefix) then Some(a.value) else Declares(attrs[..|attrs| - 1], prefix)
  }

  // ---- The tree in numbers ----------------------------------------------------------------

  /** The elements in the order of their start: what each start said, and the number of the element
      each one is in, if any. */
  datatype Forest = Forest(heads: seq<Token>, parents: seq<Option<nat>>)

  /** With the numbers of the elements still open, outermost first, and that of the root. */
  datatype Tree = Tree(forest: Forest, open: seq<nat>, root: Option<nat>)

  predicate Rooted(f: Forest) {
    && |f.heads| == |f.parents|
    && (forall i :: 0 <= i < |f.heads| ==> f.heads[i].Start?)
    && (forall i :: 0 <= i < |f.parents| && f.parents[i].Some? ==> f.parents[i].value < i)
  }

  predicate Shaped(t: Tree) {
    && Rooted(t.forest)
    && (forall k :: 0 <= k < |t.open| ==> t.open[k] < |t.forest.heads|)
    && (t.open != [] ==> t.forest.parents[t.open[0]] == None)
    && (forall k :: 0 < k < |t.open| ==> t.forest.parents[t.open[k]] == Some(t.open[k - 1]))
    && Ascending(t.open)
    && (t.root.Some? ==> t.root.value < |t.forest.heads|)
  }

  predicate Ascending(open: seq<nat>) {
    forall k, l :: 0 <= k < l < |open| ==> open[k] < open[l]
  }

  function Top(t: Tree): Option<nat> {
    if t.open == [] then None else Some(t.open[|t.open| - 1])
  }

  function Grown(f: Forest, head: Token, parent: Option<nat>): Forest {
    Forest(f.heads + [head], f.parents + [parent])
  }

  function Step(t: Tree, token: Token): Tree {
    match token
    case Start(_, _) =>
      var i := |t.forest.heads|;
      Tree(Grown(t.forest, token, Top(t)), t.open + [i], if t.open == [] then Some(i) else t.root)
    case End => if t.open == [] then t else t.(open := t.open[..|t.open| - 1])
    case Other => t
  }

  function Built(tokens: seq<Token>): Tree {
    if tokens == [] then Tree(Forest([], []), [], None)
    else Step(Built(tokens[..|tokens| - 1]), tokens[|tokens| - 1])
  }

  lemma {:induction false} BuiltIsShaped(tokens: seq<Token>)
    ensures Shaped(Built(tokens))
  {
    if tokens != [] {
      BuiltIsShaped(tokens[..|tokens| - 1]);
      StepKeepsShape(Built(tokens[..|tokens| - 1]), tokens[|tokens| - 1]);
    }
  }

  lemma StepKeepsShape(t: Tree, token: Token)
    requires Shaped(t)
    ensures Shaped(Step(t, token))
  {
    match token
    case Start(_, _) =>
      GrownIsRooted(t.forest, token, Top(t));
      StartKeepsShape(t, token);
    case End =>
    case Other =>
  }

  lemma GrownIsRooted(f: Forest, head: Token, parent: Option<nat>)
    requires Rooted(f) && head.Start? && (parent.Some? ==> parent.value < |f.heads|)
    ensures Rooted(Grown(f, head, parent))
  {
  }

  lemma StartKeepsShape(t: Tree, head: Token)
    requires Shaped(t) && head.Start? && Rooted(Step(t, head).forest)
    ensures Shaped(Step(t, head))
  {
    AscendingGrows(t.open, |t.forest.heads|);
    hide Ascending;
  }

  lemma AscendingGrows(open: seq<nat>, n: nat)
    requires Ascending(open) && forall k :: 0 <= k < |open| ==> open[k] < n
    ensures Ascending(open + [n])
  {
  }

  // ---- Namespaces in force ----------------------------------------------------------------

  /** What the loop leaves at an element: its parent's namespaces with its own declarations applied. */
  function Scope(f: Forest, i: nat): map<string, string>
    requires Rooted(f) && i < |f.heads|
    decreases i
  {
    Applied(if f.parents[i].None? then map[] else Scope(f, f.parents[i].value), f.heads[i].attrs)
  }

  /** The innermost declaration of a prefix in the element or those around it. */
  function Innermost(f: Forest, i: nat, prefix: string): Option<string>
    requires Rooted(f) && i < |f.heads|
    decreases i
  {
    match Declares(f.heads[i].attrs, prefix)
    case Some(v) => Some(v)
    case None => if f.parents[i].None? then None else Innermost(f, f.parents[i].value, prefix)
  }

  function At(ns: map<string, string>, prefix: string): Option<string> {
    if prefix in ns then Some(ns[prefix]) else None
  }

  lemma {:induction false} AppliedAt(ns: map<string, string>, attrs: seq<Attr>, prefix: string)
    ensures At(Applied(ns, attrs), prefix)
            == match Declares(attrs, prefix) case Some(v) => Some(v) case None => At(ns, prefix)
  {
    if attrs != [] {
      AppliedAt(ns, attrs[..|attrs| - 1], prefix);
    }
  }

  /** The namespace a prefix stands for at an element is that of the innermost declaration around it. */
  lemma {:induction false} ScopeIsInnermost(f: Forest, i: nat, prefix: string)
    requires Rooted(f) && i < |f.heads|
    ensures At(Scope(f, i), prefix) == Innermost(f, i, prefix)
    decreases i
  {
    hide Applied, Declares;
    AppliedAt(if f.parents[i].None? then map[] else Scope(f, f.parents[i].value), f.heads[i].attrs, prefix);
    if f.parents[i].Some? {
      ScopeIsInnermost(f, f.parents[i].value, prefix);
    }
  }

  lemma {:induction false} GrownScope(f: Forest, head: Token, parent: Option<nat>, i: nat)
    requires Rooted(f) && Rooted(Grown(f, head, parent)) && i < |f.heads|
    ensures Scope(Grown(f, head, parent), i) == Scope(f, i)
    decreases i
  {
    hide Applied;
    if f.parents[i].Some? {
      GrownScope(f, head, parent, f.parents[i].value);
    }
  }

  // ---- Qualified names --------------------------------------------------------------------

  datatype QName = QName(space: string, local: string)

  /** White space as Go's unicode package has it. */
  predicate Blank(c: char) {
    9 <= c as int <= 13 || c == ' ' || c as int == 0x85 || c as int == 0xA0 || c as int == 0x1680
    || 0x2000 <= c as int <= 0x200A || c as int in [0x2028, 0x2029, 0x202F, 0x205F, 0x3000]
  }

  function TrimSpace(s: string): string {
    if s != "" && Blank(s[0]) then TrimSpace(s[1..])
    else if s != "" && Blank(s[|s| - 1]) then TrimSpace(s[..|s| - 1])
    else s
  }

  /** The place of the first colon, or the length. */
  function Colon(s: string): (k: nat)
    ensures k <= |s| && ':' !in s[..k] && (k < |s| ==> s[k] == ':')
  {
    if s == "" || s[0] == ':' then 0 else 1 + Colon(s[1..])
  }

  /** A qualified name in the namespaces of a node, or none if its prefix is not declared. */
  function ParseQName(value: string, ns: map<string, string>, fallback: string): Option<QName> {
    var v := TrimSpace(value);
    var k := Colon(v);
    if v == "" then Some(QName("", ""))
    else if k < |v| then
      var prefix := TrimSpace(v[..k]);
      if prefix in ns then Some(QName(ns[prefix], TrimSpace(v[k + 1..]))) else None
    else if "" in ns && ns[""] != "" then Some(QName(ns[""], v))
    else Some(QName(fallback, v))
  }

  /** A prefixed name at a node is in the namespace of the innermost declaration of its prefix around the
      node, and undefined exactly when there is none; a name without a prefix is in the innermost default
      namespace, or in the fallback when that is absent or undone by an empty one. */
  lemma NamesResolveInnermost(f: Forest, i: nat, value: string, fallback: string)
    requires Rooted(f) && i < |f.heads| && TrimSpace(value) != ""
    ensures var v := TrimSpace(value);
            var k := Colon(v);
            ParseQName(value, Scope(f, i), fallback)
            == if k < |v| then
                 match Innermost(f, i, TrimSpace(v[..k]))
                 case None => None
                 case Some(space) => Some(QName(space, TrimSpace(v[k + 1..])))
               else
                 match Innermost(f, i, "")
                 case None => Some(QName(fallback, v))
                 case Some(space) => Some(QName(if space == "" then fallback else space, v))
  {
    hide Scope, Innermost, TrimSpace;
    var v := TrimSpace(value);
    ScopeIsInnermost(f, i, "");
    ScopeIsInnermost(f, i, TrimSpace(v[..Colon(v)]));
  }

  // ---- Reading the tree back --------------------------------------------------------------

  /** The children of an element, in order. */
  function Kids(parents: seq<Option<nat>>, i: nat): (r: seq<nat>)
    ensures forall k :: 0 <= k < |r| ==> r[k] < |parents| && parents[r[k]] == Some(i)
    ensures forall k, l :: 0 <= k < l < |r| ==> r[k] < r[l]
  {
    if parents == [] then []
    else
      var last := |parents| - 1;
      Kids(parents[..last], i) + if parents[last] == Some(i) then [last] else []
  }

  predicate KidsOf(f: Forest, i: nat, kids: seq<nat>) {
    |f.heads| == |f.parents|
    && forall k :: 0 <= k < |kids| ==> i < kids[k] < |f.heads| && f.parents[kids[k]] == Some(i)
  }

  lemma KidsAre(f: Forest, i: nat)
    requires Rooted(f)
    ensures KidsOf(f, i, Kids(f.parents, i))
  {
  }

  /** The tokens of an element: its start, those of its children one after the other, its end. */
  function Unparse(f: Forest, i: nat): seq<Token>
    requires Rooted(f) && i < |f.heads|
    decreases |f.heads| - i, 1, 0
  {
    [f.heads[i]] + UnparseAll(f, i, Kids(f.parents, i)) + [End]
  }

  function UnparseAll(f: Forest, i: nat, kids: seq<nat>): seq<Token>
    requires Rooted(f) && i < |f.heads| && KidsOf(f, i, kids)
    decreases |f.heads| - i, 0, |kids|
  {
    if kids == [] then []
    else UnparseAll(f, i, kids[..|kids| - 1]) + Unparse(f, kids[|kids| - 1])
  }

  // ---- Growing ----------------------------------------------------------------------------

  predicate Closed(t: Tree, i: nat) {
    i !in t.open
  }

  /** An open child has an open parent. */
  lemma ParentOpen(t: Tree, i: nat, k: nat)
    requires Shaped(t) && k in t.open && k < |t.forest.parents| && t.forest.parents[k] == Some(i)
    ensures i in t.open
  {
    var n :| 0 <= n < |t.open| && t.open[n] == k;
    assert t.open[n - 1] == i;
  }

  lemma KidClosed(t: Tree, i: nat, k: nat)
    requires Shaped(t) && Closed(t, i) && k < |t.forest.parents| && t.forest.parents[k] == Some(i)
    ensures Closed(t, k)
  {
    hide Shaped;
    if k in t.open {
      ParentOpen(t, i, k);
    }
  }

  lemma GrownKids(f: Forest, head: Token, parent: Option<nat>, i: nat)
    requires Rooted(f)
    ensures Kids(Grown(f, head, parent).parents, i) == Kids(f.parents, i) + if parent == Some(i) then [|f.heads|] else []
  {
    var after := Grown(f, head, parent).parents;
    assert after[..|after| - 1] == f.parents;
  }

  lemma GrownHeads(f: Forest, head: Token, parent: Option<nat>)
    requires Rooted(f) && head.Start? && (parent.Some? ==> parent.value < |f.heads|)
    ensures Rooted(Grown(f, head, parent))
    ensures forall i :: 0 <= i < |f.heads| ==> Grown(f, head, parent).heads[i] == f.heads[i]
    ensures forall i, kids :: KidsOf(f, i, kids) ==> KidsOf(Grown(f, head, parent), i, kids)
  {
  }

  /** A start leaves the finished elements as they were. */
  lemma {:induction false} GrownElement(t: Tree, head: Token, i: nat)
    requires Shaped(t) && head.Start? && i < |t.forest.heads| && Closed(t, i)
    ensures Rooted(Step(t, head).forest) && Unparse(Step(t, head).forest, i) == Unparse(t.forest, i)
    decreases |t.forest.heads| - i, 1, 0
  {
    hide Kids, UnparseAll;
    var f := t.forest;
    GrownHeads(f, head, Top(t));
    GrownKids(f, head, Top(t), i);
    KidsAre(f, i);
    var kids := Kids(f.parents, i);
    forall k | 0 <= k < |kids|
      ensures Closed(t, kids[k])
    {
      KidClosed(t, i, kids[k]);
    }
    GrownElements(t, head, i, kids);
    assert t.open != [] ==> t.open[|t.open| - 1] in t.open;
    assert Kids(Step(t, head).forest.parents, i) == kids;
  }

  lemma {:induction false} GrownElements(t: Tree, head: Token, i: nat, kids: seq<nat>)
    requires Shaped(t) && head.Start? && i < |t.forest.heads| && KidsOf(t.forest, i, kids)
    requires forall k :: 0 <= k < |kids| ==> Closed(t, kids[k])
    ensures Rooted(Step(t, head).forest) && KidsOf(Step(t, head).forest, i, kids)
    ensures UnparseAll(Step(t, head).forest, i, kids) == UnparseAll(t.forest, i, kids)
    decreases |t.forest.heads| - i, 0, |kids|
  {
    hide Unparse, Kids;
    GrownHeads(t.forest, head, Top(t));
    if kids != [] {
      GrownElements(t, head, i, kids[..|kids| - 1]);
      GrownElement(t, head, kids[|kids| - 1]);
    }
  }

  // ---- The tokens so far ------------------------------------------------------------------

  /** The last child of the open element at level k is the next open one. */
  predicate LastKid(t: Tree, k: nat)
    requires k + 1 < |t.open|
  {
    var kids := Kids(t.forest.parents, t.open[k]);
    kids != [] && kids[|kids| - 1] == t.open[k + 1]
  }

  predicate Leading(t: Tree) {
    forall k: nat :: k + 1 < |t.open| ==> LastKid(t, k)
  }

  /** The children of the open element at level k that are finished. */
  function Finished(t: Tree, k: nat): (kids: seq<nat>)
    requires Shaped(t) && k < |t.open|
    ensures KidsOf(t.forest, t.open[k], kids)
  {
    var kids := Kids(t.forest.parents, t.open[k]);
    KidsAre(t.forest, t.open[k]);
    if k + 1 < |t.open| && kids != [] then kids[..|kids| - 1] else kids
  }

  /** What has been read of the open element at level k, but for the open elements in it. */
  function Own(t: Tree, k: nat): seq<Token>
    requires Shaped(t) && k < |t.open|
  {
    [t.forest.heads[t.open[k]]] + UnparseAll(t.forest, t.open[k], Finished(t, k))
  }

  /** What has been read of the open elements from level k on. */
  function SoFar(t: Tree, k: nat): seq<Token>
    requires Shaped(t) && k <= |t.open|
    decreases |t.open| - k
  {
    if k == |t.open| then [] else Own(t, k) + SoFar(t, k + 1)
  }

  /** The finished children are indeed closed: of the children only the next open element is open. */
  lemma FinishedClosed(t: Tree, k: nat)
    requires Shaped(t) && Leading(t) && k < |t.open|
    ensures forall n :: 0 <= n < |Finished(t, k)| ==> Closed(t, Finished(t, k)[n])
  {
    var i, kids := t.open[k], Kids(t.forest.parents, t.open[k]);
    if k + 1 < |t.open| {
      assert LastKid(t, k);
    }
    forall n | 0 <= n < |Finished(t, k)|
      ensures Closed(t, Finished(t, k)[n])
    {
      var kid := kids[n];
      if kid in t.open {
        OnlyOpenKid(t, k, kid);
      }
    }
  }

  lemma OnlyOpenKid(t: Tree, k: nat, kid: nat)
    requires Shaped(t) && k < |t.open| && kid in t.open && t.forest.parents[kid] == Some(t.open[k])
    ensures k + 1 < |t.open| && kid == t.open[k + 1]
  {
    var n :| 0 <= n < |t.open| && t.open[n] == kid;
    SamePlace(t, n - 1, k);
  }

  lemma SamePlace(t: Tree, k: nat, l: nat)
    requires Shaped(t) && k < |t.open| && l < |t.open| && t.open[k] == t.open[l]
    ensures k == l
  {
  }

  lemma StartLeads(t: Tree, head: Token)
    requires Shaped(t) && Leading(t) && head.Start?
    ensures Leading(Step(t, head))
  {
    hide Shaped, Kids;
    var t2 := Step(t, head);
    StepKeepsShape(t, head);
    ShapedIsRooted(t);
    forall k: nat | k + 1 < |t2.open|
      ensures LastKid(t2, k)
    {
      GrownKids(t.forest, head, Top(t), t.open[k]);
      if k + 1 < |t.open| {
        assert LastKid(t, k);
        OpenGrows(t, k, |t.open| - 1);
      }
    }
  }

  lemma ShapedIsRooted(t: Tree)
    requires Shaped(t)
    ensures Rooted(t.forest)
    ensures forall k :: 0 <= k < |t.open| ==> t.open[k] < |t.forest.heads|
  {
  }

  lemma OpenGrows(t: Tree, k: nat, l: nat)
    requires Shaped(t) && k < l < |t.open|
    ensures t.open[k] != t.open[l]
  {
  }

  /** Reading a start adds just that to what has been read. */
  lemma {:induction false} StartReads(t: Tree, head: Token, k: nat)
    requires Shaped(t) && Leading(t) && head.Start? && k <= |t.open|
    ensures Shaped(Step(t, head)) && SoFar(Step(t, head), k) == SoFar(t, k) + [head]
    decreases |t.open| - k
  {
    hide Shaped, Own, Leading, Finished;
    var t2, m := Step(t, head), |t.open|;
    StepKeepsShape(t, head);
    if k == m {
      NewIsRead(t, head);
      assert SoFar(t2, m + 1) == [] && [head] + [] == [] + [head];
    } else {
      StartReads(t, head, k + 1);
      OwnStays(t, head, k);
      assert Own(t, k) + (SoFar(t, k + 1) + [head]) == Own(t, k) + SoFar(t, k + 1) + [head];
    }
  }

  lemma NewIsRead(t: Tree, head: Token)
    requires Shaped(t) && head.Start?
    ensures Shaped(Step(t, head)) && Own(Step(t, head), |t.open|) == [head]
  {
    hide Shaped, Finished, UnparseAll;
    var t2 := Step(t, head);
    StepKeepsShape(t, head);
    ShapedIsRooted(t2);
    NewHasNoKids(t, head);
    NothingUnparsed(t2.forest, |t.forest.heads|);
  }

  lemma OwnStays(t: Tree, head: Token, k: nat)
    requires Shaped(t) && Leading(t) && head.Start? && k < |t.open|
    ensures Shaped(Step(t, head)) && Own(Step(t, head), k) == Own(t, k)
  {
    hide Shaped, Finished, UnparseAll, Leading;
    StepKeepsShape(t, head);
    ShapedIsRooted(t);
    FinishedStays(t, head, k);
    FinishedClosed(t, k);
    GrownElements(t, head, t.open[k], Finished(t, k));
    GrownHeads(t.forest, head, Top(t));
  }

  lemma NewHasNoKids(t: Tree, head: Token)
    requires Shaped(t) && head.Start?
    ensures Shaped(Step(t, head))
    ensures Finished(Step(t, head), |t.open|) == []
  {
    StepKeepsShape(t, head);
    var i, t2 := |t.forest.heads|, Step(t, head);
    NoKids(t2.forest.parents, i);
  }

  lemma {:induction false} NoKids(parents: seq<Option<nat>>, i: nat)
    requires forall k :: 0 <= k < |parents| ==> parents[k] != Some(i)
    ensures Kids(parents, i) == []
  {
    if parents != [] {
      NoKids(parents[..|parents| - 1], i);
    }
  }

  lemma NothingUnparsed(f: Forest, i: nat)
    requires Rooted(f) && i < |f.heads|
    ensures KidsOf(f, i, []) && UnparseAll(f, i, []) == []
  {
  }

  lemma FinishedStays(t: Tree, head: Token, k: nat)
    requires Shaped(t) && Leading(t) && head.Start? && k < |t.open|
    ensures Shaped(Step(t, head)) && Finished(Step(t, head), k) == Finished(t, k)
  {
    hide Kids, Shaped, Leading;
    StepKeepsShape(t, head);
    ShapedIsRooted(t);
    GrownKids(t.forest, head, Top(t), t.open[k]);
    if k + 1 < |t.open| {
      LeadingAt(t, k);
      OpenGrows(t, k, |t.open| - 1);
    }
  }

  lemma EndLeads(t: Tree)
    requires Shaped(t) && Leading(t)
    ensures Leading(Step(t, End))
  {
    hide Kids;
    var t2 := Step(t, End);
    forall k: nat | k + 1 < |t2.open|
      ensures LastKid(t2, k)
    {
      assert LastKid(t, k);
    }
  }

  /** Reading an end adds just that, the element it ends being finished. */
  lemma {:induction false} EndReads(t: Tree, k: nat)
    requires Shaped(t) && Leading(t) && k + 1 < |t.open|
    ensures Shaped(Step(t, End)) && SoFar(Step(t, End), k) == SoFar(t, k) + [End]
    decreases |t.open| - k
  {
    hide Own, Shaped, LastKid;
    var t2 := Step(t, End);
    StepKeepsShape(t, End);
    if k + 2 == |t.open| {
      TopIsRead(t, k);
      assert SoFar(t2, k + 1) == [] && SoFar(t, k + 2) == [];
      assert SoFar(t, k + 1) == Own(t, k + 1) + [] == Own(t, k + 1);
      assert Own(t, k) + Own(t, k + 1) + [End] + [] == Own(t, k) + SoFar(t, k + 1) + [End];
    } else {
      EndReads(t, k + 1);
      OwnOutlives(t, k);
      assert Own(t, k) + (SoFar(t, k + 1) + [End]) == Own(t, k) + SoFar(t, k + 1) + [End];
    }
  }

  /** The element that ends goes to the finished children of the one around it. */
  lemma TopIsRead(t: Tree, k: nat)
    requires Shaped(t) && Leading(t) && k + 2 == |t.open|
    ensures Shaped(Step(t, End)) && Own(Step(t, End), k) == Own(t, k) + Own(t, k + 1) + [End]
  {
    hide Kids, UnparseAll, Shaped, Leading;
    StepKeepsShape(t, End);
    ShapedIsRooted(t);
    assert LastKid(t, k) by { LeadingAt(t, k); }
    var f, i, top := t.forest, t.open[k], t.open[k + 1];
    var kids := Kids(f.parents, i);
    KidsAre(f, i);
    LastUnparsed(f, i, kids);
    assert Unparse(f, top) == Own(t, k + 1) + [End];
    assert Finished(t, k) == kids[..|kids| - 1];
    var before := UnparseAll(f, i, Finished(t, k));
    assert [f.heads[i]] + (before + (Own(t, k + 1) + [End])) == ([f.heads[i]] + before) + Own(t, k + 1) + [End];
  }

  lemma LeadingAt(t: Tree, k: nat)
    requires Leading(t) && k + 1 < |t.open|
    ensures LastKid(t, k)
  {
  }

  lemma OwnOutlives(t: Tree, k: nat)
    requires Shaped(t) && k + 2 < |t.open|
    ensures Shaped(Step(t, End)) && Own(Step(t, End), k) == Own(t, k)
  {
    hide Kids, UnparseAll, Shaped;
    StepKeepsShape(t, End);
    ShapedIsRooted(t);
  }

  lemma LastUnparsed(f: Forest, i: nat, kids: seq<nat>)
    requires Rooted(f) && i < |f.heads| && KidsOf(f, i, kids) && kids != []
    ensures UnparseAll(f, i, kids) == UnparseAll(f, i, kids[..|kids| - 1]) + Unparse(f, kids[|kids| - 1])
  {
  }

  // ---- A document -------------------------------------------------------------------------

  /** The tokens that make up elements. */
  function Elements(tokens: seq<Token>): seq<Token> {
    if tokens == [] then []
    else Elements(tokens[..|tokens| - 1]) + if tokens[|tokens| - 1].Other? then [] else [tokens[|tokens| - 1]]
  }

  /** Inside the root element: it has started and not ended. */
  predicate Inside(tokens: seq<Token>) {
    Built(tokens).open != []
  }

  /** One element from the first token to the last. */
  predicate OneElement(tokens: seq<Token>) {
    && |tokens| >= 2 && tokens[0].Start?
    && (forall n :: 0 < n < |tokens| ==> Inside(tokens[..n]))
    && !Inside(tokens)
  }

  lemma {:induction false} ReadSoFar(tokens: seq<Token>)
    requires tokens != [] && tokens[0].Start? && forall n :: 0 < n <= |tokens| ==> Inside(tokens[..n])
    ensures var t := Built(tokens);
            && Shaped(t) && Leading(t) && t.root == Some(0) && t.open != [] && t.open[0] == 0
            && SoFar(t, 0) == Elements(tokens)
    decreases |tokens|
  {
    hide Shaped, Leading, SoFar;
    var front, last := tokens[..|tokens| - 1], tokens[|tokens| - 1];
    BuiltIsShaped(tokens);
    assert tokens[..|tokens|] == tokens;
    if |tokens| == 1 {
      assert front == [];
      FirstRead(last);
    } else {
      forall n | 0 < n <= |front|
        ensures Inside(front[..n])
      {
        assert front[..n] == tokens[..n];
      }
      ReadSoFar(front);
      BuiltIsShaped(front);
      var t := Built(front);
      match last
      case Start(_, _) =>
        StartLeads(t, last);
        StartReads(t, last, 0);
      case End =>
        assert Step(t, last).open == t.open[..|t.open| - 1];
        EndLeads(t);
        EndReads(t, 0);
      case Other =>
    }
  }

  lemma FirstRead(head: Token)
    requires head.Start?
    ensures var t := Step(Tree(Forest([], []), [], None), head);
            Shaped(t) && Leading(t) && t.root == Some(0) && t.open == [0] && SoFar(t, 0) == Elements([head])
  {
    hide Shaped, UnparseAll, Kids;
    var t0 := Tree(Forest([], []), [], None);
    assert Shaped(t0) && Leading(t0) by {
      EmptyIsShaped();
    }
    StepKeepsShape(t0, head);
    StartReads(t0, head, 0);
    assert SoFar(t0, 0) == [] && [] + [head] == [head];
    assert [head][..0] == [];
  }

  lemma EmptyIsShaped()
    ensures Shaped(Tree(Forest([], []), [], None)) && Leading(Tree(Forest([], []), [], None))
  {
  }

  /** Tokens that are no element events leave no trace: prologs, comments, text, final newlines. */
  lemma {:induction false} OthersLeaveNoTrace(tokens: seq<Token>)
    ensures Built(tokens) == Built(Elements(tokens)) && Elements(Elements(tokens)) == Elements(tokens)
    decreases |tokens|
  {
    if tokens != [] {
      hide Step;
      var front, last := tokens[..|tokens| - 1], tokens[|tokens| - 1];
      OthersLeaveNoTrace(front);
      if last.Other? {
        assert Elements(tokens) == Elements(front) + [] == Elements(front);
        OtherStep(Built(front));
      } else {
        assert Elements(tokens)[..|Elements(tokens)| - 1] == Elements(front);
      }
    }
  }

  lemma OtherStep(t: Tree)
    ensures Step(t, Other) == t
  {
  }

  /** The tree of a document, whatever stands before, inside and after its root element, read back element
      by element in document order, is the stream of element events it was built from. */
  lemma TreeReadsBack(tokens: seq<Token>)
    requires OneElement(Elements(tokens))
    ensures var t := Built(tokens);
            && Rooted(t.forest) && t.root == Some(0) && |t.forest.heads| > 0
            && Unparse(t.forest, 0) == Elements(tokens)
  {
    OthersLeaveNoTrace(tokens);
    ElementReadsBack(Elements(tokens));
  }

  lemma ElementReadsBack(tokens: seq<Token>)
    requires OneElement(tokens)
    ensures var t := Built(tokens);
            && Rooted(t.forest) && t.root == Some(0) && |t.forest.heads| > 0
            && Unparse(t.forest, 0) == Elements(tokens)
  {
    hide Shaped, Rooted, Unparse, SoFar, Leading, Elements, Built, Inside;
    var front, last := tokens[..|tokens| - 1], tokens[|tokens| - 1];
    forall n | 0 < n <= |front|
      ensures Inside(front[..n])
    {
      assert front[..n] == tokens[..n];
    }
    ReadSoFar(front);
    BuiltIsShaped(front);
    var t := Built(front);
    assert front + [last] == tokens;
    ElementsMore(front, last);
    NotInside(front, last);
    RootRead(t);
  }

  /** The element that is open last reads to its end. */
  lemma RootRead(t: Tree)
    requires Shaped(t) && |t.open| == 1 && t.open[0] == 0
    ensures Rooted(t.forest) && |t.forest.heads| > 0
    ensures Unparse(t.forest, 0) == SoFar(t, 0) + [End]
  {
    hide UnparseAll, Kids;
    assert SoFar(t, 1) == [];
    var all := [t.forest.heads[0]] + UnparseAll(t.forest, 0, Finished(t, 0));
    assert all + [] == all;
  }

  lemma NotInside(front: seq<Token>, last: Token)
    requires Inside(front) && !Inside(front + [last])
    ensures last == End && |Built(front).open| == 1
    ensures Built(front + [last]).forest == Built(front).forest && Built(front + [last]).root == Built(front).root
  {
    assert (front + [last])[..|front|] == front;
  }

  lemma ElementsMore(tokens: seq<Token>, last: Token)
    ensures Elements(tokens + [last]) == Elements(tokens) + if last.Other? then [] else [last]
  {
    assert (tokens + [last])[..|tokens|] == tokens;
  }

  // ---- The builder ------------------------------------------------------------------------

  class XmlNode {
    const name: Name
    const attrs: seq<Attr>
    var children: seq<XmlNode>
    var ns: map<string, string>

    constructor (name: Name, attrs: seq<Attr>, ns: map<string, string>)
      ensures this.name == name && this.attrs == attrs && this.ns == ns && children == []
    {
      this.name, this.attrs, this.ns, this.children := name, attrs, ns, [];
    }
  }

  function Pick(nodes: seq<XmlNode>, places: seq<nat>): (r: seq<XmlNode>)
    requires forall k :: 0 <= k < |places| ==> places[k] < |nodes|
    ensures |r| == |places|
  {
    seq(|places|, k requires 0 <= k < |places| => nodes[places[k]])
  }

  /** What the i-th element is to look like: its name and attributes, the namespaces in force at it, and
      its children among the nodes. */
  predicate Matches(head: Token, ns: map<string, string>, children: seq<XmlNode>, nodes: seq<XmlNode>, f: Forest, i: nat)
    requires Rooted(f) && |nodes| == |f.heads| && i < |nodes|
  {
    head == f.heads[i] && ns == Scope(f, i) && children == Pick(nodes, Kids(f.parents, i))
  }

  predicate Represents(node: XmlNode, nodes: seq<XmlNode>, f: Forest, i: nat)
    requires Rooted(f) && |nodes| == |f.heads| && i < |nodes|
    reads node
  {
    Matches(Start(node.name, node.attrs), node.ns, node.children, nodes, f, i)
  }

  lemma MatchesGrown(head: Token, ns: map<string, string>, children: seq<XmlNode>, nodes: seq<XmlNode>, f: Forest, i: nat,
                     more: Token, parent: Option<nat>, node: XmlNode)
    requires Rooted(f) && Rooted(Grown(f, more, parent)) && |nodes| == |f.heads| && i < |nodes|
    requires Matches(head, ns, children, nodes, f, i)
    ensures Matches(head, ns, if parent == Some(i) then children + [node] else children, nodes + [node],
                    Grown(f, more, parent), i)
  {
    hide Scope, Kids;
    GrownScope(f, more, parent, i);
    GrownKids(f, more, parent, i);
    var kids := Kids(f.parents, i);
    assert Pick(nodes + [node], kids) == Pick(nodes, kids);
    if parent == Some(i) {
      assert Pick(nodes + [node], kids + [|nodes|]) == Pick(nodes, kids) + [node];
    } else {
      assert kids + [] == kids;
    }
  }

  lemma MatchesNew(nodes: seq<XmlNode>, f: Forest, head: Token, parent: Option<nat>, node: XmlNode, around: map<string, string>)
    requires Rooted(f) && head.Start? && |nodes| == |f.heads| && (parent.Some? ==> parent.value < |nodes|)
    requires around == if parent.None? then map[] else Scope(f, parent.value)
    ensures Rooted(Grown(f, head, parent))
    ensures Matches(head, Applied(around, head.attrs), [], nodes + [node], Grown(f, head, parent), |nodes|)
  {
    hide Applied;
    GrownHeads(f, head, parent);
    NoKids(Grown(f, head, parent).parents, |nodes|);
    if parent.Some? {
      GrownScope(f, head, parent, parent.value);
    }
  }

  method ApplyNamespaceDecl(target: map<string, string>, attrs: seq<Attr>) returns (r: map<string, string>)
    ensures r == Applied(target, attrs)
  {
    r := target;
    assert attrs[..0] == [];
    for n := 0 to |attrs|
      invariant r == Applied(target, attrs[..n])
    {
      assert attrs[..n + 1][..n] == attrs[..n];
      if attrs[n].name.space == "xmlns" {
        r := r[attrs[n].name.local := attrs[n].value];
      } else if attrs[n].name.space == "" && attrs[n].name.local == "xmlns" {
        r := r["" := attrs[n].value];
      }
    }
    assert attrs[..|attrs|] == attrs;
  }

  ghost predicate AllRepresent(nodes: seq<XmlNode>, f: Forest)
    reads nodes
  {
    && Rooted(f) && |nodes| == |f.heads|
    && (forall i :: 0 <= i < |nodes| ==> Represents(nodes[i], nodes, f, i))
    && (forall i, j :: 0 <= i < j < |nodes| ==> nodes[i] != nodes[j])
  }

  /** The stack holds the nodes of the open elements. */
  predicate Holds(stack: seq<XmlNode>, nodes: seq<XmlNode>, t: Tree) {
    && |stack| == |t.open|
    && forall k :: 0 <= k < |stack| ==> t.open[k] < |nodes| && stack[k] == nodes[t.open[k]]
  }

  /** A node for an element that starts, put in the one on top of the stack. */
  method AddNode(stack: seq<XmlNode>, name: Name, attrs: seq<Attr>, ghost t: Tree, ghost nodes: seq<XmlNode>)
    returns (node: XmlNode)
    requires AllRepresent(nodes, t.forest) && Holds(stack, nodes, t)
    modifies if stack == [] then {} else {stack[|stack| - 1]}
    ensures fresh(node)
    ensures AllRepresent(nodes + [node], Step(t, Start(name, attrs)).forest)
  {
    hide Rooted, Scope, Kids, Matches, Applied;
    var ns := map[];
    if |stack| > 0 {
      ns := stack[|stack| - 1].ns;
    }
    ghost var around, head, f := ns, Start(name, attrs), t.forest;
    TopScope(t, nodes, around);
    ns := ApplyNamespaceDecl(ns, attrs);
    node := new XmlNode(name, attrs, ns);
    MatchesNew(nodes, f, head, Top(t), node, around);
    forall i | 0 <= i < |nodes|
      ensures Matches(Start(nodes[i].name, nodes[i].attrs), nodes[i].ns,
                      if Top(t) == Some(i) then nodes[i].children + [node] else nodes[i].children,
                      nodes + [node], Grown(f, head, Top(t)), i)
    {
      MatchesGrown(Start(nodes[i].name, nodes[i].attrs), nodes[i].ns, nodes[i].children, nodes, f, i, head, Top(t), node);
    }
    if |stack| > 0 {
      var parent := stack[|stack| - 1];
      parent.children := parent.children + [node];
    }
  }

  /** The nodes made for a stream: one for every element, linked as the elements are nested. */
  method ParseXmlNode(tokens: seq<Token>) returns (root: XmlNode?, ghost nodes: seq<XmlNode>)
    ensures fresh(nodes) && AllRepresent(nodes, Built(tokens).forest)
    ensures match Built(tokens).root
            case None => root == null
            case Some(i) => i < |nodes| && root == nodes[i]
  {
    BuiltFromNothing();
    hide Shaped, AllRepresent, Built, Grown;
    root, nodes := null, [];
    var stack: seq<XmlNode> := [];
    ghost var t := Built([]);
    BuiltIsShaped([]);
    NothingRepresents();
    assert tokens[..0] == [];
    for n := 0 to |tokens|
      invariant t == Built(tokens[..n]) && Shaped(t)
      invariant fresh(nodes) && AllRepresent(nodes, t.forest)
      invariant match t.root
                case None => root == null
                case Some(i) => i < |nodes| && root == nodes[i]
      invariant Holds(stack, nodes, t)
    {
      BuiltStep(tokens, n);
      StepKeepsShape(t, tokens[n]);
      match tokens[n] {
        case Start(name, attrs) =>
          AsManyNodes(nodes, t.forest);
          var node := AddNode(stack, name, attrs, t, nodes);
          if |stack| == 0 {
            root := node;
          }
          stack := stack + [node];
          nodes := nodes + [node];
        case End =>
          if |stack| > 0 {
            stack := stack[..|stack| - 1];
          }
        case Other =>
      }
      t := Step(t, tokens[n]);
    }
    assert tokens[..|tokens|] == tokens;
  }

  lemma AsManyNodes(nodes: seq<XmlNode>, f: Forest)
    ensures AllRepresent(nodes, f) ==> |nodes| == |f.heads|
  {
  }

  lemma BuiltFromNothing()
    ensures Built([]) == Tree(Forest([], []), [], None)
  {
  }

  lemma BuiltStep(tokens: seq<Token>, n: nat)
    requires n < |tokens|
    ensures Built(tokens[..n + 1]) == Step(Built(tokens[..n]), tokens[n])
  {
    assert tokens[..n + 1][..n] == tokens[..n];
  }

  lemma NothingRepresents()
    ensures AllRepresent([], Forest([], []))
  {
  }

  lemma TopScope(t: Tree, nodes: seq<XmlNode>, around: map<string, string>)
    requires AllRepresent(nodes, t.forest) && (forall k :: 0 <= k < |t.open| ==> t.open[k] < |nodes|)
    requires t.open == [] ==> around == map[]
    requires t.open != [] ==> around == nodes[t.open[|t.open| - 1]].ns
    ensures around == if Top(t).None? then map[] else Scope(t.forest, Top(t).value)
  {
    hide Scope, Kids, Rooted;
    if t.open != [] {
      var i := t.open[|t.open| - 1];
      assert Represents(nodes[i], nodes, t.forest, i);
    }
  }
}
