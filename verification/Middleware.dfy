/** A request's chain of handlers: one shared index, moved by the loop that runs the handlers and by the
    handlers themselves, which may call Next any number of times, Abort anywhere, and ask whether the chain
    is aborted. */
module Middleware {

  /** What a handler does to the chain while it runs. Since no handler runs twice, a branch on anything
      but the chain is taken one way only. */
  datatype Body = Done | CallNext(next: Body) | CallAbort(next: Body) | IfAborted(yes: Body, no: Body)

  datatype Handler = Nil | Func(body: Body)

  datatype Event = Starts(k: nat) | Finishes(k: nat) | Aborts

  // ---- What a run does --------------------------------------------------------------------

  function Left(handlers: seq<Handler>, i: nat): nat {
    if i < |handlers| then |handlers| - i else 0
  }

  /** The loop of Next with the index at i: where the index ends up, and what happens. */
  function Loop(handlers: seq<Handler>, i: nat): (r: (nat, seq<Event>))
    ensures r.0 >= |handlers|
    decreases Left(handlers, i), 2
  {
    if i >= |handlers| then (i, [])
    else
      var (j, events) := Call(handlers, i);
      var (k, more) := Loop(handlers, j + 1);
      (k, events + more)
  }

  function Call(handlers: seq<Handler>, i: nat): (r: (nat, seq<Event>))
    requires i < |handlers|
    ensures r.0 >= i
    decreases Left(handlers, i), 1
  {
    match handlers[i]
    case Nil => (i, [])
    case Func(body) =>
      var (j, events) := Run(handlers, body, i);
      (j, [Starts(i)] + events + [Finishes(i)])
  }

  /** The rest of a handler's body, with the index at i. Abort sets the index to the end even when it is
      past it already. */
  function Run(handlers: seq<Handler>, body: Body, i: nat): (r: (nat, seq<Event>))
    ensures r.0 >= i || r.0 >= |handlers|
    decreases Left(handlers, i), 0, body
  {
    match body
    case Done => (i, [])
    case CallNext(next) =>
      var (j, events) := if i >= |handlers| then (i + 1, []) else Loop(handlers, i + 1);
      var (k, more) := Run(handlers, next, j);
      (k, events + more)
    case CallAbort(next) =>
      var (k, more) := Run(handlers, next, |handlers|);
      (k, [Aborts] + more)
    case IfAborted(yes, no) => Run(handlers, if i >= |handlers| then yes else no, i)
  }

  // ---- Order of starting ------------------------------------------------------------------

  /** The handlers started, in order. */
  function Started(events: seq<Event>): seq<nat> {
    if events == [] then []
    else (if events[0].Starts? then [events[0].k] else []) + Started(events[1..])
  }

  /** The handlers from lo up to hi that are there to be run, in the order of their index. */
  function Live(handlers: seq<Handler>, lo: nat, hi: nat): seq<nat>
    requires hi <= |handlers|
    decreases hi - lo
  {
    if lo >= hi then [] else (if handlers[lo].Nil? then [] else [lo]) + Live(handlers, lo + 1, hi)
  }

  lemma {:induction false} LiveSplit(handlers: seq<Handler>, lo: nat, mid: nat, hi: nat)
    requires lo <= mid <= hi <= |handlers|
    ensures Live(handlers, lo, mid) + Live(handlers, mid, hi) == Live(handlers, lo, hi)
    decreases mid - lo
  {
    if lo < mid {
      LiveSplit(handlers, lo + 1, mid, hi);
    }
  }

  lemma NoneStarted()
    ensures Started([]) == []
  {
  }

  lemma StartedCons(e: Event, rest: seq<Event>)
    ensures Started([e] + rest) == (if e.Starts? then [e.k] else []) + Started(rest)
  {
    assert ([e] + rest)[1..] == rest;
  }

  lemma {:induction false} StartedConcat(a: seq<Event>, b: seq<Event>)
    ensures Started(a + b) == Started(a) + Started(b)
  {
    hide Started;
    if a == [] {
      assert a + b == b;
      NoneStarted();
    } else {
      StartedConcat(a[1..], b);
      StartedCons(a[0], a[1..]);
      StartedCons(a[0], a[1..] + b);
      assert a == [a[0]] + a[1..] && a + b == [a[0]] + (a[1..] + b);
      var own := if a[0].Starts? then [a[0].k] else [];
      assert own + (Started(a[1..]) + Started(b)) == (own + Started(a[1..])) + Started(b);
    }
  }

  /** No handler starts after an abort. */
  predicate AbortIsFinal(events: seq<Event>) {
    forall i, j :: 0 <= i < j < |events| && events[i].Aborts? ==> !events[j].Starts?
  }

  lemma FinalConcat(a: seq<Event>, b: seq<Event>)
    requires AbortIsFinal(a) && AbortIsFinal(b)
    requires Aborts in a ==> Started(b) == []
    ensures AbortIsFinal(a + b)
  {
    NothingStarted(b);
  }

  lemma {:induction false} NothingStarted(events: seq<Event>)
    ensures Started(events) == [] <==> forall e :: e in events ==> !e.Starts?
  {
    if events != [] {
      NothingStarted(events[1..]);
    }
  }

  // ---- Nesting ----------------------------------------------------------------------------

  datatype Nesting = Broken | Open(running: seq<nat>)

  /** The handlers running after some events: the one that finishes must be the one started last. */
  function After(running: seq<nat>, events: seq<Event>): Nesting
    decreases |events|
  {
    if events == [] then Open(running)
    else
      match events[0]
      case Starts(k) => After([k] + running, events[1..])
      case Finishes(k) => if running != [] && running[0] == k then After(running[1..], events[1..]) else Broken
      case Aborts => After(running, events[1..])
  }

  lemma {:induction false} AfterConcat(running: seq<nat>, a: seq<Event>, b: seq<Event>)
    requires After(running, a).Open?
    ensures After(running, a + b) == After(After(running, a).running, b)
    decreases |a|
  {
    if a == [] {
      assert a + b == b;
    } else {
      assert (a + b)[1..] == a[1..] + b;
      match a[0]
      case Starts(k) => AfterConcat([k] + running, a[1..], b);
      case Finishes(k) => AfterConcat(running[1..], a[1..], b);
      case Aborts => AfterConcat(running, a[1..], b);
    }
  }

  // ---- Every run --------------------------------------------------------------------------

  predicate WellNested(events: seq<Event>)
  {
    After([], events) == Open([])
  }

  ghost predicate Balanced(events: seq<Event>) {
    forall running: seq<nat> :: After(running, events) == Open(running)
  }

  function UpTo(handlers: seq<Handler>, j: nat): nat {
    if j + 1 <= |handlers| then j + 1 else |handlers|
  }

  /** A stretch of a run that starts handlers from lo on and leaves the index at j: it starts the live
      handlers up to j in order, or, if it aborts, those up to some point; every handler that starts in
      it finishes in it, inside the one that started it; and nothing starts after an abort. */
  ghost predicate Orderly(handlers: seq<Handler>, events: seq<Event>, lo: nat, j: nat) {
    && Balanced(events)
    && AbortIsFinal(events)
    && (Aborts in events ==> j >= |handlers| && StartsSome(handlers, events, lo))
    && (Aborts !in events ==> Started(events) == Live(handlers, lo, UpTo(handlers, j)))
  }

  ghost predicate StartsSome(handlers: seq<Handler>, events: seq<Event>, lo: nat) {
    exists hi: nat :: hi <= |handlers| && Started(events) == Live(handlers, lo, hi)
  }

  lemma StartedConcatBalanced(events: seq<Event>, more: seq<Event>)
    requires Balanced(events) && Balanced(more)
    ensures Balanced(events + more)
  {
    forall running: seq<nat>
      ensures After(running, events + more) == Open(running)
    {
      AfterConcat(running, events, more);
    }
  }

  /** One stretch after another. */
  lemma OrderlyThen(handlers: seq<Handler>, events: seq<Event>, more: seq<Event>, lo: nat, j: nat, k: nat)
    requires Orderly(handlers, events, lo, j) && Orderly(handlers, more, j + 1, k)
    requires k >= j || k >= |handlers|
    requires Aborts in events || lo <= j + 1
    ensures Orderly(handlers, events + more, lo, k)
  {
    hide Balanced, AbortIsFinal;
    StartedConcatBalanced(events, more);
    StartedConcat(events, more);
    if Aborts in events {
      assert Started(more) == [];
      FinalConcat(events, more);
      assert Started(events + more) == Started(events);
    } else {
      FinalConcat(events, more);
      var mid := UpTo(handlers, j);
      if Aborts in more {
        var hi: nat :| hi <= |handlers| && Started(more) == Live(handlers, j + 1, hi);
        if hi >= j + 1 {
          LiveSplit(handlers, lo, mid, hi);
        } else {
          assert Started(events + more) == Live(handlers, lo, mid);
        }
      } else if lo <= mid {
        LiveSplit(handlers, lo, mid, UpTo(handlers, k));
      }
    }
  }

  lemma {:induction false} LoopOrderly(handlers: seq<Handler>, i: nat)
    ensures var (k, events) := Loop(handlers, i); Orderly(handlers, events, i, k)
    decreases Left(handlers, i), 2
  {
    hide Orderly;
    if i >= |handlers| {
      NothingIsOrderly(handlers, i, i);
    } else {
      var (j, events) := Call(handlers, i);
      var (k, more) := Loop(handlers, j + 1);
      CallOrderly(handlers, i);
      LoopOrderly(handlers, j + 1);
      OrderlyThen(handlers, events, more, i, j, k);
    }
  }

  lemma NothingIsOrderly(handlers: seq<Handler>, lo: nat, j: nat)
    requires lo > j || lo >= |handlers|
    ensures Orderly(handlers, [], lo, j)
  {
  }

  lemma {:induction false} CallOrderly(handlers: seq<Handler>, i: nat)
    requires i < |handlers|
    ensures var (j, events) := Call(handlers, i); Orderly(handlers, events, i, j)
    decreases Left(handlers, i), 1
  {
    match handlers[i]
    case Nil =>
      assert Live(handlers, i, i + 1) == [];
    case Func(body) =>
      hide Orderly;
      RunOrderly(handlers, body, i);
      var (j, events) := Run(handlers, body, i);
      Bracketed(handlers, events, i, j);
  }

  lemma Bracketed(handlers: seq<Handler>, events: seq<Event>, i: nat, j: nat)
    requires i < |handlers| && handlers[i].Func?
    requires Orderly(handlers, events, i + 1, j) && (j >= i || j >= |handlers|)
    ensures Orderly(handlers, [Starts(i)] + events + [Finishes(i)], i, j)
  {
    var open, close := [Starts(i)], [Finishes(i)];
    var all := open + events + close;
    assert Started(open) == [i] && Started(close) == [] by {
      assert open[1..] == [] && close[1..] == [];
    }
    StartedConcat(open + events, close);
    StartedConcat(open, events);
    assert Balanced(all) by {
      forall running: seq<nat>
        ensures After(running, all) == Open(running)
      {
        AfterConcat([i] + running, events, close);
        assert all[0] == Starts(i) && all[1..] == events + close;
        assert ([i] + running)[1..] == running && close[1..] == [];
      }
    }
    assert AbortIsFinal(all);
    assert Aborts in all <==> Aborts in events;
    if Aborts in events {
      var hi: nat :| hi <= |handlers| && Started(events) == Live(handlers, i + 1, hi);
      assert Started(all) == Live(handlers, i, if hi > i then hi else i + 1);
    }
  }

  lemma {:induction false} RunOrderly(handlers: seq<Handler>, body: Body, i: nat)
    ensures var (k, events) := Run(handlers, body, i); Orderly(handlers, events, i + 1, k)
    decreases Left(handlers, i), 0, body
  {
    hide Orderly;
    match body
    case Done =>
      NothingIsOrderly(handlers, i + 1, i);
    case CallNext(next) =>
      var (j, events) := if i >= |handlers| then (i + 1, []) else Loop(handlers, i + 1);
      if i >= |handlers| {
        NothingIsOrderly(handlers, i + 1, i + 1);
      } else {
        LoopOrderly(handlers, i + 1);
      }
      RunOrderly(handlers, next, j);
      OrderlyThen(handlers, events, Run(handlers, next, j).1, i + 1, j, Run(handlers, next, j).0);
    case CallAbort(next) =>
      AbortIsOrderly(handlers, i + 1);
      RunOrderly(handlers, next, |handlers|);
      var (k, more) := Run(handlers, next, |handlers|);
      OrderlyThen(handlers, [Aborts], more, i + 1, |handlers|, k);
    case IfAborted(yes, no) =>
      RunOrderly(handlers, if i >= |handlers| then yes else no, i);
  }

  lemma AbortIsOrderly(handlers: seq<Handler>, lo: nat)
    ensures Orderly(handlers, [Aborts], lo, |handlers|)
  {
    assert [Aborts][1..] == [];
    assert Started([Aborts]) == Live(handlers, lo, 0);
  }

  /** Serving a request, whatever the handlers do: they start in index order, a prefix of those there
      are, each once; each finishes within the one that started it; none starts after an abort; and if
      nobody aborts all of them run. */
  lemma ServingIsOrderly(handlers: seq<Handler>) returns (served: nat)
    ensures var events := Loop(handlers, 0).1;
            && served <= |handlers|
            && Started(events) == Live(handlers, 0, served)
            && (Aborts !in events ==> served == |handlers|)
            && WellNested(events)
            && AbortIsFinal(events)
  {
    LoopOrderly(handlers, 0);
    var (k, events) := Loop(handlers, 0);
    if Aborts in events {
      served :| served <= |handlers| && Started(events) == Live(handlers, 0, served);
    } else {
      served := |handlers|;
    }
  }

  /** Live handlers come in strictly increasing order, so none twice. */
  lemma {:induction false} LiveIncreases(handlers: seq<Handler>, lo: nat, hi: nat)
    requires hi <= |handlers|
    ensures var live := Live(handlers, lo, hi);
            && (forall i :: 0 <= i < |live| ==> lo <= live[i] < hi && handlers[live[i]].Func?)
            && (forall i, j :: 0 <= i < j < |live| ==> live[i] < live[j])
            && (forall k :: lo <= k < hi && handlers[k].Func? ==> k in live)
    decreases hi - lo
  {
    if lo < hi {
      LiveIncreases(handlers, lo + 1, hi);
    }
  }

  // ---- The context ------------------------------------------------------------------------

  ghost function Then(before: seq<Event>, r: (nat, seq<Event>)): (int, seq<Event>) {
    (r.0, before + r.1)
  }

  lemma Regroup(a: seq<Event>, b: seq<Event>, c: seq<Event>)
    ensures a + (b + c) == (a + b) + c
  {
  }

  lemma LoopPastEnd(handlers: seq<Handler>, i: nat)
    ensures i >= |handlers| ==> Loop(handlers, i) == (i, [])
  {
  }

  class Context {
    var handlers: seq<Handler>
    var handlerIndex: int
    ghost var events: seq<Event>

    constructor ()
      ensures handlers == [] && handlerIndex == -1 && events == []
    {
      handlers, handlerIndex, events := [], -1, [];
    }

    method Reset()
      modifies this
      ensures handlers == [] && handlerIndex == -1 && events == []
    {
      handlers, handlerIndex, events := [], -1, [];
    }

    method Next()
      requires handlerIndex >= -1
      modifies this
      ensures handlers == old(handlers)
      ensures (handlerIndex, events) == Then(old(events), Loop(old(handlers), old(handlerIndex) + 1))
      ensures IsAborted()
      decreases if handlerIndex < |handlers| then |handlers| - handlerIndex else 0, 0
    {
      ghost var start := handlerIndex + 1;
      handlerIndex := handlerIndex + 1;
      while handlerIndex < |handlers|
        invariant handlers == old(handlers) && handlerIndex >= start
        invariant Then(events, Loop(handlers, handlerIndex)) == Then(old(events), Loop(handlers, start))
        decreases |handlers| - handlerIndex
      {
        ghost var i, was := handlerIndex, events;
        if handlers[handlerIndex].Func? {
          RunHandler(handlers[handlerIndex].body);
        } else {
          assert was + [] == was;
        }
        Regroup(was, Call(handlers, i).1, Loop(handlers, Call(handlers, i).0 + 1).1);
        handlerIndex := handlerIndex + 1;
      }
      assert events + [] == events;
    }

    /** Calling the handler at the index, whose body this is. */
    method RunHandler(body: Body)
      requires 0 <= handlerIndex < |handlers| && handlers[handlerIndex] == Func(body)
      modifies this
      ensures handlers == old(handlers)
      ensures (handlerIndex, events) == Then(old(events), Call(old(handlers), old(handlerIndex)))
      decreases |handlers| - handlerIndex, 1
    {
      ghost var i := handlerIndex;
      events := events + [Starts(i)];
      var left := body;
      while !left.Done?
        invariant handlers == old(handlers) && (handlerIndex >= i || handlerIndex >= |handlers|)
        invariant Then(events, Run(handlers, left, handlerIndex)) == Then(old(events) + [Starts(i)], Run(handlers, body, i))
        decreases left
      {
        ghost var at, was := handlerIndex, events;
        match left {
          case CallNext(next) =>
            Next();
            LoopPastEnd(handlers, at + 1);
            Regroup(was, Loop(handlers, at + 1).1, Run(handlers, next, handlerIndex).1);
            left := next;
          case CallAbort(next) =>
            Abort();
            Regroup(was, [Aborts], Run(handlers, next, handlerIndex).1);
            left := next;
          case IfAborted(yes, no) =>
            left := if IsAborted() then yes else no;
        }
      }
      assert events + [] == events;
      events := events + [Finishes(i)];
      Regroup(old(events), [Starts(i)], Run(handlers, body, i).1);
      Regroup(old(events), [Starts(i)] + Run(handlers, body, i).1, [Finishes(i)]);
    }

    method Abort()
      modifies this
      ensures handlers == old(handlers) && handlerIndex == |handlers| && events == old(events) + [Aborts]
    {
      handlerIndex := |handlers|;
      events := events + [Aborts];
    }

    predicate IsAborted()
      reads this
    {
      handlerIndex >= |handlers|
    }
  }
}
