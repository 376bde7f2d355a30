/** What serving a request comes to, told by the handlers themselves: which of them ran, inside which call of Next,
    and what each of them did. */
module MiddlewareHistory {
  import opened Middleware

  /** A handler that ran, and what it did, in order: calls of Next with the handlers that ran in them, aborts, and
      questions whether the chain is aborted, with their answers. */
  datatype Service = Service(k: nat, acts: seq<Act>)

  datatype Act = Nexted(ran: seq<Service>) | Aborted | Asked(answer: bool)

  /** The acts are a way through the body. */
  predicate Way(body: Body, acts: seq<Act>)
    decreases body
  {
    match body
    case Done => acts == []
    case CallNext(next) => acts != [] && acts[0].Nexted? && Way(next, acts[1..])
    case CallAbort(next) => acts != [] && acts[0].Aborted? && Way(next, acts[1..])
    case IfAborted(yes, no) => acts != [] && acts[0].Asked? && Way(if acts[0].answer then yes else no, acts[1..])
  }

  /** An abort or a call of Next is among the acts. */
  predicate EndsChain(acts: seq<Act>) {
    exists i :: 0 <= i < |acts| && !acts[i].Asked?
  }

  /** What an act of handler k meets: the first Next of a handler that has not aborted runs the rest of the chain,
      and every later one nothing; the chain looks aborted just when there was an abort or a Next before. */
  predicate Meets(handlers: seq<Handler>, k: nat, act: Act, over: bool)
    decreases act, 0
  {
    match act
    case Nexted(ran) => if over then ran == [] else Served(handlers, k + 1, ran)
    case Aborted => true
    case Asked(answer) => answer == over
  }

  predicate AllMeet(handlers: seq<Handler>, k: nat, acts: seq<Act>, over: bool)
    decreases acts, 1
  {
    forall i :: 0 <= i < |acts| ==> Meets(handlers, k, acts[i], over || EndsChain(acts[..i]))
  }

  /** The chain runs from handler lo on: the first one that is there, and after it, unless it has aborted or called
      Next, the chain from the one behind it. */
  predicate Served(handlers: seq<Handler>, lo: nat, ran: seq<Service>)
    decreases ran, 0
  {
    if ran == [] then AllNil(handlers, lo, |handlers|)
    else
      var k, acts := ran[0].k, ran[0].acts;
      && lo <= k < |handlers| && AllNil(handlers, lo, k) && handlers[k].Func?
      && Way(handlers[k].body, acts) && AllMeet(handlers, k, acts, false)
      && if EndsChain(acts) then ran[1..] == [] else Served(handlers, k + 1, ran[1..])
  }

  predicate AllNil(handlers: seq<Handler>, lo: nat, hi: nat)
    requires hi <= |handlers|
  {
    forall j :: lo <= j < hi ==> handlers[j].Nil?
  }

  /** What is seen of it. */
  function Events(ran: seq<Service>): seq<Event>
    decreases ran, 1
  {
    if ran == [] then []
    else [Starts(ran[0].k)] + Actions(ran[0].acts) + [Finishes(ran[0].k)] + Events(ran[1..])
  }

  function Actions(acts: seq<Act>): seq<Event>
    decreases acts, 0
  {
    if acts == [] then []
    else
      (match acts[0] case Nexted(ran) => Events(ran) case Aborted => [Aborts] case Asked(_) => []) + Actions(acts[1..])
  }

  lemma ActsInTurn(handlers: seq<Handler>, k: nat, act: Act, rest: seq<Act>, over: bool)
    requires Meets(handlers, k, act, over) && AllMeet(handlers, k, rest, over || !act.Asked?)
    ensures AllMeet(handlers, k, [act] + rest, over)
    ensures EndsChain([act] + rest) <==> !act.Asked? || EndsChain(rest)
  {
    hide Meets;
    var acts := [act] + rest;
    EndsInTurn(act, rest);
    forall i | 0 <= i < |acts|
      ensures Meets(handlers, k, acts[i], over || EndsChain(acts[..i]))
    {
      if i == 0 {
        assert acts[..0] == [];
      } else {
        assert acts[..i] == [act] + rest[..i - 1] && acts[i] == rest[i - 1];
        EndsInTurn(act, rest[..i - 1]);
      }
    }
  }

  lemma EndsInTurn(act: Act, rest: seq<Act>)
    ensures EndsChain([act] + rest) <==> !act.Asked? || EndsChain(rest)
  {
    var acts := [act] + rest;
    if !act.Asked? {
      assert !acts[0].Asked?;
    } else if EndsChain(rest) {
      var i :| 0 <= i < |rest| && !rest[i].Asked?;
      assert !acts[i + 1].Asked?;
    }
  }

  /** The rest of the body of handler k, in a chain that is over or not. */
  lemma {:induction false} RunIsTold(handlers: seq<Handler>, k: nat, body: Body, i: nat, over: bool)
    returns (acts: seq<Act>)
    requires if over then i >= |handlers| else i == k < |handlers|
    ensures var (j, events) := Run(handlers, body, i);
            && Way(body, acts) && AllMeet(handlers, k, acts, over) && events == Actions(acts)
            && if over || EndsChain(acts) then j >= |handlers| else j == k
    decreases Left(handlers, i), 0, body
  {
    hide Meets, AllMeet;
    match body
    case Done =>
      acts := [];
      NoActs(handlers, k, over);
    case CallNext(next) =>
      var ran: seq<Service> := [];
      if !over {
        ran := ChainIsTold(handlers, i + 1);
      }
      var j := if i >= |handlers| then i + 1 else Loop(handlers, i + 1).0;
      var rest := RunIsTold(handlers, k, next, j, true);
      acts := [Nexted(ran)] + rest;
      assert Meets(handlers, k, Nexted(ran), over) by { NextMeets(handlers, k, ran, over); }
      ActsInTurn(handlers, k, Nexted(ran), rest, over);
    case CallAbort(next) =>
      var rest := RunIsTold(handlers, k, next, |handlers|, true);
      acts := [Aborted] + rest;
      AbortMeets(handlers, k, over);
      ActsInTurn(handlers, k, Aborted, rest, over);
    case IfAborted(yes, no) =>
      var rest := RunIsTold(handlers, k, if over then yes else no, i, over);
      acts := [Asked(over)] + rest;
      AskMeets(handlers, k, over);
      ActsInTurn(handlers, k, Asked(over), rest, over);
  }

  lemma NoActs(handlers: seq<Handler>, k: nat, over: bool)
    ensures AllMeet(handlers, k, [], over) && !EndsChain([])
  {
  }

  lemma NextMeets(handlers: seq<Handler>, k: nat, ran: seq<Service>, over: bool)
    requires if over then ran == [] else Served(handlers, k + 1, ran)
    ensures Meets(handlers, k, Nexted(ran), over)
  {
  }

  lemma AbortMeets(handlers: seq<Handler>, k: nat, over: bool)
    ensures Meets(handlers, k, Aborted, over)
  {
  }

  lemma AskMeets(handlers: seq<Handler>, k: nat, over: bool)
    ensures Meets(handlers, k, Asked(over), over)
  {
  }

  /** Any call of Next on any chain, whatever its handlers do. */
  lemma {:induction false} ChainIsTold(handlers: seq<Handler>, i: nat) returns (ran: seq<Service>)
    ensures Served(handlers, i, ran) && Loop(handlers, i).1 == Events(ran)
    decreases Left(handlers, i), 2
  {
    hide Way, AllMeet, EndsChain;
    if i >= |handlers| {
      ran := [];
    } else {
      match handlers[i]
      case Nil =>
        ran := ChainIsTold(handlers, i + 1);
        SkipNil(handlers, i, ran);
      case Func(body) =>
        var acts := RunIsTold(handlers, i, body, i, false);
        var (j, events) := Run(handlers, body, i);
        var rest: seq<Service> := [];
        if !EndsChain(acts) {
          rest := ChainIsTold(handlers, i + 1);
        }
        ran := [Service(i, acts)] + rest;
        assert ran[1..] == rest;
    }
  }

  lemma SkipNil(handlers: seq<Handler>, i: nat, ran: seq<Service>)
    requires i < |handlers| && handlers[i].Nil? && Served(handlers, i + 1, ran)
    ensures Served(handlers, i, ran)
  {
  }

  // ---- There is one telling ---------------------------------------------------------------

  lemma ActsApart(handlers: seq<Handler>, k: nat, acts: seq<Act>, over: bool)
    requires acts != [] && AllMeet(handlers, k, acts, over)
    ensures Meets(handlers, k, acts[0], over) && AllMeet(handlers, k, acts[1..], over || !acts[0].Asked?)
  {
    hide Meets;
    var rest := acts[1..];
    assert acts[..0] == [];
    forall i | 0 <= i < |rest|
      ensures Meets(handlers, k, rest[i], (over || !acts[0].Asked?) || EndsChain(rest[..i]))
    {
      assert acts[..i + 1] == [acts[0]] + rest[..i] && acts[i + 1] == rest[i];
      EndsInTurn(acts[0], rest[..i]);
    }
  }

  lemma {:induction false} ActsAreOne(handlers: seq<Handler>, k: nat, body: Body, a: seq<Act>, b: seq<Act>, over: bool)
    requires k < |handlers|
    requires Way(body, a) && AllMeet(handlers, k, a, over) && Way(body, b) && AllMeet(handlers, k, b, over)
    ensures a == b
    decreases Left(handlers, k), 0, body
  {
    if !body.Done? {
      ActsApart(handlers, k, a, over);
      ActsApart(handlers, k, b, over);
      hide AllMeet;
      assert a == [a[0]] + a[1..] && b == [b[0]] + b[1..];
      match body
      case CallNext(next) =>
        if !over {
          ChainIsOne(handlers, k + 1, a[0].ran, b[0].ran);
        }
        ActsAreOne(handlers, k, next, a[1..], b[1..], true);
      case CallAbort(next) => ActsAreOne(handlers, k, next, a[1..], b[1..], true);
      case IfAborted(yes, no) => ActsAreOne(handlers, k, if over then yes else no, a[1..], b[1..], over);
    }
  }

  lemma {:induction false} ChainIsOne(handlers: seq<Handler>, lo: nat, a: seq<Service>, b: seq<Service>)
    requires Served(handlers, lo, a) && Served(handlers, lo, b)
    ensures a == b
    decreases Left(handlers, lo), 1
  {
    if a != [] && b != [] {
      hide Way, AllMeet, EndsChain;
      var k := a[0].k;
      ActsAreOne(handlers, k, handlers[k].body, a[0].acts, b[0].acts, false);
      if !EndsChain(a[0].acts) {
        ChainIsOne(handlers, k + 1, a[1..], b[1..]);
      }
      assert a == [a[0]] + a[1..] && b == [b[0]] + b[1..];
    }
  }
}
