/** Transactions nested on savepoints. A database session is a state and a stack of named
    snapshots; a callback is a finite program that may run statements and nest further. */
module NestedTx {
  import opened Wrappers
  import opened Decimal

  // ---- The database session ---------------------------------------------------------------

  /** What SAVEPOINT does with a name already in use: keep the older savepoint below the new one
      (PostgreSQL, SQLite), or drop it (MySQL). */
  datatype Mode = Stacking | Replacing

  datatype Savepoint<T> = Savepoint(name: string, snapshot: T)

  /** A transaction is open, with a driver whose commit and rollback work or not, or it has been ended; then
      it has kept a state, or nothing. */
  datatype Phase<T> = Open(commitOk: bool, rollbackOk: bool) | Ended(kept: Option<T>)

  datatype Session<T> = Session(state: T, stack: seq<Savepoint<T>>, phase: Phase<T>)
  {
    function Bare(): World<T> {
      World(state, phase)
    }
  }

  /** What is left of a session without its savepoints. */
  datatype World<T> = World(state: T, phase: Phase<T>)

  function Unnamed<T>(stack: seq<Savepoint<T>>, name: string): seq<Savepoint<T>> {
    if stack == [] then []
    else (if stack[0].name == name then [] else [stack[0]]) + Unnamed(stack[1..], name)
  }

  predicate Has<T>(stack: seq<Savepoint<T>>, name: string) {
    exists i :: 0 <= i < |stack| && stack[i].name == name
  }

  /** The most recent savepoint of a name. */
  function Latest<T>(stack: seq<Savepoint<T>>, name: string): (i: nat)
    requires Has(stack, name)
    ensures i < |stack| && stack[i].name == name
    ensures forall j :: i < j < |stack| ==> stack[j].name != name
  {
    if stack[|stack| - 1].name == name then |stack| - 1
    else
      assert Has(stack[..|stack| - 1], name) by {
        var i :| 0 <= i < |stack| && stack[i].name == name;
        assert stack[..|stack| - 1][i].name == name;
      }
      Latest(stack[..|stack| - 1], name)
  }

  /** A session with one more savepoint. */
  function Marked<T>(mode: Mode, s: Session<T>, name: string): Session<T> {
    s.(stack := (if mode.Replacing? then Unnamed(s.stack, name) else s.stack) + [Savepoint(name, s.state)])
  }

  /** Once the transaction has ended every statement is an error. */
  function SetSavepoint<T>(mode: Mode, s: Session<T>, name: string): (Session<T>, bool) {
    if s.phase.Ended? then (s, false) else (Marked(mode, s, name), true)
  }

  /** Restores the snapshot and keeps the savepoint itself; without the name, an error and no change. */
  function RollbackTo<T>(s: Session<T>, name: string): (Session<T>, bool) {
    if s.phase.Ended? || !Has(s.stack, name) then (s, false)
    else
      var i := Latest(s.stack, name);
      (Session(s.stack[i].snapshot, s.stack[..i + 1], s.phase), true)
  }

  function Release<T>(s: Session<T>, name: string): (Session<T>, bool) {
    if s.phase.Ended? || !Has(s.stack, name) then (s, false)
    else (s.(stack := s.stack[..Latest(s.stack, name)]), true)
  }

  /** Commit or Rollback of the whole transaction: whatever the driver makes of it, the transaction has ended;
      a second time it is an error. */
  function End<T>(w: World<T>, commit: bool): (World<T>, bool) {
    match w.phase
    case Open(commitOk, rollbackOk) =>
      (w.(phase := Ended(if commit && commitOk then Some(w.state) else None)), if commit then commitOk else rollbackOk)
    case Ended(_) => (w, false)
  }

  // ---- Callbacks --------------------------------------------------------------------------

  /** How a callback ends: return nil, return an error, panic. */
  datatype Outcome = Success | Failure | Panic

  /** A statement changes the state and replies, or finds that the transaction has ended; a callback branches
      on replies and on how nested calls end. A callback that lets a nested panic through goes on with
      Return(Panic). Finish is a Commit or Rollback on the transaction that the callback was given. */
  datatype Prog<!T> =
    | Return(outcome: Outcome)
    | Exec(statement: T -> (T, bool), onTrue: Prog<T>, onFalse: Prog<T>, onEnded: Prog<T>)
    | Nested(body: Prog<T>, onSuccess: Prog<T>, onFailure: Prog<T>, onPanic: Prog<T>)
    | Finish(commit: bool, onOk: Prog<T>, onError: Prog<T>)

  function After<T>(p: Prog<T>, o: Outcome): Prog<T>
    requires p.Nested?
  {
    match o
    case Success => p.onSuccess
    case Failure => p.onFailure
    case Panic => p.onPanic
  }

  /** No Commit or Rollback on the outermost transaction itself. */
  predicate LeavesOuterOpen<T>(p: Prog<T>) {
    match p
    case Return(_) => true
    case Exec(_, a, b, _) => LeavesOuterOpen(a) && LeavesOuterOpen(b)
    case Nested(_, a, b, c) => LeavesOuterOpen(a) && LeavesOuterOpen(b) && LeavesOuterOpen(c)
    case Finish(_, _, _) => false
  }

  datatype Strategy = NestedSavepoint | NestedReuse | NestedError | NestedDialect | NestedUnknown

  type Namer = nat -> string

  const NAME_PREFIX := "gsql_sp_"

  function DefaultName(level: nat): string {
    NAME_PREFIX + Numeral(level)
  }

  datatype Config = Config(mode: Mode, strategy: Strategy, supportsSavepoint: bool, namer: Namer)
  {
    function Effective(): Strategy {
      if strategy.NestedDialect? then (if supportsSavepoint then NestedSavepoint else NestedError) else strategy
    }
  }

  // ---- What the library does --------------------------------------------------------------

  /** A callback running on a transaction of the given level. Only the outermost one may be committed or
      rolled back. */
  function Run<T>(cfg: Config, level: nat, p: Prog<T>, s: Session<T>): (Outcome, Session<T>)
    decreases p, 0
  {
    match p
    case Return(o) => (o, s)
    case Exec(statement, onTrue, onFalse, onEnded) =>
      if s.phase.Ended? then Run(cfg, level, onEnded, s)
      else
        var (state, reply) := statement(s.state);
        Run(cfg, level, if reply then onTrue else onFalse, s.(state := state))
    case Nested(body, _, _, _) =>
      var (o, s1) := RunNested(cfg, level, body, s);
      Run(cfg, level, After(p, o), s1)
    case Finish(commit, onOk, onError) =>
      if level > 0 then Run(cfg, level, onError, s)
      else
        var (w, ok) := End(s.Bare(), commit);
        Run(cfg, level, if ok then onOk else onError, s.(phase := w.phase))
  }

  /** NestedTxContext on a transaction of the given level. */
  function RunNested<T>(cfg: Config, level: nat, body: Prog<T>, s: Session<T>): (Outcome, Session<T>)
    decreases body, 1
  {
    match cfg.Effective()
    case NestedReuse => Run(cfg, level + 1, body, s)
    case NestedSavepoint =>
      var name := cfg.namer(level + 1);
      var (marked, made) := SetSavepoint(cfg.mode, s, name);
      if !made then (Failure, marked)
      else
        var (o, s1) := Run(cfg, level + 1, body, marked);
        if o.Success? then
          var (s2, released) := Release(s1, name);
          (if released then Success else Failure, s2)
        else (o, RollbackTo(s1, name).0)
    case _ => (Failure, s)
  }

  // ---- What a nested transaction means ----------------------------------------------------

  /** The effect of a callback if every nested call that does not succeed had never happened. Only on the
      outermost transaction may it end the transaction; after that nothing happens any more. */
  function Meaning<T>(strategy: Strategy, outermost: bool, p: Prog<T>, w: World<T>): (Outcome, World<T>)
    decreases p, 0
  {
    match p
    case Return(o) => (o, w)
    case Exec(statement, onTrue, onFalse, onEnded) =>
      if w.phase.Ended? then Meaning(strategy, outermost, onEnded, w)
      else
        var (state, reply) := statement(w.state);
        Meaning(strategy, outermost, if reply then onTrue else onFalse, w.(state := state))
    case Nested(body, _, _, _) =>
      var (o, w1) := NestedMeaning(strategy, body, w);
      Meaning(strategy, outermost, After(p, o), w1)
    case Finish(commit, onOk, onError) =>
      if !outermost then Meaning(strategy, outermost, onError, w)
      else
        var (w1, ok) := End(w, commit);
        Meaning(strategy, outermost, if ok then onOk else onError, w1)
  }

  function NestedMeaning<T>(strategy: Strategy, body: Prog<T>, w: World<T>): (Outcome, World<T>)
    decreases body, 1
  {
    match strategy
    case NestedReuse => Meaning(strategy, false, body, w)
    case NestedSavepoint =>
      if w.phase.Ended? then (Failure, w)
      else
        var (o, w1) := Meaning(strategy, false, body, w);
        if o.Success? then (o, w1) else (o, w)
    case _ => (Failure, w)
  }

  /** A nested callback cannot end the transaction, and one that leaves it open does not. */
  lemma {:induction false} StaysOpen<T>(strategy: Strategy, outermost: bool, p: Prog<T>, w: World<T>)
    requires !outermost || (w.phase.Open? && LeavesOuterOpen(p))
    ensures Meaning(strategy, outermost, p, w).1.phase == w.phase
    decreases p, 0
  {
    match p
    case Return(_) =>
    case Exec(statement, onTrue, onFalse, onEnded) =>
      if w.phase.Ended? {
        StaysOpen(strategy, outermost, onEnded, w);
      } else {
        var (state, reply) := statement(w.state);
        StaysOpen(strategy, outermost, if reply then onTrue else onFalse, w.(state := state));
      }
    case Nested(body, _, _, _) =>
      NestedStaysOpen(strategy, body, w);
      var (o, w1) := NestedMeaning(strategy, body, w);
      StaysOpen(strategy, outermost, After(p, o), w1);
    case Finish(_, _, onError) =>
      StaysOpen(strategy, outermost, onError, w);
  }

  /** What leaves the transaction open does the same with any driver. */
  lemma {:induction false} SameMeaning<T>(strategy: Strategy, outermost: bool, p: Prog<T>, w: World<T>, phase: Phase<T>)
    requires w.phase.Open? && phase.Open? && (!outermost || LeavesOuterOpen(p))
    ensures var (o, w1) := Meaning(strategy, outermost, p, w);
            Meaning(strategy, outermost, p, w.(phase := phase)) == (o, w1.(phase := phase))
    decreases p, 0
  {
    match p
    case Return(_) =>
    case Exec(statement, onTrue, onFalse, _) =>
      var (state, reply) := statement(w.state);
      SameMeaning(strategy, outermost, if reply then onTrue else onFalse, w.(state := state), phase);
    case Nested(body, _, _, _) =>
      NestedSameMeaning(strategy, body, w, phase);
      NestedStaysOpen(strategy, body, w);
      var (o, w1) := NestedMeaning(strategy, body, w);
      SameMeaning(strategy, outermost, After(p, o), w1, phase);
    case Finish(_, _, onError) =>
      SameMeaning(strategy, outermost, onError, w, phase);
  }

  lemma {:induction false} NestedSameMeaning<T>(strategy: Strategy, body: Prog<T>, w: World<T>, phase: Phase<T>)
    requires w.phase.Open? && phase.Open?
    ensures var (o, w1) := NestedMeaning(strategy, body, w);
            NestedMeaning(strategy, body, w.(phase := phase)) == (o, w1.(phase := phase))
    decreases body, 1
  {
    SameMeaning(strategy, false, body, w, phase);
  }

  /** The driver of an open transaction stays the same. */
  lemma {:induction false} PhaseOrEnded<T>(strategy: Strategy, outermost: bool, p: Prog<T>, w: World<T>)
    ensures var phase := Meaning(strategy, outermost, p, w).1.phase;
            phase == w.phase || (w.phase.Open? && phase.Ended?)
  {
    match p
    case Return(_) =>
    case Exec(statement, onTrue, onFalse, onEnded) =>
      if w.phase.Ended? {
        PhaseOrEnded(strategy, outermost, onEnded, w);
      } else {
        var (state, reply) := statement(w.state);
        PhaseOrEnded(strategy, outermost, if reply then onTrue else onFalse, w.(state := state));
      }
    case Nested(body, _, _, _) =>
      NestedStaysOpen(strategy, body, w);
      var (o, w1) := NestedMeaning(strategy, body, w);
      PhaseOrEnded(strategy, outermost, After(p, o), w1);
    case Finish(commit, onOk, onError) =>
      if outermost {
        var (w1, ok) := End(w, commit);
        PhaseOrEnded(strategy, outermost, if ok then onOk else onError, w1);
      } else {
        PhaseOrEnded(strategy, outermost, onError, w);
      }
  }

  lemma {:induction false} NestedStaysOpen<T>(strategy: Strategy, body: Prog<T>, w: World<T>)
    ensures NestedMeaning(strategy, body, w).1.phase == w.phase
    decreases body, 1
  {
    StaysOpen(strategy, false, body, w);
  }

  // ---- When names keep levels apart -------------------------------------------------------

  /** Stacked savepoints only need neighbouring levels to have different names; where a name is
      replaced, all levels must differ. */
  ghost predicate KeepsApart(mode: Mode, namer: Namer) {
    forall i: nat, j: nat :: 0 < i < j && (mode.Stacking? ==> j == i + 1) ==> namer(i) != namer(j)
  }

  /** The stack above position k holds only leftovers of the next level; below it, in replacing
      mode, only savepoints of levels up to this one. */
  ghost predicate Layered<T>(cfg: Config, level: nat, stack: seq<Savepoint<T>>, k: nat) {
    && k <= |stack|
    && (forall i :: k <= i < |stack| ==> stack[i].name == cfg.namer(level + 1))
    && (cfg.mode.Replacing? ==> forall i :: 0 <= i < k ==> NamedUpTo(cfg.namer, level, stack[i].name))
  }

  ghost predicate NamedUpTo(namer: Namer, level: nat, name: string) {
    exists l: nat :: 0 < l <= level && namer(l) == name
  }

  lemma {:induction false} UnnamedKeepsPrefix<T>(stack: seq<Savepoint<T>>, name: string, k: nat)
    requires k <= |stack|
    requires forall i :: 0 <= i < k ==> stack[i].name != name
    requires forall i :: k <= i < |stack| ==> stack[i].name == name
    ensures Unnamed(stack, name) == stack[..k]
    decreases |stack|
  {
    if stack != [] {
      if k == 0 {
        UnnamedKeepsPrefix(stack[1..], name, 0);
      } else {
        UnnamedKeepsPrefix(stack[1..], name, k - 1);
        assert stack[..k] == [stack[0]] + stack[1..][..k - 1];
      }
    }
  }

  /** Setting the savepoint of the next level leaves what is below k alone. */
  lemma SavepointLayers<T>(cfg: Config, level: nat, s: Session<T>, k: nat)
    requires KeepsApart(cfg.mode, cfg.namer) && Layered(cfg, level, s.stack, k)
    ensures var marked := Marked(cfg.mode, s, cfg.namer(level + 1));
            && k < |marked.stack| && marked.stack[..k] == s.stack[..k]
            && marked.stack[|marked.stack| - 1] == Savepoint(cfg.namer(level + 1), s.state)
            && Layered(cfg, level, marked.stack, k)
            && Layered(cfg, level + 1, marked.stack, |marked.stack|)
  {
    var name := cfg.namer(level + 1);
    var marked := Marked(cfg.mode, s, name);
    if cfg.mode.Replacing? {
      UnnamedKeepsPrefix(s.stack, name, k);
      forall i | 0 <= i < |marked.stack|
        ensures NamedUpTo(cfg.namer, level + 1, marked.stack[i].name)
      {
        if i < k {
          var l: nat :| 0 < l <= level && cfg.namer(l) == s.stack[i].name;
          assert cfg.namer(l) == marked.stack[i].name;
        } else {
          assert cfg.namer(level + 1) == marked.stack[i].name;
        }
      }
    }
  }

  /** The latest savepoint of a level is the one its own call set. */
  lemma OwnIsLatest<T>(cfg: Config, level: nat, stack: seq<Savepoint<T>>, own: nat)
    requires KeepsApart(cfg.mode, cfg.namer) && Layered(cfg, level + 1, stack, own + 1)
    requires stack[own].name == cfg.namer(level + 1)
    ensures Has(stack, cfg.namer(level + 1)) && Latest(stack, cfg.namer(level + 1)) == own
  {
    assert cfg.namer(level + 2) != cfg.namer(level + 1);
  }

  /** With such names the library gives nested transactions their meaning: a nested call that fails
      or panics leaves the state as it found it, one that succeeds keeps exactly its surviving
      effects, and the savepoints left behind all belong to the next level. */
  lemma {:induction false} RunMeans<T>(cfg: Config, level: nat, p: Prog<T>, s: Session<T>, k: nat)
    requires cfg.Effective().NestedSavepoint? ==> KeepsApart(cfg.mode, cfg.namer) && Layered(cfg, level, s.stack, k)
    ensures var (o, s1) := Run(cfg, level, p, s);
            && (o, s1.Bare()) == Meaning(cfg.Effective(), level == 0, p, s.Bare())
            && (cfg.Effective().NestedSavepoint? ==> Layered(cfg, level, s1.stack, k) && s1.stack[..k] == s.stack[..k])
    decreases p, 0
  {
    match p
    case Return(_) =>
    case Exec(statement, onTrue, onFalse, onEnded) =>
      if s.phase.Ended? {
        RunMeans(cfg, level, onEnded, s, k);
      } else {
        var (state, reply) := statement(s.state);
        RunMeans(cfg, level, if reply then onTrue else onFalse, s.(state := state), k);
      }
    case Nested(body, _, _, _) =>
      RunNestedMeans(cfg, level, body, s, k);
      var (o, s1) := RunNested(cfg, level, body, s);
      RunMeans(cfg, level, After(p, o), s1, k);
    case Finish(commit, onOk, onError) =>
      if level > 0 {
        RunMeans(cfg, level, onError, s, k);
      } else {
        var (w, ok) := End(s.Bare(), commit);
        RunMeans(cfg, level, if ok then onOk else onError, s.(phase := w.phase), k);
      }
  }

  lemma {:induction false} RunNestedMeans<T>(cfg: Config, level: nat, body: Prog<T>, s: Session<T>, k: nat)
    requires cfg.Effective().NestedSavepoint? ==> KeepsApart(cfg.mode, cfg.namer) && Layered(cfg, level, s.stack, k)
    ensures var (o, s1) := RunNested(cfg, level, body, s);
            && (o, s1.Bare()) == NestedMeaning(cfg.Effective(), body, s.Bare())
            && (cfg.Effective().NestedSavepoint? ==> Layered(cfg, level, s1.stack, k) && s1.stack[..k] == s.stack[..k])
    decreases body, 1
  {
    match cfg.Effective()
    case NestedReuse =>
      RunMeans(cfg, level + 1, body, s, k);
    case NestedSavepoint =>
      if s.phase.Open? {
        assert k <= |s.stack|;
        hide KeepsApart, Layered, Has, Latest, Marked, Release, RollbackTo, Run, RunNested, Meaning, NestedMeaning;
        var marked := Marked(cfg.mode, s, cfg.namer(level + 1));
        SavepointLayers(cfg, level, s, k);
        NestedInSteps(cfg, level, body, s);
        RunMeans(cfg, level + 1, body, marked, |marked.stack|);
        assert marked.stack[..|marked.stack|] == marked.stack;
        StaysOpen(cfg.Effective(), false, body, s.Bare());
        Unwind(cfg, level, marked.stack, Run(cfg, level + 1, body, marked).1, s.stack, k);
      }
    case _ =>
  }

  /** A nested call on savepoints in an open transaction, and what it means. */
  lemma NestedInSteps<T>(cfg: Config, level: nat, body: Prog<T>, s: Session<T>)
    requires cfg.Effective().NestedSavepoint? && s.phase.Open?
    ensures var name := cfg.namer(level + 1);
            var marked := Marked(cfg.mode, s, name);
            var (o, s1) := Run(cfg, level + 1, body, marked);
            && marked.Bare() == s.Bare()
            && RunNested(cfg, level, body, s)
               == if o.Success? then (if Release(s1, name).1 then Success else Failure, Release(s1, name).0)
                  else (o, RollbackTo(s1, name).0)
    ensures var (o, w) := Meaning(cfg.Effective(), false, body, s.Bare());
            NestedMeaning(cfg.Effective(), body, s.Bare()) == if o.Success? then (o, w) else (o, s.Bare())
  {
    hide Run, Meaning;
  }

  /** Ending a nested call, by release or by rollback, from the stack its body has left. */
  lemma Unwind<T>(cfg: Config, level: nat, marked: seq<Savepoint<T>>, s1: Session<T>, before: seq<Savepoint<T>>, k: nat)
    requires KeepsApart(cfg.mode, cfg.namer) && s1.phase.Open?
    requires k < |marked| && Layered(cfg, level, marked, k) && k <= |before| && marked[..k] == before[..k]
    requires marked[|marked| - 1].name == cfg.namer(level + 1)
    requires Layered(cfg, level + 1, s1.stack, |marked|) && s1.stack[..|marked|] == marked
    ensures var name := cfg.namer(level + 1);
            var (released, ok) := Release(s1, name);
            var (rolled, done) := RollbackTo(s1, name);
            && ok && released == Session(s1.state, marked[..|marked| - 1], s1.phase)
            && done && rolled == Session(marked[|marked| - 1].snapshot, marked, s1.phase)
            && Layered(cfg, level, released.stack, k) && released.stack[..k] == before[..k]
            && Layered(cfg, level, rolled.stack, k) && rolled.stack[..k] == before[..k]
  {
    hide KeepsApart;
    var own := |marked| - 1;
    assert s1.stack[own] == marked[own];
    OwnIsLatest(cfg, level, s1.stack, own);
    assert s1.stack[..own] == marked[..own];
    assert marked[..own][..k] == marked[..k];
  }

  // ---- Why such names are needed ----------------------------------------------------------

  /** An open transaction with a driver that works. */
  function Live<T>(t: T, stack: seq<Savepoint<T>>): Session<T> {
    Session(t, stack, Open(true, true))
  }

  /** A callback that nests body n calls deeper and always returns nil itself. */
  function Wrapped<T>(n: nat, body: Prog<T>): Prog<T> {
    if n == 0 then body
    else Nested(Wrapped(n - 1, body), Return(Success), Return(Success), Return(Success))
  }

  /** A callback that changes the state to t1, runs a nested call, and fails. */
  function Spoiler<T>(t1: T, inner: Prog<T>): Prog<T> {
    var fail := Return(Failure);
    Exec(_ => (t1, true), Nested(inner, fail, fail, fail), fail, fail)
  }

  lemma {:induction false} WrappedMeans<T>(outermost: bool, n: nat, body: Prog<T>, w: World<T>)
    requires w.phase.Open?
    ensures LeavesOuterOpen(Wrapped(n + 1, body))
    ensures Meaning(NestedSavepoint, outermost, Wrapped(n + 1, body), w)
            == (Success, NestedMeaning(NestedSavepoint, body, w).1)
  {
    hide LeavesOuterOpen;
    WrappedOpen(n, body);
    var inner, done: Prog<T> := NestedMeaning(NestedSavepoint, Wrapped(n, body), w), Return(Success);
    assert Meaning(NestedSavepoint, outermost, done, inner.1) == (Success, inner.1);
    if n > 0 {
      WrappedMeans(false, n - 1, body, w);
    }
  }

  lemma WrappedOpen<T>(n: nat, body: Prog<T>)
    ensures LeavesOuterOpen(Wrapped(n + 1, body))
  {
  }

  /** A nested call of the given level turns state t0 into t, whatever the stack. */
  ghost predicate Leaves<T(!new)>(cfg: Config, level: nat, body: Prog<T>, t0: T, t: T) {
    forall stack :: RunNested(cfg, level, body, Live(t0, stack)).1.state == t
  }

  /** Wrapping only passes on the state that the innermost nested call leaves. */
  lemma {:induction false} WrappedRuns<T(!new)>(cfg: Config, level: nat, n: nat, body: Prog<T>, t0: T, t: T,
                                          stack: seq<Savepoint<T>>)
    requires cfg.Effective().NestedSavepoint? && Leaves(cfg, level + n, body, t0, t)
    ensures RunNested(cfg, level, Wrapped(n, body), Live(t0, stack)).1.state == t
    decreases n
  {
    hide Leaves;
    if n == 0 {
      LeavesAt(cfg, level, body, t0, t, stack);
    } else {
      var marked := Marked(cfg.mode, Live(t0, stack), cfg.namer(level + 1));
      WrappedRuns(cfg, level + 1, n - 1, body, t0, t, marked.stack);
      var (o, s1) := RunNested(cfg, level + 1, Wrapped(n - 1, body), marked);
      assert Run(cfg, level + 1, Wrapped(n, body), marked) == (Success, s1);
    }
  }

  lemma LeavesAt<T(!new)>(cfg: Config, level: nat, body: Prog<T>, t0: T, t: T, stack: seq<Savepoint<T>>)
    requires Leaves(cfg, level, body, t0, t)
    ensures RunNested(cfg, level, body, Live(t0, stack)).1.state == t
  {
  }

  /** Stacking: a failed call of the next level, with the same name, hides the savepoint of this one. */
  lemma NeighbourSpoils<T>(cfg: Config, level: nat, t0: T, t1: T, stack: seq<Savepoint<T>>)
    requires cfg.Effective().NestedSavepoint? && cfg.mode.Stacking?
    requires cfg.namer(level + 1) == cfg.namer(level + 2)
    ensures RunNested(cfg, level, Spoiler(t1, Return(Failure)), Live(t0, stack)).1.state == t1
  {
    var name := cfg.namer(level + 1);
    var marked := stack + [Savepoint(name, t0)];
    var again := marked + [Savepoint(name, t1)];
    LatestOnTop(marked, Savepoint(name, t1));
    assert again[..|again|] == again;
    var inner := RunNested(cfg, level + 1, Return(Failure), Live(t1, marked));
    assert inner == (Failure, Live(t1, again));
  }

  lemma LatestOnTop<T>(stack: seq<Savepoint<T>>, top: Savepoint<T>)
    ensures Has(stack + [top], top.name) && Latest(stack + [top], top.name) == |stack|
  {
    assert (stack + [top])[|stack|] == top;
  }

  /** A chain of n nested calls, all of which succeed. */
  function Chain<T>(n: nat): Prog<T> {
    if n == 0 then Return(Success)
    else Nested(Chain(n - 1), Return(Success), Return(Success), Return(Success))
  }

  lemma {:induction false} UnnamedHasNot<T>(stack: seq<Savepoint<T>>, name: string)
    ensures !Has(Unnamed(stack, name), name)
  {
    if stack != [] {
      UnnamedHasNot(stack[1..], name);
      var rest := Unnamed(stack[1..], name);
      forall i | 0 <= i < |Unnamed(stack, name)|
        ensures Unnamed(stack, name)[i].name != name
      {
        if Unnamed(stack, name) != rest {
          assert i > 0 ==> Unnamed(stack, name)[i] == rest[i - 1];
        }
      }
    }
  }

  lemma PrefixHasNot<T>(stack: seq<Savepoint<T>>, name: string, i: nat)
    requires !Has(stack, name) && i <= |stack|
    ensures !Has(stack[..i], name)
  {
  }

  /** Replacing: once a chain has reached a level of some name and come back, no savepoint of that
      name is left, not even that of an outer level. */
  lemma {:induction false} ChainErases<T>(cfg: Config, level: nat, n: nat, s: Session<T>)
    requires cfg.Effective().NestedSavepoint? && cfg.mode.Replacing? && s.phase.Open?
    ensures var (o, s1) := RunNested(cfg, level, Chain(n), s);
            s1.Bare() == s.Bare() && !Has(s1.stack, cfg.namer(level + n + 1))
    decreases n
  {
    hide RunNested, Chain, Has, Latest, Unnamed;
    ChainStep(cfg, level, n, s);
    var name := cfg.namer(level + 1);
    if n == 0 {
      UnnamedHasNot(s.stack, name);
      LatestOnTop(Unnamed(s.stack, name), Savepoint(name, s.state));
      assert Marked(cfg.mode, s, name).stack[..|Unnamed(s.stack, name)|] == Unnamed(s.stack, name);
    } else {
      var marked := Marked(cfg.mode, s, name);
      ChainErases(cfg, level + 1, n - 1, marked);
      var (o, s1) := RunNested(cfg, level + 1, Chain(n - 1), marked);
      if Has(s1.stack, name) {
        PrefixHasNot(s1.stack, cfg.namer(level + n + 1), Latest(s1.stack, name));
      }
    }
  }

  lemma ChainStep<T>(cfg: Config, level: nat, n: nat, s: Session<T>)
    requires cfg.Effective().NestedSavepoint? && s.phase.Open?
    ensures var name := cfg.namer(level + 1);
            var marked := Marked(cfg.mode, s, name);
            RunNested(cfg, level, Chain(n), s).1
            == Release(if n == 0 then marked else RunNested(cfg, level + 1, Chain(n - 1), marked).1, name).0
  {
    hide Marked, Release;
    var marked := Marked(cfg.mode, s, cfg.namer(level + 1));
    if n > 0 {
      var (o, s1) := RunNested(cfg, level + 1, Chain(n - 1), marked);
      assert Run(cfg, level + 1, Chain(n), marked) == (Success, s1);
    }
  }

  lemma OuterSpoils<T>(cfg: Config, level: nat, n: nat, t0: T, t1: T, stack: seq<Savepoint<T>>)
    requires cfg.Effective().NestedSavepoint? && cfg.mode.Replacing?
    requires cfg.namer(level + 1) == cfg.namer(level + n + 2)
    ensures RunNested(cfg, level, Spoiler(t1, Chain(n)), Live(t0, stack)).1.state == t1
  {
    hide Run, Chain, Spoiler, Has;
    var name := cfg.namer(level + 1);
    var marked := Marked(cfg.mode, Live(t0, stack), name);
    ChainErases(cfg, level + 1, n, Live(t1, marked.stack));
    var (o, s1) := RunNested(cfg, level + 1, Chain(n), Live(t1, marked.stack));
    SpoilerRuns(cfg, level + 1, t1, Chain(n), marked);
  }

  lemma SpoilerRuns<T>(cfg: Config, level: nat, t1: T, inner: Prog<T>, s: Session<T>)
    requires s.phase.Open?
    ensures var nested := RunNested(cfg, level, inner, s.(state := t1));
            Run(cfg, level, Spoiler(t1, inner), s) == (Failure, nested.1)
  {
    var fail: Prog<T> := Return(Failure);
    var nested := RunNested(cfg, level, inner, s.(state := t1));
    assert Run(cfg, level, fail, nested.1) == (Failure, nested.1);
    assert Run(cfg, level, Nested(inner, fail, fail, fail), s.(state := t1)) == (Failure, nested.1);
  }

  lemma SpoilerMeans<T>(t1: T, inner: Prog<T>, w: World<T>)
    ensures NestedMeaning(NestedSavepoint, Spoiler(t1, inner), w) == (Failure, w)
  {
    var fail: Prog<T> := Return(Failure);
    var nested := NestedMeaning(NestedSavepoint, inner, w.(state := t1));
    assert Meaning(NestedSavepoint, false, fail, nested.1) == (Failure, nested.1);
    assert Meaning(NestedSavepoint, false, Nested(inner, fail, fail, fail), w.(state := t1)) == (Failure, nested.1);
  }

  /** Every callback, one that ends the transaction itself included, has its meaning on a fresh one, whatever
      the driver does. */
  ghost predicate Faithful<T(!new)>(cfg: Config) {
    forall p: Prog<T>, t: T, phase: Phase<T> :: HasMeaning(cfg, p, Session(t, [], phase))
  }

  ghost predicate HasMeaning<T>(cfg: Config, p: Prog<T>, s: Session<T>) {
    var (o, s1) := Run(cfg, 0, p, s);
    (o, s1.Bare()) == Meaning(cfg.Effective(), true, p, s.Bare())
  }

  /** Exactly the names that keep levels apart make nested transactions mean what they should, for
      every tree of nested calls. */
  lemma FaithfulExactly<T(!new)>(cfg: Config, t0: T, t1: T)
    requires cfg.Effective().NestedSavepoint? && t0 != t1
    ensures Faithful<T>(cfg) <==> KeepsApart(cfg.mode, cfg.namer)
  {
    hide Run, Meaning;
    if KeepsApart(cfg.mode, cfg.namer) {
      forall p: Prog<T>, t: T, phase: Phase<T>
        ensures HasMeaning(cfg, p, Session(t, [], phase))
      {
        RunMeans(cfg, 0, p, Session(t, [], phase), 0);
      }
    } else {
      var p := SpoilingProgram(cfg, t0, t1);
      assert !HasMeaning(cfg, p, Live(t0, []));
    }
  }

  /** The callback that shows it: the same for both modes but for what it nests inside. */
  lemma SpoilingProgram<T(!new)>(cfg: Config, t0: T, t1: T) returns (p: Prog<T>)
    requires cfg.Effective().NestedSavepoint? && !KeepsApart(cfg.mode, cfg.namer)
    ensures LeavesOuterOpen(p)
    ensures Run(cfg, 0, p, Live(t0, [])).1.state == t1
    ensures Meaning(cfg.Effective(), true, p, Live(t0, []).Bare()).1 == Live(t0, []).Bare()
  {
    hide Run, RunNested, Meaning, NestedMeaning, Wrapped, Spoiler, Chain;
    var n: nat, inner: Prog<T> := SpoilingNames(cfg, t0, t1);
    p := Wrapped(n + 1, Spoiler(t1, inner));
    WrappedRuns(cfg, 0, n, Spoiler(t1, inner), t0, t1, []);
    OneMore(cfg, n, Spoiler(t1, inner), t0);
    WrappedMeans(true, n, Spoiler(t1, inner), Live(t0, []).Bare());
    SpoilerMeans(t1, inner, Live(t0, []).Bare());
  }

  lemma OneMore<T>(cfg: Config, n: nat, body: Prog<T>, t0: T)
    ensures Run(cfg, 0, Wrapped(n + 1, body), Live(t0, [])).1 == RunNested(cfg, 0, Wrapped(n, body), Live(t0, [])).1
  {
    var (o, s1) := RunNested(cfg, 0, Wrapped(n, body), Live(t0, []));
    assert Run(cfg, 0, Return(Success), s1) == (Success, s1);
  }

  lemma SpoilingNames<T(!new)>(cfg: Config, t0: T, t1: T) returns (n: nat, inner: Prog<T>)
    requires cfg.Effective().NestedSavepoint? && !KeepsApart(cfg.mode, cfg.namer)
    ensures Leaves(cfg, 0 + n, Spoiler(t1, inner), t0, t1)
  {
    hide Leaves, Spoiler, Chain;
    var i, j := SameNames(cfg);
    n := i - 1;
    if cfg.mode.Stacking? {
      inner := Return(Failure);
      NeighbourLeaves(cfg, n, t0, t1);
    } else {
      inner := Chain(j - i - 1);
      OuterLeaves(cfg, n, j - i - 1, t0, t1);
    }
  }

  /** Two levels that share a name, neighbours when that is what spoils. */
  lemma SameNames(cfg: Config) returns (i: nat, j: nat)
    requires !KeepsApart(cfg.mode, cfg.namer)
    ensures 0 < i < j && cfg.namer(i) == cfg.namer(j) && (cfg.mode.Stacking? ==> j == i + 1)
  {
    i, j :| 0 < i < j && (cfg.mode.Stacking? ==> j == i + 1) && cfg.namer(i) == cfg.namer(j);
  }

  lemma NeighbourLeaves<T(!new)>(cfg: Config, level: nat, t0: T, t1: T)
    requires cfg.Effective().NestedSavepoint? && cfg.mode.Stacking?
    requires cfg.namer(level + 1) == cfg.namer(level + 2)
    ensures Leaves(cfg, level, Spoiler(t1, Return(Failure)), t0, t1)
  {
    hide RunNested, Spoiler;
    forall stack
      ensures RunNested(cfg, level, Spoiler(t1, Return(Failure)), Live(t0, stack)).1.state == t1
    {
      NeighbourSpoils(cfg, level, t0, t1, stack);
    }
  }

  lemma OuterLeaves<T(!new)>(cfg: Config, level: nat, n: nat, t0: T, t1: T)
    requires cfg.Effective().NestedSavepoint? && cfg.mode.Replacing?
    requires cfg.namer(level + 1) == cfg.namer(level + n + 2)
    ensures Leaves(cfg, level, Spoiler(t1, Chain(n)), t0, t1)
  {
    hide RunNested, Spoiler, Chain;
    forall stack
      ensures RunNested(cfg, level, Spoiler(t1, Chain(n)), Live(t0, stack)).1.state == t1
    {
      OuterSpoils(cfg, level, n, t0, t1, stack);
    }
  }

  // ---- What the strategies are for --------------------------------------------------------

  /** Nesting is open to callers: by reusing the transaction, or, while it is open, by savepoints, directly or
      through a dialect that has them. */
  predicate Nests(cfg: Config, open: bool) {
    match cfg.strategy
    case NestedSavepoint => open
    case NestedReuse => true
    case NestedDialect => cfg.supportsSavepoint && open
    case _ => false
  }

  /** Some nested call succeeds, from any level and session, exactly when nesting is open; otherwise every
      one fails and touches nothing. */
  lemma NestingSucceeds<T(!new)>(cfg: Config, level: nat, s: Session<T>)
    ensures (exists body: Prog<T> :: RunNested(cfg, level, body, s).0.Success?) <==> Nests(cfg, s.phase.Open?)
    ensures !Nests(cfg, s.phase.Open?) ==> forall body: Prog<T> :: RunNested(cfg, level, body, s) == (Failure, s)
  {
    hide RunNested;
    if Nests(cfg, s.phase.Open?) {
      QuietSucceeds(cfg, level, s);
      assert RunNested(cfg, level, Return(Success), s).0.Success?;
    } else {
      forall body: Prog<T>
        ensures RunNested(cfg, level, body, s) == (Failure, s)
      {
        RefusedNesting(cfg, level, body, s);
      }
    }
  }

  lemma QuietSucceeds<T>(cfg: Config, level: nat, s: Session<T>)
    requires Nests(cfg, s.phase.Open?)
    ensures RunNested(cfg, level, Return(Success), s).0.Success?
  {
    var name := cfg.namer(level + 1);
    LatestOnTop(if cfg.mode.Replacing? then Unnamed(s.stack, name) else s.stack, Savepoint(name, s.state));
  }

  lemma RefusedNesting<T>(cfg: Config, level: nat, body: Prog<T>, s: Session<T>)
    requires !Nests(cfg, s.phase.Open?)
    ensures RunNested(cfg, level, body, s) == (Failure, s)
  {
  }

  /** A nested call that does not succeed leaves no trace, whatever it ran, exactly when the transaction is
      not simply reused. */
  lemma FailureIsUndone<T(!new)>(cfg: Config, t0: T, t1: T)
    requires KeepsApart(cfg.mode, cfg.namer) && t0 != t1
    ensures (forall body: Prog<T>, t: T ::
               var (o, s1) := RunNested(cfg, 0, body, Live(t, []));
               !o.Success? ==> s1.state == t)
            <==> !cfg.strategy.NestedReuse?
  {
    hide KeepsApart;
    if cfg.strategy.NestedReuse? {
      var fail: Prog<T> := Return(Failure);
      var body := Exec(_ => (t1, true), fail, fail, fail);
      assert Run(cfg, 1, fail, Live(t1, [])) == (Failure, Live(t1, []));
      assert RunNested(cfg, 0, body, Live(t0, [])) == (Failure, Live(t1, []));
    } else {
      hide RunNested;
      forall body: Prog<T>, t: T
        ensures var (o, s1) := RunNested(cfg, 0, body, Live(t, []));
                !o.Success? ==> s1.state == t
      {
        RunNestedMeans(cfg, 0, body, Live(t, []), 0);
      }
    }
  }

  /** The default names keep levels apart, in either mode. */
  lemma DefaultNamesKeepApart(mode: Mode)
    ensures KeepsApart(mode, DefaultName)
  {
    forall i: nat, j: nat | i < j
      ensures DefaultName(i) != DefaultName(j)
    {
      if DefaultName(i) == DefaultName(j) {
        assert DefaultName(i)[8..] == Numeral(i) && DefaultName(j)[8..] == Numeral(j);
        NumeralInjective(i, j);
      }
    }
  }

  /** A default name is gsql_sp_ and the level in decimal. */
  lemma DefaultNamesAre(level: nat)
    ensures var name := DefaultName(level);
            && |name| > 8 && name[..8] == "gsql_sp_"
            && (forall c :: c in name[8..] ==> '0' <= c <= '9')
            && ValueOf(name[8..]) == level && (level > 0 ==> name[8] != '0')
  {
    assert DefaultName(level)[8..] == Numeral(level);
    NumeralReadsBack(level);
    NumeralIsPlain(level);
  }
}
