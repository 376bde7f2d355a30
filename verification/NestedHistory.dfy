/** What a transaction leaves behind, told from what its callback did: the statements that survive, in the
    order in which they ran. */
module NestedHistory {
  import opened Wrappers
  import opened NestedTx
  import opened TxObjects

  type Statement<!T> = T -> (T, bool)

  /** One thing that a callback did and what it got for it: a statement and its reply, or none once the
      transaction has ended; a nested call, with what its body did and how it ended, or one that was refused;
      a Commit or Rollback, and whether it worked. */
  datatype Step<!T> =
    | Ran(statement: Statement<T>, reply: Option<bool>)
    | Called(inner: seq<Step<T>>, outcome: Outcome)
    | Refused
    | Asked(commit: bool, ok: bool)

  /** The steps lead through the callback to its end. */
  ghost predicate Way<T(!new)>(p: Prog<T>, log: seq<Step<T>>, o: Outcome)
    decreases p
  {
    match p
    case Return(outcome) => log == [] && o == outcome
    case Exec(statement, onTrue, onFalse, onEnded) =>
      log != [] && log[0].Ran? && log[0].statement == statement
      && (log[0].reply == Some(true) ==> Way(onTrue, log[1..], o))
      && (log[0].reply == Some(false) ==> Way(onFalse, log[1..], o))
      && (log[0].reply == None ==> Way(onEnded, log[1..], o))
    case Nested(body, onSuccess, onFailure, onPanic) =>
      log != [] && (log[0].Called? || log[0].Refused?)
      && (log[0].Called? ==> Way(body, log[0].inner, log[0].outcome))
      && (log[0].Called? && log[0].outcome == Success ==> Way(onSuccess, log[1..], o))
      && (log[0].Called? && log[0].outcome == Panic ==> Way(onPanic, log[1..], o))
      && (log[0].Refused? || log[0].outcome == Failure ==> Way(onFailure, log[1..], o))
    case Finish(commit, onOk, onError) =>
      log != [] && log[0].Asked? && log[0].commit == commit
      && (log[0].ok ==> Way(onOk, log[1..], o))
      && (!log[0].ok ==> Way(onError, log[1..], o))
  }

  /** The statements that survive, in order: on savepoints those of a nested call only if it succeeds. */
  function Surviving<T>(strategy: Strategy, log: seq<Step<T>>): seq<Statement<T>> {
    if log == [] then [] else SurvivingOf(strategy, log[0]) + Surviving(strategy, log[1..])
  }

  function SurvivingOf<T>(strategy: Strategy, step: Step<T>): seq<Statement<T>> {
    match step
    case Ran(statement, Some(_)) => [statement]
    case Called(inner, outcome) =>
      if outcome.Success? || strategy.NestedReuse? then Surviving(strategy, inner) else []
    case _ => []
  }

  /** The state after some statements, run one after the other. */
  function Through<T>(statements: seq<Statement<T>>, t: T): T {
    if statements == [] then t else Through(statements[1..], statements[0](t).0)
  }

  /** A Commit or Rollback on the outermost transaction is among the steps. */
  ghost predicate Asks<T>(log: seq<Step<T>>) {
    exists i :: 0 <= i < |log| && log[i].Asked?
  }

  predicate RunsBody(strategy: Strategy, ended: bool) {
    strategy.NestedReuse? || (strategy.NestedSavepoint? && !ended)
  }

  /** Every step got what it gets on the state that the survivors before it have made. */
  ghost predicate Happens<T>(strategy: Strategy, outermost: bool, log: seq<Step<T>>, t: T, ended: bool, driver: Driver)
    decreases log, 1
  {
    forall i :: 0 <= i < |log| ==>
      StepHappens(strategy, outermost, log[i], Through(Surviving(strategy, log[..i]), t),
                  ended || (outermost && Asks(log[..i])), driver)
  }

  ghost predicate StepHappens<T>(strategy: Strategy, outermost: bool, step: Step<T>, t: T, ended: bool, driver: Driver)
    decreases step, 0
  {
    match step
    case Ran(statement, reply) => reply == if ended then None else Some(statement(t).1)
    case Called(inner, _) => RunsBody(strategy, ended) && Happens(strategy, false, inner, t, ended, driver)
    case Refused => !RunsBody(strategy, ended)
    case Asked(commit, ok) =>
      ok <==> outermost && !ended && (if commit then driver.commitOk else driver.rollbackOk)
  }

  // ---- The state is what the survivors make of it -----------------------------------------

  lemma {:induction false} ThroughBoth<T>(a: seq<Statement<T>>, b: seq<Statement<T>>, t: T)
    ensures Through(a + b, t) == Through(b, Through(a, t))
  {
    if a == [] {
      assert a + b == b;
    } else {
      assert (a + b)[1..] == a[1..] + b;
      ThroughBoth(a[1..], b, a[0](t).0);
    }
  }

  lemma StepThenRest<T>(strategy: Strategy, step: Step<T>, rest: seq<Step<T>>, t: T)
    ensures Surviving(strategy, [step] + rest) == SurvivingOf(strategy, step) + Surviving(strategy, rest)
    ensures Through(Surviving(strategy, [step] + rest), t)
            == Through(Surviving(strategy, rest), Through(SurvivingOf(strategy, step), t))
    ensures Asks([step] + rest) <==> step.Asked? || Asks(rest)
  {
    var log := [step] + rest;
    assert log[0] == step && log[1..] == rest;
    ThroughBoth(SurvivingOf(strategy, step), Surviving(strategy, rest), t);
    if Asks(log) && !step.Asked? {
      var i :| 0 <= i < |log| && log[i].Asked?;
      assert rest[i - 1].Asked?;
    }
    if Asks(rest) {
      var i :| 0 <= i < |rest| && rest[i].Asked?;
      assert log[i + 1].Asked?;
    }
  }

  /** A first step, and then the rest on what it leaves. */
  lemma HappensInTurn<T>(strategy: Strategy, outermost: bool, step: Step<T>, rest: seq<Step<T>>, t: T, ended: bool,
                         driver: Driver)
    requires StepHappens(strategy, outermost, step, t, ended, driver)
    requires Happens(strategy, outermost, rest, Through(SurvivingOf(strategy, step), t),
                     ended || (outermost && step.Asked?), driver)
    ensures Happens(strategy, outermost, [step] + rest, t, ended, driver)
  {
    hide StepHappens, Surviving, SurvivingOf, Through, Asks;
    var log := [step] + rest;
    forall i | 0 <= i < |log|
      ensures StepHappens(strategy, outermost, log[i], Through(Surviving(strategy, log[..i]), t),
                          ended || (outermost && Asks(log[..i])), driver)
    {
      if i == 0 {
        NothingYet(strategy, log[..0], t);
      } else {
        assert log[..i] == [step] + rest[..i - 1];
        StepThenRest(strategy, step, rest[..i - 1], t);
        assert log[i] == rest[i - 1];
      }
    }
  }

  lemma NothingYet<T>(strategy: Strategy, log: seq<Step<T>>, t: T)
    requires log == []
    ensures Surviving(strategy, log) == [] && Through(Surviving(strategy, log), t) == t && !Asks(log)
  {
  }

  /** How the transaction stands after the steps: as before, unless the outermost callback has ended it; then
      the first Commit or Rollback decides, and a commit that works keeps what has survived until then. */
  ghost predicate Stands<T>(strategy: Strategy, outermost: bool, log: seq<Step<T>>, w: World<T>, phase: Phase<T>,
                            driver: Driver)
  {
    && (w.phase.Ended? || !outermost || !Asks(log) ==> phase == w.phase)
    && (w.phase.Open? && outermost ==>
          forall i :: 0 <= i < |log| && log[i].Asked? && !Asks(log[..i]) ==>
            phase == Ended(if log[i].commit && driver.commitOk then Some(Through(Surviving(strategy, log[..i]), w.state))
                           else None))
  }

  lemma StandsInTurn<T>(strategy: Strategy, outermost: bool, step: Step<T>, rest: seq<Step<T>>, w: World<T>,
                        phase: Phase<T>, driver: Driver)
    requires !step.Asked? || w.phase.Ended? || !outermost
    requires Stands(strategy, outermost, rest, w.(state := Through(SurvivingOf(strategy, step), w.state)), phase, driver)
    ensures Stands(strategy, outermost, [step] + rest, w, phase, driver)
  {
    hide Surviving, SurvivingOf, Through, Asks;
    var log := [step] + rest;
    StepThenRest(strategy, step, rest, w.state);
    if w.phase.Open? && outermost {
      forall i | 0 <= i < |log| && log[i].Asked? && !Asks(log[..i])
        ensures phase == Ended(if log[i].commit && driver.commitOk
                               then Some(Through(Surviving(strategy, log[..i]), w.state)) else None)
      {
        assert log[..i] == [step] + rest[..i - 1] && log[i] == rest[i - 1];
        StepThenRest(strategy, step, rest[..i - 1], w.state);
      }
    }
  }

  lemma AskedFirst<T>(strategy: Strategy, commit: bool, ok: bool, rest: seq<Step<T>>, w: World<T>, driver: Driver)
    requires w.phase.Open?
    ensures Stands(strategy, true, [Asked(commit, ok)] + rest, w,
                   Ended(if commit && driver.commitOk then Some(w.state) else None), driver)
  {
    var log := [Asked(commit, ok)] + rest;
    assert log[0].Asked?;
    forall i | 0 < i < |log|
      ensures Asks(log[..i])
    {
      assert log[..i][0].Asked?;
    }
    assert log[..0] == [];
  }

  /** A callback has a way that it went: its steps got what they get on the state made by the survivors before
      them, and the state it leaves is what the survivors make of the one it found. */
  ghost predicate Went<T(!new)>(strategy: Strategy, outermost: bool, p: Prog<T>, log: seq<Step<T>>, w: World<T>,
                                o: Outcome, w1: World<T>, driver: Driver)
  {
    && Way(p, log, o)
    && Happens(strategy, outermost, log, w.state, w.phase.Ended?, driver)
    && w1.state == Through(Surviving(strategy, log), w.state)
    && Stands(strategy, outermost, log, w, w1.phase, driver)
  }

  predicate Drives<T>(driver: Driver, phase: Phase<T>) {
    phase.Open? ==> phase == Open(driver.commitOk, driver.rollbackOk)
  }

  lemma NothingWent<T(!new)>(strategy: Strategy, outermost: bool, w: World<T>, o: Outcome, driver: Driver)
    ensures Went(strategy, outermost, Return(o), [], w, o, w, driver)
  {
  }

  /** One step that leaves the transaction as it stands, and then the way of what comes next. */
  lemma GoOn<T(!new)>(strategy: Strategy, outermost: bool, p: Prog<T>, step: Step<T>, next: Prog<T>, rest: seq<Step<T>>,
                      w: World<T>, o: Outcome, w1: World<T>, driver: Driver)
    requires !step.Asked? || w.phase.Ended? || !outermost
    requires StepHappens(strategy, outermost, step, w.state, w.phase.Ended?, driver)
    requires Went(strategy, outermost, next, rest, w.(state := Through(SurvivingOf(strategy, step), w.state)), o, w1,
                  driver)
    requires Way(next, rest, o) ==> Way(p, [step] + rest, o)
    ensures Went(strategy, outermost, p, [step] + rest, w, o, w1, driver)
  {
    hide Happens, StepHappens, Stands, Way, Surviving, SurvivingOf, Through;
    HappensInTurn(strategy, outermost, step, rest, w.state, w.phase.Ended?, driver);
    StandsInTurn(strategy, outermost, step, rest, w, w1.phase, driver);
    StepThenRest(strategy, step, rest, w.state);
  }

  /** The Commit or Rollback that ends the transaction, and then the way of what comes next. */
  lemma EndAndGoOn<T(!new)>(strategy: Strategy, p: Prog<T>, commit: bool, next: Prog<T>, rest: seq<Step<T>>, w: World<T>,
                            o: Outcome, w1: World<T>, driver: Driver)
    requires w.phase == Open(driver.commitOk, driver.rollbackOk)
    requires var ended := w.(phase := Ended(if commit && driver.commitOk then Some(w.state) else None));
             Went(strategy, true, next, rest, ended, o, w1, driver)
    requires var ok := if commit then driver.commitOk else driver.rollbackOk;
             Way(next, rest, o) ==> Way(p, [Asked(commit, ok)] + rest, o)
    ensures var ok := if commit then driver.commitOk else driver.rollbackOk;
            Went(strategy, true, p, [Asked(commit, ok)] + rest, w, o, w1, driver)
  {
    var ok := if commit then driver.commitOk else driver.rollbackOk;
    var step: Step<T> := Asked(commit, ok);
    AskedFirst(strategy, commit, ok, rest, w, driver);
    assert StepHappens(strategy, true, step, w.state, false, driver);
    assert Through(SurvivingOf(strategy, step), w.state) == w.state;
    hide Happens, StepHappens, Way, Surviving, SurvivingOf, Through;
    HappensInTurn(strategy, true, step, rest, w.state, false, driver);
    StepThenRest(strategy, step, rest, w.state);
  }

  lemma {:induction false} MeaningIsHistory<T(!new)>(strategy: Strategy, outermost: bool, p: Prog<T>, w: World<T>,
                                                     driver: Driver) returns (log: seq<Step<T>>)
    requires Drives(driver, w.phase)
    ensures var (o, w1) := Meaning(strategy, outermost, p, w); Went(strategy, outermost, p, log, w, o, w1, driver)
    decreases p
  {
    hide Went, Surviving, Happens, Asks, Stands;
    var (o, w1) := Meaning(strategy, outermost, p, w);
    match p
    case Return(_) =>
      log := [];
      NothingWent(strategy, outermost, w, o, driver);
    case Exec(statement, onTrue, onFalse, onEnded) =>
      if w.phase.Ended? {
        var rest := MeaningIsHistory(strategy, outermost, onEnded, w, driver);
        log := [Ran(statement, None)] + rest;
        assert w.(state := w.state) == w;
        GoOn(strategy, outermost, p, Ran(statement, None), onEnded, rest, w, o, w1, driver);
      } else {
        var (state, reply) := statement(w.state);
        var next := if reply then onTrue else onFalse;
        var rest := MeaningIsHistory(strategy, outermost, next, w.(state := state), driver);
        log := [Ran(statement, Some(reply))] + rest;
        assert Through([statement], w.state) == state;
        GoOn(strategy, outermost, p, Ran(statement, Some(reply)), next, rest, w, o, w1, driver);
      }
    case Nested(body, onSuccess, onFailure, onPanic) =>
      NestedStaysOpen(strategy, body, w);
      var (inner, w2) := NestedMeaning(strategy, body, w);
      var next := match inner case Success => onSuccess case Failure => onFailure case Panic => onPanic;
      var rest := MeaningIsHistory(strategy, outermost, next, w2, driver);
      var step;
      if RunsBody(strategy, w.phase.Ended?) {
        var steps := MeaningIsHistory(strategy, false, body, w, driver);
        step := Called(steps, inner);
        CalledHappens(strategy, outermost, body, steps, w, driver);
      } else {
        step := Refused;
      }
      log := [step] + rest;
      GoOn(strategy, outermost, p, step, next, rest, w, o, w1, driver);
    case Finish(commit, onOk, onError) =>
      if outermost && w.phase.Open? {
        var ok := if commit then driver.commitOk else driver.rollbackOk;
        var ended := w.(phase := Ended(if commit && driver.commitOk then Some(w.state) else None));
        var next := if ok then onOk else onError;
        var rest := MeaningIsHistory(strategy, true, next, ended, driver);
        log := [Asked(commit, ok)] + rest;
        EndAndGoOn(strategy, p, commit, next, rest, w, o, w1, driver);
      } else {
        var rest := MeaningIsHistory(strategy, outermost, onError, w, driver);
        log := [Asked(commit, false)] + rest;
        GoOn(strategy, outermost, p, Asked(commit, false), onError, rest, w, o, w1, driver);
      }
  }

  /** A nested call that is let run, as one step. */
  lemma CalledHappens<T(!new)>(strategy: Strategy, outermost: bool, body: Prog<T>, steps: seq<Step<T>>, w: World<T>,
                               driver: Driver)
    requires RunsBody(strategy, w.phase.Ended?)
    requires var (o, w1) := Meaning(strategy, false, body, w); Went(strategy, false, body, steps, w, o, w1, driver)
    ensures var (o, w1) := NestedMeaning(strategy, body, w);
            var step := Called(steps, o);
            && Way(body, steps, o)
            && StepHappens(strategy, outermost, step, w.state, w.phase.Ended?, driver)
            && w1 == w.(state := Through(SurvivingOf(strategy, step), w.state))
  {
    hide Way, Happens, Surviving;
    NestedStaysOpen(strategy, body, w);
    StaysOpen(strategy, false, body, w);
  }

  // ---- There is one history ---------------------------------------------------------------

  lemma HappensApart<T>(strategy: Strategy, outermost: bool, log: seq<Step<T>>, t: T, ended: bool, driver: Driver)
    requires log != [] && Happens(strategy, outermost, log, t, ended, driver)
    ensures StepHappens(strategy, outermost, log[0], t, ended, driver)
    ensures Happens(strategy, outermost, log[1..], Through(SurvivingOf(strategy, log[0]), t),
                    ended || (outermost && log[0].Asked?), driver)
  {
    hide StepHappens, Surviving, SurvivingOf, Through, Asks;
    NothingYet(strategy, log[..0], t);
    var rest := log[1..];
    forall i | 0 <= i < |rest|
      ensures StepHappens(strategy, outermost, rest[i],
                          Through(Surviving(strategy, rest[..i]), Through(SurvivingOf(strategy, log[0]), t)),
                          ended || (outermost && log[0].Asked?) || (outermost && Asks(rest[..i])), driver)
    {
      assert log[..i + 1] == [log[0]] + rest[..i];
      StepThenRest(strategy, log[0], rest[..i], t);
      assert log[i + 1] == rest[i];
    }
  }

  /** A callback has one way that it can have gone. */
  lemma {:induction false} HistoryIsOne<T(!new)>(strategy: Strategy, outermost: bool, p: Prog<T>, a: seq<Step<T>>,
                                                 oa: Outcome, b: seq<Step<T>>, ob: Outcome, t: T, ended: bool,
                                                 driver: Driver)
    requires Way(p, a, oa) && Happens(strategy, outermost, a, t, ended, driver)
    requires Way(p, b, ob) && Happens(strategy, outermost, b, t, ended, driver)
    ensures a == b && oa == ob
    decreases p, 1
  {
    if !p.Return? {
      HappensApart(strategy, outermost, a, t, ended, driver);
      HappensApart(strategy, outermost, b, t, ended, driver);
      SameFirst(strategy, outermost, p, a, oa, b, ob, t, ended, driver);
      var t1, ended1 := Through(SurvivingOf(strategy, a[0]), t), ended || (outermost && a[0].Asked?);
      hide Happens, StepHappens, Through, SurvivingOf;
      HistoryIsOne(strategy, outermost, Next(p, a[0]), a[1..], oa, b[1..], ob, t1, ended1, driver);
      assert a == [a[0]] + a[1..] && b == [b[0]] + b[1..];
    }
  }

  /** Where a callback goes on after a step. */
  function Next<T>(p: Prog<T>, step: Step<T>): Prog<T>
    requires !p.Return?
  {
    match p
    case Exec(_, onTrue, onFalse, onEnded) =>
      if !step.Ran? || step.reply.None? then onEnded else if step.reply.value then onTrue else onFalse
    case Nested(_, onSuccess, onFailure, onPanic) =>
      if !step.Called? || step.outcome.Failure? then onFailure else if step.outcome.Success? then onSuccess else onPanic
    case Finish(_, onOk, onError) => if step.Asked? && step.ok then onOk else onError
  }

  lemma SameFirst<T(!new)>(strategy: Strategy, outermost: bool, p: Prog<T>, a: seq<Step<T>>, oa: Outcome,
                           b: seq<Step<T>>, ob: Outcome, t: T, ended: bool, driver: Driver)
    requires !p.Return? && Way(p, a, oa) && Way(p, b, ob)
    requires StepHappens(strategy, outermost, a[0], t, ended, driver)
    requires StepHappens(strategy, outermost, b[0], t, ended, driver)
    ensures a[0] == b[0] && Way(Next(p, a[0]), a[1..], oa) && Way(Next(p, b[0]), b[1..], ob)
    decreases p, 0
  {
    hide Happens;
    if p.Nested? && a[0].Called? {
      HistoryIsOne(strategy, false, p.body, a[0].inner, a[0].outcome, b[0].inner, b[0].outcome, t, ended, driver);
    }
  }

  // ---- What TxContext leaves --------------------------------------------------------------

  /** Whatever the driver does, and with names that keep levels apart: a callback has a history, a way through it
      on which every step got what it gets after the survivors before it. A transaction that cannot begin changes
      nothing. In one that begins, if the callback left it open, a success that commits leaves what the survivors
      make of the committed state, and everything else leaves that state; if not, the callback's own first Commit
      or Rollback has decided. */
  lemma TransactionIsHistory<T(!new)>(cfg: Config, committed: T, fn: Prog<T>, driver: Driver)
    returns (log: seq<Step<T>>, o: Outcome)
    requires cfg.Effective().NestedSavepoint? ==> KeepsApart(cfg.mode, cfg.namer)
    ensures Way(fn, log, o) && Happens(cfg.Effective(), true, log, committed, false, driver)
    ensures !driver.beginOk ==> TxRun(cfg, committed, fn, driver) == (BeginFailed, committed)
    ensures driver.beginOk && !Asks(log) ==>
              TxRun(cfg, committed, fn, driver) ==
              match o
              case Panic => (CallbackPanicked, committed)
              case Failure => (CallbackFailed, committed)
              case Success =>
                if driver.commitOk then (Committed, Through(Surviving(cfg.Effective(), log), committed))
                else (CommitFailed, committed)
    ensures forall i :: driver.beginOk && 0 <= i < |log| && log[i].Asked? && !Asks(log[..i]) ==>
              TxRun(cfg, committed, fn, driver) ==
              (match o case Panic => CallbackPanicked case Failure => CallbackFailed case Success => CommitFailed,
               if log[i].commit && driver.commitOk then Through(Surviving(cfg.Effective(), log[..i]), committed)
               else committed)
  {
    hide Way, Happens, Surviving, Through, Meaning, TxRun, Asks, KeepsApart;
    TxRunMeans(cfg, committed, fn, driver);
    log := MeaningIsHistory(cfg.Effective(), true, fn, driver.Began(committed), driver);
    o := Meaning(cfg.Effective(), true, fn, driver.Began(committed)).0;
  }
}
