/** The transaction objects: a connection in a transaction, a Tx handle that runs callbacks on it,
    and a database that opens, commits and rolls back. */
module TxObjects {
  import opened Wrappers
  import opened NestedTx

  class Connection<T> {
    var state: T
    var stack: seq<Savepoint<T>>
    var phase: Phase<T>
    const mode: Mode

    constructor (mode: Mode, state: T, commitOk: bool, rollbackOk: bool)
      ensures InSession() == Session(state, [], Open(commitOk, rollbackOk)) && this.mode == mode
    {
      this.mode := mode;
      this.state := state;
      stack := [];
      phase := Open(commitOk, rollbackOk);
    }

    ghost function InSession(): Session<T>
      reads this
    {
      Session(state, stack, phase)
    }

    /** The statement's reply, or none when the transaction has ended. */
    method ExecStatement(statement: T -> (T, bool)) returns (reply: Option<bool>)
      modifies this`state
      ensures if phase.Ended? then state == old(state) && reply == None
              else (state, reply) == (statement(old(state)).0, Some(statement(old(state)).1))
    {
      if phase.Ended? {
        return None;
      }
      var (after, answer) := statement(state);
      state := after;
      return Some(answer);
    }

    method ExecSavepoint(name: string) returns (ok: bool)
      modifies this`stack
      ensures (InSession(), ok) == SetSavepoint(mode, old(InSession()), name)
    {
      if phase.Ended? {
        return false;
      }
      if mode.Replacing? {
        stack := Unnamed(stack, name);
      }
      stack := stack + [Savepoint(name, state)];
      return true;
    }

    method Find(name: string) returns (i: int)
      ensures if Has(stack, name) then i == Latest(stack, name) else i == -1
    {
      i := |stack| - 1;
      while i >= 0 && stack[i].name != name
        invariant -1 <= i < |stack|
        invariant forall j :: i < j < |stack| ==> stack[j].name != name
      {
        i := i - 1;
      }
    }

    method ExecRollbackTo(name: string) returns (ok: bool)
      modifies this
      ensures (InSession(), ok) == RollbackTo(old(InSession()), name)
    {
      var i := Find(name);
      if phase.Ended? || i < 0 {
        return false;
      }
      state := stack[i].snapshot;
      stack := stack[..i + 1];
      return true;
    }

    method ExecRelease(name: string) returns (ok: bool)
      modifies this`stack
      ensures (InSession(), ok) == Release(old(InSession()), name)
    {
      var i := Find(name);
      if phase.Ended? || i < 0 {
        return false;
      }
      stack := stack[..i];
      return true;
    }

    /** Commit of the whole transaction. */
    method Commit() returns (ok: bool)
      modifies this`phase
      ensures (InSession().Bare(), ok) == End(old(InSession().Bare()), true)
    {
      match phase
      case Ended(_) =>
        return false;
      case Open(commitOk, _) =>
        phase := Ended(if commitOk then Some(state) else None);
        return commitOk;
    }

    method Rollback() returns (ok: bool)
      modifies this`phase
      ensures (InSession().Bare(), ok) == End(old(InSession().Bare()), false)
    {
      match phase
      case Ended(_) =>
        return false;
      case Open(_, rollbackOk) =>
        phase := Ended(None);
        return rollbackOk;
    }
  }

  class Tx<T> {
    const conn: Connection<T>
    const strategy: Strategy
    const supportsSavepoint: bool
    const namer: Namer
    const level: nat

    ghost function Cfg(): Config {
      Config(conn.mode, strategy, supportsSavepoint, namer)
    }

    constructor (conn: Connection<T>, level: nat, strategy: Strategy, supportsSavepoint: bool, namer: Option<Namer>)
      ensures this.conn == conn && this.level == level && this.strategy == strategy
      ensures this.supportsSavepoint == supportsSavepoint
      ensures this.namer == if namer.Some? then namer.value else DefaultName
    {
      this.conn := conn;
      this.level := level;
      this.strategy := strategy;
      this.supportsSavepoint := supportsSavepoint;
      match namer {
        case Some(chosen) => this.namer := chosen;
        case None => this.namer := DefaultName;
      }
    }

    method EffectiveStrategy() returns (s: Strategy)
      ensures s == Cfg().Effective()
    {
      if strategy.NestedDialect? {
        if supportsSavepoint {
          return NestedSavepoint;
        }
        return NestedError;
      }
      return strategy;
    }

    /** Only the outermost transaction may be committed or rolled back by its handle. */
    method Commit() returns (ok: bool)
      modifies conn`phase
      ensures level > 0 ==> !ok && conn.InSession() == old(conn.InSession())
      ensures level == 0 ==> (conn.InSession().Bare(), ok) == End(old(conn.InSession().Bare()), true)
    {
      if level > 0 {
        return false;
      }
      ok := conn.Commit();
    }

    method Rollback() returns (ok: bool)
      modifies conn`phase
      ensures level > 0 ==> !ok && conn.InSession() == old(conn.InSession())
      ensures level == 0 ==> (conn.InSession().Bare(), ok) == End(old(conn.InSession().Bare()), false)
    {
      if level > 0 {
        return false;
      }
      ok := conn.Rollback();
    }

    method NestedTxContext(body: Prog<T>) returns (o: Outcome)
      modifies conn
      ensures (o, conn.InSession()) == RunNested(Cfg(), level, body, old(conn.InSession()))
      decreases body, 1
    {
      var nestedLevel := level + 1;
      var nested := new Tx(conn, nestedLevel, strategy, supportsSavepoint, Some(namer));
      var effective := EffectiveStrategy();
      match effective {
        case NestedReuse =>
          o := nested.Callback(body);
          return o;
        case NestedSavepoint =>
          var name := namer(nestedLevel);
          var made := conn.ExecSavepoint(name);
          if !made {
            return Failure;
          }
          o := nested.Callback(body);
          if !o.Success? {
            var done := conn.ExecRollbackTo(name);
            return o;
          }
          var released := conn.ExecRelease(name);
          if !released {
            return Failure;
          }
          return Success;
        case _ =>
          return Failure;
      }
    }

    /** A callback given this handle. */
    method Callback(p: Prog<T>) returns (o: Outcome)
      modifies conn
      ensures (o, conn.InSession()) == Run(Cfg(), level, p, old(conn.InSession()))
      decreases p, 0
    {
      match p {
        case Return(outcome) =>
          return outcome;
        case Exec(statement, onTrue, onFalse, onEnded) =>
          var reply := conn.ExecStatement(statement);
          match reply {
            case Some(answer) =>
              if answer {
                o := Callback(onTrue);
              } else {
                o := Callback(onFalse);
              }
            case None =>
              o := Callback(onEnded);
          }
        case Nested(body, onSuccess, onFailure, onPanic) =>
          var inner := NestedTxContext(body);
          match inner {
            case Success => o := Callback(onSuccess);
            case Failure => o := Callback(onFailure);
            case Panic => o := Callback(onPanic);
          }
        case Finish(commit, onOk, onError) =>
          var ok;
          if commit {
            ok := Commit();
          } else {
            ok := Rollback();
          }
          if ok {
            o := Callback(onOk);
          } else {
            o := Callback(onError);
          }
      }
    }
  }

  /** How TxContext ends. */
  datatype TxEnd = Committed | BeginFailed | CallbackFailed | CallbackPanicked | CommitFailed

  class DB<T> {
    var committed: T
    const mode: Mode
    const supportsSavepoint: bool
    const strategy: Strategy

    constructor (initial: T, mode: Mode, supportsSavepoint: bool, strategy: Strategy)
      ensures committed == initial && this.mode == mode && this.supportsSavepoint == supportsSavepoint
      ensures this.strategy == strategy
    {
      committed := initial;
      this.mode := mode;
      this.supportsSavepoint := supportsSavepoint;
      this.strategy := strategy;
    }

    ghost function Cfg(namer: Option<Namer>): Config {
      Config(mode, strategy, supportsSavepoint, if namer.Some? then namer.value else DefaultName)
    }

    /** Begin, commit and rollback may fail in the driver. The namer may be chosen for this transaction. */
    method TxContext(fn: Prog<T>, namer: Option<Namer>, driver: Driver) returns (end: TxEnd)
      modifies this`committed
      ensures (end, committed) == TxRun(Cfg(namer), old(committed), fn, driver)
      ensures namer.None? || KeepsApart(mode, namer.value) ==>
                (end, committed) == TxMeaning(Cfg(namer), old(committed), fn, driver)
    {
      hide Run, Meaning, TxMeaning, KeepsApart;
      ChosenNames(Cfg(namer), namer, committed, fn, driver);
      if !driver.beginOk {
        return BeginFailed;
      }
      var conn := new Connection(mode, committed, driver.commitOk, driver.rollbackOk);
      var tx := new Tx(conn, 0, strategy, supportsSavepoint, namer);
      var o := tx.Callback(fn);
      var ok;
      if o.Success? {
        ok := conn.Commit();
      } else {
        ok := conn.Rollback();
      }
      committed := Kept(committed, conn.phase);
      end := match o
        case Panic => CallbackPanicked
        case Failure => CallbackFailed
        case Success => if ok then Committed else CommitFailed;
    }
  }

  /** What the driver makes of begin, commit and rollback. */
  datatype Driver = Driver(beginOk: bool, commitOk: bool, rollbackOk: bool)
  {
    function Began<T>(t: T): World<T> {
      World(t, Open(commitOk, rollbackOk))
    }
  }

  /** What a database holds after a transaction. */
  function Kept<T>(committed: T, phase: Phase<T>): T {
    match phase
    case Open(_, _) => committed
    case Ended(None) => committed
    case Ended(Some(t)) => t
  }

  /** How a transaction ends, and what the database then holds, when its callback ends as given: TxContext
      commits after success and rolls back otherwise, whatever the callback has done itself. */
  function Ending<T>(committed: T, o: Outcome, w: World<T>, driver: Driver): (TxEnd, T) {
    if !driver.beginOk then (BeginFailed, committed)
    else
      var (ended, ok) := End(w, o.Success?);
      (match o
       case Panic => CallbackPanicked
       case Failure => CallbackFailed
       case Success => if ok then Committed else CommitFailed,
       Kept(committed, ended.phase))
  }

  /** A transaction whose callback runs on savepoints of whatever names. */
  function TxRun<T>(cfg: Config, committed: T, fn: Prog<T>, driver: Driver): (TxEnd, T) {
    var (o, s) := Run(cfg, 0, fn, Session(committed, [], driver.Began(committed).phase));
    Ending(committed, o, s.Bare(), driver)
  }

  /** With names that keep levels apart it is what the callback means that is committed. */
  lemma TxRunMeans<T>(cfg: Config, committed: T, fn: Prog<T>, driver: Driver)
    requires cfg.Effective().NestedSavepoint? ==> KeepsApart(cfg.mode, cfg.namer)
    ensures TxRun(cfg, committed, fn, driver) == TxMeaning(cfg, committed, fn, driver)
  {
    hide Run, Meaning;
    RunMeans(cfg, 0, fn, Session(committed, [], driver.Began(committed).phase), 0);
  }

  lemma ChosenNames<T>(cfg: Config, namer: Option<Namer>, committed: T, fn: Prog<T>, driver: Driver)
    requires cfg.namer == if namer.Some? then namer.value else DefaultName
    ensures namer.None? || KeepsApart(cfg.mode, namer.value) ==>
              TxRun(cfg, committed, fn, driver) == TxMeaning(cfg, committed, fn, driver)
  {
    hide KeepsApart, TxRun, TxMeaning;
    DefaultNamesKeepApart(cfg.mode);
    if namer.None? || KeepsApart(cfg.mode, namer.value) {
      TxRunMeans(cfg, committed, fn, driver);
    }
  }

  /** It reports a commit exactly when it could begin, its callback meant success and left the transaction
      open, and the commit went through. The database then holds what the callback means; otherwise it
      changes only by a commit that the callback made itself. */
  function TxMeaning<T>(cfg: Config, committed: T, fn: Prog<T>, driver: Driver): (r: (TxEnd, T))
    ensures var (o, w) := Meaning(cfg.Effective(), true, fn, driver.Began(committed));
            && (r.0.Committed? <==> driver.beginOk && driver.commitOk && o.Success? && w.phase.Open?)
            && r.1 == if r.0.Committed? then w.state else if driver.beginOk then Kept(committed, w.phase) else committed
  {
    PhaseOrEnded(cfg.Effective(), true, fn, driver.Began(committed));
    var (o, w) := Meaning(cfg.Effective(), true, fn, driver.Began(committed));
    Ending(committed, o, w, driver)
  }

  /** A transaction is all or nothing if its callback leaves it open. */
  lemma AllOrNothing<T>(cfg: Config, committed: T, fn: Prog<T>, driver: Driver)
    requires LeavesOuterOpen(fn)
    ensures var (end, after) := TxMeaning(cfg, committed, fn, driver);
            var (o, w) := Meaning(cfg.Effective(), true, fn, driver.Began(committed));
            && (end.Committed? <==> driver.beginOk && driver.commitOk && o.Success?)
            && after == if end.Committed? then w.state else committed
  {
    hide Meaning;
    StaysOpen(cfg.Effective(), true, fn, driver.Began(committed));
  }

  /** A callback that commits by itself, whatever it does before and after: the transaction is reported as
      failed or panicked, with the database changed all the same. */
  lemma OwnCommitIsNotReported<T>(cfg: Config, committed: T, fn: Prog<T>, driver: Driver, t: T)
    requires driver.beginOk && Meaning(cfg.Effective(), true, fn, driver.Began(committed)).1.phase == Ended(Some(t))
    ensures var (end, after) := TxMeaning(cfg, committed, fn, driver);
            && !end.Committed? && after == t
            && (end.CommitFailed? <==> Meaning(cfg.Effective(), true, fn, driver.Began(committed)).0.Success?)
  {
  }

  /** The shortest one: it sets the state, commits, and returns nil. */
  lemma OwnCommitFails<T>(cfg: Config, committed: T, t: T)
    ensures var done: Prog<T> := Return(Success);
            var fn := Exec(_ => (t, true), Finish(true, done, done), done, done);
            TxMeaning(cfg, committed, fn, Driver(true, true, true)) == (CommitFailed, t)
  {
    var done: Prog<T> := Return(Success);
    var began := Driver(true, true, true).Began(committed);
    var kept := World(t, Ended(Some(t)));
    assert Meaning(cfg.Effective(), true, done, kept) == (Success, kept);
    assert Meaning(cfg.Effective(), true, Finish(true, done, done), began.(state := t)) == (Success, kept);
  }
}
