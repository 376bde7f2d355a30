/** Applying migrations: pending ones in ascending id order, inside one transaction, each recorded
    in a table whose primary key is the id. A run is a callback given to TxContext. */
module Migrate {
  import opened Wrappers
  import opened NestedTx
  import opened TxObjects

  // ---- Order of ids -----------------------------------------------------------------------

  /** Go's order on strings, byte by byte. */
  predicate Less(a: string, b: string) {
    if a == "" then b != ""
    else if b == "" then false
    else if a[0] == b[0] then Less(a[1..], b[1..])
    else a[0] < b[0]
  }

  /** The first of two strings is less where they first differ, or ends there. */
  lemma {:induction false} LessMeans(a: string, b: string)
    ensures Less(a, b) <==> exists n :: 0 <= n <= |a| && n < |b| && a[..n] == b[..n] && (n < |a| ==> a[n] < b[n])
  {
    if a != "" && b != "" && a[0] == b[0] {
      LessMeans(a[1..], b[1..]);
      if Less(a, b) {
        var n :| 0 <= n <= |a[1..]| && n < |b[1..]| && a[1..][..n] == b[1..][..n]
                 && (n < |a[1..]| ==> a[1..][n] < b[1..][n]);
        LongerPrefix(a, b, n);
        assert a[..n + 1] == b[..n + 1] && (n + 1 < |a| ==> a[n + 1] < b[n + 1]);
      }
      if n :| 0 <= n <= |a| && n < |b| && a[..n] == b[..n] && (n < |a| ==> a[n] < b[n]) {
        LongerPrefix(a, b, n - 1);
        assert a[1..][..n - 1] == b[1..][..n - 1] && (n - 1 < |a[1..]| ==> a[1..][n - 1] < b[1..][n - 1]);
      }
    } else if b != "" {
      assert a[..0] == b[..0];
      forall n | 0 < n <= |a| && n < |b|
        ensures a[..n] != b[..n]
      {
        assert a[..n][0] != b[..n][0];
      }
    }
  }

  lemma LongerPrefix(a: string, b: string, n: nat)
    requires a != "" && b != "" && a[0] == b[0] && n < |a| && n < |b|
    ensures a[..n + 1] == b[..n + 1] <==> a[1..][..n] == b[1..][..n]
  {
    assert a[..n + 1] == [a[0]] + a[1..][..n] && b[..n + 1] == [b[0]] + b[1..][..n];
    assert a[..n + 1][1..] == a[1..][..n] && b[..n + 1][1..] == b[1..][..n];
  }

  lemma {:induction false} LessIsTotal(a: string, b: string)
    requires a != b
    ensures Less(a, b) <==> !Less(b, a)
  {
    if a != "" && b != "" && a[0] == b[0] {
      assert a == [a[0]] + a[1..] && b == [b[0]] + b[1..];
      LessIsTotal(a[1..], b[1..]);
    }
  }

  // ---- Migrations and the store -----------------------------------------------------------

  /** A migration; its up function, if any, is a callback on the transaction: it runs statements on the
      data, may nest transactions, and succeeds, fails or panics. */
  datatype Migration<!D> = Migration(id: string, up: Option<Prog<D>>)

  /** The user's data, and the ids in the record table once that exists. */
  datatype Store<D> = Store(data: D, records: Option<seq<string>>)

  function Records<D(!new)>(s: Store<D>): seq<string> {
    if s.records.Some? then s.records.value else []
  }

  function AppliedIn<D(!new)>(s: Store<D>): set<string> {
    set id | id in Records(s)
  }

  predicate SortedById<D(!new)>(migrations: seq<Migration<D>>) {
    forall i, j :: 0 <= i < j < |migrations| ==> !Less(migrations[j].id, migrations[i].id)
  }

  ghost predicate Permutation<D(!new)>(a: seq<Migration<D>>, b: seq<Migration<D>>) {
    multiset(a) == multiset(b)
  }

  /** No up function commits or rolls back the transaction it is given. */
  ghost predicate LeaveOpen<D(!new)>(migrations: seq<Migration<D>>) {
    forall m :: m in migrations && m.up.Some? ==> LeavesOuterOpen(m.up.value)
  }

  function Pending<D(!new)>(migrations: seq<Migration<D>>, applied: set<string>): seq<Migration<D>> {
    if migrations == [] then []
    else (if migrations[0].id in applied then [] else [migrations[0]]) + Pending(migrations[1..], applied)
  }

  /** Running up functions one after the other until one does not succeed, or ends the transaction, so that
      it cannot be recorded; and how many were recorded. */
  function ApplyAll<D(!new)>(strategy: Strategy, migrations: seq<Migration<D>>, w: World<D>): (Outcome, World<D>, nat) {
    if migrations == [] then (Success, w, 0)
    else if migrations[0].up.None? then (Failure, w, 0)
    else
      var (o, w1) := Meaning(strategy, true, migrations[0].up.value, w);
      if !o.Success? then (o, w1, 0)
      else if w1.phase.Ended? then (Failure, w1, 0)
      else
        var (end, w2, n) := ApplyAll(strategy, migrations[1..], w1);
        (end, w2, n + 1)
  }

  function Ids<D(!new)>(migrations: seq<Migration<D>>): (ids: seq<string>)
    ensures |ids| == |migrations| && forall i :: 0 <= i < |ids| ==> ids[i] == migrations[i].id
  {
    seq(|migrations|, i requires 0 <= i < |migrations| => migrations[i].id)
  }

  predicate Distinct(ids: seq<string>) {
    forall i, j :: 0 <= i < j < |ids| ==> ids[i] != ids[j]
  }

  // ---- Callbacks made of callbacks --------------------------------------------------------

  /** A callback that goes on as q where p succeeds. */
  function Then<T>(p: Prog<T>, q: Prog<T>): Prog<T> {
    match p
    case Return(o) => if o.Success? then q else p
    case Exec(statement, a, b, c) => Exec(statement, Then(a, q), Then(b, q), Then(c, q))
    case Nested(body, a, b, c) => Nested(body, Then(a, q), Then(b, q), Then(c, q))
    case Finish(commit, a, b) => Finish(commit, Then(a, q), Then(b, q))
  }

  lemma {:induction false} ThenRuns<T>(cfg: Config, level: nat, p: Prog<T>, q: Prog<T>, s: Session<T>)
    ensures var (o, s1) := Run(cfg, level, p, s);
            Run(cfg, level, Then(p, q), s) == if o.Success? then Run(cfg, level, q, s1) else (o, s1)
  {
    match p
    case Return(o) =>
    case Exec(statement, a, b, c) =>
      if s.phase.Ended? {
        ThenRuns(cfg, level, c, q, s);
      } else {
        var (state, reply) := statement(s.state);
        ThenRuns(cfg, level, if reply then a else b, q, s.(state := state));
      }
    case Nested(body, _, _, _) =>
      var (o, s1) := RunNested(cfg, level, body, s);
      ThenRuns(cfg, level, NestedTx.After(p, o), q, s1);
    case Finish(commit, a, b) =>
      if level > 0 {
        ThenRuns(cfg, level, b, q, s);
      } else {
        var (w, ok) := End(s.Bare(), commit);
        ThenRuns(cfg, level, if ok then a else b, q, s.(phase := w.phase));
      }
  }

  lemma {:induction false} ThenMeans<T>(strategy: Strategy, p: Prog<T>, q: Prog<T>, w: World<T>)
    ensures var (o, w1) := Meaning(strategy, true, p, w);
            Meaning(strategy, true, Then(p, q), w) == if o.Success? then Meaning(strategy, true, q, w1) else (o, w1)
  {
    match p
    case Return(o) =>
    case Exec(statement, a, b, c) =>
      if w.phase.Ended? {
        ThenMeans(strategy, c, q, w);
      } else {
        var (state, reply) := statement(w.state);
        ThenMeans(strategy, if reply then a else b, q, w.(state := state));
      }
    case Nested(body, _, _, _) =>
      var (o, w1) := NestedMeaning(strategy, body, w);
      ThenMeans(strategy, NestedTx.After(p, o), q, w1);
    case Finish(commit, a, b) =>
      var (w1, ok) := End(w, commit);
      ThenMeans(strategy, if ok then a else b, q, w1);
  }

  lemma {:induction false} ThenLeavesOpen<T>(p: Prog<T>, q: Prog<T>)
    requires LeavesOuterOpen(p) && LeavesOuterOpen(q)
    ensures LeavesOuterOpen(Then(p, q))
  {
    match p
    case Return(_) =>
    case Exec(_, a, b, _) =>
      ThenLeavesOpen(a, q);
      ThenLeavesOpen(b, q);
    case Nested(_, a, b, c) =>
      ThenLeavesOpen(a, q);
      ThenLeavesOpen(b, q);
      ThenLeavesOpen(c, q);
  }

  /** A callback on the data, run on the whole store. */
  function OnData<D>(p: Prog<D>): Prog<Store<D>> {
    match p
    case Return(o) => Return(o)
    case Exec(statement, a, b, c) =>
      Exec((s: Store<D>) => (s.(data := statement(s.data).0), statement(s.data).1), OnData(a), OnData(b), OnData(c))
    case Nested(body, a, b, c) => Nested(OnData(body), OnData(a), OnData(b), OnData(c))
    case Finish(commit, a, b) => Finish(commit, OnData(a), OnData(b))
  }

  /** The world of the data as one of the store, with the records it has now. */
  function WithRecords<D>(w: World<D>, records: Option<seq<string>>): World<Store<D>> {
    World(Store(w.state, records), PhaseWith(w.phase, records))
  }

  function PhaseWith<D>(phase: Phase<D>, records: Option<seq<string>>): Phase<Store<D>> {
    match phase
    case Open(commitOk, rollbackOk) => Open(commitOk, rollbackOk)
    case Ended(None) => Ended(None)
    case Ended(Some(data)) => Ended(Some(Store(data, records)))
  }

  lemma {:induction false} OnDataMeans<D>(strategy: Strategy, outermost: bool, p: Prog<D>, w: World<D>,
                                          records: Option<seq<string>>)
    ensures var (o, w1) := Meaning(strategy, outermost, p, w);
            Meaning(strategy, outermost, OnData(p), WithRecords(w, records)) == (o, WithRecords(w1, records))
    decreases p, 0
  {
    match p
    case Return(_) =>
    case Exec(statement, a, b, c) =>
      if w.phase.Ended? {
        OnDataMeans(strategy, outermost, c, w, records);
      } else {
        var (data, reply) := statement(w.state);
        OnDataMeans(strategy, outermost, if reply then a else b, w.(state := data), records);
      }
    case Nested(body, _, _, _) =>
      OnDataMeansNested(strategy, body, w, records);
      var (o, w1) := NestedMeaning(strategy, body, w);
      OnDataMeans(strategy, outermost, NestedTx.After(p, o), w1, records);
    case Finish(commit, a, b) =>
      if outermost {
        var (w1, ok) := End(w, commit);
        OnDataMeans(strategy, outermost, if ok then a else b, w1, records);
      } else {
        OnDataMeans(strategy, outermost, b, w, records);
      }
  }

  lemma {:induction false} OnDataMeansNested<D>(strategy: Strategy, body: Prog<D>, w: World<D>,
                                                records: Option<seq<string>>)
    ensures var (o, w1) := NestedMeaning(strategy, body, w);
            NestedMeaning(strategy, OnData(body), WithRecords(w, records)) == (o, WithRecords(w1, records))
    decreases body, 1
  {
    OnDataMeans(strategy, false, body, w, records);
  }

  lemma {:induction false} OnDataLeavesOpen<D>(p: Prog<D>)
    requires LeavesOuterOpen(p)
    ensures LeavesOuterOpen(OnData(p))
  {
    match p
    case Return(_) =>
    case Exec(_, a, b, _) =>
      OnDataLeavesOpen(a);
      OnDataLeavesOpen(b);
    case Nested(_, a, b, c) =>
      OnDataLeavesOpen(a);
      OnDataLeavesOpen(b);
      OnDataLeavesOpen(c);
  }

  // ---- The callback of a run --------------------------------------------------------------

  /** INSERT under a primary key. */
  function Insert(records: seq<string>, id: string): Option<seq<string>> {
    if id in records then None else Some(records + [id])
  }

  /** Create the record table if it is not there. */
  function InitTable<D(!new)>(s: Store<D>): (Store<D>, bool) {
    (s.(records := Some(Records(s))), true)
  }

  function RecordId<D(!new)>(id: string): Store<D> -> (Store<D>, bool) {
    (s: Store<D>) =>
      match Insert(Records(s), id)
      case None => (s, false)
      case Some(records) => (s.(records := Some(records)), true)
  }

  function IsRecorded<D(!new)>(id: string): Store<D> -> (Store<D>, bool) {
    (s: Store<D>) => (s, id in Records(s))
  }

  /** Apply and record what is not applied yet. */
  function ApplyPending<D(!new)>(migrations: seq<Migration<D>>, applied: set<string>): Prog<Store<D>> {
    if migrations == [] then Return(Success)
    else
      var mig, rest := migrations[0], ApplyPending(migrations[1..], applied);
      if mig.id in applied then rest
      else if mig.up.None? then Return(Failure)
      else Then(OnData(mig.up.value), Recording(mig.id, rest))
  }

  /** Record an id, and go on. */
  function Recording<D(!new)>(id: string, rest: Prog<Store<D>>): Prog<Store<D>> {
    Exec(RecordId(id), rest, Return(Failure), Return(Failure))
  }

  /** Ask which of the migrations are recorded, before any of them is applied. */
  function AskApplied<D(!new)>(asked: seq<Migration<D>>, applied: set<string>, migrations: seq<Migration<D>>)
    : Prog<Store<D>>
  {
    if asked == [] then ApplyPending(migrations, applied)
    else
      var id, others := asked[0].id, asked[1..];
      Exec(IsRecorded(id), AskApplied(others, applied + {id}, migrations), AskApplied(others, applied, migrations),
           Return(Failure))
  }

  /** The callback that a run gives to TxContext. */
  function Callback<D(!new)>(sorted: seq<Migration<D>>): Prog<Store<D>> {
    Exec((s: Store<D>) => InitTable(s), AskApplied(sorted, {}, sorted), Return(Failure), Return(Failure))
  }

  lemma {:induction false} ApplyPendingLeavesOpen<D(!new)>(migrations: seq<Migration<D>>, applied: set<string>)
    requires LeaveOpen(migrations)
    ensures LeavesOuterOpen(ApplyPending(migrations, applied))
  {
    if migrations != [] {
      assert migrations[0] in migrations;
      ApplyPendingLeavesOpen(migrations[1..], applied);
      if migrations[0].up.Some? {
        OnDataLeavesOpen(migrations[0].up.value);
        ThenLeavesOpen(OnData(migrations[0].up.value),
                       Recording(migrations[0].id, ApplyPending(migrations[1..], applied)));
      }
    }
  }

  lemma {:induction false} AskAppliedLeavesOpen<D(!new)>(asked: seq<Migration<D>>, applied: set<string>,
                                                         migrations: seq<Migration<D>>)
    requires LeaveOpen(migrations)
    ensures LeavesOuterOpen(AskApplied(asked, applied, migrations))
    decreases |asked|
  {
    if asked == [] {
      ApplyPendingLeavesOpen(migrations, applied);
    } else {
      AskAppliedLeavesOpen(asked[1..], applied + {asked[0].id}, migrations);
      AskAppliedLeavesOpen(asked[1..], applied, migrations);
    }
  }

  /** Only the ids of the migrations themselves matter. */
  lemma {:induction false} SameApplied<D(!new)>(migrations: seq<Migration<D>>, a: set<string>, b: set<string>)
    requires forall m :: m in migrations ==> (m.id in a <==> m.id in b)
    ensures ApplyPending(migrations, a) == ApplyPending(migrations, b)
  {
    if migrations != [] {
      assert migrations[0] in migrations;
      SameApplied(migrations[1..], a, b);
    }
  }

  /** The questions come to the same as reading all records. */
  lemma {:induction false} AskedIsRead<D(!new)>(cfg: Config, asked: seq<Migration<D>>, applied: set<string>,
                                                migrations: seq<Migration<D>>, s: Session<Store<D>>)
    requires forall m :: m in migrations ==>
               (m.id in AppliedIn(s.state) <==> m.id in applied || (m in asked && m.id in AppliedIn(s.state)))
    requires applied <= AppliedIn(s.state) && s.phase.Open?
    ensures Run(cfg, 0, AskApplied(asked, applied, migrations), s)
            == Run(cfg, 0, ApplyPending(migrations, AppliedIn(s.state)), s)
    decreases |asked|
  {
    if asked == [] {
      SameApplied(migrations, applied, AppliedIn(s.state));
    } else {
      var id := asked[0].id;
      assert forall m :: m in asked <==> m == asked[0] || m in asked[1..];
      assert s.(state := s.state) == s;
      AskedIsRead(cfg, asked[1..], if id in Records(s.state) then applied + {id} else applied, migrations, s);
    }
  }

  // ---- The migrator -----------------------------------------------------------------------

  /** The loop of a run on the transaction handle it is given. */
  method ApplyMigrations<D(!new)>(tx: Tx<Store<D>>, sorted: seq<Migration<D>>) returns (o: Outcome, pendingCount: nat)
    requires tx.level == 0
    modifies tx.conn
    ensures (o, tx.conn.InSession()) == Run(tx.Cfg(), 0, Callback(sorted), old(tx.conn.InSession()))
    ensures o.Success? ==> pendingCount == |Pending(sorted, AppliedIn(old(tx.conn.state)))|
  {
    hide Run, Meaning, Then, OnData;
    pendingCount := 0;
    ghost var s0 := tx.conn.InSession();
    var made := tx.conn.ExecStatement((s: Store<D>) => InitTable(s));
    CallbackStarts(tx.Cfg(), sorted, s0);
    if made.None? {
      return Failure, pendingCount;
    }
    var records := Records(tx.conn.state);
    var applied := set id | id in records;
    ghost var whole := Run(tx.Cfg(), 0, Callback(sorted), s0);
    for i := 0 to |sorted|
      invariant Run(tx.Cfg(), 0, ApplyPending(sorted[i..], applied), tx.conn.InSession()) == whole
      invariant pendingCount + |Pending(sorted[i..], applied)| == |Pending(sorted, applied)|
    {
      assert sorted[i..][1..] == sorted[i + 1..];
      var mig := sorted[i];
      if mig.id in applied {
        continue;
      }
      pendingCount := pendingCount + 1;
      ghost var s := tx.conn.InSession();
      Unrolled(tx.Cfg(), sorted[i..], applied, s);
      if mig.up.None? {
        return Failure, pendingCount;
      }
      var done := tx.Callback(OnData(mig.up.value));
      if !done.Success? {
        return done, pendingCount;
      }
      var recorded := tx.conn.ExecStatement(RecordId(mig.id));
      if recorded != Some(true) {
        return Failure, pendingCount;
      }
    }
    Unrolled(tx.Cfg(), sorted[|sorted|..], applied, tx.conn.InSession());
    return Success, pendingCount;
  }

  /** One round of the loop. */
  lemma Unrolled<D(!new)>(cfg: Config, migrations: seq<Migration<D>>, applied: set<string>, s: Session<Store<D>>)
    ensures Run(cfg, 0, ApplyPending(migrations, applied), s) ==
            if migrations == [] then (Success, s)
            else if migrations[0].id in applied then Run(cfg, 0, ApplyPending(migrations[1..], applied), s)
            else if migrations[0].up.None? then (Failure, s)
            else
              var (o, s1) := Run(cfg, 0, OnData(migrations[0].up.value), s);
              if !o.Success? then (o, s1)
              else
                if s1.phase.Ended? then (Failure, s1)
                else
                  var (state, recorded) := RecordId(migrations[0].id)(s1.state);
                  if recorded then Run(cfg, 0, ApplyPending(migrations[1..], applied), s1.(state := state))
                  else (Failure, s1.(state := state))
  {
    if migrations != [] && migrations[0].id !in applied && migrations[0].up.Some? {
      var rest := ApplyPending(migrations[1..], applied);
      ThenRuns(cfg, 0, OnData(migrations[0].up.value), Recording(migrations[0].id, rest), s);
    }
  }

  lemma CallbackStarts<D(!new)>(cfg: Config, sorted: seq<Migration<D>>, s: Session<Store<D>>)
    ensures var s1 := s.(state := InitTable(s.state).0);
            && AppliedIn(s1.state) == AppliedIn(s.state)
            && Run(cfg, 0, Callback(sorted), s)
               == if s.phase.Ended? then (Failure, s) else Run(cfg, 0, ApplyPending(sorted, AppliedIn(s.state)), s1)
  {
    hide ApplyPending;
    if s.phase.Open? {
      var s1 := s.(state := InitTable(s.state).0);
      AskedIsRead(cfg, sorted, {}, sorted, s1);
    }
  }

  /** How a run ends: a source fails, or the transaction ends. */
  datatype RunEnd = CollectFailed | InTransaction(end: TxEnd)

  class Migrator<D(!new)> {
    const db: DB<Store<D>>

    constructor (db: DB<Store<D>>)
      ensures this.db == db
    {
      this.db := db;
    }

    /** Run on the collected migrations, or None when a source fails; `sorted` is what the unstable
        sort makes of them. */
    method Run(collected: Option<seq<Migration<D>>>, sorted: seq<Migration<D>>, driver: Driver) returns (end: RunEnd)
      requires collected.Some? ==> SortedById(sorted) && Permutation(collected.value, sorted)
      modifies db`committed
      ensures (end, db.committed) == RunMeaning(db.Cfg(None), old(db.committed), collected, sorted, driver)
    {
      if collected.None? {
        return CollectFailed;
      }
      var ended := db.TxContext(Callback(sorted), None, driver);
      return InTransaction(ended);
    }
  }

  /** What a run means: what its callback means, in a transaction. */
  function RunMeaning<D(!new)>(cfg: Config, s: Store<D>, collected: Option<seq<Migration<D>>>, sorted: seq<Migration<D>>,
                         driver: Driver): (RunEnd, Store<D>)
  {
    if collected.None? then (CollectFailed, s)
    else
      var (end, after) := TxMeaning(cfg, s, Callback(sorted), driver);
      (InTransaction(end), after)
  }

  predicate Succeeded(end: RunEnd) {
    end == InTransaction(Committed)
  }

  // ---- What a run does --------------------------------------------------------------------

  lemma {:induction false} PendingAreNew<D(!new)>(migrations: seq<Migration<D>>, applied: set<string>)
    ensures forall m :: m in Pending(migrations, applied) <==> m in migrations && m.id !in applied
  {
    if migrations != [] {
      PendingAreNew(migrations[1..], applied);
      assert forall m :: m in migrations <==> m == migrations[0] || m in migrations[1..];
    }
  }

  lemma {:induction false} PendingSorted<D(!new)>(migrations: seq<Migration<D>>, applied: set<string>)
    requires SortedById(migrations)
    ensures SortedById(Pending(migrations, applied))
  {
    if migrations != [] {
      hide Less;
      var head, tail := migrations[0], migrations[1..];
      var rest := Pending(tail, applied);
      assert forall i :: 0 <= i < |tail| ==> tail[i] == migrations[i + 1];
      PendingSorted(tail, applied);
      PendingAreNew(tail, applied);
      forall j | 0 <= j < |rest|
        ensures !Less(rest[j].id, head.id)
      {
        assert rest[j] in rest;
        assert rest[j] in tail;
        var k :| 0 <= k < |tail| && tail[k] == rest[j];
        assert migrations[k + 1] == rest[j];
      }
    }
  }

  /** The loop on a store, without the transaction around it. */
  function Loop<D(!new)>(strategy: Strategy, migrations: seq<Migration<D>>, applied: set<string>, w: World<Store<D>>)
    : (Outcome, World<Store<D>>)
  {
    Meaning(strategy, true, ApplyPending(migrations, applied), w)
  }

  lemma LoopUnrolled<D(!new)>(strategy: Strategy, migrations: seq<Migration<D>>, applied: set<string>, w: World<D>,
                              records: seq<string>)
    ensures Loop(strategy, migrations, applied, WithRecords(w, Some(records))) ==
            if migrations == [] then (Success, WithRecords(w, Some(records)))
            else if migrations[0].id in applied then
              Loop(strategy, migrations[1..], applied, WithRecords(w, Some(records)))
            else if migrations[0].up.None? then (Failure, WithRecords(w, Some(records)))
            else
              var (o, w1) := Meaning(strategy, true, migrations[0].up.value, w);
              if !o.Success? then (o, WithRecords(w1, Some(records)))
              else if w1.phase.Ended? || migrations[0].id in records then (Failure, WithRecords(w1, Some(records)))
              else Loop(strategy, migrations[1..], applied, WithRecords(w1, Some(records + [migrations[0].id])))
  {
    if migrations != [] && migrations[0].id !in applied && migrations[0].up.Some? {
      var rest := ApplyPending(migrations[1..], applied);
      OnDataMeans(strategy, true, migrations[0].up.value, w, Some(records));
      var (o, w1) := Meaning(strategy, true, migrations[0].up.value, w);
      ThenMeans(strategy, OnData(migrations[0].up.value), Recording(migrations[0].id, rest), WithRecords(w, Some(records)));
      RecordingMeans(strategy, migrations[0].id, rest, w1, records);
    }
  }

  lemma RecordingMeans<D(!new)>(strategy: Strategy, id: string, rest: Prog<Store<D>>, w: World<D>, records: seq<string>)
    ensures Meaning(strategy, true, Recording(id, rest), WithRecords(w, Some(records))) ==
            if w.phase.Ended? || id in records then (Failure, WithRecords(w, Some(records)))
            else Meaning(strategy, true, rest, WithRecords(w, Some(records + [id])))
  {
    var failed: Prog<Store<D>> := Return(Failure);
    var before := WithRecords(w, Some(records));
    assert Meaning(strategy, true, failed, before) == (Failure, before);
  }

  /** A loop ends like the up functions of the pending migrations, with those recorded that came before; unless
      two ids are the same, so that it fails, or panics because one of them does. */
  ghost predicate Follows<D(!new)>(strategy: Strategy, pending: seq<Migration<D>>, w: World<D>, records: seq<string>,
                                   end: Outcome, after: World<Store<D>>)
  {
    var (o, w1, n) := ApplyAll(strategy, pending, w);
    && n <= |pending|
    && (end.Success? <==> o.Success? && Distinct(records + Ids(pending)))
    && (Distinct(records + Ids(pending)) ==>
          end == o && after == WithRecords(w1, Some(records + Ids(pending[..n]))))
    && (end.Panic? ==> o.Panic?)
  }

  /** The loop succeeds exactly when every pending up function does and the pending ids are distinct;
      it then applies the pending migrations in order and records their ids after the old ones. With
      distinct ids it ends as the up functions end, with those recorded that came before; and it panics only
      if one of them does. */
  lemma {:induction false} LoopAppliesPending<D(!new)>(strategy: Strategy, migrations: seq<Migration<D>>,
                                                       applied: set<string>, w: World<D>, records: seq<string>)
    requires Distinct(records) && w.phase.Open? && forall id :: id in applied ==> id in records
    ensures var (end, after) := Loop(strategy, migrations, applied, WithRecords(w, Some(records)));
            Follows(strategy, Pending(migrations, applied), w, records, end, after)
  {
    hide Distinct, Ids, Loop, Meaning, WithRecords, Follows, ApplyAll;
    var pending := Pending(migrations, applied);
    var (end, after) := Loop(strategy, migrations, applied, WithRecords(w, Some(records)));
    LoopUnrolled(strategy, migrations, applied, w, records);
    if migrations == [] {
      NothingFollows(strategy, pending, w, records);
    } else {
      var mig, rest := migrations[0], migrations[1..];
      if mig.id in applied {
        LoopAppliesPending(strategy, rest, applied, w, records);
        assert pending == Pending(rest, applied);
      } else {
        var others := Pending(rest, applied);
        assert pending == [mig] + others;
        if mig.id in records {
          RepeatFollows(strategy, mig, others, w, records, end, after);
        } else if mig.up.None? || !Meaning(strategy, true, mig.up.value, w).0.Success?
                  || Meaning(strategy, true, mig.up.value, w).1.phase.Ended? {
          StoppedFollows(strategy, mig, others, w, records);
        } else {
          var w1 := Meaning(strategy, true, mig.up.value, w).1;
          NewId(records, mig.id);
          LoopAppliesPending(strategy, rest, applied, w1, records + [mig.id]);
          NextFollows(strategy, mig, others, w, records, end, after);
        }
      }
    }
  }

  lemma NothingFollows<D(!new)>(strategy: Strategy, pending: seq<Migration<D>>, w: World<D>, records: seq<string>)
    requires pending == [] && Distinct(records)
    ensures Follows(strategy, pending, w, records, Success, WithRecords(w, Some(records)))
  {
    hide Distinct, WithRecords;
    NoIds(pending, records);
    assert pending[..0] == pending;
  }

  /** A pending id that is recorded already: the loop fails, or does not get that far. */
  lemma RepeatFollows<D(!new)>(strategy: Strategy, mig: Migration<D>, others: seq<Migration<D>>, w: World<D>,
                               records: seq<string>, end: Outcome, after: World<Store<D>>)
    requires mig.id in records && !end.Success?
    requires end.Panic? ==> mig.up.Some? && Meaning(strategy, true, mig.up.value, w).0.Panic?
    ensures Follows(strategy, [mig] + others, w, records, end, after)
  {
    hide Distinct, WithRecords, Meaning, Ids;
    HeadApplied(strategy, mig, others, w, records);
    RepeatedId(records, mig.id, Ids(others));
    AppliedAtMost(strategy, [mig] + others, w);
  }

  /** A migration that cannot be applied and recorded: the loop ends where it does. */
  lemma StoppedFollows<D(!new)>(strategy: Strategy, mig: Migration<D>, others: seq<Migration<D>>, w: World<D>,
                                records: seq<string>)
    requires mig.up.Some? ==> !Meaning(strategy, true, mig.up.value, w).0.Success?
                              || Meaning(strategy, true, mig.up.value, w).1.phase.Ended?
    ensures var pending := [mig] + others;
            var (end, w1) := if mig.up.None? then (Failure, w) else Meaning(strategy, true, mig.up.value, w);
            Follows(strategy, pending, w, records, if end.Success? then Failure else end, WithRecords(w1, Some(records)))
  {
    hide Distinct, WithRecords, Meaning, Ids;
    HeadApplied(strategy, mig, others, w, records);
    NoIds(([mig] + others)[..0], records);
  }

  lemma NextFollows<D(!new)>(strategy: Strategy, mig: Migration<D>, others: seq<Migration<D>>, w: World<D>,
                             records: seq<string>, end: Outcome, after: World<Store<D>>)
    requires mig.up.Some? && Meaning(strategy, true, mig.up.value, w).0.Success?
    requires var w1 := Meaning(strategy, true, mig.up.value, w).1;
             w1.phase.Open? && Follows(strategy, others, w1, records + [mig.id], end, after)
    ensures Follows(strategy, [mig] + others, w, records, end, after)
  {
    hide Distinct, WithRecords, Meaning, Ids;
    HeadApplied(strategy, mig, others, w, records);
    var n := ApplyAll(strategy, others, Meaning(strategy, true, mig.up.value, w).1).2;
    assert ([mig] + others)[..n + 1] == [mig] + others[..n];
    HeadId(mig, others[..n], records);
  }

  lemma {:induction false} AppliedAtMost<D(!new)>(strategy: Strategy, migrations: seq<Migration<D>>, w: World<D>)
    ensures var (o, w1, n) := ApplyAll(strategy, migrations, w);
            && n <= |migrations| && (o.Success? ==> n == |migrations|)
            && (o.Success? && w.phase.Open? ==> w1.phase == w.phase)
  {
    if migrations != [] && migrations[0].up.Some? {
      hide Meaning;
      PhaseOrEnded(strategy, true, migrations[0].up.value, w);
      AppliedAtMost(strategy, migrations[1..], Meaning(strategy, true, migrations[0].up.value, w).1);
    }
  }

  lemma NoIds<D(!new)>(migrations: seq<Migration<D>>, records: seq<string>)
    requires migrations == []
    ensures records + Ids(migrations) == records
  {
  }

  lemma HeadApplied<D(!new)>(strategy: Strategy, mig: Migration<D>, others: seq<Migration<D>>, w: World<D>,
                             records: seq<string>)
    ensures records + Ids([mig] + others) == (records + [mig.id]) + Ids(others)
    ensures ApplyAll(strategy, [mig] + others, w) ==
            if mig.up.None? then (Failure, w, 0)
            else
              var (o, w1) := Meaning(strategy, true, mig.up.value, w);
              if !o.Success? then (o, w1, 0)
              else if w1.phase.Ended? then (Failure, w1, 0)
              else
                var (end, w2, n) := ApplyAll(strategy, others, w1);
                (end, w2, n + 1)
  {
    hide Meaning;
    assert ([mig] + others)[0] == mig && ([mig] + others)[1..] == others;
    HeadId(mig, others, records);
  }

  lemma HeadId<D(!new)>(mig: Migration<D>, others: seq<Migration<D>>, records: seq<string>)
    ensures records + Ids([mig] + others) == (records + [mig.id]) + Ids(others)
  {
    assert Ids([mig] + others) == [mig.id] + Ids(others);
  }

  lemma NewId(records: seq<string>, id: string)
    requires Distinct(records) && id !in records
    ensures Distinct(records + [id])
  {
  }

  lemma RepeatedId(records: seq<string>, id: string, others: seq<string>)
    requires id in records
    ensures !Distinct((records + [id]) + others)
  {
    var i :| 0 <= i < |records| && records[i] == id;
    var all := (records + [id]) + others;
    assert all[i] == all[|records|];
  }

  /** What the callback of a run means on a store. */
  lemma CallbackMeans<D(!new)>(cfg: Config, sorted: seq<Migration<D>>, s: Store<D>, driver: Driver)
    ensures Meaning(cfg.Effective(), true, Callback(sorted), driver.Began(s))
            == Loop(cfg.Effective(), sorted, AppliedIn(s), WithRecords(driver.Began(s.data), Some(Records(s))))
  {
    hide ApplyPending, Run, Meaning;
    var w := WithRecords(driver.Began(s.data), Some(Records(s)));
    assert AppliedIn(w.state) == AppliedIn(s);
    MeaningAsked(cfg.Effective(), sorted, {}, sorted, w);
    CallbackBegins(cfg.Effective(), sorted, s, driver);
  }

  lemma CallbackBegins<D(!new)>(strategy: Strategy, sorted: seq<Migration<D>>, s: Store<D>, driver: Driver)
    ensures Meaning(strategy, true, Callback(sorted), driver.Began(s))
            == Meaning(strategy, true, AskApplied(sorted, {}, sorted),
                       WithRecords(driver.Began(s.data), Some(Records(s))))
  {
  }

  lemma {:induction false} MeaningAsked<D(!new)>(strategy: Strategy, asked: seq<Migration<D>>, applied: set<string>,
                                                 migrations: seq<Migration<D>>, w: World<Store<D>>)
    requires forall m :: m in migrations ==>
               (m.id in AppliedIn(w.state) <==> m.id in applied || (m in asked && m.id in AppliedIn(w.state)))
    requires applied <= AppliedIn(w.state) && w.phase.Open?
    ensures Meaning(strategy, true, AskApplied(asked, applied, migrations), w)
            == Loop(strategy, migrations, AppliedIn(w.state), w)
    decreases |asked|
  {
    if asked == [] {
      SameApplied(migrations, applied, AppliedIn(w.state));
    } else {
      var id := asked[0].id;
      assert forall m :: m in asked <==> m == asked[0] || m in asked[1..];
      assert w.(state := w.state) == w;
      MeaningAsked(strategy, asked[1..], if id in Records(w.state) then applied + {id} else applied, migrations, w);
    }
  }

  /** A run succeeds exactly when collecting, beginning, every up function and the commit do, no up function
      has ended the transaction, and no two pending migrations share an id. It has then applied exactly the
      pending migrations, in strictly ascending id order, none of them ever applied before, and recorded
      them. Otherwise it changes nothing, be it that a source, an up function or the commit fails or an up
      function panics, unless an up function has committed by itself: then what was done until that commit
      stays, recorded but for that migration. With distinct ids, it panics exactly when an up function does. */
  lemma RunIsSound<D(!new)>(cfg: Config, s: Store<D>, collected: Option<seq<Migration<D>>>, sorted: seq<Migration<D>>,
                            driver: Driver)
    requires collected.Some? ==> SortedById(sorted) && Permutation(collected.value, sorted)
    requires Distinct(Records(s))
    ensures var (end, s') := RunMeaning(cfg, s, collected, sorted, driver);
            var pending := Pending(sorted, AppliedIn(s));
            var (o, w, n) := ApplyAll(cfg.Effective(), pending, driver.Began(s.data));
            && n <= |pending|
            && (Succeeded(end) <==>
                  collected.Some? && driver.beginOk && driver.commitOk && o.Success? && Distinct(Ids(pending)))
            && (!Succeeded(end) && LeaveOpen(sorted) ==> s' == s)
            && (!Succeeded(end) && Distinct(Ids(pending)) ==>
                  s' == if collected.Some? && driver.beginOk
                        then Kept(s, PhaseWith(w.phase, Some(Records(s) + Ids(pending[..n])))) else s)
            && (Distinct(Ids(pending)) ==>
                  (end == InTransaction(CallbackPanicked) <==> collected.Some? && driver.beginOk && o.Panic?))
            && (Succeeded(end) ==>
                  && s' == Store(w.state, Some(Records(s) + Ids(pending))) && Distinct(Records(s'))
                  && (forall i, j :: 0 <= i < j < |pending| ==> Less(pending[i].id, pending[j].id))
                  && (forall m :: m in collected.value ==> m.id in Records(s')))
  {
    hide Less, Loop, Pending, ApplyAll, SortedById, Permutation, Callback, Meaning;
    var pending := Pending(sorted, AppliedIn(s));
    CallbackMeans(cfg, sorted, s, driver);
    LoopAppliesPending(cfg.Effective(), sorted, AppliedIn(s), driver.Began(s.data), Records(s));
    AppliedAtMost(cfg.Effective(), pending, driver.Began(s.data));
    PendingAreNew(sorted, AppliedIn(s));
    DistinctTogether(Records(s), pending);
    if LeaveOpen(sorted) {
      CallbackLeavesOpen(sorted);
      AllOrNothing(cfg, s, Callback(sorted), driver);
    }
    var (end, s') := RunMeaning(cfg, s, collected, sorted, driver);
    if Succeeded(end) {
      assert pending[..|pending|] == pending;
      Ascending(sorted, AppliedIn(s));
      AllRecorded(collected.value, sorted, Records(s), pending);
    }
  }

  ghost predicate LeadsTo<D(!new)>(strategy: Strategy, mig: Migration<D>, before: World<D>, after: World<D>) {
    mig.up.Some? && after.phase.Open? && Meaning(strategy, true, mig.up.value, before) == (Success, after)
  }

  /** Applying migrations is calling their up functions in turn, each on the world that the one before it has left,
      up to the first that is missing, does not succeed, or ends the transaction. */
  lemma {:induction false} AppliedInTurn<D(!new)>(strategy: Strategy, migrations: seq<Migration<D>>, w: World<D>)
    returns (worlds: seq<World<D>>)
    ensures var (o, w1, n) := ApplyAll(strategy, migrations, w);
            && n <= |migrations| && |worlds| == n + 1 && worlds[0] == w
            && (forall i, j :: 0 <= i < n && j == i + 1 ==> LeadsTo(strategy, migrations[i], worlds[i], worlds[j]))
            && (n == |migrations| ==> (o, w1) == (Success, worlds[n]))
            && (n < |migrations| && migrations[n].up.None? ==> (o, w1) == (Failure, worlds[n]))
            && (n < |migrations| && migrations[n].up.Some? ==>
                  var (end, after) := Meaning(strategy, true, migrations[n].up.value, worlds[n]);
                  w1 == after && (end.Success? ==> o == Failure && after.phase.Ended?) && (!end.Success? ==> o == end))
  {
    hide Meaning;
    worlds := [w];
    if migrations != [] && migrations[0].up.Some? {
      var (o, w1) := Meaning(strategy, true, migrations[0].up.value, w);
      if o.Success? && w1.phase.Open? {
        var rest := AppliedInTurn(strategy, migrations[1..], w1);
        worlds := [w] + rest;
      }
    }
  }

  /** How a run ends, case by case, when no two pending migrations share an id. */
  lemma RunEnds<D(!new)>(cfg: Config, s: Store<D>, collected: Option<seq<Migration<D>>>, sorted: seq<Migration<D>>,
                         driver: Driver)
    requires Distinct(Records(s)) && Distinct(Ids(Pending(sorted, AppliedIn(s))))
    ensures var o := ApplyAll(cfg.Effective(), Pending(sorted, AppliedIn(s)), driver.Began(s.data)).0;
            RunMeaning(cfg, s, collected, sorted, driver).0
            == if collected.None? then CollectFailed
               else InTransaction(if !driver.beginOk then BeginFailed
                                  else if o.Panic? then CallbackPanicked
                                  else if o.Failure? then CallbackFailed
                                  else if driver.commitOk then Committed else CommitFailed)
  {
    hide Loop, Pending, ApplyAll, Callback, Meaning;
    var pending := Pending(sorted, AppliedIn(s));
    CallbackMeans(cfg, sorted, s, driver);
    LoopAppliesPending(cfg.Effective(), sorted, AppliedIn(s), driver.Began(s.data), Records(s));
    AppliedAtMost(cfg.Effective(), pending, driver.Began(s.data));
    PendingAreNew(sorted, AppliedIn(s));
    DistinctTogether(Records(s), pending);
  }

  lemma CallbackLeavesOpen<D(!new)>(sorted: seq<Migration<D>>)
    requires LeaveOpen(sorted)
    ensures LeavesOuterOpen(Callback(sorted))
  {
    AskAppliedLeavesOpen(sorted, {}, sorted);
  }

  lemma Ascending<D(!new)>(sorted: seq<Migration<D>>, applied: set<string>)
    requires SortedById(sorted) && Distinct(Ids(Pending(sorted, applied)))
    ensures var pending := Pending(sorted, applied);
            forall i, j :: 0 <= i < j < |pending| ==> Less(pending[i].id, pending[j].id)
  {
    hide Less, Pending;
    PendingSorted(sorted, applied);
    var pending := Pending(sorted, applied);
    forall i, j | 0 <= i < j < |pending|
      ensures Less(pending[i].id, pending[j].id)
    {
      assert Ids(pending)[i] != Ids(pending)[j];
      LessIsTotal(pending[i].id, pending[j].id);
    }
  }

  lemma AllRecorded<D(!new)>(collected: seq<Migration<D>>, sorted: seq<Migration<D>>, records: seq<string>,
                       pending: seq<Migration<D>>)
    requires Permutation(collected, sorted)
    requires forall m :: m in pending <==> m in sorted && m.id !in records
    ensures forall m :: m in collected ==> m.id in records + Ids(pending)
  {
    forall m | m in collected
      ensures m.id in records + Ids(pending)
    {
      assert m in multiset(sorted);
      if m.id !in records {
        var i :| 0 <= i < |pending| && pending[i] == m;
        assert Ids(pending)[i] == m.id;
        assert (records + Ids(pending))[|records| + i] == m.id;
      }
    }
  }

  lemma DistinctTogether<D(!new)>(records: seq<string>, pending: seq<Migration<D>>)
    requires Distinct(records) && forall m :: m in pending ==> m.id !in records
    ensures Distinct(records + Ids(pending)) <==> Distinct(Ids(pending))
  {
    var ids, all := Ids(pending), records + Ids(pending);
    forall i | 0 <= i < |ids|
      ensures ids[i] == all[|records| + i] && ids[i] !in records
    {
      assert pending[i] in pending;
    }
    if Distinct(ids) {
      forall i, j | 0 <= i < j < |all|
        ensures all[i] != all[j]
      {
        if i >= |records| {
          assert ids[i - |records|] != ids[j - |records|];
        } else if j >= |records| {
          assert all[i] in records && ids[j - |records|] !in records;
        }
      }
    }
    if Distinct(all) {
      forall i, j | 0 <= i < j < |ids|
        ensures ids[i] != ids[j]
      {
        assert all[|records| + i] != all[|records| + j];
      }
    }
  }

  /** Running the same migrations again after a success applies nothing. */
  lemma RepeatAppliesNothing<D(!new)>(cfg: Config, s: Store<D>, collected: seq<Migration<D>>, sorted: seq<Migration<D>>,
                                again: seq<Migration<D>>)
    requires SortedById(sorted) && Permutation(collected, sorted) && SortedById(again) && Permutation(collected, again)
    requires Distinct(Records(s)) && Succeeded(RunMeaning(cfg, s, Some(collected), sorted, WORKING).0)
    ensures var s' := RunMeaning(cfg, s, Some(collected), sorted, WORKING).1;
            RunMeaning(cfg, s', Some(collected), again, WORKING) == (InTransaction(Committed), s')
  {
    hide RunMeaning, ApplyAll, SortedById, Pending, Less;
    RunIsSound(cfg, s, Some(collected), sorted, WORKING);
    var s' := RunMeaning(cfg, s, Some(collected), sorted, WORKING).1;
    RunIsSound(cfg, s', Some(collected), again, WORKING);
    var pending := Pending(again, AppliedIn(s'));
    PendingAreNew(again, AppliedIn(s'));
    forall m
      ensures m !in pending
    {
      assert m in again <==> m in multiset(again);
      assert m in collected <==> m in multiset(collected);
    }
    NonePending(cfg.Effective(), pending, WORKING.Began(s'.data));
    assert Records(s') + Ids(pending) == Records(s');
  }

  const WORKING := Driver(true, true, true)

  lemma HeadIsMember<D(!new)>(pending: seq<Migration<D>>)
    ensures pending != [] ==> pending[0] in pending
  {
  }

  lemma NonePending<D(!new)>(strategy: Strategy, pending: seq<Migration<D>>, w: World<D>)
    requires forall m :: m !in pending
    ensures pending == [] && ApplyAll(strategy, pending, w) == (Success, w, 0) && Distinct(Ids(pending))
  {
    HeadIsMember(pending);
  }

  /** An up function that changes the data and commits by itself. */
  function SelfCommitting<D(!new)>(f: D -> D): Prog<D> {
    Exec((data: D) => (f(data), true), Finish(true, Return(Success), Return(Failure)), Return(Failure), Return(Failure))
  }

  /** A migration with it is never recorded, and applied again by every run; each run fails. */
  lemma SelfCommitIsRepeated<D(!new)>(cfg: Config, id: string, f: D -> D, s: Store<D>)
    requires s.records.Some? && Distinct(s.records.value) && id !in s.records.value
    ensures var sorted := [Migration(id, Some(SelfCommitting(f)))];
            RunMeaning(cfg, s, Some(sorted), sorted, WORKING) == (InTransaction(CallbackFailed), s.(data := f(s.data)))
  {
    hide Loop, Less;
    var mig := Migration(id, Some(SelfCommitting(f)));
    SelfCommits(cfg.Effective(), f, WORKING.Began(s.data));
    CallbackMeans(cfg, [mig], s, WORKING);
    LoopUnrolled(cfg.Effective(), [mig], AppliedIn(s), WORKING.Began(s.data), s.records.value);
  }

  lemma SelfCommits<D(!new)>(strategy: Strategy, f: D -> D, w: World<D>)
    requires w.phase == Open(true, true)
    ensures Meaning(strategy, true, SelfCommitting(f), w) == (Success, World(f(w.state), Ended(Some(f(w.state)))))
  {
    var done: Prog<D> := Return(Success);
    var failed: Prog<D> := Return(Failure);
    var kept := World(f(w.state), Ended(Some(f(w.state))));
    assert Meaning(strategy, true, done, kept) == (Success, kept);
    assert Meaning(strategy, true, Finish(true, done, failed), w.(state := f(w.state))) == (Success, kept);
  }

  // ---- Any sequence of runs ---------------------------------------------------------------

  /** One call of Run: what was collected, how it got sorted, and how the driver behaved. */
  datatype Attempt<!D> = Attempt(collected: Option<seq<Migration<D>>>, sorted: seq<Migration<D>>, driver: Driver)

  ghost predicate Proper<D(!new)>(attempts: seq<Attempt<D>>) {
    forall a :: a in attempts ==>
      && LeaveOpen(a.sorted)
      && (a.collected.Some? ==> SortedById(a.sorted) && Permutation(a.collected.value, a.sorted))
  }

  /** The store after all attempts, and the migrations whose effects are in it, in order. */
  function AfterAll<D(!new)>(cfg: Config, s: Store<D>, attempts: seq<Attempt<D>>): (Store<D>, seq<Migration<D>>)
    decreases |attempts|
  {
    if attempts == [] then (s, [])
    else
      var a := attempts[0];
      var (end, s1) := RunMeaning(cfg, s, a.collected, a.sorted, a.driver);
      var kept := if Succeeded(end) then Pending(a.sorted, AppliedIn(s)) else [];
      var (s2, others) := AfterAll(cfg, s1, attempts[1..]);
      (s2, kept + others)
  }

  /** All of them succeed and turn one state of the data into the other, with any driver. */
  ghost predicate Applies<D(!new)>(strategy: Strategy, migrations: seq<Migration<D>>, before: D, after: D) {
    forall phase: Phase<D> :: phase.Open? ==>
      ApplyAll(strategy, migrations, World(before, phase)) == (Success, World(after, phase), |migrations|)
  }

  /** Up functions that leave the transaction open do the same with any driver. */
  lemma {:induction false} ApplyAllSame<D(!new)>(strategy: Strategy, migrations: seq<Migration<D>>, w: World<D>,
                                                 phase: Phase<D>)
    requires LeaveOpen(migrations) && w.phase.Open? && phase.Open?
    ensures var (o, w1, n) := ApplyAll(strategy, migrations, w);
            && w1.phase == w.phase && (o.Success? ==> n == |migrations|)
            && ApplyAll(strategy, migrations, w.(phase := phase)) == (o, w1.(phase := phase), n)
  {
    if migrations != [] && migrations[0].up.Some? {
      hide Meaning, LeavesOuterOpen;
      var up := migrations[0].up.value;
      assert migrations[0] in migrations;
      StaysOpen(strategy, true, up, w);
      SameMeaning(strategy, true, up, w, phase);
      ApplyAllSame(strategy, migrations[1..], Meaning(strategy, true, up, w).1, phase);
    }
  }

  lemma {:induction false} ApplyAllAppend<D(!new)>(strategy: Strategy, a: seq<Migration<D>>, b: seq<Migration<D>>,
                                                   w: World<D>)
    requires ApplyAll(strategy, a, w).0.Success?
    ensures var (_, w1, n) := ApplyAll(strategy, a, w);
            var (o, w2, k) := ApplyAll(strategy, b, w1);
            ApplyAll(strategy, a + b, w) == (o, w2, n + k)
  {
    if a == [] {
      assert a + b == b;
    } else {
      hide Meaning;
      assert (a + b)[1..] == a[1..] + b;
      ApplyAllAppend(strategy, a[1..], b, Meaning(strategy, true, a[0].up.value, w).1);
    }
  }

  lemma AppliesBoth<D(!new)>(strategy: Strategy, a: seq<Migration<D>>, b: seq<Migration<D>>, before: D, mid: D, after: D)
    requires Applies(strategy, a, before, mid) && Applies(strategy, b, mid, after)
    ensures Applies(strategy, a + b, before, after)
  {
    hide ApplyAll;
    forall phase: Phase<D> | phase.Open?
      ensures ApplyAll(strategy, a + b, World(before, phase)) == (Success, World(after, phase), |a + b|)
    {
      ApplyAllAppend(strategy, a, b, World(before, phase));
    }
  }

  /** What one attempt keeps: its pending migrations, applied, or nothing. */
  lemma AttemptKeeps<D(!new)>(cfg: Config, s: Store<D>, a: Attempt<D>)
    requires Proper([a]) && Distinct(Records(s))
    ensures var (end, s1) := RunMeaning(cfg, s, a.collected, a.sorted, a.driver);
            var kept := if Succeeded(end) then Pending(a.sorted, AppliedIn(s)) else [];
            && Applies(cfg.Effective(), kept, s.data, s1.data)
            && Records(s1) == Records(s) + Ids(kept) && Distinct(Records(s1))
  {
    hide RunMeaning, Pending, ApplyAll, SortedById, Permutation, Less, Ids, Distinct, LeaveOpen;
    assert a in [a];
    RunIsSound(cfg, s, a.collected, a.sorted, a.driver);
    var (end, s1) := RunMeaning(cfg, s, a.collected, a.sorted, a.driver);
    if Succeeded(end) {
      var pending := Pending(a.sorted, AppliedIn(s));
      PendingAreNew(a.sorted, AppliedIn(s));
      LeaveOpenPart(pending, a.sorted);
      forall phase: Phase<D> | phase.Open?
        ensures ApplyAll(cfg.Effective(), pending, World(s.data, phase)) == (Success, World(s1.data, phase), |pending|)
      {
        ApplyAllSame(cfg.Effective(), pending, a.driver.Began(s.data), phase);
      }
    } else {
      NothingApplied<D>(cfg.Effective(), s.data);
      NoIds<D>([], Records(s));
    }
  }

  lemma LeaveOpenPart<D(!new)>(part: seq<Migration<D>>, migrations: seq<Migration<D>>)
    requires LeaveOpen(migrations) && forall m :: m in part ==> m in migrations
    ensures LeaveOpen(part)
  {
  }

  /** Over any sequence of successful, failing and panicking runs whose up functions leave the transaction open,
      the data is the result of the kept migrations applied once each, in the order recorded, and no id is
      ever kept twice. */
  lemma {:induction false} EachKeptOnce<D(!new)>(cfg: Config, s: Store<D>, attempts: seq<Attempt<D>>)
    requires Proper(attempts) && Distinct(Records(s))
    ensures var (s', kept) := AfterAll(cfg, s, attempts);
            && Applies(cfg.Effective(), kept, s.data, s'.data)
            && Records(s') == Records(s) + Ids(kept)
            && Distinct(Records(s'))
    decreases |attempts|
  {
    hide RunMeaning, Pending, ApplyAll, SortedById, Permutation, Records, Less, Ids, Distinct, AppliedIn, Applies,
         LeaveOpen;
    if attempts == [] {
      NothingApplied<D>(cfg.Effective(), s.data);
      NoIds<D>([], Records(s));
    } else {
      var a := attempts[0];
      assert a in attempts;
      AttemptKeeps(cfg, s, a);
      var (end, s1) := RunMeaning(cfg, s, a.collected, a.sorted, a.driver);
      var kept := if Succeeded(end) then Pending(a.sorted, AppliedIn(s)) else [];
      EachKeptOnce(cfg, s1, attempts[1..]);
      var (s2, others) := AfterAll(cfg, s1, attempts[1..]);
      AppliesBoth(cfg.Effective(), kept, others, s.data, s1.data, s2.data);
      IdsAppend(Records(s), kept, others);
    }
  }

  lemma IdsAppend<D(!new)>(records: seq<string>, a: seq<Migration<D>>, b: seq<Migration<D>>)
    ensures records + Ids(a + b) == (records + Ids(a)) + Ids(b)
  {
    assert Ids(a + b) == Ids(a) + Ids(b);
  }

  lemma NothingApplied<D(!new)>(strategy: Strategy, data: D)
    ensures Applies(strategy, [], data, data)
  {
  }
}
