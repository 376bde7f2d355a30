/** With a question-mark dialect, the question marks of a statement against the arguments returned
    with it, for any nesting of builders. */
module SqlCounting {
  import opened SqlHoles
  import opened SqlBuilder

  /** The builder and all the builders inside it write question marks. */
  predicate AllQuestion(q: Query)
    decreases q
  {
    q.dialect == Question && forall i :: 0 <= i < |q.args| && q.args[i].Sub? ==> AllQuestion(q.args[i].query)
  }

  /** Question marks in the clauses that take no arguments. */
  function OwnStrays(q: Query): nat {
    match q.operation
    case Select => Holes(SelectHead(q)) + Holes(SelectTail(q))
    case Insert => Holes(q.table) + AllHoles(Names(q.values))
    case Update => Holes(q.table) + AllHoles(Names(q.values))
    case Delete => Holes(q.table)
  }

  /** Those of the statement and of the subqueries its conditions use. */
  function Strays(q: Query): nat
    decreases q, 1, 0
  {
    OwnStrays(q) + if q.operation == Insert then 0 else SumStrays(q, AllHoles(q.where))
  }

  function SumStrays(q: Query, n: nat): nat
    decreases q, 0, n
  {
    if n == 0 then 0
    else SumStrays(q, n - 1)
         + if n <= |q.args| && q.args[n - 1].Sub? then Strays(q.args[n - 1].query) else 0
  }

  /** How many more question marks than values an argument brings. */
  function StrayOf(f: Flat): int {
    Holes(Filler(Question, f, 0)) - |ValuesOf(f)|
  }

  function TotalStray(flats: seq<Flat>): int {
    if flats == [] then 0 else StrayOf(flats[0]) + TotalStray(flats[1..])
  }

  // ---- Counting pieces --------------------------------------------------------------------

  lemma {:induction false} JoinCounts(parts: seq<string>, sep: string)
    requires Holes(sep) == 0
    ensures Holes(Join(parts, sep)) == AllHoles(parts)
  {
    if |parts| > 1 {
      JoinCounts(parts[1..], sep);
      HolesConcat(parts[0] + sep, Join(parts[1..], sep));
      HolesConcat(parts[0], sep);
    } else if |parts| == 1 {
      assert parts[1..] == [];
    }
  }

  lemma {:induction false} MarksCount(texts: seq<string>)
    requires forall i :: 0 <= i < |texts| ==> texts[i] == "?"
    ensures AllHoles(texts) == |texts|
  {
    if texts != [] {
      assert Holes("?") == 1;
      MarksCount(texts[1..]);
    }
  }

  lemma {:induction false} AllHolesAppend(a: seq<string>, b: seq<string>)
    ensures AllHoles(a + b) == AllHoles(a) + AllHoles(b)
  {
    if a == [] {
      assert a + b == b;
    } else {
      AllHolesAppend(a[1..], b);
      assert (a + b)[1..] == a[1..] + b;
    }
  }

  lemma {:induction false} StraySplit(a: seq<Flat>, b: seq<Flat>)
    ensures TotalStray(a + b) == TotalStray(a) + TotalStray(b)
  {
    hide StrayOf;
    if a == [] {
      assert a + b == b;
    } else {
      StraySplit(a[1..], b);
      assert (a + b)[1..] == a[1..] + b;
    }
  }

  lemma Between(a: string, s: string, b: string)
    requires Holes(a) == 0 && Holes(b) == 0
    ensures Holes(a + s + b) == Holes(s)
  {
    HolesConcat(a + s, b);
    HolesConcat(a, s);
  }

  lemma NoMarks(s: string)
    requires forall i :: 0 <= i < |s| ==> s[i] != '?'
    ensures Holes(s) == 0
  {
  }

  lemma SliceCounts(vs: seq<Value>)
    ensures StrayOf(Many(vs)) == 0
  {
    if vs == [] {
      NoMarks("(NULL)");
    } else {
      var marks := SliceMarks(Question, 0, |vs|);
      NoMarks(", ");
      JoinCounts(marks, ", ");
      MarksCount(marks);
      Between("(", Join(marks, ", "), ")");
    }
  }

  lemma SubqueryCounts(sql: string, vals: seq<Value>)
    ensures StrayOf(Text(sql, vals)) == Holes(sql) - |vals|
  {
    Between("(", sql, ")");
  }

  /** The marks written do not depend on what was collected before. */
  lemma FillerAnywhere(f: Flat, offset: nat)
    ensures Filler(Question, f, offset) == Filler(Question, f, 0)
  {
    if f.Many? {
      assert SliceMarks(Question, offset, |f.vs|) == SliceMarks(Question, 0, |f.vs|);
    }
  }

  // ---- Counting conditions ----------------------------------------------------------------

  lemma StrayHead(f: Flat, offset: nat)
    ensures Holes(Filler(Question, f, offset)) == |ValuesOf(f)| + StrayOf(f)
  {
    hide Holes, Filler;
    FillerAnywhere(f, offset);
  }

  lemma FillersHead(flats: seq<Flat>, offset: nat)
    requires flats != []
    ensures TotalHoles(Fillers(Question, flats, offset))
            == Holes(Filler(Question, flats[0], offset))
               + TotalHoles(Fillers(Question, flats[1..], offset + |ValuesOf(flats[0])|))
  {
    hide Filler, ValuesOf, Holes;
    var texts := Fillers(Question, flats, offset);
    assert texts[1..] == Fillers(Question, flats[1..], offset + |ValuesOf(flats[0])|);
  }

  lemma ArgumentsHead(flats: seq<Flat>)
    requires flats != []
    ensures |AllValues(flats)| == |ValuesOf(flats[0])| + |AllValues(flats[1..])|
    ensures TotalStray(flats) == StrayOf(flats[0]) + TotalStray(flats[1..])
  {
    hide StrayOf, ValuesOf;
  }

  lemma NothingFilled(offset: nat)
    ensures TotalHoles(Fillers(Question, [], offset)) == |AllValues([])| + TotalStray([])
  {
  }

  lemma {:induction false} FillersCount(flats: seq<Flat>, offset: nat)
    ensures TotalHoles(Fillers(Question, flats, offset)) == |AllValues(flats)| + TotalStray(flats)
  {
    hide Filler, ValuesOf, Holes, StrayOf, Fillers, TotalHoles, AllValues, TotalStray;
    if flats == [] {
      NothingFilled(offset);
    } else {
      ArgumentsHead(flats);
      StrayHead(flats[0], offset);
      FillersHead(flats, offset);
      FillersCount(flats[1..], offset + |ValuesOf(flats[0])|);
    }
  }

  lemma {:induction false} ConditionsCount(where: seq<string>, flats: seq<Flat>, offset: nat)
    requires Conditions(Question, where, flats, offset).Ok?
    ensures AllHoles(where) <= |flats|
    ensures var (parts, vals) := Conditions(Question, where, flats, offset).value;
            AllHoles(parts) == |vals| + TotalStray(flats[..AllHoles(where)])
    decreases |where|
  {
    hide FillInTurn, Holes, Fillers, FirstBad, AllValues, TotalStray;
    if where != [] {
      var n := Holes(where[0]);
      var used, later := flats[..n], offset + |AllValues(flats[..n])|;
      FillersCount(used, offset);
      FillCounts(where[0], Fillers(Question, used, offset));
      ConditionsCount(where[1..], flats[n..], later);
      var rest := AllHoles(where[1..]);
      StraySplit(used, flats[n..][..rest]);
      assert used + flats[n..][..rest] == flats[..n + rest];
      AllHolesAppend([FillInTurn(where[0], Fillers(Question, used, offset))],
                     Conditions(Question, where[1..], flats[n..], later).value.0);
      OneText(FillInTurn(where[0], Fillers(Question, used, offset)));
    } else {
      NothingCounts();
    }
  }

  lemma NothingCounts()
    ensures AllHoles([]) == 0 && TotalStray([]) == 0
  {
  }

  // ---- Counting statements ----------------------------------------------------------------

  lemma ClauseCounts(q: Query)
    requires q.dialect == Question && WhereClause(q.dialect, q.where, Flats(q)).Ok?
    ensures AllHoles(q.where) <= |q.args|
    ensures var (text, vals) := WhereClause(q.dialect, q.where, Flats(q)).value;
            Holes(text) == |vals| + TotalStray(Flats(q)[..AllHoles(q.where)])
  {
    hide Conditions, AllHoles, TotalStray, Join;
    ConditionsCount(q.where, Flats(q), 0);
    NoMarks(" AND ");
    JoinCounts(Conditions(q.dialect, q.where, Flats(q), 0).value.0, " AND ");
  }

  lemma {:induction false} SumOfStrays(q: Query, n: nat)
    requires n <= |q.args|
    requires forall i :: 0 <= i < n && !Flats(q)[i].Bad? ==>
               StrayOf(Flats(q)[i]) == if q.args[i].Sub? then Strays(q.args[i].query) else 0
    requires forall i :: 0 <= i < n ==> !Flats(q)[i].Bad?
    ensures TotalStray(Flats(q)[..n]) == SumStrays(q, n)
  {
    hide Strays, StrayOf, Flatten;
    if n > 0 {
      SumOfStrays(q, n - 1);
      StraySplit(Flats(q)[..n - 1], [Flats(q)[n - 1]]);
      assert Flats(q)[..n - 1] + [Flats(q)[n - 1]] == Flats(q)[..n];
      assert [Flats(q)[n - 1]][1..] == [];
    }
  }

  /** A rendered clause has used no argument that failed. */
  lemma {:induction false} UsedAreGood(d: Dialect, where: seq<string>, flats: seq<Flat>, offset: nat)
    requires Conditions(d, where, flats, offset).Ok?
    ensures AllHoles(where) <= |flats|
    ensures forall i :: 0 <= i < AllHoles(where) ==> !flats[i].Bad?
    decreases |where|
  {
    hide FillInTurn, Holes, Fillers, AllValues;
    if where != [] {
      var n := Holes(where[0]);
      NoneBad(flats[..n]);
      UsedAreGood(d, where[1..], flats[n..], offset + |AllValues(flats[..n])|);
      GoodTogether(flats, n, AllHoles(where[1..]));
    }
  }

  lemma GoodTogether(flats: seq<Flat>, n: nat, m: nat)
    requires n + m <= |flats| && forall i :: 0 <= i < n ==> !flats[..n][i].Bad?
    requires forall i :: 0 <= i < m ==> !flats[n..][i].Bad?
    ensures forall i :: 0 <= i < n + m ==> !flats[i].Bad?
  {
    assert forall i :: 0 <= i < n ==> flats[i] == flats[..n][i];
    assert forall i :: n <= i < n + m ==> flats[i] == flats[n..][i - n];
  }

  lemma {:induction false} NoneBad(flats: seq<Flat>)
    requires FirstBad(flats).None?
    ensures forall i :: 0 <= i < |flats| ==> !flats[i].Bad?
  {
    if flats != [] {
      NoneBad(flats[1..]);
    }
  }

  lemma SelectCounts(q: Query, clause: Rendered)
    requires clause.Ok?
    ensures Holes(SelectSql(q, clause).value.0) == Holes(SelectHead(q)) + Holes(SelectTail(q)) + Holes(clause.value.0)
  {
    hide SelectHead, SelectTail, Holes;
    var text := clause.value.0;
    NoMarks("");
    NoMarks(" WHERE ");
    HolesConcat(" WHERE ", text);
    HolesConcat(SelectHead(q) + Clause(" WHERE ", text), SelectTail(q));
    HolesConcat(SelectHead(q), Clause(" WHERE ", text));
  }

  lemma Glued(a: string, b: string, c: string, d: string)
    ensures Holes(a + b + c + d) == Holes(a) + Holes(b) + Holes(c) + Holes(d)
  {
    hide Holes;
    HolesConcat(a, b);
    HolesConcat(a + b, c);
    HolesConcat(a + b + c, d);
  }

  lemma FixedText()
    ensures Holes("DELETE FROM ") == 0 && Holes(" WHERE ") == 0 && Holes("UPDATE ") == 0 && Holes(" SET ") == 0
    ensures Holes("INSERT INTO ") == 0 && Holes(" (") == 0 && Holes(") VALUES (") == 0 && Holes(")") == 0
    ensures Holes(", ") == 0
  {
    hide Holes;
    NoMarks("DELETE FROM ");
    NoMarks(" WHERE ");
    NoMarks("UPDATE ");
    NoMarks(" SET ");
    NoMarks("INSERT INTO ");
    NoMarks(" (");
    NoMarks(") VALUES (");
    NoMarks(")");
    NoMarks(", ");
  }

  lemma OneMark()
    ensures Holes("?") == 1
  {
  }

  lemma DeleteCounts(q: Query, clause: Rendered)
    requires DeleteSql(q, clause).Ok?
    ensures Holes(DeleteSql(q, clause).value.0) == Holes(q.table) + Holes(clause.value.0)
  {
    hide Holes;
    FixedText();
    Glued("DELETE FROM ", q.table, " WHERE ", clause.value.0);
  }

  lemma InsertCounts(q: Query)
    requires q.dialect == Question && InsertSql(q).Ok?
    ensures Holes(InsertSql(q).value.0) == Holes(q.table) + AllHoles(Names(q.values)) + |q.values|
  {
    hide Holes, Join, Names, AllHoles;
    FixedText();
    var names, marks := Join(Names(q.values), ", "), Join(Marks(q.dialect, |q.values|), ", ");
    JoinCounts(Names(q.values), ", ");
    JoinCounts(Marks(q.dialect, |q.values|), ", ");
    MarksCount(Marks(q.dialect, |q.values|));
    var head := "INSERT INTO " + q.table + " (" + names;
    Glued("INSERT INTO ", q.table, " (", names);
    Glued(head, ") VALUES (", marks, ")");
  }

  lemma AssignmentsFront(values: seq<Column>)
    requires values != []
    ensures var front, last := values[..|values| - 1], values[|values| - 1];
            && Assignments(Question, values) == Assignments(Question, front) + [last.name + " = " + "?"]
            && Names(values) == Names(front) + [last.name]
  {
  }

  lemma {:induction false} AssignmentsCount(values: seq<Column>)
    ensures AllHoles(Assignments(Question, values)) == AllHoles(Names(values)) + |values|
  {
    if values != [] {
      hide Holes, AllHoles, Assignments, Names;
      var front, last := values[..|values| - 1], values[|values| - 1];
      AssignmentsCount(front);
      AssignmentsFront(values);
      AllHolesAppend(Assignments(Question, front), [last.name + " = " + "?"]);
      AllHolesAppend(Names(front), [last.name]);
      NoMarks(" = ");
      OneMark();
      HolesConcat(last.name, " = ");
      HolesConcat(last.name + " = ", "?");
      OneText(last.name);
      OneText(last.name + " = " + "?");
    }
  }

  lemma OneText(s: string)
    ensures AllHoles([s]) == Holes(s)
  {
    assert [s][1..] == [];
  }

  lemma UpdateCounts(q: Query, clause: Rendered)
    requires q.dialect == Question && UpdateSql(q, clause).Ok?
    ensures Holes(UpdateSql(q, clause).value.0)
            == Holes(q.table) + AllHoles(Names(q.values)) + |q.values| + Holes(clause.value.0)
  {
    hide Holes, Join, Names, AllHoles, Assignments;
    FixedText();
    var sets := Join(Assignments(q.dialect, q.values), ", ");
    AssignmentsCount(q.values);
    JoinCounts(Assignments(q.dialect, q.values), ", ");
    var head := "UPDATE " + q.table + " SET " + sets;
    Glued("UPDATE ", q.table, " SET ", sets);
    HolesConcat(head, " WHERE ");
    HolesConcat(head + " WHERE ", clause.value.0);
  }

  /** For any nesting of builders, a rendered statement has as many question marks as values, plus those
      written in clauses that take no arguments. */
  lemma {:induction false} MarksMatchValues(q: Query)
    requires AllQuestion(q) && ToSql(q).Ok?
    ensures var (sql, vals) := ToSql(q).value; Holes(sql) == |vals| + Strays(q)
    decreases q
  {
    hide SelectSql, DeleteSql, UpdateSql, InsertSql, WhereClause, StrayOf, TotalStray, SumStrays, OwnStrays, AllHoles;
    if q.operation == Insert {
      InsertMatches(q);
    } else {
      StatementCounts(q);
      ClauseCounts(q);
      var n := AllHoles(q.where);
      ClauseUsesGood(q);
      forall i | 0 <= i < n && !Flats(q)[i].Bad?
        ensures StrayOf(Flats(q)[i]) == if q.args[i].Sub? then Strays(q.args[i].query) else 0
      {
        ArgumentCounts(q, i);
      }
      SumOfStrays(q, n);
    }
  }

  lemma ClauseUsesGood(q: Query)
    requires WhereClause(q.dialect, q.where, Flats(q)).Ok?
    ensures AllHoles(q.where) <= |q.args|
    ensures forall i :: 0 <= i < AllHoles(q.where) ==> !Flats(q)[i].Bad?
  {
    hide Conditions, AllHoles;
    UsedAreGood(q.dialect, q.where, Flats(q), 0);
  }

  lemma ArgumentCounts(q: Query, i: nat)
    requires AllQuestion(q) && i < |q.args| && !Flatten(q.args[i]).Bad?
    ensures StrayOf(Flatten(q.args[i])) == if q.args[i].Sub? then Strays(q.args[i].query) else 0
    decreases q, 0
  {
    hide Strays, ToSql;
    match q.args[i]
    case Scalar(v) =>
      OneMark();
    case Slice(vs) =>
      SliceCounts(vs);
    case Sub(sub) =>
      MarksMatchValues(sub);
      SubqueryCounts(ToSql(sub).value.0, ToSql(sub).value.1);
  }

  lemma InsertMatches(q: Query)
    requires q.dialect == Question && q.operation == Insert && ToSql(q).Ok?
    ensures var (sql, vals) := ToSql(q).value; Holes(sql) == |vals| + Strays(q)
  {
    hide Holes, AllHoles;
    InsertCounts(q);
  }

  lemma ClauseIsOk(q: Query)
    requires q.operation != Insert && ToSql(q).Ok?
    ensures WhereClause(q.dialect, q.where, Flats(q)).Ok?
  {
    hide WhereClause;
  }

  lemma StatementCounts(q: Query)
    requires q.dialect == Question && q.operation != Insert && ToSql(q).Ok?
    ensures WhereClause(q.dialect, q.where, Flats(q)).Ok?
    ensures var (text, vals) := WhereClause(q.dialect, q.where, Flats(q)).value;
            Holes(ToSql(q).value.0) - |ToSql(q).value.1| == OwnStrays(q) + Holes(text) - |vals|
  {
    hide WhereClause, SelectHead, SelectTail, Holes, AllHoles;
    ClauseIsOk(q);
    var clause := WhereClause(q.dialect, q.where, Flats(q));
    match q.operation
    case Select => SelectCounts(q, clause);
    case Update => UpdateCounts(q, clause);
    case Delete => DeleteCounts(q, clause);
    case Insert =>
  }
}
