/** The query builder: what it holds, the statement and arguments it renders, and the number of
    question marks in that statement. */
module SqlBuilder {
  import opened Wrappers
  import opened Decimal
  import opened SqlHoles

  /** Any value bound to a placeholder; only its identity matters here. */
  type Value = int

  /** MySQL, SQLite and the generic dialect write a question mark, PostgreSQL $1, $2 and so on. */
  datatype Dialect = Question | Numbered

  function Placeholder(d: Dialect, index: nat): string {
    match d
    case Question => "?"
    case Numbered => "$" + Numeral(index + 1)
  }

  datatype Operation = Select | Insert | Update | Delete

  /** An argument of Where: a slice, another builder, or anything else. */
  datatype Arg = Scalar(v: Value) | Slice(vs: seq<Value>) | Sub(query: Query)

  datatype Column = Column(name: string, value: Value)

  /** A builder. `values` are the columns and values taken from the data of an INSERT or UPDATE. */
  datatype Query = Query(
    dialect: Dialect, operation: Operation, table: string, columns: seq<string>, joins: seq<string>,
    where: seq<string>, args: seq<Arg>, groupBy: seq<string>, having: string, orderBy: seq<string>,
    limit: Option<int>, offset: Option<int>, values: seq<Column>)

  datatype SqlError = NoTable | NoValues | UnsafeWithoutWhere | MissingArgument | InSubquery(cause: SqlError)

  type Rendered = Result<(string, seq<Value>), SqlError>

  function Join(parts: seq<string>, sep: string): string {
    if parts == [] then "" else if |parts| == 1 then parts[0] else parts[0] + sep + Join(parts[1..], sep)
  }

  // ---- WHERE ------------------------------------------------------------------------------

  /** An argument with its subquery rendered. */
  datatype Flat = One(v: Value) | Many(vs: seq<Value>) | Text(sql: string, vals: seq<Value>) | Bad(error: SqlError)

  /** The placeholders of a slice. The loop that writes them counts its own steps on top of the values
      it has already collected, so with numbers every other one is skipped. */
  function SliceMarks(d: Dialect, offset: nat, n: nat): seq<string> {
    seq(n, j requires 0 <= j => Placeholder(d, offset + 2 * j))
  }

  /** What is written for an argument when `offset` values have been collected before it. */
  function Filler(d: Dialect, f: Flat, offset: nat): string {
    match f
    case One(_) => Placeholder(d, offset)
    case Many(vs) => if vs == [] then "(NULL)" else "(" + Join(SliceMarks(d, offset, |vs|), ", ") + ")"
    case Text(sql, _) => "(" + sql + ")"
    case Bad(_) => ""
  }

  function ValuesOf(f: Flat): seq<Value> {
    match f
    case One(v) => [v]
    case Many(vs) => vs
    case Text(_, vals) => vals
    case Bad(_) => []
  }

  function AllValues(flats: seq<Flat>): seq<Value> {
    if flats == [] then [] else ValuesOf(flats[0]) + AllValues(flats[1..])
  }

  function Fillers(d: Dialect, flats: seq<Flat>, offset: nat): (texts: seq<string>)
    ensures |texts| == |flats|
  {
    if flats == [] then []
    else [Filler(d, flats[0], offset)] + Fillers(d, flats[1..], offset + |ValuesOf(flats[0])|)
  }

  /** The first argument that could not be rendered. */
  function FirstBad(flats: seq<Flat>): Option<SqlError> {
    if flats == [] then None else if flats[0].Bad? then Some(InSubquery(flats[0].error)) else FirstBad(flats[1..])
  }

  function AllHoles(where: seq<string>): nat {
    if where == [] then 0 else Holes(where[0]) + AllHoles(where[1..])
  }

  /** The conditions, each with its holes filled in turn, and the values in the order of the holes. */
  function Conditions(d: Dialect, where: seq<string>, flats: seq<Flat>, offset: nat)
    : (r: Result<(seq<string>, seq<Value>), SqlError>)
    ensures r.Ok? ==> |r.value.0| == |where|
  {
    if where == [] then Ok(([], []))
    else
      var n := Holes(where[0]);
      if n > |flats| then Err(MissingArgument)
      else
        var used := flats[..n];
        match FirstBad(used)
        case Some(e) => Err(e)
        case None =>
          match Conditions(d, where[1..], flats[n..], offset + |AllValues(used)|)
          case Err(e) => Err(e)
          case Ok((rest, vals)) => Ok(([FillInTurn(where[0], Fillers(d, used, offset))] + rest, AllValues(used) + vals))
  }

  function WhereClause(d: Dialect, where: seq<string>, flats: seq<Flat>): Rendered {
    match Conditions(d, where, flats, 0)
    case Err(e) => Err(e)
    case Ok((parts, vals)) => Ok((Join(parts, " AND "), vals))
  }

  // ---- Statements -------------------------------------------------------------------------

  function Clause(keyword: string, text: string): string {
    if text == "" then "" else keyword + text
  }

  function ListClause(keyword: string, texts: seq<string>, sep: string): string {
    if texts == [] then "" else keyword + Join(texts, sep)
  }

  function NumberClause(keyword: string, n: Option<int>): string {
    match n
    case None => ""
    case Some(k) => keyword + if k < 0 then "-" + Numeral(-k) else Numeral(k)
  }

  function SelectHead(q: Query): string {
    "SELECT " + (if q.columns == [] then "*" else Join(q.columns, ", ")) + " FROM " + q.table
    + ListClause(" ", q.joins, " ")
  }

  function SelectTail(q: Query): string {
    ListClause(" GROUP BY ", q.groupBy, ", ") + Clause(" HAVING ", q.having)
    + ListClause(" ORDER BY ", q.orderBy, ", ") + NumberClause(" LIMIT ", q.limit) + NumberClause(" OFFSET ", q.offset)
  }

  function Names(values: seq<Column>): seq<string> {
    seq(|values|, i requires 0 <= i < |values| => values[i].name)
  }

  function Bound(values: seq<Column>): seq<Value> {
    seq(|values|, i requires 0 <= i < |values| => values[i].value)
  }

  function Marks(d: Dialect, n: nat): seq<string> {
    seq(n, i requires 0 <= i => Placeholder(d, i))
  }

  function Assignments(d: Dialect, values: seq<Column>): seq<string> {
    seq(|values|, i requires 0 <= i < |values| => values[i].name + " = " + Placeholder(d, i))
  }

  function SelectSql(q: Query, clause: Rendered): Rendered {
    match clause
    case Err(e) => Err(e)
    case Ok((text, vals)) => Ok((SelectHead(q) + Clause(" WHERE ", text) + SelectTail(q), vals))
  }

  function DeleteSql(q: Query, clause: Rendered): Rendered {
    match clause
    case Err(e) => Err(e)
    case Ok((text, vals)) =>
      if text == "" then Err(UnsafeWithoutWhere) else Ok(("DELETE FROM " + q.table + " WHERE " + text, vals))
  }

  function InsertSql(q: Query): Rendered {
    if q.values == [] then Err(NoValues)
    else Ok(("INSERT INTO " + q.table + " (" + Join(Names(q.values), ", ") + ") VALUES ("
             + Join(Marks(q.dialect, |q.values|), ", ") + ")", Bound(q.values)))
  }

  function UpdateSql(q: Query, clause: Rendered): Rendered {
    if q.values == [] then Err(NoValues)
    else
      match clause
      case Err(e) => Err(e)
      case Ok((text, vals)) =>
        if text == "" then Err(UnsafeWithoutWhere)
        else Ok(("UPDATE " + q.table + " SET " + Join(Assignments(q.dialect, q.values), ", ") + " WHERE " + text,
                 Bound(q.values) + vals))
  }

  /** The statement of a builder, and the statements of the builders inside it. */
  function ToSql(q: Query): Rendered
    decreases q, 1
  {
    if q.table == "" then Err(NoTable)
    else
      match q.operation
      case Select => SelectSql(q, WhereClause(q.dialect, q.where, Flats(q)))
      case Insert => InsertSql(q)
      case Update => UpdateSql(q, WhereClause(q.dialect, q.where, Flats(q)))
      case Delete => DeleteSql(q, WhereClause(q.dialect, q.where, Flats(q)))
  }

  function Flats(q: Query): (r: seq<Flat>)
    ensures |r| == |q.args|
    ensures forall i :: 0 <= i < |q.args| ==> r[i] == Flatten(q.args[i])
    decreases q, 0
  {
    seq(|q.args|, i requires 0 <= i < |q.args| => Flatten(q.args[i]))
  }

  function FlattenAll(args: seq<Arg>): (r: seq<Flat>)
    ensures |r| == |args|
    ensures forall i :: 0 <= i < |args| ==> r[i] == Flatten(args[i])
  {
    seq(|args|, i requires 0 <= i < |args| => Flatten(args[i]))
  }

  function Flatten(a: Arg): Flat
    decreases a
  {
    match a
    case Scalar(v) => One(v)
    case Slice(vs) => Many(vs)
    case Sub(q) =>
      match ToSql(q)
      case Ok((sql, vals)) => Text(sql, vals)
      case Err(e) => Bad(e)
  }

  // ---- The rendering loops ----------------------------------------------------------------

  function Prepend(parts: seq<string>, vals: seq<Value>, r: Result<(seq<string>, seq<Value>), SqlError>)
    : Result<(seq<string>, seq<Value>), SqlError>
  {
    match r
    case Err(e) => Err(e)
    case Ok((rest, more)) => Ok((parts + rest, vals + more))
  }

  /** The conditions left to render once one of them is done. */
  lemma ConditionDone(d: Dialect, where: seq<string>, flats: seq<Flat>, parts: seq<string>, vals: seq<Value>)
    requires where != [] && Holes(where[0]) <= |flats|
    ensures var n := Holes(where[0]);
            var used := flats[..n];
            Prepend(parts, vals, Conditions(d, where, flats, |vals|))
            == match FirstBad(used)
               case Some(e) => Err(e)
               case None =>
                 Prepend(parts + [FillInTurn(where[0], Fillers(d, used, |vals|))], vals + AllValues(used),
                         Conditions(d, where[1..], flats[n..], |vals| + |AllValues(used)|))
  {
    hide FillInTurn, Fillers, AllValues, FirstBad, Holes;
    var n := Holes(where[0]);
    var used := flats[..n];
    if FirstBad(used).None? {
      var part := FillInTurn(where[0], Fillers(d, used, |vals|));
      match Conditions(d, where[1..], flats[n..], |vals| + |AllValues(used)|)
      case Err(_) =>
      case Ok((rest, more)) =>
        assert parts + ([part] + rest) == parts + [part] + rest;
        assert vals + (AllValues(used) + more) == vals + AllValues(used) + more;
    }
  }

  lemma ConditionLacksArgument(d: Dialect, where: seq<string>, flats: seq<Flat>, offset: nat)
    requires where != [] && Holes(where[0]) > |flats|
    ensures Conditions(d, where, flats, offset) == Err(MissingArgument)
  {
  }

  lemma ConditionsOver(d: Dialect, flats: seq<Flat>, parts: seq<string>, vals: seq<Value>)
    ensures Prepend(parts, vals, Conditions(d, [], flats, |vals|)) == Ok((parts, vals))
  {
    assert parts + [] == parts && vals + [] == vals;
  }

  lemma PrependNothing(r: Result<(seq<string>, seq<Value>), SqlError>)
    ensures Prepend([], [], r) == r
  {
    match r
    case Err(_) =>
    case Ok((rest, more)) => assert [] + rest == rest && [] + more == more;
  }

  method WriteSlice(d: Dialect, vs: seq<Value>, finalArgs: seq<Value>) returns (text: string, collected: seq<Value>)
    requires vs != []
    ensures text == Filler(d, Many(vs), |finalArgs|) && collected == finalArgs + vs
  {
    var placeholders: seq<string> := [];
    collected := finalArgs;
    for j := 0 to |vs|
      invariant placeholders == SliceMarks(d, |finalArgs|, j)
      invariant collected == finalArgs + vs[..j]
    {
      placeholders := placeholders + [Placeholder(d, |collected| + j)];
      collected := collected + [vs[j]];
    }
    text := "(" + Join(placeholders, ", ") + ")";
  }

  lemma FillStep(d: Dialect, flats: seq<Flat>, text: string, vals: seq<Value>)
    requires flats != []
    ensures flats[0].Bad? ==> FirstBad(flats) == Some(InSubquery(flats[0].error))
    ensures !flats[0].Bad? ==> FirstBad(flats[1..]) == FirstBad(flats)
    ensures FillInTurn(ReplaceFirst(text, Filler(d, flats[0], |vals|)),
                       Fillers(d, flats[1..], |vals + ValuesOf(flats[0])|))
            == FillInTurn(text, Fillers(d, flats, |vals|))
    ensures vals + ValuesOf(flats[0]) + AllValues(flats[1..]) == vals + AllValues(flats)
  {
    hide FillInTurn, Fillers, Filler, ReplaceFirst, ValuesOf;
    TextStep(d, flats, text, |vals|);
    var own, rest := ValuesOf(flats[0]), AllValues(flats[1..]);
    assert |vals + own| == |vals| + |own|;
    assert vals + own + rest == vals + (own + rest);
  }

  lemma TextStep(d: Dialect, flats: seq<Flat>, text: string, offset: nat)
    requires flats != []
    ensures FillInTurn(text, Fillers(d, flats, offset))
            == FillInTurn(ReplaceFirst(text, Filler(d, flats[0], offset)),
                          Fillers(d, flats[1..], offset + |ValuesOf(flats[0])|))
  {
    hide Filler, ReplaceFirst, ValuesOf;
    var rest := Fillers(d, flats[1..], offset + |ValuesOf(flats[0])|);
    assert ([Filler(d, flats[0], offset)] + rest)[1..] == rest;
  }

  lemma FillNothing(d: Dialect, text: string, vals: seq<Value>)
    ensures FirstBad([]) == None && vals + AllValues([]) == vals
    ensures FillInTurn(text, Fillers(d, [], |vals|)) == text
  {
  }

  /** One condition: every hole replaced in turn while the values are collected. */
  method FillPart(q: Query, part: string, args: seq<Arg>, finalArgs: seq<Value>) returns (r: Rendered)
    requires forall a :: a in args ==> a in q.args
    ensures var flats := FlattenAll(args);
            r == match FirstBad(flats)
                 case Some(e) => Err(e)
                 case None => Ok((FillInTurn(part, Fillers(q.dialect, flats, |finalArgs|)), finalArgs + AllValues(flats)))
    decreases q, 0
  {
    hide Conditions, Holes, ReplaceFirst, ToSql, Join, SliceMarks, FillInTurn, Fillers, AllValues, FirstBad;
    ghost var flats := FlattenAll(args);
    assert flats[0..] == flats;
    var newPart, collected := part, finalArgs;
    for j := 0 to |args|
      invariant FirstBad(flats) == FirstBad(flats[j..])
      invariant FillInTurn(newPart, Fillers(q.dialect, flats[j..], |collected|))
                == FillInTurn(part, Fillers(q.dialect, flats, |finalArgs|))
      invariant collected + AllValues(flats[j..]) == finalArgs + AllValues(flats)
    {
      FillStep(q.dialect, flats[j..], newPart, collected);
      assert flats[j..][0] == Flatten(args[j]) && flats[j..][1..] == flats[j + 1..];
      ghost var before, was := collected, newPart;
      assert args[j] in q.args;
      match args[j] {
        case Sub(sub) =>
          var rendered := ToSQL(sub);
          if rendered.Err? {
            return Err(InSubquery(rendered.error));
          }
          newPart := ReplaceFirst(newPart, "(" + rendered.value.0 + ")");
          collected := collected + rendered.value.1;
        case Slice(vs) =>
          if |vs| == 0 {
            newPart := ReplaceFirst(newPart, "(NULL)");
          } else {
            var text, more := WriteSlice(q.dialect, vs, collected);
            newPart, collected := ReplaceFirst(newPart, text), more;
          }
        case Scalar(v) =>
          newPart := ReplaceFirst(newPart, Placeholder(q.dialect, |collected|));
          collected := collected + [v];
      }
      assert collected == before + ValuesOf(flats[j]) && newPart == ReplaceFirst(was, Filler(q.dialect, flats[j], |before|));
    }
    assert flats[|args|..] == [];
    FillNothing(q.dialect, newPart, collected);
    assert FirstBad(flats) == None && newPart == FillInTurn(part, Fillers(q.dialect, flats, |finalArgs|));
    r := Ok((newPart, collected));
  }

  method BuildWhereClause(q: Query) returns (r: Rendered)
    ensures r == WhereClause(q.dialect, q.where, Flats(q))
    decreases q, 1
  {
    var finalArgs: seq<Value>, finalWhere: seq<string>, argOffset := [], [], 0;
    hide FillInTurn, Fillers, AllValues, FirstBad, Holes, Flatten, Join, Conditions;
    ghost var flats := Flats(q);
    assert q.where[0..] == q.where && flats[0..] == flats;
    PrependNothing(Conditions(q.dialect, q.where, flats, 0));
    for i := 0 to |q.where|
      invariant argOffset <= |q.args|
      invariant Conditions(q.dialect, q.where, flats, 0)
                == Prepend(finalWhere, finalArgs, Conditions(q.dialect, q.where[i..], flats[argOffset..], |finalArgs|))
    {
      var part := q.where[i];
      var n := Holes(part);
      assert q.where[i..][0] == part && q.where[i..][1..] == q.where[i + 1..];
      if argOffset + n > |q.args| {
        ConditionLacksArgument(q.dialect, q.where[i..], flats[argOffset..], |finalArgs|);
        return Err(MissingArgument);
      }
      ConditionDone(q.dialect, q.where[i..], flats[argOffset..], finalWhere, finalArgs);
      var partArgs := q.args[argOffset..argOffset + n];
      var filled := FillPart(q, part, partArgs, finalArgs);
      assert flats[argOffset..][..n] == FlattenAll(partArgs);
      assert flats[argOffset..][n..] == flats[argOffset + n..];
      if filled.Err? {
        return filled;
      }
      argOffset := argOffset + n;
      finalWhere, finalArgs := finalWhere + [filled.value.0], filled.value.1;
    }
    assert q.where[|q.where|..] == [];
    ConditionsOver(q.dialect, flats[argOffset..], finalWhere, finalArgs);
    r := Ok((Join(finalWhere, " AND "), finalArgs));
  }

  method BuildInsertSQL(q: Query) returns (r: Rendered)
    ensures r == InsertSql(q)
  {
    if |q.values| == 0 {
      return Err(NoValues);
    }
    var placeholders: seq<string>, queryArgs: seq<Value>, names: seq<string> := [], [], [];
    for i := 0 to |q.values|
      invariant placeholders == Marks(q.dialect, i)
      invariant queryArgs == Bound(q.values[..i]) && names == Names(q.values[..i])
    {
      names := names + [q.values[i].name];
      placeholders := placeholders + [Placeholder(q.dialect, |queryArgs|)];
      queryArgs := queryArgs + [q.values[i].value];
    }
    assert q.values[..|q.values|] == q.values;
    r := Ok(("INSERT INTO " + q.table + " (" + Join(names, ", ") + ") VALUES (" + Join(placeholders, ", ") + ")",
             queryArgs));
  }

  method BuildUpdateSQL(q: Query) returns (r: Rendered)
    ensures r == UpdateSql(q, WhereClause(q.dialect, q.where, Flats(q)))
    decreases q, 2
  {
    if |q.values| == 0 {
      return Err(NoValues);
    }
    var setClauses: seq<string>, queryArgs: seq<Value> := [], [];
    for i := 0 to |q.values|
      invariant setClauses == Assignments(q.dialect, q.values)[..i]
      invariant queryArgs == Bound(q.values)[..i]
    {
      setClauses := setClauses + [q.values[i].name + " = " + Placeholder(q.dialect, |queryArgs|)];
      queryArgs := queryArgs + [q.values[i].value];
    }
    assert Assignments(q.dialect, q.values)[..|q.values|] == Assignments(q.dialect, q.values);
    assert Bound(q.values)[..|q.values|] == Bound(q.values);
    var clause := BuildWhereClause(q);
    r := match clause
         case Err(e) => Err(e)
         case Ok((text, vals)) =>
           if text == "" then Err(UnsafeWithoutWhere)
           else Ok(("UPDATE " + q.table + " SET " + Join(setClauses, ", ") + " WHERE " + text, queryArgs + vals));
  }

  method ToSQL(q: Query) returns (r: Rendered)
    ensures r == ToSql(q)
    decreases q, 3
  {
    if q.table == "" {
      return Err(NoTable);
    }
    match q.operation {
      case Insert =>
        r := BuildInsertSQL(q);
      case Update =>
        r := BuildUpdateSQL(q);
      case Select =>
        var clause := BuildWhereClause(q);
        r := SelectSql(q, clause);
      case Delete =>
        var clause := BuildWhereClause(q);
        r := DeleteSql(q, clause);
    }
  }
}
