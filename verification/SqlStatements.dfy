/** What a whole statement says to a database once its values are bound: with question marks the k-th value in the
    place of the k-th mark, with numbers the n-th value wherever $n stands. */
module SqlStatements {
  import opened Wrappers
  import opened Decimal
  import opened SqlHoles
  import opened SqlBuilder
  import opened SqlCounting
  import opened SqlPlaceholders

  /** A statement with its values in it; a number without a value is missing one. */
  datatype Token = Ch(c: char) | Val(v: Value) | Missing(n: nat)

  function Chars(s: string): seq<Token> {
    seq(|s|, i requires 0 <= i < |s| => Ch(s[i]))
  }

  /** What a driver makes of a text with question marks and the values sent with it. */
  function Carried(sql: string, vals: seq<Value>): seq<Token>
    decreases |sql|
  {
    if sql == "" then []
    else if sql[0] == '?' && vals != [] then [Val(vals[0])] + Carried(sql[1..], vals[1..])
    else [Ch(sql[0])] + Carried(sql[1..], vals)
  }

  function Separated(parts: seq<seq<Token>>, sep: string): seq<Token> {
    if parts == [] then []
    else if |parts| == 1 then parts[0]
    else parts[0] + Chars(sep) + Separated(parts[1..], sep)
  }

  // ---- What a builder means ---------------------------------------------------------------

  function Texts(texts: seq<string>): seq<seq<Token>> {
    seq(|texts|, i requires 0 <= i < |texts| => Chars(texts[i]))
  }

  function Values(vals: seq<Value>): seq<seq<Token>> {
    seq(|vals|, i requires 0 <= i < |vals| => [Val(vals[i])])
  }

  /** The text of a condition with its holes taken, from left to right, by what stands for its arguments. */
  function Filled(part: string, args: seq<seq<Token>>): seq<Token>
    decreases |part|
  {
    if part == "" then []
    else if part[0] == '?' && args != [] then args[0] + Filled(part[1..], args[1..])
    else [Ch(part[0])] + Filled(part[1..], args)
  }

  /** The conditions, each with as many of the arguments as it has holes. */
  function Conditioned(where: seq<string>, args: seq<seq<Token>>): (r: seq<seq<Token>>)
    ensures |r| == |where|
    decreases |where|
  {
    if where == [] then []
    else
      var n := if Holes(where[0]) <= |args| then Holes(where[0]) else |args|;
      [Filled(where[0], args[..n])] + Conditioned(where[1..], args[n..])
  }

  function Optional(keyword: string, tokens: seq<Token>): seq<Token> {
    if tokens == [] then [] else Chars(keyword) + tokens
  }

  /** A clause with a list, left out when the list is empty. */
  function Listed(keyword: string, texts: seq<string>, sep: string): seq<Token> {
    if texts == [] then [] else Chars(keyword) + Separated(Texts(texts), sep)
  }

  function Counted(keyword: string, n: Option<int>): seq<Token> {
    match n
    case None => []
    case Some(k) => Chars(keyword) + if k < 0 then Chars("-") + Chars(Numeral(-k)) else Chars(Numeral(k))
  }

  function NameTexts(values: seq<Column>): seq<seq<Token>> {
    seq(|values|, i requires 0 <= i < |values| => Chars(values[i].name))
  }

  function ColumnValues(values: seq<Column>): seq<seq<Token>> {
    seq(|values|, i requires 0 <= i < |values| => [Val(values[i].value)])
  }

  function Assigned(values: seq<Column>): seq<seq<Token>> {
    seq(|values|, i requires 0 <= i < |values| => Chars(values[i].name) + Chars(" = ") + [Val(values[i].value)])
  }

  /** What a builder is meant to say. */
  function Meaning(q: Query): seq<Token>
    decreases q, 1
  {
    var condition := Separated(Conditioned(q.where, ArgMeanings(q)), " AND ");
    match q.operation
    case Select =>
      Chars("SELECT ") + (if q.columns == [] then Chars("*") else Separated(Texts(q.columns), ", "))
      + Chars(" FROM ") + Chars(q.table) + Listed(" ", q.joins, " ") + Optional(" WHERE ", condition)
      + Listed(" GROUP BY ", q.groupBy, ", ") + Optional(" HAVING ", Chars(q.having))
      + Listed(" ORDER BY ", q.orderBy, ", ") + Counted(" LIMIT ", q.limit) + Counted(" OFFSET ", q.offset)
    case Insert =>
      Chars("INSERT INTO ") + Chars(q.table) + Chars(" (") + Separated(NameTexts(q.values), ", ")
      + Chars(") VALUES (") + Separated(ColumnValues(q.values), ", ") + Chars(")")
    case Update =>
      Chars("UPDATE ") + Chars(q.table) + Chars(" SET ") + Separated(Assigned(q.values), ", ")
      + Chars(" WHERE ") + condition
    case Delete => Chars("DELETE FROM ") + Chars(q.table) + Chars(" WHERE ") + condition
  }

  function ArgMeanings(q: Query): (r: seq<seq<Token>>)
    ensures |r| == |q.args|
    ensures forall i :: 0 <= i < |q.args| ==> r[i] == ArgMeaning(q.args[i])
    decreases q, 0
  {
    seq(|q.args|, i requires 0 <= i < |q.args| => ArgMeaning(q.args[i]))
  }

  /** A value stands for itself, a slice for the list of its values, a builder for its statement. */
  function ArgMeaning(a: Arg): seq<Token>
    decreases a
  {
    match a
    case Scalar(v) => [Val(v)]
    case Slice(vs) => if vs == [] then Chars("(NULL)") else Chars("(") + Separated(Values(vs), ", ") + Chars(")")
    case Sub(q) => Chars("(") + Meaning(q) + Chars(")")
  }

  // ---- When it says it --------------------------------------------------------------------

  predicate Plain(s: string) {
    '?' !in s
  }

  predicate AllPlain(texts: seq<string>) {
    forall i :: 0 <= i < |texts| ==> Plain(texts[i])
  }

  predicate PlainNames(values: seq<Column>) {
    forall i :: 0 <= i < |values| ==> Plain(values[i].name)
  }

  /** No question mark in the text that takes no arguments. */
  predicate PlainTexts(q: Query) {
    && Plain(q.table)
    && match q.operation
       case Select =>
         AllPlain(q.columns) && AllPlain(q.joins) && AllPlain(q.groupBy) && Plain(q.having) && AllPlain(q.orderBy)
       case Insert => PlainNames(q.values)
       case Update => PlainNames(q.values)
       case Delete => true
  }

  predicate HasValue(tokens: seq<Token>) {
    exists i :: 0 <= i < |tokens| && tokens[i].Val?
  }

  /** In each condition, after an argument with a value in it only single values follow. */
  predicate InOrder(args: seq<Arg>) {
    forall i, j :: 0 <= i < j < |args| && HasValue(ArgMeaning(args[i])) ==> args[j].Scalar?
  }

  predicate AllInOrder(where: seq<string>, args: seq<Arg>)
    requires AllHoles(where) <= |args|
    decreases |where|
  {
    where == []
    || (InOrder(args[..Holes(where[0])]) && AllInOrder(where[1..], args[Holes(where[0])..]))
  }

  predicate Sayable(q: Query)
    decreases q, 1
  {
    && PlainTexts(q) && SubsSayable(q)
    && (q.operation == Insert || AllInOrder(q.where, q.args))
  }

  predicate SubsSayable(q: Query)
    decreases q, 0
  {
    q.operation == Insert
    || (AllHoles(q.where) <= |q.args|
        && forall i :: 0 <= i < AllHoles(q.where) && q.args[i].Sub? ==> Sayable(q.args[i].query))
  }

  // ---- Carrying pieces of text ------------------------------------------------------------

  lemma CharsConcat(a: string, b: string)
    ensures Chars(a + b) == Chars(a) + Chars(b)
  {
  }

  lemma {:induction false} CarryPlain(s: string, vals: seq<Value>)
    requires Holes(s) == 0
    ensures Carried(s, vals) == Chars(s)
  {
    if s != "" {
      CarryPlain(s[1..], vals);
      assert s == [s[0]] + s[1..];
    }
  }

  lemma {:induction false} CarryConcat(a: string, b: string, vals: seq<Value>, more: seq<Value>)
    requires Holes(a) == |vals|
    ensures Carried(a + b, vals + more) == Carried(a, vals) + Carried(b, more)
  {
    if a == "" {
      assert a + b == b && vals + more == more;
    } else {
      assert (a + b)[1..] == a[1..] + b;
      if a[0] == '?' {
        assert (vals + more)[1..] == vals[1..] + more;
        CarryConcat(a[1..], b, vals[1..], more);
        assert [Val(vals[0])] + (Carried(a[1..], vals[1..]) + Carried(b, more)) == Carried(a, vals) + Carried(b, more);
      } else {
        CarryConcat(a[1..], b, vals, more);
        assert [Ch(a[0])] + (Carried(a[1..], vals) + Carried(b, more)) == Carried(a, vals) + Carried(b, more);
      }
    }
  }

  lemma CarryBehind(a: string, b: string, vals: seq<Value>)
    requires Holes(a) == 0
    ensures Carried(a + b, vals) == Chars(a) + Carried(b, vals)
  {
    CarryConcat(a, b, [], vals);
    CarryPlain(a, []);
    assert [] + vals == vals;
  }

  lemma CarryBefore(a: string, b: string, vals: seq<Value>)
    requires Holes(a) == |vals| && Holes(b) == 0
    ensures Carried(a + b, vals) == Carried(a, vals) + Chars(b)
  {
    CarryConcat(a, b, vals, []);
    CarryPlain(b, []);
    assert vals + [] == vals;
  }

  lemma {:induction false} CarriedHasValue(s: string, vals: seq<Value>)
    requires Holes(s) <= |vals|
    ensures HasValue(Carried(s, vals)) <==> '?' in s
  {
    if s != "" {
      var rest := if s[0] == '?' then Carried(s[1..], vals[1..]) else Carried(s[1..], vals);
      CarriedHasValue(s[1..], if s[0] == '?' then vals[1..] else vals);
      assert Carried(s, vals)[1..] == rest;
      if s[0] == '?' {
        assert Carried(s, vals)[0].Val?;
      } else {
        HasValueLater(Carried(s, vals));
        assert s == [s[0]] + s[1..];
      }
    }
  }

  lemma HasValueLater(tokens: seq<Token>)
    requires tokens != [] && tokens[0].Ch?
    ensures HasValue(tokens) <==> HasValue(tokens[1..])
  {
    if HasValue(tokens) {
      var i :| 0 <= i < |tokens| && tokens[i].Val?;
      assert tokens[1..][i - 1].Val?;
    }
    if HasValue(tokens[1..]) {
      var i :| 0 <= i < |tokens[1..]| && tokens[1..][i].Val?;
      assert tokens[i + 1].Val?;
    }
  }

  /** A text and as many values as it has marks can be told from what they make together. */
  lemma {:induction false} CarriedTells(a: string, b: string, vals: seq<Value>)
    requires Holes(a) == Holes(b) == |vals|
    ensures Carried(a, vals) == Carried(b, vals) <==> a == b
    decreases |a|
  {
    CarriedSize(a, vals);
    CarriedSize(b, vals);
    if a != "" && b != "" {
      assert a == [a[0]] + a[1..] && b == [b[0]] + b[1..];
      var x := if a[0] == '?' then vals[1..] else vals;
      var y := if b[0] == '?' then vals[1..] else vals;
      assert Carried(a, vals)[1..] == Carried(a[1..], x) && Carried(b, vals)[1..] == Carried(b[1..], y);
      if (a[0] == '?') == (b[0] == '?') {
        CarriedTells(a[1..], b[1..], x);
      }
    }
  }

  lemma {:induction false} CarriedSize(s: string, vals: seq<Value>)
    ensures |Carried(s, vals)| == |s|
  {
    if s != "" {
      CarriedSize(s[1..], if s[0] == '?' && vals != [] then vals[1..] else vals);
    }
  }

  function Poured(chunks: seq<seq<Value>>): seq<Value> {
    if chunks == [] then [] else chunks[0] + Poured(chunks[1..])
  }

  function CarriedEach(parts: seq<string>, chunks: seq<seq<Value>>): seq<seq<Token>>
    requires |parts| == |chunks|
  {
    seq(|parts|, i requires 0 <= i < |parts| => Carried(parts[i], chunks[i]))
  }

  /** Joined texts, each with its own values. */
  lemma {:induction false} JoinCarries(parts: seq<string>, chunks: seq<seq<Value>>, sep: string)
    requires |parts| == |chunks| && Holes(sep) == 0
    requires forall i :: 0 <= i < |parts| ==> Holes(parts[i]) == |chunks[i]|
    ensures Holes(Join(parts, sep)) == |Poured(chunks)|
    ensures Carried(Join(parts, sep), Poured(chunks)) == Separated(CarriedEach(parts, chunks), sep)
  {
    hide Carried, Holes;
    if parts == [] {
      NothingCarried();
    } else if |parts| == 1 {
      assert Poured(chunks[1..]) == [] && chunks[0] + [] == chunks[0];
    } else {
      var rest, others := parts[1..], chunks[1..];
      JoinCarries(rest, others, sep);
      assert CarriedEach(parts, chunks)[1..] == CarriedEach(rest, others);
      HolesConcat(parts[0], sep);
      HolesConcat(parts[0] + sep, Join(rest, sep));
      CarryConcat(parts[0] + sep, Join(rest, sep), chunks[0], Poured(others));
      CarryBefore(parts[0], sep, chunks[0]);
    }
  }

  lemma NothingCarried()
    ensures Holes("") == 0 && Carried("", []) == []
  {
  }

  lemma {:induction false} JoinChars(parts: seq<string>, sep: string)
    ensures Chars(Join(parts, sep)) == Separated(Texts(parts), sep)
  {
    hide Chars;
    if parts == [] {
      NoChars();
    } else if |parts| > 1 {
      JoinChars(parts[1..], sep);
      assert Texts(parts)[1..] == Texts(parts[1..]);
      CharsConcat(parts[0], sep);
      CharsConcat(parts[0] + sep, Join(parts[1..], sep));
    }
  }

  lemma NoChars()
    ensures Chars("") == []
  {
  }

  function Singles(vals: seq<Value>): seq<seq<Value>> {
    seq(|vals|, i requires 0 <= i < |vals| => [vals[i]])
  }

  lemma {:induction false} PouredSingles(vals: seq<Value>)
    ensures Poured(Singles(vals)) == vals
  {
    if vals != [] {
      PouredSingles(vals[1..]);
      assert Singles(vals)[1..] == Singles(vals[1..]);
      assert vals == [vals[0]] + vals[1..];
    }
  }

  lemma MarkCarries(v: Value)
    ensures Holes("?") == 1 && Carried("?", [v]) == [Val(v)]
  {
    assert "?"[1..] == "";
  }

  /** A list of bare marks. */
  lemma MarksCarry(marks: seq<string>, vals: seq<Value>)
    requires |marks| == |vals| && forall i :: 0 <= i < |marks| ==> marks[i] == "?"
    ensures Holes(Join(marks, ", ")) == |vals|
    ensures Carried(Join(marks, ", "), vals) == Separated(Values(vals), ", ")
  {
    hide Carried, Holes, Join, Separated;
    var chunks := Singles(vals);
    FixedText();
    forall i | 0 <= i < |marks|
      ensures Holes(marks[i]) == |chunks[i]| && Carried(marks[i], chunks[i]) == [Val(vals[i])]
    {
      MarkCarries(vals[i]);
    }
    JoinCarries(marks, chunks, ", ");
    PouredSingles(vals);
    assert CarriedEach(marks, chunks) == Values(vals);
  }

  // ---- Carrying arguments and conditions --------------------------------------------------

  /** The text of an argument carries what the argument means. */
  ghost predicate Carries(a: Arg) {
    var f := Flatten(a);
    && Holes(Filler(Question, f, 0)) == |ValuesOf(f)|
    && Carried(Filler(Question, f, 0), ValuesOf(f)) == ArgMeaning(a)
  }

  lemma ValueCarries(a: Arg)
    requires !a.Sub?
    ensures Carries(a) && !Flatten(a).Bad?
  {
    hide Carried, Holes, Join, Separated;
    match a
    case Scalar(v) => MarkCarries(v);
    case Slice(vs) =>
      if vs == [] {
        NoMarks("(NULL)");
        CarryPlain("(NULL)", []);
      } else {
        var marks := SliceMarks(Question, 0, |vs|);
        MarksCarry(marks, vs);
        Enclosed(Join(marks, ", "), vs);
      }
  }

  lemma Enclosed(s: string, vals: seq<Value>)
    requires Holes(s) == |vals|
    ensures Holes("(" + s + ")") == |vals|
    ensures Carried("(" + s + ")", vals) == Chars("(") + Carried(s, vals) + Chars(")")
  {
    hide Carried, Holes;
    NoMarks("(");
    NoMarks(")");
    HolesConcat("(", s);
    HolesConcat("(" + s, ")");
    CarryBefore("(" + s, ")", vals);
    CarryBehind("(", s, vals);
  }

  lemma SubCarries(q: Query)
    requires ToSql(q).Ok? && Holes(ToSql(q).value.0) == |ToSql(q).value.1|
    requires Carried(ToSql(q).value.0, ToSql(q).value.1) == Meaning(q)
    ensures Carries(Sub(q))
  {
    hide Carried, Holes, ToSql, Meaning;
    Enclosed(ToSql(q).value.0, ToSql(q).value.1);
  }

  function MeaningsOf(args: seq<Arg>): seq<seq<Token>> {
    seq(|args|, i requires 0 <= i < |args| => ArgMeaning(args[i]))
  }

  /** A condition with every argument in its own hole. */
  lemma {:induction false} PartCarries(part: string, args: seq<Arg>)
    requires Holes(part) == |args| && forall i :: 0 <= i < |args| ==> Carries(args[i])
    ensures var s := FillInPlace(part, Fillers(Question, FlattenAll(args), 0));
            && Holes(s) == |AllValues(FlattenAll(args))|
            && Carried(s, AllValues(FlattenAll(args))) == Filled(part, MeaningsOf(args))
    decreases |part|
  {
    hide Flatten, ArgMeaning, Filler, ValuesOf, Carries;
    var flats := FlattenAll(args);
    if part != "" {
      if part[0] == '?' {
        hide Holes, Carried;
        HolesStep(part);
        var a, rest := args[0], args[1..];
        FlatStep(args);
        PartCarries(part[1..], rest);
        assert Carries(args[0]);
        CarriesMeans(a);
        var text, more := Filler(Question, flats[0], 0), FillInPlace(part[1..], Fillers(Question, FlattenAll(rest), 0));
        assert Fillers(Question, flats, 0)[1..] == Fillers(Question, FlattenAll(rest), 0);
        HolesConcat(text, more);
        CarryConcat(text, more, ValuesOf(flats[0]), AllValues(FlattenAll(rest)));
        assert MeaningsOf(args)[1..] == MeaningsOf(rest);
      } else {
        PartCarries(part[1..], args);
        var s := FillInPlace(part[1..], Fillers(Question, flats, 0));
        assert ([part[0]] + s)[1..] == s;
      }
    }
  }

  lemma HolesStep(s: string)
    requires s != ""
    ensures Holes(s) == Holes(s[1..]) + if s[0] == '?' then 1 else 0
  {
  }

  lemma CarriesMeans(a: Arg)
    requires Carries(a)
    ensures Holes(Filler(Question, Flatten(a), 0)) == |ValuesOf(Flatten(a))|
    ensures Carried(Filler(Question, Flatten(a), 0), ValuesOf(Flatten(a))) == ArgMeaning(a)
  {
  }

  lemma FlatStep(args: seq<Arg>)
    requires args != []
    ensures var flats := FlattenAll(args);
            && flats[0] == Flatten(args[0]) && flats[1..] == FlattenAll(args[1..])
            && Fillers(Question, flats, 0) == [Filler(Question, flats[0], 0)] + Fillers(Question, FlattenAll(args[1..]), 0)
            && AllValues(flats) == ValuesOf(flats[0]) + AllValues(FlattenAll(args[1..]))
  {
    hide Flatten, Filler, ValuesOf;
    var flats := FlattenAll(args);
    assert flats[1..] == FlattenAll(args[1..]);
    FillersAnywhere(flats[1..], |ValuesOf(flats[0])|);
  }

  /** The values of each condition. */
  function ChunksOf(where: seq<string>, flats: seq<Flat>): (r: seq<seq<Value>>)
    requires AllHoles(where) <= |flats|
    ensures |r| == |where|
    decreases |where|
  {
    if where == [] then []
    else [AllValues(flats[..Holes(where[0])])] + ChunksOf(where[1..], flats[Holes(where[0])..])
  }

  lemma FlattenSlice(args: seq<Arg>, n: nat)
    requires n <= |args|
    ensures FlattenAll(args)[..n] == FlattenAll(args[..n]) && FlattenAll(args)[n..] == FlattenAll(args[n..])
    ensures MeaningsOf(args)[..n] == MeaningsOf(args[..n]) && MeaningsOf(args)[n..] == MeaningsOf(args[n..])
  {
    hide Flatten, ArgMeaning;
  }

  lemma {:induction false} PartsCarry(where: seq<string>, args: seq<Arg>)
    requires AllHoles(where) <= |args| && forall i :: 0 <= i < AllHoles(where) ==> Carries(args[i])
    ensures var flats := FlattenAll(args);
            var parts, chunks := InPlace(where, flats), ChunksOf(where, flats);
            && (forall i :: 0 <= i < |parts| ==> Holes(parts[i]) == |chunks[i]|)
            && CarriedEach(parts, chunks) == Conditioned(where, MeaningsOf(args))
    decreases |where|
  {
    hide Holes, Carried, Filled, Carries, FillInPlace, Fillers, AllValues, Flatten, ArgMeaning;
    if where != [] {
      var n := Holes(where[0]);
      FlattenSlice(args, n);
      assert forall i :: 0 <= i < n ==> args[..n][i] == args[i];
      assert forall i :: 0 <= i < AllHoles(where[1..]) ==> args[n..][i] == args[n + i];
      PartCarries(where[0], args[..n]);
      PartsCarry(where[1..], args[n..]);
      var flats := FlattenAll(args);
      var rest, others := InPlace(where[1..], flats[n..]), ChunksOf(where[1..], flats[n..]);
      var parts, chunks := InPlace(where, flats), ChunksOf(where, flats);
      assert parts == [parts[0]] + rest && chunks == [chunks[0]] + others;
      assert CarriedEach(parts, chunks) == [Carried(parts[0], chunks[0])] + CarriedEach(rest, others);
    }
  }

  lemma {:induction false} ConditionValues(where: seq<string>, flats: seq<Flat>, offset: nat)
    requires Conditions(Question, where, flats, offset).Ok?
    ensures AllHoles(where) <= |flats|
    ensures Conditions(Question, where, flats, offset).value.1 == Poured(ChunksOf(where, flats))
    decreases |where|
  {
    hide Holes, FillInTurn, Fillers, AllValues, FirstBad;
    if where != [] {
      var n := Holes(where[0]);
      ConditionValues(where[1..], flats[n..], offset + |AllValues(flats[..n])|);
      assert ChunksOf(where, flats)[1..] == ChunksOf(where[1..], flats[n..]);
    }
  }

  lemma {:induction false} OrderIsSettled(where: seq<string>, args: seq<Arg>)
    requires AllHoles(where) <= |args| && forall i :: 0 <= i < AllHoles(where) ==> Carries(args[i])
    ensures AllInOrder(where, args) <==> SettledWhere(where, FlattenAll(args))
    decreases |where|
  {
    hide Holes, Carries, Flatten, ArgMeaning, SettledFlats, InOrder;
    if where != [] {
      var n := Holes(where[0]);
      FlattenSlice(args, n);
      assert forall i :: 0 <= i < n ==> args[..n][i] == args[i];
      assert forall i :: 0 <= i < AllHoles(where[1..]) ==> args[n..][i] == args[n + i];
      OrderIsSettledHere(args[..n]);
      OrderIsSettled(where[1..], args[n..]);
    }
  }

  lemma OrderIsSettledHere(args: seq<Arg>)
    requires forall i :: 0 <= i < |args| ==> Carries(args[i])
    ensures InOrder(args) <==> SettledFlats(FlattenAll(args))
  {
    hide Carried, Holes, ArgMeaning, Filler, HasValue;
    var flats := FlattenAll(args);
    forall i | 0 <= i < |args|
      ensures LeavesMark(flats[i]) <==> HasValue(ArgMeaning(args[i]))
      ensures flats[i].One? <==> args[i].Scalar?
    {
      CarriesMeans(args[i]);
      CarriedHasValue(Filler(Question, flats[i], 0), ValuesOf(flats[i]));
    }
  }

  /** The clause of a builder carries its conditions exactly when the arguments come in order. */
  lemma ClauseCarries(q: Query)
    requires q.dialect == Question && WhereClause(Question, q.where, Flats(q)).Ok?
    requires AllHoles(q.where) <= |q.args| && forall i :: 0 <= i < AllHoles(q.where) ==> Carries(q.args[i])
    ensures var (text, vals) := WhereClause(Question, q.where, Flats(q)).value;
            && Holes(text) == |vals|
            && (Carried(text, vals) == Separated(Conditioned(q.where, ArgMeanings(q)), " AND ")
                <==> AllInOrder(q.where, q.args))
  {
    hide Conditions, InPlace, SettledWhere, AllHoles, Join, Separated, Carried, Holes, Carries, Conditioned, ChunksOf,
      AllInOrder, Flatten, ArgMeaning;
    var flats := FlattenAll(q.args);
    assert Flats(q) == flats && ArgMeanings(q) == MeaningsOf(q.args);
    var (text, vals) := WhereClause(Question, q.where, flats).value;
    ConditionValues(q.where, flats, 0);
    PartsCarry(q.where, q.args);
    FixedTextAnd();
    var parts, chunks := InPlace(q.where, flats), ChunksOf(q.where, flats);
    JoinCarries(parts, chunks, " AND ");
    QuestionClauseReadsBack(q.where, flats);
    OrderIsSettled(q.where, q.args);
    ClauseHoles(q.where, q.args);
    CarriedTells(text, Join(parts, " AND "), vals);
  }

  lemma FixedTextAnd()
    ensures Holes(" AND ") == 0
  {
    NoMarks(" AND ");
  }

  /** In whatever order, no mark is lost. */
  lemma ClauseHoles(where: seq<string>, args: seq<Arg>)
    requires WhereClause(Question, where, FlattenAll(args)).Ok?
    requires AllHoles(where) <= |args| && forall i :: 0 <= i < AllHoles(where) ==> Carries(args[i])
    ensures var (text, vals) := WhereClause(Question, where, FlattenAll(args)).value; Holes(text) == |vals|
  {
    hide Conditions, AllHoles, Join, TotalStray, Carries, Flatten;
    var flats := FlattenAll(args);
    ConditionsCount(where, flats, 0);
    FixedTextAnd();
    JoinCounts(Conditions(Question, where, flats, 0).value.0, " AND ");
    NoStray(flats[..AllHoles(where)], args[..AllHoles(where)]);
  }

  lemma {:induction false} NoStray(flats: seq<Flat>, args: seq<Arg>)
    requires flats == FlattenAll(args) && forall i :: 0 <= i < |args| ==> Carries(args[i])
    ensures TotalStray(flats) == 0
  {
    hide Flatten, Filler, ValuesOf, Carried, ArgMeaning;
    if args != [] {
      CarriesMeans(args[0]);
      assert flats[1..] == FlattenAll(args[1..]);
      NoStray(flats[1..], args[1..]);
    }
  }

  // ---- Carrying statements ----------------------------------------------------------------

  lemma {:induction false} PlainJoin(parts: seq<string>, sep: string)
    requires AllPlain(parts) && Plain(sep)
    ensures Plain(Join(parts, sep))
  {
    if |parts| > 1 {
      assert forall i :: 0 <= i < |parts[1..]| ==> parts[1..][i] == parts[i + 1];
      PlainJoin(parts[1..], sep);
    }
  }

  lemma PlainHasNoHoles(s: string)
    requires Plain(s)
    ensures Holes(s) == 0
  {
  }

  lemma ListIsListed(keyword: string, texts: seq<string>, sep: string)
    ensures AllPlain(texts) && Plain(keyword) && Plain(sep) ==> Plain(ListClause(keyword, texts, sep))
    ensures Chars(ListClause(keyword, texts, sep)) == Listed(keyword, texts, sep)
  {
    hide Chars, Join, Separated;
    NoChars();
    if AllPlain(texts) && Plain(sep) {
      PlainJoin(texts, sep);
    }
    CharsConcat(keyword, Join(texts, sep));
    JoinChars(texts, sep);
  }

  lemma ClauseIsOptional(keyword: string, text: string)
    ensures Plain(keyword) && Plain(text) ==> Plain(Clause(keyword, text))
    ensures Chars(Clause(keyword, text)) == Optional(keyword, Chars(text))
  {
    CharsConcat(keyword, text);
    NoChars();
  }

  lemma NumberIsCounted(keyword: string, n: Option<int>)
    requires Plain(keyword)
    ensures Plain(NumberClause(keyword, n)) && Chars(NumberClause(keyword, n)) == Counted(keyword, n)
  {
    hide Chars, Numeral;
    NoChars();
    match n
    case None =>
    case Some(k) =>
      if k < 0 {
        CharsConcat("-", Numeral(-k));
        CharsConcat(keyword, "-" + Numeral(-k));
        DigitsArePlain(Numeral(-k));
      } else {
        CharsConcat(keyword, Numeral(k));
        DigitsArePlain(Numeral(k));
      }
  }

  lemma DigitsArePlain(s: string)
    requires forall c :: c in s ==> IsDigit(c)
    ensures Plain(s)
  {
  }

  function HeadMeaning(q: Query): seq<Token> {
    Chars("SELECT ") + (if q.columns == [] then Chars("*") else Separated(Texts(q.columns), ", "))
    + Chars(" FROM ") + Chars(q.table) + Listed(" ", q.joins, " ")
  }

  function TailMeaning(q: Query): seq<Token> {
    Listed(" GROUP BY ", q.groupBy, ", ") + Optional(" HAVING ", Chars(q.having))
    + Listed(" ORDER BY ", q.orderBy, ", ") + Counted(" LIMIT ", q.limit) + Counted(" OFFSET ", q.offset)
  }

  lemma HeadCarries(q: Query)
    ensures Plain(q.table) && AllPlain(q.columns) && AllPlain(q.joins) ==> Plain(SelectHead(q))
    ensures Chars(SelectHead(q)) == HeadMeaning(q)
  {
    hide Chars, Join, Separated, ListClause, Listed;
    var columns := if q.columns == [] then "*" else Join(q.columns, ", ");
    if AllPlain(q.columns) {
      PlainJoin(q.columns, ", ");
    }
    JoinChars(q.columns, ", ");
    ListIsListed(" ", q.joins, " ");
    CharsConcat("SELECT ", columns);
    CharsConcat("SELECT " + columns, " FROM ");
    CharsConcat("SELECT " + columns + " FROM ", q.table);
    CharsConcat("SELECT " + columns + " FROM " + q.table, ListClause(" ", q.joins, " "));
  }

  lemma TailCarries(q: Query)
    ensures AllPlain(q.groupBy) && Plain(q.having) && AllPlain(q.orderBy) ==> Plain(SelectTail(q))
    ensures Chars(SelectTail(q)) == TailMeaning(q)
  {
    hide Chars, ListClause, Listed, Clause, Optional, NumberClause, Counted;
    var group, order := ListClause(" GROUP BY ", q.groupBy, ", "), ListClause(" ORDER BY ", q.orderBy, ", ");
    var having, limit, offset := Clause(" HAVING ", q.having), NumberClause(" LIMIT ", q.limit), NumberClause(" OFFSET ", q.offset);
    ListIsListed(" GROUP BY ", q.groupBy, ", ");
    ClauseIsOptional(" HAVING ", q.having);
    ListIsListed(" ORDER BY ", q.orderBy, ", ");
    NumberIsCounted(" LIMIT ", q.limit);
    NumberIsCounted(" OFFSET ", q.offset);
    CharsConcat(group, having);
    CharsConcat(group + having, order);
    CharsConcat(group + having + order, limit);
    CharsConcat(group + having + order + limit, offset);
  }

  /** A text around a clause: what is carried is right if and only if what the clause carries is. */
  lemma Around(front: seq<Token>, a: seq<Token>, b: seq<Token>, back: seq<Token>)
    ensures front + a + back == front + b + back <==> a == b
  {
    if front + a + back == front + b + back {
      assert |a| == |b|;
      assert a == (front + a + back)[|front|..|front| + |a|];
      assert b == (front + b + back)[|front|..|front| + |b|];
    }
  }

  lemma SameOptional(keyword: string, a: seq<Token>, b: seq<Token>)
    requires keyword != ""
    ensures Optional(keyword, a) == Optional(keyword, b) <==> a == b
  {
    if a != [] && b != [] {
      Around(Chars(keyword), a, b, []);
      assert Chars(keyword) + a + [] == Chars(keyword) + a && Chars(keyword) + b + [] == Chars(keyword) + b;
    }
  }

  lemma SelectCarries(q: Query, text: string, vals: seq<Value>, meant: seq<Token>)
    requires q.operation == Select && PlainTexts(q) && Holes(text) == |vals|
    ensures var sql := SelectSql(q, Ok((text, vals))).value.0;
            && Holes(sql) == |vals|
            && (Carried(sql, vals) == HeadMeaning(q) + Optional(" WHERE ", meant) + TailMeaning(q)
                <==> Carried(text, vals) == meant)
  {
    hide Chars, SelectHead, SelectTail, HeadMeaning, TailMeaning, Carried, Holes, Optional;
    HeadCarries(q);
    TailCarries(q);
    PlainHasNoHoles(SelectHead(q));
    PlainHasNoHoles(SelectTail(q));
    SelectCounts(q, Ok((text, vals)));
    WhereCarries(text, vals);
    var clause := Clause(" WHERE ", text);
    HolesConcat(SelectHead(q), clause);
    CarryBefore(SelectHead(q) + clause, SelectTail(q), vals);
    CarryBehind(SelectHead(q), clause, vals);
    Around(HeadMeaning(q), Optional(" WHERE ", Carried(text, vals)), Optional(" WHERE ", meant), TailMeaning(q));
    SameOptional(" WHERE ", Carried(text, vals), meant);
  }

  lemma WhereCarries(text: string, vals: seq<Value>)
    requires Holes(text) == |vals|
    ensures Holes(Clause(" WHERE ", text)) == |vals|
    ensures Carried(Clause(" WHERE ", text), vals) == Optional(" WHERE ", Carried(text, vals))
  {
    hide Holes, Chars;
    CarriedSize(text, vals);
    NoMarks(" WHERE ");
    HolesConcat(" WHERE ", text);
    CarryBehind(" WHERE ", text, vals);
    NothingCarried();
  }

  lemma DeleteCarries(q: Query, text: string, vals: seq<Value>, meant: seq<Token>)
    requires Plain(q.table) && Holes(text) == |vals|
    ensures var sql := "DELETE FROM " + q.table + " WHERE " + text;
            && Holes(sql) == |vals|
            && (Carried(sql, vals) == Chars("DELETE FROM ") + Chars(q.table) + Chars(" WHERE ") + meant
                <==> Carried(text, vals) == meant)
  {
    hide Chars, Carried, Holes;
    var head := "DELETE FROM " + q.table + " WHERE ";
    FixedText();
    PlainHasNoHoles(q.table);
    HolesConcat("DELETE FROM ", q.table);
    HolesConcat("DELETE FROM " + q.table, " WHERE ");
    HolesConcat(head, text);
    CarryBehind(head, text, vals);
    CharsConcat("DELETE FROM ", q.table);
    CharsConcat("DELETE FROM " + q.table, " WHERE ");
    Before(Chars(head), Carried(text, vals), meant);
  }

  lemma Before(front: seq<Token>, a: seq<Token>, b: seq<Token>)
    ensures front + a == front + b <==> a == b
  {
    Around(front, a, b, []);
    assert front + a + [] == front + a && front + b + [] == front + b;
  }

  lemma AssignmentCarries(c: Column)
    requires Plain(c.name)
    ensures Holes(c.name + " = " + "?") == 1
    ensures Carried(c.name + " = " + "?", [c.value]) == Chars(c.name) + Chars(" = ") + [Val(c.value)]
  {
    hide Chars, Carried, Holes;
    PlainHasNoHoles(c.name);
    NoMarks(" = ");
    HolesConcat(c.name, " = ");
    MarkCarries(c.value);
    HolesConcat(c.name + " = ", "?");
    CarryBehind(c.name + " = ", "?", [c.value]);
    CharsConcat(c.name, " = ");
  }

  /** The assignments of an UPDATE: to the k-th column the k-th value. */
  lemma AssignmentsCarry(values: seq<Column>)
    requires PlainNames(values)
    ensures Holes(Join(Assignments(Question, values), ", ")) == |values|
    ensures Carried(Join(Assignments(Question, values), ", "), Bound(values)) == Separated(Assigned(values), ", ")
  {
    hide Chars, Carried, Holes, Join, Separated;
    var sets, chunks := Assignments(Question, values), Singles(Bound(values));
    FixedText();
    forall i | 0 <= i < |values|
      ensures Holes(sets[i]) == |chunks[i]| && Carried(sets[i], chunks[i]) == Assigned(values)[i]
    {
      AssignmentCarries(values[i]);
    }
    JoinCarries(sets, chunks, ", ");
    PouredSingles(Bound(values));
    assert CarriedEach(sets, chunks) == Assigned(values);
  }

  lemma UpdateCarries(q: Query, text: string, vals: seq<Value>, meant: seq<Token>)
    requires Plain(q.table) && PlainNames(q.values) && Holes(text) == |vals|
    ensures var sql := "UPDATE " + q.table + " SET " + Join(Assignments(Question, q.values), ", ") + " WHERE " + text;
            && Holes(sql) == |Bound(q.values) + vals|
            && (Carried(sql, Bound(q.values) + vals)
                == Chars("UPDATE ") + Chars(q.table) + Chars(" SET ") + Separated(Assigned(q.values), ", ") + Chars(" WHERE ") + meant
                <==> Carried(text, vals) == meant)
  {
    hide Chars, Carried, Holes, Join, Separated, Assignments, Assigned, Names;
    var own := Bound(q.values);
    var head, sets := "UPDATE " + q.table + " SET ", Join(Assignments(Question, q.values), ", ");
    FixedText();
    PlainHasNoHoles(q.table);
    HolesConcat("UPDATE ", q.table);
    HolesConcat("UPDATE " + q.table, " SET ");
    CharsConcat("UPDATE ", q.table);
    CharsConcat("UPDATE " + q.table, " SET ");
    AssignmentsCarry(q.values);
    HolesConcat(head, sets);
    HolesConcat(head + sets, " WHERE ");
    HolesConcat(head + sets + " WHERE ", text);
    CarryBehind(head, sets, own);
    CarryBefore(head + sets, " WHERE ", own);
    CarryConcat(head + sets + " WHERE ", text, own, vals);
    Before(Carried(head + sets + " WHERE ", own), Carried(text, vals), meant);
  }

  /** The statement of an INSERT: in the k-th place the k-th value. */
  lemma InsertCarries(q: Query)
    requires q.operation == Insert && q.dialect == Question && PlainTexts(q) && InsertSql(q).Ok?
    ensures var (sql, vals) := InsertSql(q).value; Holes(sql) == |vals| && Carried(sql, vals) == Meaning(q)
  {
    hide Chars, Carried, Holes, Join, Separated, Names;
    var vals, names, marks := Bound(q.values), Join(Names(q.values), ", "), Join(Marks(Question, |q.values|), ", ");
    FixedText();
    NamesAreTexts(q.values);
    PlainJoin(Names(q.values), ", ");
    JoinChars(Names(q.values), ", ");
    MarksCarry(Marks(Question, |q.values|), vals);
    InsertHead(q.table, names);
    var head := "INSERT INTO " + q.table + " (" + names + ") VALUES (";
    HolesConcat(head, marks);
    HolesConcat(head + marks, ")");
    CarryBefore(head + marks, ")", vals);
    CarryBehind(head, marks, vals);
  }

  lemma NamesAreTexts(values: seq<Column>)
    ensures Texts(Names(values)) == NameTexts(values) && Values(Bound(values)) == ColumnValues(values)
    ensures PlainNames(values) ==> AllPlain(Names(values))
  {
    hide Chars;
  }

  lemma InsertHead(table: string, names: string)
    requires Plain(table) && Plain(names)
    ensures var head := "INSERT INTO " + table + " (" + names + ") VALUES (";
            && Holes(head) == 0
            && Chars(head) == Chars("INSERT INTO ") + Chars(table) + Chars(" (") + Chars(names) + Chars(") VALUES (")
  {
    hide Chars, Holes;
    FixedText();
    PlainHasNoHoles(table);
    PlainHasNoHoles(names);
    Glued("INSERT INTO ", table, " (", names);
    HolesConcat("INSERT INTO " + table + " (" + names, ") VALUES (");
    CharsConcat("INSERT INTO ", table);
    CharsConcat("INSERT INTO " + table, " (");
    CharsConcat("INSERT INTO " + table + " (", names);
    CharsConcat("INSERT INTO " + table + " (" + names, ") VALUES (");
  }

  // ---- The main results -------------------------------------------------------------------

  /** A rendered statement says what its builder means exactly when in each condition, after an argument with a value
      in it, only single values follow: given that no other text has question marks, and that this holds of
      the subqueries it uses. Every value is then in its place: the k-th column of an INSERT or UPDATE has the
      k-th value, and every hole of a condition its own argument. */
  lemma {:induction false} StatementCarriesExactly(q: Query)
    requires AllQuestion(q) && ToSql(q).Ok? && PlainTexts(q) && SubsSayable(q)
    ensures q.operation == Insert || AllHoles(q.where) <= |q.args|
    ensures var (sql, vals) := ToSql(q).value;
            && Holes(sql) == |vals|
            && (Carried(sql, vals) == Meaning(q) <==> q.operation == Insert || AllInOrder(q.where, q.args))
    decreases q, 1
  {
    hide Carried, Holes, AllHoles, AllInOrder, WhereClause, Conditioned, Separated, Chars, Assignments, Assigned, Names,
      Join, SelectHead, SelectTail, Clause, ArgMeaning, Carries, HeadMeaning, TailMeaning, InsertSql, Sayable;
    if q.operation == Insert {
      InsertCarries(q);
    } else {
      ClauseIsOk(q);
      UsedCarry(q);
      ClauseCarries(q);
      var (text, vals) := WhereClause(q.dialect, q.where, Flats(q)).value;
      var meant := Separated(Conditioned(q.where, ArgMeanings(q)), " AND ");
      match q.operation
      case Select =>
        SelectCarries(q, text, vals, meant);
        SelectMeans(q, meant);
      case Update => UpdateCarries(q, text, vals, meant);
      case Delete => DeleteCarries(q, text, vals, meant);
    }
  }

  lemma SelectMeans(q: Query, meant: seq<Token>)
    requires q.operation == Select && meant == Separated(Conditioned(q.where, ArgMeanings(q)), " AND ")
    ensures Meaning(q) == HeadMeaning(q) + Optional(" WHERE ", meant) + TailMeaning(q)
  {
    hide Chars, Separated, Conditioned, Listed, Optional, Counted, ArgMeaning;
  }

  lemma UsedCarry(q: Query)
    requires AllQuestion(q) && q.operation != Insert && WhereClause(q.dialect, q.where, Flats(q)).Ok? && SubsSayable(q)
    ensures AllHoles(q.where) <= |q.args| && forall i :: 0 <= i < AllHoles(q.where) ==> Carries(q.args[i])
    decreases q, 0
  {
    hide AllHoles, WhereClause, Carries, ToSql, Meaning, Carried, Holes, AllInOrder, PlainTexts;
    ClauseUsesGood(q);
    forall i | 0 <= i < AllHoles(q.where)
      ensures Carries(q.args[i])
    {
      assert !Flats(q)[i].Bad?;
      if q.args[i].Sub? {
        var sub := q.args[i].query;
        assert Sayable(sub);
        StatementCarriesExactly(sub);
        SubCarries(sub);
      } else {
        ValueCarries(q.args[i]);
      }
    }
  }

  /** So a builder whose texts are plain and whose arguments come in order, in its subqueries too, is rendered to a
      statement that says what it means. */
  lemma StatementCarries(q: Query)
    requires AllQuestion(q) && ToSql(q).Ok? && Sayable(q)
    ensures var (sql, vals) := ToSql(q).value; Holes(sql) == |vals| && Carried(sql, vals) == Meaning(q)
  {
    hide ToSql, Meaning, Carried, Holes, AllInOrder;
    StatementCarriesExactly(q);
  }

  // ---- When there is no statement ---------------------------------------------------------

  /** Why a builder is not rendered, if it is not. */
  function Complaint(q: Query): Option<SqlError>
    decreases q, 1
  {
    if q.table == "" then Some(NoTable)
    else if (q.operation == Insert || q.operation == Update) && q.values == [] then Some(NoValues)
    else if q.operation == Insert then None
    else
      var clause := ClauseComplaint(q.where, ArgComplaints(q));
      if clause.Some? then clause
      else if (q.operation == Update || q.operation == Delete) && (q.where == [] || q.where == [""]) then
        Some(UnsafeWithoutWhere)
      else None
  }

  function ArgComplaints(q: Query): (r: seq<Option<SqlError>>)
    ensures |r| == |q.args|
    ensures forall i :: 0 <= i < |q.args| ==> r[i] == ArgComplaint(q.args[i])
    decreases q, 0
  {
    seq(|q.args|, i requires 0 <= i < |q.args| => ArgComplaint(q.args[i]))
  }

  function ArgComplaint(a: Arg): Option<SqlError>
    decreases a
  {
    if a.Sub? && Complaint(a.query).Some? then Some(InSubquery(Complaint(a.query).value)) else None
  }

  /** Condition by condition: too few arguments are left, or one of its own cannot be rendered. */
  function ClauseComplaint(where: seq<string>, complaints: seq<Option<SqlError>>): Option<SqlError>
    decreases |where|
  {
    if where == [] then None
    else
      var n := Holes(where[0]);
      if n > |complaints| then Some(MissingArgument)
      else if FirstOf(complaints[..n]).Some? then FirstOf(complaints[..n])
      else ClauseComplaint(where[1..], complaints[n..])
  }

  function FirstOf(complaints: seq<Option<SqlError>>): Option<SqlError> {
    if complaints == [] then None
    else if complaints[0].Some? then complaints[0]
    else FirstOf(complaints[1..])
  }

  function ComplaintOf(f: Flat): Option<SqlError> {
    if f.Bad? then Some(InSubquery(f.error)) else None
  }

  function ComplaintsOf(flats: seq<Flat>): seq<Option<SqlError>> {
    seq(|flats|, i requires 0 <= i < |flats| => ComplaintOf(flats[i]))
  }

  lemma {:induction false} FirstBadIsFirst(flats: seq<Flat>)
    ensures FirstBad(flats) == FirstOf(ComplaintsOf(flats))
  {
    if flats != [] {
      FirstBadIsFirst(flats[1..]);
      assert ComplaintsOf(flats)[1..] == ComplaintsOf(flats[1..]);
    }
  }

  lemma {:induction false} ConditionsComplain(d: Dialect, where: seq<string>, flats: seq<Flat>, offset: nat)
    ensures var r := Conditions(d, where, flats, offset);
            ClauseComplaint(where, ComplaintsOf(flats)) == if r.Err? then Some(r.error) else None
    decreases |where|
  {
    hide Holes, FillInTurn, Fillers, AllValues, FirstBad, FirstOf, ComplaintOf;
    if where != [] && Holes(where[0]) <= |flats| {
      var n := Holes(where[0]);
      FirstBadIsFirst(flats[..n]);
      assert ComplaintsOf(flats)[..n] == ComplaintsOf(flats[..n]) && ComplaintsOf(flats)[n..] == ComplaintsOf(flats[n..]);
      ConditionsComplain(d, where[1..], flats[n..], offset + |AllValues(flats[..n])|);
    }
  }

  lemma {:induction false} FillersAreTexts(d: Dialect, flats: seq<Flat>, offset: nat)
    requires FirstBad(flats).None?
    ensures TotalLength(Fillers(d, flats, offset)) >= |flats|
  {
    hide Numeral, Join;
    if flats != [] {
      FillersAreTexts(d, flats[1..], offset + |ValuesOf(flats[0])|);
      assert Filler(d, flats[0], offset) != "";
      assert Fillers(d, flats, offset)[1..] == Fillers(d, flats[1..], offset + |ValuesOf(flats[0])|);
    }
  }

  /** A clause is empty only where there is no condition, or an empty one alone. */
  lemma EmptyClause(d: Dialect, where: seq<string>, flats: seq<Flat>)
    requires WhereClause(d, where, flats).Ok?
    ensures WhereClause(d, where, flats).value.0 == "" <==> where == [] || where == [""]
  {
    hide Holes, FillInTurn, Fillers, AllValues, FirstBad;
    if where != [] {
      var n := Holes(where[0]);
      var parts := Conditions(d, where, flats, 0).value.0;
      FillersAreTexts(d, flats[..n], 0);
      FillCounts(where[0], Fillers(d, flats[..n], 0));
      assert |parts[0]| >= |where[0]|;
      if where[0] == "" {
        assert n == 0 && flats[..n] == [];
        NothingFilledIn(d);
      }
      if |where| > 1 {
        assert |Join(parts, " AND ")| >= |" AND "|;
      } else {
        assert where == [where[0]] && parts == [parts[0]];
      }
    }
  }

  lemma NothingFilledIn(d: Dialect)
    ensures Holes("") == 0 && FillInTurn("", Fillers(d, [], 0)) == ""
  {
  }

  /** A builder is rendered if and only if there is no complaint, and otherwise fails with the first one. */
  lemma {:induction false} RenderedUnlessComplaint(q: Query)
    ensures Complaint(q) == if ToSql(q).Err? then Some(ToSql(q).error) else None
    decreases q, 1
  {
    hide Conditions, Holes, Join, ArgComplaint, Flatten, ClauseComplaint, ComplaintOf, SelectHead, SelectTail, Clause, Names,
      Assignments, Marks;
    if q.table != "" && q.operation != Insert {
      ConditionsComplain(q.dialect, q.where, Flats(q), 0);
      ComplaintsAgree(q);
      if WhereClause(q.dialect, q.where, Flats(q)).Ok? {
        EmptyClause(q.dialect, q.where, Flats(q));
      }
    }
  }

  lemma ComplaintsAgree(q: Query)
    ensures ComplaintsOf(Flats(q)) == ArgComplaints(q)
    decreases q, 0
  {
    hide ToSql, Complaint;
    forall i | 0 <= i < |q.args|
      ensures ComplaintOf(Flats(q)[i]) == ArgComplaint(q.args[i])
    {
      if q.args[i].Sub? {
        RenderedUnlessComplaint(q.args[i].query);
      }
    }
  }
}
