/** Whole statements with numbered placeholders: what each number names, and which statements say what they mean. */
module SqlNumbered {
  import opened Wrappers
  import opened Decimal
  import opened SqlHoles
  import opened SqlBuilder
  import opened SqlMeaning
  import opened SqlPlaceholders
  import opened SqlStatements

  /** What a database makes of pieces and the values sent with them: $n is the n-th value. */
  function Named(pieces: seq<Piece>, vals: seq<Value>): (r: seq<Token>)
    ensures |r| == |pieces|
  {
    if pieces == [] then [] else [NamedPiece(pieces[0], vals)] + Named(pieces[1..], vals)
  }

  function NamedPiece(p: Piece, vals: seq<Value>): Token {
    match p
    case Lit(c) => Ch(c)
    case Mark(n) => if 1 <= n <= |vals| then Val(vals[n - 1]) else Missing(n)
  }

  lemma {:induction false} NamedConcat(a: seq<Piece>, b: seq<Piece>, vals: seq<Value>)
    ensures Named(a + b, vals) == Named(a, vals) + Named(b, vals)
  {
    hide NamedPiece;
    if a == [] {
      assert a + b == b;
    } else {
      NamedConcat(a[1..], b, vals);
      assert (a + b)[1..] == a[1..] + b;
    }
  }

  lemma {:induction false} NamedLits(s: string, vals: seq<Value>)
    ensures Named(Lits(s), vals) == Chars(s)
  {
    if s != "" {
      NamedLits(s[1..], vals);
      assert Lits(s)[1..] == Lits(s[1..]);
    }
  }

  lemma NamedOne(p: Piece, vals: seq<Value>)
    ensures Named([p], vals) == [NamedPiece(p, vals)]
  {
    assert [p][1..] == [];
  }

  // ---- Conditions -------------------------------------------------------------------------

  /** Values stand at a place in a list. */
  predicate StandAt(vals: seq<Value>, offset: nat, all: seq<Value>) {
    offset + |vals| <= |all| && all[offset..offset + |vals|] == vals
  }

  lemma StandSplit(a: seq<Value>, b: seq<Value>, offset: nat, all: seq<Value>)
    requires StandAt(a + b, offset, all)
    ensures StandAt(a, offset, all) && StandAt(b, offset + |a|, all)
  {
    assert all[offset..offset + |a + b|][..|a|] == all[offset..offset + |a|];
    assert all[offset..offset + |a + b|][|a|..] == all[offset + |a|..offset + |a + b|];
  }

  lemma {:induction false} NamedSlice(vs: seq<Value>, offset: nat, all: seq<Value>)
    requires StandAt(vs, offset, all)
    ensures Named(SlicePieces(offset, |vs|, 1), all) == Separated(Values(vs), ", ")
    decreases |vs|
  {
    if |vs| == 1 {
      NamedOne(Mark(offset + 1), all);
      assert vs[0] == all[offset..offset + 1][0];
      assert Values(vs) == [[Val(vs[0])]];
    } else if |vs| > 1 {
      assert vs == [vs[0]] + vs[1..];
      StandSplit([vs[0]], vs[1..], offset, all);
      NamedSlice(vs[1..], offset + 1, all);
      var head := [Mark(offset + 1), Lit(','), Lit(' ')];
      NamedConcat(head, SlicePieces(offset + 1, |vs| - 1, 1), all);
      NamedHead(offset, all, vs[0]);
      assert Values(vs)[1..] == Values(vs[1..]);
    }
  }

  lemma NamedHead(offset: nat, all: seq<Value>, v: Value)
    requires offset < |all| && all[offset] == v
    ensures Named([Mark(offset + 1), Lit(','), Lit(' ')], all) == [Val(v)] + Chars(", ")
  {
    assert [Mark(offset + 1), Lit(','), Lit(' ')] == [Mark(offset + 1)] + Lits(", ");
    NamedConcat([Mark(offset + 1)], Lits(", "), all);
    NamedOne(Mark(offset + 1), all);
    NamedLits(", ", all);
  }

  lemma NamedArg(a: Arg, offset: nat, all: seq<Value>)
    requires !a.Sub? && StandAt(ValuesOf(Flatten(a)), offset, all)
    ensures Named(FlatPieces(Flatten(a), offset, 1), all) == ArgMeaning(a)
  {
    hide SlicePieces, Separated;
    match a
    case Scalar(v) =>
      NamedOne(Mark(offset + 1), all);
      assert v == all[offset..offset + 1][0];
    case Slice(vs) =>
      if vs == [] {
        NamedLits("(NULL)", all);
      } else {
        var list := SlicePieces(offset, |vs|, 1);
        NamedSlice(vs, offset, all);
        NamedConcat([Lit('(')] + list, [Lit(')')], all);
        NamedConcat([Lit('(')], list, all);
        NamedOne(Lit('('), all);
        NamedOne(Lit(')'), all);
        assert Chars("(") == [Ch('(')] && Chars(")") == [Ch(')')];
      }
  }

  predicate NoSubs(args: seq<Arg>) {
    forall a :: a in args ==> !a.Sub?
  }

  lemma {:induction false} NamedPart(part: string, args: seq<Arg>, offset: nat, all: seq<Value>)
    requires Holes(part) == |args| && NoSubs(args) && StandAt(AllValues(FlattenAll(args)), offset, all)
    ensures Named(PartPieces(part, FlattenAll(args), offset, 1), all) == Filled(part, MeaningsOf(args))
    decreases |part|
  {
    hide Flatten, ArgMeaning, FlatPieces, ValuesOf, StandAt;
    var flats := FlattenAll(args);
    if part != "" {
      if part[0] == '?' {
        FlatStep(args);
        var rest := FlattenAll(args[1..]);
        StandSplit(ValuesOf(flats[0]), AllValues(rest), offset, all);
        NamedArg(args[0], offset, all);
        NamedPart(part[1..], args[1..], offset + |ValuesOf(flats[0])|, all);
        NamedConcat(FlatPieces(flats[0], offset, 1), PartPieces(part[1..], rest, offset + |ValuesOf(flats[0])|, 1), all);
        assert MeaningsOf(args)[1..] == MeaningsOf(args[1..]);
      } else {
        NamedPart(part[1..], args, offset, all);
        NamedConcat([Lit(part[0])], PartPieces(part[1..], flats, offset, 1), all);
        NamedOne(Lit(part[0]), all);
      }
    }
  }

  lemma {:induction false} NamedWhere(where: seq<string>, args: seq<Arg>, offset: nat, all: seq<Value>)
    requires AllHoles(where) <= |args| && NoSubs(args[..AllHoles(where)])
    requires StandAt(AllValues(FlattenAll(args)[..AllHoles(where)]), offset, all)
    ensures Named(WherePieces(where, FlattenAll(args), offset, 1), all)
            == Separated(Conditioned(where, MeaningsOf(args)), " AND ")
    decreases |where|
  {
    hide Holes, PartPieces, AllValues, Filled, Flatten, ArgMeaning, StandAt, Chars;
    if where != [] {
      var n, m, flats := Holes(where[0]), AllHoles(where), FlattenAll(args);
      FlattenSlice(args, n);
      var own, more := flats[..n], flats[n..][..m - n];
      assert own + more == flats[..m];
      ValuesConcat(own, more);
      StandSplit(AllValues(own), AllValues(more), offset, all);
      NoSubsSplit(args, n, m);
      NamedPart(where[0], args[..n], offset, all);
      var first := PartPieces(where[0], own, offset, 1);
      if |where| == 1 {
        assert Conditioned(where, MeaningsOf(args)) == [Filled(where[0], MeaningsOf(args[..n]))];
      } else {
        NamedWhere(where[1..], args[n..], offset + |AllValues(own)|, all);
        var rest := WherePieces(where[1..], flats[n..], offset + |AllValues(own)|, 1);
        NamedConcat(first + Lits(" AND "), rest, all);
        NamedConcat(first, Lits(" AND "), all);
        NamedLits(" AND ", all);
        assert Conditioned(where, MeaningsOf(args))[1..] == Conditioned(where[1..], MeaningsOf(args[n..]));
      }
    }
  }

  lemma NoSubsSplit(args: seq<Arg>, n: nat, m: nat)
    requires n <= m <= |args| && NoSubs(args[..m])
    ensures NoSubs(args[..n]) && NoSubs(args[n..][..m - n])
  {
    assert args[..n] == args[..m][..n] && args[n..][..m - n] == args[..m][n..];
  }

  lemma NoSubsNoSubqueries(args: seq<Arg>, n: nat)
    requires n <= |args| && NoSubs(args[..n])
    ensures NoSubqueries(FlattenAll(args)[..n])
  {
    hide ToSql;
    forall f | f in FlattenAll(args)[..n]
      ensures f.One? || f.Many?
    {
      var i :| 0 <= i < n && FlattenAll(args)[..n][i] == f;
      assert args[..n][i] == args[i];
    }
  }

  // ---- Text around a clause ---------------------------------------------------------------

  /** No dollar sign stands before a digit. */
  predicate NoNumber(s: string) {
    forall i :: 0 <= i < |s| - 1 ==> !(s[i] == '$' && IsDigit(s[i + 1]))
  }

  lemma {:induction false} CleanText(s: string)
    ensures Clean(Lits(s)) <==> NoNumber(s)
  {
    if |s| > 1 {
      CleanText(s[1..]);
      assert Lits(s)[1..] == Lits(s[1..]);
      assert forall i :: 0 <= i < |s[1..]| ==> s[1..][i] == s[i + 1];
      if NoNumber(s[1..]) && !(s[0] == '$' && IsDigit(s[1])) {
        forall i | 0 <= i < |s| - 1
          ensures !(s[i] == '$' && IsDigit(s[i + 1]))
        {
          assert i > 0 ==> s[1..][i - 1] == s[i] && s[1..][i] == s[i + 1];
        }
      }
    }
  }

  /** Text that ends and text that begins with something harmless. */
  predicate Ends(s: string) {
    s == "" || (s[|s| - 1] != '$')
  }

  predicate Begins(s: string) {
    s == "" || !IsDigit(s[0])
  }

  /** Pieces between two texts are read as they are exactly when all three are. */
  lemma ReadBetween(front: string, pieces: seq<Piece>, back: string)
    requires Ends(front) && Begins(back)
    ensures Spell(Lits(front) + pieces + Lits(back)) == front + Spell(pieces) + back
    ensures Lex(front + Spell(pieces) + back) == Lits(front) + pieces + Lits(back)
            <==> NoNumber(front) && Clean(pieces) && NoNumber(back)
  {
    hide Spell, Lex, Clean;
    var all := Lits(front) + pieces + Lits(back);
    SpellLits(front);
    SpellLits(back);
    SpellConcat(Lits(front) + pieces, Lits(back));
    SpellConcat(Lits(front), pieces);
    LexSpell(all);
    CleanText(front);
    CleanText(back);
    CleanConcat(Lits(front) + pieces, Lits(back));
    CleanConcat(Lits(front), pieces);
  }

  /** What is read of written pieces is what was meant, which differs in numbers only, exactly when all is clean and
      no number differs. */
  lemma ReadAsMeant(front: string, written: seq<Piece>, meant: seq<Piece>, back: string)
    requires Ends(front) && Begins(back) && Shape(written) == Shape(meant)
    ensures Lex(front + Spell(written) + back) == Lits(front) + meant + Lits(back)
            <==> NoNumber(front) && Clean(written) && NoNumber(back) && written == meant
  {
    hide Spell, Lex, Clean, Shape;
    var all, other := Lits(front) + written + Lits(back), Lits(front) + meant + Lits(back);
    ReadBetween(front, written, back);
    LexSpell(all);
    CleanText(front);
    CleanText(back);
    CleanConcat(Lits(front) + written, Lits(back));
    CleanConcat(Lits(front), written);
    ShapeConcat(Lits(front) + written, Lits(back));
    ShapeConcat(Lits(front), written);
    ShapeConcat(Lits(front) + meant, Lits(back));
    ShapeConcat(Lits(front), meant);
    assert Shape(all) == Shape(other);
    if all == other {
      assert all[|front|..|front| + |written|] == written;
      assert other[|front|..|front| + |meant|] == meant;
    }
  }

  // ---- INSERT -----------------------------------------------------------------------------

  lemma {:induction false} SpellMarks(offset: nat, n: nat)
    requires n > 0
    ensures Spell(SlicePieces(offset, n, 1)) == Join(MarksFrom(offset, n), ", ")
    decreases n
  {
    hide Numeral;
    var marks := MarksFrom(offset, n);
    MarksFromStep(offset, n);
    assert marks[0] == "$" + Numeral(offset + 1);
    var head := [Mark(offset + 1), Lit(','), Lit(' ')];
    if n == 1 {
      SpellOne(Mark(offset + 1));
    } else {
      SpellMarks(offset + 1, n - 1);
      SpellConcat(head, SlicePieces(offset + 1, n - 1, 1));
      SpellHead(offset + 1);
    }
  }

  function InsertFront(q: Query): string {
    "INSERT INTO " + q.table + " (" + Join(Names(q.values), ", ") + ") VALUES ("
  }

  /** A numbered INSERT is read as its own text with $1, $2 and so on exactly when table and columns hold no number
      of their own; it then says what its builder means, the k-th value in the k-th place. */
  lemma NumberedInsertCarries(q: Query)
    requires q.dialect == Numbered && q.operation == Insert && InsertSql(q).Ok?
    ensures var (sql, vals) := InsertSql(q).value;
            var pieces := Lits(InsertFront(q)) + SlicePieces(0, |q.values|, 1) + Lits(")");
            && (Lex(sql) == pieces <==> NoNumber(InsertFront(q)))
            && Named(pieces, vals) == Meaning(q)
  {
    hide Spell, Lex, Clean, Join, Names, Chars, SlicePieces, Separated, NoNumber;
    var vals, marks := Bound(q.values), SlicePieces(0, |q.values|, 1);
    var front := InsertFront(q);
    assert Marks(Numbered, |q.values|) == MarksFrom(0, |q.values|);
    SpellMarks(0, |q.values|);
    CleanSlice(0, |q.values|, 1);
    ReadBetween(front, marks, ")");
    assert NoNumber(")") by { NoNumberIn(")"); }
    assert InsertSql(q).value.0 == front + Join(MarksFrom(0, |q.values|), ", ") + ")";
    NamedConcat(Lits(front) + marks, Lits(")"), vals);
    NamedConcat(Lits(front), marks, vals);
    NamedLits(front, vals);
    NamedLits(")", vals);
    WholeStandsAt(vals);
    NamedSlice(vals, 0, vals);
    NamesAreTexts(q.values);
    var names := Join(Names(q.values), ", ");
    JoinChars(Names(q.values), ", ");
    CharsConcat("INSERT INTO ", q.table);
    CharsConcat("INSERT INTO " + q.table, " (");
    CharsConcat("INSERT INTO " + q.table + " (", names);
    CharsConcat("INSERT INTO " + q.table + " (" + names, ") VALUES (");
  }

  lemma NoNumberIn(s: string)
    requires '$' !in s
    ensures NoNumber(s)
  {
  }

  lemma WholeStandsAt(vals: seq<Value>)
    ensures StandAt(vals, 0, vals)
  {
    assert vals[0..|vals|] == vals;
  }

  // ---- SELECT and DELETE ------------------------------------------------------------------

  /** A clause inside a statement: the whole is read with the n-th hole naming the n-th value exactly when the text
      around it holds no number, no slice has two values or more, and no digit follows a dollar sign or the hole
      of a single value; what is meant says what the builder means. */
  lemma ClauseBetween(q: Query, front: string, back: string)
    requires AllHoles(q.where) <= |q.args| && NoSubs(q.args[..AllHoles(q.where)]) && Ends(front) && Begins(back)
    ensures WhereClause(Numbered, q.where, Flats(q)).Ok?
    ensures var n, flats := AllHoles(q.where), Flats(q);
            var (text, vals) := WhereClause(Numbered, q.where, flats).value;
            var pieces := Lits(front) + WherePieces(q.where, flats, 0, 1) + Lits(back);
            && (Lex(front + text + back) == pieces
                <==> NoNumber(front) && NoNumber(back) && ShortSlices(flats[..n]) && CleanWhere(q.where, flats))
            && Named(pieces, vals) == Chars(front) + Separated(Conditioned(q.where, ArgMeanings(q)), " AND ") + Chars(back)
  {
    hide Spell, Lex, Clean, Chars, WherePieces, Separated, NoNumber, Conditions, Join, AllValues, CleanWhere, ShortSlices,
      Conditioned, AllHoles, Flatten, ArgMeaning;
    var n, flats := AllHoles(q.where), FlattenAll(q.args);
    assert Flats(q) == flats && ArgMeanings(q) == MeaningsOf(q.args);
    NoSubsNoSubqueries(q.args, n);
    SpellWhere(q.where, flats, 0);
    var (text, vals) := WhereClause(Numbered, q.where, flats).value;
    var written, meant := WherePieces(q.where, flats, 0, 2), WherePieces(q.where, flats, 0, 1);
    CleanWherePieces(q.where, flats, 0, 2);
    CleanWherePieces(q.where, flats, 0, 1);
    WhereNumbers(q.where, flats, 0);
    ReadBetween(front, written, back);
    ReadAsMeant(front, written, meant, back);
    WholeStandsAt(vals);
    NamedWhere(q.where, q.args, 0, vals);
    NamedConcat(Lits(front) + meant, Lits(back), vals);
    NamedConcat(Lits(front), meant, vals);
    NamedLits(front, vals);
    NamedLits(back, vals);
  }

  /** A numbered DELETE. */
  lemma NumberedDeleteCarries(q: Query)
    requires q.dialect == Numbered && q.operation == Delete && ToSql(q).Ok?
    requires AllHoles(q.where) <= |q.args| && NoSubs(q.args[..AllHoles(q.where)])
    ensures var (sql, vals) := ToSql(q).value;
            var front, n, flats := "DELETE FROM " + q.table + " WHERE ", AllHoles(q.where), Flats(q);
            var pieces := Lits(front) + WherePieces(q.where, flats, 0, 1);
            && (Lex(sql) == pieces <==> NoNumber(front) && ShortSlices(flats[..n]) && CleanWhere(q.where, flats))
            && Named(pieces, vals) == Meaning(q)
  {
    hide Lex, Chars, WherePieces, Separated, NoNumber, Conditions, AllHoles, CleanWhere, ShortSlices, Conditioned,
      ArgMeaning, Flatten, Named, Join;
    var front := "DELETE FROM " + q.table + " WHERE ";
    ClauseBetween(q, front, "");
    NoNumberIn("");
    NoChars();
    var pieces := Lits(front) + WherePieces(q.where, Flats(q), 0, 1);
    assert Lits("") == [] && pieces + [] == pieces;
    var text := WhereClause(Numbered, q.where, Flats(q)).value.0;
    assert front + text + "" == front + text;
    CharsConcat("DELETE FROM ", q.table);
    CharsConcat("DELETE FROM " + q.table, " WHERE ");
  }

  /** A numbered SELECT. */
  lemma NumberedSelectCarries(q: Query)
    requires q.dialect == Numbered && q.operation == Select && ToSql(q).Ok? && q.where != [] && q.where != [""]
    requires AllHoles(q.where) <= |q.args| && NoSubs(q.args[..AllHoles(q.where)])
    ensures var (sql, vals) := ToSql(q).value;
            var front, back, n, flats := SelectHead(q) + " WHERE ", SelectTail(q), AllHoles(q.where), Flats(q);
            var pieces := Lits(front) + WherePieces(q.where, flats, 0, 1) + Lits(back);
            && (Lex(sql) == pieces
                <==> NoNumber(front) && NoNumber(back) && ShortSlices(flats[..n]) && CleanWhere(q.where, flats))
            && Named(pieces, vals) == Meaning(q)
  {
    hide Lex, Chars, WherePieces, Separated, NoNumber, Conditions, AllHoles, CleanWhere, ShortSlices, Conditioned,
      ArgMeaning, Flatten, Named, Join, SelectHead, SelectTail, HeadMeaning, TailMeaning;
    var front, back := SelectHead(q) + " WHERE ", SelectTail(q);
    TailBegins(q);
    ClauseBetween(q, front, back);
    EmptyClause(Numbered, q.where, Flats(q));
    var text := WhereClause(Numbered, q.where, Flats(q)).value.0;
    assert SelectHead(q) + (" WHERE " + text) + back == front + text + back;
    HeadCarries(q);
    TailCarries(q);
    CharsConcat(SelectHead(q), " WHERE ");
    var meant := Separated(Conditioned(q.where, ArgMeanings(q)), " AND ");
    SelectMeans(q, meant);
    NotEmpty(q, meant);
    assert HeadMeaning(q) + Chars(" WHERE ") + meant == HeadMeaning(q) + (Chars(" WHERE ") + meant);
  }

  lemma TailBegins(q: Query)
    ensures Begins(SelectTail(q))
  {
    hide Numeral, Join;
    var group, order := ListClause(" GROUP BY ", q.groupBy, ", "), ListClause(" ORDER BY ", q.orderBy, ", ");
    var having, limit, offset := Clause(" HAVING ", q.having), NumberClause(" LIMIT ", q.limit), NumberClause(" OFFSET ", q.offset);
    assert forall s :: s in [group, having, order, limit, offset] ==> s == "" || s[0] == ' ';
    BeginsConcat(group, having);
    BeginsConcat(group + having, order);
    BeginsConcat(group + having + order, limit);
    BeginsConcat(group + having + order + limit, offset);
  }

  lemma BeginsConcat(a: string, b: string)
    requires Begins(a) && Begins(b)
    ensures Begins(a + b)
  {
  }

  /** Conditions that are not empty mean something. */
  lemma NotEmpty(q: Query, meant: seq<Token>)
    requires meant == Separated(Conditioned(q.where, ArgMeanings(q)), " AND ") && q.where != [] && q.where != [""]
    requires AllHoles(q.where) <= |q.args|
    ensures meant != []
  {
    hide Conditioned, ArgMeaning;
    if |q.where| == 1 {
      assert q.where == [q.where[0]] && q.where[0] != "";
      assert AllHoles(q.where) == Holes(q.where[0]) + AllHoles([]);
      ConditionedOne(q.where, ArgMeanings(q));
      forall i | 0 <= i < |q.args|
        ensures ArgMeanings(q)[i] != []
      {
        ArgMeansSomething(q.args[i]);
      }
      FilledNotEmpty(q.where[0], ArgMeanings(q)[..Holes(q.where[0])]);
    } else {
      assert |Chars(" AND ")| == 5;
    }
  }

  lemma ConditionedOne(where: seq<string>, args: seq<seq<Token>>)
    requires |where| == 1 && Holes(where[0]) <= |args|
    ensures Conditioned(where, args) == [Filled(where[0], args[..Holes(where[0])])]
  {
    assert where[1..] == [];
  }

  lemma ArgMeansSomething(a: Arg)
    ensures ArgMeaning(a) != []
  {
    hide Meaning, Separated;
    assert |Chars("(")| == 1 && |Chars("(NULL)")| == 6;
  }

  lemma FilledNotEmpty(part: string, args: seq<seq<Token>>)
    requires part != "" && forall i :: 0 <= i < |args| ==> args[i] != []
    ensures Filled(part, args) != []
  {
  }

  // ---- UPDATE -----------------------------------------------------------------------------

  function SetPieces(values: seq<Column>, offset: nat): seq<Piece> {
    if values == [] then []
    else
      var first := Lits(values[0].name + " = ") + [Mark(offset + 1)];
      if |values| == 1 then first else first + Lits(", ") + SetPieces(values[1..], offset + 1)
  }

  function SetTexts(values: seq<Column>, offset: nat): (r: seq<string>)
    ensures |r| == |values|
  {
    seq(|values|, i requires 0 <= i < |values| => values[i].name + " = " + Placeholder(Numbered, offset + i))
  }

  lemma SetTextsStep(values: seq<Column>, offset: nat)
    requires values != []
    ensures SetTexts(values, offset)[0] == values[0].name + " = " + Placeholder(Numbered, offset)
    ensures SetTexts(values, offset)[1..] == SetTexts(values[1..], offset + 1)
  {
    hide Placeholder;
  }

  lemma {:induction false} SpellSets(values: seq<Column>, offset: nat)
    ensures Spell(SetPieces(values, offset)) == Join(SetTexts(values, offset), ", ")
    decreases |values|
  {
    hide Spell, Numeral, SetTexts;
    if values == [] {
      SpellNothing();
    } else {
      var name := values[0].name + " = ";
      var first := Lits(name) + [Mark(offset + 1)];
      SetTextsStep(values, offset);
      SpellLits(name);
      SpellOne(Mark(offset + 1));
      SpellConcat(Lits(name), [Mark(offset + 1)]);
      if |values| > 1 {
        SpellSets(values[1..], offset + 1);
        SpellLits(", ");
        SpellConcat(first, Lits(", "));
        SpellConcat(first + Lits(", "), SetPieces(values[1..], offset + 1));
      }
    }
  }

  /** No column name holds a number. */
  predicate NumberlessNames(values: seq<Column>) {
    forall i :: 0 <= i < |values| ==> NoNumber(values[i].name + " = ")
  }

  lemma {:induction false} CleanSets(values: seq<Column>, offset: nat)
    ensures Clean(SetPieces(values, offset)) <==> NumberlessNames(values)
    ensures values != [] ==> SetPieces(values, offset) != [] && SetPieces(values, offset)[|SetPieces(values, offset)| - 1].Mark?
    decreases |values|
  {
    hide Clean, NoNumber;
    if values == [] {
      CleanNothing();
    } else {
      var name := values[0].name + " = ";
      var first := Lits(name) + [Mark(offset + 1)];
      CleanText(name);
      CleanOne(Mark(offset + 1));
      CleanConcat(Lits(name), [Mark(offset + 1)]);
      NamesInTurn(values);
      if |values| == 1 {
        assert NumberlessNames(values[1..]);
      } else {
        var rest := SetPieces(values[1..], offset + 1);
        CleanSets(values[1..], offset + 1);
        CleanLits(", ");
        CleanConcat(first, Lits(", "));
        CleanConcat(first + Lits(", "), rest);
        assert (first + Lits(", "))[|first| + 1] == Lit(' ');
      }
    }
  }

  lemma NamesInTurn(values: seq<Column>)
    requires values != []
    ensures NumberlessNames(values) <==> NoNumber(values[0].name + " = ") && NumberlessNames(values[1..])
  {
    hide NoNumber;
    assert forall i :: 0 < i < |values| ==> values[i] == values[1..][i - 1];
  }

  lemma {:induction false} NamedSets(values: seq<Column>, offset: nat, all: seq<Value>)
    requires StandAt(Bound(values), offset, all)
    ensures Named(SetPieces(values, offset), all) == Separated(Assigned(values), ", ")
    decreases |values|
  {
    hide Chars, Named;
    if values == [] {
      NamedNothing(all);
    } else {
      var name, v := values[0].name + " = ", values[0].value;
      var first := Lits(name) + [Mark(offset + 1)];
      assert Bound(values) == [v] + Bound(values[1..]);
      StandSplit([v], Bound(values[1..]), offset, all);
      assert all[offset..offset + 1][0] == v;
      NamedLits(name, all);
      CharsConcat(values[0].name, " = ");
      NamedOne(Mark(offset + 1), all);
      NamedConcat(Lits(name), [Mark(offset + 1)], all);
      assert Assigned(values)[0] == Named(first, all);
      if |values| > 1 {
        NamedSets(values[1..], offset + 1, all);
        NamedLits(", ", all);
        NamedConcat(first, Lits(", "), all);
        NamedConcat(first + Lits(", "), SetPieces(values[1..], offset + 1), all);
        assert Assigned(values)[1..] == Assigned(values[1..]);
      }
    }
  }

  lemma NamedNothing(all: seq<Value>)
    ensures Named([], all) == []
  {
  }

  /** Two lists of values do the same for some pieces exactly when they agree on every number there. */
  lemma {:induction false} NamedAgree(pieces: seq<Piece>, a: seq<Value>, b: seq<Value>)
    ensures Named(pieces, a) == Named(pieces, b)
            <==> forall n :: n in MarkNumbers(pieces) ==> NamedPiece(Mark(n), a) == NamedPiece(Mark(n), b)
  {
    if pieces != [] {
      hide NamedPiece;
      NamedAgree(pieces[1..], a, b);
      assert pieces == [pieces[0]] + pieces[1..];
      assert Named(pieces, a)[1..] == Named(pieces[1..], a) && Named(pieces, b)[1..] == Named(pieces[1..], b);
      if pieces[0].Lit? {
        LitsAgree(pieces[0], a, b);
      } else {
        assert pieces[0] == Mark(pieces[0].n);
        assert pieces[0].n in MarkNumbers(pieces);
      }
      assert forall n :: n in MarkNumbers(pieces) <==> n in MarkNumbers(pieces[1..]) || pieces[0] == Mark(n);
    }
  }

  lemma LitsAgree(p: Piece, a: seq<Value>, b: seq<Value>)
    requires p.Lit?
    ensures NamedPiece(p, a) == NamedPiece(p, b)
  {
  }

  lemma NumbersAgree(pieces: seq<Piece>, own: seq<Value>, vals: seq<Value>)
    requires MarkNumbers(pieces) == Counting(0, |vals|)
    ensures Named(pieces, own + vals) == Named(pieces, vals) <==> forall i :: 0 <= i < |vals| ==> (own + vals)[i] == vals[i]
  {
    hide Named, MarkNumbers;
    NamedAgree(pieces, own + vals, vals);
    var numbers := Counting(0, |vals|);
    forall i | 0 <= i < |vals|
      ensures i + 1 in numbers
      ensures NamedPiece(Mark(i + 1), own + vals) == NamedPiece(Mark(i + 1), vals) <==> (own + vals)[i] == vals[i]
    {
      assert numbers[i] == i + 1;
    }
    assert forall n :: n in numbers ==> 1 <= n <= |vals|;
    if forall i :: 0 <= i < |vals| ==> (own + vals)[i] == vals[i] {
      forall n | n in numbers
        ensures NamedPiece(Mark(n), own + vals) == NamedPiece(Mark(n), vals)
      {
        assert (own + vals)[n - 1] == vals[n - 1];
      }
    }
  }

  function UpdatePieces(q: Query): seq<Piece>
    requires AllHoles(q.where) <= |q.args|
  {
    Lits("UPDATE " + q.table + " SET ") + (SetPieces(q.values, 0) + Lits(" WHERE ") + WherePieces(q.where, Flats(q), 0, 1))
  }

  /** What is read of a numbered UPDATE: $1, $2 and so on for the columns, and again from $1 on in its conditions. */
  lemma NumberedUpdateReads(q: Query)
    requires q.dialect == Numbered && q.operation == Update && ToSql(q).Ok?
    requires AllHoles(q.where) <= |q.args| && NoSubs(q.args[..AllHoles(q.where)])
    ensures var n, flats := AllHoles(q.where), Flats(q);
            Lex(ToSql(q).value.0) == UpdatePieces(q)
            <==> NoNumber("UPDATE " + q.table + " SET ") && NumberlessNames(q.values)
                 && ShortSlices(flats[..n]) && CleanWhere(q.where, flats)
  {
    hide Lex, Spell, WherePieces, NoNumber, Conditions, AllHoles, CleanWhere, ShortSlices, Flatten, Join, SetPieces,
      Clean, Shape, NumberlessNames, AllValues;
    var front, flats := "UPDATE " + q.table + " SET ", FlattenAll(q.args);
    assert Flats(q) == flats;
    NoSubsNoSubqueries(q.args, AllHoles(q.where));
    SpellWhere(q.where, flats, 0);
    var sets, text := SetPieces(q.values, 0), WhereClause(Numbered, q.where, flats).value.0;
    var two, one := WherePieces(q.where, flats, 0, 2), WherePieces(q.where, flats, 0, 1);
    SpellSets(q.values, 0);
    assert SetTexts(q.values, 0) == Assignments(Numbered, q.values);
    SpellLits(" WHERE ");
    SpellConcat(sets + Lits(" WHERE "), two);
    SpellConcat(sets, Lits(" WHERE "));
    var written, meant := sets + Lits(" WHERE ") + two, sets + Lits(" WHERE ") + one;
    NoNumberIn("");
    assert Lits("") == [] && UpdatePieces(q) + [] == UpdatePieces(q);
    var list := Join(Assignments(Numbered, q.values), ", ");
    assert ToSql(q).value.0 == front + (list + " WHERE " + text) + "";
    WhereNumbers(q.where, flats, 0);
    CleanWherePieces(q.where, flats, 0, 2);
    CleanSets(q.values, 0);
    CleanLits(" WHERE ");
    CleanConcat(sets + Lits(" WHERE "), two);
    CleanConcat(sets, Lits(" WHERE "));
    assert (sets + Lits(" WHERE "))[|sets| + 6] == Lit(' ');
    ShapeConcat(sets + Lits(" WHERE "), two);
    ShapeConcat(sets + Lits(" WHERE "), one);
    SamePrefix(sets + Lits(" WHERE "), two, one);
    ReadAsMeant(front, written, meant, "");
    assert Lits(front) + meant + [] == Lits(front) + meant;
  }

  lemma SamePrefix(front: seq<Piece>, a: seq<Piece>, b: seq<Piece>)
    ensures front + a == front + b <==> a == b
  {
    if front + a == front + b {
      assert a == (front + a)[|front|..] && b == (front + b)[|front|..];
    }
  }

  /** So an UPDATE with numbered placeholders says what its builder means exactly when the first values sent, those of
      its columns, happen to be those of its conditions, one by one. */
  lemma NumberedUpdateCarriesExactly(q: Query)
    requires q.dialect == Numbered && q.operation == Update && ToSql(q).Ok?
    requires AllHoles(q.where) <= |q.args| && NoSubs(q.args[..AllHoles(q.where)])
    ensures |q.values| <= |ToSql(q).value.1|
    ensures var vals := ToSql(q).value.1;
            Named(UpdatePieces(q), vals) == Meaning(q)
            <==> forall i :: 0 <= i < |vals| - |q.values| ==> vals[i] == vals[|q.values| + i]
  {
    hide Lex, Spell, WherePieces, NoNumber, Conditions, AllHoles, Flatten, Join, SetPieces, Named, Chars, Separated,
      Conditioned, ArgMeaning, Assigned, AllValues;
    var front, flats, n := "UPDATE " + q.table + " SET ", FlattenAll(q.args), AllHoles(q.where);
    assert Flats(q) == flats && ArgMeanings(q) == MeaningsOf(q.args);
    NoSubsNoSubqueries(q.args, n);
    SpellWhere(q.where, flats, 0);
    var own, vals := Bound(q.values), WhereClause(Numbered, q.where, flats).value.1;
    var sets, pieces := SetPieces(q.values, 0), WherePieces(q.where, flats, 0, 1);
    var all := own + vals;
    assert ToSql(q).value.1 == all;
    var body := sets + Lits(" WHERE ") + pieces;
    NamedConcat(Lits(front), body, all);
    NamedConcat(sets + Lits(" WHERE "), pieces, all);
    NamedConcat(sets, Lits(" WHERE "), all);
    NamedLits(front, all);
    NamedLits(" WHERE ", all);
    assert all[0..|own|] == own;
    NamedSets(q.values, 0, all);
    WholeStandsAt(vals);
    NamedWhere(q.where, q.args, 0, vals);
    CharsConcat("UPDATE ", q.table);
    CharsConcat("UPDATE " + q.table, " SET ");
    var head := Chars(front) + Separated(Assigned(q.values), ", ") + Chars(" WHERE ");
    var meant := Separated(Conditioned(q.where, ArgMeanings(q)), " AND ");
    assert Meaning(q) == head + meant;
    assert Named(UpdatePieces(q), all) == head + Named(pieces, all);
    SqlStatements.Before(head, Named(pieces, all), meant);
    MarksCountUp(q.where, flats, 0);
    NumbersAgree(pieces, own, vals);
    assert forall i :: 0 <= i < |vals| ==> all[|own| + i] == vals[i];
  }
}
