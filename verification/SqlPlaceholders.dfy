/** When a rendered WHERE clause says what was asked: exactly which conditions and arguments come out
    right, for numbered placeholders and for question marks. */
module SqlPlaceholders {
  import opened Wrappers
  import opened Decimal
  import opened SqlHoles
  import opened SqlBuilder
  import opened SqlMeaning
  import opened SqlCounting

  // ---- Clean pieces -----------------------------------------------------------------------

  predicate Meet(a: seq<Piece>, b: seq<Piece>) {
    a != [] && b != [] && Touches(a[|a| - 1], b[0])
  }

  lemma {:induction false} CleanConcat(a: seq<Piece>, b: seq<Piece>)
    ensures Clean(a + b) <==> Clean(a) && Clean(b) && !Meet(a, b)
  {
    hide Touches;
    if a == [] {
      assert a + b == b;
    } else {
      CleanConcat(a[1..], b);
      assert (a + b)[1..] == a[1..] + b;
      if |a| == 1 {
        assert a[1..] + b == b;
      } else {
        assert a[1..][|a[1..]| - 1] == a[|a| - 1];
        assert (a + b)[1] == a[1];
      }
    }
  }

  lemma {:induction false} CleanLits(s: string)
    requires '$' !in s
    ensures Clean(Lits(s))
  {
    if s != "" {
      CleanLits(s[1..]);
      assert Lits(s)[1..] == Lits(s[1..]);
    }
  }

  lemma {:induction false} CleanSlice(offset: nat, n: nat, step: nat)
    ensures Clean(SlicePieces(offset, n, step))
    ensures n > 0 ==> SlicePieces(offset, n, step) != [] && SlicePieces(offset, n, step)[0].Mark?
    decreases n
  {
    if n > 1 {
      var head, rest := [Mark(offset + 1), Lit(','), Lit(' ')], SlicePieces(offset + step, n - 1, step);
      CleanSlice(offset + step, n - 1, step);
      CleanConcat(head, rest);
      assert head[1..] == [Lit(','), Lit(' ')] && head[1..][1..] == [Lit(' ')];
    }
  }

  lemma CleanFlat(f: Flat, offset: nat, step: nat)
    requires f.One? || f.Many?
    ensures var pieces := FlatPieces(f, offset, step);
            && pieces != [] && Clean(pieces)
            && !(pieces[0].Lit? && IsDigit(pieces[0].c))
            && (pieces[|pieces| - 1].Mark? <==> f.One?)
            && pieces[|pieces| - 1] != Lit('$')
  {
    if f.Many? {
      if f.vs == [] {
        CleanLits("(NULL)");
      } else {
        hide SlicePieces;
        var list := SlicePieces(offset, |f.vs|, step);
        CleanSlice(offset, |f.vs|, step);
        CleanConcat([Lit('(')], list);
        CleanConcat([Lit('(')] + list, [Lit(')')]);
      }
    }
  }

  lemma PartStart(part: string, flats: seq<Flat>, offset: nat, step: nat)
    requires Holes(part) == |flats| && NoSubqueries(flats)
    ensures var pieces := PartPieces(part, flats, offset, step);
            && (pieces == [] <==> part == "")
            && (pieces != [] ==> (pieces[0].Lit? && IsDigit(pieces[0].c) <==> StartsWithDigit(part)))
  {
    hide FlatPieces;
    if part != "" && part[0] == '?' {
      assert flats[0] in flats;
      CleanFlat(flats[0], offset, step);
    }
  }

  /** A condition is clean in pieces exactly when it is clean as written. */
  lemma {:induction false} CleanPartPieces(part: string, flats: seq<Flat>, offset: nat, step: nat)
    requires Holes(part) == |flats| && NoSubqueries(flats)
    ensures Clean(PartPieces(part, flats, offset, step)) <==> CleanPart(part, flats)
  {
    hide FlatPieces, Clean, ValuesOf, NoSubqueries;
    if part == "" {
      CleanNothing();
    } else if part[0] == '?' {
      var later := offset + |ValuesOf(flats[0])|;
      NoSubqueriesIn(flats);
      CleanPartPieces(part[1..], flats[1..], later, step);
      CleanFlat(flats[0], offset, step);
      PartStart(part[1..], flats[1..], later, step);
      CleanConcat(FlatPieces(flats[0], offset, step), PartPieces(part[1..], flats[1..], later, step));
    } else {
      CleanPartPieces(part[1..], flats, offset, step);
      PartStart(part[1..], flats, offset, step);
      CleanOne(Lit(part[0]));
      CleanConcat([Lit(part[0])], PartPieces(part[1..], flats, offset, step));
    }
  }

  lemma CleanNothing()
    ensures Clean([])
  {
  }

  lemma CleanOne(p: Piece)
    ensures Clean([p])
  {
  }

  lemma {:induction false} CleanWherePieces(where: seq<string>, flats: seq<Flat>, offset: nat, step: nat)
    requires AllHoles(where) <= |flats| && NoSubqueries(flats[..AllHoles(where)])
    ensures Clean(WherePieces(where, flats, offset, step)) <==> CleanWhere(where, flats)
    decreases |where|
  {
    hide Clean, PartPieces, CleanPart, AllValues, Holes;
    if where == [] {
      CleanNothing();
    } else {
      var n := Holes(where[0]);
      UsedSplit(where, flats);
      var first := PartPieces(where[0], flats[..n], offset, step);
      CleanPartPieces(where[0], flats[..n], offset, step);
      if |where| == 1 {
        assert where[1..] == [];
      } else {
        var later := offset + |AllValues(flats[..n])|;
        var rest := WherePieces(where[1..], flats[n..], later, step);
        CleanWherePieces(where[1..], flats[n..], later, step);
        CleanLits(" AND ");
        CleanConcat(first, Lits(" AND "));
        CleanConcat(first + Lits(" AND "), rest);
        assert Lits(" AND ")[0] == Lit(' ') && (first + Lits(" AND "))[|first| + 4] == Lit(' ');
      }
    }
  }

  lemma UsedSplit(where: seq<string>, flats: seq<Flat>)
    requires where != [] && AllHoles(where) <= |flats| && NoSubqueries(flats[..AllHoles(where)])
    ensures var n := Holes(where[0]);
            && n + AllHoles(where[1..]) == AllHoles(where)
            && NoSubqueries(flats[..n]) && NoSubqueries(flats[n..][..AllHoles(where[1..])])
            && flats[..n] + flats[n..][..AllHoles(where[1..])] == flats[..AllHoles(where)]
  {
    hide NoSubqueries, Holes;
    var n, m := Holes(where[0]), AllHoles(where);
    var a, b := flats[..n], flats[n..][..m - n];
    assert a + b == flats[..m];
    NoneInHalves(a, b);
  }

  lemma NoneInHalves(a: seq<Flat>, b: seq<Flat>)
    requires NoSubqueries(a + b)
    ensures NoSubqueries(a) && NoSubqueries(b)
  {
    assert forall f :: f in a ==> f in a + b;
    assert forall f :: f in b ==> f in a + b;
  }

  // ---- Numbers ----------------------------------------------------------------------------

  lemma {:induction false} SliceShape(offset: nat, n: nat, step: nat, other: nat)
    ensures Shape(SlicePieces(offset, n, step)) == Shape(SlicePieces(other, n, 1))
    decreases n
  {
    if n > 1 {
      hide Shape;
      SliceShape(offset + step, n - 1, step, other + 1);
      ShapeThree(offset + 1, SlicePieces(offset + step, n - 1, step));
      ShapeThree(other + 1, SlicePieces(other + 1, n - 1, 1));
    } else if n == 1 {
      ShapeAt([Mark(offset + 1)]);
      ShapeAt([Mark(other + 1)]);
    }
  }

  lemma SliceTwice(offset: nat, n: nat)
    ensures SlicePieces(offset, n, 2) == SlicePieces(offset, n, 1) <==> n <= 1
  {
    if n > 1 {
      var two, one := SlicePieces(offset, n, 2), SlicePieces(offset, n, 1);
      SliceStart(offset + 2, n - 1, 2);
      SliceStart(offset + 1, n - 1, 1);
      assert two[3] == Mark(offset + 3) && one[3] == Mark(offset + 2);
    }
  }

  lemma SliceStart(offset: nat, n: nat, step: nat)
    requires n > 0
    ensures SlicePieces(offset, n, step) != [] && SlicePieces(offset, n, step)[0] == Mark(offset + 1)
  {
  }

  lemma {:induction false} ShapeConcat(a: seq<Piece>, b: seq<Piece>)
    ensures Shape(a + b) == Shape(a) + Shape(b)
  {
    hide Shape;
    if a == [] {
      assert a + b == b && Shape(a) == [];
    } else {
      ShapeConcat(a[1..], b);
      ShapeCons(a[0], a[1..]);
      ShapeCons(a[0], a[1..] + b);
      assert a == [a[0]] + a[1..];
      assert a + b == [a[0]] + (a[1..] + b);
    }
  }

  lemma ShapeThree(n: nat, rest: seq<Piece>)
    ensures Shape([Mark(n), Lit(','), Lit(' ')] + rest) == [None, Some(','), Some(' ')] + Shape(rest)
  {
    ShapeConcat([Mark(n), Lit(','), Lit(' ')], rest);
    ShapeAt([Mark(n), Lit(','), Lit(' ')]);
  }

  lemma FlatShape(f: Flat, offset: nat)
    ensures Shape(FlatPieces(f, offset, 2)) == Shape(FlatPieces(f, offset, 1))
    ensures |FlatPieces(f, offset, 2)| == |FlatPieces(f, offset, 1)|
    ensures FlatPieces(f, offset, 2) == FlatPieces(f, offset, 1) <==> (f.Many? ==> |f.vs| <= 1)
  {
    if f.Many? && f.vs != [] {
      hide SlicePieces, Shape;
      var two, one := SlicePieces(offset, |f.vs|, 2), SlicePieces(offset, |f.vs|, 1);
      SliceShape(offset, |f.vs|, 2, offset);
      SliceTwice(offset, |f.vs|);
      assert |Shape(two)| == |Shape(one)|;
      ShapeConcat([Lit('(')], two);
      ShapeConcat([Lit('(')], one);
      ShapeConcat([Lit('(')] + two, [Lit(')')]);
      ShapeConcat([Lit('(')] + one, [Lit(')')]);
      assert ([Lit('(')] + two + [Lit(')')])[1..|two| + 1] == two;
      assert ([Lit('(')] + one + [Lit(')')])[1..|one| + 1] == one;
    }
  }

  /** What is written and what is meant differ in numbers only, and not even there without a slice of
      two or more. */
  lemma {:induction false} PartNumbers(part: string, flats: seq<Flat>, offset: nat)
    requires Holes(part) == |flats|
    ensures Shape(PartPieces(part, flats, offset, 2)) == Shape(PartPieces(part, flats, offset, 1))
    ensures PartPieces(part, flats, offset, 2) == PartPieces(part, flats, offset, 1) <==> ShortSlices(flats)
  {
    hide FlatPieces, ValuesOf, Shape;
    if part == "" {
    } else if part[0] == '?' {
      var later := offset + |ValuesOf(flats[0])|;
      PartNumbers(part[1..], flats[1..], later);
      FlatShape(flats[0], offset);
      ShortHead(flats);
      SamePieces(FlatPieces(flats[0], offset, 2), FlatPieces(flats[0], offset, 1),
                 PartPieces(part[1..], flats[1..], later, 2), PartPieces(part[1..], flats[1..], later, 1));
    } else {
      PartNumbers(part[1..], flats, offset);
      SamePieces([Lit(part[0])], [Lit(part[0])],
                 PartPieces(part[1..], flats, offset, 2), PartPieces(part[1..], flats, offset, 1));
    }
  }

  lemma SamePieces(a: seq<Piece>, b: seq<Piece>, more: seq<Piece>, others: seq<Piece>)
    requires Shape(a) == Shape(b) && Shape(more) == Shape(others)
    ensures Shape(a + more) == Shape(b + others)
    ensures a + more == b + others <==> a == b && more == others
  {
    hide Shape;
    ShapeConcat(a, more);
    ShapeConcat(b, others);
    assert |a| == |Shape(a)| == |b|;
    assert (a + more)[..|a|] == a && (b + others)[..|b|] == b;
    assert (a + more)[|a|..] == more && (b + others)[|b|..] == others;
  }

  lemma ShortHead(flats: seq<Flat>)
    requires flats != []
    ensures ShortSlices(flats) <==> (flats[0].Many? ==> |flats[0].vs| <= 1) && ShortSlices(flats[1..])
  {
    assert flats == [flats[0]] + flats[1..];
  }

  lemma ShortConcat(a: seq<Flat>, b: seq<Flat>)
    ensures ShortSlices(a + b) <==> ShortSlices(a) && ShortSlices(b)
  {
    assert forall f :: f in a ==> f in a + b;
    assert forall f :: f in b ==> f in a + b;
  }

  lemma {:induction false} WhereNumbers(where: seq<string>, flats: seq<Flat>, offset: nat)
    requires AllHoles(where) <= |flats| && NoSubqueries(flats[..AllHoles(where)])
    ensures Shape(WherePieces(where, flats, offset, 2)) == Shape(WherePieces(where, flats, offset, 1))
    ensures WherePieces(where, flats, offset, 2) == WherePieces(where, flats, offset, 1)
            <==> ShortSlices(flats[..AllHoles(where)])
    decreases |where|
  {
    hide PartPieces, AllValues, Holes, Shape, ShortSlices;
    if where == [] {
      ShortNothing(flats);
    } else {
      var n, m := Holes(where[0]), AllHoles(where);
      UsedSplit(where, flats);
      PartNumbers(where[0], flats[..n], offset);
      var two, one := PartPieces(where[0], flats[..n], offset, 2), PartPieces(where[0], flats[..n], offset, 1);
      if |where| == 1 {
        assert where[1..] == [];
        assert flats[..n] == flats[..m];
      } else {
        var later := offset + |AllValues(flats[..n])|;
        WhereNumbers(where[1..], flats[n..], later);
        SamePieces(two, one, Lits(" AND "), Lits(" AND "));
        SamePieces(two + Lits(" AND "), one + Lits(" AND "),
                   WherePieces(where[1..], flats[n..], later, 2), WherePieces(where[1..], flats[n..], later, 1));
        ShortConcat(flats[..n], flats[n..][..m - n]);
      }
    }
  }

  lemma ShortNothing(flats: seq<Flat>)
    ensures ShortSlices(flats[..0])
  {
  }

  // ---- The clause -------------------------------------------------------------------------

  lemma {:induction false} SpellWhere(where: seq<string>, flats: seq<Flat>, offset: nat)
    requires AllHoles(where) <= |flats| && NoSubqueries(flats[..AllHoles(where)])
    ensures Conditions(Numbered, where, flats, offset).Ok?
    ensures var (parts, vals) := Conditions(Numbered, where, flats, offset).value;
            && Spell(WherePieces(where, flats, offset, 2)) == Join(parts, " AND ")
            && vals == AllValues(flats[..AllHoles(where)])
    decreases |where|
  {
    hide PartPieces, AllValues, Holes, FillInTurn, FillInPlace, Fillers, Spell, FirstBad;
    if where == [] {
      SpellNothing();
      NoValues(flats);
    } else {
      var n, m := Holes(where[0]), AllHoles(where);
      UsedSplit(where, flats);
      SpellPart(where[0], flats[..n], offset);
      NumbersSettle(where[0], flats[..n], offset);
      GoodArguments(flats[..n]);
      var later := offset + |AllValues(flats[..n])|;
      SpellWhere(where[1..], flats[n..], later);
      ValuesConcat(flats[..n], flats[n..][..m - n]);
      var parts, rest := Conditions(Numbered, where, flats, offset).value.0,
                         Conditions(Numbered, where[1..], flats[n..], later).value.0;
      assert parts[1..] == rest;
      if |where| > 1 {
        var first := PartPieces(where[0], flats[..n], offset, 2);
        SpellLits(" AND ");
        SpellConcat(first, Lits(" AND "));
        SpellConcat(first + Lits(" AND "), WherePieces(where[1..], flats[n..], later, 2));
      }
    }
  }

  lemma NoValues(flats: seq<Flat>)
    ensures AllValues(flats[..0]) == []
  {
  }

  lemma {:induction false} GoodArguments(flats: seq<Flat>)
    requires NoSubqueries(flats)
    ensures FirstBad(flats).None?
  {
    if flats != [] {
      assert flats[0] in flats && forall f :: f in flats[1..] ==> f in flats;
      GoodArguments(flats[1..]);
    }
  }

  lemma {:induction false} ValuesConcat(a: seq<Flat>, b: seq<Flat>)
    ensures AllValues(a + b) == AllValues(a) + AllValues(b)
  {
    hide ValuesOf;
    if a == [] {
      assert a + b == b;
    } else {
      ValuesConcat(a[1..], b);
      ValuesHead(a, b);
      var own, rest, more := ValuesOf(a[0]), AllValues(a[1..]), AllValues(b);
      hide AllValues;
      assert own + (rest + more) == (own + rest) + more;
    }
  }

  lemma ValuesHead(a: seq<Flat>, b: seq<Flat>)
    requires a != []
    ensures AllValues(a + b) == ValuesOf(a[0]) + AllValues(a[1..] + b)
    ensures AllValues(a) == ValuesOf(a[0]) + AllValues(a[1..])
  {
    hide ValuesOf;
    assert (a + b)[1..] == a[1..] + b;
  }

  /** With numbered placeholders and no subqueries, reading the clause gives the conditions with the
      n-th hole naming the n-th returned value, one after the other, exactly when no slice has two or
      more elements and no digit follows a dollar sign or the hole of a single value. */
  lemma NumberedClauseReadsBack(where: seq<string>, flats: seq<Flat>)
    requires AllHoles(where) <= |flats| && NoSubqueries(flats[..AllHoles(where)])
    ensures WhereClause(Numbered, where, flats).Ok?
    ensures var n := AllHoles(where);
            var (text, vals) := WhereClause(Numbered, where, flats).value;
            && vals == AllValues(flats[..n])
            && (Lex(text) == WherePieces(where, flats, 0, 1)
                <==> ShortSlices(flats[..n]) && CleanWhere(where, flats))
  {
    hide WherePieces, CleanWhere, Spell, Lex, Shape, Clean, ShortSlices, Conditions, Join, AllValues, AllHoles;
    var written, meant := WherePieces(where, flats, 0, 2), WherePieces(where, flats, 0, 1);
    SpellWhere(where, flats, 0);
    LexSpell(written);
    CleanWherePieces(where, flats, 0, 2);
    WhereNumbers(where, flats, 0);
  }

  // ---- Left to right ----------------------------------------------------------------------

  function MarkNumbers(pieces: seq<Piece>): seq<nat> {
    if pieces == [] then []
    else (if pieces[0].Mark? then [pieces[0].n] else []) + MarkNumbers(pieces[1..])
  }

  function Counting(offset: nat, n: nat): seq<nat> {
    seq(n, i requires 0 <= i => offset + i + 1)
  }

  lemma MarksCons(p: Piece, rest: seq<Piece>)
    ensures MarkNumbers([p] + rest) == (if p.Mark? then [p.n] else []) + MarkNumbers(rest)
  {
    assert ([p] + rest)[1..] == rest;
  }

  lemma {:induction false} MarksConcat(a: seq<Piece>, b: seq<Piece>)
    ensures MarkNumbers(a + b) == MarkNumbers(a) + MarkNumbers(b)
  {
    hide MarkNumbers;
    if a == [] {
      assert a + b == b;
      MarksOfNone();
    } else {
      MarksConcat(a[1..], b);
      MarksCons(a[0], a[1..]);
      MarksCons(a[0], a[1..] + b);
      assert a == [a[0]] + a[1..];
      assert a + b == [a[0]] + (a[1..] + b);
      var own := if a[0].Mark? then [a[0].n] else [];
      assert own + (MarkNumbers(a[1..]) + MarkNumbers(b)) == (own + MarkNumbers(a[1..])) + MarkNumbers(b);
    }
  }

  lemma MarksOfNone()
    ensures MarkNumbers([]) == []
  {
  }

  lemma CountingConcat(offset: nat, m: nat, n: nat)
    ensures Counting(offset, m) + Counting(offset + m, n) == Counting(offset, m + n)
  {
  }

  lemma {:induction false} MarksOfLits(s: string)
    ensures MarkNumbers(Lits(s)) == []
  {
    if s != "" {
      MarksOfLits(s[1..]);
      assert Lits(s)[1..] == Lits(s[1..]);
    }
  }

  lemma {:induction false} MarksOfSlice(offset: nat, n: nat)
    ensures MarkNumbers(SlicePieces(offset, n, 1)) == Counting(offset, n)
    decreases n
  {
    if n == 1 {
      assert [Mark(offset + 1)][1..] == [];
    } else if n > 1 {
      MarksOfSlice(offset + 1, n - 1);
      var head := [Mark(offset + 1), Lit(','), Lit(' ')];
      MarksConcat(head, SlicePieces(offset + 1, n - 1, 1));
      MarksOfThree(offset + 1);
      CountingConcat(offset, 1, n - 1);
    }
  }

  lemma MarksOfThree(n: nat)
    ensures MarkNumbers([Mark(n), Lit(','), Lit(' ')]) == [n]
  {
    var all := [Mark(n), Lit(','), Lit(' ')];
    assert all[1..] == [Lit(','), Lit(' ')] && all[1..][1..] == [Lit(' ')] && [Lit(' ')][1..] == [];
    assert MarkNumbers([Lit(' ')]) == [];
    assert MarkNumbers([Lit(','), Lit(' ')]) == [];
  }

  lemma MarksOfFlat(f: Flat, offset: nat)
    requires f.One? || f.Many?
    ensures MarkNumbers(FlatPieces(f, offset, 1)) == Counting(offset, |ValuesOf(f)|)
  {
    match f
    case One(_) => MarksOfOne(Mark(offset + 1));
    case Many(vs) =>
      if vs == [] {
        MarksOfLits("(NULL)");
      } else {
        hide MarkNumbers, SlicePieces;
        var list := SlicePieces(offset, |vs|, 1);
        MarksOfSlice(offset, |vs|);
        MarksOfOne(Lit('('));
        MarksOfOne(Lit(')'));
        MarksConcat([Lit('(')], list);
        MarksConcat([Lit('(')] + list, [Lit(')')]);
      }
  }

  lemma MarksOfOne(p: Piece)
    ensures MarkNumbers([p]) == if p.Mark? then [p.n] else []
  {
    assert [p][1..] == [];
  }

  lemma {:induction false} MarksOfPart(part: string, flats: seq<Flat>, offset: nat)
    requires Holes(part) == |flats| && NoSubqueries(flats)
    ensures MarkNumbers(PartPieces(part, flats, offset, 1)) == Counting(offset, |AllValues(flats)|)
  {
    hide FlatPieces, ValuesOf, MarkNumbers, Counting;
    if part == "" {
      MarksOfNone();
      NoCount(offset);
    } else if part[0] == '?' {
      var later := offset + |ValuesOf(flats[0])|;
      assert flats[0] in flats && forall f :: f in flats[1..] ==> f in flats;
      MarksOfPart(part[1..], flats[1..], later);
      MarksOfFlat(flats[0], offset);
      MarksConcat(FlatPieces(flats[0], offset, 1), PartPieces(part[1..], flats[1..], later, 1));
      CountingConcat(offset, |ValuesOf(flats[0])|, |AllValues(flats[1..])|);
    } else {
      MarksOfPart(part[1..], flats, offset);
      MarksOfOne(Lit(part[0]));
      MarksConcat([Lit(part[0])], PartPieces(part[1..], flats, offset, 1));
    }
  }

  lemma NoCount(offset: nat)
    ensures Counting(offset, 0) == []
  {
  }

  /** The placeholders meant, read left to right, are 1, 2, 3 and so on up to the number of values. */
  lemma {:induction false} MarksCountUp(where: seq<string>, flats: seq<Flat>, offset: nat)
    requires AllHoles(where) <= |flats| && NoSubqueries(flats[..AllHoles(where)])
    ensures MarkNumbers(WherePieces(where, flats, offset, 1)) == Counting(offset, |AllValues(flats[..AllHoles(where)])|)
    decreases |where|
  {
    hide PartPieces, AllValues, Holes, MarkNumbers, Counting;
    if where == [] {
      MarksOfNone();
      NoCount(offset);
      NoValues(flats);
    } else {
      var n, m := Holes(where[0]), AllHoles(where);
      UsedSplit(where, flats);
      MarksOfPart(where[0], flats[..n], offset);
      if |where| == 1 {
        assert where[1..] == [];
        assert flats[..n] == flats[..m];
      } else {
        var own := |AllValues(flats[..n])|;
        var first, rest := PartPieces(where[0], flats[..n], offset, 1), WherePieces(where[1..], flats[n..], offset + own, 1);
        MarksCountUp(where[1..], flats[n..], offset + own);
        MarksOfLits(" AND ");
        MarksConcat(first, Lits(" AND "));
        MarksConcat(first + Lits(" AND "), rest);
        ValuesConcat(flats[..n], flats[n..][..m - n]);
        CountingConcat(offset, own, |AllValues(flats[n..][..m - n])|);
      }
    }
  }

  /** A slice of two under PostgreSQL: the second placeholder names a third argument. */
  lemma SliceSkipsANumber()
    ensures Lex(Filler(Numbered, Many([7, 8]), 0)) == [Lit('('), Mark(1), Lit(','), Lit(' '), Mark(3), Lit(')')]
    ensures AllValues([Many([7, 8])]) == [7, 8]
  {
    hide Lex, Spell, Filler, Numeral;
    var pieces := FlatPieces(Many([7, 8]), 0, 2);
    assert SlicePieces(2, 1, 2) == [Mark(3)];
    assert pieces == [Lit('('), Mark(1), Lit(','), Lit(' '), Mark(3), Lit(')')];
    SpellFlat(Many([7, 8]), 0);
    CleanFlat(Many([7, 8]), 0, 2);
    LexSpell(pieces);
    assert AllValues([Many([7, 8])][1..]) == [];
  }

  // ---- PlaceholderSQL ---------------------------------------------------------------------

  function MarksFrom(offset: nat, n: nat): (r: seq<string>)
    ensures |r| == n
  {
    seq(n, j requires 0 <= j => Placeholder(Numbered, offset + j))
  }

  function NumberedFrom(s: string, offset: nat): string {
    FillInPlace(s, MarksFrom(offset, Holes(s)))
  }

  lemma NumberedStep(s: string, offset: nat)
    requires s != ""
    ensures var mark := s[0] == '?';
            NumberedFrom(s, offset) == (if mark then Placeholder(Numbered, offset) else [s[0]])
                                       + NumberedFrom(s[1..], if mark then offset + 1 else offset)
  {
    hide Placeholder;
    if s[0] == '?' {
      MarksFromStep(offset, Holes(s));
    }
  }

  lemma MarksFromStep(offset: nat, n: nat)
    requires n > 0
    ensures MarksFrom(offset, n)[0] == Placeholder(Numbered, offset)
    ensures MarksFrom(offset, n)[1..] == MarksFrom(offset + 1, n - 1)
  {
    hide Placeholder;
  }

  /** PostgreSQL's own rewriting of a statement: its question marks become $1, $2 and so on, in order. */
  method PlaceholderSQL(sql: string) returns (r: string)
    ensures r == FillInPlace(sql, MarksFrom(0, Holes(sql)))
  {
    assert NumberedFrom(sql, 0) == FillInPlace(sql, MarksFrom(0, Holes(sql)));
    hide Numeral, NumberedFrom, FillInPlace, MarksFrom, Holes, Placeholder;
    r := "";
    var i := 1;
    assert sql[0..] == sql;
    assert r + NumberedFrom(sql, 0) == NumberedFrom(sql, 0);
    for k := 0 to |sql|
      invariant i >= 1
      invariant r + NumberedFrom(sql[k..], i - 1) == NumberedFrom(sql, 0)
    {
      NumberedStep(sql[k..], i - 1);
      assert sql[k..][1..] == sql[k + 1..];
      Dollar(i);
      if sql[k] == '?' {
        Regroup(r, "$" + Numeral(i), NumberedFrom(sql[k + 1..], i));
        r := r + ("$" + Numeral(i));
        i := i + 1;
      } else {
        Regroup(r, [sql[k]], NumberedFrom(sql[k + 1..], i - 1));
        r := r + [sql[k]];
      }
    }
    assert sql[|sql|..] == "";
    NothingNumbered(i - 1);
    assert r + "" == r;
  }

  lemma Dollar(i: nat)
    requires i > 0
    ensures Placeholder(Numbered, i - 1) == "$" + Numeral(i)
  {
  }

  lemma Regroup(a: string, b: string, c: string)
    ensures a + (b + c) == (a + b) + c
  {
  }

  lemma NothingNumbered(offset: nat)
    ensures NumberedFrom("", offset) == ""
  {
  }

  // ---- Question marks ---------------------------------------------------------------------

  /** The conditions with every argument in the place of its own hole. */
  function InPlace(where: seq<string>, flats: seq<Flat>): (parts: seq<string>)
    requires AllHoles(where) <= |flats|
    ensures |parts| == |where|
  {
    if where == [] then []
    else
      var n := Holes(where[0]);
      [FillInPlace(where[0], Fillers(Question, flats[..n], 0))] + InPlace(where[1..], flats[n..])
  }

  predicate LeavesMark(f: Flat) {
    '?' in Filler(Question, f, 0)
  }

  /** In each condition, an argument that leaves a question mark is followed by single values only. */
  predicate SettledWhere(where: seq<string>, flats: seq<Flat>)
    requires AllHoles(where) <= |flats|
  {
    where == []
    || (SettledFlats(flats[..Holes(where[0])]) && SettledWhere(where[1..], flats[Holes(where[0])..]))
  }

  predicate SettledFlats(flats: seq<Flat>) {
    forall i, j :: 0 <= i < j < |flats| && LeavesMark(flats[i]) ==> flats[j].One?
  }

  /** The question marks written do not depend on what was collected before. */
  lemma {:induction false} FillersAnywhere(flats: seq<Flat>, offset: nat)
    ensures Fillers(Question, flats, offset) == Fillers(Question, flats, 0)
  {
    if flats != [] {
      hide Filler, ValuesOf;
      FillerAnywhere(flats[0], offset);
      FillersAnywhere(flats[1..], offset + |ValuesOf(flats[0])|);
      FillersAnywhere(flats[1..], |ValuesOf(flats[0])|);
    }
  }

  lemma {:induction false} FillersAt(flats: seq<Flat>)
    ensures forall i :: 0 <= i < |flats| ==> Fillers(Question, flats, 0)[i] == Filler(Question, flats[i], 0)
  {
    if flats != [] {
      hide Filler, ValuesOf;
      FillersAt(flats[1..]);
      FillersAnywhere(flats[1..], |ValuesOf(flats[0])|);
    }
  }

  lemma FillerIsMark(f: Flat)
    ensures Filler(Question, f, 0) == "?" <==> f.One?
    ensures !f.Bad? ==> Filler(Question, f, 0) == "?" || (Filler(Question, f, 0) != "" && Filler(Question, f, 0)[0] != '?')
  {
  }

  lemma {:induction false} OpenersWhenGood(flats: seq<Flat>)
    requires FirstBad(flats).None?
    ensures forall i :: 0 <= i < |flats| ==> !flats[i].Bad?
  {
    if flats != [] {
      OpenersWhenGood(flats[1..]);
    }
  }

  lemma PartInPlace(part: string, flats: seq<Flat>, offset: nat)
    requires Holes(part) == |flats| && FirstBad(flats).None?
    ensures var turned := FillInTurn(part, Fillers(Question, flats, offset));
            var placed := FillInPlace(part, Fillers(Question, flats, 0));
            && |turned| == |placed|
            && (turned == placed <==> SettledFlats(flats))
  {
    hide FillInTurn, FillInPlace, Fillers, Filler, Holes;
    var texts := Fillers(Question, flats, 0);
    FillersAnywhere(flats, offset);
    FillersAt(flats);
    OpenersWhenGood(flats);
    forall i | 0 <= i < |flats|
      ensures (texts[i] == "?" <==> flats[i].One?)
      ensures texts[i] == "?" || (texts[i] != "" && texts[i][0] != '?')
    {
      FillerIsMark(flats[i]);
    }
    assert Settled(texts) <==> SettledFlats(flats);
    InTurnIsInPlace(part, texts);
    FillCounts(part, texts);
    PlaceCounts(part, texts);
  }

  lemma JoinSame(a: string, b: string, more: seq<string>, others: seq<string>)
    requires |a| == |b| && |more| == |others|
    requires |Join(more, " AND ")| == |Join(others, " AND ")|
    requires Join(more, " AND ") == Join(others, " AND ") <==> more == others
    ensures |Join([a] + more, " AND ")| == |Join([b] + others, " AND ")|
    ensures Join([a] + more, " AND ") == Join([b] + others, " AND ") <==> a == b && more == others
  {
    hide Join;
    JoinCons(a, more);
    JoinCons(b, others);
    if more != [] {
      var x, y := Join([a] + more, " AND "), Join([b] + others, " AND ");
      assert x[..|a|] == a && y[..|b|] == b;
      assert x[|a| + 5..] == Join(more, " AND ") && y[|b| + 5..] == Join(others, " AND ");
    }
  }

  lemma JoinCons(a: string, more: seq<string>)
    ensures Join([a] + more, " AND ") == if more == [] then a else a + " AND " + Join(more, " AND ")
  {
    assert ([a] + more)[1..] == more;
  }

  lemma {:induction false} ClauseInPlace(where: seq<string>, flats: seq<Flat>, offset: nat)
    requires Conditions(Question, where, flats, offset).Ok?
    ensures AllHoles(where) <= |flats|
    ensures var parts := Conditions(Question, where, flats, offset).value.0;
            && |Join(parts, " AND ")| == |Join(InPlace(where, flats), " AND ")|
            && (Join(parts, " AND ") == Join(InPlace(where, flats), " AND ") <==> parts == InPlace(where, flats))
            && (parts == InPlace(where, flats) <==> SettledWhere(where, flats))
    decreases |where|
  {
    hide FillInTurn, FillInPlace, Fillers, Holes, FirstBad, AllValues, SettledFlats, Join;
    if where != [] {
      var n := Holes(where[0]);
      var used, later := flats[..n], offset + |AllValues(flats[..n])|;
      ClauseInPlace(where[1..], flats[n..], later);
      PartInPlace(where[0], used, offset);
      var turned, placed := FillInTurn(where[0], Fillers(Question, used, offset)),
                            FillInPlace(where[0], Fillers(Question, used, 0));
      var rest, others := Conditions(Question, where[1..], flats[n..], later).value.0, InPlace(where[1..], flats[n..]);
      JoinSame(turned, placed, rest, others);
      assert [turned] + rest == [placed] + others <==> turned == placed && rest == others by {
        assert ([turned] + rest)[0] == turned && ([placed] + others)[0] == placed;
        assert ([turned] + rest)[1..] == rest && ([placed] + others)[1..] == others;
      }
    }
  }

  /** With question marks, a rendered clause has every argument in the place of its own hole exactly when,
      within each condition, nothing but single values follows an argument that leaves a question mark. */
  lemma QuestionClauseReadsBack(where: seq<string>, flats: seq<Flat>)
    requires WhereClause(Question, where, flats).Ok?
    ensures AllHoles(where) <= |flats|
    ensures WhereClause(Question, where, flats).value.0 == Join(InPlace(where, flats), " AND ")
            <==> SettledWhere(where, flats)
  {
    hide Conditions, InPlace, SettledWhere, Join, AllHoles;
    ClauseInPlace(where, flats, 0);
  }

  /** A value and then a list in one condition, such as "a = ? AND b IN ?", always comes out wrong. */
  lemma ListLandsOnValue(part: string, v: Value, vs: seq<Value>)
    requires Holes(part) == 2
    ensures WhereClause(Question, [part], [One(v), Many(vs)]).Ok?
    ensures AllHoles([part]) == 2
    ensures WhereClause(Question, [part], [One(v), Many(vs)]).value.0
            != Join(InPlace([part], [One(v), Many(vs)]), " AND ")
  {
    var flats := [One(v), Many(vs)];
    assert [part][1..] == [] && flats[..2] == flats && flats[2..] == [];
    assert flats[1..] == [Many(vs)] && flats[1..][1..] == [];
    GoodArguments(flats);
    assert Conditions(Question, [], flats[2..], |AllValues(flats)|) == Ok(([], []));
    assert LeavesMark(flats[0]) && !flats[1].One?;
    assert !SettledFlats(flats);
    QuestionClauseReadsBack([part], flats);
  }
}
