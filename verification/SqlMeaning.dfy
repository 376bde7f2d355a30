/** What a rendered condition says once its placeholders are read: with numbers, which argument each
    names; with question marks, whether each stands where its own hole was. */
module SqlMeaning {
  import opened Wrappers
  import opened Decimal
  import opened SqlHoles
  import opened SqlBuilder

  /** Text as PostgreSQL reads it: characters, and placeholders naming an argument by its number. */
  datatype Piece = Lit(c: char) | Mark(n: nat)

  function Lits(s: string): seq<Piece> {
    seq(|s|, i requires 0 <= i < |s| => Lit(s[i]))
  }

  function LeadingDigits(s: string): (k: nat)
    ensures k <= |s|
    ensures forall i :: 0 <= i < k ==> IsDigit(s[i])
    ensures k < |s| ==> !IsDigit(s[k])
  {
    if s == "" || !IsDigit(s[0]) then 0 else 1 + LeadingDigits(s[1..])
  }

  predicate StartsWithDigit(s: string) {
    s != "" && IsDigit(s[0])
  }

  /** A dollar sign and all the digits after it name an argument; anything else is itself. */
  function Lex(s: string): seq<Piece>
    decreases |s|
  {
    if s == "" then []
    else if s[0] == '$' && StartsWithDigit(s[1..]) then
      var k := LeadingDigits(s[1..]);
      [Mark(ValueOf(s[1..][..k]))] + Lex(s[1..][k..])
    else [Lit(s[0])] + Lex(s[1..])
  }

  function Spell(pieces: seq<Piece>): string {
    if pieces == [] then ""
    else SpellPiece(pieces[0]) + Spell(pieces[1..])
  }

  function SpellPiece(p: Piece): string {
    match p
    case Lit(c) => [c]
    case Mark(n) => "$" + Numeral(n)
  }

  /** A placeholder, or a dollar sign, right before a digit is read together with it. */
  predicate Touches(a: Piece, b: Piece) {
    b.Lit? && IsDigit(b.c) && (a.Mark? || a.c == '$')
  }

  predicate Clean(pieces: seq<Piece>) {
    if |pieces| <= 1 then true else !Touches(pieces[0], pieces[1]) && Clean(pieces[1..])
  }

  /** The text with the numbers forgotten. */
  function Shape(pieces: seq<Piece>): (r: seq<Option<char>>)
    ensures |r| == |pieces|
  {
    if pieces == [] then [] else [if pieces[0].Lit? then Some(pieces[0].c) else None] + Shape(pieces[1..])
  }

  // ---- Reading what was spelled -----------------------------------------------------------

  lemma {:induction false} DigitsThenText(digits: string, rest: string)
    requires forall c :: c in digits ==> IsDigit(c)
    ensures LeadingDigits(digits + rest) == |digits| + LeadingDigits(rest)
  {
    if digits == "" {
      assert digits + rest == rest;
    } else {
      assert digits[0] in digits && forall c :: c in digits[1..] ==> c in digits;
      DigitsThenText(digits[1..], rest);
      assert (digits + rest)[1..] == digits[1..] + rest;
    }
  }

  lemma SpellStart(pieces: seq<Piece>)
    ensures StartsWithDigit(Spell(pieces)) <==> pieces != [] && pieces[0].Lit? && IsDigit(pieces[0].c)
    ensures Spell(pieces) == "" <==> pieces == []
  {
  }

  /** Reading a placeholder takes exactly its own digits when no digit follows. */
  lemma LexMark(n: nat, rest: string)
    ensures Lex("$" + Numeral(n) + rest) != []
    ensures Lex("$" + Numeral(n) + rest)[0].Mark?
    ensures !StartsWithDigit(rest) ==> Lex("$" + Numeral(n) + rest) == [Mark(n)] + Lex(rest)
    ensures StartsWithDigit(rest) ==>
              Lex("$" + Numeral(n) + rest)[1..] == Lex(rest[LeadingDigits(rest)..])
  {
    hide Numeral, ValueOf, Lex, LeadingDigits;
    var t, k := Numeral(n) + rest, LeadingDigits(rest);
    DigitsThenText(Numeral(n), rest);
    LeadingStart(t);
    LeadingStart(rest);
    NumeralReadsBack(n);
    CutLater(Numeral(n), rest, k);
    LexDollar(t);
    assert "$" + t == "$" + Numeral(n) + rest;
    if !StartsWithDigit(rest) {
      assert Numeral(n) + rest[..0] == Numeral(n) && rest[0..] == rest;
    }
  }

  lemma CutLater(a: string, b: string, k: nat)
    requires k <= |b|
    ensures (a + b)[..|a| + k] == a + b[..k] && (a + b)[|a| + k..] == b[k..]
  {
  }

  lemma LeadingStart(s: string)
    ensures StartsWithDigit(s) <==> LeadingDigits(s) > 0
  {
  }

  lemma LexDollar(t: string)
    requires StartsWithDigit(t)
    ensures Lex("$" + t) == [Mark(ValueOf(t[..LeadingDigits(t)]))] + Lex(t[LeadingDigits(t)..])
  {
    hide ValueOf, LeadingDigits;
    assert ("$" + t)[1..] == t;
  }

  /** After all the digits comes no digit. */
  lemma LexNoDigit(s: string)
    ensures var after := s[LeadingDigits(s)..]; Lex(after) == [] || !(Lex(after)[0].Lit? && IsDigit(Lex(after)[0].c))
  {
  }

  /** Reading gives back the pieces spelled out, and at least their shape, exactly when no digit
      touches a placeholder or a dollar sign. */
  lemma {:induction false} LexSpell(pieces: seq<Piece>)
    ensures Shape(Lex(Spell(pieces))) == Shape(pieces) <==> Clean(pieces)
    ensures Clean(pieces) ==> Lex(Spell(pieces)) == pieces
  {
    hide Numeral, ValueOf;
    if pieces != [] {
      var rest := pieces[1..];
      LexSpell(rest);
      SpellStart(rest);
      match pieces[0]
      case Mark(n) => MarkFirst(n, rest, pieces);
      case Lit(c) => LitFirst(c, rest, pieces);
    }
  }

  lemma MarkFirst(n: nat, rest: seq<Piece>, pieces: seq<Piece>)
    requires pieces == [Mark(n)] + rest
    requires Shape(Lex(Spell(rest))) == Shape(rest) <==> Clean(rest)
    requires Clean(rest) ==> Lex(Spell(rest)) == rest
    ensures Shape(Lex(Spell(pieces))) == Shape(pieces) <==> Clean(pieces)
    ensures Clean(pieces) ==> Lex(Spell(pieces)) == pieces
  {
    hide Numeral, ValueOf;
    var text := Spell(rest);
    assert pieces[1..] == rest && Spell(pieces) == "$" + Numeral(n) + text;
    SpellStart(rest);
    LexMark(n, text);
    ShapeCons(Mark(n), rest);
    if StartsWithDigit(text) {
      LexNoDigit(text);
      var lexed := Lex(Spell(pieces));
      ShapeAt(lexed);
      ShapeAt(pieces);
      assert |lexed| > 1 ==> lexed[1] == lexed[1..][0];
      assert pieces[1] == rest[0];
    } else {
      ShapeCons(Mark(n), Lex(text));
      assert rest != [] ==> pieces[1] == rest[0];
    }
  }

  lemma LitFirst(c: char, rest: seq<Piece>, pieces: seq<Piece>)
    requires pieces == [Lit(c)] + rest
    requires Shape(Lex(Spell(rest))) == Shape(rest) <==> Clean(rest)
    requires Clean(rest) ==> Lex(Spell(rest)) == rest
    ensures Shape(Lex(Spell(pieces))) == Shape(pieces) <==> Clean(pieces)
    ensures Clean(pieces) ==> Lex(Spell(pieces)) == pieces
  {
    hide ValueOf;
    var text := Spell(rest);
    assert pieces[1..] == rest && Spell(pieces) == [c] + text && ([c] + text)[1..] == text;
    SpellStart(rest);
    ShapeCons(Lit(c), rest);
    assert rest != [] ==> pieces[1] == rest[0];
    if c == '$' && StartsWithDigit(text) {
      ShapeAt(Lex(Spell(pieces)));
      ShapeAt(pieces);
    } else {
      ShapeCons(Lit(c), Lex(text));
    }
  }

  lemma ShapeCons(p: Piece, rest: seq<Piece>)
    ensures Shape([p] + rest) == [if p.Lit? then Some(p.c) else None] + Shape(rest)
    ensures Shape([p] + rest)[1..] == Shape(rest)
  {
    assert ([p] + rest)[1..] == rest;
  }

  lemma {:induction false} ShapeAt(pieces: seq<Piece>)
    ensures forall i :: 0 <= i < |pieces| ==> Shape(pieces)[i] == if pieces[i].Lit? then Some(pieces[i].c) else None
  {
    if pieces != [] {
      ShapeAt(pieces[1..]);
    }
  }

  // ---- What is written, in pieces ---------------------------------------------------------

  /** The list for a slice of n values, its placeholders numbered in steps: from one to the next as they
      should be, or by two as they are. */
  function SlicePieces(offset: nat, n: nat, step: nat): seq<Piece>
    decreases n
  {
    if n == 0 then []
    else if n == 1 then [Mark(offset + 1)]
    else [Mark(offset + 1), Lit(','), Lit(' ')] + SlicePieces(offset + step, n - 1, step)
  }

  function FlatPieces(f: Flat, offset: nat, step: nat): seq<Piece> {
    match f
    case One(_) => [Mark(offset + 1)]
    case Many(vs) => if vs == [] then Lits("(NULL)") else [Lit('(')] + SlicePieces(offset, |vs|, step) + [Lit(')')]
    case Text(_, _) => []
    case Bad(_) => []
  }

  predicate NoSubqueries(flats: seq<Flat>) {
    forall f :: f in flats ==> f.One? || f.Many?
  }

  lemma NoSubqueriesIn(flats: seq<Flat>)
    requires NoSubqueries(flats) && flats != []
    ensures (flats[0].One? || flats[0].Many?) && NoSubqueries(flats[1..])
  {
  }

  function PartPieces(part: string, flats: seq<Flat>, offset: nat, step: nat): seq<Piece>
    requires Holes(part) == |flats|
  {
    if part == "" then []
    else if part[0] == '?' then
      FlatPieces(flats[0], offset, step) + PartPieces(part[1..], flats[1..], offset + |ValuesOf(flats[0])|, step)
    else [Lit(part[0])] + PartPieces(part[1..], flats, offset, step)
  }

  /** All the conditions: the n-th hole is to name the n-th value, a slice one value after the other. */
  function WherePieces(where: seq<string>, flats: seq<Flat>, offset: nat, step: nat): seq<Piece>
    requires AllHoles(where) <= |flats|
  {
    if where == [] then []
    else
      var n := Holes(where[0]);
      var first := PartPieces(where[0], flats[..n], offset, step);
      if |where| == 1 then first
      else first + Lits(" AND ") + WherePieces(where[1..], flats[n..], offset + |AllValues(flats[..n])|, step)
  }

  /** No slice of two or more. */
  predicate ShortSlices(flats: seq<Flat>) {
    forall f :: f in flats && f.Many? ==> |f.vs| <= 1
  }

  /** No digit right after a dollar sign or after the hole of a single value. */
  predicate CleanPart(part: string, flats: seq<Flat>)
    requires Holes(part) == |flats|
  {
    if part == "" then true
    else if part[0] == '?' then !(flats[0].One? && StartsWithDigit(part[1..])) && CleanPart(part[1..], flats[1..])
    else !(part[0] == '$' && StartsWithDigit(part[1..])) && CleanPart(part[1..], flats)
  }

  predicate CleanWhere(where: seq<string>, flats: seq<Flat>)
    requires AllHoles(where) <= |flats|
  {
    if where == [] then true
    else CleanPart(where[0], flats[..Holes(where[0])]) && CleanWhere(where[1..], flats[Holes(where[0])..])
  }

  // ---- Spelling ---------------------------------------------------------------------------

  lemma SpellCons(p: Piece, rest: seq<Piece>)
    ensures Spell([p] + rest) == SpellPiece(p) + Spell(rest)
  {
    hide SpellPiece;
    assert ([p] + rest)[1..] == rest;
  }

  lemma {:induction false} SpellConcat(a: seq<Piece>, b: seq<Piece>)
    ensures Spell(a + b) == Spell(a) + Spell(b)
  {
    hide Spell, SpellPiece;
    if a == [] {
      assert a + b == b;
      SpellNothing();
    } else {
      SpellConcat(a[1..], b);
      SpellCons(a[0], a[1..]);
      SpellCons(a[0], a[1..] + b);
      assert a == [a[0]] + a[1..];
      assert a + b == [a[0]] + (a[1..] + b);
      assert SpellPiece(a[0]) + (Spell(a[1..]) + Spell(b)) == (SpellPiece(a[0]) + Spell(a[1..])) + Spell(b);
    }
  }

  lemma {:induction false} SpellLits(s: string)
    ensures Spell(Lits(s)) == s
  {
    if s != "" {
      SpellLits(s[1..]);
      assert Lits(s)[1..] == Lits(s[1..]);
    }
  }

  lemma {:induction false} SpellSlice(offset: nat, n: nat)
    requires n > 0
    ensures Spell(SlicePieces(offset, n, 2)) == Join(SliceMarks(Numbered, offset, n), ", ")
    decreases n
  {
    hide Numeral;
    var marks := SliceMarks(Numbered, offset, n);
    assert marks[0] == "$" + Numeral(offset + 1);
    var head := [Mark(offset + 1), Lit(','), Lit(' ')];
    if n == 1 {
      assert Spell([]) == "" && [Mark(offset + 1)][1..] == [];
    } else {
      SpellSlice(offset + 2, n - 1);
      assert marks[1..] == SliceMarks(Numbered, offset + 2, n - 1);
      SpellConcat(head, SlicePieces(offset + 2, n - 1, 2));
      SpellHead(offset + 1);
    }
  }

  lemma SpellHead(n: nat)
    ensures Spell([Mark(n), Lit(','), Lit(' ')]) == "$" + Numeral(n) + ", "
  {
    hide Numeral;
    var all := [Mark(n), Lit(','), Lit(' ')];
    assert all[1..] == [Lit(','), Lit(' ')] && all[1..][1..] == [Lit(' ')] && [Lit(' ')][1..] == [];
    assert Spell([Lit(' ')]) == " ";
    assert Spell(all[1..]) == ", ";
  }

  lemma SpellOne(p: Piece)
    ensures Spell([p]) == SpellPiece(p)
  {
    hide Numeral;
    assert [p][1..] == [];
  }

  lemma SpellFlat(f: Flat, offset: nat)
    requires f.One? || f.Many?
    ensures Spell(FlatPieces(f, offset, 2)) == Filler(Numbered, f, offset)
  {
    hide Numeral;
    match f
    case One(_) => SpellOne(Mark(offset + 1));
    case Many(vs) =>
      if vs == [] {
        SpellLits("(NULL)");
      } else {
        hide Spell, Join, SlicePieces, SliceMarks;
        var list := SlicePieces(offset, |vs|, 2);
        SpellSlice(offset, |vs|);
        SpellOne(Lit('('));
        SpellOne(Lit(')'));
        SpellConcat([Lit('(')] + list, [Lit(')')]);
        SpellConcat([Lit('(')], list);
      }
  }

  lemma {:induction false} SpellPart(part: string, flats: seq<Flat>, offset: nat)
    requires Holes(part) == |flats| && NoSubqueries(flats)
    ensures Spell(PartPieces(part, flats, offset, 2)) == FillInPlace(part, Fillers(Numbered, flats, offset))
  {
    hide Filler, FlatPieces, ValuesOf, Spell, Fillers, NoSubqueries;
    if part == "" {
      SpellNothing();
    } else if part[0] == '?' {
      var later := offset + |ValuesOf(flats[0])|;
      NoSubqueriesIn(flats);
      SpellPart(part[1..], flats[1..], later);
      SpellFlat(flats[0], offset);
      SpellConcat(FlatPieces(flats[0], offset, 2), PartPieces(part[1..], flats[1..], later, 2));
      FillersStep(Numbered, flats, offset);
    } else {
      SpellPart(part[1..], flats, offset);
      SpellConcat([Lit(part[0])], PartPieces(part[1..], flats, offset, 2));
      SpellOne(Lit(part[0]));
    }
  }

  lemma SpellNothing()
    ensures Spell([]) == ""
  {
  }

  lemma FillersStep(d: Dialect, flats: seq<Flat>, offset: nat)
    requires flats != []
    ensures Fillers(d, flats, offset)[0] == Filler(d, flats[0], offset)
    ensures Fillers(d, flats, offset)[1..] == Fillers(d, flats[1..], offset + |ValuesOf(flats[0])|)
  {
  }

  /** With numbers nothing written has a question mark, so each text lands in its own hole. */
  lemma NumbersSettle(part: string, flats: seq<Flat>, offset: nat)
    requires Holes(part) == |flats| && NoSubqueries(flats)
    ensures FillInTurn(part, Fillers(Numbered, flats, offset)) == FillInPlace(part, Fillers(Numbered, flats, offset))
  {
    hide FillInTurn, FillInPlace, Holes;
    NumbersHaveNoMarks(flats, offset);
    MarklessSettle(Fillers(Numbered, flats, offset));
    InTurnIsInPlace(part, Fillers(Numbered, flats, offset));
  }

  predicate Markless(texts: seq<string>) {
    forall i :: 0 <= i < |texts| ==> '?' !in texts[i] && texts[i] != ""
  }

  lemma NothingIsMarkless()
    ensures Markless([])
  {
  }

  lemma MarklessCons(text: string, texts: seq<string>)
    requires '?' !in text && text != "" && Markless(texts)
    ensures Markless([text] + texts)
  {
  }

  lemma MarklessSettle(texts: seq<string>)
    requires Markless(texts)
    ensures Openers(texts) && Settled(texts)
  {
    assert forall i :: 0 <= i < |texts| ==> texts[i][0] in texts[i];
  }

  lemma {:induction false} NumbersHaveNoMarks(flats: seq<Flat>, offset: nat)
    requires NoSubqueries(flats)
    ensures Markless(Fillers(Numbered, flats, offset))
  {
    hide Filler, ValuesOf, Markless, NoSubqueries;
    if flats != [] {
      NoSubqueriesIn(flats);
      NumbersHaveNoMarks(flats[1..], offset + |ValuesOf(flats[0])|);
      NumberHasNoMark(flats[0], offset);
      MarklessCons(Filler(Numbered, flats[0], offset), Fillers(Numbered, flats[1..], offset + |ValuesOf(flats[0])|));
    } else {
      NothingIsMarkless();
    }
  }

  lemma NumberHasNoMark(f: Flat, offset: nat)
    requires f.One? || f.Many?
    ensures '?' !in Filler(Numbered, f, offset) && Filler(Numbered, f, offset) != ""
  {
    if f.Many? && f.vs != [] {
      hide Numeral, Join;
      SliceHasNoMark(offset, |f.vs|);
    }
  }

  lemma {:induction false} SliceHasNoMark(offset: nat, n: nat)
    ensures '?' !in Join(SliceMarks(Numbered, offset, n), ", ")
    decreases n
  {
    hide Numeral;
    var marks := SliceMarks(Numbered, offset, n);
    if n > 0 {
      assert marks[0] == "$" + Numeral(offset + 1);
    }
    if n > 1 {
      SliceHasNoMark(offset + 2, n - 1);
      assert marks[1..] == SliceMarks(Numbered, offset + 2, n - 1);
    }
  }
}
