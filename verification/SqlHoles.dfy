/** Text with holes, each a question mark, filled by replacing the first question mark over and over. */
module SqlHoles {

  /** strings.Count of the question mark. */
  function Holes(s: string): (n: nat)
    ensures n == 0 <==> '?' !in s
    ensures n <= |s|
  {
    if s == "" then 0 else Holes(s[1..]) + if s[0] == '?' then 1 else 0
  }

  /** strings.Replace of the first question mark. */
  function ReplaceFirst(s: string, text: string): string {
    if s == "" then "" else if s[0] == '?' then text + s[1..] else [s[0]] + ReplaceFirst(s[1..], text)
  }

  /** What the rendering loop does to a part: one replacement after the other. */
  function FillInTurn(s: string, texts: seq<string>): string
    decreases |texts|
  {
    if texts == [] then s else FillInTurn(ReplaceFirst(s, texts[0]), texts[1..])
  }

  /** What it is meant to do: the n-th text goes where the n-th hole of the part was. */
  function FillInPlace(s: string, texts: seq<string>): string
    requires Holes(s) == |texts|
  {
    if s == "" then ""
    else if s[0] == '?' then texts[0] + FillInPlace(s[1..], texts[1..])
    else [s[0]] + FillInPlace(s[1..], texts)
  }

  function TotalLength(texts: seq<string>): nat {
    if texts == [] then 0 else |texts[0]| + TotalLength(texts[1..])
  }

  function TotalHoles(texts: seq<string>): nat {
    if texts == [] then 0 else Holes(texts[0]) + TotalHoles(texts[1..])
  }

  /** A text that has a question mark of its own is followed by bare question marks only. */
  predicate Settled(texts: seq<string>) {
    forall i, j :: 0 <= i < j < |texts| && '?' in texts[i] ==> texts[j] == "?"
  }

  /** Replacement texts are either the bare question mark or start with something else. */
  predicate Openers(texts: seq<string>) {
    forall i :: 0 <= i < |texts| ==> texts[i] == "?" || (texts[i] != "" && texts[i][0] != '?')
  }

  predicate AllMarks(texts: seq<string>) {
    forall i :: 0 <= i < |texts| ==> texts[i] == "?"
  }

  // ---- Replacing --------------------------------------------------------------------------

  lemma {:induction false} HolesConcat(a: string, b: string)
    ensures Holes(a + b) == Holes(a) + Holes(b)
  {
    if a == "" {
      assert a + b == b;
    } else {
      HolesConcat(a[1..], b);
      assert (a + b)[1..] == a[1..] + b;
    }
  }

  lemma {:induction false} ReplaceAt(a: string, b: string, text: string)
    requires '?' !in a
    ensures ReplaceFirst(a + "?" + b, text) == a + text + b
  {
    var s := a + "?" + b;
    if a == "" {
      assert s[1..] == b;
    } else {
      ReplaceAt(a[1..], b, text);
      assert s[1..] == a[1..] + "?" + b;
      assert a == [a[0]] + a[1..];
      assert a + text + b == [a[0]] + (a[1..] + text + b);
    }
  }

  lemma {:induction false} ReplaceWithMark(s: string)
    ensures ReplaceFirst(s, "?") == s
  {
    if s != "" {
      ReplaceWithMark(s[1..]);
    }
  }

  lemma {:induction false} ReplaceCounts(s: string, text: string)
    requires '?' in s
    ensures Holes(ReplaceFirst(s, text)) == Holes(s) - 1 + Holes(text)
    ensures |ReplaceFirst(s, text)| == |s| - 1 + |text|
  {
    if s[0] == '?' {
      HolesConcat(text, s[1..]);
    } else {
      ReplaceCounts(s[1..], text);
      assert ReplaceFirst(s, text)[1..] == ReplaceFirst(s[1..], text);
    }
  }

  /** Text without holes in front is left alone. */
  lemma {:induction false} ReplaceBehind(a: string, s: string, text: string)
    requires '?' !in a
    ensures ReplaceFirst(a + s, text) == a + ReplaceFirst(s, text)
  {
    hide ReplaceFirst;
    var rest := ReplaceFirst(s, text);
    if a == "" {
      assert a + s == s && a + rest == rest;
    } else {
      ReplaceBehind(a[1..], s, text);
      ReplaceLater(a[0], a[1..] + s, text);
      Regroup(a, s);
      Regroup(a, rest);
    }
  }

  lemma Regroup(a: string, s: string)
    requires a != ""
    ensures a + s == [a[0]] + (a[1..] + s)
  {
  }

  lemma ReplaceLater(c: char, s: string, text: string)
    requires c != '?'
    ensures ReplaceFirst([c] + s, text) == [c] + ReplaceFirst(s, text)
  {
    assert ([c] + s)[1..] == s;
  }

  lemma {:induction false} FillBehind(a: string, s: string, texts: seq<string>)
    requires '?' !in a
    ensures FillInTurn(a + s, texts) == a + FillInTurn(s, texts)
    decreases |texts|
  {
    if texts != [] {
      ReplaceBehind(a, s, texts[0]);
      FillBehind(a, ReplaceFirst(s, texts[0]), texts[1..]);
    }
  }

  lemma AllMarksHead(texts: seq<string>)
    requires texts != []
    ensures AllMarks(texts) <==> texts[0] == "?" && AllMarks(texts[1..])
  {
    assert forall i :: 0 <= i < |texts[1..]| ==> texts[1..][i] == texts[i + 1];
    if texts[0] == "?" && AllMarks(texts[1..]) {
      forall i | 0 <= i < |texts|
        ensures texts[i] == "?"
      {
        if i > 0 {
          assert texts[1..][i - 1] == "?";
        }
      }
    }
  }

  lemma {:induction false} FillWithMarks(s: string, texts: seq<string>)
    requires AllMarks(texts)
    ensures FillInTurn(s, texts) == s
    decreases |texts|
  {
    if texts != [] {
      ReplaceWithMark(s);
      FillWithMarks(s, texts[1..]);
    }
  }

  lemma {:induction false} PlaceMarks(s: string, texts: seq<string>)
    requires AllMarks(texts) && Holes(s) == |texts|
    ensures FillInPlace(s, texts) == s
  {
    if s != "" {
      PlaceMarks(s[1..], if s[0] == '?' then texts[1..] else texts);
    }
  }

  /** Filling in turn adds up: no replacement is ever lost. */
  lemma {:induction false} FillCounts(s: string, texts: seq<string>)
    requires Holes(s) >= |texts|
    ensures Holes(FillInTurn(s, texts)) == Holes(s) - |texts| + TotalHoles(texts)
    ensures |FillInTurn(s, texts)| == |s| - |texts| + TotalLength(texts)
    decreases |texts|
  {
    if texts != [] {
      ReplaceCounts(s, texts[0]);
      FillCounts(ReplaceFirst(s, texts[0]), texts[1..]);
    }
  }

  lemma {:induction false} PlaceCounts(s: string, texts: seq<string>)
    requires Holes(s) == |texts|
    ensures |FillInPlace(s, texts)| == |s| - |texts| + TotalLength(texts)
  {
    if s != "" {
      PlaceCounts(s[1..], if s[0] == '?' then texts[1..] else texts);
    }
  }

  // ---- In turn against in place -----------------------------------------------------------

  lemma {:induction false} FirstHole(t: string) returns (k: nat)
    requires '?' in t
    ensures k < |t| && t[k] == '?' && '?' !in t[..k]
  {
    if t[0] == '?' {
      k := 0;
    } else {
      k := FirstHole(t[1..]);
      k := k + 1;
      assert t[..k] == [t[0]] + t[1..][..k - 1];
    }
  }

  /** Once a text has left a question mark behind, a text that is not one lands on it, for good. */
  lemma {:induction false} MarkIsLost(s: string, k: nat, texts: seq<string>)
    requires k < |s| && s[k] == '?' && '?' !in s[..k]
    requires Openers(texts) && !AllMarks(texts)
    ensures |FillInTurn(s, texts)| > k && FillInTurn(s, texts)[k] != '?'
    decreases |texts|
  {
    var text, rest := texts[0], texts[1..];
    AllMarksHead(texts);
    if text == "?" {
      ReplaceWithMark(s);
      MarkIsLost(s, k, rest);
    } else {
      var after := text[1..] + s[k + 1..];
      assert s == s[..k] + "?" + s[k + 1..];
      ReplaceAt(s[..k], s[k + 1..], text);
      var front := s[..k] + [text[0]];
      assert s[..k] + text + s[k + 1..] == front + after;
      FillBehind(front, after, rest);
    }
  }

  lemma SettledHead(texts: seq<string>)
    requires texts != []
    ensures Settled(texts) <==> Settled(texts[1..]) && ('?' in texts[0] ==> AllMarks(texts[1..]))
  {
    var rest := texts[1..];
    assert forall i :: 0 <= i < |rest| ==> rest[i] == texts[i + 1];
    if Settled(rest) && ('?' in texts[0] ==> AllMarks(rest)) {
      forall i, j | 0 <= i < j < |texts| && '?' in texts[i]
        ensures texts[j] == "?"
      {
        assert rest[j - 1] == texts[j];
        if i > 0 {
          assert rest[i - 1] == texts[i];
        }
      }
    }
  }

  /** Replacing the first question mark over and over puts every text where it belongs exactly when
      no text with a question mark in it is followed by anything but bare question marks. */
  lemma {:induction false} InTurnIsInPlace(s: string, texts: seq<string>)
    requires Holes(s) == |texts| && Openers(texts)
    ensures FillInTurn(s, texts) == FillInPlace(s, texts) <==> Settled(texts)
    decreases |s|, 1
  {
    if s == "" {
    } else if s[0] != '?' {
      InTurnIsInPlace(s[1..], texts);
      FillBehind([s[0]], s[1..], texts);
      assert s == [s[0]] + s[1..];
      assert ([s[0]] + FillInTurn(s[1..], texts))[1..] == FillInTurn(s[1..], texts);
      assert ([s[0]] + FillInPlace(s[1..], texts))[1..] == FillInPlace(s[1..], texts);
    } else {
      FillOneHole(s, texts);
    }
  }

  lemma FillOneHole(s: string, texts: seq<string>)
    requires s != "" && s[0] == '?' && Holes(s) == |texts| && Openers(texts)
    ensures FillInTurn(s, texts) == FillInPlace(s, texts) <==> Settled(texts)
    decreases |s|, 0
  {
    var t, left, rest := texts[0], s[1..], texts[1..];
    SettledHead(texts);
    if '?' !in t {
      InTurnIsInPlace(left, rest);
      FillBehind(t, left, rest);
      assert (t + FillInTurn(left, rest))[|t|..] == FillInTurn(left, rest);
      assert (t + FillInPlace(left, rest))[|t|..] == FillInPlace(left, rest);
    } else if AllMarks(rest) {
      FillWithMarks(t + left, rest);
      PlaceMarks(left, rest);
    } else {
      var k := FirstHole(t);
      assert (t + left)[..k] == t[..k];
      MarkIsLost(t + left, k, rest);
      assert FillInPlace(s, texts)[k] == '?';
    }
  }
}
