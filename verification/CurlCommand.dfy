/** A request printed as a curl command line, and the POSIX shell's own reading of that line (sections
    2.2 and 2.3 of the Shell Command Language of IEEE Std 1003.1). */
module CurlCommand {
  import opened Wrappers

  // ---- The shell --------------------------------------------------------------------------

  predicate Blank(c: char) {
    c == ' ' || c == '\t'
  }

  /** Characters that stand for themselves outside quotes inside a word. */
  predicate Ordinary(c: char) {
    c !in " \t\n|&;<>()$`\\\"'*?["
  }

  /** And those that do so as its first character, where # begins a comment and ~ stands for a directory. */
  predicate Opens(c: char) {
    Ordinary(c) && c != '#' && c != '~'
  }

  /** Between words, in one, or inside quotes in one; with the text of the word so far. */
  datatype Place = Between | Unquoted(word: string) | Single(word: string) | Double(word: string)

  /** The words of a simple command. No words where the shell would do more than take quotes off: an
      operator, an expansion, a pattern, a comment, a second line, or a quote left open. */
  function Words(s: string, at: Place): Option<seq<string>>
    decreases |s|, 0
  {
    if s == "" then
      match at
      case Between => Some([])
      case Unquoted(word) => Some([word])
      case Single(_) => None
      case Double(_) => None
    else
      var c, rest := s[0], s[1..];
      match at
      case Between =>
        if Blank(c) then Words(rest, Between)
        else if c == '\\' && rest != "" && rest[0] == '\n' then Words(rest[1..], Between)
        else if c == '#' || c == '~' then None
        else Opening(c, rest, "")
      case Unquoted(word) =>
        if Blank(c) then
          match Words(rest, Between)
          case None => None
          case Some(words) => Some([word] + words)
        else Opening(c, rest, word)
      case Single(word) =>
        if c == '\'' then Words(rest, Unquoted(word)) else Words(rest, Single(word + [c]))
      case Double(word) =>
        if c == '"' then Words(rest, Unquoted(word))
        else if c == '$' || c == '`' then None
        else if c == '\\' && rest != "" && rest[0] in "$`\"\\" then Words(rest[1..], Double(word + [rest[0]]))
        else if c == '\\' && rest != "" && rest[0] == '\n' then Words(rest[1..], Double(word))
        else Words(rest, Double(word + [c]))
  }

  /** A character outside quotes that is not blank. A backslash before a newline joins two lines. */
  function Opening(c: char, rest: string, word: string): Option<seq<string>>
    decreases |rest|, 1
  {
    if c == '\'' then Words(rest, Single(word))
    else if c == '"' then Words(rest, Double(word))
    else if c == '\\' && rest != "" then Words(rest[1..], Unquoted(if rest[0] == '\n' then word else word + [rest[0]]))
    else if Ordinary(c) then Words(rest, Unquoted(word + [c]))
    else None
  }

  // ---- The printer ------------------------------------------------------------------------

  /** What the regular expression lets through unquoted. */
  predicate Plain(c: char) {
    'a' <= c <= 'z' || 'A' <= c <= 'Z' || '0' <= c <= '9' || c in "_@%+=:,./-"
  }

  predicate AllPlain(s: string) {
    forall i :: 0 <= i < |s| ==> Plain(s[i])
  }

  function Escape(s: string): string {
    if s == "" then "" else (if s[0] == '\'' then "'\"'\"'" else [s[0]]) + Escape(s[1..])
  }

  function CmdQuote(s: string): string {
    if s == "" then "''" else if AllPlain(s) then s else "'" + Escape(s) + "'"
  }

  /** A request: the headers in the order of their keys, the cookies as one header line, and the body
      if it has one. */
  datatype Field = Field(key: string, values: seq<string>)
  datatype Request = Request(verb: string, header: seq<Field>, cookies: Option<string>, body: Option<string>, url: string)

  function TrimNewlines(s: string): string {
    if s != "" && s[|s| - 1] == '\n' then TrimNewlines(s[..|s| - 1]) else s
  }

  function Lines(header: seq<Field>): seq<string> {
    if header == [] then [] else FieldLines(header[0], |header[0].values|) + Lines(header[1..])
  }

  function FieldLines(f: Field, n: nat): seq<string>
    requires n <= |f.values|
  {
    seq(n, i requires 0 <= i < n => f.key + ": " + f.values[i])
  }

  function Options(lines: seq<string>): seq<string> {
    if lines == [] then [] else ["-H", lines[0]] + Options(lines[1..])
  }

  function BodyOptions(body: Option<string>): seq<string> {
    if body.None? || body.value == "" then [] else ["-d", TrimNewlines(body.value)]
  }

  function CookieOptions(cookies: Option<string>): seq<string> {
    if cookies.None? then [] else ["-H", cookies.value]
  }

  function Rest(r: Request): seq<string> {
    Options(Lines(r.header)) + CookieOptions(r.cookies) + BodyOptions(r.body) + [r.url]
  }

  /** The argument list the command line is meant to give curl. */
  function Arguments(r: Request): seq<string> {
    ["curl", "-X", r.verb] + Rest(r)
  }

  predicate AllOrdinary(s: string) {
    forall i :: 0 <= i < |s| ==> Ordinary(s[i])
  }

  /** Text that the shell leaves alone as a word of its own. */
  predicate LeftAlone(s: string) {
    s != "" && Opens(s[0]) && AllOrdinary(s)
  }

  // ---- Reading quotes back ----------------------------------------------------------------

  lemma QuoteOpens(c: char, rest: string, word: string)
    requires c == '\'' || c == '"'
    ensures Words([c] + rest, Between) == Words(rest, if c == '"' then Double("") else Single(""))
    ensures Words([c] + rest, Unquoted(word)) == Words(rest, if c == '"' then Double(word) else Single(word))
  {
    assert ([c] + rest)[1..] == rest;
  }

  lemma QuoteCloses(rest: string, word: string)
    ensures Words("'" + rest, Single(word)) == Words(rest, Unquoted(word))
    ensures Words("\"" + rest, Double(word)) == Words(rest, Unquoted(word))
    ensures Words("'" + rest, Double(word)) == Words(rest, Double(word + "'"))
  {
    assert ("'" + rest)[1..] == rest && ("\"" + rest)[1..] == rest;
  }

  /** The way a quote is written inside quotes: out, a quote in double quotes, and in again. */
  lemma QuoteSwitch(rest: string, word: string)
    ensures Words("'\"'\"'" + rest, Single(word)) == Words(rest, Single(word + "'"))
  {
    hide Words;
    var s4 := "'" + rest;
    var s3 := "\"" + s4;
    var s2 := "'" + s3;
    var s1 := "\"" + s2;
    assert "'\"'\"'" + rest == "'" + s1;
    QuoteCloses(s1, word);
    QuoteOpens('"', s2, word);
    QuoteCloses(s3, word);
    QuoteCloses(s4, word + "'");
    QuoteOpens('\'', rest, word + "'");
  }

  lemma {:induction false} EscapedReadsBack(s: string, rest: string, word: string)
    ensures Words(Escape(s) + "'" + rest, Single(word)) == Words(rest, Unquoted(word + s))
  {
    if s == "" {
      assert Escape(s) + "'" + rest == "'" + rest && word + s == word;
      QuoteCloses(rest, word);
    } else {
      hide Words;
      var tail := Escape(s[1..]) + "'" + rest;
      EscapedReadsBack(s[1..], rest, word + [s[0]]);
      assert word + [s[0]] + s[1..] == word + s;
      if s[0] == '\'' {
        assert Escape(s) + "'" + rest == "'\"'\"'" + tail;
        QuoteSwitch(tail, word);
      } else {
        assert Escape(s) + "'" + rest == [s[0]] + tail;
        InQuotes(s[0], tail, word);
      }
    }
  }

  lemma InQuotes(c: char, rest: string, word: string)
    requires c != '\''
    ensures Words([c] + rest, Single(word)) == Words(rest, Single(word + [c]))
  {
    assert ([c] + rest)[1..] == rest;
  }

  lemma PlainIsOrdinary(c: char)
    requires Plain(c)
    ensures Opens(c) && !Blank(c) && c != '\'' && c != '"' && c != '\\'
  {
  }

  lemma {:induction false} OrdinaryReadsOn(s: string, rest: string, word: string)
    requires AllOrdinary(s)
    ensures Words(s + rest, Unquoted(word)) == Words(rest, Unquoted(word + s))
  {
    if s == "" {
      assert s + rest == rest && word + s == word;
    } else {
      OrdinaryReadsOn(s[1..], rest, word + [s[0]]);
      assert (s + rest)[1..] == s[1..] + rest && word + [s[0]] + s[1..] == word + s;
      assert Ordinary(s[0]);
    }
  }

  lemma OrdinaryReadsBack(s: string, rest: string)
    requires LeftAlone(s)
    ensures Words(s + rest, Between) == Words(rest, Unquoted(s))
  {
    OrdinaryReadsOn(s[1..], rest, [s[0]]);
    assert (s + rest)[1..] == s[1..] + rest && [s[0]] + s[1..] == s && "" + [s[0]] == [s[0]];
    assert Ordinary(s[0]);
  }

  /** Whatever the text, the shell reads its quoted form as one word with that text. */
  lemma QuoteReadsBack(s: string, rest: string)
    ensures Words(CmdQuote(s) + rest, Between) == Words(rest, Unquoted(s))
  {
    hide Words, Plain;
    if s == "" {
      assert "''" + rest == "'" + ("'" + rest);
      QuoteOpens('\'', "'" + rest, "");
      QuoteCloses(rest, "");
    } else if AllPlain(s) {
      forall i | 0 <= i < |s|
        ensures Opens(s[i])
      {
        PlainIsOrdinary(s[i]);
      }
      OrdinaryReadsBack(s, rest);
    } else {
      var inner := Escape(s) + "'" + rest;
      assert "'" + Escape(s) + "'" + rest == "'" + inner;
      QuoteOpens('\'', inner, "");
      EscapedReadsBack(s, rest, "");
      assert "" + s == s;
    }
  }

  // ---- Reading a command back -------------------------------------------------------------

  lemma BlankReads(rest: string, word: string)
    ensures Words(" " + rest, Unquoted(word))
            == match Words(rest, Between) case None => None case Some(words) => Some([word] + words)
  {
    assert (" " + rest)[1..] == rest;
  }

  lemma EndReads(word: string)
    ensures Words("", Unquoted(word)) == Some([word])
  {
  }

  function Spelled(words: seq<string>): string {
    if words == [] then "" else " " + CmdQuote(words[0]) + Spelled(words[1..])
  }

  /** Words printed one after the other, each quoted, come apart again. */
  lemma {:induction false} SpelledReadsBack(words: seq<string>, word: string)
    ensures Words(Spelled(words), Unquoted(word)) == Some([word] + words)
  {
    hide CmdQuote, Words;
    if words == [] {
      assert [word] + words == [word];
      EndReads(word);
    } else {
      var rest := Spelled(words[1..]);
      SpelledReadsBack(words[1..], words[0]);
      assert Spelled(words) == " " + (CmdQuote(words[0]) + rest);
      BlankReads(CmdQuote(words[0]) + rest, word);
      QuoteReadsBack(words[0], rest);
      assert [words[0]] + words[1..] == words;
    }
  }

  lemma {:induction false} SpelledConcat(a: seq<string>, b: seq<string>)
    ensures Spelled(a + b) == Spelled(a) + Spelled(b)
  {
    hide CmdQuote;
    if a == [] {
      assert a + b == b;
    } else {
      SpelledConcat(a[1..], b);
      assert (a + b)[1..] == a[1..] + b;
    }
  }

  /** The options are written without quotes; quoting would not have changed them. */
  lemma PlainWord(option: string)
    requires option != "" && AllPlain(option)
    ensures Spelled([option]) == " " + option
  {
    assert [option][1..] == [];
  }

  lemma TwoWords(option: string, s: string)
    requires option != "" && AllPlain(option)
    ensures Spelled([option, s]) == " " + option + " " + CmdQuote(s)
  {
    hide CmdQuote;
    assert [option, s] == [option] + [s] && [s][1..] == [];
    SpelledConcat([option], [s]);
    PlainWord(option);
  }

  lemma {:induction false} LinesMore(header: seq<Field>, n: nat)
    requires n < |header|
    ensures Lines(header[..n + 1]) == Lines(header[..n]) + FieldLines(header[n], |header[n].values|)
  {
    if n == 0 {
      assert header[..1][1..] == [] && header[..0] == [];
    } else {
      LinesMore(header[1..], n - 1);
      assert header[..n + 1][1..] == header[1..][..n] && header[..n][1..] == header[1..][..n - 1];
      assert header[1..][n - 1] == header[n];
    }
  }

  lemma {:induction false} OptionsMore(lines: seq<string>, line: string)
    ensures Options(lines + [line]) == Options(lines) + ["-H", line]
  {
    if lines == [] {
      assert lines + [line] == [line] && [line][1..] == [];
    } else {
      OptionsMore(lines[1..], line);
      assert (lines + [line])[1..] == lines[1..] + [line];
    }
  }

  method DumpCurlHeaders(header: seq<Field>) returns (lines: seq<string>)
    ensures lines == Lines(header)
  {
    lines := [];
    assert header[..0] == [];
    for n := 0 to |header|
      invariant lines == Lines(header[..n])
    {
      ghost var before := lines;
      for i := 0 to |header[n].values|
        invariant lines == before + FieldLines(header[n], i)
      {
        lines := lines + [header[n].key + ": " + header[n].values[i]];
      }
      LinesMore(header, n);
    }
    assert header[..|header|] == header;
  }

  /** The command line of a request. */
  function Line(r: Request): string {
    "curl -X " + r.verb + Spelled(Rest(r))
  }

  method BuildCurlCmd(r: Request) returns (command: string)
    ensures command == Line(r)
  {
    hide CmdQuote, Spelled, AllPlain, Lines, Options;
    command := "curl -X ";
    command := command + r.verb;
    var lines := DumpCurlHeaders(r.header);
    ghost var start := command;
    SpelledNothing();
    OptionsNothing();
    assert lines[..0] == [] && AllPlain("-H") && AllPlain("-d") by {
      PlainOptions();
    }
    for n := 0 to |lines|
      invariant command == start + Spelled(Options(lines[..n]))
    {
      assert lines[..n + 1] == lines[..n] + [lines[n]];
      OptionsMore(lines[..n], lines[n]);
      SpelledConcat(Options(lines[..n]), ["-H", lines[n]]);
      TwoWords("-H", lines[n]);
      command := command + " -H ";
      command := command + CmdQuote(lines[n]);
    }
    assert lines[..|lines|] == lines;
    ghost var words := Options(lines);
    if r.cookies.Some? {
      TwoWords("-H", r.cookies.value);
      command := command + " -H ";
      command := command + CmdQuote(r.cookies.value);
    }
    SpelledConcat(words, CookieOptions(r.cookies));
    words := words + CookieOptions(r.cookies);
    if r.body.Some? && |r.body.value| > 0 {
      TwoWords("-d", TrimNewlines(r.body.value));
      command := command + " -d ";
      command := command + CmdQuote(TrimNewlines(r.body.value));
    }
    SpelledConcat(words, BodyOptions(r.body));
    words := words + BodyOptions(r.body);
    command := command + " ";
    command := command + CmdQuote(r.url);
    SpelledConcat(words, [r.url]);
    OneWord(r.url);
  }

  lemma OptionsNothing()
    ensures Options([]) == []
  {
  }

  lemma PlainOptions()
    ensures AllPlain("-H") && AllPlain("-d")
  {
  }

  lemma SpelledNothing()
    ensures Spelled([]) == ""
  {
  }

  lemma OneWord(s: string)
    ensures Spelled([s]) == " " + CmdQuote(s)
  {
    assert [s][1..] == [];
  }

  lemma FirstWord(word: string, rest: string)
    requires LeftAlone(word)
    ensures Words(word + " " + rest, Between)
            == match Words(rest, Between) case None => None case Some(words) => Some([word] + words)
  {
    hide Words, Ordinary;
    assert word + " " + rest == word + (" " + rest);
    OrdinaryReadsBack(word, " " + rest);
    BlankReads(rest, word);
  }

  lemma FixedWords()
    ensures LeftAlone("curl") && LeftAlone("-X")
  {
  }

  /** The command line begins with two words that are read as they are. */
  lemma CommandStarts(rest: string)
    ensures Words("curl -X " + rest, Between)
            == match Words(rest, Between) case None => None case Some(words) => Some(["curl", "-X"] + words)
  {
    hide Words, LeftAlone;
    FixedWords();
    assert "curl -X " + rest == "curl" + " " + ("-X" + " " + rest);
    FirstWord("curl", "-X" + " " + rest);
    FirstWord("-X", rest);
    if Words(rest, Between).Some? {
      var words := Words(rest, Between).value;
      assert ["curl"] + (["-X"] + words) == ["curl", "-X"] + words;
    }
  }

  /** The command line printed for any request whose method the shell leaves alone is read back by the shell
      as exactly its argument list, whatever the headers, cookies, body and URL. */
  lemma CommandReadsBack(r: Request)
    requires LeftAlone(r.verb)
    ensures Words(Line(r), Between) == Some(Arguments(r))
  {
    hide Words, Spelled, Rest, LeftAlone;
    var end := Spelled(Rest(r));
    assert Line(r) == "curl -X " + (r.verb + end);
    CommandStarts(r.verb + end);
    SpelledReadsBack(Rest(r), r.verb);
    OrdinaryReadsBack(r.verb, end);
    assert ["curl", "-X"] + ([r.verb] + Rest(r)) == ["curl", "-X", r.verb] + Rest(r);
  }

  // ---- What quoting costs -----------------------------------------------------------------

  /** The length of words written out, one character between any two and one more. */
  function Weight(words: seq<string>): nat {
    if words == [] then 0 else |words[0]| + 1 + Weight(words[1..])
  }

  /** The most that the words read from some text on can weigh. */
  function Room(s: string, at: Place): nat {
    match at
    case Between => |s| + 1
    case Unquoted(word) => |s| + |word| + 1
    case Single(word) => |s| + |word|
    case Double(word) => |s| + |word|
  }

  predicate NoBlank(s: string) {
    forall i :: 0 <= i < |s| ==> !Blank(s[i])
  }

  predicate Unquoting(s: string) {
    forall i :: 0 <= i < |s| ==> Ordinary(s[i]) || Blank(s[i])
  }

  /** Quotes, backslashes and needless blanks take up text and give none: words that weigh all they can come
      from text without quoting, and hold no blanks. */
  ghost predicate Frugal(s: string, at: Place, words: seq<string>) {
    && Weight(words) <= Room(s, at)
    && (Weight(words) == Room(s, at) && at.Between? ==> Unquoting(s) && forall w :: w in words ==> NoBlank(w))
    && (Weight(words) == Room(s, at) && at.Unquoted? && NoBlank(at.word) ==>
          Unquoting(s) && forall w :: w in words ==> NoBlank(w))
  }

  lemma NoBlankSnoc(word: string, c: char)
    requires NoBlank(word) && !Blank(c)
    ensures NoBlank(word + [c])
  {
  }

  lemma WeightCons(word: string, words: seq<string>)
    ensures Weight([word] + words) == |word| + 1 + Weight(words)
    ensures forall w :: w in [word] + words <==> w == word || w in words
  {
    assert ([word] + words)[1..] == words;
  }

  lemma {:induction false} ReadingIsFrugal(s: string, at: Place)
    requires Words(s, at).Some?
    ensures Frugal(s, at, Words(s, at).value)
    decreases |s|, 0
  {
    if s == "" {
      if at.Unquoted? {
        WeightCons(at.word, []);
        assert [at.word] + [] == [at.word];
      }
    } else {
      var c, rest := s[0], s[1..];
      assert s == [c] + rest;
      match at
      case Between =>
        if Blank(c) {
          ReadingIsFrugal(rest, Between);
        } else if c == '\\' && rest != "" && rest[0] == '\n' {
          ReadingIsFrugal(rest[1..], Between);
        } else {
          OpeningIsFrugal(c, rest, "");
        }
      case Unquoted(word) =>
        if Blank(c) {
          ReadingIsFrugal(rest, Between);
          WeightCons(word, Words(rest, Between).value);
        } else {
          OpeningIsFrugal(c, rest, word);
        }
      case Single(word) =>
        ReadingIsFrugal(rest, if c == '\'' then Unquoted(word) else Single(word + [c]));
      case Double(word) =>
        if c == '"' {
          ReadingIsFrugal(rest, Unquoted(word));
        } else if c == '\\' && rest != "" && rest[0] in "$`\"\\" {
          ReadingIsFrugal(rest[1..], Double(word + [rest[0]]));
        } else if c == '\\' && rest != "" && rest[0] == '\n' {
          ReadingIsFrugal(rest[1..], Double(word));
        } else {
          ReadingIsFrugal(rest, Double(word + [c]));
        }
    }
  }

  lemma {:induction false} OpeningIsFrugal(c: char, rest: string, word: string)
    requires !Blank(c) && Opening(c, rest, word).Some?
    ensures Frugal([c] + rest, Unquoted(word), Opening(c, rest, word).value)
    decreases |rest|, 1
  {
    if c == '\'' {
      ReadingIsFrugal(rest, Single(word));
    } else if c == '"' {
      ReadingIsFrugal(rest, Double(word));
    } else if c == '\\' && rest != "" {
      ReadingIsFrugal(rest[1..], Unquoted(if rest[0] == '\n' then word else word + [rest[0]]));
    } else {
      ReadingIsFrugal(rest, Unquoted(word + [c]));
      if NoBlank(word) {
        NoBlankSnoc(word, c);
      }
    }
  }

  // ---- Which methods are safe -------------------------------------------------------------

  /** A request with nothing but a method and a short URL. */
  function BareRequest(verb: string): Request {
    Request(verb, [], None, None, "u")
  }

  /** If even the bare request is read back, the method must be left alone. */
  lemma BareReadsBack(verb: string)
    requires Words(Line(BareRequest(verb)), Between) == Some(Arguments(BareRequest(verb)))
    ensures LeftAlone(verb)
  {
    hide Words, Frugal;
    var line := verb + " u";
    BareForm(verb);
    CommandStarts(line);
    var words := Words(line, Between).value;
    assert (["curl", "-X"] + words)[2..] == words;
    assert words == [verb, "u"];
    ReadingIsFrugal(line, Between);
    WeightCons(verb, ["u"]);
    WeightCons("u", []);
    assert ["u"] + [] == ["u"] && [verb] + ["u"] == [verb, "u"];
    FrugalAtMost(line, words);
    assert verb in words;
    forall i | 0 <= i < |verb|
      ensures Ordinary(verb[i])
    {
      assert line[i] == verb[i];
    }
    VerbOpens(verb, line);
  }

  lemma BareForm(verb: string)
    ensures Line(BareRequest(verb)) == "curl -X " + (verb + " u")
    ensures Arguments(BareRequest(verb)) == ["curl", "-X", verb, "u"]
  {
    OneWord("u");
    assert Rest(BareRequest(verb)) == ["u"];
    assert Plain('u') && CmdQuote("u") == "u";
  }

  lemma FrugalAtMost(s: string, words: seq<string>)
    requires Frugal(s, Between, words) && Weight(words) == |s| + 1
    ensures Unquoting(s) && forall w :: w in words ==> NoBlank(w)
  {
  }

  lemma VerbOpens(verb: string, line: string)
    requires line == verb + " u" && Words(line, Between) == Some([verb, "u"]) && AllOrdinary(verb)
    ensures verb != "" && Opens(verb[0])
  {
    if verb == "" {
      assert line == " u" && line[1..] == "u";
      BlankSkipped("u");
      FixedU();
    }
  }

  lemma BlankSkipped(rest: string)
    ensures Words(" " + rest, Between) == Words(rest, Between)
  {
    assert (" " + rest)[1..] == rest;
  }

  lemma FixedU()
    ensures Words("u", Between) == Some(["u"])
  {
    OrdinaryReadsBack("u", "");
    assert "u" + "" == "u";
    EndReads("u");
  }

  /** A method is printed as it is. Every request with it is read back as its arguments if and only if the
      shell leaves the method alone; an ampersand, a quote or a star in it is enough for one that is not. */
  lemma MethodsReadBackExactly(verb: string)
    ensures (forall r: Request :: r.verb == verb ==> Words(Line(r), Between) == Some(Arguments(r))) <==> LeftAlone(verb)
  {
    hide Words, LeftAlone, Line, Arguments;
    if LeftAlone(verb) {
      forall r: Request | r.verb == verb
        ensures Words(Line(r), Between) == Some(Arguments(r))
      {
        CommandReadsBack(r);
      }
    } else {
      var r := BareRequest(verb);
      assert r.verb == verb;
      if Words(Line(r), Between) == Some(Arguments(r)) {
        BareReadsBack(verb);
      }
    }
  }

  // ---- What curl is told ------------------------------------------------------------------

  /** Arguments as curl reads them: a method, header lines, data, and whatever else there is as URLs. */
  datatype Told = Told(verb: Option<string>, lines: seq<string>, data: Option<string>, urls: seq<string>)

  function Tell(args: seq<string>, t: Told): Told
    decreases |args|
  {
    if args == [] then t
    else if |args| > 1 && args[0] == "-X" then Tell(args[2..], t.(verb := Some(args[1])))
    else if |args| > 1 && args[0] == "-H" then Tell(args[2..], t.(lines := t.lines + [args[1]]))
    else if |args| > 1 && args[0] == "-d" then Tell(args[2..], t.(data := Some(args[1])))
    else Tell(args[1..], t.(urls := t.urls + [args[0]]))
  }

  /** Every value of every header, with its key. */
  function Pairs(header: seq<Field>): seq<(string, string)> {
    if header == [] then []
    else
      var f := header[0];
      seq(|f.values|, i requires 0 <= i < |f.values| => (f.key, f.values[i])) + Pairs(header[1..])
  }

  function PairLines(pairs: seq<(string, string)>): seq<string> {
    seq(|pairs|, i requires 0 <= i < |pairs| => pairs[i].0 + ": " + pairs[i].1)
  }

  /** The text that is left of a body: all but the newlines at its end. */
  ghost predicate IsTrimmed(body: string, data: string) {
    && |data| <= |body| && data == body[..|data|]
    && (forall i :: |data| <= i < |body| ==> body[i] == '\n')
    && (data != "" ==> data[|data| - 1] != '\n')
  }

  lemma {:induction false} TrimmedMeans(body: string)
    ensures IsTrimmed(body, TrimNewlines(body))
  {
    if body != "" && body[|body| - 1] == '\n' {
      TrimmedMeans(body[..|body| - 1]);
    }
  }

  lemma {:induction false} LinesArePairs(header: seq<Field>)
    ensures Lines(header) == PairLines(Pairs(header))
  {
    if header != [] {
      LinesArePairs(header[1..]);
      var f := header[0];
      var own := seq(|f.values|, i requires 0 <= i < |f.values| => (f.key, f.values[i]));
      assert PairLines(own) == FieldLines(f, |f.values|);
      assert PairLines(own + Pairs(header[1..])) == PairLines(own) + PairLines(Pairs(header[1..]));
    }
  }

  lemma TellsLine(line: string, more: seq<string>, t: Told)
    ensures Tell(["-H", line] + more, t) == Tell(more, t.(lines := t.lines + [line]))
  {
    assert (["-H", line] + more)[2..] == more;
  }

  lemma {:induction false} OptionsTell(lines: seq<string>, rest: seq<string>, t: Told)
    ensures Tell(Options(lines) + rest, t) == Tell(rest, t.(lines := t.lines + lines))
    decreases |lines|
  {
    hide Tell;
    if lines == [] {
      assert Options(lines) + rest == rest && t.lines + lines == t.lines;
    } else {
      var more := Options(lines[1..]) + rest;
      assert Options(lines) + rest == ["-H", lines[0]] + more;
      TellsLine(lines[0], more, t);
      OptionsTell(lines[1..], rest, t.(lines := t.lines + [lines[0]]));
      assert t.lines + [lines[0]] + lines[1..] == t.lines + lines;
    }
  }

  lemma TellsData(data: seq<string>, rest: seq<string>, t: Told)
    requires |data| == 1
    ensures rest != [] ==> Tell(["-d"] + data + rest, t) == Tell(rest, t.(data := Some(data[0])))
  {
    assert (["-d"] + data + rest)[2..] == rest;
  }

  lemma TellsUrl(url: string, t: Told)
    ensures Tell([url], t) == t.(urls := t.urls + [url])
  {
    assert [url][1..] == [];
  }

  /** The arguments tell curl the method, one header line for every value of every header, in order, with its key in
      front, then the cookies, the body without the newlines at its end unless it is empty, and the URL. */
  lemma ArgumentsTell(r: Request)
    ensures Arguments(r) != [] && Arguments(r)[0] == "curl"
    ensures var told := Tell(Arguments(r)[1..], Told(None, [], None, []));
            && told.verb == Some(r.verb) && told.urls == [r.url]
            && told.lines == PairLines(Pairs(r.header)) + (if r.cookies.Some? then [r.cookies.value] else [])
            && (if r.body.None? || r.body.value == "" then told.data == None
                else told.data.Some? && IsTrimmed(r.body.value, told.data.value))
  {
    hide Tell, Lines, Pairs, Options, TrimNewlines;
    var t0 := Told(None, [], None, []);
    var lines := Lines(r.header);
    var cookies := CookieLines(r.cookies);
    var last := BodyOptions(r.body) + [r.url];
    LinesArePairs(r.header);
    CookiesAreLines(r.cookies);
    MethodTells(r);
    var t1 := t0.(verb := Some(r.verb));
    assert Rest(r) == Options(lines) + (Options(cookies) + last);
    OptionsTell(lines, Options(cookies) + last, t1);
    var t2 := t1.(lines := t1.lines + lines);
    OptionsTell(cookies, last, t2);
    var t3 := t2.(lines := t2.lines + cookies);
    assert t3.lines == lines + cookies;
    if r.body.None? || r.body.value == "" {
      assert last == [r.url];
      TellsUrl(r.url, t3);
    } else {
      var data := TrimNewlines(r.body.value);
      TrimmedMeans(r.body.value);
      assert last == ["-d"] + [data] + [r.url];
      TellsData([data], [r.url], t3);
      TellsUrl(r.url, t3.(data := Some(data)));
    }
  }

  function CookieLines(cookies: Option<string>): seq<string> {
    if cookies.Some? then [cookies.value] else []
  }

  lemma CookiesAreLines(cookies: Option<string>)
    ensures Options(CookieLines(cookies)) == CookieOptions(cookies)
  {
    if cookies.Some? {
      assert CookieLines(cookies)[1..] == [];
    }
  }

  lemma MethodTells(r: Request)
    ensures Tell(Arguments(r)[1..], Told(None, [], None, [])) == Tell(Rest(r), Told(Some(r.verb), [], None, []))
  {
    hide Options, Lines;
    assert Arguments(r)[1..] == ["-X", r.verb] + Rest(r);
    assert (["-X", r.verb] + Rest(r))[2..] == Rest(r);
  }
}
