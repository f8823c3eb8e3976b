/** Printing Kotlin string literals and reading runs of literals joined by `+`. */
module KotlinLiterals {
  import opened Options
  import opened Text
  import opened BracedExpressions

  /** A literal that was read: where it ends and what it stands for. */
  datatype Token = Token(end: nat, value: string)

  datatype Adjacent = Adjacent(end: nat, fragments: nat, value: string)

  // ----- printing

  /** The source's chain of replacements. */
  function EscapeChain(s: string): string {
    ReplaceAll(ReplaceAll(ReplaceAll(ReplaceAll(s, '\\', "\\\\"), '"', "\\\""), '$', "\\$"), '\n', "\\n")
  }

  function EscapedChar(c: char): string {
    if c == '\\' then "\\\\" else if c == '"' then "\\\"" else if c == '$' then "\\$" else if c == '\n' then "\\n" else [c]
  }

  /** The same escape, character by character. */
  function EscapeKotlin(s: string): string {
    if s == "" then "" else EscapedChar(s[0]) + EscapeKotlin(s[1..])
  }

  /** A piece of a literal: a character, or an interpolation that is left as it is. */
  datatype Piece = Character(c: char) | Interpolation(e: Expression)

  type Template = seq<Piece>

  predicate IsPiece(p: Piece) { p.Interpolation? ==> IsWritable(false, p.e) }

  predicate IsTemplate(t: Template) { forall k :: 0 <= k < |t| ==> IsPiece(t[k]) }

  function WrittenPiece(p: Piece): string {
    match p
    case Character(c) => EscapedChar(c)
    case Interpolation(e) => "${" + (Show(e) + "}")
  }

  function PieceMeaning(p: Piece): string { if p.Character? then [p.c] else WrittenPiece(p) }

  function WrittenPieces(t: Template): (parts: seq<string>)
    ensures |parts| == |t|
  {
    seq(|t|, k requires 0 <= k < |t| => WrittenPiece(t[k]))
  }

  function PieceMeanings(t: Template): (parts: seq<string>)
    ensures |parts| == |t|
  {
    seq(|t|, k requires 0 <= k < |t| => PieceMeaning(t[k]))
  }

  function Written(t: Template): string { Flatten(WrittenPieces(t)) }

  /** What a literal stands for: its characters, with the interpolations verbatim. */
  function Meaning(t: Template): string { Flatten(PieceMeanings(t)) }

  function Quoted(t: Template): string { "\"" + Written(t) + "\"" }

  /** Literals joined by ` + `. */
  function Printed(templates: seq<Template>): string
    requires templates != []
  {
    if |templates| == 1 then Quoted(templates[0]) else Quoted(templates[0]) + " + " + Printed(templates[1..])
  }

  function Meanings(templates: seq<Template>): (values: seq<string>)
    ensures |values| == |templates|
  {
    seq(|templates|, k requires 0 <= k < |templates| => Meaning(templates[k]))
  }

  // ----- reading

  function IndexOf(s: string, word: string, i: nat): (k: Option<nat>)
    ensures k.Some? ==> i <= k.value && k.value + |word| <= |s|
    decreases |s| - i
  {
    if StandsAt(word, s, i) then Some(i) else if i >= |s| then None else IndexOf(s, word, i + 1)
  }

  function Unescape(next: char): string {
    if next == 'n' then "\n"
    else if next == 'r' then "\r"
    else if next == 't' then "\t"
    else if next == '"' || next == '\\' || next == '$' then [next]
    else ['\\', next]
  }

  function Before(text: string, rest: Option<Token>): Option<Token> {
    if rest.None? then None else Some(rest.value.(value := text + rest.value.value))
  }

  /** The text one step of the reader contributes, and where the next step starts: a whole interpolation, an
      escape, or a single character. */
  function NextChunk(s: string, i: nat): (chunk: Option<(string, nat)>)
    requires i < |s|
    ensures chunk.Some? ==> i < chunk.value.1 <= |s|
  {
    if s[i] == '$' && i + 1 < |s| && s[i + 1] == '{' then
      var end := BraceEnd(false, s, i + 2, OUTERMOST);
      if end.None? then None else Some((s[i..end.value], end.value))
    else if s[i] == '\\' then
      if i + 1 >= |s| then None else Some((Unescape(s[i + 1]), i + 2))
    else Some(([s[i]], i + 1))
  }

  /** The rest of a literal from `i`, up to and including its closing quote. */
  function ReadBody(s: string, i: nat): (literal: Option<Token>)
    ensures literal.Some? ==> i < literal.value.end <= |s|
    decreases |s| - i
  {
    if i >= |s| then None
    else if s[i] == '"' then Some(Token(i + 1, ""))
    else
      var chunk := NextChunk(s, i);
      if chunk.None? then None else Before(chunk.value.0, ReadBody(s, chunk.value.1))
  }

  function ReadLiteral(s: string, openingQuote: nat): (literal: Option<Token>)
    ensures literal.Some? ==> openingQuote < literal.value.end <= |s|
  {
    if !StandsAt("\"", s, openingQuote) || StandsAt("\"\"\"", s, openingQuote) then None
    else ReadBody(s, openingQuote + 1)
  }

  /** A multi-line literal, whose content is normalised by `multiline`, or a plain one. */
  function ReadNative(multiline: string -> string, s: string, openingQuote: nat): (literal: Option<Token>)
    ensures literal.Some? ==> openingQuote < literal.value.end <= |s|
  {
    var close := if StandsAt("\"\"\"", s, openingQuote) then IndexOf(s, "\"\"\"", openingQuote + 3) else None;
    if close.Some? then Some(Token(close.value + 3, multiline(s[openingQuote + 3..close.value])))
    else ReadLiteral(s, openingQuote)
  }

  function SpaceLength(s: string): (n: nat)
    ensures n <= |s|
  {
    if s != "" && IsSpace(s[0]) then 1 + SpaceLength(s[1..]) else 0
  }

  /** The length of a match of `^\s*\+\s*`, zero when there is none. */
  function SeparatorLength(s: string): (n: nat)
    ensures n <= |s|
  {
    var a := SpaceLength(s);
    if a < |s| && s[a] == '+' then a + 1 + SpaceLength(s[a + 1..]) else 0
  }

  /** How a surface reads one source text: the literal that starts at an index, and the length of the separator there. */
  datatype Lexer = Lexer(length: nat, read: nat -> Option<Token>, separator: nat -> nat)

  ghost predicate Progresses(lexer: Lexer) {
    && (forall i: nat :: lexer.read(i).Some? ==> i < lexer.read(i).value.end <= lexer.length)
    && forall i: nat :: i <= lexer.length ==> i + lexer.separator(i) <= lexer.length
  }

  function KotlinLexer(multiline: string -> string, s: string): (lexer: Lexer)
    ensures Progresses(lexer)
  {
    Lexer(|s|, (i: nat) => ReadNative(multiline, s, i), (i: nat) => if i <= |s| then SeparatorLength(s[i..]) else 0)
  }

  /** Literals joined by `+`; a run that continues with anything else is not a literal at all. */
  function ReadRun(lexer: Lexer, openingQuote: nat): (run: Option<Adjacent>)
    requires Progresses(lexer)
    ensures run.Some? ==> run.value.end > openingQuote
    decreases lexer.length - openingQuote, 0
  {
    var first := lexer.read(openingQuote);
    if first.None? then None else AfterLiteral(lexer, first.value)
  }

  /** The run of which this literal is the first. */
  function AfterLiteral(lexer: Lexer, first: Token): (run: Option<Adjacent>)
    requires Progresses(lexer) && first.end <= lexer.length
    ensures run.Some? ==> run.value.end >= first.end
    decreases lexer.length - first.end, 1
  {
    var separator := lexer.separator(first.end);
    if separator == 0 then Some(Adjacent(first.end, 1, first.value))
    else Following(first.value, ReadRun(lexer, first.end + separator))
  }

  function Following(value: string, rest: Option<Adjacent>): Option<Adjacent> {
    if rest.None? then None
    else Some(Adjacent(rest.value.end, 1 + rest.value.fragments, value + rest.value.value))
  }

  // ----- the chain escapes character by character

  lemma EscapeOfChar(c: char)
    ensures EscapeChain([c]) == EscapedChar(c)
  {
    if c == '\\' {
      ReplaceOne(c, "\\\\");
      ReplaceNothing("\\\\", '"', "\\\"");
      ReplaceNothing("\\\\", '$', "\\$");
      ReplaceNothing("\\\\", '\n', "\\n");
    } else {
      ReplaceNothing([c], '\\', "\\\\");
      if c == '"' {
        ReplaceOne(c, "\\\"");
        ReplaceNothing("\\\"", '$', "\\$");
        ReplaceNothing("\\\"", '\n', "\\n");
      } else {
        ReplaceNothing([c], '"', "\\\"");
        if c == '$' {
          ReplaceOne(c, "\\$");
          ReplaceNothing("\\$", '\n', "\\n");
        } else {
          ReplaceNothing([c], '$', "\\$");
          if c == '\n' { ReplaceOne(c, "\\n"); } else { ReplaceNothing([c], '\n', "\\n"); }
        }
      }
    }
  }

  lemma EscapeSplits(a: string, b: string)
    ensures EscapeChain(a + b) == EscapeChain(a) + EscapeChain(b)
  {
    ReplaceAllAppend(a, b, '\\', "\\\\");
    var a1, b1 := ReplaceAll(a, '\\', "\\\\"), ReplaceAll(b, '\\', "\\\\");
    ReplaceAllAppend(a1, b1, '"', "\\\"");
    var a2, b2 := ReplaceAll(a1, '"', "\\\""), ReplaceAll(b1, '"', "\\\"");
    ReplaceAllAppend(a2, b2, '$', "\\$");
    ReplaceAllAppend(ReplaceAll(a2, '$', "\\$"), ReplaceAll(b2, '$', "\\$"), '\n', "\\n");
  }

  lemma {:induction false} ChainIsEscape(s: string)
    ensures EscapeChain(s) == EscapeKotlin(s)
  {
    if s != "" {
      assert s == [s[0]] + s[1..];
      EscapeSplits([s[0]], s[1..]);
      EscapeOfChar(s[0]);
      ChainIsEscape(s[1..]);
    }
  }

  /** The character may stand in a literal: a newline may not, and a quote or a dollar sign only after a backslash. */
  predicate IsSafeAt(s: string, i: nat)
    requires i < |s|
  {
    s[i] != '\n' && (s[i] == '"' || s[i] == '$' ==> i > 0 && s[i - 1] == '\\')
  }

  ghost predicate IsSafe(s: string) { forall i: nat :: i < |s| ==> IsSafeAt(s, i) }

  lemma SafeAppend(a: string, b: string)
    requires IsSafe(a) && IsSafe(b)
    ensures IsSafe(a + b)
  {
    var s := a + b;
    forall i: nat | i < |s| ensures IsSafeAt(s, i) {
      if i < |a| {
        assert IsSafeAt(a, i);
      } else {
        assert IsSafeAt(b, i - |a|) && s[i] == b[i - |a|];
        assert i > |a| ==> s[i - 1] == b[i - |a| - 1];
      }
    }
  }

  /** What is printed between the quotes ends neither the literal nor its line and starts no interpolation. */
  lemma {:induction false} EscapedIsSafe(s: string)
    ensures IsSafe(EscapeChain(s))
  {
    ChainIsEscape(s);
    if s != "" {
      ChainIsEscape(s[1..]);
      EscapedIsSafe(s[1..]);
      assert IsSafe(EscapedChar(s[0]));
      SafeAppend(EscapedChar(s[0]), EscapeKotlin(s[1..]));
    }
  }

  // ----- reading undoes printing

  lemma CharacterStep(c: char, s: string, i: nat)
    requires StandsAt(EscapedChar(c), s, i)
    ensures ReadBody(s, i) == Before([c], ReadBody(s, i + |EscapedChar(c)|))
  {
    var e := EscapedChar(c);
    StandsChar(e, s, i, 0);
    if |e| == 2 {
      StandsChar(e, s, i, 1);
    }
  }

  lemma InterpolationStep(e: Expression, s: string, i: nat)
    requires IsWritable(false, e) && StandsAt("${" + (Show(e) + "}"), s, i)
    ensures ReadBody(s, i) == Before("${" + (Show(e) + "}"), ReadBody(s, i + 3 + |Show(e)|))
  {
    StandsAtParts("${", Show(e) + "}", s, i);
    StandsChar("${", s, i, 0);
    StandsChar("${", s, i, 1);
    WrittenExpressionEnds(false, e, s, i + 2);
    assert NextChunk(s, i) == Some(("${" + (Show(e) + "}"), i + 3 + |Show(e)|));
  }

  lemma PieceStep(p: Piece, s: string, i: nat)
    requires IsPiece(p) && StandsAt(WrittenPiece(p), s, i)
    ensures ReadBody(s, i) == Before(PieceMeaning(p), ReadBody(s, i + |WrittenPiece(p)|))
  {
    match p
    case Character(c) => CharacterStep(c, s, i);
    case Interpolation(e) => InterpolationStep(e, s, i);
  }

  lemma BodyEnds(s: string, i: nat)
    requires StandsAt("\"", s, i)
    ensures ReadBody(s, i) == Some(Token(i + 1, ""))
  {
    StandsChar("\"", s, i, 0);
  }

  /** What is read of a literal from each index on. */
  function BodyReader(s: string): nat -> Option<Token> { (i: nat) => ReadBody(s, i) }

  /** The reader takes this part of a literal for that text. */
  ghost predicate ReadsAs(body: nat -> Option<Token>, part: string, text: string, s: string) {
    forall i: nat {:trigger StandsAt(part, s, i)} :: StandsAt(part, s, i) ==> body(i) == Before(text, body(i + |part|))
  }

  ghost predicate AllReadAs(body: nat -> Option<Token>, parts: seq<string>, texts: seq<string>, s: string)
    decreases |parts|
  {
    |parts| == |texts| && (parts != [] ==> ReadsAs(body, parts[0], texts[0], s) && AllReadAs(body, parts[1..], texts[1..], s))
  }

  lemma {:induction false} BodyReadsBack(
    body: nat -> Option<Token>, parts: seq<string>, texts: seq<string>, s: string, i: nat, close: nat)
    requires AllReadAs(body, parts, texts, s) && body(close) == Some(Token(close + 1, ""))
    requires StandsAt(Flatten(parts), s, i) && close == i + |Flatten(parts)|
    ensures body(i) == Some(Token(close + 1, Flatten(texts)))
    decreases |parts|
  {
    if parts != [] {
      StandsAtParts(parts[0], Flatten(parts[1..]), s, i);
      BodyReadsBack(body, parts[1..], texts[1..], s, i + |parts[0]|, close);
    }
  }

  lemma {:induction false} PieceReads(p: Piece, part: string, text: string, s: string)
    requires IsPiece(p) && part == WrittenPiece(p) && text == PieceMeaning(p)
    ensures ReadsAs(BodyReader(s), part, text, s)
  {
    var body := BodyReader(s);
    forall i: nat {:trigger StandsAt(part, s, i)} | StandsAt(part, s, i) ensures body(i) == Before(text, body(i + |part|)) {
      PieceStep(p, s, i);
      assert body(i) == ReadBody(s, i) && body(i + |part|) == ReadBody(s, i + |part|);
    }
  }

  lemma {:induction false} TemplateReads(t: Template, s: string)
    requires IsTemplate(t)
    ensures AllReadAs(BodyReader(s), WrittenPieces(t), PieceMeanings(t), s)
    decreases |t|
  {
    if t != [] {
      PieceReads(t[0], WrittenPieces(t)[0], PieceMeanings(t)[0], s);
      TemplateReads(t[1..], s);
      assert WrittenPieces(t)[1..] == WrittenPieces(t[1..]) && PieceMeanings(t)[1..] == PieceMeanings(t[1..]);
    }
  }

  lemma WrittenStart(t: Template)
    requires t != []
    ensures Written(t) != "" && Written(t)[0] != '"'
  {
    assert WrittenPieces(t)[0] == WrittenPiece(t[0]);
  }

  lemma NotTripleQuoted(t: Template, s: string, i: nat)
    requires StandsAt(Quoted(t), s, i)
    requires t != [] || !StandsAt("\"", s, i + 2)
    ensures !StandsAt("\"\"\"", s, i)
  {
    if t != [] {
      WrittenStart(t);
      assert s[i + 1] == Quoted(t)[1] == Written(t)[0] != "\"\"\""[1];
    } else if i + 2 < |s| {
      assert s[i + 2] != "\"\"\""[2];
    }
  }

  lemma PlainLiteral(multiline: string -> string, s: string, i: nat, literal: Token)
    requires StandsAt("\"", s, i) && !StandsAt("\"\"\"", s, i) && ReadBody(s, i + 1) == Some(literal)
    ensures ReadNative(multiline, s, i) == Some(literal)
  {
  }

  lemma QuotedBody(t: Template, s: string, i: nat)
    requires IsTemplate(t) && StandsAt(Quoted(t), s, i)
    ensures StandsAt("\"", s, i) && ReadBody(s, i + 1) == Some(Token(i + |Quoted(t)|, Meaning(t)))
  {
    var close := QuotedParts(t, s, i);
    TemplateReads(t, s);
    BodyEnds(s, close);
    BodyReadsBack(BodyReader(s), WrittenPieces(t), PieceMeanings(t), s, i + 1, close);
  }

  /** A written literal reads back, its interpolations verbatim, unless it is empty and another quote follows it. */
  lemma QuotedReadsBack(multiline: string -> string, t: Template, s: string, i: nat)
    requires IsTemplate(t) && StandsAt(Quoted(t), s, i)
    requires t != [] || !StandsAt("\"", s, i + 2)
    ensures ReadNative(multiline, s, i) == Some(Token(i + |Quoted(t)|, Meaning(t)))
  {
    NotTripleQuoted(t, s, i);
    QuotedBody(t, s, i);
    PlainLiteral(multiline, s, i, Token(i + |Quoted(t)|, Meaning(t)));
  }

  lemma QuotedParts(t: Template, s: string, i: nat) returns (close: nat)
    requires StandsAt(Quoted(t), s, i)
    ensures StandsAt("\"", s, i) && StandsAt(Written(t), s, i + 1) && StandsAt("\"", s, close)
    ensures close == i + 1 + |Written(t)| && close + 1 == i + |Quoted(t)|
  {
    var written := Written(t);
    close := i + 1 + |written|;
    StandsAtParts("\"" + written, "\"", s, i);
    StandsAtParts("\"", written, s, i);
  }

  lemma PlusSeparates(s: string)
    requires " + \"" <= s
    ensures SeparatorLength(s) == 3
  {
    assert s[0] == ' ' && s[1] == '+' && s[2] == ' ' && s[3] == '"';
    assert s[1..][0] == '+' && SpaceLength(s[1..]) == 0;
    assert s[2..][0] == ' ' && s[2..][1..] == s[3..] && SpaceLength(s[3..]) == 0;
  }

  lemma PrintedSplits(templates: seq<Template>)
    requires |templates| > 1
    ensures Printed(templates) == Quoted(templates[0]) + (" + " + Printed(templates[1..]))
  {
  }

  lemma PrintedStartsWithQuote(templates: seq<Template>)
    requires templates != []
    ensures Printed(templates) == "\"" + Printed(templates)[1..]
  {
    assert Printed(templates)[0] == '"';
  }

  lemma PlusBeforeQuote(t: string, s: string, i: nat)
    requires StandsAt(" + ", s, i) && StandsAt("\"" + t, s, i + 3)
    ensures !StandsAt("\"", s, i) && SeparatorLength(s[i..]) == 3
  {
    assert s[i + 0] == " + "[0] && s[i + 1] == " + "[1] && s[i + 2] == " + "[2] && s[i + 3 + 0] == ("\"" + t)[0];
    assert s[i] != "\""[0];
    assert s[i..][..4] == " + \"";
    PlusSeparates(s[i..]);
  }

  lemma PrintedParts(templates: seq<Template>, s: string, i: nat, end: nat) returns (close: nat)
    requires |templates| > 1 && StandsAt(Printed(templates), s, i) && end == i + |Printed(templates)|
    ensures close == i + |Quoted(templates[0])| <= |s| && end == close + 3 + |Printed(templates[1..])|
    ensures StandsAt(Quoted(templates[0]), s, i) && !StandsAt("\"", s, close) && SeparatorLength(s[close..]) == 3
    ensures StandsAt(Printed(templates[1..]), s, close + 3)
  {
    PrintedSplits(templates);
    close := i + |Quoted(templates[0])|;
    StandsInThree(Quoted(templates[0]), " + ", Printed(templates[1..]), s, i);
    PrintedStartsWithQuote(templates[1..]);
    PlusBeforeQuote(Printed(templates[1..])[1..], s, close);
  }

  /** The lexer reads all strings but the last, each followed by a separator, and comes to `last`. */
  ghost predicate ReadsUpTo(lexer: Lexer, strings: seq<string>, i: nat, last: nat)
    requires strings != []
    decreases |strings|
  {
    if |strings| == 1 then i == last
    else
      && lexer.read(i).Some? && lexer.read(i).value.value == strings[0]
      && lexer.separator(lexer.read(i).value.end) == 3
      && ReadsUpTo(lexer, strings[1..], lexer.read(i).value.end + 3, last)
  }

  lemma OneMoreRead(lexer: Lexer, strings: seq<string>, i: nat, close: nat, last: nat)
    requires |strings| > 1 && lexer.read(i) == Some(Token(close, strings[0])) && lexer.separator(close) == 3
    requires ReadsUpTo(lexer, strings[1..], close + 3, last)
    ensures ReadsUpTo(lexer, strings, i, last)
  {
  }

  lemma EmptyIsTwo(t: Template)
    ensures t == [] ==> |Quoted(t)| == 2
  {
  }

  /** The literal stands from `i` to `close`, and no quote follows. */
  predicate StandsQuoted(t: Template, s: string, i: nat, close: nat) {
    StandsAt(Quoted(t), s, i) && close == i + |Quoted(t)| && !StandsAt("\"", s, close)
  }

  /** The lexer reads every written literal that no quote follows, and finds every separator. */
  ghost predicate ReadsPrinted(lexer: Lexer, s: string) {
    && (forall t: Template, i: nat, close: nat :: IsTemplate(t) && StandsQuoted(t, s, i, close) ==>
          lexer.read(i) == Some(Token(close, Meaning(t))))
    && forall i: nat {:trigger lexer.separator(i)} :: i <= |s| ==> lexer.separator(i) == SeparatorLength(s[i..])
  }

  lemma KotlinReadsPrinted(multiline: string -> string, s: string)
    ensures ReadsPrinted(KotlinLexer(multiline, s), s)
  {
    forall t: Template, i: nat, close: nat | IsTemplate(t) && StandsQuoted(t, s, i, close)
      ensures KotlinLexer(multiline, s).read(i) == Some(Token(close, Meaning(t)))
    {
      LexerReadsBack(multiline, t, s, i, close);
    }
  }

  lemma LexerReadsBack(multiline: string -> string, t: Template, s: string, i: nat, close: nat)
    requires IsTemplate(t) && StandsQuoted(t, s, i, close)
    ensures KotlinLexer(multiline, s).read(i) == Some(Token(close, Meaning(t)))
  {
    EmptyIsTwo(t);
    QuotedReadsBack(multiline, t, s, i);
  }

  predicate AreTemplates(templates: seq<Template>) { forall k :: 0 <= k < |templates| ==> IsTemplate(templates[k]) }

  lemma FirstOfPrinted(lexer: Lexer, templates: seq<Template>, s: string, i: nat, end: nat) returns (close: nat)
    requires ReadsPrinted(lexer, s) && |templates| > 1 && IsTemplate(templates[0])
    requires StandsAt(Printed(templates), s, i) && end == i + |Printed(templates)|
    ensures lexer.read(i) == Some(Token(close, Meaning(templates[0]))) && lexer.separator(close) == 3
    ensures StandsAt(Printed(templates[1..]), s, close + 3) && end == close + 3 + |Printed(templates[1..])|
  {
    close := PrintedParts(templates, s, i, end);
    assert StandsQuoted(templates[0], s, i, close);
    assert lexer.read(i) == Some(Token(close, Meaning(templates[0])));
    assert lexer.separator(close) == SeparatorLength(s[close..]);
  }

  lemma MeaningsTail(templates: seq<Template>)
    requires templates != []
    ensures Meanings(templates)[1..] == Meanings(templates[1..]) && Meanings(templates)[0] == Meaning(templates[0])
  {
  }

  lemma {:induction false} PrintedReadsUpTo(lexer: Lexer, templates: seq<Template>, final: Template, s: string, i: nat, end: nat)
    returns (last: nat)
    requires templates != [] && AreTemplates(templates) && final == templates[|templates| - 1]
    requires ReadsPrinted(lexer, s) && StandsAt(Printed(templates), s, i) && end == i + |Printed(templates)|
    ensures ReadsUpTo(lexer, Meanings(templates), i, last) && StandsAt(Quoted(final), s, last) && end == last + |Quoted(final)|
    decreases |templates|
  {
    if |templates| == 1 {
      last := i;
    } else {
      var close := FirstOfPrinted(lexer, templates, s, i, end);
      last := PrintedReadsUpTo(lexer, templates[1..], final, s, close + 3, end);
      MeaningsTail(templates);
      OneMoreRead(lexer, Meanings(templates), i, close, last);
    }
  }

  /** A run with more values in front. */
  function Ahead(values: seq<string>, rest: Option<Adjacent>): Option<Adjacent> {
    if rest.None? then None
    else Some(Adjacent(rest.value.end, |values| + rest.value.fragments, Flatten(values) + rest.value.value))
  }

  lemma AheadFirst(values: seq<string>, rest: Option<Adjacent>)
    requires values != []
    ensures Following(values[0], Ahead(values[1..], rest)) == Ahead(values, rest)
  {
    if rest.Some? {
      assert values[0] + (Flatten(values[1..]) + rest.value.value) == Flatten(values) + rest.value.value;
    }
  }

  lemma AheadSnoc(values: seq<string>, value: string, rest: Option<Adjacent>)
    ensures Ahead(values, Following(value, rest)) == Ahead(values + [value], rest)
  {
    FlattenSnoc(values, value);
    if rest.Some? {
      assert Flatten(values) + (value + rest.value.value) == Flatten(values) + value + rest.value.value;
    }
  }

  lemma AheadNothing(rest: Option<Adjacent>)
    ensures Ahead([], rest) == rest
  {
    if rest.Some? {
      assert "" + rest.value.value == rest.value.value;
    }
  }

  lemma {:induction false} RunOfParts(lexer: Lexer, strings: seq<string>, i: nat, last: nat)
    requires strings != [] && Progresses(lexer) && ReadsUpTo(lexer, strings, i, last)
    ensures ReadRun(lexer, i) == Ahead(strings[..|strings| - 1], ReadRun(lexer, last))
    decreases |strings|
  {
    var init := strings[..|strings| - 1];
    if |strings| == 1 {
      assert init == [];
      AheadNothing(ReadRun(lexer, last));
    } else {
      RunOfParts(lexer, strings[1..], lexer.read(i).value.end + 3, last);
      assert strings[1..][..|strings| - 2] == init[1..] && init[0] == strings[0];
      AheadFirst(init, ReadRun(lexer, last));
    }
  }

  /** The text at `end` leaves a printed list with this last literal as it is: it neither continues the run nor makes a
      triple quote of an empty last literal. */
  predicate LeavesRun(last: Template, s: string, end: nat)
    requires end <= |s|
  {
    SeparatorLength(s[end..]) == 0 && (last != [] || !StandsAt("\"", s, end))
  }

  lemma TripleQuoteStands(s: string, i: nat)
    requires StandsAt(Quoted([]), s, i) && StandsAt("\"", s, i + 2)
    ensures StandsAt("\"\"\"", s, i)
  {
    assert Quoted([]) == "\"\"";
    assert s[i + 0] == "\"\""[0] && s[i + 1] == "\"\""[1] && s[i + 2 + 0] == "\""[0];
  }

  /** What the reader makes of the last printed literal. */
  lemma LastLiteral(multiline: string -> string, t: Template, s: string, i: nat, end: nat)
    requires IsTemplate(t) && StandsAt(Quoted(t), s, i) && end == i + |Quoted(t)|
    ensures t != [] || !StandsAt("\"", s, end) ==> ReadNative(multiline, s, i) == Some(Token(end, Meaning(t)))
    ensures t == [] && StandsAt("\"", s, end) ==>
              ReadNative(multiline, s, i).None? || ReadNative(multiline, s, i).value.end > end
  {
    EmptyIsTwo(t);
    if t == [] && StandsAt("\"", s, end) {
      TripleQuoteStands(s, i);
    } else {
      QuotedReadsBack(multiline, t, s, i);
    }
  }

  lemma AheadExactly(strings: seq<string>, rest: Option<Adjacent>, end: nat)
    requires strings != []
    ensures Ahead(strings[..|strings| - 1], rest) == Some(Adjacent(end, |strings|, Flatten(strings)))
        <==> rest == Some(Adjacent(end, 1, strings[|strings| - 1]))
  {
    var init, last := strings[..|strings| - 1], strings[|strings| - 1];
    assert strings == init + [last];
    FlattenSnoc(init, last);
    if rest.Some? && Flatten(init) + rest.value.value == Flatten(init) + last {
      CutPrefix(Flatten(init), rest.value.value, last);
    }
  }

  lemma RunExactly(lexer: Lexer, strings: seq<string>, i: nat, last: nat, end: nat)
    requires strings != [] && Progresses(lexer) && ReadsUpTo(lexer, strings, i, last)
    ensures ReadRun(lexer, i) == Some(Adjacent(end, |strings|, Flatten(strings)))
        <==> ReadRun(lexer, last) == Some(Adjacent(end, 1, strings[|strings| - 1]))
  {
    RunOfParts(lexer, strings, i, last);
    AheadExactly(strings, ReadRun(lexer, last), end);
  }

  lemma LastRun(multiline: string -> string, lexer: Lexer, t: Template, s: string, i: nat, end: nat)
    requires lexer == KotlinLexer(multiline, s) && IsTemplate(t) && StandsAt(Quoted(t), s, i) && end == i + |Quoted(t)|
    ensures ReadRun(lexer, i) == Some(Adjacent(end, 1, Meaning(t))) <==> LeavesRun(t, s, end)
  {
    LastLiteral(multiline, t, s, i, end);
  }

  /** Writing a non-empty list of literals anywhere in a text and reading them there gives the concatenation of what they
      stand for, their number and the end offset exactly when what follows leaves the run as it is. */
  lemma {:induction false} TemplatesReadBack(multiline: string -> string, lexer: Lexer, templates: seq<Template>, s: string, i: nat, end: nat)
    requires lexer == KotlinLexer(multiline, s) && AreTemplates(templates)
    requires templates != [] && StandsAt(Printed(templates), s, i) && end == i + |Printed(templates)|
    ensures ReadRun(lexer, i) == Some(Adjacent(end, |templates|, Flatten(Meanings(templates))))
        <==> LeavesRun(templates[|templates| - 1], s, end)
  {
    KotlinReadsPrinted(multiline, s);
    var final := templates[|templates| - 1];
    var last := PrintedReadsUpTo(lexer, templates, final, s, i, end);
    RunExactly(lexer, Meanings(templates), i, last, end);
    LastRun(multiline, lexer, final, s, last, end);
  }

  // ----- strings are literals without interpolations

  function Characters(text: string): Template {
    seq(|text|, k requires 0 <= k < |text| => Character(text[k]))
  }

  function AllCharacters(strings: seq<string>): (templates: seq<Template>)
    ensures |templates| == |strings|
  {
    seq(|strings|, k requires 0 <= k < |strings| => Characters(strings[k]))
  }

  lemma CharactersAreEscaped(text: string)
    ensures Written(Characters(text)) == EscapeChain(text) && Meaning(Characters(text)) == text
  {
    ChainIsEscape(text);
    CharactersWritten(text);
  }

  lemma {:induction false} CharactersWritten(text: string)
    ensures Written(Characters(text)) == EscapeKotlin(text) && Meaning(Characters(text)) == text
  {
    if text != "" {
      assert WrittenPieces(Characters(text))[1..] == WrittenPieces(Characters(text[1..]));
      assert PieceMeanings(Characters(text))[1..] == PieceMeanings(Characters(text[1..]));
      CharactersWritten(text[1..]);
      assert [text[0]] + text[1..] == text;
    }
  }

  /** Printing a non-empty list of strings with the source's escape and reading the literals back gives their concatenation,
      their number and the end offset exactly when what follows leaves the run as it is. */
  lemma PrintedReadsBack(multiline: string -> string, lexer: Lexer, strings: seq<string>, s: string, i: nat, end: nat)
    requires lexer == KotlinLexer(multiline, s)
    requires strings != [] && StandsAt(Printed(AllCharacters(strings)), s, i) && end == i + |Printed(AllCharacters(strings))|
    ensures ReadRun(lexer, i) == Some(Adjacent(end, |strings|, Flatten(strings)))
        <==> LeavesRun(Characters(strings[|strings| - 1]), s, end)
    ensures forall k :: 0 <= k < |strings| ==> Quoted(AllCharacters(strings)[k]) == "\"" + EscapeChain(strings[k]) + "\""
  {
    forall k | 0 <= k < |strings|
      ensures Written(AllCharacters(strings)[k]) == EscapeChain(strings[k]) && Meaning(AllCharacters(strings)[k]) == strings[k]
    {
      CharactersAreEscaped(strings[k]);
    }
    assert Meanings(AllCharacters(strings)) == strings;
    TemplatesReadBack(multiline, lexer, AllCharacters(strings), s, i, end);
  }

  /** The end of the text, or a character that is no quote, plus or white space, leaves the run as it is. */
  lemma OtherTextLeavesRun(last: Template, s: string, end: nat)
    requires end <= |s|
    requires end < |s| ==> s[end] != '"' && s[end] != '+' && !IsSpace(s[end])
    ensures LeavesRun(last, s, end)
  {
    assert end < |s| ==> s[end + 0] != "\""[0];
  }

  // ----- the code

  lemma BeforeBefore(a: string, b: string, rest: Option<Token>)
    ensures Before(a, Before(b, rest)) == Before(a + b, rest)
  {
    if rest.Some? {
      assert a + (b + rest.value.value) == a + b + rest.value.value;
    }
  }

  lemma BeforeNothing(rest: Option<Token>)
    ensures Before("", rest) == rest
  {
    if rest.Some? {
      assert "" + rest.value.value == rest.value.value;
    }
  }

  /** Finds the end of an interpolation whose expression starts at `start`. */
  method FindClosingBrace(source: string, start: nat) returns (end: Option<nat>)
    ensures end == BraceEnd(false, source, start, OUTERMOST)
  {
    var depth := 1;
    var quoted, escaped := false, false;
    var index := start;
    while index < |source|
      invariant depth >= 1 && start <= index && (escaped ==> quoted)
      invariant BraceEnd(false, source, start, OUTERMOST)
             == BraceEnd(false, source, index, Nesting(depth, if quoted then Some('"') else None, escaped))
    {
      var character := source[index];
      if escaped {
        escaped := false;
      } else if quoted && character == '\\' {
        escaped := true;
      } else if character == '"' {
        quoted := !quoted;
      } else if !quoted && character == '{' {
        depth := depth + 1;
      } else if !quoted && character == '}' {
        depth := depth - 1;
        if depth == 0 {
          return Some(index + 1);
        }
      }
      index := index + 1;
    }
    return None;
  }

  method ReadChunk(source: string, index: nat) returns (chunk: Option<(string, nat)>)
    requires index < |source|
    ensures chunk == NextChunk(source, index)
  {
    var character := source[index];
    if character == '$' && index + 1 < |source| && source[index + 1] == '{' {
      var end := FindClosingBrace(source, index + 2);
      if end.None? {
        return None;
      }
      return Some((source[index..end.value], end.value));
    }
    if character == '\\' {
      if index + 1 >= |source| {
        return None;
      }
      return Some((Unescape(source[index + 1]), index + 2));
    }
    return Some(([character], index + 1));
  }

  method ReadKotlinStringLiteral(source: string, openingQuote: nat) returns (literal: Option<Token>)
    ensures literal == ReadLiteral(source, openingQuote)
  {
    if !StandsAt("\"", source, openingQuote) || StandsAt("\"\"\"", source, openingQuote) {
      return None;
    }
    literal := ReadRest(source, openingQuote + 1);
  }

  /** The loop of the reader, from after the opening quote. */
  method ReadRest(source: string, start: nat) returns (literal: Option<Token>)
    ensures literal == ReadBody(source, start)
  {
    var raw := "";
    var index := start;
    ghost var whole := ReadBody(source, index);
    BeforeNothing(whole);
    while index < |source|
      invariant start <= index
      invariant whole == Before(raw, ReadBody(source, index))
    {
      if source[index] == '"' {
        assert raw + "" == raw;
        return Some(Token(index + 1, raw));
      }
      var chunk := ReadChunk(source, index);
      if chunk.None? {
        return None;
      }
      BeforeBefore(raw, chunk.value.0, ReadBody(source, chunk.value.1));
      raw, index := raw + chunk.value.0, chunk.value.1;
    }
    return None;
  }

  method ReadNativeStringLiteral(multiline: string -> string, source: string, openingQuote: nat)
    returns (literal: Option<Token>)
    ensures literal == ReadNative(multiline, source, openingQuote)
  {
    if StandsAt("\"\"\"", source, openingQuote) {
      var closingQuote := IndexOf(source, "\"\"\"", openingQuote + 3);
      if closingQuote.Some? {
        return Some(Token(closingQuote.value + 3, multiline(source[openingQuote + 3..closingQuote.value])));
      }
    }
    literal := ReadKotlinStringLiteral(source, openingQuote);
  }

  lemma RunGoesOn(lexer: Lexer, values: seq<string>, current: Token, separator: nat, next: Option<Token>)
    requires Progresses(lexer) && current.end <= lexer.length && separator == lexer.separator(current.end) > 0
    requires next == lexer.read(current.end + separator)
    ensures next.None? ==> Ahead(values, AfterLiteral(lexer, current)).None?
    ensures next.Some? ==> (Ahead(values, AfterLiteral(lexer, current))
                         == Ahead(values + [current.value], AfterLiteral(lexer, next.value)))
  {
    AheadSnoc(values, current.value, ReadRun(lexer, current.end + separator));
  }

  lemma RunStops(lexer: Lexer, values: seq<string>, current: Token)
    requires Progresses(lexer) && current.end <= lexer.length && lexer.separator(current.end) == 0
    ensures Ahead(values, AfterLiteral(lexer, current))
         == Some(Adjacent(current.end, |values + [current.value]|, Flatten(values + [current.value])))
  {
    FlattenSnoc(values, current.value);
  }

  /** The lexer of this surface and source. */
  ghost predicate Lexes(lexer: Lexer, multiline: string -> string, source: string) {
    && lexer.length == |source| && Progresses(lexer)
    && (forall i: nat {:trigger ReadNative(multiline, source, i)} :: lexer.read(i) == ReadNative(multiline, source, i))
    && forall i: nat {:trigger source[i..]} :: i <= |source| ==> lexer.separator(i) == SeparatorLength(source[i..])
  }

  method ReadAt(multiline: string -> string, source: string, i: nat, ghost lexer: Lexer) returns (literal: Option<Token>)
    requires Lexes(lexer, multiline, source)
    ensures literal == lexer.read(i)
  {
    literal := ReadNativeStringLiteral(multiline, source, i);
  }

  method SeparatorAt(multiline: string -> string, source: string, i: nat, ghost lexer: Lexer) returns (length: nat)
    requires Lexes(lexer, multiline, source) && i <= |source|
    ensures length == lexer.separator(i)
  {
    length := SeparatorLength(source[i..]);
  }

  method ReadAdjacentStringLiterals(multiline: string -> string, source: string, openingQuote: nat)
    returns (result: Option<Adjacent>)
    ensures result == ReadRun(KotlinLexer(multiline, source), openingQuote)
  {
    result := ReadLiterals(multiline, source, openingQuote, KotlinLexer(multiline, source));
  }

  method ReadLiterals(multiline: string -> string, source: string, openingQuote: nat, ghost lexer: Lexer)
    returns (result: Option<Adjacent>)
    requires Lexes(lexer, multiline, source)
    ensures result == ReadRun(lexer, openingQuote)
  {
    var first := ReadAt(multiline, source, openingQuote, lexer);
    if first.None? {
      return None;
    }
    var values: seq<string> := [];
    var current := first.value;
    ghost var whole := ReadRun(lexer, openingQuote);
    AheadNothing(whole);
    while true
      invariant current.end <= |source|
      invariant whole == Ahead(values, AfterLiteral(lexer, current))
      decreases |source| - current.end
    {
      var separator := SeparatorAt(multiline, source, current.end, lexer);
      if separator == 0 {
        RunStops(lexer, values, current);
        return Some(Adjacent(current.end, |values + [current.value]|, Flatten(values + [current.value])));
      }
      var next := ReadAt(multiline, source, current.end + separator, lexer);
      RunGoesOn(lexer, values, current, separator, next);
      if next.None? {
        return None;
      }
      values := values + [current.value];
      current := next.value;
    }
  }
}
