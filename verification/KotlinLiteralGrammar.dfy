/** Which texts are Kotlin string literals and runs of them, and what they stand for: a grammar that the readers follow exactly. */
module KotlinLiteralGrammar {
  import opened Options
  import opened Text
  import opened BracedExpressions
  import opened KotlinLiterals

  // ----- the grammar of a literal's body

  /** A piece of a literal as it may be spelled. */
  datatype RawPiece =
    | Verbatim(c: char)
    | Newline | Return | Tab      // \n, \r and \t
    | Itself(c: char)             // an escaped quote, backslash or dollar sign
    | Unknown(c: char)            // any other escape, which is kept with its backslash
    | Inserted(e: Expression)     // ${...}, kept as it is

  function ShowRaw(p: RawPiece): string {
    match p
    case Verbatim(c) => [c]
    case Newline => "\\n"
    case Return => "\\r"
    case Tab => "\\t"
    case Itself(c) => ['\\', c]
    case Unknown(c) => ['\\', c]
    case Inserted(e) => "${" + (Show(e) + "}")
  }

  function MeaningOf(p: RawPiece): string {
    match p
    case Verbatim(c) => [c]
    case Newline => "\n"
    case Return => "\r"
    case Tab => "\t"
    case Itself(c) => [c]
    case Unknown(c) => ['\\', c]
    case Inserted(e) => "${" + (Show(e) + "}")
  }

  predicate StandsForItself(c: char) { c == '"' || c == '\\' || c == '$' }

  /** The piece is well formed, given the text after it. */
  predicate IsRawBefore(p: RawPiece, rest: string)
    requires rest != ""
  {
    match p
    case Verbatim(c) => c != '"' && c != '\\' && (c == '$' ==> rest[0] != '{')
    case Itself(c) => StandsForItself(c)
    case Unknown(c) => !StandsForItself(c) && c != 'n' && c != 'r' && c != 't'
    case Inserted(e) => IsWritable(false, e)
    case _ => true
  }

  /** The pieces and the closing quote. */
  function ShowBody(pieces: seq<RawPiece>): (s: string)
    ensures s != ""
  {
    if pieces == [] then "\"" else ShowRaw(pieces[0]) + ShowBody(pieces[1..])
  }

  function BodyMeaning(pieces: seq<RawPiece>): string {
    if pieces == [] then "" else MeaningOf(pieces[0]) + BodyMeaning(pieces[1..])
  }

  predicate IsBody(pieces: seq<RawPiece>) {
    pieces == [] || (IsRawBefore(pieces[0], ShowBody(pieces[1..])) && IsBody(pieces[1..]))
  }

  // ----- every body is read as what it stands for

  /** The text at `i` is the piece and then `rest`. */
  ghost predicate StandsBefore(s: string, i: nat, piece: string, rest: string) { StandsAt(piece + rest, s, i) }

  lemma StandsBoth(s: string, i: nat, piece: string, rest: string)
    requires StandsBefore(s, i, piece, rest) && rest != ""
    ensures StandsAt(piece, s, i) && StandsAt(rest, s, i + |piece|) && s[i + |piece|] == rest[0]
    ensures forall k :: 0 <= k < |piece| ==> s[i + k] == piece[k]
  {
    StandsAtParts(piece, rest, s, i);
    StandsChar(rest, s, i + |piece|, 0);
    forall k | 0 <= k < |piece| ensures s[i + k] == piece[k] {
      StandsChar(piece, s, i, k);
    }
  }

  lemma EscapeIsRead(s: string, i: nat, c: char, text: string)
    requires i + 1 < |s| && s[i] == '\\' && s[i + 1] == c && text == Unescape(c)
    ensures ReadBody(s, i) == Before(text, ReadBody(s, i + 2))
  {
  }

  lemma RawIsRead(s: string, i: nat, p: RawPiece, rest: string)
    requires rest != "" && StandsBefore(s, i, ShowRaw(p), rest) && IsRawBefore(p, rest)
    ensures ReadBody(s, i) == Before(MeaningOf(p), ReadBody(s, i + |ShowRaw(p)|))
  {
    StandsBoth(s, i, ShowRaw(p), rest);
    match p
    case Verbatim(c) => assert s[i + 0] == [c][0];
    case Inserted(e) => InterpolationStep(e, s, i);
    case _ =>
      var c := ShowRaw(p)[1];
      assert s[i + 0] == ShowRaw(p)[0] && s[i + 1] == c;
      EscapeIsRead(s, i, c, MeaningOf(p));
  }

  /** The reader takes every piece for what it stands for. */
  ghost predicate ReadsPieces(body: nat -> Option<Token>, s: string) {
    && (forall i: nat {:trigger StandsAt("\"", s, i)} :: StandsAt("\"", s, i) ==> body(i) == Some(Token(i + 1, "")))
    && forall i: nat, p: RawPiece, rest: string {:trigger StandsBefore(s, i, ShowRaw(p), rest)} ::
         rest != "" && StandsBefore(s, i, ShowRaw(p), rest) && IsRawBefore(p, rest) ==>
           body(i) == Before(MeaningOf(p), body(i + |ShowRaw(p)|))
  }

  lemma {:induction false} ReaderReadsPieces(s: string)
    ensures ReadsPieces(BodyReader(s), s)
  {
    var body := BodyReader(s);
    forall i: nat {:trigger StandsAt("\"", s, i)} | StandsAt("\"", s, i) ensures body(i) == Some(Token(i + 1, "")) {
      BodyEnds(s, i);
    }
    forall i: nat, p: RawPiece, rest: string {:trigger StandsBefore(s, i, ShowRaw(p), rest)}
      | rest != "" && StandsBefore(s, i, ShowRaw(p), rest) && IsRawBefore(p, rest)
      ensures body(i) == Before(MeaningOf(p), body(i + |ShowRaw(p)|))
    {
      RawIsRead(s, i, p, rest);
      assert body(i) == ReadBody(s, i) && body(i + |ShowRaw(p)|) == ReadBody(s, i + |ShowRaw(p)|);
    }
  }

  lemma FirstPieceIsRead(body: nat -> Option<Token>, s: string, i: nat, p: RawPiece, rest: string) returns (next: nat)
    requires ReadsPieces(body, s) && rest != "" && StandsAt(ShowRaw(p) + rest, s, i) && IsRawBefore(p, rest)
    ensures next == i + |ShowRaw(p)| && StandsAt(rest, s, next) && body(i) == Before(MeaningOf(p), body(next))
  {
    next := i + |ShowRaw(p)|;
    assert StandsBefore(s, i, ShowRaw(p), rest);
    StandsAtParts(ShowRaw(p), rest, s, i);
  }

  lemma {:induction false} BodyIsRead(body: nat -> Option<Token>, s: string, i: nat, pieces: seq<RawPiece>)
    requires ReadsPieces(body, s) && StandsAt(ShowBody(pieces), s, i) && IsBody(pieces)
    ensures body(i) == Some(Token(i + |ShowBody(pieces)|, BodyMeaning(pieces)))
    decreases |pieces|
  {
    if pieces != [] {
      var next := FirstPieceIsRead(body, s, i, pieces[0], ShowBody(pieces[1..]));
      BodyIsRead(body, s, next, pieces[1..]);
    }
  }

  // ----- whatever is read is a body

  /** The piece that stands at `i`, and where the next one begins. */
  ghost predicate IsPieceAt(s: string, i: nat, p: RawPiece, text: string, next: nat) {
    && text == ShowRaw(p) && i < next < |s| && s[i..next] == text && IsRawBefore(p, s[next..])
  }

  function EscapedPiece(c: char): RawPiece {
    if c == 'n' then Newline else if c == 'r' then Return else if c == 't' then Tab
    else if StandsForItself(c) then Itself(c) else Unknown(c)
  }

  lemma EscapedPieceMeans(c: char)
    ensures ShowRaw(EscapedPiece(c)) == ['\\', c] && MeaningOf(EscapedPiece(c)) == Unescape(c)
    ensures forall rest: string :: rest != "" ==> IsRawBefore(EscapedPiece(c), rest)
  {
  }

  lemma FirstEscape(s: string, i: nat) returns (p: RawPiece)
    requires i + 2 < |s| && s[i] == '\\'
    ensures IsPieceAt(s, i, p, ShowRaw(p), i + 2) && MeaningOf(p) == Unescape(s[i + 1])
  {
    p := EscapedPiece(s[i + 1]);
    EscapedPieceMeans(s[i + 1]);
    assert s[i..i + 2] == ['\\', s[i + 1]];
  }

  lemma FirstVerbatim(s: string, i: nat) returns (p: RawPiece)
    requires i + 1 < |s| && s[i] != '"' && s[i] != '\\' && (s[i] == '$' ==> s[i + 1] != '{')
    ensures IsPieceAt(s, i, p, ShowRaw(p), i + 1) && MeaningOf(p) == [s[i]]
  {
    p := Verbatim(s[i]);
    assert s[i..i + 1] == [s[i]] && s[i + 1..][0] == s[i + 1];
  }

  lemma FirstInserted(s: string, i: nat, end: nat) returns (p: RawPiece)
    requires i + 1 < |s| && s[i] == '$' && s[i + 1] == '{' && BraceEnd(false, s, i + 2, OUTERMOST) == Some(end) && end < |s|
    ensures IsPieceAt(s, i, p, ShowRaw(p), end) && MeaningOf(p) == s[i..end]
  {
    var e := ReadExpressionIsWritten(false, s, i + 2);
    p := Inserted(e);
    assert s[i..end] == "${" + s[i + 2..end];
  }

  lemma FirstPiece(s: string, i: nat, literal: Token) returns (p: RawPiece, next: nat, rest: Token)
    requires i < |s| && s[i] != '"' && ReadBody(s, i) == Some(literal)
    ensures IsPieceAt(s, i, p, ShowRaw(p), next)
    ensures ReadBody(s, next) == Some(rest) && literal == Token(rest.end, MeaningOf(p) + rest.value)
  {
    var chunk := NextChunk(s, i);
    next := chunk.value.1;
    assert ReadBody(s, i) == Before(chunk.value.0, ReadBody(s, next)) && ReadBody(s, next).Some?;
    rest := ReadBody(s, next).value;
    if s[i] == '$' && i + 1 < |s| && s[i + 1] == '{' {
      p := FirstInserted(s, i, next);
    } else if s[i] == '\\' {
      p := FirstEscape(s, i);
    } else {
      p := FirstVerbatim(s, i);
    }
  }

  /** A body stands at `i`, with this end and value. */
  ghost predicate IsBodyAt(s: string, i: nat, pieces: seq<RawPiece>, literal: Token) {
    && IsBody(pieces) && StandsAt(ShowBody(pieces), s, i)
    && literal == Token(i + |ShowBody(pieces)|, BodyMeaning(pieces))
  }

  lemma StandsTogether(s: string, i: nat, next: nat, text: string, rest: string)
    requires i <= next <= |s| && s[i..next] == text && StandsAt(rest, s, next)
    ensures StandsAt(text + rest, s, i)
  {
    assert s[i..next + |rest|] == s[i..next] + s[next..next + |rest|];
  }

  lemma BodyCons(p: RawPiece, pieces: seq<RawPiece>)
    requires IsBody(pieces) && IsRawBefore(p, ShowBody(pieces))
    ensures IsBody([p] + pieces) && ShowBody([p] + pieces) == ShowRaw(p) + ShowBody(pieces)
    ensures BodyMeaning([p] + pieces) == MeaningOf(p) + BodyMeaning(pieces)
  {
    assert ([p] + pieces)[1..] == pieces;
  }

  lemma SameStart(p: RawPiece, a: string, b: string)
    requires a != "" && b != "" && a[0] == b[0] && IsRawBefore(p, a)
    ensures IsRawBefore(p, b)
  {
  }

  lemma PieceBeforeBody(p: RawPiece, pieces: seq<RawPiece>, s: string, i: nat, next: nat, rest: Token)
    requires IsPieceAt(s, i, p, ShowRaw(p), next) && IsBodyAt(s, next, pieces, rest)
    ensures IsBodyAt(s, i, [p] + pieces, Token(rest.end, MeaningOf(p) + rest.value))
  {
    var body := ShowBody(pieces);
    StandsChar(body, s, next, 0);
    assert s[next..][0] == s[next];
    SameStart(p, s[next..], body);
    BodyCons(p, pieces);
    StandsTogether(s, i, next, ShowRaw(p), body);
  }

  lemma {:induction false} ReadBodyHasPieces(s: string, i: nat, literal: Token) returns (pieces: seq<RawPiece>)
    requires ReadBody(s, i) == Some(literal)
    ensures IsBodyAt(s, i, pieces, literal)
    decreases |s| - i
  {
    if s[i] == '"' {
      pieces := [];
      assert s[i..i + 1] == "\"";
    } else {
      var p, next, rest := FirstPiece(s, i, literal);
      pieces := ReadBodyHasPieces(s, next, rest);
      PieceBeforeBody(p, pieces, s, i, next, rest);
      pieces := [p] + pieces;
    }
  }

  /** This literal stands at `i`, and it stands for the value. */
  ghost predicate IsLiteral(s: string, i: nat, pieces: seq<RawPiece>, literal: Token) {
    StandsAt("\"", s, i) && IsBodyAt(s, i + 1, pieces, literal)
  }

  /** The reader reads a plain literal at `i`, with this end and value, if and only if there is one in the grammar with them and
      it is no triple quote. */
  lemma LiteralsAreReadExactly(s: string, i: nat, literal: Token)
    ensures ReadLiteral(s, i) == Some(literal) <==>
              !StandsAt("\"\"\"", s, i) && exists pieces :: IsLiteral(s, i, pieces, literal)
  {
    if ReadLiteral(s, i) == Some(literal) {
      var pieces := LiteralIsInGrammar(s, i, literal);
    }
    if pieces :| IsLiteral(s, i, pieces, literal) {
      GrammarIsRead(s, i, pieces, literal);
    }
  }

  lemma LiteralIsInGrammar(s: string, i: nat, literal: Token) returns (pieces: seq<RawPiece>)
    requires ReadLiteral(s, i) == Some(literal)
    ensures IsLiteral(s, i, pieces, literal)
  {
    pieces := ReadBodyHasPieces(s, i + 1, literal);
  }

  lemma GrammarIsRead(s: string, i: nat, pieces: seq<RawPiece>, literal: Token)
    requires IsLiteral(s, i, pieces, literal)
    ensures ReadBody(s, i + 1) == Some(literal)
  {
    ReaderReadsPieces(s);
    BodyIsRead(BodyReader(s), s, i + 1, pieces);
  }

  // ----- triple-quoted literals

  lemma {:induction false} IndexOfIsFirst(s: string, word: string, i: nat)
    ensures IndexOf(s, word, i).None? ==> forall k: nat :: i <= k ==> !StandsAt(word, s, k)
    ensures IndexOf(s, word, i).Some? ==>
              StandsAt(word, s, IndexOf(s, word, i).value) && forall k: nat :: i <= k < IndexOf(s, word, i).value ==> !StandsAt(word, s, k)
    decreases |s| - i
  {
    if !StandsAt(word, s, i) && i < |s| {
      IndexOfIsFirst(s, word, i + 1);
    } else if !StandsAt(word, s, i) {
      assert forall k: nat :: i <= k && StandsAt(word, s, k) ==> k == |s| && word == "";
    }
  }

  /** A triple quote opens a literal up to the next triple quote, whose content is normalised; without one there is none. */
  lemma TripleQuotesAreReadExactly(multiline: string -> string, s: string, i: nat, literal: Token)
    requires StandsAt("\"\"\"", s, i)
    ensures ReadNative(multiline, s, i) == Some(literal) <==>
              exists close: nat :: i + 3 <= close && StandsAt("\"\"\"", s, close)
                                   && (forall k: nat :: i + 3 <= k < close ==> !StandsAt("\"\"\"", s, k))
                                   && literal == Token(close + 3, multiline(s[i + 3..close]))
  {
    IndexOfIsFirst(s, "\"\"\"", i + 3);
    var close := IndexOf(s, "\"\"\"", i + 3);
    if other: nat :| i + 3 <= other && StandsAt("\"\"\"", s, other) && (forall k: nat :: i + 3 <= k < other ==> !StandsAt("\"\"\"", s, k)) {
      assert close == Some(other);
    }
  }

  // ----- runs

  lemma {:induction false} SpacesAreMaximal(s: string)
    ensures IsBlank(s[..SpaceLength(s)])
    ensures SpaceLength(s) < |s| ==> !IsSpace(s[SpaceLength(s)])
  {
    if s != "" && IsSpace(s[0]) {
      SpacesAreMaximal(s[1..]);
      var n := SpaceLength(s[1..]);
      assert s[..n + 1] == [s[0]] + s[1..][..n];
    }
  }

  /** The text starts with a plus sign between white space, as much of it as there is. */
  ghost predicate StartsWithPlus(s: string, a: nat, n: nat) {
    && a < n <= |s| && IsBlank(s[..a]) && s[a] == '+' && IsBlank(s[a + 1..n]) && (n < |s| ==> !IsSpace(s[n]))
  }

  lemma SeparatorIsPlus(s: string)
    ensures SeparatorLength(s) > 0 <==> exists a: nat, n: nat :: StartsWithPlus(s, a, n)
    ensures forall a: nat, n: nat :: StartsWithPlus(s, a, n) ==> SeparatorLength(s) == n
  {
    SpacesAreMaximal(s);
    var a := SpaceLength(s);
    if a < |s| && s[a] == '+' {
      SpacesAreMaximal(s[a + 1..]);
      var n := a + 1 + SpaceLength(s[a + 1..]);
      assert s[a + 1..n] == s[a + 1..][..n - a - 1];
      assert StartsWithPlus(s, a, n);
    }
    forall b: nat, n: nat | StartsWithPlus(s, b, n) ensures SeparatorLength(s) == n {
      SamePlus(s, b, n);
    }
  }

  lemma SamePlus(s: string, b: nat, n: nat)
    requires StartsWithPlus(s, b, n)
    ensures SeparatorLength(s) == n
  {
    SpacesEndAt(s, b);
    assert s[b + 1..][..n - b - 1] == s[b + 1..n];
    SpacesEndAt(s[b + 1..], n - b - 1);
  }

  lemma {:induction false} SpacesEndAt(s: string, n: nat)
    requires n <= |s| && IsBlank(s[..n]) && (n < |s| ==> !IsSpace(s[n]))
    ensures SpaceLength(s) == n
  {
    if n > 0 {
      assert s[..n][0] == s[0] && s[1..][..n - 1] == s[..n][1..];
      SpacesEndAt(s[1..], n - 1);
    }
  }

  /** Literals that follow each other from `i` on, each but the last before a separator. */
  ghost predicate IsChain(lexer: Lexer, i: nat, tokens: seq<Token>)
    decreases |tokens|
  {
    && tokens != [] && lexer.read(i) == Some(tokens[0])
    && if |tokens| == 1 then lexer.separator(tokens[0].end) == 0
       else lexer.separator(tokens[0].end) > 0 && IsChain(lexer, tokens[0].end + lexer.separator(tokens[0].end), tokens[1..])
  }

  function Values(tokens: seq<Token>): string {
    if tokens == [] then "" else tokens[0].value + Values(tokens[1..])
  }

  /** What a chain of literals is read as. */
  function RunOf(tokens: seq<Token>): Adjacent
    requires tokens != []
  {
    Adjacent(tokens[|tokens| - 1].end, |tokens|, Values(tokens))
  }

  lemma {:induction false} ChainIsRead(lexer: Lexer, i: nat, tokens: seq<Token>)
    requires Progresses(lexer) && IsChain(lexer, i, tokens)
    ensures ReadRun(lexer, i) == Some(RunOf(tokens))
    decreases |tokens|
  {
    if |tokens| > 1 {
      ChainIsRead(lexer, tokens[0].end + lexer.separator(tokens[0].end), tokens[1..]);
      assert tokens[1..][|tokens| - 2] == tokens[|tokens| - 1];
    } else {
      assert tokens[1..] == [] && Values(tokens) == tokens[0].value + "" == tokens[0].value;
    }
  }

  lemma {:induction false} ReadRunHasChain(lexer: Lexer, i: nat) returns (tokens: seq<Token>)
    requires Progresses(lexer) && ReadRun(lexer, i).Some?
    ensures IsChain(lexer, i, tokens)
    decreases lexer.length - i
  {
    var first := lexer.read(i).value;
    tokens := [first];
    if lexer.separator(first.end) > 0 {
      var rest := ReadRunHasChain(lexer, first.end + lexer.separator(first.end));
      tokens := [first] + rest;
      assert tokens[1..] == rest;
    }
  }

  /** A run is read, with this end, number and value, if and only if a chain of literals with them starts there. */
  lemma RunsAreReadExactly(lexer: Lexer, i: nat, run: Adjacent)
    requires Progresses(lexer)
    ensures ReadRun(lexer, i) == Some(run) <==> exists tokens :: IsChain(lexer, i, tokens) && run == RunOf(tokens)
  {
    if ReadRun(lexer, i).Some? {
      var tokens := ReadRunHasChain(lexer, i);
      ChainIsRead(lexer, i, tokens);
    }
    if tokens :| IsChain(lexer, i, tokens) && run == RunOf(tokens) {
      ChainIsRead(lexer, i, tokens);
    }
  }
}
