/**
  The text between the braces of a Kotlin interpolation: a scanner that looks for the closing brace, past quoted
  literals with their escapes and past nested braces, and the expressions it recognises.  Of the two scanners in the
  scripts one also takes apostrophes for quotes and the other does not.
 */
module BracedExpressions {
  import opened Options
  import opened Text

  /** Inside a braced expression: how many braces deep, inside which quotes, and right after a backslash there. */
  datatype Nesting = Nesting(depth: nat, quote: Option<char>, escaped: bool)

  const OUTERMOST := Nesting(1, None, false)

  predicate IsQuote(apostrophes: bool, c: char) { c == '"' || (apostrophes && c == '\'') }

  /** The nesting after one more character, or nothing when it closes the expression. */
  function Next(apostrophes: bool, n: Nesting, c: char): Option<Nesting> {
    if n.escaped then Some(n.(escaped := false))
    else if n.quote.Some? && c == '\\' then Some(n.(escaped := true))
    else if n.quote == Some(c) then Some(n.(quote := None))
    else if n.quote.None? && IsQuote(apostrophes, c) then Some(n.(quote := Some(c)))
    else if n.quote.None? && c == '{' then Some(n.(depth := n.depth + 1))
    else if n.quote.None? && c == '}' then if n.depth <= 1 then None else Some(n.(depth := n.depth - 1))
    else Some(n)
  }

  /** The end of the braced expression whose nesting is `n` at `i`. */
  function BraceEnd(apostrophes: bool, s: string, i: nat, n: Nesting): (end: Option<nat>)
    ensures end.Some? ==> i < end.value <= |s|
    decreases |s| - i
  {
    if i >= |s| then None
    else
      var next := Next(apostrophes, n, s[i]);
      if next.None? then Some(i + 1) else BraceEnd(apostrophes, s, i + 1, next.value)
  }

  // ----- expressions as they are written

  datatype LiteralChar = Ordinary(c: char) | Escaped(c: char)

  /** A braced expression: characters, quoted literals and nested braces. */
  datatype Expression =
    | Nothing
    | Plain(c: char, rest: Expression)
    | Literal(quote: char, body: seq<LiteralChar>, rest: Expression)
    | Braces(inner: Expression, rest: Expression)

  /** Inside quotes neither the quote nor a backslash stands for itself. */
  predicate IsBody(body: seq<LiteralChar>, quote: char) {
    forall k :: 0 <= k < |body| && body[k].Ordinary? ==> body[k].c != quote && body[k].c != '\\'
  }

  predicate IsWritable(apostrophes: bool, e: Expression) {
    match e
    case Nothing => true
    case Plain(c, rest) => !IsQuote(apostrophes, c) && c != '{' && c != '}' && IsWritable(apostrophes, rest)
    case Literal(quote, body, rest) =>
      IsQuote(apostrophes, quote) && IsBody(body, quote) && IsWritable(apostrophes, rest)
    case Braces(inner, rest) => IsWritable(apostrophes, inner) && IsWritable(apostrophes, rest)
  }

  function ShowChar(c: LiteralChar): string { if c.Escaped? then ['\\', c.c] else [c.c] }

  function ShowBody(body: seq<LiteralChar>): string {
    if body == [] then "" else ShowChar(body[0]) + ShowBody(body[1..])
  }

  function Show(e: Expression): string {
    match e
    case Nothing => ""
    case Plain(c, rest) => [c] + Show(rest)
    case Literal(quote, body, rest) => [quote] + (ShowBody(body) + ([quote] + Show(rest)))
    case Braces(inner, rest) => "{" + (Show(inner) + ("}" + Show(rest)))
  }

  /** The nesting after a text, or nothing when the expression is closed within it. */
  function After(apostrophes: bool, n: Nesting, t: string): Option<Nesting>
    decreases |t|
  {
    if t == "" then Some(n)
    else
      var next := Next(apostrophes, n, t[0]);
      if next.None? then None else After(apostrophes, next.value, t[1..])
  }

  lemma AfterCons(apostrophes: bool, n: Nesting, c: char, t: string)
    ensures After(apostrophes, n, [c] + t) == (var next := Next(apostrophes, n, c); if next.None? then None else After(apostrophes, next.value, t))
  {
    assert ([c] + t)[1..] == t;
  }

  lemma {:induction false} AfterAppend(apostrophes: bool, n: Nesting, a: string, b: string)
    ensures After(apostrophes, n, a + b)
         == if After(apostrophes, n, a).None? then None else After(apostrophes, After(apostrophes, n, a).value, b)
    decreases |a|
  {
    if a == "" {
      assert a + b == b;
    } else {
      assert (a + b)[1..] == a[1..] + b;
      if Next(apostrophes, n, a[0]).Some? {
        AfterAppend(apostrophes, Next(apostrophes, n, a[0]).value, a[1..], b);
      }
    }
  }

  /** A text that does not close the expression is passed over. */
  lemma {:induction false} PassesOver(apostrophes: bool, t: string, s: string, i: nat, n: Nesting)
    requires StandsAt(t, s, i) && After(apostrophes, n, t).Some?
    ensures BraceEnd(apostrophes, s, i, n) == BraceEnd(apostrophes, s, i + |t|, After(apostrophes, n, t).value)
    decreases |t|
  {
    if t != "" {
      StandsChar(t, s, i, 0);
      assert t == t[..1] + t[1..];
      StandsAtParts(t[..1], t[1..], s, i);
      PassesOver(apostrophes, t[1..], s, i + 1, Next(apostrophes, n, t[0]).value);
    }
  }

  lemma EscapedHead(body: seq<LiteralChar>)
    requires body != []
    ensures body[0].Escaped? ==> ShowBody(body) == ['\\'] + ([body[0].c] + ShowBody(body[1..]))
  {
    TwoThenRest('\\', body[0].c, ShowBody(body[1..]));
  }

  lemma {:induction false} AfterBody(apostrophes: bool, body: seq<LiteralChar>, n: Nesting, quote: char)
    requires n.quote == Some(quote) && !n.escaped && IsBody(body, quote)
    ensures After(apostrophes, n, ShowBody(body)) == Some(n)
    decreases |body|
  {
    if body != [] {
      var c, rest := body[0].c, ShowBody(body[1..]);
      AfterBody(apostrophes, body[1..], n, quote);
      EscapedHead(body);
      if body[0].Escaped? {
        AfterCons(apostrophes, n, '\\', [c] + rest);
        AfterCons(apostrophes, n.(escaped := true), c, rest);
      } else {
        AfterCons(apostrophes, n, c, rest);
      }
    }
  }

  lemma AfterQuoted(apostrophes: bool, quote: char, body: seq<LiteralChar>, rest: string, n: Nesting)
    requires IsQuote(apostrophes, quote) && IsBody(body, quote) && n.quote.None? && !n.escaped
    ensures After(apostrophes, n, [quote] + (ShowBody(body) + ([quote] + rest))) == After(apostrophes, n, rest)
  {
    var quoted := n.(quote := Some(quote));
    AfterBody(apostrophes, body, quoted, quote);
    AfterCons(apostrophes, n, quote, ShowBody(body) + ([quote] + rest));
    AfterAppend(apostrophes, quoted, ShowBody(body), [quote] + rest);
    AfterCons(apostrophes, quoted, quote, rest);
  }

  lemma AfterBraces(apostrophes: bool, inner: string, rest: string, n: Nesting)
    requires n.quote.None? && !n.escaped
    ensures var after := After(apostrophes, n.(depth := n.depth + 1), inner);
            After(apostrophes, n, "{" + (inner + ("}" + rest)))
            == if after.None? then None else After(apostrophes, after.value, "}" + rest)
  {
    AfterCons(apostrophes, n, '{', inner + ("}" + rest));
    AfterAppend(apostrophes, n.(depth := n.depth + 1), inner, "}" + rest);
  }

  /** Whatever is written between the braces, quoted braces and nested ones included, leaves the nesting as it was. */
  lemma {:induction false} AfterExpression(apostrophes: bool, e: Expression, n: Nesting)
    requires IsWritable(apostrophes, e) && n.depth >= 1 && n.quote.None? && !n.escaped
    ensures After(apostrophes, n, Show(e)) == Some(n)
    decreases e
  {
    match e
    case Nothing =>
    case Plain(c, rest) =>
      AfterExpression(apostrophes, rest, n);
      AfterCons(apostrophes, n, c, Show(rest));
    case Literal(quote, body, rest) =>
      AfterExpression(apostrophes, rest, n);
      AfterQuoted(apostrophes, quote, body, Show(rest), n);
    case Braces(inner, rest) =>
      var deeper := n.(depth := n.depth + 1);
      AfterExpression(apostrophes, inner, deeper);
      AfterExpression(apostrophes, rest, n);
      AfterBraces(apostrophes, Show(inner), Show(rest), n);
      AfterCons(apostrophes, deeper, '}', Show(rest));
  }

  /** A written expression ends exactly at its own closing brace, wherever it stands. */
  lemma {:induction false} WrittenExpressionEnds(apostrophes: bool, e: Expression, s: string, i: nat)
    requires IsWritable(apostrophes, e) && StandsAt(Show(e) + "}", s, i)
    ensures BraceEnd(apostrophes, s, i, OUTERMOST) == Some(i + |Show(e)| + 1)
  {
    StandsAtParts(Show(e), "}", s, i);
    AfterExpression(apostrophes, e, OUTERMOST);
    PassesOver(apostrophes, Show(e), s, i, OUTERMOST);
    StandsChar("}", s, i + |Show(e)|, 0);
  }

  // ----- only written expressions are read

  /** What stands from some point to the closing brace: the character after a backslash, the rest of a literal, and the
      rests of the open expressions, innermost first. */
  datatype Remainder = Remainder(c: char, body: seq<LiteralChar>, open: seq<Expression>)

  predicate IsProper(apostrophes: bool, n: Nesting) {
    n.depth >= 1 && (n.quote.Some? ==> IsQuote(apostrophes, n.quote.value)) && (n.escaped ==> n.quote.Some?)
  }

  predicate Suits(apostrophes: bool, n: Nesting, r: Remainder) {
    && |r.open| == n.depth && (forall k :: 0 <= k < |r.open| ==> IsWritable(apostrophes, r.open[k]))
    && (n.quote.Some? ==> IsBody(r.body, n.quote.value))
  }

  function ShowOpen(open: seq<Expression>): string {
    if open == [] then "" else Show(open[0]) + ("}" + ShowOpen(open[1..]))
  }

  function ShowRemainder(n: Nesting, r: Remainder): string {
    if n.quote.None? then ShowOpen(r.open)
    else (if n.escaped then [r.c] else "") + (ShowBody(r.body) + ([n.quote.value] + ShowOpen(r.open)))
  }

  /** One character in front of a remainder, inside quotes. */
  lemma BeforeQuoted(apostrophes: bool, n: Nesting, c: char, r: Remainder) returns (r': Remainder)
    requires IsProper(apostrophes, n) && n.quote.Some? && Next(apostrophes, n, c).Some? && Suits(apostrophes, Next(apostrophes, n, c).value, r)
    ensures Suits(apostrophes, n, r') && ShowRemainder(n, r') == [c] + ShowRemainder(Next(apostrophes, n, c).value, r)
  {
    var tail := [n.quote.value] + ShowOpen(r.open);
    if n.escaped {
      r' := r.(c := c);
      EmptyThenRest(ShowBody(r.body) + tail);
    } else if c == '\\' {
      r' := r.(body := [Escaped(r.c)] + r.body);
      BodyCons(Escaped(r.c), r.body, tail);
      TwoThenRest('\\', r.c, ShowBody(r.body) + tail);
    } else if c == n.quote.value {
      r' := r.(body := []);
    } else {
      r' := r.(body := [Ordinary(c)] + r.body);
      BodyCons(Ordinary(c), r.body, tail);
      EmptyThenRest(ShowBody(r.body) + tail);
    }
  }

  lemma EmptyThenRest(t: string)
    ensures "" + t == t
  {
  }

  lemma TwoThenRest(a: char, b: char, t: string)
    ensures [a, b] + t == [a] + ([b] + t)
  {
  }

  lemma BodyCons(c: LiteralChar, body: seq<LiteralChar>, tail: string)
    ensures "" + (ShowBody([c] + body) + tail) == ShowChar(c) + (ShowBody(body) + tail)
  {
    assert ([c] + body)[1..] == body;
  }

  lemma OpenCons(e: Expression, open: seq<Expression>)
    ensures ShowOpen([e] + open) == Show(e) + ("}" + ShowOpen(open))
  {
    assert ([e] + open)[1..] == open;
  }

  lemma LiteralShows(quote: char, body: seq<LiteralChar>, open: seq<Expression>)
    requires open != []
    ensures ShowOpen([Literal(quote, body, open[0])] + open[1..]) == [quote] + ("" + (ShowBody(body) + ([quote] + ShowOpen(open))))
  {
    OpenCons(Literal(quote, body, open[0]), open[1..]);
    var b, x, y := ShowBody(body), Show(open[0]), "}" + ShowOpen(open[1..]);
    EmptyThenRest(b + ([quote] + (x + y)));
    AppendAssociates([quote], b + ([quote] + x), y);
    AppendAssociates(b, [quote] + x, y);
    AppendAssociates([quote], x, y);
  }

  lemma {:induction false} BracesShows(open: seq<Expression>)
    requires |open| > 1
    ensures ShowOpen([Braces(open[0], open[1])] + open[2..]) == "{" + ShowOpen(open)
  {
    OpenCons(Braces(open[0], open[1]), open[2..]);
    assert open[1..][1..] == open[2..];
    var a, b, z := Show(open[0]), Show(open[1]), "}" + ShowOpen(open[2..]);
    assert ShowOpen(open[1..]) == b + z;
    assert "{" + (a + ("}" + b)) + z == "{" + (a + ("}" + (b + z)));
  }

  /** One character in front of a remainder, outside quotes. */
  lemma BeforeUnquoted(apostrophes: bool, n: Nesting, c: char, r: Remainder) returns (r': Remainder)
    requires IsProper(apostrophes, n) && n.quote.None? && Next(apostrophes, n, c).Some? && Suits(apostrophes, Next(apostrophes, n, c).value, r)
    ensures Suits(apostrophes, n, r') && ShowRemainder(n, r') == [c] + ShowRemainder(Next(apostrophes, n, c).value, r)
  {
    if IsQuote(apostrophes, c) {
      r' := r.(open := [Literal(c, r.body, r.open[0])] + r.open[1..]);
      LiteralShows(c, r.body, r.open);
    } else if c == '{' {
      r' := r.(open := [Braces(r.open[0], r.open[1])] + r.open[2..]);
      BracesShows(r.open);
    } else if c == '}' {
      r' := r.(open := [Nothing] + r.open);
      OpenCons(Nothing, r.open);
    } else {
      r' := r.(open := [Plain(c, r.open[0])] + r.open[1..]);
      OpenCons(Plain(c, r.open[0]), r.open[1..]);
      AppendAssociates([c], Show(r.open[0]), "}" + ShowOpen(r.open[1..]));
    }
  }

  lemma {:induction false} ReadRemainder(apostrophes: bool, s: string, i: nat, n: Nesting) returns (r: Remainder)
    requires IsProper(apostrophes, n) && BraceEnd(apostrophes, s, i, n).Some?
    ensures Suits(apostrophes, n, r) && s[i..BraceEnd(apostrophes, s, i, n).value] == ShowRemainder(n, r)
    decreases |s| - i
  {
    var end, next := BraceEnd(apostrophes, s, i, n).value, Next(apostrophes, n, s[i]);
    assert s[i..end] == [s[i]] + s[i + 1..end];
    if next.None? {
      r := Remainder(' ', [], [Nothing]);
      OpenCons(Nothing, []);
    } else {
      var rest := ReadRemainder(apostrophes, s, i + 1, next.value);
      if n.quote.Some? {
        r := BeforeQuoted(apostrophes, n, s[i], rest);
      } else {
        r := BeforeUnquoted(apostrophes, n, s[i], rest);
      }
    }
  }

  /** Every expression that is read is a written one, so exactly those are. */
  lemma ReadExpressionIsWritten(apostrophes: bool, s: string, i: nat) returns (e: Expression)
    requires BraceEnd(apostrophes, s, i, OUTERMOST).Some?
    ensures IsWritable(apostrophes, e) && s[i..BraceEnd(apostrophes, s, i, OUTERMOST).value] == Show(e) + "}"
  {
    var r := ReadRemainder(apostrophes, s, i, OUTERMOST);
    e := r.open[0];
    assert r.open == [e] + [];
    OpenCons(e, []);
    assert "}" + "" == "}";
  }

  // ----- where the two scanners agree

  /** No character literal holds a double quote. */
  predicate HasPlainCharacters(e: Expression) {
    match e
    case Nothing => true
    case Plain(_, rest) => HasPlainCharacters(rest)
    case Literal(quote, body, rest) =>
      (quote == '\'' ==> forall k :: 0 <= k < |body| ==> body[k].c != '"') && HasPlainCharacters(rest)
    case Braces(inner, rest) => HasPlainCharacters(inner) && HasPlainCharacters(rest)
  }

  /** The depth after a character literal when its braces count, or nothing when they close the expression. */
  function BodyDepth(depth: nat, body: seq<LiteralChar>): Option<nat>
    decreases |body|
  {
    if body == [] then Some(depth)
    else if body[0].c == '{' then BodyDepth(depth + 1, body[1..])
    else if body[0].c == '}' then if depth <= 1 then None else BodyDepth(depth - 1, body[1..])
    else BodyDepth(depth, body[1..])
  }

  /** The depth after an expression when the braces of its character literals count, or nothing when the expression is
      closed within it. */
  function CountedDepth(depth: nat, e: Expression): Option<nat>
    decreases e
  {
    match e
    case Nothing => Some(depth)
    case Plain(_, rest) => CountedDepth(depth, rest)
    case Literal(quote, body, rest) =>
      var after := if quote == '"' then Some(depth) else BodyDepth(depth, body);
      if after.None? then None else CountedDepth(after.value, rest)
    case Braces(inner, rest) =>
      var after := CountedDepth(depth + 1, inner);
      if after.None? || after.value <= 1 then None else CountedDepth(after.value - 1, rest)
  }

  function AtDepth(depth: Option<nat>): Option<Nesting> {
    if depth.None? then None else Some(Nesting(depth.value, None, false))
  }

  /** The scanner without apostrophes takes a character literal for plain text. */
  lemma {:induction false} AfterCharacters(body: seq<LiteralChar>, depth: nat)
    requires forall k :: 0 <= k < |body| ==> body[k].c != '"'
    ensures After(false, Nesting(depth, None, false), ShowBody(body)) == AtDepth(BodyDepth(depth, body))
    decreases |body|
  {
    if body != [] {
      var n, c, rest := Nesting(depth, None, false), body[0].c, ShowBody(body[1..]);
      EscapedHead(body);
      AfterCons(false, n, '\\', [c] + rest);
      AfterCons(false, n, c, rest);
      if c == '{' {
        AfterCharacters(body[1..], depth + 1);
      } else if c == '}' {
        if depth > 1 {
          AfterCharacters(body[1..], depth - 1);
        }
      } else {
        AfterCharacters(body[1..], depth);
      }
    }
  }

  lemma AfterLiteral(quote: char, body: seq<LiteralChar>, rest: string, depth: nat)
    requires IsQuote(true, quote) && IsBody(body, quote) && (quote == '\'' ==> forall k :: 0 <= k < |body| ==> body[k].c != '"')
    ensures var after := if quote == '"' then Some(depth) else BodyDepth(depth, body);
            After(false, Nesting(depth, None, false), [quote] + (ShowBody(body) + ([quote] + rest)))
            == if after.None? then None else After(false, Nesting(after.value, None, false), rest)
  {
    var n := Nesting(depth, None, false);
    if quote == '"' {
      AfterQuoted(false, quote, body, rest, n);
    } else {
      AfterCons(false, n, quote, ShowBody(body) + ([quote] + rest));
      AfterCharacters(body, depth);
      AfterAppend(false, n, ShowBody(body), [quote] + rest);
      var after := BodyDepth(depth, body);
      if after.Some? {
        AfterCons(false, Nesting(after.value, None, false), quote, rest);
      }
    }
  }

  lemma {:induction false} AfterCounted(e: Expression, depth: nat)
    requires IsWritable(true, e) && HasPlainCharacters(e)
    ensures After(false, Nesting(depth, None, false), Show(e)) == AtDepth(CountedDepth(depth, e))
    decreases e
  {
    match e
    case Nothing =>
    case Plain(c, rest) =>
      AfterCons(false, Nesting(depth, None, false), c, Show(rest));
      AfterCounted(rest, depth);
    case Literal(quote, body, rest) =>
      AfterLiteral(quote, body, Show(rest), depth);
      var after := if quote == '"' then Some(depth) else BodyDepth(depth, body);
      if after.Some? {
        AfterCounted(rest, after.value);
      }
    case Braces(inner, rest) =>
      AfterCounted(inner, depth + 1);
      var after := CountedDepth(depth + 1, inner);
      if after.Some? && after.value > 1 {
        AfterCounted(rest, after.value - 1);
      }
      AfterCountedBraces(Show(inner), Show(rest), depth, after);
  }

  lemma {:induction false} AfterCountedBraces(inner: string, rest: string, depth: nat, after: Option<nat>)
    requires After(false, Nesting(depth + 1, None, false), inner) == AtDepth(after)
    ensures After(false, Nesting(depth, None, false), "{" + (inner + ("}" + rest)))
         == if after.None? || after.value <= 1 then None else After(false, Nesting(after.value - 1, None, false), rest)
  {
    AfterBraces(false, inner, rest, Nesting(depth, None, false));
    if after.Some? {
      AfterCons(false, Nesting(after.value, None, false), '}', rest);
    }
  }

  /** A text that closes the expression has its end inside. */
  lemma {:induction false} ClosesWithin(apostrophes: bool, t: string, s: string, i: nat, n: Nesting)
    requires StandsAt(t, s, i) && After(apostrophes, n, t).None?
    ensures BraceEnd(apostrophes, s, i, n).Some? && BraceEnd(apostrophes, s, i, n).value <= i + |t|
    decreases |t|
  {
    StandsChar(t, s, i, 0);
    if Next(apostrophes, n, t[0]).Some? {
      assert t == t[..1] + t[1..];
      StandsAtParts(t[..1], t[1..], s, i);
      ClosesWithin(apostrophes, t[1..], s, i + 1, Next(apostrophes, n, t[0]).value);
    }
  }

  lemma {:induction false} AfterStaysInside(apostrophes: bool, n: Nesting, t: string)
    requires n.depth >= 1 && After(apostrophes, n, t).Some?
    ensures After(apostrophes, n, t).value.depth >= 1
    decreases |t|
  {
    if t != "" {
      AfterStaysInside(apostrophes, Next(apostrophes, n, t[0]).value, t[1..]);
    }
  }

  /** On every interpolation both scanners find the same end if and only if the one without apostrophes, run on the text of
      the expression alone, comes out of it as it went in. */
  lemma ScannersAgreeByNesting(e: Expression, s: string, i: nat)
    requires IsWritable(true, e) && StandsAt(Show(e) + "}", s, i)
    ensures BraceEnd(true, s, i, OUTERMOST) == BraceEnd(false, s, i, OUTERMOST)
        <==> After(false, OUTERMOST, Show(e)) == Some(OUTERMOST)
  {
    WrittenExpressionEnds(true, e, s, i);
    StandsAtParts(Show(e), "}", s, i);
    EndsAfterExactly(Show(e), s, i);
  }

  /** The scanner ends with the brace after a text exactly if the text leaves it as it was. */
  lemma {:induction false} EndsAfterExactly(t: string, s: string, i: nat)
    requires StandsAt(t, s, i) && StandsAt("}", s, i + |t|)
    ensures BraceEnd(false, s, i, OUTERMOST) == Some(i + |t| + 1) <==> After(false, OUTERMOST, t) == Some(OUTERMOST)
  {
    StandsChar("}", s, i + |t|, 0);
    if After(false, OUTERMOST, t).None? {
      ClosesWithin(false, t, s, i, OUTERMOST);
    } else {
      PassesOver(false, t, s, i, OUTERMOST);
      AfterStaysInside(false, OUTERMOST, t);
    }
  }

  /** On every interpolation both scanners find the same end if and only if the text of the expression is also written by the
      grammar without character literals. */
  lemma ScannersAgreeExactly(e: Expression, s: string, i: nat)
    requires IsWritable(true, e) && StandsAt(Show(e) + "}", s, i)
    ensures BraceEnd(true, s, i, OUTERMOST) == BraceEnd(false, s, i, OUTERMOST)
        <==> exists e' :: IsWritable(false, e') && Show(e') == Show(e)
  {
    WrittenExpressionEnds(true, e, s, i);
    if BraceEnd(true, s, i, OUTERMOST) == BraceEnd(false, s, i, OUTERMOST) {
      var e' := ReadExpressionIsWritten(false, s, i);
      assert (Show(e') + "}")[..|Show(e')|] == Show(e') && (Show(e) + "}")[..|Show(e)|] == Show(e);
    } else if exists e' :: IsWritable(false, e') && Show(e') == Show(e) {
      var e' :| IsWritable(false, e') && Show(e') == Show(e);
      WrittenExpressionEnds(false, e', s, i);
    }
  }

  /** When no character literal holds a double quote, that is so if and only if the braces inside the character literals,
      counted like the others, open and close again without closing the expression. */
  lemma CountingDecides(e: Expression, s: string, i: nat)
    requires IsWritable(true, e) && HasPlainCharacters(e) && StandsAt(Show(e) + "}", s, i)
    ensures BraceEnd(true, s, i, OUTERMOST) == BraceEnd(false, s, i, OUTERMOST) <==> CountedDepth(1, e) == Some(1)
  {
    ScannersAgreeByNesting(e, s, i);
    AfterCounted(e, 1);
  }

  lemma {:induction false} StaysQuoted(n: Nesting, t: string)
    requires n.quote == Some('"') && Lacks(t, '"')
    ensures After(false, n, t).Some? && After(false, n, t).value.quote == Some('"')
    decreases |t|
  {
    if t != "" {
      StaysQuoted(Next(false, n, t[0]).value, t[1..]);
    }
  }

  /** A character literal that holds a double quote makes the scanners disagree unless another double quote follows: only one of
      them takes it for the start of a string. */
  lemma QuoteCharacterDisagrees(rest: Expression, s: string, i: nat)
    requires IsWritable(true, rest) && Lacks(Show(rest), '"')
    requires StandsAt(Show(Literal('\'', [Ordinary('"')], rest)) + "}", s, i)
    ensures BraceEnd(true, s, i, OUTERMOST) != BraceEnd(false, s, i, OUTERMOST)
  {
    var e := Literal('\'', [Ordinary('"')], rest);
    QuoteCharacterShows(rest);
    var quoted, tail := OUTERMOST.(quote := Some('"')), ['\''] + Show(rest);
    AfterCons(false, OUTERMOST, '\'', ['"'] + tail);
    AfterCons(false, OUTERMOST, '"', tail);
    StaysQuoted(quoted, tail);
    ScannersAgreeByNesting(e, s, i);
  }

  lemma QuoteCharacterShows(rest: Expression)
    ensures Show(Literal('\'', [Ordinary('"')], rest)) == ['\''] + (['"'] + (['\''] + Show(rest)))
  {
    assert [Ordinary('"')][1..] == [] && ShowBody([Ordinary('"')]) == "\"";
  }
}
