/** Reading the `$name` and `${expression}` interpolations of a Kotlin string template. */
module KotlinInterpolations {
  import opened Options
  import opened Text
  import opened BracedExpressions
  import opened Placeholders

  /** The interpolation stands at `[start..end)`. */
  datatype Span = Span(start: nat, end: nat)

  predicate IsNameStart(c: char) { 'a' <= c <= 'z' || 'A' <= c <= 'Z' || c == '_' }

  /** An interpolation starts at `i`. */
  predicate StartsAt(s: string, i: nat) {
    i + 1 < |s| && s[i] == '$' && (s[i + 1] == '{' || IsNameStart(s[i + 1]))
  }

  /** The end of the interpolation that starts at `i`, if its braces are balanced. */
  function InterpolationEnd(s: string, i: nat): (end: Option<nat>)
    requires StartsAt(s, i)
    ensures end.Some? ==> i + 1 < end.value <= |s|
  {
    if s[i + 1] == '{' then BraceEnd(true, s, i + 2, OUTERMOST) else Some(WordEnd(s, i + 2))
  }

  /** A written interpolation ends exactly at its own closing brace, wherever it stands. */
  lemma WrittenInterpolationEnds(e: Expression, s: string, i: nat)
    requires IsWritable(true, e) && StandsAt("${" + (Show(e) + "}"), s, i)
    ensures StartsAt(s, i) && InterpolationEnd(s, i) == Some(i + 3 + |Show(e)|)
  {
    StandsAtParts("${", Show(e) + "}", s, i);
    StandsChar("${", s, i, 0);
    StandsChar("${", s, i, 1);
    WrittenExpressionEnds(true, e, s, i + 2);
  }

  /** Every braced interpolation that is read is a written one, so exactly those are. */
  lemma ReadInterpolationIsWritten(s: string, i: nat) returns (e: Expression)
    requires StartsAt(s, i) && s[i + 1] == '{' && InterpolationEnd(s, i).Some?
    ensures IsWritable(true, e) && s[i..InterpolationEnd(s, i).value] == "${" + (Show(e) + "}")
  {
    var end := InterpolationEnd(s, i).value;
    e := ReadExpressionIsWritten(true, s, i + 2);
    assert s[i..end] == "${" + s[i + 2..end];
  }

  function Prepend(spans: seq<Span>, rest: Option<seq<Span>>): Option<seq<Span>> {
    if rest.None? then None else Some(spans + rest.value)
  }

  lemma PrependOne(spans: seq<Span>, span: Span, rest: Option<seq<Span>>)
    ensures Prepend(spans, Prepend([span], rest)) == Prepend(spans + [span], rest)
  {
    if rest.Some? {
      assert spans + ([span] + rest.value) == spans + [span] + rest.value;
    }
  }

  /** All interpolations from `i` on, or nothing when one is unbalanced. */
  function ReadFrom(s: string, i: nat): Option<seq<Span>>
    decreases |s| - i
  {
    if i >= |s| then Some([])
    else if !StartsAt(s, i) then ReadFrom(s, i + 1)
    else
      var end := InterpolationEnd(s, i);
      if end.None? then None else Prepend([Span(i, end.value)], ReadFrom(s, end.value))
  }

  function Read(s: string): Option<seq<Span>> { ReadFrom(s, 0) }

  /** Spans in order, apart, inside the text and after the cursor. */
  predicate InOrder(s: string, cursor: nat, spans: seq<Span>)
    decreases |spans|
  {
    && cursor <= |s|
    && (spans != [] ==>
          && cursor <= spans[0].start < spans[0].end <= |s|
          && InOrder(s, spans[0].end, spans[1..]))
  }

  lemma {:induction false} ReadsInOrder(s: string, cursor: nat, i: nat)
    requires cursor <= i <= |s| && ReadFrom(s, i).Some?
    ensures InOrder(s, cursor, ReadFrom(s, i).value)
    decreases |s| - i
  {
    if i < |s| {
      if !StartsAt(s, i) {
        ReadsInOrder(s, cursor, i + 1);
      } else {
        var end := InterpolationEnd(s, i).value;
        ReadsInOrder(s, end, end);
        var rest := ReadFrom(s, end).value;
        assert ([Span(i, end)] + rest)[1..] == rest;
      }
    }
  }

  function Token(s: string, span: Span): string
    requires span.start <= span.end <= |s|
  {
    s[span.start..span.end]
  }

  function Tokens(s: string, cursor: nat, spans: seq<Span>): (tokens: seq<string>)
    requires InOrder(s, cursor, spans)
    ensures |tokens| == |spans|
    decreases |spans|
  {
    if spans == [] then [] else [Token(s, spans[0])] + Tokens(s, spans[0].end, spans[1..])
  }

  /** The template with its interpolations replaced, in order, by the given values. */
  function Fill(s: string, cursor: nat, spans: seq<Span>, values: seq<string>): string
    requires InOrder(s, cursor, spans) && |values| == |spans|
    decreases |spans|
  {
    if spans == [] then s[cursor..]
    else s[cursor..spans[0].start] + values[0] + Fill(s, spans[0].end, spans[1..], values[1..])
  }

  /** Replacing every interpolation by itself gives the template back. */
  lemma {:induction false} FillWithTokens(s: string, cursor: nat, spans: seq<Span>)
    requires InOrder(s, cursor, spans)
    ensures Fill(s, cursor, spans, Tokens(s, cursor, spans)) == s[cursor..]
    decreases |spans|
  {
    if spans != [] {
      var a, b := spans[0].start, spans[0].end;
      FillWithTokens(s, b, spans[1..]);
    }
  }

  /** Exactly the interpolation starts outside earlier interpolations are read: between the spans, and after
      the last one, nothing starts an interpolation. */
  lemma {:induction false} NothingMissed(s: string, cursor: nat, i: nat, k: nat)
    requires cursor <= i <= |s| && ReadFrom(s, i).Some?
    requires forall j :: cursor <= j < i ==> !StartsAt(s, j)
    requires cursor <= k < |s| && StartsAt(s, k)
    ensures exists n :: 0 <= n < |ReadFrom(s, i).value| && ReadFrom(s, i).value[n].start <= k < ReadFrom(s, i).value[n].end
    decreases |s| - i
  {
    var spans := ReadFrom(s, i).value;
    if i < |s| {
      if !StartsAt(s, i) {
        NothingMissed(s, cursor, i + 1, k);
      } else {
        var end := InterpolationEnd(s, i).value;
        var rest := ReadFrom(s, end).value;
        assert spans == [Span(i, end)] + rest;
        if k < end {
          assert spans[0].start <= k < spans[0].end;
        } else {
          NothingMissed(s, end, end, k);
          var n :| 0 <= n < |rest| && rest[n].start <= k < rest[n].end;
          assert spans[n + 1] == rest[n];
        }
      }
    }
  }

  // ----- what is read, by a grammar of templates

  /** A part of a template: text, a dollar sign that starts nothing, `$name`, or `${expression}`. */
  datatype Part = Words(text: string) | Dollar | Name(name: string) | Braced(e: Expression)

  function ShowPart(p: Part): string {
    match p
    case Words(text) => text
    case Dollar => "$"
    case Name(name) => "$" + name
    case Braced(e) => "${" + (Show(e) + "}")
  }

  function ShowParts(parts: seq<Part>): string {
    if parts == [] then "" else ShowPart(parts[0]) + ShowParts(parts[1..])
  }

  /** A name is a word that does not start with a digit. */
  predicate IsName(name: string) { IsWord(name) && !IsDigit(name[0]) }

  /** A text that starts with something of which a lone dollar sign would make an interpolation. */
  predicate ContinuesDollar(rest: string) { rest != "" && (rest[0] == '{' || (IsWordChar(rest[0]) && !IsDigit(rest[0]))) }

  /** The part is well formed, given the text after it. */
  predicate IsPartBefore(p: Part, rest: string) {
    match p
    case Words(text) => Lacks(text, '$')
    case Dollar => !ContinuesDollar(rest)
    case Name(name) => IsName(name) && (rest == "" || !IsWordChar(rest[0]))
    case Braced(e) => IsWritable(true, e)
  }

  predicate AreParts(parts: seq<Part>) {
    parts == [] || (IsPartBefore(parts[0], ShowParts(parts[1..])) && AreParts(parts[1..]))
  }

  /** The spans of the interpolations among the parts, from position `i` on. */
  function SpansOf(parts: seq<Part>, i: nat): seq<Span> {
    if parts == [] then []
    else
      var end := i + |ShowPart(parts[0])|;
      (if parts[0].Name? || parts[0].Braced? then [Span(i, end)] else []) + SpansOf(parts[1..], end)
  }

  /** The rest of the text from `i` on is the part and then `rest`. */
  ghost predicate Remains(s: string, i: nat, part: string, rest: string) {
    i <= |s| && s[i..] == part + rest
  }

  lemma RemainsNext(s: string, i: nat, part: string, rest: string)
    requires Remains(s, i, part, rest)
    ensures i + |part| <= |s| && s[i + |part|..] == rest && StandsAt(part, s, i)
    ensures forall k :: 0 <= k < |part| ==> s[i + k] == part[k]
    ensures rest != "" ==> i + |part| < |s| && s[i + |part|] == rest[0]
    ensures rest == "" ==> i + |part| == |s|
  {
    var whole := part + rest;
    assert s[i..][|part|..] == whole[|part|..] == rest && s[i..][..|part|] == whole[..|part|] == part;
    assert s[i..][|part|..] == s[i + |part|..] && s[i..][..|part|] == s[i..i + |part|];
    assert forall k :: 0 <= k < |part| ==> s[i..][k] == whole[k];
  }

  lemma {:induction false} SkipWords(s: string, i: nat, n: nat)
    requires i + n <= |s| && forall k :: i <= k < i + n ==> s[k] != '$'
    ensures ReadFrom(s, i) == ReadFrom(s, i + n)
    decreases n
  {
    if n > 0 {
      SkipWords(s, i + 1, n - 1);
    }
  }

  lemma WordEndAt(s: string, i: nat, j: nat)
    requires i <= j <= |s| && (forall k :: i <= k < j ==> IsWordChar(s[k])) && (j < |s| ==> !IsWordChar(s[j]))
    ensures WordEnd(s, i) == j
  {
  }

  lemma NameIsRead(s: string, i: nat, name: string, rest: string)
    requires Remains(s, i, "$" + name, rest) && IsName(name) && (rest == "" || !IsWordChar(rest[0]))
    ensures StartsAt(s, i) && InterpolationEnd(s, i) == Some(i + 1 + |name|)
  {
    RemainsNext(s, i, "$" + name, rest);
    assert s[i + 0] == ("$" + name)[0];
    forall k | 0 <= k < |name| ensures s[i + 1 + k] == name[k] {
      assert s[i + (k + 1)] == ("$" + name)[k + 1];
    }
    assert s[i + 1 + 0] == name[0];
    forall k | i + 2 <= k < i + 1 + |name| ensures IsWordChar(s[k]) {
      assert s[i + 1 + (k - i - 1)] == name[k - i - 1];
    }
    WordEndAt(s, i + 2, i + 1 + |name|);
  }

  /** One part: skipped, or read as one interpolation. */
  lemma PartIsRead(s: string, i: nat, p: Part, rest: string)
    requires Remains(s, i, ShowPart(p), rest) && IsPartBefore(p, rest)
    ensures var end := i + |ShowPart(p)|;
            ReadFrom(s, i) == if IsSpan(p) then Prepend([Span(i, end)], ReadFrom(s, end)) else ReadFrom(s, end)
  {
    RemainsNext(s, i, ShowPart(p), rest);
    match p
    case Words(text) =>
      forall k | i <= k < i + |text| ensures s[k] != '$' {
        assert s[i + (k - i)] == text[k - i];
      }
      SkipWords(s, i, |text|);
    case Dollar => assert s[i + 0] == "$"[0] && !StartsAt(s, i);
    case Name(name) => NameIsRead(s, i, name, rest);
    case Braced(e) => WrittenInterpolationEnds(e, s, i);
  }

  /** What is read from each index on. */
  function Reader(s: string): nat -> Option<seq<Span>> { (i: nat) => ReadFrom(s, i) }

  predicate IsSpan(p: Part) { p.Name? || p.Braced? }

  /** The reader takes what stands from `i` to `end` for an interpolation, or skips it. */
  predicate ReadsAs(read: nat -> Option<seq<Span>>, i: nat, end: nat, isSpan: bool) {
    read(i) == if isSpan then Prepend([Span(i, end)], read(end)) else read(end)
  }

  /** The reader takes every part for what it is. */
  ghost predicate ReadsParts(read: nat -> Option<seq<Span>>, s: string) {
    && read(|s|) == Some([])
    && forall i: nat, p: Part, rest: string {:trigger Remains(s, i, ShowPart(p), rest)} ::
         Remains(s, i, ShowPart(p), rest) && IsPartBefore(p, rest) ==> ReadsAs(read, i, i + |ShowPart(p)|, IsSpan(p))
  }

  lemma {:induction false} ReaderReadsParts(s: string)
    ensures ReadsParts(Reader(s), s)
  {
    var read := Reader(s);
    forall i: nat, p: Part, rest: string {:trigger Remains(s, i, ShowPart(p), rest)}
      | Remains(s, i, ShowPart(p), rest) && IsPartBefore(p, rest)
      ensures ReadsAs(read, i, i + |ShowPart(p)|, IsSpan(p))
    {
      PartIsRead(s, i, p, rest);
      assert read(i) == ReadFrom(s, i) && read(i + |ShowPart(p)|) == ReadFrom(s, i + |ShowPart(p)|);
    }
  }

  lemma SpansCons(parts: seq<Part>, i: nat, end: nat)
    requires parts != [] && end == i + |ShowPart(parts[0])|
    ensures Some(SpansOf(parts, i)) == if IsSpan(parts[0]) then Prepend([Span(i, end)], Some(SpansOf(parts[1..], end)))
                                       else Some(SpansOf(parts[1..], end))
  {
    var rest := SpansOf(parts[1..], end);
    assert [] + rest == rest;
  }

  lemma FirstIsRead(read: nat -> Option<seq<Span>>, s: string, i: nat, p: Part, rest: string) returns (end: nat)
    requires ReadsParts(read, s) && i <= |s| && s[i..] == ShowPart(p) + rest && IsPartBefore(p, rest)
    ensures end == i + |ShowPart(p)| <= |s| && s[end..] == rest
    ensures ReadsAs(read, i, end, IsSpan(p))
  {
    end := i + |ShowPart(p)|;
    assert Remains(s, i, ShowPart(p), rest);
    RemainsTail(s, i, ShowPart(p), rest);
  }

  lemma RemainsTail(s: string, i: nat, part: string, rest: string)
    requires Remains(s, i, part, rest)
    ensures i + |part| <= |s| && s[i + |part|..] == rest
  {
    RemainsNext(s, i, part, rest);
  }

  lemma {:induction false} PartsAreRead(read: nat -> Option<seq<Span>>, s: string, i: nat, parts: seq<Part>)
    requires ReadsParts(read, s) && i <= |s| && s[i..] == ShowParts(parts) && AreParts(parts)
    ensures read(i) == Some(SpansOf(parts, i))
    decreases |parts|
  {
    if parts != [] {
      var end := FirstIsRead(read, s, i, parts[0], ShowParts(parts[1..]));
      PartsAreRead(read, s, end, parts[1..]);
      SpansCons(parts, i, end);
    }
  }

  /** The part that stands at `i`, and where the next one begins. */
  ghost predicate IsFirst(s: string, i: nat, p: Part, text: string, end: nat) {
    && text == ShowPart(p) && i < end <= |s| && s[i..end] == text && IsPartBefore(p, s[end..]) && ReadFrom(s, end).Some?
  }

  lemma FirstWords(s: string, i: nat) returns (p: Part)
    requires i < |s| && ReadFrom(s, i).Some? && !StartsAt(s, i)
    ensures IsFirst(s, i, p, ShowPart(p), i + 1)
  {
    p := if s[i] == '$' then Dollar else Words([s[i]]);
    assert s[i..i + 1] == [s[i]];
    assert i + 1 < |s| ==> s[i + 1..][0] == s[i + 1];
  }

  lemma FirstBraced(s: string, i: nat) returns (p: Part, end: nat)
    requires StartsAt(s, i) && ReadFrom(s, i).Some? && s[i + 1] == '{'
    ensures IsFirst(s, i, p, ShowPart(p), end)
  {
    var e := ReadInterpolationIsWritten(s, i);
    p, end := Braced(e), InterpolationEnd(s, i).value;
  }

  lemma FirstName(s: string, i: nat) returns (p: Part, end: nat)
    requires StartsAt(s, i) && ReadFrom(s, i).Some? && s[i + 1] != '{'
    ensures IsFirst(s, i, p, ShowPart(p), end)
  {
    end := WordEnd(s, i + 2);
    assert InterpolationEnd(s, i) == Some(end);
    var name := s[i + 1..end];
    p := Name(name);
    assert s[i..end] == "$" + name;
    assert forall k :: 0 <= k < |name| ==> name[k] == s[i + 1 + k];
  }

  lemma FirstPart(s: string, i: nat) returns (p: Part, end: nat)
    requires i < |s| && ReadFrom(s, i).Some?
    ensures IsFirst(s, i, p, ShowPart(p), end)
  {
    if !StartsAt(s, i) {
      p := FirstWords(s, i);
      end := i + 1;
    } else if s[i + 1] == '{' {
      p, end := FirstBraced(s, i);
    } else {
      p, end := FirstName(s, i);
    }
  }

  lemma PartsCons(p: Part, parts: seq<Part>)
    requires IsPartBefore(p, ShowParts(parts)) && AreParts(parts)
    ensures AreParts([p] + parts) && ShowParts([p] + parts) == ShowPart(p) + ShowParts(parts)
  {
    assert ([p] + parts)[1..] == parts;
  }

  /** Every balanced text is a template. */
  lemma {:induction false} ReadHasParts(s: string, i: nat) returns (parts: seq<Part>)
    requires i <= |s| && ReadFrom(s, i).Some?
    ensures AreParts(parts) && ShowParts(parts) == s[i..]
    decreases |s| - i
  {
    parts := [];
    if i < |s| {
      var p, end := FirstPart(s, i);
      parts := ReadHasParts(s, end);
      PartsCons(p, parts);
      assert s[i..] == s[i..end] + s[end..];
      parts := [p] + parts;
    }
  }

  /** A text is balanced if and only if it is a template, and then exactly the spans of the template's interpolations are read. */
  lemma ReadsTemplates(s: string)
    ensures Read(s).Some? <==> exists parts :: AreParts(parts) && ShowParts(parts) == s
    ensures forall parts :: AreParts(parts) && ShowParts(parts) == s ==> Read(s) == Some(SpansOf(parts, 0))
  {
    assert s[0..] == s;
    if Read(s).Some? {
      var parts := ReadHasParts(s, 0);
    }
    forall parts | AreParts(parts) && ShowParts(parts) == s ensures Read(s) == Some(SpansOf(parts, 0)) {
      ReaderReadsParts(s);
      PartsAreRead(Reader(s), s, 0, parts);
    }
  }

  // ----- the code

  /** The inner loop over a braced expression. */
  method ReadBraced(source: string, start: nat) returns (end: Option<nat>)
    requires start + 1 < |source|
    ensures end == BraceEnd(true, source, start + 2, OUTERMOST)
  {
    var depth := 1;
    var quote: Option<char> := None;
    var escaped := false;
    var index := start + 2;
    while index < |source|
      invariant start + 2 <= index <= |source|
      invariant depth >= 1
      invariant BraceEnd(true, source, start + 2, OUTERMOST) == BraceEnd(true, source, index, Nesting(depth, quote, escaped))
    {
      var character := source[index];
      if escaped {
        escaped := false;
      } else if quote.Some? && character == '\\' {
        escaped := true;
      } else if quote == Some(character) {
        quote := None;
      } else if quote.None? && (character == '"' || character == '\'') {
        quote := Some(character);
      } else if quote.None? && character == '{' {
        depth := depth + 1;
      } else if quote.None? && character == '}' {
        depth := depth - 1;
        if depth == 0 {
          return Some(index + 1);
        }
      }
      index := index + 1;
    }
    return None;
  }

  method ReadKotlinInterpolations(source: string) returns (result: Option<seq<Span>>)
    ensures result == Read(source)
  {
    var spans: seq<Span> := [];
    var index := 0;
    assert ReadFrom(source, 0).Some? ==> [] + ReadFrom(source, 0).value == ReadFrom(source, 0).value;
    while index < |source|
      invariant 0 <= index <= |source|
      invariant Read(source) == Prepend(spans, ReadFrom(source, index))
    {
      if !StartsAt(source, index) {
        index := index + 1;
        continue;
      }
      var start := index;
      if source[index + 1] != '{' {
        index := index + 2;
        while index < |source| && IsWordChar(source[index])
          invariant start + 2 <= index <= |source|
          invariant WordEnd(source, start + 2) == WordEnd(source, index)
        {
          index := index + 1;
        }
      } else {
        var end := ReadBraced(source, start);
        if end.None? {
          return None;
        }
        index := end.value;
      }
      PrependOne(spans, Span(start, index), ReadFrom(source, index));
      spans := spans + [Span(start, index)];
    }
    assert spans + [] == spans;
    return Some(spans);
  }
}
