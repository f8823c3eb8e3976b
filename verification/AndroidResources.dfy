/**
  Compiling a translation with Kotlin interpolations into an Android resource: the
  interpolations become positional format arguments numbered after the source string, and
  the text is escaped.
 */
module AndroidResources {
  import opened Options
  import opened Text
  import opened KotlinInterpolations
  import opened Counting
  import ResourceEscapes

  datatype RenderError = Unbalanced | ChangedPlaceholders

  // ----- matching interpolations

  /** The 1-based positions of a token. */
  function Positions(tokens: seq<string>, token: string): seq<nat> {
    if tokens == [] then []
    else Positions(tokens[..|tokens| - 1], token) + (if tokens[|tokens| - 1] == token then [|tokens|] else [])
  }

  function Count(tokens: seq<string>, token: string): nat { |Positions(tokens, token)| }

  /** The source position used for the k-th interpolation of the translation: its n-th occurrence there is
      matched with the n-th occurrence of the same token in the source. */
  function ArgumentIndex(source: seq<string>, translated: seq<string>, k: nat): nat
    requires k < |translated| && Count(translated[..k], translated[k]) < Count(source, translated[k])
  {
    Positions(source, translated[k])[Count(translated[..k], translated[k])]
  }

  lemma {:induction false} CountIsMultiplicity(tokens: seq<string>, token: string)
    ensures Count(tokens, token) == multiset(tokens)[token]
  {
    if tokens != [] {
      var init, last := tokens[..|tokens| - 1], tokens[|tokens| - 1];
      CountIsMultiplicity(init, token);
      assert tokens == init + [last];
    }
  }

  lemma {:induction false} CountPrefix(tokens: seq<string>, k: nat, token: string)
    requires k <= |tokens|
    ensures Positions(tokens[..k], token) <= Positions(tokens, token)
    decreases |tokens| - k
  {
    if k < |tokens| {
      assert tokens[..k + 1][..k] == tokens[..k];
      CountPrefix(tokens, k + 1, token);
    } else {
      assert tokens[..k] == tokens;
    }
  }

  /** An occurrence at `k` is not yet counted before it. */
  lemma {:induction false} CountBefore(tokens: seq<string>, k: nat)
    requires k < |tokens|
    ensures Count(tokens[..k], tokens[k]) < Count(tokens, tokens[k])
    ensures Positions(tokens, tokens[k])[Count(tokens[..k], tokens[k])] == k + 1
  {
    assert tokens[..k + 1][..k] == tokens[..k];
    CountPrefix(tokens, k + 1, tokens[k]);
  }

  lemma {:induction false} PositionsPoint(tokens: seq<string>, token: string, n: nat)
    requires n < Count(tokens, token)
    ensures var p := Positions(tokens, token)[n];
            1 <= p <= |tokens| && tokens[p - 1] == token && Count(tokens[..p - 1], token) == n
  {
    var init, last := tokens[..|tokens| - 1], tokens[|tokens| - 1];
    if n < Count(init, token) {
      PositionsPoint(init, token, n);
      var p := Positions(init, token)[n];
      assert init[..p - 1] == tokens[..p - 1];
    } else {
      assert last == token;
    }
  }

  /** Both strings interpolate the same tokens equally often. */
  predicate SameTokens(source: seq<string>, translated: seq<string>) { multiset(source) == multiset(translated) }

  lemma ArgumentExists(source: seq<string>, translated: seq<string>, k: nat)
    requires SameTokens(source, translated) && k < |translated|
    ensures Count(translated[..k], translated[k]) < Count(source, translated[k])
  {
    CountBefore(translated, k);
    CountIsMultiplicity(source, translated[k]);
    CountIsMultiplicity(translated, translated[k]);
  }

  function ArgumentIndices(source: seq<string>, translated: seq<string>): (indices: seq<nat>)
    requires SameTokens(source, translated)
    ensures |indices| == |translated|
  {
    seq(|translated|, k requires 0 <= k < |translated| =>
      (ArgumentExists(source, translated, k); ArgumentIndex(source, translated, k)))
  }

  /** An index names a source interpolation of the same token and the same occurrence number. */
  lemma ArgumentPoints(source: seq<string>, translated: seq<string>, k: nat)
    requires SameTokens(source, translated) && k < |translated|
    ensures var i := ArgumentIndices(source, translated)[k];
            && 1 <= i <= |source| && source[i - 1] == translated[k]
            && Count(source[..i - 1], translated[k]) == Count(translated[..k], translated[k])
  {
    ArgumentExists(source, translated, k);
    PositionsPoint(source, translated[k], Count(translated[..k], translated[k]));
  }

  lemma ArgumentsDiffer(source: seq<string>, translated: seq<string>, j: nat, k: nat)
    requires SameTokens(source, translated) && j < k < |translated|
    ensures ArgumentIndices(source, translated)[j] != ArgumentIndices(source, translated)[k]
  {
    ArgumentPoints(source, translated, j);
    ArgumentPoints(source, translated, k);
    if translated[j] == translated[k] {
      EarlierCountsLess(translated, j, k);
    }
  }

  lemma EarlierCountsLess(tokens: seq<string>, j: nat, k: nat)
    requires j < k < |tokens| && tokens[j] == tokens[k]
    ensures Count(tokens[..j], tokens[j]) < Count(tokens[..k], tokens[k])
  {
    CountBefore(tokens[..k], j);
    assert tokens[..k][..j] == tokens[..j];
  }

  /** The interpolation of the translation that uses source position `i`. */
  lemma MatchingUse(source: seq<string>, translated: seq<string>, i: nat) returns (k: nat)
    requires SameTokens(source, translated) && 1 <= i <= |source|
    ensures k < |translated| && ArgumentIndices(source, translated)[k] == i
  {
    var token := source[i - 1];
    var n := Count(source[..i - 1], token);
    CountBefore(source, i - 1);
    CountIsMultiplicity(source, token);
    CountIsMultiplicity(translated, token);
    PositionsPoint(translated, token, n);
    k := Positions(translated, token)[n] - 1;
    ArgumentExists(source, translated, k);
  }

  /** Every index names a source interpolation of the same token, no index is used twice, and all are used:
      reordering is a bijection. */
  lemma ArgumentsAreBijective(source: seq<string>, translated: seq<string>)
    requires SameTokens(source, translated)
    ensures var indices := ArgumentIndices(source, translated);
            && (forall k :: 0 <= k < |indices| ==> 1 <= indices[k] <= |source| && source[indices[k] - 1] == translated[k])
            && (forall j, k :: 0 <= j < k < |indices| ==> indices[j] != indices[k])
            && (forall i :: 1 <= i <= |source| ==> i in indices)
  {
    var indices := ArgumentIndices(source, translated);
    forall k | 0 <= k < |indices| ensures 1 <= indices[k] <= |source| && source[indices[k] - 1] == translated[k] {
      ArgumentPoints(source, translated, k);
    }
    forall j, k | 0 <= j < k < |indices| ensures indices[j] != indices[k] {
      ArgumentsDiffer(source, translated, j, k);
    }
    forall i | 1 <= i <= |source| ensures i in indices {
      var k := MatchingUse(source, translated, i);
    }
  }

  // ----- the format string

  function EscapePercent(text: string): string { ReplaceAll(text, '%', "%%") }

  function Placeholder(index: nat): string { "%" + Decimal(index) + "$s" }

  function FormatString(s: string, cursor: nat, spans: seq<Span>, indices: seq<nat>): string
    requires InOrder(s, cursor, spans) && |indices| == |spans|
    decreases |spans|
  {
    if spans == [] then EscapePercent(s[cursor..])
    else EscapePercent(s[cursor..spans[0].start]) + Placeholder(indices[0])
         + FormatString(s, spans[0].end, spans[1..], indices[1..])
  }

  function TokensOf(s: string): seq<string>
    requires Read(s).Some?
  {
    ReadsInOrder(s, 0, 0);
    Tokens(s, 0, Read(s).value)
  }

  function Render(source: string, translated: string): Result<string, RenderError> {
    if Read(source).None? || Read(translated).None? then Err(Unbalanced)
    else if !SameTokens(TokensOf(source), TokensOf(translated)) then Err(ChangedPlaceholders)
    else if TokensOf(source) == [] then Ok(ResourceEscapes.EscapeResource(translated))
    else
      ReadsInOrder(translated, 0, 0);
      Ok(ResourceEscapes.EscapeResource(
           FormatString(translated, 0, Read(translated).value, ArgumentIndices(TokensOf(source), TokensOf(translated)))))
  }

  // ----- what a format string means

  function DigitsEnd(s: string, i: nat): (j: nat)
    requires i <= |s|
    ensures i <= j <= |s| && AllDigits(s[i..j])
    ensures j < |s| ==> !IsDigit(s[j])
    decreases |s| - i
  {
    if i < |s| && IsDigit(s[i]) then
      var j := DigitsEnd(s, i + 1);
      assert s[i..j] == [s[i]] + s[i + 1..j];
      j
    else i
  }

  /** The index of a leading `%n$s` with a positive index, and its length. */
  function ReadSpecifier(format: string): (specifier: Option<(nat, nat)>)
    requires |format| > 0
    ensures specifier.Some? ==> 1 <= specifier.value.0 && 0 < specifier.value.1 <= |format|
  {
    var end := DigitsEnd(format, 1);
    if 1 < end && end + 1 < |format| && format[end] == '$' && format[end + 1] == 's' && 1 <= Value(format[1..end])
    then Some((Value(format[1..end]), end + 2))
    else None
  }

  /** Java's formatter on `%%` and positional `%n$s`; anything else after a percent sign is an error. */
  function Format(format: string, arguments: seq<string>): Option<string>
    decreases |format|
  {
    if format == "" then Some("")
    else if format[0] != '%' then Join([format[0]], Format(format[1..], arguments))
    else if |format| > 1 && format[1] == '%' then Join("%", Format(format[2..], arguments))
    else
      var specifier := ReadSpecifier(format);
      if specifier.Some? && specifier.value.0 <= |arguments|
      then Join(arguments[specifier.value.0 - 1], Format(format[specifier.value.1..], arguments))
      else None
  }

  function Join(text: string, rest: Option<string>): Option<string> {
    if rest.None? then None else Some(text + rest.value)
  }

  lemma FormatHead(c: char, tail: string, arguments: seq<string>)
    ensures Format((if c == '%' then "%%" else [c]) + tail, arguments) == Join([c], Format(tail, arguments))
  {
    var head := if c == '%' then "%%" else [c];
    var s := head + tail;
    assert s[|head|..] == tail && s[0] == c;
  }

  lemma EscapePercentHead(text: string, rest: string)
    requires text != ""
    ensures EscapePercent(text) + rest == (if text[0] == '%' then "%%" else [text[0]]) + (EscapePercent(text[1..]) + rest)
  {
  }

  lemma HeadAppend(text: string, rest: string)
    requires text != ""
    ensures [text[0]] + (text[1..] + rest) == text + rest
  {
  }

  lemma {:induction false} FormatText(text: string, rest: string, arguments: seq<string>)
    requires Format(rest, arguments).Some?
    ensures Format(EscapePercent(text) + rest, arguments) == Some(text + Format(rest, arguments).value)
  {
    if text == "" {
      assert EscapePercent(text) + rest == rest && text + Format(rest, arguments).value == Format(rest, arguments).value;
    } else {
      FormatText(text[1..], rest, arguments);
      EscapePercentHead(text, rest);
      FormatHead(text[0], EscapePercent(text[1..]) + rest, arguments);
      HeadAppend(text, Format(rest, arguments).value);
    }
  }

  lemma {:induction false} DigitsEndAt(s: string, i: nat, j: nat)
    requires i <= j < |s| && AllDigits(s[i..j]) && !IsDigit(s[j])
    ensures DigitsEnd(s, i) == j
    decreases j - i
  {
    if i < j {
      assert s[i..j][0] == s[i];
      assert s[i + 1..j] == s[i..j][1..];
      DigitsEndAt(s, i + 1, j);
    }
  }

  lemma {:induction false} FormatPlaceholder(index: nat, rest: string, arguments: seq<string>)
    requires 1 <= index <= |arguments| && Format(rest, arguments).Some?
    ensures Format(Placeholder(index) + rest, arguments) == Some(arguments[index - 1] + Format(rest, arguments).value)
  {
    DecimalReadsBack(index);
    var digits := Decimal(index);
    var s := Placeholder(index) + rest;
    var end := 1 + |digits|;
    assert s[1..end] == digits && s[end] == '$' && s[end + 1] == 's' && s[end + 2..] == rest;
    assert IsDigit(digits[0]) && s[1] == digits[0];
    DigitsEndAt(s, 1, end);
  }

  /** The arguments picked by the indices, in the order of the translation. */
  function Picked(arguments: seq<string>, indices: seq<nat>): (values: seq<string>)
    requires forall k :: 0 <= k < |indices| ==> 1 <= indices[k] <= |arguments|
    ensures |values| == |indices|
  {
    seq(|indices|, k requires 0 <= k < |indices| => arguments[indices[k] - 1])
  }

  lemma FormatLast(text: string, arguments: seq<string>)
    ensures Format(EscapePercent(text), arguments) == Some(text)
  {
    FormatText(text, "", arguments);
    assert EscapePercent(text) + "" == EscapePercent(text) && text + "" == text;
  }

  /** A piece of text, a placeholder and the rest. */
  lemma FormatPart(text: string, index: nat, rest: string, arguments: seq<string>, filled: string)
    requires 1 <= index <= |arguments| && Format(rest, arguments) == Some(filled)
    ensures Format(EscapePercent(text) + Placeholder(index) + rest, arguments)
         == Some(text + arguments[index - 1] + filled)
  {
    FormatPlaceholder(index, rest, arguments);
    FormatText(text, Placeholder(index) + rest, arguments);
    AppendAssociates(EscapePercent(text), Placeholder(index), rest);
    AppendAssociates(text, arguments[index - 1], filled);
  }

  lemma PickedTail(arguments: seq<string>, indices: seq<nat>)
    requires indices != [] && forall k :: 0 <= k < |indices| ==> 1 <= indices[k] <= |arguments|
    ensures Picked(arguments, indices)[0] == arguments[indices[0] - 1]
    ensures Picked(arguments, indices)[1..] == Picked(arguments, indices[1..])
  {
  }

  lemma FormatStringHead(s: string, cursor: nat, spans: seq<Span>, indices: seq<nat>, values: seq<string>)
    requires InOrder(s, cursor, spans) && spans != [] && |indices| == |values| == |spans|
    ensures FormatString(s, cursor, spans, indices)
         == EscapePercent(s[cursor..spans[0].start]) + Placeholder(indices[0])
            + FormatString(s, spans[0].end, spans[1..], indices[1..])
    ensures Fill(s, cursor, spans, values)
         == s[cursor..spans[0].start] + values[0] + Fill(s, spans[0].end, spans[1..], values[1..])
  {
  }

  lemma {:induction false} FormatStringMeans(s: string, cursor: nat, spans: seq<Span>, indices: seq<nat>,
                                             arguments: seq<string>)
    requires InOrder(s, cursor, spans) && |indices| == |spans|
    requires forall k :: 0 <= k < |indices| ==> 1 <= indices[k] <= |arguments|
    ensures Format(FormatString(s, cursor, spans, indices), arguments)
         == Some(Fill(s, cursor, spans, Picked(arguments, indices)))
    decreases |spans|
  {
    if spans == [] {
      FormatLast(s[cursor..], arguments);
    } else {
      FormatStringMeans(s, spans[0].end, spans[1..], indices[1..], arguments);
      var values := Picked(arguments, indices);
      PickedTail(arguments, indices);
      FormatStringHead(s, cursor, spans, indices, values);
      FormatPart(s[cursor..spans[0].start], indices[0], FormatString(s, spans[0].end, spans[1..], indices[1..]), arguments,
                 Fill(s, spans[0].end, spans[1..], values[1..]));
    }
  }

  // ----- the compiler is correct

  /** What the app shows: the decoded resource, formatted when the source interpolates anything. */
  function Shown(resource: string, arguments: seq<string>): Option<string> {
    if arguments == [] then Some(ResourceEscapes.DecodeResource(resource))
    else Format(ResourceEscapes.DecodeResource(resource), arguments)
  }

  /** Whenever rendering succeeds, the app shows the translation with each of its interpolations replaced by
      the argument of the source interpolation it was matched with. */
  lemma RenderPreservesMeaning(source: string, translated: string, arguments: seq<string>)
    ensures Render(source, translated).Ok? && |arguments| == |TokensOf(source)| ==>
              (var indices := ArgumentIndices(TokensOf(source), TokensOf(translated));
               && (forall k :: 0 <= k < |indices| ==> 1 <= indices[k] <= |arguments|)
               && InOrder(translated, 0, Read(translated).value)
               && Shown(Render(source, translated).value, arguments)
                  == Some(Fill(translated, 0, Read(translated).value, Picked(arguments, indices))))
  {
    if Render(source, translated).Ok? && |arguments| == |TokensOf(source)| {
      var src, tr := TokensOf(source), TokensOf(translated);
      ReadsInOrder(translated, 0, 0);
      var spans := Read(translated).value;
      ArgumentsAreBijective(src, tr);
      var indices := ArgumentIndices(src, tr);
      if src == [] {
        assert |multiset(tr)| == |tr|;
        assert tr == [];
        ResourceEscapes.ResourceRoundTrip(translated);
        assert Fill(translated, 0, spans, Picked(arguments, indices)) == translated[0..];
      } else {
        ResourceEscapes.ResourceRoundTrip(FormatString(translated, 0, spans, indices));
        FormatStringMeans(translated, 0, spans, indices, arguments);
      }
    }
  }

  // ----- exactly when rendering succeeds

  /** The interpolations of a balanced text that are spelled `token`, by their number. */
  function Uses(s: string, token: string): set<nat> {
    set k: nat | Read(s).Some? && k < |Read(s).value| && IsSpelled(s, Read(s).value[k], token)
  }

  predicate IsSpelled(s: string, span: Span, token: string) {
    span.start <= span.end <= |s| && s[span.start..span.end] == token
  }

  function Places(tokens: seq<string>, token: string): set<nat> { set k: nat | k < |tokens| && tokens[k] == token }

  lemma PlacesSnoc(init: seq<string>, last: string, token: string)
    ensures |init| !in Places(init, token)
    ensures Places(init + [last], token) == if last == token then Places(init, token) + {|init|} else Places(init, token)
  {
  }

  lemma {:induction false} PositionsNumber(tokens: seq<string>, token: string)
    ensures Count(tokens, token) == |Places(tokens, token)|
  {
    if tokens == [] {
      assert Places(tokens, token) == {};
    } else {
      var init, last := tokens[..|tokens| - 1], tokens[|tokens| - 1];
      PositionsNumber(init, token);
      PlacesSnoc(init, last, token);
      assert tokens == init + [last];
    }
  }

  lemma UsesNumber(s: string, token: string)
    requires Read(s).Some?
    ensures multiset(TokensOf(s))[token] == |Uses(s, token)|
  {
    ReadsInOrder(s, 0, 0);
    var spans, tokens := Read(s).value, TokensOf(s);
    forall k: nat | k < |spans| ensures IsSpelled(s, spans[k], token) <==> tokens[k] == token {
      TokensAt(s, spans, k);
    }
    assert Uses(s, token) == Places(tokens, token);
    PositionsNumber(tokens, token);
    CountIsMultiplicity(tokens, token);
  }

  /** Both texts use every interpolation equally often. */
  ghost predicate UseAlike(source: string, translated: string) {
    forall token: string :: |Uses(source, token)| == |Uses(translated, token)|
  }

  /** For all texts: rendering succeeds if and only if both are balanced and every interpolation occurs equally often in both,
      in any order; otherwise the error says which of the two failed. */
  lemma RenderSucceedsExactly(source: string, translated: string)
    ensures Render(source, translated).Ok? <==>
              Read(source).Some? && Read(translated).Some? && UseAlike(source, translated)
    ensures Render(source, translated) == Err(Unbalanced) <==> Read(source).None? || Read(translated).None?
  {
    if Read(source).Some? && Read(translated).Some? {
      var a, b := multiset(TokensOf(source)), multiset(TokensOf(translated));
      forall token: string ensures a[token] == |Uses(source, token)| && b[token] == |Uses(translated, token)| {
        UsesNumber(source, token);
        UsesNumber(translated, token);
      }
      if UseAlike(source, translated) {
        forall token: string ensures a[token] == b[token] {
          assert |Uses(source, token)| == |Uses(translated, token)|;
        }
        assert a == b;
      }
    }
  }

  /** In particular for every translation that permutes the interpolations of its source. */
  lemma PermutedInterpolationsRender(source: string, translated: string, order: seq<nat>)
    requires Read(source).Some? && Read(translated).Some? && |order| == |TokensOf(source)| == |TokensOf(translated)|
    requires forall k :: 0 <= k < |order| ==> order[k] < |order| && TokensOf(translated)[k] == TokensOf(source)[order[k]]
    requires forall j, k :: 0 <= j < k < |order| ==> order[j] != order[k]
    ensures Render(source, translated).Ok?
  {
    var src, tr := TokensOf(source), TokensOf(translated);
    forall token: string ensures multiset(tr)[token] <= multiset(src)[token] {
      PickedCounts(src, tr, order, token);
    }
    var rest := multiset(src) - multiset(tr);
    assert multiset(src) == multiset(tr) + rest;
    assert |multiset(src)| == |src| && |multiset(tr)| == |tr| && |rest| == 0;
  }

  /** Tokens picked from different positions occur no more often than in the original. */
  lemma PickedCounts(source: seq<string>, picked: seq<string>, order: seq<nat>, token: string)
    requires |order| == |picked| && forall k :: 0 <= k < |order| ==> order[k] < |source| && picked[k] == source[order[k]]
    requires forall j, k :: 0 <= j < k < |order| ==> order[j] != order[k]
    ensures multiset(picked)[token] <= multiset(source)[token]
  {
    var xs, ys := Places(source, token), Places(picked, token);
    PositionsNumber(source, token);
    PositionsNumber(picked, token);
    CountIsMultiplicity(source, token);
    CountIsMultiplicity(picked, token);
    InjectionCounts(ys, xs, map k | k in ys :: order[k]);
  }

  function Evaluated(tokens: seq<string>, value: string -> string): (values: seq<string>)
    ensures |values| == |tokens|
  {
    seq(|tokens|, k requires 0 <= k < |tokens| => value(tokens[k]))
  }

  lemma PickedAreEvaluated(source: seq<string>, translated: seq<string>, value: string -> string)
    requires SameTokens(source, translated)
    ensures var indices := ArgumentIndices(source, translated);
            && (forall k :: 0 <= k < |indices| ==> 1 <= indices[k] <= |source|)
            && Picked(Evaluated(source, value), indices) == Evaluated(translated, value)
  {
    forall k | 0 <= k < |translated|
      ensures var i := ArgumentIndices(source, translated)[k];
              1 <= i <= |source| && source[i - 1] == translated[k]
    {
      ArgumentPoints(source, translated, k);
    }
  }

  /** In particular, when the value of an interpolation depends only on its text, the app shows the translation
      with its own interpolations evaluated. */
  lemma RenderEvaluatesTranslation(source: string, translated: string, value: string -> string)
    requires Render(source, translated).Ok?
    ensures InOrder(translated, 0, Read(translated).value)
    ensures Shown(Render(source, translated).value, Evaluated(TokensOf(source), value))
         == Some(Fill(translated, 0, Read(translated).value, Evaluated(TokensOf(translated), value)))
  {
    var src, tr := TokensOf(source), TokensOf(translated);
    var arguments := Evaluated(src, value);
    RenderPreservesMeaning(source, translated, arguments);
    PickedAreEvaluated(src, tr, value);
  }

  // ----- the code

  function Get<T>(m: map<string, T>, key: string, absent: T): T { if key in m then m[key] else absent }

  ghost predicate CountsOf(counts: map<string, nat>, tokens: seq<string>) {
    forall token :: Get(counts, token, 0) == Count(tokens, token) && (token in counts ==> counts[token] > 0)
  }

  ghost predicate PositionsOf(indices: map<string, seq<nat>>, tokens: seq<string>) {
    forall token :: Get(indices, token, []) == Positions(tokens, token)
  }

  lemma PositionsSnoc(tokens: seq<string>, k: nat, token: string)
    requires k < |tokens|
    ensures Positions(tokens[..k + 1], token)
         == Positions(tokens[..k], token) + (if tokens[k] == token then [k + 1] else [])
  {
    assert tokens[..k + 1][..k] == tokens[..k];
  }

  lemma BumpKeepsCounts(counts: map<string, nat>, tokens: seq<string>, k: nat)
    requires k < |tokens| && CountsOf(counts, tokens[..k])
    ensures CountsOf(counts[tokens[k] := Get(counts, tokens[k], 0) + 1], tokens[..k + 1])
  {
    var bumped := counts[tokens[k] := Get(counts, tokens[k], 0) + 1];
    forall t ensures Get(bumped, t, 0) == Count(tokens[..k + 1], t) && (t in bumped ==> bumped[t] > 0) {
      PositionsSnoc(tokens, k, t);
      assert Get(counts, t, 0) == Count(tokens[..k], t);
    }
  }

  method TokenCounts(tokens: seq<string>) returns (counts: map<string, nat>)
    ensures CountsOf(counts, tokens)
  {
    counts := map[];
    for k := 0 to |tokens|
      invariant CountsOf(counts, tokens[..k])
    {
      BumpKeepsCounts(counts, tokens, k);
      counts := counts[tokens[k] := Get(counts, tokens[k], 0) + 1];
    }
    assert tokens[..|tokens|] == tokens;
  }

  method SourceIndices(tokens: seq<string>) returns (indices: map<string, seq<nat>>)
    ensures PositionsOf(indices, tokens)
  {
    indices := map[];
    for k := 0 to |tokens|
      invariant PositionsOf(indices, tokens[..k])
    {
      ghost var before := indices;
      indices := indices[tokens[k] := Get(indices, tokens[k], []) + [k + 1]];
      forall t ensures Get(indices, t, []) == Positions(tokens[..k + 1], t) {
        PositionsSnoc(tokens, k, t);
        assert Get(before, t, []) == Positions(tokens[..k], t);
      }
    }
    assert tokens[..|tokens|] == tokens;
  }

  /** Equal token counts are equal multisets of tokens. */
  lemma CountsDecide(c1: map<string, nat>, tokens1: seq<string>, c2: map<string, nat>, tokens2: seq<string>)
    requires CountsOf(c1, tokens1) && CountsOf(c2, tokens2)
    ensures c1 == c2 <==> SameTokens(tokens1, tokens2)
  {
    forall t
      ensures Get(c1, t, 0) == multiset(tokens1)[t] && (t in c1 ==> c1[t] > 0)
      ensures Get(c2, t, 0) == multiset(tokens2)[t] && (t in c2 ==> c2[t] > 0)
    {
      CountIsMultiplicity(tokens1, t);
      CountIsMultiplicity(tokens2, t);
    }
    if SameTokens(tokens1, tokens2) {
      forall t ensures t in c1 <==> t in c2 {
        assert Get(c1, t, 0) == Get(c2, t, 0);
      }
      assert c1.Keys == c2.Keys;
      forall t | t in c1 ensures c1[t] == c2[t] {
        assert Get(c1, t, 0) == Get(c2, t, 0);
      }
    } else if c1 == c2 {
      forall t ensures multiset(tokens1)[t] == multiset(tokens2)[t] {
        assert Get(c1, t, 0) == Get(c2, t, 0);
      }
    }
  }

  /** Where the text before span `k` begins. */
  function CursorAt(spans: seq<Span>, k: nat): nat
    requires k <= |spans|
  {
    if k == 0 then 0 else spans[k - 1].end
  }

  /** What one span adds: the escaped text before it and its placeholder. */
  function Piece(s: string, cursor: nat, span: Span, index: nat): string
    requires cursor <= span.start <= |s|
  {
    EscapePercent(s[cursor..span.start]) + Placeholder(index)
  }

  ghost predicate ArePieces(s: string, spans: seq<Span>, indices: seq<nat>, pieces: seq<string>) {
    && |pieces| == |indices| == |spans|
    && forall k :: 0 <= k < |spans| ==>
         && CursorAt(spans, k) <= spans[k].start < spans[k].end <= |s|
         && pieces[k] == Piece(s, CursorAt(spans, k), spans[k], indices[k])
  }

  lemma {:induction false} InOrderFrom(s: string, spans: seq<Span>, k: nat)
    requires InOrder(s, 0, spans) && k <= |spans|
    ensures InOrder(s, CursorAt(spans, k), spans[k..])
  {
    if k == 0 {
      assert spans[0..] == spans;
    } else {
      InOrderFrom(s, spans, k - 1);
      assert spans[k - 1..][1..] == spans[k..];
    }
  }

  lemma {:induction false} TokensFrom(s: string, spans: seq<Span>, k: nat)
    requires InOrder(s, 0, spans) && k <= |spans|
    ensures InOrder(s, CursorAt(spans, k), spans[k..])
    ensures Tokens(s, CursorAt(spans, k), spans[k..]) == Tokens(s, 0, spans)[k..]
  {
    InOrderFrom(s, spans, k);
    if k == 0 {
      assert spans[0..] == spans;
    } else {
      TokensFrom(s, spans, k - 1);
      assert spans[k - 1..][1..] == spans[k..];
      assert Tokens(s, 0, spans)[k - 1..][1..] == Tokens(s, 0, spans)[k..];
    }
  }

  lemma TokensAt(s: string, spans: seq<Span>, k: nat)
    requires InOrder(s, 0, spans) && k < |spans|
    ensures CursorAt(spans, k) <= spans[k].start < spans[k].end <= |s| && Tokens(s, 0, spans)[k] == Token(s, spans[k])
  {
    TokensFrom(s, spans, k);
    assert Tokens(s, 0, spans)[k] == Tokens(s, 0, spans)[k..][0];
  }

  lemma FormatStringStep(s: string, spans: seq<Span>, indices: seq<nat>, k: nat)
    requires InOrder(s, 0, spans) && |indices| == |spans| && k < |spans|
    ensures InOrder(s, CursorAt(spans, k), spans[k..]) && InOrder(s, CursorAt(spans, k + 1), spans[k + 1..])
    ensures CursorAt(spans, k) <= spans[k].start <= |s|
    ensures FormatString(s, CursorAt(spans, k), spans[k..], indices[k..])
         == Piece(s, CursorAt(spans, k), spans[k], indices[k])
            + FormatString(s, CursorAt(spans, k + 1), spans[k + 1..], indices[k + 1..])
  {
    InOrderFrom(s, spans, k);
    assert spans[k..][1..] == spans[k + 1..] && indices[k..][1..] == indices[k + 1..];
  }

  lemma FormatStringEnd(s: string, spans: seq<Span>, indices: seq<nat>)
    requires InOrder(s, 0, spans) && |indices| == |spans|
    ensures InOrder(s, CursorAt(spans, |spans|), spans[|spans|..])
    ensures FormatString(s, CursorAt(spans, |spans|), spans[|spans|..], indices[|spans|..])
         == EscapePercent(s[CursorAt(spans, |spans|)..])
  {
    InOrderFrom(s, spans, |spans|);
    assert spans[|spans|..] == [];
  }

  lemma FlattenFrom(pieces: seq<string>, k: nat, last: string)
    requires k < |pieces|
    ensures Flatten(pieces[k..]) + last == pieces[k] + (Flatten(pieces[k + 1..]) + last)
  {
    assert pieces[k..][1..] == pieces[k + 1..];
    AppendAssociates(pieces[k], Flatten(pieces[k + 1..]), last);
  }

  lemma {:induction false} PiecesFrom(s: string, spans: seq<Span>, indices: seq<nat>, pieces: seq<string>, k: nat)
    requires InOrder(s, 0, spans) && ArePieces(s, spans, indices, pieces) && k <= |spans|
    ensures InOrder(s, CursorAt(spans, k), spans[k..]) && CursorAt(spans, |spans|) <= |s|
    ensures Flatten(pieces[k..]) + EscapePercent(s[CursorAt(spans, |spans|)..])
         == FormatString(s, CursorAt(spans, k), spans[k..], indices[k..])
    decreases |spans| - k
  {
    if k < |spans| {
      PiecesFrom(s, spans, indices, pieces, k + 1);
      FormatStringStep(s, spans, indices, k);
      FlattenFrom(pieces, k, EscapePercent(s[CursorAt(spans, |spans|)..]));
    } else {
      FormatStringEnd(s, spans, indices);
    }
  }

  /** The format string is the pieces of its spans and the escaped rest. */
  lemma FormatPieces(s: string, spans: seq<Span>, indices: seq<nat>) returns (pieces: seq<string>)
    requires InOrder(s, 0, spans) && |indices| == |spans|
    ensures ArePieces(s, spans, indices, pieces) && CursorAt(spans, |spans|) <= |s|
    ensures Flatten(pieces) + EscapePercent(s[CursorAt(spans, |spans|)..]) == FormatString(s, 0, spans, indices)
  {
    forall k | 0 <= k < |spans| ensures CursorAt(spans, k) <= spans[k].start < spans[k].end <= |s| {
      TokensAt(s, spans, k);
    }
    pieces := seq(|spans|, k requires 0 <= k < |spans| => Piece(s, CursorAt(spans, k), spans[k], indices[k]));
    PiecesFrom(s, spans, indices, pieces, 0);
    assert pieces[0..] == pieces && spans[0..] == spans && indices[0..] == indices;
  }

  /** What the loop appends for a token: the placeholder of its next source position, or the token itself. */
  function NextText(token: string, sourceIndices: map<string, seq<nat>>, occurrences: map<string, nat>): string {
    var positions, occurrence := Get(sourceIndices, token, []), Get(occurrences, token, 0);
    if occurrence < |positions| then Placeholder(positions[occurrence]) else token
  }

  /** The placeholder of the next span: its occurrence looked up among the source positions of its token. */
  lemma NextPlaceholder(source: seq<string>, tokens: seq<string>, k: nat,
                        sourceIndices: map<string, seq<nat>>, occurrences: map<string, nat>)
    requires SameTokens(source, tokens) && k < |tokens|
    requires PositionsOf(sourceIndices, source) && CountsOf(occurrences, tokens[..k])
    ensures NextText(tokens[k], sourceIndices, occurrences) == Placeholder(ArgumentIndices(source, tokens)[k])
  {
    ArgumentExists(source, tokens, k);
  }

  /** The text appended for a span is its piece. */
  lemma NextPiece(s: string, spans: seq<Span>, source: seq<string>, tokens: seq<string>, pieces: seq<string>, k: nat,
                  sourceIndices: map<string, seq<nat>>, occurrences: map<string, nat>)
    requires SameTokens(source, tokens) && PositionsOf(sourceIndices, source)
    requires ArePieces(s, spans, ArgumentIndices(source, tokens), pieces) && k < |spans|
    requires CountsOf(occurrences, tokens[..k])
    ensures CursorAt(spans, k) <= spans[k].start < spans[k].end <= |s|
    ensures EscapePercent(s[CursorAt(spans, k)..spans[k].start]) + NextText(tokens[k], sourceIndices, occurrences)
         == pieces[k]
  {
    NextPlaceholder(source, tokens, k, sourceIndices, occurrences);
  }

  lemma FlattenPrefix(pieces: seq<string>, k: nat)
    requires k < |pieces|
    ensures Flatten(pieces[..k + 1]) == Flatten(pieces[..k]) + pieces[k]
  {
    FlattenSnoc(pieces[..k], pieces[k]);
    assert pieces[..k + 1] == pieces[..k] + [pieces[k]];
  }

  /** The loop over the spans, each token looked up in the source positions. */
  method RenderSpans(translated: string, spans: seq<Span>, ghost source: seq<string>, sourceIndices: map<string, seq<nat>>,
                     ghost tokens: seq<string>, ghost pieces: seq<string>)
    returns (rendered: string, cursor: nat)
    requires SameTokens(source, tokens) && PositionsOf(sourceIndices, source)
    requires ArePieces(translated, spans, ArgumentIndices(source, tokens), pieces)
    requires forall k :: 0 <= k < |spans| ==> tokens[k] == Token(translated, spans[k])
    ensures rendered == Flatten(pieces) && cursor == CursorAt(spans, |spans|)
  {
    var occurrences: map<string, nat> := map[];
    rendered, cursor := "", 0;
    for k := 0 to |spans|
      invariant cursor == CursorAt(spans, k)
      invariant CountsOf(occurrences, tokens[..k]) == true  // kept whole
      invariant rendered == Flatten(pieces[..k])
    {
      NextPiece(translated, spans, source, tokens, pieces, k, sourceIndices, occurrences);
      FlattenPrefix(pieces, k);
      BumpKeepsCounts(occurrences, tokens, k);
      var token := Token(translated, spans[k]);
      rendered := rendered
      + (EscapePercent(translated[cursor..spans[k].start]) + NextText(token, sourceIndices, occurrences));
      occurrences := occurrences[token := Get(occurrences, token, 0) + 1];
      cursor := spans[k].end;
    }
    assert pieces[..|spans|] == pieces;
  }

  /** The positional format string of a translation, built span by span. */
  method BuildFormatString(translated: string, spans: seq<Span>, source: seq<string>) returns (rendered: string)
    requires InOrder(translated, 0, spans) && SameTokens(source, Tokens(translated, 0, spans))
    ensures rendered == FormatString(translated, 0, spans, ArgumentIndices(source, Tokens(translated, 0, spans)))
  {
    ghost var tokens := Tokens(translated, 0, spans);
    ghost var indices := ArgumentIndices(source, tokens);
    ghost var pieces := FormatPieces(translated, spans, indices);
    forall k | 0 <= k < |spans|
      ensures spans[k].start <= spans[k].end <= |translated| && tokens[k] == Token(translated, spans[k])
    {
      TokensAt(translated, spans, k);
    }
    var sourceIndices := SourceIndices(source);
    var cursor;
    rendered, cursor := RenderSpans(translated, spans, source, sourceIndices, tokens, pieces);
    rendered := rendered + EscapePercent(translated[cursor..]);
  }

  method RenderAndroidResourceValue(source: string, translated: string) returns (result: Result<string, RenderError>)
    ensures result == Render(source, translated)
  {
    var sourceSpans := ReadKotlinInterpolations(source);
    var translatedSpans := ReadKotlinInterpolations(translated);
    if sourceSpans.None? || translatedSpans.None? {
      return Err(Unbalanced);
    }
    ReadsInOrder(source, 0, 0);
    ReadsInOrder(translated, 0, 0);
    var sourceTokens := Tokens(source, 0, sourceSpans.value);
    var translatedTokens := Tokens(translated, 0, translatedSpans.value);
    var sourceCounts := TokenCounts(sourceTokens);
    var translatedCounts := TokenCounts(translatedTokens);
    CountsDecide(sourceCounts, sourceTokens, translatedCounts, translatedTokens);
    if sourceCounts != translatedCounts {
      return Err(ChangedPlaceholders);
    }
    var rendered := translated;
    if |sourceTokens| > 0 {
      rendered := BuildFormatString(translated, translatedSpans.value, sourceTokens);
    }
    return Ok(ResourceEscapes.EscapeResource(rendered));
  }
}
