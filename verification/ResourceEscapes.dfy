/**
  The escapes of an Android string resource: backslash escapes inside XML character data.
  The encoders are the source's chains of replacements; the decoders read left to
  right in a single pass, as an XML parser and then the resource compiler do.
 */
module ResourceEscapes {
  import opened Text

  // ----- encoders, as the source chains them

  function BackslashChain(s: string): string {
    ReplaceAll(ReplaceAll(ReplaceAll(ReplaceAll(s, '\\', "\\\\"), '\n', "\\n"), '\'', "\\'"), '"', "\\\"")
  }

  function EntityChain(s: string): string {
    ReplaceAll(ReplaceAll(ReplaceAll(s, '&', "&amp;"), '<', "&lt;"), '>', "&gt;")
  }

  function EscapeResource(s: string): string { EntityChain(BackslashChain(s)) }

  // ----- decoders

  /** The predefined entities of section 4.6 of XML 1.0. */
  function DecodeEntities(s: string): string {
    if s == "" then ""
    else if "&amp;" <= s then "&" + DecodeEntities(s[5..])
    else if "&lt;" <= s then "<" + DecodeEntities(s[4..])
    else if "&gt;" <= s then ">" + DecodeEntities(s[4..])
    else if "&quot;" <= s then "\"" + DecodeEntities(s[6..])
    else if "&apos;" <= s then "'" + DecodeEntities(s[6..])
    else [s[0]] + DecodeEntities(s[1..])
  }

  function DecodeBackslashes(s: string): string {
    if s == "" then ""
    else if s[0] == '\\' && |s| > 1 then
      (if s[1] == 'n' then "\n" else [s[1]]) + DecodeBackslashes(s[2..])
    else [s[0]] + DecodeBackslashes(s[1..])
  }

  function DecodeResource(s: string): string { DecodeBackslashes(DecodeEntities(s)) }

  // ----- the chains act character by character

  function BackslashChar(c: char): string {
    if c == '\\' then "\\\\" else if c == '\n' then "\\n" else if c == '\'' then "\\'" else if c == '"' then "\\\"" else [c]
  }

  function EntityChar(c: char): string {
    if c == '&' then "&amp;" else if c == '<' then "&lt;" else if c == '>' then "&gt;" else [c]
  }

  lemma BackslashChainOfChar(c: char)
    ensures BackslashChain([c]) == BackslashChar(c)
  {
    var s1 := ReplaceAll([c], '\\', "\\\\");
    var s2 := ReplaceAll(s1, '\n', "\\n");
    var s3 := ReplaceAll(s2, '\'', "\\'");
    if c == '\\' {
      ReplaceOne(c, "\\\\");
      ReplaceNothing("\\\\", '\n', "\\n");
      ReplaceNothing("\\\\", '\'', "\\'");
      ReplaceNothing("\\\\", '"', "\\\"");
    } else {
      ReplaceNothing([c], '\\', "\\\\");
      if c == '\n' {
        ReplaceOne(c, "\\n");
        ReplaceNothing("\\n", '\'', "\\'");
        ReplaceNothing("\\n", '"', "\\\"");
      } else {
        ReplaceNothing([c], '\n', "\\n");
        if c == '\'' {
          ReplaceOne(c, "\\'");
          ReplaceNothing("\\'", '"', "\\\"");
        } else {
          ReplaceNothing([c], '\'', "\\'");
          if c == '"' { ReplaceOne(c, "\\\""); } else { ReplaceNothing([c], '"', "\\\""); }
        }
      }
    }
  }

  /** Replacing a character that the later replacements leave alone. */
  lemma ReplaceThenNothing(c: char, sub: string, d: char, other: string)
    requires d !in sub
    ensures ReplaceAll(ReplaceAll([c], c, sub), d, other) == sub
  {
    ReplaceOne(c, sub);
    ReplaceNothing(sub, d, other);
  }

  lemma EntityChainOfOther(c: char)
    requires c != '&' && c != '<'
    ensures EntityChain([c]) == EntityChar(c)
  {
    ReplaceNothing([c], '&', "&amp;");
    ReplaceNothing([c], '<', "&lt;");
    if c == '>' { ReplaceOne(c, "&gt;"); } else { ReplaceNothing([c], '>', "&gt;"); }
  }

  lemma EntityChainOfChar(c: char)
    ensures EntityChain([c]) == EntityChar(c)
  {
    if c == '&' {
      ReplaceThenNothing(c, "&amp;", '<', "&lt;");
      ReplaceNothing("&amp;", '>', "&gt;");
    } else if c == '<' {
      ReplaceNothing([c], '&', "&amp;");
      ReplaceThenNothing(c, "&lt;", '>', "&gt;");
    } else {
      EntityChainOfOther(c);
    }
  }

  lemma BackslashChainSplits(a: string, b: string)
    ensures BackslashChain(a + b) == BackslashChain(a) + BackslashChain(b)
  {
    ReplaceAllAppend(a, b, '\\', "\\\\");
    var a1, b1 := ReplaceAll(a, '\\', "\\\\"), ReplaceAll(b, '\\', "\\\\");
    ReplaceAllAppend(a1, b1, '\n', "\\n");
    var a2, b2 := ReplaceAll(a1, '\n', "\\n"), ReplaceAll(b1, '\n', "\\n");
    ReplaceAllAppend(a2, b2, '\'', "\\'");
    ReplaceAllAppend(ReplaceAll(a2, '\'', "\\'"), ReplaceAll(b2, '\'', "\\'"), '"', "\\\"");
  }

  lemma EntityChainSplits(a: string, b: string)
    ensures EntityChain(a + b) == EntityChain(a) + EntityChain(b)
  {
    ReplaceAllAppend(a, b, '&', "&amp;");
    var a1, b1 := ReplaceAll(a, '&', "&amp;"), ReplaceAll(b, '&', "&amp;");
    ReplaceAllAppend(a1, b1, '<', "&lt;");
    ReplaceAllAppend(ReplaceAll(a1, '<', "&lt;"), ReplaceAll(b1, '<', "&lt;"), '>', "&gt;");
  }

  // ----- decoding undoes encoding

  lemma {:induction false} BackslashesDecode(s: string)
    ensures DecodeBackslashes(BackslashChain(s)) == s
  {
    if s != "" {
      assert s == [s[0]] + s[1..];
      BackslashChainSplits([s[0]], s[1..]);
      BackslashChainOfChar(s[0]);
      BackslashesDecode(s[1..]);
    }
  }

  lemma DecodeOneEntity(c: char, rest: string)
    ensures DecodeEntities(EntityChar(c) + rest) == [c] + DecodeEntities(rest)
  {
    var e := EntityChar(c);
    var s := e + rest;
    assert s[|e|..] == rest && s[..|e|] == e;
    if c == '<' {
      assert s[1] == 'l' && "&amp;"[1] == 'a';
    } else if c == '>' {
      assert s[1] == 'g' && "&amp;"[1] == 'a' && "&lt;"[1] == 'l';
    } else if c != '&' {
      assert s[0] == c;
    }
  }

  lemma {:induction false} EntitiesDecode(s: string)
    ensures DecodeEntities(EntityChain(s)) == s
  {
    if s != "" {
      assert s == [s[0]] + s[1..];
      EntityChainSplits([s[0]], s[1..]);
      EntityChainOfChar(s[0]);
      DecodeOneEntity(s[0], EntityChain(s[1..]));
      EntitiesDecode(s[1..]);
    }
  }

  /** Decoding an escaped resource gives the text back, for every text. */
  lemma ResourceRoundTrip(s: string)
    ensures DecodeResource(EscapeResource(s)) == s
  {
    EntitiesDecode(BackslashChain(s));
    BackslashesDecode(s);
  }

  // ----- an escaped text is safe in a resource file

  predicate IsEntityAt(s: string, i: nat) { StandsAt("&amp;", s, i) || StandsAt("&lt;", s, i) || StandsAt("&gt;", s, i) }

  predicate IsSafeAt(s: string, i: nat)
    requires i < |s|
  {
    && s[i] != '<' && s[i] != '>' && s[i] != '\n'
    && (s[i] == '\'' || s[i] == '"' ==> i > 0 && s[i - 1] == '\\')
    && (s[i] == '&' ==> IsEntityAt(s, i))
  }

  /** No bare angle bracket, newline, quote or ampersand. */
  ghost predicate IsSafe(s: string) { forall i: nat :: i < |s| ==> IsSafeAt(s, i) }

  lemma SafeStays(a: string, b: string, i: nat)
    requires i < |a| && IsSafeAt(a, i)
    ensures IsSafeAt(a + b, i)
  {
    if a[i] == '&' {
      EntityStays(a, b, i);
    }
  }

  lemma SafeMoves(a: string, b: string, i: nat)
    requires i < |b| && IsSafeAt(b, i)
    ensures IsSafeAt(a + b, |a| + i)
  {
    assert (a + b)[|a| + i] == b[i];
    if b[i] == '&' {
      EntityMoves(a, b, i);
    } else if b[i] == '\'' || b[i] == '"' {
      assert (a + b)[|a| + i - 1] == b[i - 1];
    }
  }

  lemma SafeAppend(a: string, b: string)
    requires IsSafe(a) && IsSafe(b)
    ensures IsSafe(a + b)
  {
    forall i: nat | i < |a + b| ensures IsSafeAt(a + b, i) {
      if i < |a| {
        SafeStays(a, b, i);
      } else {
        SafeMoves(a, b, i - |a|);
        assert |a| + (i - |a|) == i;
      }
    }
  }

  lemma EntityStays(a: string, b: string, i: nat)
    requires IsEntityAt(a, i)
    ensures IsEntityAt(a + b, i)
  {
    forall word: string | StandsAt(word, a, i) ensures StandsAt(word, a + b, i) {
      assert (a + b)[i..i + |word|] == a[i..i + |word|];
    }
  }

  lemma EntityMoves(a: string, b: string, i: nat)
    requires IsEntityAt(b, i)
    ensures IsEntityAt(a + b, |a| + i)
  {
    forall word: string | StandsAt(word, b, i) ensures StandsAt(word, a + b, |a| + i) {
      assert (a + b)[|a| + i..|a| + i + |word|] == b[i..i + |word|];
    }
  }

  lemma EntityCharIsSafe(c: char)
    requires c != '\n' && c != '\'' && c != '"'
    ensures IsSafe(EntityChain([c]))
  {
    EntityChainOfChar(c);
    if c == '&' {
      assert "&amp;"[0..0 + 5] == "&amp;";
    } else if c == '<' {
      assert "&lt;"[0..0 + 4] == "&lt;";
    } else if c == '>' {
      assert "&gt;"[0..0 + 4] == "&gt;";
    }
  }

  lemma EscapedCharIsSafe(c: char)
    ensures IsSafe(EscapeResource([c]))
  {
    BackslashChainOfChar(c);
    var e := BackslashChar(c);
    if |e| == 2 {
      assert e == ['\\'] + [e[1]];
      EntityChainSplits(['\\'], [e[1]]);
      EntityChainOfChar('\\');
      EntityChainOfChar(e[1]);
    } else {
      EntityCharIsSafe(c);
    }
  }

  /** Every escaped text is safe, for every text. */
  lemma {:induction false} EscapedIsSafe(s: string)
    ensures IsSafe(EscapeResource(s))
  {
    if s != "" {
      var head, tail := [s[0]], s[1..];
      assert s == head + tail;
      BackslashChainSplits(head, tail);
      EntityChainSplits(BackslashChain(head), BackslashChain(tail));
      EscapedCharIsSafe(s[0]);
      EscapedIsSafe(tail);
      SafeAppend(EscapeResource(head), EscapeResource(tail));
    }
  }
}
