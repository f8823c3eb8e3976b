/** Sequences of characters: concatenation, decimal numerals, replacement, white space. */
module Text {

  function Flatten<T>(parts: seq<seq<T>>): seq<T> {
    if parts == [] then [] else parts[0] + Flatten(parts[1..])
  }

  lemma {:induction false} FlattenAppend<T>(a: seq<seq<T>>, b: seq<seq<T>>)
    ensures Flatten(a + b) == Flatten(a) + Flatten(b)
  {
    if a == [] {
      assert a + b == b;
    } else {
      assert (a + b)[1..] == a[1..] + b;
      FlattenAppend(a[1..], b);
    }
  }

  lemma FlattenSnoc<T>(a: seq<seq<T>>, last: seq<T>)
    ensures Flatten(a + [last]) == Flatten(a) + last
  {
    FlattenAppend(a, [last]);
    assert Flatten([last]) == last + Flatten([]);
  }

  lemma AppendAssociates<T>(a: seq<T>, b: seq<T>, c: seq<T>)
    ensures a + b + c == a + (b + c)
  {
  }

  lemma CutPrefix<T>(p: seq<T>, a: seq<T>, b: seq<T>)
    requires p + a == p + b
    ensures a == b
  {
    assert (p + a)[|p|..] == a && (p + b)[|p|..] == b;
  }

  lemma DropWithin<T>(a: seq<T>, b: seq<T>, k: nat)
    requires k <= |a|
    ensures (a + b)[k..] == a[k..] + b
  {
  }

  /** The word occurs in the text at this position. */
  predicate StandsAt(word: string, s: string, i: nat) {
    i + |word| <= |s| && s[i..i + |word|] == word
  }

  lemma StandsAtParts(a: string, b: string, s: string, i: nat)
    requires StandsAt(a + b, s, i)
    ensures StandsAt(a, s, i) && StandsAt(b, s, i + |a|)
  {
    var part := s[i..i + |a + b|];
    assert s[i..i + |a|] == part[..|a|] == a;
    assert s[i + |a|..i + |a| + |b|] == part[|a|..] == b;
  }

  lemma StandsChar(word: string, s: string, i: nat, k: nat)
    requires StandsAt(word, s, i) && k < |word|
    ensures s[i + k] == word[k]
  {
    assert s[i..i + |word|][k] == s[i + k];
  }

  lemma StandsInThree(a: string, b: string, c: string, s: string, i: nat)
    requires StandsAt(a + (b + c), s, i)
    ensures StandsAt(a, s, i) && StandsAt(b, s, i + |a|) && StandsAt(c, s, i + |a| + |b|)
  {
    StandsAtParts(a, b + c, s, i);
    StandsAtParts(b, c, s, i + |a|);
  }

  /** One more element of a prefix. */
  lemma PrefixSnoc<T>(xs: seq<T>, i: nat)
    requires i < |xs|
    ensures xs[..i + 1][..i] == xs[..i] && xs[..i + 1] == xs[..i] + [xs[i]]
    ensures forall x :: x in xs[..i + 1] <==> x in xs[..i] || x == xs[i]
  {
  }

  predicate Lacks(s: string, c: char) { forall i :: 0 <= i < |s| ==> s[i] != c }

  /** Text up to a separator it lacks is told apart from the rest. */
  lemma SplitAtFirst(separator: char, a: string, b: string, c: string, d: string)
    requires Lacks(a, separator) && Lacks(c, separator) && a + [separator] + b == c + [separator] + d
    ensures a == c && b == d
  {
    var s := a + [separator] + b;
    assert s[|a|] == separator && s[|c|] == separator;
    assert forall i :: 0 <= i < |a| ==> s[i] == a[i];
    assert forall i :: 0 <= i < |c| ==> s[i] == c[i];
    assert |a| == |c|;
    assert s[..|a|] == a && s[..|c|] == c && s[|a| + 1..] == b && s[|c| + 1..] == d;
  }

  // ----- decimal numerals

  predicate IsDigit(c: char) { '0' <= c <= '9' }

  predicate AllDigits(s: string) { forall i :: 0 <= i < |s| ==> IsDigit(s[i]) }

  function DigitChar(d: nat): (c: char)
    requires d < 10
    ensures IsDigit(c) && DigitValue(c) == d
  {
    '0' + d as char
  }

  function DigitValue(c: char): (d: nat)
    requires IsDigit(c)
    ensures d < 10
  {
    (c - '0') as nat
  }

  /** The number as JavaScript prints it. */
  function Decimal(n: nat): string {
    if n < 10 then [DigitChar(n)] else Decimal(n / 10) + [DigitChar(n % 10)]
  }

  /** The number a string of digits denotes. */
  function Value(s: string): nat
    requires AllDigits(s)
  {
    if s == "" then 0 else 10 * Value(s[..|s| - 1]) + DigitValue(s[|s| - 1])
  }

  lemma {:induction false} DecimalReadsBack(n: nat)
    ensures |Decimal(n)| > 0 && AllDigits(Decimal(n)) && Value(Decimal(n)) == n
  {
    if n < 10 {
      assert Decimal(n)[..0] == "";
    } else {
      DecimalReadsBack(n / 10);
      var s := Decimal(n);
      assert s[..|s| - 1] == Decimal(n / 10);
    }
  }

  lemma DecimalInjective(m: nat, n: nat)
    requires Decimal(m) == Decimal(n)
    ensures m == n
  {
    DecimalReadsBack(m);
    DecimalReadsBack(n);
  }

  // ----- replacement

  /** `s.replaceAll(c, sub)` for a one-character pattern. */
  function ReplaceAll(s: string, c: char, sub: string): string {
    if s == "" then "" else (if s[0] == c then sub else [s[0]]) + ReplaceAll(s[1..], c, sub)
  }

  lemma {:induction false} ReplaceAllAppend(a: string, b: string, c: char, sub: string)
    ensures ReplaceAll(a + b, c, sub) == ReplaceAll(a, c, sub) + ReplaceAll(b, c, sub)
  {
    if a == "" {
      assert a + b == b;
    } else {
      assert (a + b)[1..] == a[1..] + b;
      ReplaceAllAppend(a[1..], b, c, sub);
    }
  }

  /** A text without the pattern is left alone. */
  lemma {:induction false} ReplaceNothing(s: string, c: char, sub: string)
    requires c !in s
    ensures ReplaceAll(s, c, sub) == s
  {
    if s != "" {
      assert s[0] in s && forall x :: x in s[1..] ==> x in s;
      ReplaceNothing(s[1..], c, sub);
    }
  }

  lemma ReplaceOne(c: char, sub: string)
    ensures ReplaceAll([c], c, sub) == sub
  {
    assert [c][1..] == "";
  }

  // ----- white space

  /** The characters matched by JavaScript's `\s` and removed by `trim`. */
  predicate IsSpace(c: char) {
    c == ' ' || c == '\t' || c == '\n' || c == '\r' || c == '\U{000B}' || c == '\U{000C}' || c == '\U{00A0}' || c == '\U{FEFF}'
    || c == '\U{1680}' || '\U{2000}' <= c <= '\U{200A}' || c == '\U{2028}' || c == '\U{2029}' || c == '\U{202F}'
    || c == '\U{205F}' || c == '\U{3000}'
  }

  predicate IsBlank(s: string) { forall i :: 0 <= i < |s| ==> IsSpace(s[i]) }

  function TrimStart(s: string): string {
    if s != "" && IsSpace(s[0]) then TrimStart(s[1..]) else s
  }

  function TrimEnd(s: string): string {
    if s != "" && IsSpace(s[|s| - 1]) then TrimEnd(s[..|s| - 1]) else s
  }

  function Trim(s: string): string { TrimEnd(TrimStart(s)) }

  lemma {:induction false} TrimStartDrops(blank: string, core: string)
    requires IsBlank(blank) && (core != "" ==> !IsSpace(core[0]))
    ensures TrimStart(blank + core) == core
  {
    if blank == "" {
      assert blank + core == core;
    } else {
      assert (blank + core)[1..] == blank[1..] + core;
      TrimStartDrops(blank[1..], core);
    }
  }

  lemma {:induction false} TrimEndDrops(core: string, blank: string)
    requires IsBlank(blank) && (core != "" ==> !IsSpace(core[|core| - 1]))
    ensures TrimEnd(core + blank) == core
  {
    if blank == "" {
      assert core + blank == core;
    } else {
      assert (core + blank)[..|core + blank| - 1] == core + blank[..|blank| - 1];
      TrimEndDrops(core, blank[..|blank| - 1]);
    }
  }

  /** Trimming removes the white space around a text, and nothing else. */
  lemma TrimDrops(before: string, core: string, after: string)
    requires IsBlank(before) && IsBlank(after) && core != "" && !IsSpace(core[0]) && !IsSpace(core[|core| - 1])
    ensures Trim(before + core + after) == core
  {
    assert before + core + after == before + (core + after) && (core + after)[0] == core[0];
    TrimStartDrops(before, core + after);
    TrimEndDrops(core, after);
  }
}
