/** The `{name}` placeholders of a translation text. */
module Placeholders {

  /** The characters matched by `\w`. */
  predicate IsWordChar(c: char) {
    'a' <= c <= 'z' || 'A' <= c <= 'Z' || '0' <= c <= '9' || c == '_'
  }

  predicate IsWord(s: string) { |s| > 0 && forall i :: 0 <= i < |s| ==> IsWordChar(s[i]) }

  /** The end of the run of word characters that starts at `i`. */
  function WordEnd(text: string, i: nat): (j: nat)
    requires i <= |text|
    ensures i <= j <= |text|
    ensures forall k :: i <= k < j ==> IsWordChar(text[k])
    ensures j < |text| ==> !IsWordChar(text[j])
    decreases |text| - i
  {
    if i < |text| && IsWordChar(text[i]) then WordEnd(text, i + 1) else i
  }

  /** A match of `\{(\w+)\}` starts at `i`. */
  predicate MatchesAt(text: string, i: nat) {
    && i < |text| && text[i] == '{'
    && var j := WordEnd(text, i + 1);
       i + 1 < j < |text| && text[j] == '}'
  }

  /** The names matched from `i` on, scanning left to right past each match. */
  function ScanFrom(text: string, i: nat): set<string>
    requires i <= |text|
    decreases |text| - i
  {
    if i == |text| then {}
    else if MatchesAt(text, i) then
      var j := WordEnd(text, i + 1);
      {text[i + 1..j]} + ScanFrom(text, j + 1)
    else ScanFrom(text, i + 1)
  }

  function Extract(text: string): set<string> { ScanFrom(text, 0) }

  /** `{name}` stands at position `i` of the text. */
  predicate OccursAt(text: string, name: string, i: nat) {
    && i + |name| + 2 <= |text|
    && text[i] == '{' && text[i + 1..i + 1 + |name|] == name && text[i + 1 + |name|] == '}'
  }

  lemma {:induction false} ScanIsSound(text: string, i: nat, name: string)
    requires i <= |text| && name in ScanFrom(text, i)
    ensures IsWord(name) && exists k :: k >= i && OccursAt(text, name, k)
    decreases |text| - i
  {
    if MatchesAt(text, i) {
      var j := WordEnd(text, i + 1);
      if name == text[i + 1..j] {
        assert OccursAt(text, name, i);
      } else {
        ScanIsSound(text, j + 1, name);
      }
    } else {
      ScanIsSound(text, i + 1, name);
    }
  }

  lemma {:induction false} ScanIsComplete(text: string, i: nat, name: string, k: nat)
    requires i <= k && IsWord(name) && OccursAt(text, name, k)
    ensures name in ScanFrom(text, i)
    decreases k - i
  {
    if i < k && MatchesAt(text, i) {
      ScanIsComplete(text, WordEnd(text, i + 1) + 1, name, k);
    } else if i < k {
      ScanIsComplete(text, i + 1, name, k);
    }
  }

  /** The scan finds exactly the words that occur in braces. */
  lemma ExtractIsExact(text: string, name: string)
    ensures name in Extract(text) <==> IsWord(name) && exists k :: k >= 0 && OccursAt(text, name, k)
  {
    if name in Extract(text) {
      ScanIsSound(text, 0, name);
    }
    if IsWord(name) && exists k :: k >= 0 && OccursAt(text, name, k) {
      var k :| k >= 0 && OccursAt(text, name, k);
      ScanIsComplete(text, 0, name, k);
    }
  }
}
