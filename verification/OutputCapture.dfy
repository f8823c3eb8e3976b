/**
  The bounded capture of a child's output: each chunk is appended and only the
  last `maxChars` characters are kept, together with a count of the rest.
 */
module OutputCapture {
  import opened Options
  import opened Text

  const DEFAULT_LIMIT: nat := 1024 * 1024

  datatype Capture = Capture(text: string, truncatedChars: nat)

  const EMPTY := Capture("", 0)

  /** `options.maxOutputChars`, floored, or the default when absent or not positive. */
  function OutputLimit(maxOutputChars: Option<real>): (limit: nat)
    ensures limit >= 1
    ensures maxOutputChars.Some? && maxOutputChars.value >= 1.0 ==>
              limit as real <= maxOutputChars.value < limit as real + 1.0
    ensures maxOutputChars.Some? && 0.0 < maxOutputChars.value < 1.0 ==> limit == 1
    ensures maxOutputChars.None? || maxOutputChars.value <= 0.0 ==> limit == DEFAULT_LIMIT
  {
    if maxOutputChars.None? || maxOutputChars.value <= 0.0 then DEFAULT_LIMIT
    else if maxOutputChars.value.Floor < 1 then 1
    else maxOutputChars.value.Floor
  }

  /** JavaScript's `s.slice(-n)`; `slice(-0)` is the whole string. */
  function SliceFromEnd(s: string, n: nat): string {
    if n == 0 || n >= |s| then s else s[|s| - n..]
  }

  function Append(capture: Capture, chunk: string, maxChars: nat): Capture {
    var next := capture.text + chunk;
    if |next| <= maxChars then Capture(next, capture.truncatedChars)
    else Capture(SliceFromEnd(next, maxChars), capture.truncatedChars + |next| - maxChars)
  }

  function AppendAll(chunks: seq<string>, maxChars: nat): Capture {
    if chunks == [] then EMPTY
    else Append(AppendAll(chunks[..|chunks| - 1], maxChars), chunks[|chunks| - 1], maxChars)
  }

  function Format(capture: Capture): string {
    if capture.truncatedChars == 0 then capture.text
    else "[output truncated " + Decimal(capture.truncatedChars) + " chars; showing tail]\n" + capture.text
  }

  /** The capture that keeps the longest tail of `all` within the limit and counts what it drops. */
  ghost predicate KeepsLongestTail(capture: Capture, all: string, maxChars: nat) {
    && |capture.text| <= |all|
    && capture.text == all[|all| - |capture.text|..]
    && capture.truncatedChars == |all| - |capture.text|
    && |capture.text| == if |all| <= maxChars then |all| else maxChars
  }

  lemma WholeTail(all: string, cut: nat, maxChars: nat)
    requires cut <= |all| && |all| - cut <= maxChars && (cut == 0 || |all| - cut == maxChars)
    ensures KeepsLongestTail(Capture(all[cut..], cut), all, maxChars)
  {
  }

  /** One chunk: a longest tail of what came before becomes a longest tail of what came so far. */
  lemma AppendKeepsLongestTail(capture: Capture, all: string, chunk: string, maxChars: nat)
    requires maxChars >= 1 && KeepsLongestTail(capture, all, maxChars)
    ensures KeepsLongestTail(Append(capture, chunk, maxChars), all + chunk, maxChars)
  {
    var next, whole, cut := capture.text + chunk, all + chunk, |all| - |capture.text|;
    DropWithin(all, chunk, cut);
    assert next == whole[cut..];
    if |next| > maxChars {
    } else {
      assert cut == 0 || |whole| - cut == maxChars;
      WholeTail(whole, cut, maxChars);
    }
  }

  lemma {:induction false} CaptureKeepsLongestTail(chunks: seq<string>, maxChars: nat)
    requires maxChars >= 1
    ensures KeepsLongestTail(AppendAll(chunks, maxChars), Flatten(chunks), maxChars)
  {
    if chunks != [] {
      var init, last := chunks[..|chunks| - 1], chunks[|chunks| - 1];
      CaptureKeepsLongestTail(init, maxChars);
      assert chunks == init + [last];
      FlattenSnoc(init, last);
      AppendKeepsLongestTail(AppendAll(init, maxChars), Flatten(init), last, maxChars);
    }
  }

  /** A limit of zero breaks the capture: `slice(-0)` keeps the text that is counted as dropped. */
  lemma ZeroLimitOvercounts()
    ensures !KeepsLongestTail(AppendAll(["x"], 0), Flatten(["x"]), 0)
  {
    assert ["x"][..0] == [];
    assert AppendAll(["x"], 0) == Append(EMPTY, "x", 0);
  }

  /** The capture law holds on every chunk sequence exactly for limits of at least one. */
  lemma CaptureLawNeedsPositiveLimit(maxChars: nat)
    ensures maxChars >= 1 <==>
            forall chunks: seq<string> :: KeepsLongestTail(AppendAll(chunks, maxChars), Flatten(chunks), maxChars)
  {
    if maxChars >= 1 {
      forall chunks: seq<string> ensures KeepsLongestTail(AppendAll(chunks, maxChars), Flatten(chunks), maxChars) {
        CaptureKeepsLongestTail(chunks, maxChars);
      }
    } else {
      ZeroLimitOvercounts();
    }
  }
}
