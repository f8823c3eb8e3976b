/**
  Translating a batch against an arbitrary client: two attempts per batch, and a batch whose
  prompt times out is halved and each half translated on its own.
 */
module BatchTranslation {
  import opened Options
  import opened Text
  import opened Batching
  import Placeholders

  const MAX_ATTEMPTS: nat := 2

  datatype JsonField = StringField(text: string) | OtherField

  /** What one prompt comes back with. */
  datatype Reply =
    | Raised(message: string)                      // no reply: the client or the prompt failed
    | Unparsable(message: string)                  // a reply that is not JSON
    | Parsed(fields: map<string, JsonField>)

  /** Any client at all: the reply to each successive prompt, and the wording of a placeholder complaint. */
  datatype Client = Client(
    replies: nat -> Reply,
    mismatchMessage: (map<string, string>, map<string, string>) -> string)

  type Translations = map<string, string>

  datatype Outcome = Outcome(result: Result<Translations, string>, next: nat)

  function LowerChar(c: char): char {
    if 'A' <= c <= 'Z' then c + 32 as char else c
  }

  function Lower(s: string): string {
    seq(|s|, i requires 0 <= i < |s| => LowerChar(s[i]))
  }

  predicate IsPromptTimeout(message: string) {
    exists i :: 0 <= i <= |message| && StandsAt("timed out", Lower(message), i)
  }

  /** `new Map(items.map(...))`: for a repeated key the last item counts. */
  function SourceMap(items: seq<Item>): Translations {
    if items == [] then map[]
    else SourceMap(items[..|items| - 1])[items[|items| - 1].key := items[|items| - 1].text]
  }

  predicate HasText(fields: map<string, JsonField>, key: string) {
    key in fields && fields[key].StringField? && !IsBlank(fields[key].text)
  }

  /** The first item whose translation is missing or blank. */
  function FirstMissing(fields: map<string, JsonField>, items: seq<Item>): Option<string> {
    if items == [] then None
    else if !HasText(fields, items[0].key) then Some(items[0].key)
    else FirstMissing(fields, items[1..])
  }

  predicate SamePlaceholders(source: Translations, translated: Translations) {
    forall key :: key in source ==>
      key in translated && Placeholders.Extract(source[key]) == Placeholders.Extract(translated[key])
  }

  lemma {:induction false} SourceMapKeys(items: seq<Item>)
    ensures SourceMap(items).Keys == set i | 0 <= i < |items| :: items[i].key
  {
    if items != [] {
      SourceMapKeys(items[..|items| - 1]);
    }
  }

  lemma {:induction false} NoneMissing(fields: map<string, JsonField>, items: seq<Item>)
    ensures FirstMissing(fields, items).None? <==> forall i :: 0 <= i < |items| ==> HasText(fields, items[i].key)
  {
    if items != [] {
      NoneMissing(fields, items[1..]);
      assert forall i :: 0 < i < |items| ==> items[i] == items[1..][i - 1];
    }
  }

  function TranslatedMap(fields: map<string, JsonField>, keys: set<string>): Translations
    requires forall key :: key in keys ==> HasText(fields, key)
  {
    map key | key in keys :: (assert HasText(fields, key); fields[key].text)
  }

  function ParseReply(client: Client, fields: map<string, JsonField>, items: seq<Item>): Result<Translations, string> {
    var missing := FirstMissing(fields, items);
    if missing.Some? then Err("missing translation for " + missing.value)
    else
      NoneMissing(fields, items);
      SourceMapKeys(items);
      var source := SourceMap(items);
      var translated := TranslatedMap(fields, source.Keys);
      if SamePlaceholders(source, translated) then Ok(translated)
      else Err(client.mismatchMessage(source, translated))
  }

  /** One prompt and the validation of its reply. */
  function Attempt(client: Client, at: nat, items: seq<Item>): Result<Translations, string> {
    match client.replies(at)
    case Raised(message) => Err(message)
    case Unparsable(message) => Err(message)
    case Parsed(fields) => ParseReply(client, fields, items)
  }

  /** The outcome from attempt number `attempt` on, when prompt number `at` comes next. */
  function Translate(client: Client, at: nat, items: seq<Item>, attempt: nat, lastError: string): Outcome
    requires attempt <= MAX_ATTEMPTS
    decreases |items|, MAX_ATTEMPTS - attempt
  {
    if attempt == MAX_ATTEMPTS then Outcome(Err(lastError), at)
    else
      var result := Attempt(client, at, items);
      if result.Ok? then Outcome(result, at + 1)
      else if IsPromptTimeout(result.error) && |items| > 1 then
        var midpoint := (|items| + 1) / 2;
        var left := Translate(client, at + 1, items[..midpoint], 0, "");
        if left.result.Err? then left
        else
          var right := Translate(client, left.next, items[midpoint..], 0, "");
          if right.result.Err? then right
          else Outcome(Ok(left.result.value + right.result.value), right.next)
      else if IsPromptTimeout(result.error) then Outcome(result, at + 1)
      else Translate(client, at + 1, items, attempt + 1, result.error)
  }

  // ----- the code

  lemma FirstMissingFrom(fields: map<string, JsonField>, items: seq<Item>, i: nat)
    requires i < |items|
    ensures FirstMissing(fields, items[i..])
         == if HasText(fields, items[i].key) then FirstMissing(fields, items[i + 1..]) else Some(items[i].key)
  {
    assert items[i..][1..] == items[i + 1..];
  }

  lemma SourceMapPrefix(items: seq<Item>, i: nat)
    requires i < |items|
    ensures SourceMap(items[..i + 1]) == SourceMap(items[..i])[items[i].key := items[i].text]
  {
    assert items[..i + 1][..i] == items[..i];
  }

  ghost predicate HoldsTexts(translated: Translations, fields: map<string, JsonField>) {
    forall key :: key in translated ==> HasText(fields, key) && translated[key] == fields[key].text
  }

  lemma HeldTexts(translated: Translations, fields: map<string, JsonField>, items: seq<Item>)
    requires HoldsTexts(translated, fields) && translated.Keys == SourceMap(items).Keys
    ensures FirstMissing(fields, items).None? && translated == TranslatedMap(fields, SourceMap(items).Keys)
  {
    NoneMissing(fields, items);
    SourceMapKeys(items);
  }

  method ParseTranslationBatchReply(client: Client, fields: map<string, JsonField>, items: seq<Item>)
    returns (result: Result<Translations, string>)
    ensures result == ParseReply(client, fields, items)
  {
    var translated: Translations := map[];
    for i := 0 to |items|
      invariant FirstMissing(fields, items[i..]) == FirstMissing(fields, items)
      invariant translated.Keys == SourceMap(items[..i]).Keys
      invariant HoldsTexts(translated, fields)
    {
      var item := items[i];
      FirstMissingFrom(fields, items, i);
      if item.key !in fields || !fields[item.key].StringField? || IsBlank(fields[item.key].text) {
        return Err("missing translation for " + item.key);
      }
      SourceMapPrefix(items, i);
      translated := translated[item.key := fields[item.key].text];
    }
    assert items[..|items|] == items;
    HeldTexts(translated, fields, items);
    var source := SourceMap(items);
    if SamePlaceholders(source, translated) {
      return Ok(translated);
    }
    return Err(client.mismatchMessage(source, translated));
  }

  method TranslateBatch(client: Client, at: nat, items: seq<Item>)
    returns (result: Result<Translations, string>, next: nat)
    ensures Outcome(result, next) == Translate(client, at, items, 0, "")
    decreases |items|
  {
    var lastError := "";
    next := at;
    for attempt := 0 to MAX_ATTEMPTS
      invariant Translate(client, at, items, 0, "") == Translate(client, next, items, attempt, lastError)
    {
      result := Err("");
      match client.replies(next) {
        case Raised(message) => result := Err(message);
        case Unparsable(message) => result := Err(message);
        case Parsed(fields) => result := ParseTranslationBatchReply(client, fields, items);
      }
      next := next + 1;
      if result.Ok? {
        return;
      }
      lastError := result.error;
      if IsPromptTimeout(lastError) && |items| > 1 {
        var midpoint := (|items| + 1) / 2;
        var left, afterLeft := TranslateBatch(client, next, items[..midpoint]);
        if left.Err? {
          return left, afterLeft;
        }
        var right, afterRight := TranslateBatch(client, afterLeft, items[midpoint..]);
        if right.Err? {
          return right, afterRight;
        }
        return Ok(left.value + right.value), afterRight;
      }
      if IsPromptTimeout(lastError) {
        return;
      }
    }
    result := Err(lastError);
  }

  // ----- how many prompts, and what a success means

  function PromptBound(n: nat): nat { if n == 0 then MAX_ATTEMPTS else 4 * n - 2 }

  /** After a timeout the outcome is that of a half. */
  lemma TimeoutSplits(client: Client, at: nat, items: seq<Item>, attempt: nat, lastError: string, left: Outcome, right: Outcome)
    requires attempt < MAX_ATTEMPTS && |items| > 1
    requires Attempt(client, at, items).Err? && IsPromptTimeout(Attempt(client, at, items).error)
    requires left == Translate(client, at + 1, items[..(|items| + 1) / 2], 0, "")
    requires right == Translate(client, left.next, items[(|items| + 1) / 2..], 0, "")
    ensures var next := Translate(client, at, items, attempt, lastError).next;
            next == left.next || next == right.next
  {
  }

  lemma {:induction false} PromptsFrom(client: Client, at: nat, items: seq<Item>, attempt: nat, lastError: string)
    requires attempt <= MAX_ATTEMPTS
    ensures var next := Translate(client, at, items, attempt, lastError).next;
            at <= next <= at + (MAX_ATTEMPTS - attempt) + (if |items| > 1 then 4 * |items| - 4 else 0)
    decreases |items|, MAX_ATTEMPTS - attempt
  {
    if attempt < MAX_ATTEMPTS {
      var result := Attempt(client, at, items);
      if result.Err? && IsPromptTimeout(result.error) && |items| > 1 {
        var midpoint := (|items| + 1) / 2;
        PromptsFrom(client, at + 1, items[..midpoint], 0, "");
        var left := Translate(client, at + 1, items[..midpoint], 0, "");
        PromptsFrom(client, left.next, items[midpoint..], 0, "");
        var right := Translate(client, left.next, items[midpoint..], 0, "");
        TimeoutSplits(client, at, items, attempt, lastError, left, right);
      } else if result.Err? && !IsPromptTimeout(result.error) {
        PromptsFrom(client, at + 1, items, attempt + 1, result.error);
      }
    }
  }

  /** Whatever the client does, a batch of n items costs at most 4n - 2 prompts. */
  lemma PromptsAreBounded(client: Client, at: nat, items: seq<Item>)
    ensures at <= Translate(client, at, items, 0, "").next <= at + PromptBound(|items|)
  {
    PromptsFrom(client, at, items, 0, "");
  }

  lemma {:induction false} SourceMapAppend(a: seq<Item>, b: seq<Item>)
    ensures SourceMap(a + b) == SourceMap(a) + SourceMap(b)
  {
    if b == [] {
      assert a + b == a;
    } else {
      assert (a + b)[..|a + b| - 1] == a + b[..|b| - 1];
      SourceMapAppend(a, b[..|b| - 1]);
    }
  }

  /** A faithful translation of the items: every key, a non-blank text, the same placeholders. */
  ghost predicate Faithful(translated: Translations, items: seq<Item>) {
    && translated.Keys == SourceMap(items).Keys
    && SamePlaceholders(SourceMap(items), translated)
    && forall key :: key in translated ==> !IsBlank(translated[key])
  }

  lemma FaithfulAppend(left: Translations, a: seq<Item>, right: Translations, b: seq<Item>)
    requires Faithful(left, a) && Faithful(right, b)
    ensures Faithful(left + right, a + b)
  {
    SourceMapAppend(a, b);
  }

  lemma AttemptIsFaithful(client: Client, at: nat, items: seq<Item>)
    requires Attempt(client, at, items).Ok?
    ensures Faithful(Attempt(client, at, items).value, items)
  {
    var fields := client.replies(at).fields;
    NoneMissing(fields, items);
    SourceMapKeys(items);
  }

  /** If a batch is translated at all, it is translated faithfully, however often it was split. */
  lemma {:induction false} SuccessIsFaithful(client: Client, at: nat, items: seq<Item>, attempt: nat, lastError: string)
    requires attempt <= MAX_ATTEMPTS
    requires Translate(client, at, items, attempt, lastError).result.Ok?
    ensures Faithful(Translate(client, at, items, attempt, lastError).result.value, items)
    decreases |items|, MAX_ATTEMPTS - attempt
  {
    var result := Attempt(client, at, items);
    if result.Ok? {
      AttemptIsFaithful(client, at, items);
    } else if IsPromptTimeout(result.error) {
      var midpoint := (|items| + 1) / 2;
      var left := Translate(client, at + 1, items[..midpoint], 0, "");
      var right := Translate(client, left.next, items[midpoint..], 0, "");
      SuccessIsFaithful(client, at + 1, items[..midpoint], 0, "");
      SuccessIsFaithful(client, left.next, items[midpoint..], 0, "");
      assert items == items[..midpoint] + items[midpoint..];
      FaithfulAppend(left.result.value, items[..midpoint], right.result.value, items[midpoint..]);
    } else {
      SuccessIsFaithful(client, at + 1, items, attempt + 1, result.error);
    }
  }

  // ----- where the texts come from

  /** Prompt number `n` was answered with this text for the key. */
  predicate Answers(client: Client, n: nat, key: string, text: string) {
    client.replies(n).Parsed? && key in client.replies(n).fields && client.replies(n).fields[key] == StringField(text)
  }

  /** Every text is the client's own answer for its key to one of these prompts. */
  ghost predicate Answered(client: Client, from: nat, to: nat, translated: Translations) {
    forall key :: key in translated ==> exists n: nat :: from <= n < to && Answers(client, n, key, translated[key])
  }

  lemma AnsweredMore(client: Client, a: nat, b: nat, from: nat, to: nat, translated: Translations)
    requires from <= a && b <= to && Answered(client, a, b, translated)
    ensures Answered(client, from, to, translated)
  {
    forall key | key in translated ensures exists n: nat :: from <= n < to && Answers(client, n, key, translated[key]) {
      var n: nat :| a <= n < b && Answers(client, n, key, translated[key]);
    }
  }

  lemma AnsweredBoth(client: Client, from: nat, to: nat, left: Translations, right: Translations)
    requires Answered(client, from, to, left) && Answered(client, from, to, right)
    ensures Answered(client, from, to, left + right)
  {
    var both := left + right;
    forall key | key in both ensures exists n: nat :: from <= n < to && Answers(client, n, key, both[key]) {
      if key in right {
        assert both[key] == right[key];
      } else {
        assert both[key] == left[key];
      }
    }
  }

  lemma AttemptIsAnswered(client: Client, at: nat, items: seq<Item>)
    requires Attempt(client, at, items).Ok?
    ensures Answered(client, at, at + 1, Attempt(client, at, items).value)
  {
    var fields, translated := client.replies(at).fields, Attempt(client, at, items).value;
    NoneMissing(fields, items);
    SourceMapKeys(items);
    forall key | key in translated ensures exists n: nat :: at <= n < at + 1 && Answers(client, n, key, translated[key]) {
      assert Answers(client, at, key, translated[key]);
    }
  }

  lemma SplitIsAnswered(client: Client, at: nat, middle: nat, end: nat, left: Translations, right: Translations)
    requires at <= middle <= end && Answered(client, at + 1, middle, left) && Answered(client, middle, end, right)
    ensures Answered(client, at, end, left + right)
  {
    AnsweredMore(client, at + 1, middle, at, end, left);
    AnsweredMore(client, middle, end, at, end, right);
    AnsweredBoth(client, at, end, left, right);
  }

  /** If a batch is translated, every text is what the client answered for its key to one of the batch's own prompts. */
  lemma {:induction false} SuccessIsAnswered(client: Client, at: nat, items: seq<Item>, attempt: nat, lastError: string)
    requires attempt <= MAX_ATTEMPTS
    requires Translate(client, at, items, attempt, lastError).result.Ok?
    ensures var outcome := Translate(client, at, items, attempt, lastError);
            Answered(client, at, outcome.next, outcome.result.value)
    decreases |items|, MAX_ATTEMPTS - attempt
  {
    var result := Attempt(client, at, items);
    if result.Ok? {
      AttemptIsAnswered(client, at, items);
    } else if IsPromptTimeout(result.error) {
      var midpoint := (|items| + 1) / 2;
      var left := Translate(client, at + 1, items[..midpoint], 0, "");
      var right := Translate(client, left.next, items[midpoint..], 0, "");
      SuccessIsAnswered(client, at + 1, items[..midpoint], 0, "");
      SuccessIsAnswered(client, left.next, items[midpoint..], 0, "");
      PromptsFrom(client, at + 1, items[..midpoint], 0, "");
      PromptsFrom(client, left.next, items[midpoint..], 0, "");
      SplitIsAnswered(client, at, left.next, right.next, left.result.value, right.result.value);
    } else {
      SuccessIsAnswered(client, at + 1, items, attempt + 1, result.error);
      var outcome := Translate(client, at + 1, items, attempt + 1, result.error);
      AnsweredMore(client, at + 1, outcome.next, at, outcome.next, outcome.result.value);
    }
  }

  // ----- when a reply is accepted, and when a batch fails

  /** The text of the last item with a key is the one that counts. */
  lemma {:induction false} LastItemCounts(items: seq<Item>, i: nat)
    requires i < |items| && forall j :: i < j < |items| ==> items[j].key != items[i].key
    ensures items[i].key in SourceMap(items) && SourceMap(items)[items[i].key] == items[i].text
    decreases |items|
  {
    if i < |items| - 1 {
      LastItemCounts(items[..|items| - 1], i);
    }
  }

  /** The reply has a text that is not blank for every item, with the placeholders of the last item of its key. */
  ghost predicate IsAcceptable(fields: map<string, JsonField>, items: seq<Item>) {
    forall i :: 0 <= i < |items| ==>
      && HasText(fields, items[i].key)
      && ((forall j :: i < j < |items| ==> items[j].key != items[i].key) ==>
            Placeholders.Extract(items[i].text) == Placeholders.Extract(fields[items[i].key].text))
  }

  lemma {:induction false} LastItemOf(items: seq<Item>, key: string) returns (i: nat)
    requires key in SourceMap(items)
    ensures i < |items| && items[i].key == key && forall j :: i < j < |items| ==> items[j].key != key
  {
    if items[|items| - 1].key == key {
      i := |items| - 1;
    } else {
      i := LastItemOf(items[..|items| - 1], key);
    }
  }

  /** A reply is accepted if and only if it is acceptable, and an accepted one is returned text by text. */
  lemma ReplyAcceptedExactly(client: Client, fields: map<string, JsonField>, items: seq<Item>)
    ensures ParseReply(client, fields, items).Ok? <==> IsAcceptable(fields, items)
    ensures ParseReply(client, fields, items).Ok? ==>
              var translated := ParseReply(client, fields, items).value;
              && (forall key :: key in translated <==> exists i :: 0 <= i < |items| && items[i].key == key)
              && (forall key :: key in translated ==> HasText(fields, key) && translated[key] == fields[key].text)
    ensures forall i :: 0 <= i < |items| && !HasText(fields, items[i].key) && (forall j :: 0 <= j < i ==> HasText(fields, items[j].key)) ==>
              ParseReply(client, fields, items) == Err("missing translation for " + items[i].key)
  {
    forall i | 0 <= i < |items| && !HasText(fields, items[i].key) && (forall j :: 0 <= j < i ==> HasText(fields, items[j].key))
      ensures FirstMissing(fields, items) == Some(items[i].key)
    {
      FirstMissingIsFirst(fields, items, i);
    }
    NoneMissing(fields, items);
    SourceMapKeys(items);
    if FirstMissing(fields, items).None? {
      SamePlaceholdersExactly(fields, items);
    }
  }

  lemma {:induction false} FirstMissingIsFirst(fields: map<string, JsonField>, items: seq<Item>, i: nat)
    requires i < |items| && !HasText(fields, items[i].key) && forall j :: 0 <= j < i ==> HasText(fields, items[j].key)
    ensures FirstMissing(fields, items) == Some(items[i].key)
    decreases i
  {
    if i > 0 {
      FirstMissingIsFirst(fields, items[1..], i - 1);
    }
  }

  lemma SamePlaceholdersExactly(fields: map<string, JsonField>, items: seq<Item>)
    requires forall key :: key in SourceMap(items).Keys ==> HasText(fields, key)
    requires forall i :: 0 <= i < |items| ==> HasText(fields, items[i].key)
    ensures SamePlaceholders(SourceMap(items), TranslatedMap(fields, SourceMap(items).Keys)) <==> IsAcceptable(fields, items)
  {
    var source, translated := SourceMap(items), TranslatedMap(fields, SourceMap(items).Keys);
    if IsAcceptable(fields, items) {
      forall key | key in source ensures Placeholders.Extract(source[key]) == Placeholders.Extract(translated[key]) {
        var i := LastItemOf(items, key);
        LastItemCounts(items, i);
      }
    } else {
      var i :| 0 <= i < |items| && (forall j :: i < j < |items| ==> items[j].key != items[i].key)
               && Placeholders.Extract(items[i].text) != Placeholders.Extract(fields[items[i].key].text);
      LastItemCounts(items, i);
    }
  }

  /** A prompt for the items failed with this error. */
  predicate FailedWith(client: Client, n: nat, items: seq<Item>, error: string) { Attempt(client, n, items) == Err(error) }

  /** A batch whose first acceptable reply comes at once, or after one failure that is no timeout, costs no more prompts. */
  lemma AcceptableReplySucceeds(client: Client, at: nat, items: seq<Item>)
    ensures Attempt(client, at, items).Ok? ==> Translate(client, at, items, 0, "") == Outcome(Attempt(client, at, items), at + 1)
    ensures Attempt(client, at, items).Err? && !IsPromptTimeout(Attempt(client, at, items).error) && Attempt(client, at + 1, items).Ok? ==>
              Translate(client, at, items, 0, "") == Outcome(Attempt(client, at + 1, items), at + 2)
  {
    if Attempt(client, at, items).Err? && !IsPromptTimeout(Attempt(client, at, items).error) {
      assert Translate(client, at, items, 0, "") == Translate(client, at + 1, items, 1, Attempt(client, at, items).error);
    }
  }

  /** The last prompt before `next` was for this part and failed with the error: it timed out and the part is too small to be
      split, or the prompt before it failed for the part as well, neither by a timeout. */
  ghost predicate IsRealFailure(client: Client, at: nat, next: nat, part: seq<Item>, error: string) {
    && at < next && FailedWith(client, next - 1, part, error)
    && if IsPromptTimeout(error) then |part| <= 1
       else at + 2 <= next && exists e :: FailedWith(client, next - 2, part, e) && !IsPromptTimeout(e)
  }

  /** A batch fails only with the error of its last prompt, a real failure of some consecutive part of it. */
  lemma {:induction false} FailureIsReal(client: Client, at: nat, items: seq<Item>) returns (from: nat, to: nat)
    requires Translate(client, at, items, 0, "").result.Err?
    ensures from <= to <= |items|
    ensures var outcome := Translate(client, at, items, 0, "");
            IsRealFailure(client, at, outcome.next, items[from..to], outcome.result.error)
  {
    from, to := FailsFrom(client, at, items, 0, "", at);
  }

  lemma TimeoutHalves(client: Client, at: nat, items: seq<Item>, attempt: nat, lastError: string, left: Outcome, right: Outcome)
    requires attempt < MAX_ATTEMPTS && |items| > 1
    requires Attempt(client, at, items).Err? && IsPromptTimeout(Attempt(client, at, items).error)
    requires left == Translate(client, at + 1, items[..(|items| + 1) / 2], 0, "")
    requires right == Translate(client, left.next, items[(|items| + 1) / 2..], 0, "")
    ensures var outcome := Translate(client, at, items, attempt, lastError);
            && (left.result.Err? ==> outcome == left)
            && (left.result.Ok? && right.result.Err? ==> outcome == right)
            && (left.result.Ok? && right.result.Ok? ==> outcome.result.Ok?)
  {
  }

  lemma RealFailureEarlier(client: Client, at: nat, at': nat, next: nat, part: seq<Item>, part': seq<Item>, error: string)
    requires at <= at' && part == part' && IsRealFailure(client, at', next, part', error)
    ensures IsRealFailure(client, at, next, part, error)
  {
  }

  /** A prompt that times out for a part too small to be split, and a second failure. */
  lemma FailsWhole(client: Client, at: nat, items: seq<Item>, attempt: nat, lastError: string, start: nat)
    requires attempt < MAX_ATTEMPTS && at == start + attempt && Attempt(client, at, items).Err?
    requires attempt > 0 ==> FailedWith(client, start, items, lastError) && !IsPromptTimeout(lastError)
    requires if IsPromptTimeout(Attempt(client, at, items).error) then |items| <= 1 else attempt > 0
    ensures var outcome := Translate(client, at, items, attempt, lastError);
            outcome.result.Err? && IsRealFailure(client, start, outcome.next, items[0..|items|], outcome.result.error)
  {
    assert items[0..|items|] == items;
    if !IsPromptTimeout(Attempt(client, at, items).error) {
      assert Translate(client, at + 1, items, MAX_ATTEMPTS, Attempt(client, at, items).error).next == at + 1;
    }
  }

  /** From attempt number `attempt` on, the ones before having failed without a timeout. */
  lemma {:induction false} FailsFrom(client: Client, at: nat, items: seq<Item>, attempt: nat, lastError: string, start: nat)
    returns (from: nat, to: nat)
    requires attempt < MAX_ATTEMPTS && at == start + attempt && Translate(client, at, items, attempt, lastError).result.Err?
    requires attempt > 0 ==> FailedWith(client, start, items, lastError) && !IsPromptTimeout(lastError)
    ensures from <= to <= |items|
    ensures var outcome := Translate(client, at, items, attempt, lastError);
            IsRealFailure(client, start, outcome.next, items[from..to], outcome.result.error) == true
    decreases |items|, MAX_ATTEMPTS - attempt
  {
    var result := Attempt(client, at, items);
    if IsPromptTimeout(result.error) && |items| > 1 {
      from, to := FailsHalved(client, at, items, attempt, lastError, start, Translate(client, at, items, attempt, lastError));
    } else if !IsPromptTimeout(result.error) && attempt == 0 {
      assert Translate(client, at, items, 0, lastError) == Translate(client, at + 1, items, 1, result.error);
      from, to := FailsFrom(client, at + 1, items, 1, result.error, start);
    } else {
      from, to := 0, |items|;
      FailsWhole(client, at, items, attempt, lastError, start);
    }
  }

  lemma {:induction false} FailsHalved(client: Client, at: nat, items: seq<Item>, attempt: nat, lastError: string, start: nat,
                                       outcome: Outcome)
    returns (from: nat, to: nat)
    requires attempt < MAX_ATTEMPTS && start <= at && |items| > 1
    requires outcome == Translate(client, at, items, attempt, lastError) && outcome.result.Err?
    requires Attempt(client, at, items).Err? && IsPromptTimeout(Attempt(client, at, items).error)
    ensures from <= to <= |items| && IsRealFailure(client, start, outcome.next, items[from..to], outcome.result.error) == true
    decreases |items|, 0
  {
    var midpoint := (|items| + 1) / 2;
    var a, b := items[..midpoint], items[midpoint..];
    var left := Translate(client, at + 1, a, 0, "");
    var right := Translate(client, left.next, b, 0, "");
    TimeoutHalves(client, at, items, attempt, lastError, left, right);
    if left.result.Err? {
      from, to := FailsIn(client, at + 1, items, 0, midpoint, a, start);
    } else {
      PromptsFrom(client, at + 1, a, 0, "");
      from, to := FailsIn(client, left.next, items, midpoint, |items|, b, start);
    }
  }

  lemma {:induction false} FailsIn(client: Client, at: nat, items: seq<Item>, lo: nat, hi: nat, part: seq<Item>, start: nat)
    returns (from: nat, to: nat)
    requires lo <= hi <= |items| && part == items[lo..hi] && start <= at
    requires Translate(client, at, part, 0, "").result.Err?
    ensures from <= to <= |items|
    ensures var outcome := Translate(client, at, part, 0, "");
            IsRealFailure(client, start, outcome.next, items[from..to], outcome.result.error) == true
    decreases |part|, MAX_ATTEMPTS + 1
  {
    var i, j := FailsFrom(client, at, part, 0, "", at);
    from, to := lo + i, lo + j;
    SliceOfPart(items, lo, hi, part, i, j);
    var outcome := Translate(client, at, part, 0, "");
    RealFailureEarlier(client, start, at, outcome.next, items[from..to], part[i..j], outcome.result.error);
  }

  lemma SliceOfPart(items: seq<Item>, from: nat, to: nat, part: seq<Item>, i: nat, j: nat)
    requires from <= to <= |items| && part == items[from..to] && i <= j <= |part|
    ensures part[i..j] == items[from + i..from + j]
  {
    var a, b := part[i..j], items[from + i..from + j];
    assert |a| == |b| && forall k :: 0 <= k < |a| ==> a[k] == part[i + k] == items[from + (i + k)] == b[k];
  }

  // ----- the bound is exact

  function Echo(items: seq<Item>): Reply {
    Parsed(map key | key in SourceMap(items) :: StringField(SourceMap(items)[key]))
  }

  /** A client that fails every batch once, times out on every batch it could split, and echoes single items. */
  function WorstScript(items: seq<Item>): seq<Reply>
    decreases |items|
  {
    if |items| <= 1 then [Raised("busy"), Echo(items)]
    else
      [Raised("busy"), Raised("timed out")]
      + WorstScript(items[..(|items| + 1) / 2]) + WorstScript(items[(|items| + 1) / 2..])
  }

  ghost predicate Plays(client: Client, at: nat, script: seq<Reply>) {
    forall n: nat :: at <= n < at + |script| ==> client.replies(n) == script[n - at]
  }

  lemma PlaysParts(client: Client, at: nat, a: seq<Reply>, b: seq<Reply>)
    requires Plays(client, at, a + b)
    ensures Plays(client, at, a) && Plays(client, at + |a|, b)
  {
    forall n: nat | at <= n < at + |a| + |b| ensures client.replies(n) == (a + b)[n - at] { }
  }

  lemma EchoSucceeds(client: Client, at: nat, item: Item)
    requires client.replies(at) == Echo([item]) && !IsBlank(item.text)
    ensures Attempt(client, at, [item]) == Ok(map[item.key := item.text])
  {
    assert [item][..0] == [];
    assert SourceMap([item]) == map[item.key := item.text];
    var fields := client.replies(at).fields;
    assert HasText(fields, item.key);
    NoneMissing(fields, [item]);
    SourceMapKeys([item]);
    assert TranslatedMap(fields, SourceMap([item]).Keys) == map[item.key := item.text];
  }

  lemma TimeoutWords()
    ensures IsPromptTimeout("timed out") && IsPromptTimeout("TIMED OUT") && !IsPromptTimeout("busy")
  {
    assert LowerChar('T') == 't' && LowerChar('I') == 'i' && LowerChar('M') == 'm' && LowerChar('E') == 'e'
           && LowerChar('D') == 'd' && LowerChar('O') == 'o' && LowerChar('U') == 'u';
    assert Lower("TIMED OUT") == "timed out";
    assert StandsAt("timed out", Lower("TIMED OUT"), 0);
    assert Lower("timed out") == "timed out";
    assert StandsAt("timed out", Lower("timed out"), 0);
  }

  lemma WorstSingle(client: Client, at: nat, item: Item)
    requires Plays(client, at, WorstScript([item])) && !IsBlank(item.text)
    ensures var outcome := Translate(client, at, [item], 0, "");
            outcome.result.Ok? && outcome.next == at + 2
  {
    TimeoutWords();
    var script := WorstScript([item]);
    assert client.replies(at) == script[0] && client.replies(at + 1) == script[1];
    EchoSucceeds(client, at + 1, item);
    assert Translate(client, at, [item], 0, "") == Translate(client, at + 1, [item], 1, "busy");
  }

  lemma {:induction false} WorstScriptLength(items: seq<Item>)
    requires items != []
    ensures |WorstScript(items)| == PromptBound(|items|)
    decreases |items|
  {
    if |items| > 1 {
      WorstScriptLength(items[..(|items| + 1) / 2]);
      WorstScriptLength(items[(|items| + 1) / 2..]);
    }
  }

  /** The batch succeeds with the prompts from `at` up to `end`. */
  ghost predicate PlaysOut(client: Client, at: nat, items: seq<Item>, end: nat)
    requires items != []
  {
    var outcome := Translate(client, at, items, 0, "");
    outcome.result.Ok? && outcome.next == end
  }

  lemma FailThenSplit(client: Client, at: nat, items: seq<Item>, middle: nat, end: nat)
    requires |items| > 1 && client.replies(at) == Raised("busy") && client.replies(at + 1) == Raised("timed out")
    requires PlaysOut(client, at + 2, items[..(|items| + 1) / 2], middle)
    requires PlaysOut(client, middle, items[(|items| + 1) / 2..], end)
    ensures PlaysOut(client, at, items, end)
  {
    TimeoutWords();
    assert Attempt(client, at, items) == Err("busy") && Attempt(client, at + 1, items) == Err("timed out");
    assert Translate(client, at, items, 0, "") == Translate(client, at + 1, items, 1, "busy");
  }

  lemma PlaysHead(client: Client, at: nat, first: Reply, second: Reply, a: seq<Reply>, b: seq<Reply>)
    requires Plays(client, at, [first, second] + a + b)
    ensures client.replies(at) == first && client.replies(at + 1) == second
    ensures Plays(client, at + 2, a) && Plays(client, at + 2 + |a|, b)
  {
    PlaysParts(client, at, [first, second] + a, b);
    PlaysParts(client, at, [first, second], a);
  }

  lemma WorstScriptParts(client: Client, at: nat, items: seq<Item>, a: seq<Item>, b: seq<Item>, end: nat)
    returns (middle: nat)
    requires |items| > 1 && Plays(client, at, WorstScript(items)) && end == at + |WorstScript(items)|
    requires a == items[..(|items| + 1) / 2] && b == items[(|items| + 1) / 2..]
    ensures client.replies(at) == Raised("busy") && client.replies(at + 1) == Raised("timed out")
    ensures Plays(client, at + 2, WorstScript(a)) && middle == at + 2 + |WorstScript(a)|
    ensures Plays(client, middle, WorstScript(b)) && end == middle + |WorstScript(b)|
  {
    assert WorstScript(items) == [Raised("busy"), Raised("timed out")] + WorstScript(a) + WorstScript(b);
    PlaysHead(client, at, Raised("busy"), Raised("timed out"), WorstScript(a), WorstScript(b));
    middle := at + 2 + |WorstScript(a)|;
  }

  lemma {:induction false} WorstScriptPlaysOut(client: Client, at: nat, items: seq<Item>, end: nat)
    requires items != [] && Plays(client, at, WorstScript(items)) && end == at + |WorstScript(items)|
    requires forall i :: 0 <= i < |items| ==> !IsBlank(items[i].text)
    ensures PlaysOut(client, at, items, end)
    decreases |items|
  {
    if |items| == 1 {
      assert items == [items[0]];
      WorstSingle(client, at, items[0]);
    } else {
      var a, b := items[..(|items| + 1) / 2], items[(|items| + 1) / 2..];
      var middle := WorstScriptParts(client, at, items, a, b, end);
      WorstScriptPlaysOut(client, at + 2, a, middle);
      WorstScriptPlaysOut(client, middle, b, end);
      FailThenSplit(client, at, items, middle, end);
    }
  }

  /** For every batch of translatable items some client makes it cost exactly 4n - 2 prompts and succeed. */
  lemma BoundIsReached(items: seq<Item>) returns (client: Client)
    requires items != [] && forall i :: 0 <= i < |items| ==> !IsBlank(items[i].text)
    ensures var outcome := Translate(client, 0, items, 0, "");
            outcome.result.Ok? && outcome.next == PromptBound(|items|)
  {
    var script := WorstScript(items);
    client := Client((i: nat) => if i < |script| then script[i] else Raised(""), (source, translated) => "");
    WorstScriptLength(items);
    WorstScriptPlaysOut(client, 0, items, PromptBound(|items|));
  }

  // ----- all batches of a native locale

  /** The batches not yet reached hold at least one item each. */
  lemma {:induction false} RestOfSplit(split: seq<seq<Item>>, i: nat, entries: seq<Item>, budget: real)
    requires IsSplit(split, entries, budget) && i <= |split|
    ensures |Flatten(split[..i])| + (|split| - i) <= |entries|
    decreases |split| - i
  {
    if i == |split| {
      assert split[..i] == split;
    } else {
      assert Fits(split[i], budget);
      assert split[..i + 1] == split[..i] + [split[i]];
      FlattenSnoc(split[..i], split[i]);
      RestOfSplit(split, i + 1, entries, budget);
    }
  }

  /** Translates the entries batch by batch; `batches` is how many batches were made. */
  method TranslateNativeEntries(client: Client, entries: seq<Item>, budget: real)
    returns (result: Result<Translations, string>, prompts: nat, batches: nat)
    ensures result.Ok? ==> Faithful(result.value, entries) && Answered(client, 0, prompts, result.value)
    ensures prompts + 2 * batches <= 4 * |entries|
    ensures forall split :: IsSplit(split, entries, budget) ==> batches <= |split|
  {
    var split := BuildTranslationBatches(entries, budget);
    batches := |split|;
    result, prompts := TranslateSplit(client, split, entries, budget);
  }

  /** The loop over the batches. */
  method TranslateSplit(client: Client, split: seq<seq<Item>>, ghost entries: seq<Item>, ghost budget: real)
    returns (result: Result<Translations, string>, prompts: nat)
    requires IsSplit(split, entries, budget)
    ensures result.Ok? ==> Faithful(result.value, entries) && Answered(client, 0, prompts, result.value)
    ensures prompts + 2 * |split| <= 4 * |entries|
  {
    prompts := 0;
    var translated: Translations := map[];
    for i := 0 to |split|
      invariant Faithful(translated, Flatten(split[..i])) == true  // the comparison keeps the predicate whole
      invariant Answered(client, 0, prompts, translated) == true
      invariant prompts + 2 * i <= 4 * |Flatten(split[..i])|
    {
      var batch := split[i];
      PrefixSnoc(split, i);
      FlattenSnoc(split[..i], batch);
      RestOfSplit(split, i + 1, entries, budget);
      var r, next := TranslateNonEmpty(client, prompts, batch);
      if r.Err? {
        return r, next;
      }
      AnsweredMore(client, 0, prompts, 0, next, translated);
      AnsweredMore(client, prompts, next, 0, next, r.value);
      AnsweredBoth(client, 0, next, translated, r.value);
      prompts := next;
      FaithfulAppend(translated, Flatten(split[..i]), r.value, batch);
      translated := translated + r.value;
    }
    assert split[..|split|] == split;
    result := Ok(translated);
  }

  method TranslateNonEmpty(client: Client, at: nat, batch: seq<Item>) returns (result: Result<Translations, string>, next: nat)
    requires batch != []
    ensures result.Ok? ==> Faithful(result.value, batch) && Answered(client, at, next, result.value)
    ensures at <= next && next + 2 <= at + 4 * |batch|
  {
    result, next := TranslateBatch(client, at, batch);
    PromptsAreBounded(client, at, batch);
    if result.Ok? {
      SuccessIsFaithful(client, at, batch, 0, "");
      SuccessIsAnswered(client, at, batch, 0, "");
    }
  }
}
