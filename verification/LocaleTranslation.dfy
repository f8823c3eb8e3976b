/** The locale sync with the scripts' own translator, which translates the pending entries in batches. */
module LocaleTranslation {
  import opened Options
  import opened LocaleSync
  import Batching
  import BatchTranslation

  function ToItem(entry: InventoryEntry): Batching.Item { Batching.Item(entry.id, entry.source) }

  function ToItems(pending: seq<InventoryEntry>): (items: seq<Batching.Item>)
    ensures |items| == |pending|
  {
    seq(|pending|, k requires 0 <= k < |pending| => ToItem(pending[k]))
  }

  /** The scripts' own translator of pending entries: whatever the client does, an answer is faithful to what was asked, and
      every text in it is what the client answered for its id to one of the prompts. */
  method TranslatePending(client: BatchTranslation.Client, pending: seq<InventoryEntry>, budget: real)
    returns (result: Result<Translations, string>, prompts: nat)
    ensures result.Ok? ==> BatchTranslation.Faithful(result.value, ToItems(pending))
    ensures result.Ok? ==> BatchTranslation.Answered(client, 0, prompts, result.value)
    ensures result.Ok? ==> result.value.Keys == set k | 0 <= k < |pending| :: pending[k].id
  {
    var batches;
    result, prompts, batches := BatchTranslation.TranslateNativeEntries(client, ToItems(pending), budget);
    KeysAreIds(pending);
  }

  lemma KeysAreIds(pending: seq<InventoryEntry>)
    ensures BatchTranslation.SourceMap(ToItems(pending)).Keys == set k | 0 <= k < |pending| :: pending[k].id
  {
    var items := ToItems(pending);
    BatchTranslation.SourceMapKeys(items);
    assert forall k :: 0 <= k < |pending| ==> items[k].key == pending[k].id;
    forall k | 0 <= k < |pending| ensures pending[k].id in (set i | 0 <= i < |items| :: items[i].key) {
      assert items[k].key == pending[k].id;
    }
  }

  /** The translator answers as `TranslatePending` ensures. */
  ghost predicate TranslatesInBatches(tools: Tools) {
    forall pending :: tools.translate(pending).Ok? ==>
      BatchTranslation.Faithful(tools.translate(pending).value, ToItems(pending))
  }

  /** Such a translator answers only what it was asked. */
  lemma BatchesAnswerOnlyPending(tools: Tools)
    requires TranslatesInBatches(tools)
    ensures AnswersOnlyPending(tools)
  {
    forall pending: seq<InventoryEntry>, id: string | tools.translate(pending).Ok? && id in tools.translate(pending).value
      ensures exists e: InventoryEntry :: e in pending && e.id == id
    {
      KeysAreIds(pending);
      var k :| 0 <= k < |pending| && pending[k].id == id;
      assert pending[k] in pending;
    }
  }

  /** With it, after an inventory change under the same glossary, every entry that kept its id and source keeps its
      translation, whatever the client does. */
  lemma UnchangedEntriesKeepTheirs(
    tools: Tools, file: Option<string>, locale: string, inventory: seq<InventoryEntry>, hash: string,
    later: Tools, changed: seq<InventoryEntry>, j: nat, k: nat)
    requires Sync(tools, file, locale, inventory, hash).Ok? && SameTools(tools, later) && RoundTrips(tools)
    requires TranslatesInBatches(later)
    requires Sync(later, Some(Sync(tools, file, locale, inventory, hash).value.file), locale, changed, hash).Ok?
    requires j < |inventory| && k < |changed| && inventory[j].id == changed[k].id && inventory[j].source == changed[k].source
    ensures var s := Sync(tools, file, locale, inventory, hash).value;
            var s' := Sync(later, Some(s.file), locale, changed, hash).value;
            j < |s.artifact.entries| && k < |s'.artifact.entries|
            && s'.artifact.entries[k].translated == s.artifact.entries[j].translated
  {
    BatchesAnswerOnlyPending(later);
    UnchangedEntriesKeepTranslations(tools, file, locale, inventory, hash, later, changed, j, k);
  }
}
