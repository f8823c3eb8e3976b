/**
  The incremental sync of one native locale: translations whose entry and glossary are
  unchanged are reused, the rest is translated, and the artifact is written only when it is valid.
 */
module LocaleSync {
  import opened Options
  import opened Text

  datatype InventoryEntry = InventoryEntry(id: string, source: string, path: string)

  datatype ArtifactEntry = ArtifactEntry(id: string, source: string, translated: string)

  datatype Artifact = Artifact(version: int, locale: string, glossaryHash: string, entries: seq<ArtifactEntry>)

  type Translations = map<string, string>

  /** Everything around the sync: the structural signature of a text, the translator, and the JSON of an artifact. */
  datatype Tools = Tools(
    signature: string -> string,
    translate: seq<InventoryEntry> -> Result<Translations, string>,
    render: Artifact -> string,
    parse: string -> Option<Artifact>)

  // ----- validation, of a value of unknown shape

  datatype RawEntry =
    | NotAnObject
    | BadFields                                       // not all of id, source and translated are strings
    | Fields(id: string, source: string, translated: string)

  datatype RawArtifact = RawArtifact(
    version: Option<int>, locale: Option<string>, glossaryHash: Option<string>, entries: Option<seq<RawEntry>>)

  datatype Problem =
    | NotAnArtifact
    | WrongVersion | WrongLocale | WrongGlossary | EntriesNotAnArray
    | MalformedEntry(index: nat) | DuplicateId(id: string) | WrongCount
    | WrongId(index: nat) | WrongSource(index: nat) | Blank(index: nat) | ChangedStructure(index: nat)

  /** What an artifact has to be for an inventory. */
  predicate IsValid(signature: string -> string, locale: string, inventory: seq<InventoryEntry>, hash: string, raw: RawArtifact) {
    && raw.version == Some(1) && raw.locale == Some(locale) && raw.glossaryHash == Some(hash)
    && raw.entries.Some? && |raw.entries.value| == |inventory|
    && (forall k :: 0 <= k < |inventory| ==>
          && raw.entries.value[k].Fields?
          && raw.entries.value[k].id == inventory[k].id && raw.entries.value[k].source == inventory[k].source
          && !IsBlank(raw.entries.value[k].translated)
          && signature(raw.entries.value[k].source) == signature(raw.entries.value[k].translated))
    && (forall j, k :: 0 <= j < k < |inventory| ==> inventory[j].id != inventory[k].id)
  }

  /** The entries that are objects with the three string fields. */
  function WellFormed(raw: seq<RawEntry>): seq<RawEntry> {
    if raw == [] then []
    else WellFormed(raw[..|raw| - 1]) + (if raw[|raw| - 1].Fields? then [raw[|raw| - 1]] else [])
  }

  lemma {:induction false} WellFormedFields(raw: seq<RawEntry>)
    ensures forall k :: 0 <= k < |WellFormed(raw)| ==> WellFormed(raw)[k].Fields?
    ensures |WellFormed(raw)| <= |raw|
    ensures (forall k :: 0 <= k < |raw| ==> raw[k].Fields?) ==> WellFormed(raw) == raw
  {
    if raw != [] {
      var init, last := raw[..|raw| - 1], raw[|raw| - 1];
      WellFormedFields(init);
      assert raw == init + [last];
      if forall k :: 0 <= k < |raw| ==> raw[k].Fields? {
        assert forall k :: 0 <= k < |init| ==> init[k] == raw[k];
        assert WellFormed(raw) == init + [last];
      }
    }
  }

  /** Malformed and duplicate entries. */
  method CheckEntries(raw: seq<RawEntry>) returns (errors: seq<Problem>, entries: seq<RawEntry>)
    ensures entries == WellFormed(raw)
    ensures errors == [] <==>
              && (forall k :: 0 <= k < |raw| ==> raw[k].Fields?)
              && (forall j, k :: 0 <= j < k < |raw| && raw[j].Fields? && raw[k].Fields? ==> raw[j].id != raw[k].id)
  {
    errors, entries := [], [];
    var seenIds: set<string> := {};
    for i := 0 to |raw|
      invariant entries == WellFormed(raw[..i])
      invariant forall id :: id in seenIds <==> exists k :: 0 <= k < i && raw[k].Fields? && raw[k].id == id
      invariant errors == [] <==>
                  && (forall k :: 0 <= k < i ==> raw[k].Fields?)
                  && (forall j, k :: 0 <= j < k < i && raw[j].Fields? && raw[k].Fields? ==> raw[j].id != raw[k].id)
    {
      PrefixSnoc(raw, i);
      var value := raw[i];
      if !value.Fields? {
        errors := errors + [MalformedEntry(i)];
        continue;
      }
      if value.id in seenIds {
        errors := errors + [DuplicateId(value.id)];
      }
      seenIds := seenIds + {value.id};
      entries := entries + [value];
    }
    assert raw[..|raw|] == raw;
  }

  /** Entry by entry against the inventory, as far as both go. */
  method CompareEntries(signature: string -> string, entries: seq<RawEntry>, inventory: seq<InventoryEntry>)
    returns (errors: seq<Problem>)
    requires forall k :: 0 <= k < |entries| ==> entries[k].Fields?
    ensures errors == [] <==> forall k :: 0 <= k < |entries| && k < |inventory| ==>
              && entries[k].id == inventory[k].id && entries[k].source == inventory[k].source
              && !IsBlank(entries[k].translated) && signature(entries[k].source) == signature(entries[k].translated)
  {
    errors := [];
    for i := 0 to if |entries| < |inventory| then |entries| else |inventory|
      invariant errors == [] <==> forall k :: 0 <= k < i ==>
                  && entries[k].id == inventory[k].id && entries[k].source == inventory[k].source
                  && !IsBlank(entries[k].translated) && signature(entries[k].source) == signature(entries[k].translated)
    {
      if entries[i].id != inventory[i].id {
        errors := errors + [WrongId(i)];
      }
      if entries[i].source != inventory[i].source {
        errors := errors + [WrongSource(i)];
      }
      if IsBlank(entries[i].translated) {
        errors := errors + [Blank(i)];
      } else if signature(entries[i].source) != signature(entries[i].translated) {
        errors := errors + [ChangedStructure(i)];
      }
    }
  }

  /** Validation finds no problem exactly when the artifact is what the inventory demands. */
  method ValidateNativeLocaleArtifact(signature: string -> string, locale: string, inventory: seq<InventoryEntry>,
                                      hash: string, value: Option<RawArtifact>)
    returns (errors: seq<Problem>)
    ensures errors == [] <==> value.Some? && IsValid(signature, locale, inventory, hash, value.value)
  {
    if value.None? {
      return [NotAnArtifact];
    }
    var raw := value.value;
    errors := CheckHeader(locale, hash, raw);
    var rawEntries := if raw.entries.Some? then raw.entries.value else [];
    var malformed, entries := CheckEntries(rawEntries);
    WellFormedFields(rawEntries);
    errors := errors + malformed;
    if |rawEntries| != |inventory| {
      errors := errors + [WrongCount];
    }
    var different := CompareEntries(signature, entries, inventory);
    errors := errors + different;
  }

  method CheckHeader(locale: string, hash: string, raw: RawArtifact) returns (errors: seq<Problem>)
    ensures errors == [] <==> raw.version == Some(1) && raw.locale == Some(locale) && raw.glossaryHash == Some(hash) && raw.entries.Some?
  {
    errors := [];
    if raw.version != Some(1) {
      errors := errors + [WrongVersion];
    }
    if raw.locale != Some(locale) {
      errors := errors + [WrongLocale];
    }
    if raw.glossaryHash != Some(hash) {
      errors := errors + [WrongGlossary];
    }
    if raw.entries.None? {
      errors := errors + [EntriesNotAnArray];
    }
  }

  // ----- the sync

  function Raw(artifact: Artifact): RawArtifact {
    RawArtifact(Some(artifact.version), Some(artifact.locale), Some(artifact.glossaryHash),
                Some(seq(|artifact.entries|, k requires 0 <= k < |artifact.entries| =>
                  Fields(artifact.entries[k].id, artifact.entries[k].source, artifact.entries[k].translated))))
  }

  /** `new Map(entries.map(...))` looked up: the last entry with the id. */
  function EntryById(entries: seq<ArtifactEntry>, id: string): Option<ArtifactEntry> {
    if entries == [] then None
    else if entries[|entries| - 1].id == id then Some(entries[|entries| - 1])
    else EntryById(entries[..|entries| - 1], id)
  }

  /** The previous translation of an entry with the same id and source, if it is not blank. */
  function ReusableFor(previous: seq<ArtifactEntry>, entry: InventoryEntry): Option<string> {
    var exact := EntryById(previous, entry.id);
    if exact.Some? && exact.value.source == entry.source && !IsBlank(exact.value.translated)
    then Some(exact.value.translated) else None
  }

  function ReusableById(previous: seq<ArtifactEntry>, inventory: seq<InventoryEntry>, id: string): Option<string> {
    if inventory == [] then None
    else if inventory[|inventory| - 1].id == id then ReusableFor(previous, inventory[|inventory| - 1])
    else ReusableById(previous, inventory[..|inventory| - 1], id)
  }

  function Pending(previous: Artifact, inventory: seq<InventoryEntry>, hash: string, from: seq<InventoryEntry>): seq<InventoryEntry> {
    if from == [] then []
    else
      var entry := from[|from| - 1];
      Pending(previous, inventory, hash, from[..|from| - 1])
      + (if previous.glossaryHash != hash || ReusableById(previous.entries, inventory, entry.id).None? then [entry] else [])
  }

  function ArtifactFrom(previous: Artifact, locale: string, inventory: seq<InventoryEntry>, hash: string, translated: Translations): Artifact {
    Artifact(1, locale, hash, seq(|inventory|, k requires 0 <= k < |inventory| =>
      ArtifactEntry(inventory[k].id, inventory[k].source,
                    var reusable := ReusableById(previous.entries, inventory, inventory[k].id);
                    if inventory[k].id in translated then translated[inventory[k].id]
                    else if reusable.Some? then reusable.value
                    else inventory[k].source)))
  }

  datatype SyncError = TranslatorFailed(message: string) | InvalidResult

  datatype Synced = Synced(file: string, changed: bool, translatorCalled: bool, artifact: Artifact)

  function PreviousArtifact(tools: Tools, file: Option<string>, locale: string): Artifact {
    var nothing := Artifact(1, locale, "", []);
    if file.None? then nothing
    else match tools.parse(file.value)
      case None => nothing
      case Some(artifact) => artifact
  }

  /** A sync of the artifact stored in `file`, if there is one. */
  function Sync(tools: Tools, file: Option<string>, locale: string, inventory: seq<InventoryEntry>, hash: string): Result<Synced, SyncError> {
    var previous := PreviousArtifact(tools, file, locale);
    var pending := Pending(previous, inventory, hash, inventory);
    var answer: Result<Translations, string> := if pending != [] then tools.translate(pending) else Ok(map[]);
    if answer.Err? then Err(TranslatorFailed(answer.error))
    else
      var artifact := ArtifactFrom(previous, locale, inventory, hash, answer.value);
      if !IsValid(tools.signature, locale, inventory, hash, Raw(artifact)) then Err(InvalidResult)
      else
        var rendered := tools.render(artifact);
        var before := if file.Some? then file.value else "";
        Ok(Synced(rendered, before != rendered, pending != [], artifact))
  }

  // ----- theorems

  /** Reading back what was rendered gives the artifact. */
  ghost predicate RoundTrips(tools: Tools) { forall a :: tools.parse(tools.render(a)) == Some(a) }

  ghost predicate SameTools(a: Tools, b: Tools) {
    a.signature == b.signature && a.render == b.render && a.parse == b.parse
  }

  /** A successful sync yields an artifact that passes validation: the inventory in order, nothing blank, and every
      translation with the structure of its source. */
  lemma SuccessIsValid(tools: Tools, file: Option<string>, locale: string, inventory: seq<InventoryEntry>, hash: string)
    requires Sync(tools, file, locale, inventory, hash).Ok?
    ensures var s := Sync(tools, file, locale, inventory, hash).value;
            && IsValid(tools.signature, locale, inventory, hash, Raw(s.artifact))
            && s.file == tools.render(s.artifact) && |s.artifact.entries| == |inventory|
            && forall k :: 0 <= k < |inventory| ==>
                 && s.artifact.entries[k].id == inventory[k].id && s.artifact.entries[k].source == inventory[k].source
                 && !IsBlank(s.artifact.entries[k].translated)
  {
    var s := Sync(tools, file, locale, inventory, hash).value;
    forall k | 0 <= k < |inventory| ensures Raw(s.artifact).entries.value[k].Fields? && !IsBlank(s.artifact.entries[k].translated) { }
  }

  lemma {:induction false} EntryByIdAt(entries: seq<ArtifactEntry>, k: nat)
    requires k < |entries| && forall i, j :: 0 <= i < j < |entries| ==> entries[i].id != entries[j].id
    ensures EntryById(entries, entries[k].id) == Some(entries[k])
    decreases |entries|
  {
    if k < |entries| - 1 {
      EntryByIdAt(entries[..|entries| - 1], k);
    }
  }

  lemma {:induction false} ReusableByIdAt(previous: seq<ArtifactEntry>, inventory: seq<InventoryEntry>, k: nat)
    requires k < |inventory| && forall i, j :: 0 <= i < j < |inventory| ==> inventory[i].id != inventory[j].id
    ensures ReusableById(previous, inventory, inventory[k].id) == ReusableFor(previous, inventory[k])
    decreases |inventory|
  {
    if k < |inventory| - 1 {
      ReusableByIdAt(previous, inventory[..|inventory| - 1], k);
    }
  }

  lemma {:induction false} PendingHolds(previous: Artifact, inventory: seq<InventoryEntry>, hash: string, from: seq<InventoryEntry>, e: InventoryEntry)
    ensures e in Pending(previous, inventory, hash, from) <==>
              e in from && (previous.glossaryHash != hash || ReusableById(previous.entries, inventory, e.id).None?)
  {
    if from != [] {
      PendingHolds(previous, inventory, hash, from[..|from| - 1], e);
      assert from == from[..|from| - 1] + [from[|from| - 1]];
    }
  }

  /** What a stored artifact makes reusable: the translation of every entry that kept its id and its source. */
  lemma StoredIsReusable(stored: Artifact, inventory: seq<InventoryEntry>, k: nat, j: nat)
    requires k < |inventory| && j < |stored.entries|
    requires forall a, b :: 0 <= a < b < |inventory| ==> inventory[a].id != inventory[b].id
    requires forall a, b :: 0 <= a < b < |stored.entries| ==> stored.entries[a].id != stored.entries[b].id
    requires stored.entries[j].id == inventory[k].id && stored.entries[j].source == inventory[k].source
    requires !IsBlank(stored.entries[j].translated)
    ensures ReusableById(stored.entries, inventory, inventory[k].id) == Some(stored.entries[j].translated)
  {
    ReusableByIdAt(stored.entries, inventory, k);
    EntryByIdAt(stored.entries, j);
  }

  lemma ArtifactIdsDistinct(tools: Tools, file: Option<string>, locale: string, inventory: seq<InventoryEntry>, hash: string)
    requires Sync(tools, file, locale, inventory, hash).Ok?
    ensures var entries := Sync(tools, file, locale, inventory, hash).value.artifact.entries;
            && (forall a, b :: 0 <= a < b < |inventory| ==> inventory[a].id != inventory[b].id)
            && (forall a, b :: 0 <= a < b < |entries| ==> entries[a].id != entries[b].id)
  {
    SuccessIsValid(tools, file, locale, inventory, hash);
  }

  /** Syncing again with the same inventory and glossary calls no translator and leaves the file as it is. */
  lemma SecondSyncIsIdle(
    tools: Tools, file: Option<string>, locale: string, inventory: seq<InventoryEntry>, hash: string, later: Tools)
    requires Sync(tools, file, locale, inventory, hash).Ok? && SameTools(tools, later) && RoundTrips(tools)
    ensures var s := Sync(tools, file, locale, inventory, hash).value;
            Sync(later, Some(s.file), locale, inventory, hash) == Ok(Synced(s.file, false, false, s.artifact))
  {
    var s := Sync(tools, file, locale, inventory, hash).value;
    SuccessIsValid(tools, file, locale, inventory, hash);
    ArtifactIdsDistinct(tools, file, locale, inventory, hash);
    var stored := PreviousArtifact(later, Some(s.file), locale);
    assert stored == s.artifact;
    forall k | 0 <= k < |inventory|
      ensures ReusableById(stored.entries, inventory, inventory[k].id) == Some(s.artifact.entries[k].translated)
    {
      StoredIsReusable(stored, inventory, k, k);
    }
    var pending := Pending(stored, inventory, hash, inventory);
    if pending != [] {
      PendingHolds(stored, inventory, hash, inventory, pending[0]);
    }
    assert pending == [];
    assert ArtifactFrom(stored, locale, inventory, hash, map[]) == s.artifact;
  }

  /** The translator answers only for the ids it was asked for. */
  ghost predicate AnswersOnlyPending(tools: Tools) {
    forall pending: seq<InventoryEntry>, id: string :: tools.translate(pending).Ok? && id in tools.translate(pending).value ==>
      exists e: InventoryEntry :: e in pending && e.id == id
  }

  /** After an inventory change under the same glossary, every entry that kept its id and source keeps its translation. */
  lemma UnchangedEntriesKeepTranslations(
    tools: Tools, file: Option<string>, locale: string, inventory: seq<InventoryEntry>, hash: string,
    later: Tools, changed: seq<InventoryEntry>, j: nat, k: nat)
    requires Sync(tools, file, locale, inventory, hash).Ok? && SameTools(tools, later) && RoundTrips(tools)
    requires AnswersOnlyPending(later)
    requires Sync(later, Some(Sync(tools, file, locale, inventory, hash).value.file), locale, changed, hash).Ok?
    requires j < |inventory| && k < |changed| && inventory[j].id == changed[k].id && inventory[j].source == changed[k].source
    ensures var s := Sync(tools, file, locale, inventory, hash).value;
            var s' := Sync(later, Some(s.file), locale, changed, hash).value;
            j < |s.artifact.entries| && k < |s'.artifact.entries|
            && s'.artifact.entries[k].translated == s.artifact.entries[j].translated
  {
    var s := Sync(tools, file, locale, inventory, hash).value;
    SuccessIsValid(tools, file, locale, inventory, hash);
    ArtifactIdsDistinct(tools, file, locale, inventory, hash);
    SuccessIsValid(later, Some(s.file), locale, changed, hash);
    ArtifactIdsDistinct(later, Some(s.file), locale, changed, hash);
    var stored := PreviousArtifact(later, Some(s.file), locale);
    assert stored == s.artifact;
    StoredIsReusable(stored, changed, k, j);
    var pending := Pending(stored, changed, hash, changed);
    forall e | e in pending ensures e.id != changed[k].id {
      PendingHolds(stored, changed, hash, changed, e);
    }
  }

  /** A changed glossary sends every entry to the translator. */
  lemma {:induction false} GlossaryChangeRetranslatesAll(previous: Artifact, inventory: seq<InventoryEntry>, hash: string, from: seq<InventoryEntry>)
    requires previous.glossaryHash != hash
    ensures Pending(previous, inventory, hash, from) == from
  {
    if from != [] {
      var init, last := from[..|from| - 1], from[|from| - 1];
      GlossaryChangeRetranslatesAll(previous, inventory, hash, init);
      assert Pending(previous, inventory, hash, from) == init + [last];
    }
  }

  // ----- where every text of the artifact comes from

  /** The stored entry that counts for an inventory entry: the last one with its id. */
  ghost predicate IsStoredAt(stored: seq<ArtifactEntry>, e: InventoryEntry, j: nat) {
    j < |stored| && stored[j].id == e.id && forall m :: j < m < |stored| ==> stored[m].id != e.id
  }

  /** It has the same source and a translation that is not blank. */
  ghost predicate IsReusableAt(stored: seq<ArtifactEntry>, e: InventoryEntry, j: nat) {
    IsStoredAt(stored, e, j) && stored[j].source == e.source && !IsBlank(stored[j].translated)
  }

  ghost predicate HasReusable(stored: seq<ArtifactEntry>, e: InventoryEntry) { exists j: nat :: IsReusableAt(stored, e, j) }

  lemma {:induction false} EntryByIdIsLast(entries: seq<ArtifactEntry>, e: InventoryEntry, j: nat)
    requires IsStoredAt(entries, e, j)
    ensures EntryById(entries, e.id) == Some(entries[j])
    decreases |entries|
  {
    if j < |entries| - 1 {
      EntryByIdIsLast(entries[..|entries| - 1], e, j);
    }
  }

  lemma {:induction false} LastEntry(entries: seq<ArtifactEntry>, e: InventoryEntry) returns (j: nat)
    requires EntryById(entries, e.id).Some?
    ensures IsStoredAt(entries, e, j)
  {
    j := |entries| - 1;
    if entries[j].id != e.id {
      j := LastEntry(entries[..|entries| - 1], e);
    }
  }

  lemma ReusableExactly(stored: seq<ArtifactEntry>, e: InventoryEntry)
    ensures ReusableFor(stored, e).Some? <==> HasReusable(stored, e)
    ensures forall j: nat :: IsReusableAt(stored, e, j) ==> ReusableFor(stored, e) == Some(stored[j].translated)
  {
    forall j: nat | IsReusableAt(stored, e, j) ensures ReusableFor(stored, e) == Some(stored[j].translated) {
      EntryByIdIsLast(stored, e, j);
    }
    if ReusableFor(stored, e).Some? {
      var j := LastEntry(stored, e);
      EntryByIdIsLast(stored, e, j);
      assert IsReusableAt(stored, e, j);
    }
  }

  /** The entries a sync sends to the translator: all under another glossary, else those without a reusable translation. */
  ghost predicate IsAsked(stored: Artifact, inventory: seq<InventoryEntry>, hash: string, asked: seq<InventoryEntry>) {
    forall e :: e in asked <==> e in inventory && (stored.glossaryHash != hash || !HasReusable(stored.entries, e))
  }

  lemma PendingIsAsked(stored: Artifact, inventory: seq<InventoryEntry>, hash: string)
    requires HaveDistinctIds(inventory)
    ensures IsAsked(stored, inventory, hash, Pending(stored, inventory, hash, inventory))
  {
    forall e ensures e in Pending(stored, inventory, hash, inventory) <==>
                       e in inventory && (stored.glossaryHash != hash || !HasReusable(stored.entries, e))
    {
      PendingHolds(stored, inventory, hash, inventory, e);
      if e in inventory {
        var k :| 0 <= k < |inventory| && inventory[k] == e;
        ReusableByIdAt(stored.entries, inventory, k);
        ReusableExactly(stored.entries, e);
      }
    }
  }

  /** A successful sync asked the translator for exactly the entries that need it, and every text it stores is the translator's
      answer for the id if there is one, else the stored translation that can be reused, else the source. */
  lemma SyncedTexts(tools: Tools, file: Option<string>, locale: string, inventory: seq<InventoryEntry>, hash: string)
    returns (asked: seq<InventoryEntry>)
    requires Sync(tools, file, locale, inventory, hash).Ok?
    ensures IsAsked(PreviousArtifact(tools, file, locale), inventory, hash, asked)
    ensures var s := Sync(tools, file, locale, inventory, hash).value;
            && (s.translatorCalled <==> asked != []) && (asked != [] ==> tools.translate(asked).Ok?)
            && (s.changed <==> s.file != (if file.Some? then file.value else ""))
            && |s.artifact.entries| == |inventory|
            && forall k :: 0 <= k < |inventory| ==> IsText(tools, PreviousArtifact(tools, file, locale).entries, asked, inventory[k],
                                                            s.artifact.entries[k].translated)
  {
    var stored := PreviousArtifact(tools, file, locale);
    asked := Pending(stored, inventory, hash, inventory);
    SuccessIsValid(tools, file, locale, inventory, hash);
    PendingIsAsked(stored, inventory, hash);
    var artifact := Sync(tools, file, locale, inventory, hash).value.artifact;
    forall k | 0 <= k < |inventory|
      ensures IsText(tools, stored.entries, asked, inventory[k], artifact.entries[k].translated)
    {
      ReusableByIdAt(stored.entries, inventory, k);
      ReusableExactly(stored.entries, inventory[k]);
    }
  }

  /** The text an entry gets, given what was asked. */
  ghost predicate IsText(tools: Tools, stored: seq<ArtifactEntry>, asked: seq<InventoryEntry>, e: InventoryEntry, text: string) {
    if asked != [] && tools.translate(asked).Ok? && e.id in tools.translate(asked).value
    then text == tools.translate(asked).value[e.id]
    else if HasReusable(stored, e) then exists j: nat :: IsReusableAt(stored, e, j) && text == stored[j].translated
    else text == e.source
  }

  /** After a glossary change the translator is asked for the whole inventory, and every entry it answers carries the new
      text, whatever was stored. */
  lemma GlossaryChangeTakesAnswers(
    tools: Tools, file: Option<string>, locale: string, inventory: seq<InventoryEntry>, hash: string, k: nat)
    requires Sync(tools, file, locale, inventory, hash).Ok? && PreviousArtifact(tools, file, locale).glossaryHash != hash
    requires k < |inventory|
    ensures tools.translate(inventory).Ok?
    ensures k < |Sync(tools, file, locale, inventory, hash).value.artifact.entries|
    ensures inventory[k].id in tools.translate(inventory).value ==>
              Sync(tools, file, locale, inventory, hash).value.artifact.entries[k].translated
              == tools.translate(inventory).value[inventory[k].id]
  {
    GlossaryChangeRetranslatesAll(PreviousArtifact(tools, file, locale), inventory, hash, inventory);
    SyncTakes(tools, file, locale, inventory, hash, inventory);
  }

  lemma SyncTakes(tools: Tools, file: Option<string>, locale: string, inventory: seq<InventoryEntry>, hash: string,
                  pending: seq<InventoryEntry>)
    requires Sync(tools, file, locale, inventory, hash).Ok? && pending != []
    requires pending == Pending(PreviousArtifact(tools, file, locale), inventory, hash, inventory)
    ensures tools.translate(pending).Ok?
    ensures var entries := Sync(tools, file, locale, inventory, hash).value.artifact.entries;
            |entries| == |inventory| && forall k :: 0 <= k < |inventory| && inventory[k].id in tools.translate(pending).value ==>
              entries[k].translated == tools.translate(pending).value[inventory[k].id]
  {
  }

  /** With distinct ids, a sync reports a failed translator exactly when what it asks for fails. */
  lemma TranslatorFailsExactly(
    tools: Tools, file: Option<string>, locale: string, inventory: seq<InventoryEntry>, hash: string, message: string)
    returns (asked: seq<InventoryEntry>)
    requires HaveDistinctIds(inventory)
    ensures IsAsked(PreviousArtifact(tools, file, locale), inventory, hash, asked)
    ensures Sync(tools, file, locale, inventory, hash) == Err(TranslatorFailed(message)) <==>
              asked != [] && tools.translate(asked) == Err(message)
  {
    asked := Pending(PreviousArtifact(tools, file, locale), inventory, hash, inventory);
    PendingIsAsked(PreviousArtifact(tools, file, locale), inventory, hash);
  }

  // ----- when a sync succeeds

  ghost predicate HaveDistinctIds(inventory: seq<InventoryEntry>) {
    forall j, k :: 0 <= j < k < |inventory| ==> inventory[j].id != inventory[k].id
  }

  /** The translator never fails, answers only what it was asked, and answers every id that was asked once with a text that
      is not blank and has the structure of its source. */
  ghost predicate IsGoodTranslator(tools: Tools) {
    && AnswersOnlyPending(tools)
    && forall pending: seq<InventoryEntry> :: tools.translate(pending).Ok? && forall e :: e in pending ==>
         (forall f :: f in pending && f.id == e.id ==> f == e) ==>
           var answers := tools.translate(pending).value;
           e.id in answers && !IsBlank(answers[e.id]) && tools.signature(answers[e.id]) == tools.signature(e.source)
  }

  /** Every stored translation that could be reused has the structure of its source. */
  ghost predicate IsSound(signature: string -> string, artifact: Artifact) {
    forall k :: 0 <= k < |artifact.entries| && !IsBlank(artifact.entries[k].translated) ==>
      signature(artifact.entries[k].source) == signature(artifact.entries[k].translated)
  }

  lemma {:induction false} EntryByIdIn(entries: seq<ArtifactEntry>, id: string)
    requires EntryById(entries, id).Some?
    ensures exists k :: 0 <= k < |entries| && entries[k] == EntryById(entries, id).value
  {
    if entries[|entries| - 1].id != id {
      EntryByIdIn(entries[..|entries| - 1], id);
      var k :| 0 <= k < |entries| - 1 && entries[..|entries| - 1][k] == EntryById(entries[..|entries| - 1], id).value;
      assert entries[k] == EntryById(entries, id).value;
    }
  }

  lemma ReusedIsSound(signature: string -> string, previous: Artifact, entry: InventoryEntry)
    requires IsSound(signature, previous) && ReusableFor(previous.entries, entry).Some?
    ensures var text := ReusableFor(previous.entries, entry).value;
            !IsBlank(text) && signature(entry.source) == signature(text)
  {
    EntryByIdIn(previous.entries, entry.id);
  }

  function Answers(tools: Tools, pending: seq<InventoryEntry>): Translations {
    if pending != [] && tools.translate(pending).Ok? then tools.translate(pending).value else map[]
  }

  lemma SoundIsValid(
    signature: string -> string, previous: Artifact, locale: string, inventory: seq<InventoryEntry>, hash: string, answers: Translations)
    requires var artifact := ArtifactFrom(previous, locale, inventory, hash, answers);
             forall k :: 0 <= k < |inventory| ==>
               !IsBlank(artifact.entries[k].translated) && signature(inventory[k].source) == signature(artifact.entries[k].translated)
    ensures IsValid(signature, locale, inventory, hash, Raw(ArtifactFrom(previous, locale, inventory, hash, answers)))
        <==> HaveDistinctIds(inventory)
  {
    var artifact := ArtifactFrom(previous, locale, inventory, hash, answers);
    var raw := Raw(artifact).entries.value;
    assert forall k :: 0 <= k < |inventory| ==>
      raw[k] == Fields(inventory[k].id, inventory[k].source, artifact.entries[k].translated);
  }

  /** What the artifact gets for an entry is not blank and has the structure of the source. */
  lemma ChosenIsSound(tools: Tools, previous: Artifact, locale: string, inventory: seq<InventoryEntry>, hash: string, k: nat)
    requires IsGoodTranslator(tools) && IsSound(tools.signature, previous) && HaveDistinctIds(inventory) && k < |inventory|
    ensures var answers := Answers(tools, Pending(previous, inventory, hash, inventory));
            var text := ArtifactFrom(previous, locale, inventory, hash, answers).entries[k].translated;
            !IsBlank(text) && tools.signature(inventory[k].source) == tools.signature(text)
  {
    var pending, e := Pending(previous, inventory, hash, inventory), inventory[k];
    PendingHolds(previous, inventory, hash, inventory, e);
    ReusableByIdAt(previous.entries, inventory, k);
    forall f | f in pending && f.id == e.id ensures f == e {
      PendingHolds(previous, inventory, hash, inventory, f);
    }
    if e !in pending {
      ReusedIsSound(tools.signature, previous, e);
    }
  }

  /** With a good translator and a sound stored artifact a sync succeeds exactly when the inventory's ids are distinct. */
  lemma SyncSucceedsExactly(tools: Tools, file: Option<string>, locale: string, inventory: seq<InventoryEntry>, hash: string)
    requires IsGoodTranslator(tools) && IsSound(tools.signature, PreviousArtifact(tools, file, locale))
    ensures Sync(tools, file, locale, inventory, hash).Ok? <==> HaveDistinctIds(inventory)
  {
    var previous := PreviousArtifact(tools, file, locale);
    var answers := Answers(tools, Pending(previous, inventory, hash, inventory));
    if HaveDistinctIds(inventory) {
      var artifact := ArtifactFrom(previous, locale, inventory, hash, answers);
      forall k | 0 <= k < |inventory|
        ensures !IsBlank(artifact.entries[k].translated)
             && tools.signature(inventory[k].source) == tools.signature(artifact.entries[k].translated)
      {
        ChosenIsSound(tools, previous, locale, inventory, hash, k);
      }
      SoundIsValid(tools.signature, previous, locale, inventory, hash, answers);
    }
    TranslatorAnswers(tools, Pending(previous, inventory, hash, inventory));
    SyncByAnswers(tools, file, locale, inventory, hash);
  }

  lemma TranslatorAnswers(tools: Tools, pending: seq<InventoryEntry>)
    requires IsGoodTranslator(tools)
    ensures tools.translate(pending).Ok?
  {
  }

  lemma SyncByAnswers(tools: Tools, file: Option<string>, locale: string, inventory: seq<InventoryEntry>, hash: string)
    requires tools.translate(Pending(PreviousArtifact(tools, file, locale), inventory, hash, inventory)).Ok?
    ensures var previous := PreviousArtifact(tools, file, locale);
            var answers := Answers(tools, Pending(previous, inventory, hash, inventory));
            Sync(tools, file, locale, inventory, hash).Ok? <==>
              IsValid(tools.signature, locale, inventory, hash, Raw(ArtifactFrom(previous, locale, inventory, hash, answers)))
  {
  }

  /** What a successful sync stores is sound, so with a good translator a later sync of any inventory, under any glossary,
      succeeds exactly when that inventory's ids are distinct. */
  lemma LaterSyncSucceedsExactly(
    tools: Tools, file: Option<string>, locale: string, inventory: seq<InventoryEntry>, hash: string,
    later: Tools, changed: seq<InventoryEntry>, laterHash: string)
    requires Sync(tools, file, locale, inventory, hash).Ok? && SameTools(tools, later) && RoundTrips(tools)
    requires IsGoodTranslator(later)
    ensures Sync(later, Some(Sync(tools, file, locale, inventory, hash).value.file), locale, changed, laterHash).Ok?
        <==> HaveDistinctIds(changed)
  {
    var s := Sync(tools, file, locale, inventory, hash).value;
    SuccessIsSound(tools, file, locale, inventory, hash);
    assert PreviousArtifact(later, Some(s.file), locale) == s.artifact;
    SyncSucceedsExactly(later, Some(s.file), locale, changed, laterHash);
  }

  lemma SuccessIsSound(tools: Tools, file: Option<string>, locale: string, inventory: seq<InventoryEntry>, hash: string)
    requires Sync(tools, file, locale, inventory, hash).Ok?
    ensures IsSound(tools.signature, Sync(tools, file, locale, inventory, hash).value.artifact)
    ensures Sync(tools, file, locale, inventory, hash).value.file == tools.render(Sync(tools, file, locale, inventory, hash).value.artifact)
  {
    SuccessIsValid(tools, file, locale, inventory, hash);
    var artifact := Sync(tools, file, locale, inventory, hash).value.artifact;
    forall k | 0 <= k < |artifact.entries|
      ensures tools.signature(artifact.entries[k].source) == tools.signature(artifact.entries[k].translated)
    {
      assert Raw(artifact).entries.value[k].translated == artifact.entries[k].translated;
    }
  }
}
