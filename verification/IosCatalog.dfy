/** Building the iOS string catalog from the inventory, the translations and the shipped catalog. */
module IosCatalog {
  import opened Options
  import opened Sorting
  import opened Text
  import TranslationChoice

  type Source = string
  type Locale = string

  datatype Entry = Entry(id: string, surface: string, path: string, kind: string, source: string)

  datatype TranslatedEntry = TranslatedEntry(id: string, source: string, translated: string)

  datatype Artifact = Artifact(locale: Locale, entries: seq<TranslatedEntry>)

  /** What a build reads besides the shipped catalog; which entries belong to the catalog and how a text is spelled
      in it are arbitrary. */
  datatype Inputs = Inputs(
    entries: seq<Entry>,
    artifacts: seq<Artifact>,
    locales: seq<Locale>,
    isCatalogEntry: Entry -> bool,
    catalogValue: string -> string)

  datatype Unit = Unit(state: Option<string>, value: Option<string>)

  type Strings = map<Source, map<Locale, Unit>>

  datatype Contradiction = Contradiction(source: Source, locale: Locale, translations: seq<string>)

  datatype Build = Build(strings: Strings, contradictions: seq<Contradiction>)

  // ----- sources and candidates

  function Distinct(values: seq<string>): seq<string> {
    if values == [] then []
    else
      var rest := Distinct(values[..|values| - 1]);
      if values[|values| - 1] in rest then rest else rest + [values[|values| - 1]]
  }

  /** `[...new Set(values)].toSorted(compareCodeUnits)` */
  function SortedDistinct(values: seq<string>): seq<string> { Sort(Distinct(values), StringLe) }

  function CatalogSources(inputs: Inputs, entries: seq<Entry>): seq<Source> {
    if entries == [] then []
    else
      CatalogSources(inputs, entries[..|entries| - 1])
      + (if inputs.isCatalogEntry(entries[|entries| - 1]) then [inputs.catalogValue(entries[|entries| - 1].source)] else [])
  }

  function Sources(inputs: Inputs): seq<Source> { SortedDistinct(CatalogSources(inputs, inputs.entries)) }

  /** The ids of the catalog entries that share a source. */
  predicate HasId(inputs: Inputs, source: Source, id: string) {
    exists k :: 0 <= k < |inputs.entries| && inputs.isCatalogEntry(inputs.entries[k])
                && inputs.catalogValue(inputs.entries[k].source) == source && inputs.entries[k].id == id
  }

  /** The last artifact of a locale wins. */
  function ArtifactOf(artifacts: seq<Artifact>, locale: Locale): Option<Artifact> {
    if artifacts == [] then None
    else if artifacts[|artifacts| - 1].locale == locale then Some(artifacts[|artifacts| - 1])
    else ArtifactOf(artifacts[..|artifacts| - 1], locale)
  }

  function CandidatesIn(inputs: Inputs, source: Source, entries: seq<TranslatedEntry>): seq<string> {
    if entries == [] then []
    else
      var last := entries[|entries| - 1];
      CandidatesIn(inputs, source, entries[..|entries| - 1])
      + (if inputs.catalogValue(last.source) == source && HasId(inputs, source, last.id)
         then [inputs.catalogValue(last.translated)] else [])
  }

  function Candidates(inputs: Inputs, source: Source, locale: Locale): seq<string> {
    var artifact := ArtifactOf(inputs.artifacts, locale);
    if artifact.None? then [] else CandidatesIn(inputs, source, artifact.value.entries)
  }

  // ----- units

  function ExistingUnit(existing: Strings, source: Source, locale: Locale): Option<Unit> {
    if source in existing && locale in existing[source] then Some(existing[source][locale]) else None
  }

  /** A shipped unit that is kept: marked translated and not empty. */
  predicate IsShipped(unit: Option<Unit>) {
    unit.Some? && unit.value.value.Some? && unit.value.value.value != "" && unit.value.state == Some("translated")
  }

  function UnitFor(inputs: Inputs, existing: Option<Unit>, source: Source, locale: Locale): Unit {
    if IsShipped(existing) then existing.value
    else if locale == "en" then Unit(Some("translated"), Some(source))
    else
      var value := TranslationChoice.AppleChoice(source, Candidates(inputs, source, locale));
      Unit(Some(if value == source then "new" else "translated"), Some(value))
  }

  function UnitsFor(inputs: Inputs, existing: Strings, source: Source, locales: seq<Locale>): map<Locale, Unit> {
    map locale | locale in locales :: UnitFor(inputs, ExistingUnit(existing, source, locale), source, locale)
  }

  function Localizations(inputs: Inputs, existing: Strings, source: Source): map<Locale, Unit> {
    UnitsFor(inputs, existing, source, inputs.locales)
  }

  function BuiltStrings(inputs: Inputs, existing: Strings): Strings {
    map source | source in Sources(inputs) :: Localizations(inputs, existing, source)
  }

  // ----- contradictions

  function LocaleContradictions(inputs: Inputs, source: Source, locales: seq<Locale>): seq<Contradiction> {
    if locales == [] then []
    else
      var distinct := SortedDistinct(Candidates(inputs, source, locales[|locales| - 1]));
      LocaleContradictions(inputs, source, locales[..|locales| - 1])
      + (if |distinct| > 1 then [Contradiction(source, locales[|locales| - 1], distinct)] else [])
  }

  function AllContradictions(inputs: Inputs, sources: seq<Source>): seq<Contradiction> {
    if sources == [] then []
    else AllContradictions(inputs, sources[..|sources| - 1])
         + LocaleContradictions(inputs, sources[|sources| - 1], inputs.locales)
  }

  predicate ContradictionLe(a: Contradiction, b: Contradiction) {
    if a.source == b.source then StringLe(a.locale, b.locale) else StringLe(a.source, b.source)
  }

  function BuildCatalog(inputs: Inputs, existing: Strings): Build {
    Build(BuiltStrings(inputs, existing), Sort(AllContradictions(inputs, Sources(inputs)), ContradictionLe))
  }

  // ----- theorems

  /** Building a unit again from the unit that was built changes nothing. */
  lemma UnitIsFixpoint(inputs: Inputs, existing: Option<Unit>, source: Source, locale: Locale)
    ensures UnitFor(inputs, Some(UnitFor(inputs, existing, source, locale)), source, locale)
         == UnitFor(inputs, existing, source, locale)
  {
  }

  lemma LocalizationsAreFixpoint(inputs: Inputs, existing: Strings, source: Source)
    requires source in Sources(inputs)
    ensures Localizations(inputs, BuiltStrings(inputs, existing), source) == Localizations(inputs, existing, source)
  {
    var built := BuiltStrings(inputs, existing);
    assert built[source] == Localizations(inputs, existing, source);
    forall locale | locale in inputs.locales
      ensures UnitFor(inputs, ExistingUnit(built, source, locale), source, locale)
           == UnitFor(inputs, ExistingUnit(existing, source, locale), source, locale)
    {
      UnitIsFixpoint(inputs, ExistingUnit(existing, source, locale), source, locale);
    }
  }

  /** Rebuilding the catalog from its own output, with the same inputs, returns the same catalog and contradictions. */
  lemma RebuildIsFixpoint(inputs: Inputs, existing: Strings)
    ensures BuildCatalog(inputs, BuildCatalog(inputs, existing).strings) == BuildCatalog(inputs, existing)
  {
    var built := BuiltStrings(inputs, existing);
    forall source | source in Sources(inputs)
      ensures Localizations(inputs, built, source) == Localizations(inputs, existing, source)
    {
      LocalizationsAreFixpoint(inputs, existing, source);
    }
    assert BuiltStrings(inputs, built) == built;
  }

  lemma {:induction false} DistinctHolds(values: seq<string>)
    ensures forall x :: x in Distinct(values) <==> x in values
    ensures forall j, k :: 0 <= j < k < |Distinct(values)| ==> Distinct(values)[j] != Distinct(values)[k]
  {
    if values != [] {
      var init, last := values[..|values| - 1], values[|values| - 1];
      DistinctHolds(init);
      assert values == init + [last];
    }
  }

  lemma SortedDistinctHolds(values: seq<string>)
    ensures forall x :: x in SortedDistinct(values) <==> x in values
    ensures |SortedDistinct(values)| == |Distinct(values)|
  {
    DistinctHolds(values);
    SortPermutes(Distinct(values), StringLe);
    SameMembers(SortedDistinct(values), Distinct(values));
  }

  /** The catalog holds exactly the inventory's sources, each with exactly the required locales. */
  lemma CatalogCoversSources(inputs: Inputs, existing: Strings)
    ensures forall source :: source in BuildCatalog(inputs, existing).strings <==>
              source in CatalogSources(inputs, inputs.entries)
    ensures forall source :: source in BuildCatalog(inputs, existing).strings ==>
              forall locale :: locale in BuildCatalog(inputs, existing).strings[source] <==> locale in inputs.locales
  {
    SortedDistinctHolds(CatalogSources(inputs, inputs.entries));
  }

  /** The shipped catalog has a unit there that is marked translated and not empty. */
  predicate HasShipped(existing: Strings, source: Source, locale: Locale) {
    && source in existing && locale in existing[source] && existing[source][locale].state == Some("translated")
    && existing[source][locale].value.Some? && existing[source][locale].value.value != ""
  }

  /** Every shipped unit of a retained source is kept unchanged, whatever the translations now say. */
  lemma ShippedUnitsAreKept(inputs: Inputs, existing: Strings, source: Source, locale: Locale)
    requires source in CatalogSources(inputs, inputs.entries) && locale in inputs.locales
    requires HasShipped(existing, source, locale)
    ensures source in BuildCatalog(inputs, existing).strings && locale in BuildCatalog(inputs, existing).strings[source]
    ensures BuildCatalog(inputs, existing).strings[source][locale] == existing[source][locale]
  {
    SortedDistinctHolds(CatalogSources(inputs, inputs.entries));
  }

  /** A unit that was not shipped is marked new exactly when no candidate differs from the source. */
  lemma NewMeansUntranslated(inputs: Inputs, existing: Strings, source: Source, locale: Locale)
    requires source in CatalogSources(inputs, inputs.entries) && locale in inputs.locales && locale != "en"
    requires !HasShipped(existing, source, locale)
    ensures source in BuildCatalog(inputs, existing).strings && locale in BuildCatalog(inputs, existing).strings[source]
    ensures var unit := BuildCatalog(inputs, existing).strings[source][locale];
            && (unit.state == Some("new") <==> forall x :: x in Candidates(inputs, source, locale) ==> x == source)
            && (unit.state == Some("new") ==> unit.value == Some(source))
            && (unit.state != Some("new") ==> unit.value.Some? && unit.value.value in Candidates(inputs, source, locale))
  {
    SortedDistinctHolds(CatalogSources(inputs, inputs.entries));
    var candidates := Candidates(inputs, source, locale);
    if candidates != [] {
      TranslationChoice.SourceOnlyAsLastResort(source, candidates);
    } else {
      assert Sort(TranslationChoice.Tallied([]), (a: (string, nat), b: (string, nat)) => TranslationChoice.AppleLe(source, a, b)) == [];
    }
  }

  /** The contradiction the candidates of a source in its locale give rise to. */
  predicate IsFound(inputs: Inputs, c: Contradiction) {
    c.translations == SortedDistinct(Candidates(inputs, c.source, c.locale)) && |c.translations| > 1
  }

  lemma LastContradiction(inputs: Inputs, source: Source, locale: Locale, c: Contradiction)
    ensures var distinct := SortedDistinct(Candidates(inputs, source, locale));
            c in (if |distinct| > 1 then [Contradiction(source, locale, distinct)] else []) <==>
              c.source == source && c.locale == locale && IsFound(inputs, c)
  {
  }

  lemma {:induction false} LocaleContradictionsHold(inputs: Inputs, source: Source, locales: seq<Locale>, c: Contradiction)
    ensures c in LocaleContradictions(inputs, source, locales) <==> c.source == source && c.locale in locales && IsFound(inputs, c)
  {
    if locales != [] {
      var init, last := locales[..|locales| - 1], locales[|locales| - 1];
      LocaleContradictionsHold(inputs, source, init, c);
      var distinct := SortedDistinct(Candidates(inputs, source, last));
      var found := if |distinct| > 1 then [Contradiction(source, last, distinct)] else [];
      LastContradiction(inputs, source, last, c);
      assert LocaleContradictions(inputs, source, locales) == LocaleContradictions(inputs, source, init) + found;
      InAppend(LocaleContradictions(inputs, source, init), found, c);
      assert locales == init + [last];
      InAppend(init, [last], c.locale);
    }
  }

  lemma InAppend<T>(a: seq<T>, b: seq<T>, x: T)
    ensures x in a + b <==> x in a || x in b
  {
  }

  lemma {:induction false} ContradictionsOfSources(inputs: Inputs, sources: seq<Source>, c: Contradiction, isFound: bool)
    requires forall source :: source in sources ==>
               (c in LocaleContradictions(inputs, source, inputs.locales) <==> c.source == source && c.locale in inputs.locales && isFound)
    ensures c in AllContradictions(inputs, sources) <==> c.source in sources && c.locale in inputs.locales && isFound
  {
    if sources != [] {
      var init, last := sources[..|sources| - 1], sources[|sources| - 1];
      assert sources == init + [last] && last in sources;
      ContradictionsOfSources(inputs, init, c, isFound);
      InAppend(AllContradictions(inputs, init), LocaleContradictions(inputs, last, inputs.locales), c);
      InAppend(init, [last], c.source);
    }
  }

  lemma {:induction false} AllContradictionsHold(inputs: Inputs, sources: seq<Source>, c: Contradiction)
    ensures c in AllContradictions(inputs, sources) <==> c.source in sources && c.locale in inputs.locales && IsFound(inputs, c)
  {
    forall source | source in sources
      ensures c in LocaleContradictions(inputs, source, inputs.locales) <==>
                c.source == source && c.locale in inputs.locales && IsFound(inputs, c)
    {
      LocaleContradictionsHold(inputs, source, inputs.locales, c);
    }
    ContradictionsOfSources(inputs, sources, c, IsFound(inputs, c));
  }

  lemma TwoDistinct(values: seq<string>)
    ensures |SortedDistinct(values)| > 1 <==> exists x, y :: x in values && y in values && x != y
  {
    SortedDistinctHolds(values);
    DistinctHolds(values);
    var d := Distinct(values);
    if |d| > 1 {
      assert d[0] in d && d[1] in d && d[0] != d[1];
    } else if x, y :| x in values && y in values && x != y {
      assert x in d && y in d;
    }
  }

  /** A contradiction is reported for a source and locale exactly when two of the candidates differ, and it lists
      exactly the candidates. */
  lemma ContradictionsAreExact(inputs: Inputs, existing: Strings, source: Source, locale: Locale)
    ensures var candidates := Candidates(inputs, source, locale);
            (exists c :: c in BuildCatalog(inputs, existing).contradictions && c.source == source && c.locale == locale)
            <==> source in Sources(inputs) && locale in inputs.locales
                 && exists x, y :: x in candidates && y in candidates && x != y
    ensures forall c :: c in BuildCatalog(inputs, existing).contradictions ==>
              forall x :: x in c.translations <==> x in Candidates(inputs, c.source, c.locale)
  {
    var all := AllContradictions(inputs, Sources(inputs));
    SortPermutes(all, ContradictionLe);
    SameMembers(Sort(all, ContradictionLe), all);
    var candidates := Candidates(inputs, source, locale);
    TwoDistinct(candidates);
    forall c | c in all
      ensures c.source == source && c.locale == locale ==>
                source in Sources(inputs) && locale in inputs.locales && |SortedDistinct(candidates)| > 1
      ensures forall x :: x in c.translations <==> x in Candidates(inputs, c.source, c.locale)
    {
      AllContradictionsHold(inputs, Sources(inputs), c);
      SortedDistinctHolds(Candidates(inputs, c.source, c.locale));
    }
    var c := Contradiction(source, locale, SortedDistinct(candidates));
    AllContradictionsHold(inputs, Sources(inputs), c);
  }

  /** An English unit that was not shipped is the source itself, marked translated. */
  lemma EnglishIsTheSource(inputs: Inputs, existing: Strings, source: Source)
    requires source in CatalogSources(inputs, inputs.entries) && "en" in inputs.locales
    requires !HasShipped(existing, source, "en")
    ensures source in BuildCatalog(inputs, existing).strings && "en" in BuildCatalog(inputs, existing).strings[source]
    ensures BuildCatalog(inputs, existing).strings[source]["en"] == Unit(Some("translated"), Some(source))
  {
    SortedDistinctHolds(CatalogSources(inputs, inputs.entries));
  }

  lemma StringLeIsOrder()
    ensures IsTotal(StringLe) && IsTransitive(StringLe)
  {
    forall a, b ensures StringLe(a, b) || StringLe(b, a) { StringLeTotal(a, b); }
    forall a, b, c | StringLe(a, b) && StringLe(b, c) ensures StringLe(a, c) { StringLeTransitive(a, b, c); }
  }

  lemma ContradictionLeIsOrder()
    ensures IsTotal(ContradictionLe) && IsTransitive(ContradictionLe)
  {
    forall a, b ensures ContradictionLe(a, b) || ContradictionLe(b, a) {
      StringLeTotal(a.source, b.source);
      StringLeTotal(a.locale, b.locale);
    }
    forall a, b, c | ContradictionLe(a, b) && ContradictionLe(b, c) ensures ContradictionLe(a, c) {
      ContradictionLeTransitive(a, b, c);
    }
  }

  lemma ContradictionLeTransitive(a: Contradiction, b: Contradiction, c: Contradiction)
    requires ContradictionLe(a, b) && ContradictionLe(b, c)
    ensures ContradictionLe(a, c)
  {
    if a.source == b.source == c.source {
      StringLeTransitive(a.locale, b.locale, c.locale);
    } else if a.source != b.source && b.source != c.source {
      StringLeTransitive(a.source, b.source, c.source);
      if a.source == c.source {
        StringLeAntisymmetric(a.source, b.source);
      }
    }
  }

  /** The contradictions come by source and then by locale. */
  lemma ContradictionsAreOrdered(inputs: Inputs, existing: Strings, j: nat, k: nat)
    requires j < k < |BuildCatalog(inputs, existing).contradictions|
    ensures var a, b := BuildCatalog(inputs, existing).contradictions[j], BuildCatalog(inputs, existing).contradictions[k];
            StringLe(a.source, b.source) && (a.source == b.source ==> StringLe(a.locale, b.locale))
  {
    ContradictionLeIsOrder();
    SortOrders(AllContradictions(inputs, Sources(inputs)), ContradictionLe);
    StringLeTotal(BuildCatalog(inputs, existing).contradictions[j].source, BuildCatalog(inputs, existing).contradictions[j].source);
  }

  /** Each lists its translations once and in order. */
  lemma TranslationsAreOrdered(values: seq<string>)
    ensures IsOrdered(SortedDistinct(values), StringLe)
    ensures forall x :: multiset(SortedDistinct(values))[x] <= 1
  {
    StringLeIsOrder();
    SortOrders(Distinct(values), StringLe);
    SortPermutes(Distinct(values), StringLe);
    DistinctHolds(values);
    forall x ensures multiset(Distinct(values))[x] <= 1 { OnceAtMost(Distinct(values), x); }
  }

  lemma {:induction false} OnceAtMost(values: seq<string>, x: string)
    requires forall j, k :: 0 <= j < k < |values| ==> values[j] != values[k]
    ensures multiset(values)[x] <= 1
  {
    if values != [] {
      var init, last := values[..|values| - 1], values[|values| - 1];
      OnceAtMost(init, x);
      assert values == init + [last] && last !in init;
    }
  }

  // ----- where the candidates come from

  /** The artifact that counts for a locale: the last one of it. */
  ghost predicate IsArtifactOf(artifacts: seq<Artifact>, locale: Locale, a: nat) {
    a < |artifacts| && artifacts[a].locale == locale && forall b :: a < b < |artifacts| ==> artifacts[b].locale != locale
  }

  lemma {:induction false} ArtifactOfIsLast(artifacts: seq<Artifact>, locale: Locale)
    ensures ArtifactOf(artifacts, locale).None? <==> forall a :: 0 <= a < |artifacts| ==> artifacts[a].locale != locale
    ensures ArtifactOf(artifacts, locale).Some? ==>
              exists a: nat :: IsArtifactOf(artifacts, locale, a) && ArtifactOf(artifacts, locale) == Some(artifacts[a])
  {
    if artifacts != [] {
      var n := |artifacts| - 1;
      if artifacts[n].locale == locale {
        assert IsArtifactOf(artifacts, locale, n);
      } else {
        ArtifactOfIsLast(artifacts[..n], locale);
        if ArtifactOf(artifacts, locale).Some? {
          var a: nat :| IsArtifactOf(artifacts[..n], locale, a) && ArtifactOf(artifacts[..n], locale) == Some(artifacts[..n][a]);
          assert IsArtifactOf(artifacts, locale, a) && artifacts[..n][a] == artifacts[a];
        }
      }
    }
  }

  /** The entry translates the source to this text, under the id of a catalog entry with that source. */
  ghost predicate IsOffer(inputs: Inputs, source: Source, entry: TranslatedEntry, text: string) {
    && inputs.catalogValue(entry.source) == source && inputs.catalogValue(entry.translated) == text
    && exists e :: e in inputs.entries && inputs.isCatalogEntry(e) && inputs.catalogValue(e.source) == source && e.id == entry.id
  }

  /** What the candidates are collected by. */
  predicate IsListed(inputs: Inputs, source: Source, entry: TranslatedEntry) {
    inputs.catalogValue(entry.source) == source && HasId(inputs, source, entry.id)
  }

  /** The positions of the entries that offer a text. */
  function Offers(inputs: Inputs, source: Source, entries: seq<TranslatedEntry>, text: string): set<nat> {
    set k: nat | k < |entries| && IsListed(inputs, source, entries[k]) && inputs.catalogValue(entries[k].translated) == text
  }

  lemma OffersSnoc(inputs: Inputs, source: Source, init: seq<TranslatedEntry>, last: TranslatedEntry, text: string)
    ensures |init| !in Offers(inputs, source, init, text)
    ensures Offers(inputs, source, init + [last], text)
         == Offers(inputs, source, init, text)
            + (if IsListed(inputs, source, last) && inputs.catalogValue(last.translated) == text then {|init|} else {})
  {
  }

  lemma CandidatesSnoc(inputs: Inputs, source: Source, init: seq<TranslatedEntry>, last: TranslatedEntry)
    ensures CandidatesIn(inputs, source, init + [last])
         == CandidatesIn(inputs, source, init)
            + (if IsListed(inputs, source, last) then [inputs.catalogValue(last.translated)] else [])
  {
    assert (init + [last])[..|init|] == init;
  }

  lemma OneMoreCounted(inputs: Inputs, source: Source, init: seq<TranslatedEntry>, last: TranslatedEntry, text: string)
    requires multiset(CandidatesIn(inputs, source, init))[text] == |Offers(inputs, source, init, text)|
    ensures multiset(CandidatesIn(inputs, source, init + [last]))[text] == |Offers(inputs, source, init + [last], text)|
  {
    OffersSnoc(inputs, source, init, last, text);
    CandidatesSnoc(inputs, source, init, last);
  }

  lemma {:induction false} CandidatesAreCounted(inputs: Inputs, source: Source, entries: seq<TranslatedEntry>, text: string)
    ensures multiset(CandidatesIn(inputs, source, entries))[text] == |Offers(inputs, source, entries, text)|
  {
    if entries == [] {
      assert Offers(inputs, source, entries, text) == {};
    } else {
      var init, last := entries[..|entries| - 1], entries[|entries| - 1];
      CandidatesAreCounted(inputs, source, init, text);
      assert entries == init + [last];
      OneMoreCounted(inputs, source, init, last, text);
    }
  }

  lemma OffersAreOffers(inputs: Inputs, source: Source, entries: seq<TranslatedEntry>, text: string, k: nat)
    ensures k in Offers(inputs, source, entries, text) <==> k < |entries| && IsOffer(inputs, source, entries[k], text)
  {
    if k < |entries| {
      var id := entries[k].id;
      if HasId(inputs, source, id) {
        var m :| 0 <= m < |inputs.entries| && inputs.isCatalogEntry(inputs.entries[m])
                 && inputs.catalogValue(inputs.entries[m].source) == source && inputs.entries[m].id == id;
        assert inputs.entries[m] in inputs.entries;
      }
    }
  }

  /** The candidates of a source in a locale are exactly the texts that the locale's own artifact offers for it, each as often as
      it is offered. */
  lemma CandidatesAreOffers(inputs: Inputs, source: Source, locale: Locale, text: string)
    ensures (forall a :: 0 <= a < |inputs.artifacts| ==> inputs.artifacts[a].locale != locale) ==> Candidates(inputs, source, locale) == []
    ensures (exists a :: 0 <= a < |inputs.artifacts| && inputs.artifacts[a].locale == locale) ==>
              exists a: nat :: IsArtifactOf(inputs.artifacts, locale, a) &&
                multiset(Candidates(inputs, source, locale))[text] == |Offers(inputs, source, inputs.artifacts[a].entries, text)|
  {
    ArtifactOfIsLast(inputs.artifacts, locale);
    if ArtifactOf(inputs.artifacts, locale).Some? {
      var a: nat :| IsArtifactOf(inputs.artifacts, locale, a) && ArtifactOf(inputs.artifacts, locale) == Some(inputs.artifacts[a]);
      CandidatesAreCounted(inputs, source, inputs.artifacts[a].entries, text);
    }
  }

  /** A unit that was not shipped and is marked translated has a text that an entry of the locale's artifact offers for the
      source; it is one of those offered most often. */
  lemma TranslatedUnitIsOffered(inputs: Inputs, existing: Strings, source: Source, locale: Locale) returns (a: nat, k: nat)
    requires locale != "en" && !HasShipped(existing, source, locale)
    requires var strings := BuildCatalog(inputs, existing).strings;
             source in strings && locale in strings[source] && strings[source][locale].state != Some("new")
    ensures IsArtifactOf(inputs.artifacts, locale, a) && k < |inputs.artifacts[a].entries|
    ensures var unit := BuildCatalog(inputs, existing).strings[source][locale];
            && unit.state == Some("translated") && unit.value.Some?
            && IsOffer(inputs, source, inputs.artifacts[a].entries[k], unit.value.value)
            && TranslationChoice.IsMostFrequent(source, Candidates(inputs, source, locale), unit.value.value)
  {
    CatalogCoversSources(inputs, existing);
    NewMeansUntranslated(inputs, existing, source, locale);
    var candidates := Candidates(inputs, source, locale);
    TranslationChoice.ChoiceIsMostFrequent(source, candidates);
    var text := TranslationChoice.AppleChoice(source, candidates);
    ArtifactOfIsLast(inputs.artifacts, locale);
    a :| IsArtifactOf(inputs.artifacts, locale, a) && ArtifactOf(inputs.artifacts, locale) == Some(inputs.artifacts[a]);
    k := SomeOffer(inputs, source, inputs.artifacts[a].entries, text);
  }

  lemma SomeOffer(inputs: Inputs, source: Source, entries: seq<TranslatedEntry>, text: string) returns (k: nat)
    requires text in CandidatesIn(inputs, source, entries)
    ensures k < |entries| && IsOffer(inputs, source, entries[k], text)
  {
    CandidatesAreCounted(inputs, source, entries, text);
    assert text in multiset(CandidatesIn(inputs, source, entries));
    k :| k in Offers(inputs, source, entries, text);
    OffersAreOffers(inputs, source, entries, text, k);
  }

  /** The catalog's sources are exactly the spellings of its entries. */
  lemma {:induction false} SourcesAreEntries(inputs: Inputs, entries: seq<Entry>, source: Source)
    ensures source in CatalogSources(inputs, entries) <==>
              exists e :: e in entries && inputs.isCatalogEntry(e) && inputs.catalogValue(e.source) == source
  {
    if entries != [] {
      var init, last := entries[..|entries| - 1], entries[|entries| - 1];
      SourcesAreEntries(inputs, init, source);
      assert entries == init + [last];
    }
  }

  // ----- the code

  method LocalizeUnit(inputs: Inputs, existing: Option<Unit>, source: Source, locale: Locale, candidates: seq<string>)
    returns (unit: Unit)
    requires candidates == Candidates(inputs, source, locale)
    ensures unit == UnitFor(inputs, existing, source, locale)
  {
    if IsShipped(existing) {
      return existing.value;
    }
    if locale == "en" {
      return Unit(Some("translated"), Some(source));
    }
    var value := TranslationChoice.ChooseTranslation(source, candidates);
    return Unit(Some(if value == source then "new" else "translated"), Some(value));
  }

  lemma StepLocales(inputs: Inputs, existing: Strings, source: Source, locales: seq<Locale>, j: nat)
    requires j < |locales|
    ensures UnitsFor(inputs, existing, source, locales[..j + 1])
         == UnitsFor(inputs, existing, source, locales[..j])
            [locales[j] := UnitFor(inputs, ExistingUnit(existing, source, locales[j]), source, locales[j])]
    ensures LocaleContradictions(inputs, source, locales[..j + 1])
         == var distinct := SortedDistinct(Candidates(inputs, source, locales[j]));
            LocaleContradictions(inputs, source, locales[..j])
            + (if |distinct| > 1 then [Contradiction(source, locales[j], distinct)] else [])
  {
    PrefixSnoc(locales, j);
  }

  /** One source: its unit in every locale, and the locales in which its candidates contradict each other. */
  method LocalizeSource(inputs: Inputs, existing: Strings, source: Source)
    returns (localizations: map<Locale, Unit>, contradictions: seq<Contradiction>)
    ensures localizations == Localizations(inputs, existing, source)
    ensures contradictions == LocaleContradictions(inputs, source, inputs.locales)
  {
    localizations := map[];
    contradictions := [];
    for j := 0 to |inputs.locales|
      invariant localizations == UnitsFor(inputs, existing, source, inputs.locales[..j])
      invariant contradictions == LocaleContradictions(inputs, source, inputs.locales[..j])
    {
      var locale := inputs.locales[j];
      StepLocales(inputs, existing, source, inputs.locales, j);
      var candidates := Candidates(inputs, source, locale);
      var distinct := SortedDistinct(candidates);
      if |distinct| > 1 {
        contradictions := contradictions + [Contradiction(source, locale, distinct)];
      }
      var unit := LocalizeUnit(inputs, ExistingUnit(existing, source, locale), source, locale, candidates);
      localizations := localizations[locale := unit];
    }
    assert inputs.locales[..|inputs.locales|] == inputs.locales;
  }

  method BuildIosCatalog(inputs: Inputs, existing: Strings) returns (build: Build)
    ensures build == BuildCatalog(inputs, existing)
  {
    var sources := Sources(inputs);
    var strings: Strings := map[];
    var contradictions: seq<Contradiction> := [];
    for i := 0 to |sources|
      invariant strings.Keys == set source | source in sources[..i]
      invariant forall source :: source in strings ==> strings[source] == Localizations(inputs, existing, source)
      invariant contradictions == AllContradictions(inputs, sources[..i])
    {
      var localizations, found := LocalizeSource(inputs, existing, sources[i]);
      PrefixSnoc(sources, i);
      strings := strings[sources[i] := localizations];
      contradictions := contradictions + found;
    }
    assert sources[..|sources|] == sources;
    assert strings == BuiltStrings(inputs, existing);
    build := Build(strings, Sort(contradictions, ContradictionLe));
  }
}
