/**
 * Localized profile resolution (`getProfile`, src/lib/profile.ts): the
 * request language is normalized, a preference list is built from it, and
 * every entity of the fetched profile gets the translation that list picks.
 * Item metadata is the item's own record overlaid with its translation's;
 * section metadata and UI configuration are passed through as stored.
 */
module Profile {
  import opened Wrappers
  import opened Json
  import opened I18n
  import opened Translations
  import opened Metadata
  import opened Store
  import opened Sorting

  /** The translated fields of a section or item as the view exposes them. */
  datatype TranslationFields = TranslationFields(
    title: Option<string>,
    subtitle: Option<string>,
    description: Option<string>,
    metadata: Entries)

  datatype ItemView = ItemView(
    id: string,
    itemType: string,
    displayOrder: int,
    isActive: bool,
    metadata: Entries,
    translation: Option<TranslationFields>)

  datatype SectionView = SectionView(
    id: string,
    key: string,
    displayOrder: int,
    isActive: bool,
    uiConfig: Entries,
    metadata: Entries,
    translation: Option<TranslationFields>,
    items: seq<ItemView>)

  datatype SeoView = SeoView(
    title: Option<string>,
    description: Option<string>,
    keywords: seq<string>,
    metadata: Entries)

  datatype ProfileView = ProfileView(
    id: string,
    slug: string,
    level: string,
    dateOfBirth: Option<string>,
    metadata: Entries,
    fullName: string,
    headline: Option<string>,
    summary: Option<string>,
    seo: SeoView)

  datatype ProfilePayload = ProfilePayload(
    profile: ProfileView,
    sections: seq<SectionView>,
    language: LanguageCode)

  function RowLanguage(t: TranslationRow): Language { t.language }
  function ProfileRowLanguage(t: ProfileTranslationRow): Language { t.language }

  /** A picked translation's fields, with a missing metadata record read as `{}`. */
  function FieldsOf(t: Option<TranslationRow>): Option<TranslationFields> {
    if t.None? then None
    else Some(TranslationFields(t.value.title, t.value.subtitle, t.value.description, t.value.metadata.GetOr([])))
  }

  /** The metadata record of a picked translation, `{}` when there is none. */
  function TranslationMetadata(t: Option<TranslationRow>): Entries {
    if t.None? then [] else t.value.metadata.GetOr([])
  }

  function ItemViewOf(item: ItemRow, languages: seq<Language>): ItemView {
    var t := Pick(item.translations, languages, RowLanguage);
    ItemView(item.id, item.itemType, item.displayOrder, item.isActive,
             Merge(item.metadata.GetOr([]), TranslationMetadata(t)),
             FieldsOf(t))
  }

  function SectionViewOf(section: SectionRow, languages: seq<Language>): SectionView {
    SectionView(section.id, section.key, section.displayOrder, section.isActive,
                section.uiConfig.GetOr([]), section.metadata.GetOr([]),
                FieldsOf(Pick(section.translations, languages, RowLanguage)),
                ResolveItems(section.items, languages))
  }

  function ResolveItems(items: seq<ItemRow>, languages: seq<Language>): seq<ItemView> {
    seq(|items|, i requires 0 <= i < |items| => ItemViewOf(items[i], languages))
  }

  function ResolveSections(sections: seq<SectionRow>, languages: seq<Language>): seq<SectionView> {
    seq(|sections|, i requires 0 <= i < |sections| => SectionViewOf(sections[i], languages))
  }

  function ProfileViewOf(p: ProfileRow, languages: seq<Language>): ProfileView {
    var t := Pick(p.translations, languages, ProfileRowLanguage);
    ProfileView(
      p.id, p.slug, p.level, p.dateOfBirth, p.metadata.GetOr([]),
      if t.Some? then t.value.fullName else p.slug,
      if t.Some? then t.value.headline else None,
      if t.Some? then t.value.summary else None,
      SeoView(
        if t.None? then None else if t.value.seoTitle.Some? then t.value.seoTitle else Some(t.value.fullName),
        if t.None? then None else if t.value.seoDescription.Some? then t.value.seoDescription else t.value.summary,
        if t.Some? then t.value.seoKeywords else [],
        if t.Some? then t.value.seoMetadata.GetOr([]) else []))
  }

  /**
   * The payload for a request language and what the query returned: nothing
   * when no profile was found, otherwise the profile and its sections in the
   * fetched order, resolved against the normalized language. Each section and
   * each of its items keeps its fetched position, id, key or type, display
   * order and active flag.
   */
  function GetProfile(langInput: Option<string>, fetched: Option<ProfileRow>): (r: Option<ProfilePayload>)
    ensures r.None? <==> fetched.None?
    ensures r.Some? ==> r.value.language == NormalizeLanguage(langInput)
    ensures r.Some? ==> r.value.profile.id == fetched.value.id && r.value.profile.slug == fetched.value.slug
    ensures r.Some? ==> |r.value.sections| == |fetched.value.sections|
    ensures r.Some? ==>
      forall j :: 0 <= j < |r.value.sections| ==> SameSection(fetched.value.sections[j], r.value.sections[j])
  {
    if fetched.None? then None
    else
      var normalized := NormalizeLanguage(langInput);
      var languages := LanguagePriority(normalized);
      var p := fetched.value;
      ResolvedSectionsShape(p.sections, languages);
      Some(ProfilePayload(
        ProfileViewOf(p, languages),
        ResolveSections(p.sections, languages),
        normalized))
  }

  /** The preference list `getProfile` builds for a request language. */
  function Preference(langInput: Option<string>): seq<Language> {
    LanguagePriority(NormalizeLanguage(langInput))
  }

  // ---- Properties of the resolved payload ----

  lemma PayloadSections(langInput: Option<string>, p: ProfileRow)
    ensures GetProfile(langInput, Some(p)).value.sections == ResolveSections(p.sections, Preference(langInput))
  {
  }

  lemma PayloadProfile(langInput: Option<string>, p: ProfileRow)
    ensures GetProfile(langInput, Some(p)).value.profile == ProfileViewOf(p, Preference(langInput))
  {
  }

  /** A view keeps the identity, type, position key and active flag of its row. */
  predicate SameItem(row: ItemRow, v: ItemView) {
    v.id == row.id && v.itemType == row.itemType && v.displayOrder == row.displayOrder && v.isActive == row.isActive
  }

  predicate SameSection(row: SectionRow, v: SectionView) {
    && v.id == row.id && v.key == row.key && v.displayOrder == row.displayOrder && v.isActive == row.isActive
    && |v.items| == |row.items|
    && forall k :: 0 <= k < |row.items| ==> SameItem(row.items[k], v.items[k])
  }

  lemma ResolvedSectionsShape(sections: seq<SectionRow>, languages: seq<Language>)
    ensures |ResolveSections(sections, languages)| == |sections|
    ensures forall j :: 0 <= j < |sections| ==> SameSection(sections[j], ResolveSections(sections, languages)[j])
  {
    var views := ResolveSections(sections, languages);
    forall j | 0 <= j < |sections| ensures SameSection(sections[j], views[j]) {
      ResolvedSectionShape(sections[j], languages);
    }
  }

  lemma ResolvedSectionShape(section: SectionRow, languages: seq<Language>)
    ensures SameSection(section, SectionViewOf(section, languages))
  {
    var items := ResolveItems(section.items, languages);
    forall k | 0 <= k < |items| ensures SameItem(section.items[k], items[k]) {
      assert items[k] == ItemViewOf(section.items[k], languages);
    }
  }

  /**
   * With no profile translation at all, the display name falls back to the
   * slug, the SEO keywords to `[]`, and every other translated field is absent.
   */
  lemma ProfileWithoutTranslations(langInput: Option<string>, p: ProfileRow)
    requires p.translations == []
    ensures
      var v := GetProfile(langInput, Some(p)).value.profile;
      && v.fullName == p.slug
      && v.headline.None? && v.summary.None?
      && v.seo == SeoView(None, None, [], [])
  {
    PayloadProfile(langInput, p);
    PickIsMember(p.translations, Preference(langInput), ProfileRowLanguage);
  }

  /**
   * With at least one profile translation the display name, headline,
   * summary, SEO keywords and SEO metadata are the picked translation's, and
   * the SEO title and description fall back to the full name and the summary
   * when the translation leaves them empty.
   */
  lemma ProfileTranslated(langInput: Option<string>, p: ProfileRow)
    requires p.translations != []
    ensures
      var t := Pick(p.translations, Preference(langInput), ProfileRowLanguage);
      var v := GetProfile(langInput, Some(p)).value.profile;
      && t.Some? && t.value in p.translations
      && v.fullName == t.value.fullName
      && v.headline == t.value.headline
      && v.summary == t.value.summary
      && v.seo.title == (if t.value.seoTitle.Some? then t.value.seoTitle else Some(t.value.fullName))
      && v.seo.description == (if t.value.seoDescription.Some? then t.value.seoDescription else t.value.summary)
      && v.seo.keywords == t.value.seoKeywords
      && v.seo.metadata == t.value.seoMetadata.GetOr([])
  {
    PayloadProfile(langInput, p);
    PickIsMember(p.translations, Preference(langInput), ProfileRowLanguage);
  }

  /**
   * A profile translation in the requested (supported) language wins: the
   * first one stored in that language supplies the display name.
   */
  lemma RequestedLanguageWins(langInput: Option<string>, p: ProfileRow, j: nat)
    requires j < |p.translations|
    requires p.translations[j].language == ToPrismaLanguage(NormalizeLanguage(langInput))
    requires forall i :: 0 <= i < j ==> p.translations[i].language != p.translations[j].language
    ensures GetProfile(langInput, Some(p)).value.profile.fullName == p.translations[j].fullName
  {
    var langs := Preference(langInput);
    assert langs[0] == ToPrismaLanguage(NormalizeLanguage(langInput));
    PickFirstPreference(p.translations, langs, ProfileRowLanguage, j);
    PayloadProfile(langInput, p);
  }

  /**
   * An item's metadata is its own record overlaid with its picked
   * translation's: a key the translation does not set keeps the item's
   * value, a key only the translation sets takes the translation's value,
   * and a key both set takes their merge.
   */
  lemma ItemMetadataOverlaid(item: ItemRow, languages: seq<Language>, k: string)
    ensures
      var t := TranslationMetadata(Pick(item.translations, languages, RowLanguage));
      var base := item.metadata.GetOr([]);
      var m := ItemViewOf(item, languages).metadata;
      && (!HasKey(t, k) ==> Get(m, k) == Get(base, k))
      && (HasKey(t, k) && !HasKey(base, k) ==> Get(m, k) == Get(t, k))
      && (HasKey(t, k) && HasKey(base, k) ==> Get(m, k) == Some(MergeValue(Get(base, k).value, Get(t, k).value)))
  {
    var t := TranslationMetadata(Pick(item.translations, languages, RowLanguage));
    MergeGet(item.metadata.GetOr([]), t, k);
  }

  /** An item without translations keeps exactly its own metadata and has no translation. */
  lemma ItemWithoutTranslations(item: ItemRow, languages: seq<Language>)
    requires item.translations == []
    ensures ItemViewOf(item, languages).metadata == item.metadata.GetOr([])
    ensures ItemViewOf(item, languages).translation.None?
  {
    PickIsMember(item.translations, languages, RowLanguage);
    MergeRightIdentity(item.metadata.GetOr([]));
  }

  /**
   * Section metadata and UI configuration are the stored records (`{}` when
   * absent); a section translation's metadata is exposed on the translation
   * and never merged into the section's.
   */
  lemma SectionMetadataAsStored(langInput: Option<string>, p: ProfileRow, j: nat)
    requires j < |p.sections|
    ensures
      var v := GetProfile(langInput, Some(p)).value.sections[j];
      && v.metadata == p.sections[j].metadata.GetOr([])
      && v.uiConfig == p.sections[j].uiConfig.GetOr([])
      && (v.translation.None? <==> p.sections[j].translations == [])
  {
    PayloadSections(langInput, p);
    PickIsMember(p.sections[j].translations, Preference(langInput), RowLanguage);
  }

  // ---- Resolution over the fetched rows ----

  function SectionId(s: SectionRow): string { s.id }
  function SectionViewId(s: SectionView): string { s.id }

  function SectionViewOrder(v: SectionView): int { v.displayOrder }
  function ItemViewOrder(v: ItemView): int { v.displayOrder }

  /** Active items only, in ascending display order. */
  predicate ItemsOrderedActive(items: seq<ItemView>) {
    SortedBy(items, ItemViewOrder) && forall k :: 0 <= k < |items| ==> items[k].isActive
  }

  /** Active sections only, in ascending display order, each with its items so. */
  predicate SectionsOrderedActive(sections: seq<SectionView>) {
    && SortedBy(sections, SectionViewOrder)
    && (forall j :: 0 <= j < |sections| ==> sections[j].isActive)
    && forall j :: 0 <= j < |sections| ==> ItemsOrderedActive(sections[j].items)
  }

  lemma ResolvedItemsOrdered(stored: seq<ItemRow>, fetched: seq<ItemRow>, languages: seq<Language>)
    requires ItemsFetched(stored, fetched)
    ensures ItemsOrderedActive(ResolveItems(fetched, languages))
  {
    ItemsFetchedShape(stored, fetched);
    var views := ResolveItems(fetched, languages);
    forall k | 0 <= k < |views| ensures SameItem(fetched[k], views[k]) {
      assert views[k] == ItemViewOf(fetched[k], languages);
    }
  }

  lemma ResolvedSectionsOrdered(stored: seq<SectionRow>, fetched: seq<SectionRow>, languages: seq<Language>)
    requires SectionsFetched(stored, fetched)
    ensures SectionsOrderedActive(ResolveSections(fetched, languages))
  {
    SectionsFetchedShape(stored, fetched);
    var views := ResolveSections(fetched, languages);
    forall j | 0 <= j < |views|
      ensures views[j].displayOrder == fetched[j].displayOrder && views[j].isActive
      ensures ItemsOrderedActive(views[j].items)
    {
      assert views[j] == SectionViewOf(fetched[j], languages);
      var x :| x in stored && ItemsFetched(x.items, fetched[j].items);
      ResolvedItemsOrdered(x.items, fetched[j].items, languages);
    }
  }

  /**
   * Resolving what the query returns: a payload exists exactly when some
   * profile is active; its sections are active, in ascending display order,
   * as many as the profile has active sections, and each section's items are
   * active and in ascending display order.
   */
  lemma ResolvedFromStore(store: seq<ProfileRow>, fetched: Option<ProfileRow>, langInput: Option<string>)
    requires FetchResult(store, fetched)
    ensures GetProfile(langInput, fetched).None? <==> !HasActiveProfile(store)
    ensures
      var r := GetProfile(langInput, fetched);
      r.Some? ==>
        && SectionsOrderedActive(r.value.sections)
        && exists i :: EarliestActive(store, i) && |r.value.sections| == |ActiveRows(store[i].sections, SectionIsActive)|
  {
    if fetched.Some? {
      var i :| ProfileFetched(store, i, fetched.value);
      PayloadSections(langInput, fetched.value);
      SectionsFetchedShape(store[i].sections, fetched.value.sections);
      ResolvedSectionsOrdered(store[i].sections, fetched.value.sections, Preference(langInput));
    }
  }

  /**
   * The resolved sections are the profile's active sections, each exactly
   * once: their ids form the same multiset as the active stored sections' ids.
   */
  lemma ResolvedSectionIds(store: seq<ProfileRow>, i: int, p: ProfileRow, langInput: Option<string>)
    requires ProfileFetched(store, i, p)
    ensures multiset(MapSeq(GetProfile(langInput, Some(p)).value.sections, SectionViewId))
         == multiset(MapSeq(ActiveRows(store[i].sections, SectionIsActive), SectionId))
  {
    var order: seq<SectionRow> :| SectionsMatch(store[i].sections, order, p.sections);
    PayloadSections(langInput, p);
    ViewIds(p.sections, Preference(langInput));
    FetchedIds(order, p.sections);
    MapSeqPermutation(order, ActiveRows(store[i].sections, SectionIsActive), SectionId);
  }

  lemma ViewIds(sections: seq<SectionRow>, languages: seq<Language>)
    ensures MapSeq(ResolveSections(sections, languages), SectionViewId) == MapSeq(sections, SectionId)
  {
    var views := ResolveSections(sections, languages);
    forall j | 0 <= j < |sections| ensures views[j].id == sections[j].id {
      assert views[j] == SectionViewOf(sections[j], languages);
    }
  }

  lemma FetchedIds(order: seq<SectionRow>, fetched: seq<SectionRow>)
    requires |fetched| == |order|
    requires forall j :: 0 <= j < |order| ==> SectionFetched(order[j], fetched[j])
    ensures MapSeq(fetched, SectionId) == MapSeq(order, SectionId)
  {
    forall j | 0 <= j < |order| ensures fetched[j].id == order[j].id {
      assert SectionFetched(order[j], fetched[j]);
    }
  }

  // ---- A worked resolution ----

  function ExampleItem(): ItemRow {
    ItemRow("item-1", "experience", 1, true,
      Some([("techStack", JArr([JStr("Go")]))]),
      [ TranslationRow(Vi, Some("Ky su"), None, None, None),
        TranslationRow(En, Some("Engineer"), None, None, Some([("location", JStr("Remote"))])),
        TranslationRow(Ru, Some("Inzhener"), None, None, None) ])
  }

  /**
   * Resolved in English, the item keeps its language-neutral `techStack` and
   * gains the English translation's `location`.
   */
  lemma EnglishItemMetadata()
    ensures ItemViewOf(ExampleItem(), Preference(Some("en"))).metadata
         == [("techStack", JArr([JStr("Go")])), ("location", JStr("Remote"))]
  {
    NormalizeSupportedIdentity("en");
    var item := ExampleItem();
    var langs := Preference(Some("en"));
    assert langs[0] == En;
    assert IndexOfLanguage(item.translations, En, RowLanguage) == 1 by {
      assert RowLanguage(item.translations[0]) != En;
      assert RowLanguage(item.translations[1]) == En;
    }
    PickEarliestPreference(item.translations, langs, RowLanguage, 0);
    var base := [("techStack", JArr([JStr("Go")]))];
    var over := [("location", JStr("Remote"))];
    assert !HasKey(base, "location");
    assert Overlay(base, over) == base by {
      assert IndexOf(over, "techStack") == -1;
    }
    assert Added(base, over) == over;
  }

  /**
   * Resolved in an unsupported language, the item takes the default
   * (Vietnamese) translation and only its own metadata.
   */
  lemma UnsupportedLanguageItem()
    ensures ItemViewOf(ExampleItem(), Preference(Some("fr"))).translation.value.title == Some("Ky su")
    ensures ItemViewOf(ExampleItem(), Preference(Some("fr"))).metadata == [("techStack", JArr([JStr("Go")]))]
  {
    NormalizeUnknown();
    var item := ExampleItem();
    var langs := Preference(Some("fr"));
    assert langs == [Vi];
    assert IndexOfLanguage(item.translations, Vi, RowLanguage) == 0;
    PickEarliestPreference(item.translations, langs, RowLanguage, 0);
    MergeRightIdentity(item.metadata.GetOr([]));
  }
}
