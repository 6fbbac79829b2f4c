/**
 * The rows the resolution engine reads, and what the one composite query in
 * `getProfile` returns from them (src/lib/profile.ts), stated as a relation
 * between the stored rows and a fetched result: the earliest-created active
 * profile, only its active sections and their active items, each list in
 * ascending `displayOrder`. Rows with equal `displayOrder` (and profiles
 * created at the same instant) may come back in any order; the relation
 * fixes none.
 */
module Store {
  import opened Wrappers
  import opened Json
  import opened Translations
  import opened Sorting

  datatype ProfileTranslationRow = ProfileTranslationRow(
    language: Language,
    fullName: string,
    headline: Option<string>,
    summary: Option<string>,
    seoTitle: Option<string>,
    seoDescription: Option<string>,
    seoKeywords: seq<string>,
    seoMetadata: Option<Entries>)

  /** A section's or an item's translation row. */
  datatype TranslationRow = TranslationRow(
    language: Language,
    title: Option<string>,
    subtitle: Option<string>,
    description: Option<string>,
    metadata: Option<Entries>)

  datatype ItemRow = ItemRow(
    id: string,
    itemType: string,
    displayOrder: int,
    isActive: bool,
    metadata: Option<Entries>,
    translations: seq<TranslationRow>)

  datatype SectionRow = SectionRow(
    id: string,
    key: string,
    displayOrder: int,
    isActive: bool,
    uiConfig: Option<Entries>,
    metadata: Option<Entries>,
    translations: seq<TranslationRow>,
    items: seq<ItemRow>)

  datatype ProfileRow = ProfileRow(
    id: string,
    slug: string,
    level: string,
    dateOfBirth: Option<string>,
    metadata: Option<Entries>,
    isActive: bool,
    createdAt: int,
    translations: seq<ProfileTranslationRow>,
    sections: seq<SectionRow>)

  function ItemOrder(i: ItemRow): int { i.displayOrder }
  function SectionOrder(s: SectionRow): int { s.displayOrder }

  function ItemIsActive(i: ItemRow): bool { i.isActive }
  function SectionIsActive(s: SectionRow): bool { s.isActive }

  /** `where: { isActive: true }`: the rows whose active flag is set, in stored order. */
  function ActiveRows<T>(rows: seq<T>, isActive: T -> bool): (r: seq<T>)
    ensures forall i :: 0 <= i < |r| ==> isActive(r[i]) && r[i] in rows
    ensures forall x :: x in rows && isActive(x) ==> x in r
  {
    if rows == [] then []
    else (if isActive(rows[0]) then [rows[0]] else []) + ActiveRows(rows[1..], isActive)
  }

  /** A section's item list as fetched: its active items in ascending `displayOrder`. */
  predicate ItemsFetched(stored: seq<ItemRow>, fetched: seq<ItemRow>) {
    SortedBy(fetched, ItemOrder) && multiset(fetched) == multiset(ActiveRows(stored, ItemIsActive))
  }

  /** A fetched section is the stored one with its item list fetched. */
  predicate SectionFetched(stored: SectionRow, fetched: SectionRow) {
    fetched == stored.(items := fetched.items) && ItemsFetched(stored.items, fetched.items)
  }

  /**
   * `order` lists the active stored sections in ascending `displayOrder`,
   * and `fetched` is each of them with its items fetched.
   */
  predicate SectionsMatch(stored: seq<SectionRow>, order: seq<SectionRow>, fetched: seq<SectionRow>) {
    && SortedBy(order, SectionOrder)
    && multiset(order) == multiset(ActiveRows(stored, SectionIsActive))
    && |fetched| == |order|
    && forall j :: 0 <= j < |order| ==> SectionFetched(order[j], fetched[j])
  }

  ghost predicate SectionsFetched(stored: seq<SectionRow>, fetched: seq<SectionRow>) {
    exists order :: SectionsMatch(stored, order, fetched)
  }

  /** Profile `i` is active and no active profile was created before it. */
  predicate EarliestActive(store: seq<ProfileRow>, i: int) {
    && 0 <= i < |store|
    && store[i].isActive
    && forall j :: 0 <= j < |store| && store[j].isActive ==> store[i].createdAt <= store[j].createdAt
  }

  predicate HasActiveProfile(store: seq<ProfileRow>) {
    exists i :: 0 <= i < |store| && store[i].isActive
  }

  ghost predicate ProfileFetched(store: seq<ProfileRow>, i: int, fetched: ProfileRow) {
    && EarliestActive(store, i)
    && fetched == store[i].(sections := fetched.sections)
    && SectionsFetched(store[i].sections, fetched.sections)
  }

  /**
   * What `prisma.profile.findFirst` may return: nothing when no profile is
   * active, otherwise an earliest-created active profile with its sections
   * and items fetched.
   */
  ghost predicate FetchResult(store: seq<ProfileRow>, fetched: Option<ProfileRow>) {
    && (fetched.None? <==> !HasActiveProfile(store))
    && (fetched.Some? ==> exists i :: ProfileFetched(store, i, fetched.value))
  }

  // ---- One result the query can return ----

  /** Index of an earliest-created active profile (the first such), or -1. */
  function EarliestActiveIndex(store: seq<ProfileRow>): (i: int)
    ensures -1 <= i < |store|
    ensures i >= 0 ==> EarliestActive(store, i)
    ensures i < 0 <==> !HasActiveProfile(store)
  {
    if store == [] then -1
    else
      var rest := EarliestActiveIndex(store[1..]);
      assert forall j :: 1 <= j < |store| ==> store[j] == store[1..][j - 1];
      if !store[0].isActive then (if rest < 0 then -1 else rest + 1)
      else if rest < 0 || store[0].createdAt <= store[rest + 1].createdAt then 0
      else rest + 1
  }

  function FetchItems(s: SectionRow): SectionRow {
    s.(items := SortBy(ActiveRows(s.items, ItemIsActive), ItemOrder))
  }

  /** A result of the query: the rows above with a stable sort for the ordering. */
  function Fetch(store: seq<ProfileRow>): (r: Option<ProfileRow>)
    ensures FetchResult(store, r)
  {
    var i := EarliestActiveIndex(store);
    if i < 0 then None
    else
      var p := store[i];
      var order := SortBy(ActiveRows(p.sections, SectionIsActive), SectionOrder);
      var sections := MapSeq(order, FetchItems);
      FetchSectionsMatch(p.sections);
      assert ProfileFetched(store, i, p.(sections := sections));
      Some(p.(sections := sections))
  }

  lemma FetchSectionsMatch(stored: seq<SectionRow>)
    ensures SectionsMatch(stored, SortBy(ActiveRows(stored, SectionIsActive), SectionOrder),
                          MapSeq(SortBy(ActiveRows(stored, SectionIsActive), SectionOrder), FetchItems))
  {
    var order := SortBy(ActiveRows(stored, SectionIsActive), SectionOrder);
    var fetched := MapSeq(order, FetchItems);
    forall j | 0 <= j < |order| ensures SectionFetched(order[j], fetched[j]) {
      assert fetched[j] == FetchItems(order[j]);
    }
  }

  // ---- Consequences of the relation ----

  lemma ActiveRowMember<T>(x: T, stored: seq<T>, isActive: T -> bool)
    requires x in multiset(ActiveRows(stored, isActive))
    ensures isActive(x)
  {
    assert x in ActiveRows(stored, isActive);
  }

  /** A fetched item list holds active items only, in ascending `displayOrder`. */
  lemma ItemsFetchedShape(stored: seq<ItemRow>, fetched: seq<ItemRow>)
    requires ItemsFetched(stored, fetched)
    ensures SortedBy(fetched, ItemOrder)
    ensures |fetched| == |ActiveRows(stored, ItemIsActive)|
    ensures forall k :: 0 <= k < |fetched| ==> fetched[k].isActive
  {
    assert |multiset(fetched)| == |multiset(ActiveRows(stored, ItemIsActive))|;
    forall k | 0 <= k < |fetched| ensures fetched[k].isActive {
      assert fetched[k] in multiset(fetched);
      ActiveRowMember(fetched[k], stored, ItemIsActive);
    }
  }

  /**
   * A fetched section list holds active sections only, in ascending
   * `displayOrder`, as many as the stored list has active ones, and each
   * section's item list is fetched from the stored section's items.
   */
  lemma SectionsFetchedShape(stored: seq<SectionRow>, fetched: seq<SectionRow>)
    requires SectionsFetched(stored, fetched)
    ensures SortedBy(fetched, SectionOrder)
    ensures |fetched| == |ActiveRows(stored, SectionIsActive)|
    ensures forall j :: 0 <= j < |fetched| ==> fetched[j].isActive
    ensures forall j :: 0 <= j < |fetched| ==>
      exists x :: x in stored && ItemsFetched(x.items, fetched[j].items)
  {
    var order: seq<SectionRow> :| SectionsMatch(stored, order, fetched);
    assert |multiset(order)| == |multiset(ActiveRows(stored, SectionIsActive))|;
    forall j | 0 <= j < |fetched| ensures SectionOrder(fetched[j]) == SectionOrder(order[j]) {
      assert SectionFetched(order[j], fetched[j]);
    }
    forall j | 0 <= j < |fetched|
      ensures fetched[j].isActive
      ensures exists x :: x in stored && ItemsFetched(x.items, fetched[j].items)
    {
      assert SectionFetched(order[j], fetched[j]);
      assert order[j] in multiset(order);
      ActiveRowMember(order[j], stored, SectionIsActive);
      assert order[j] in ActiveRows(stored, SectionIsActive);
    }
  }
}
