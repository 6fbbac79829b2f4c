/**
 * The decisions the section renderer makes before any markup
 * (src/components/section-renderer.tsx): which layout a section gets, how
 * loosely typed metadata values are read, where the hero's location and
 * availability come from, how many grid columns a layout uses, which
 * metadata entries a listing shows and in what order, the date-range badge
 * text, and the label rewriting applied to metadata keys.
 */
module SectionRenderer {
  import opened Wrappers
  import opened Json
  import opened Sorting
  import opened Profile
  import opened Metadata
  import Store
  import Translations
  import I18n

  // ---- Layout dispatch ----

  datatype Layout = Hero | Timeline | Badges | Icons | List | Cards

  /** The `variant` string that selects each layout. */
  function LayoutName(l: Layout): string {
    match l
    case Hero => "hero"
    case Timeline => "timeline"
    case Badges => "badges"
    case Icons => "icons"
    case List => "list"
    case Cards => "cards"
  }

  /**
   * The layout a section renders with: nothing for an inactive section; the
   * layout whose name the `variant` setting holds; cards for any other,
   * missing or non-string setting.
   */
  function SelectLayout(section: SectionView): (r: Option<Layout>)
    ensures r.None? <==> !section.isActive
    ensures section.isActive ==>
      forall l :: l != Cards ==> (r == Some(l) <==> Get(section.uiConfig, "variant") == Some(JStr(LayoutName(l))))
  {
    if !section.isActive then None
    else
      var variant := Get(section.uiConfig, "variant");
      Some(
        if variant == Some(JStr("hero")) then Hero
        else if variant == Some(JStr("timeline")) then Timeline
        else if variant == Some(JStr("badges")) then Badges
        else if variant == Some(JStr("icons")) then Icons
        else if variant == Some(JStr("list")) then List
        else Cards)
  }

  /** Distinct layouts have distinct names, so the dispatch is unambiguous. */
  lemma LayoutNamesDistinct(a: Layout, b: Layout)
    ensures LayoutName(a) == LayoutName(b) <==> a == b
  {
    if a != b {
      assert LayoutName(a)[0] != LayoutName(b)[0] || |LayoutName(a)| != |LayoutName(b)|;
    }
  }

  /** An active section without a `variant`, or with `variant: null`, is laid out as cards. */
  lemma DefaultLayoutIsCards(section: SectionView)
    requires section.isActive && IsNullish(Get(section.uiConfig, "variant"))
    ensures SelectLayout(section) == Some(Cards)
  {
  }

  /** Every active section whose `variant` names no other layout is laid out as cards. */
  lemma FallbackLayoutIsCards(section: SectionView)
    requires section.isActive
    requires forall l :: l != Cards ==> Get(section.uiConfig, "variant") != Some(JStr(LayoutName(l)))
    ensures SelectLayout(section) == Some(Cards)
  {
    var r := SelectLayout(section);
    assert r.value != Hero && r.value != Timeline && r.value != Badges && r.value != Icons && r.value != List;
  }

  // ---- Reading loosely typed metadata ----

  /** `asArrayOf`: the elements of an array value, and no elements for anything else. */
  function AsArrayOf(v: Option<Json>): (r: seq<Json>)
    ensures v.Some? && v.value.JArr? ==> v.value == JArr(r)
    ensures !(v.Some? && v.value.JArr?) ==> r == []
  {
    if v.Some? && v.value.JArr? then v.value.elems else []
  }

  /** `safeText`: no text for `null` or `undefined`, otherwise `String(value)`. */
  function SafeText(v: Option<Json>): (r: Option<string>)
    ensures r.None? <==> IsNullish(v)
    ensures r.Some? ==> r.value == JsString(v.value)
  {
    if IsNullish(v) then None else Some(JsString(v.value))
  }

  /** `typeof value === "string" ? value : safeText(value)`, as the hero reads text. */
  function TextOf(v: Option<Json>): Option<string> {
    if v.Some? && v.value.JStr? then Some(v.value.s) else SafeText(v)
  }

  /** The hero's string test is redundant: it reads text exactly as `safeText` does. */
  lemma TextOfIsSafeText(v: Option<Json>)
    ensures TextOf(v) == SafeText(v)
  {
  }

  // ---- The hero's location and availability ----

  /** A key of a translation's metadata; nothing when there is no translation. */
  function TranslationGet(t: Option<TranslationFields>, key: string): Option<Json> {
    if t.None? then None else Get(t.value.metadata, key)
  }

  /**
   * The hero's `location` (or `availability`) text: read from the first
   * item's metadata, else the section translation's metadata, else the item
   * translation's metadata; nothing when the section has no item.
   */
  function HeroDetail(section: SectionView, key: string): (r: Option<string>)
    ensures section.items == [] ==> r.None?
  {
    if section.items == [] then None
    else
      var item := section.items[0];
      TextOf(Coalesce(Coalesce(Get(item.metadata, key), TranslationGet(section.translation, key)),
                      TranslationGet(item.translation, key)))
  }

  /** The precedence of the three sources, and nothing when all three are null or missing. */
  lemma HeroDetailPrecedence(section: SectionView, key: string)
    requires section.items != []
    ensures
      var fromItem := Get(section.items[0].metadata, key);
      var fromSection := TranslationGet(section.translation, key);
      var fromItemTranslation := TranslationGet(section.items[0].translation, key);
      var r := HeroDetail(section, key);
      && (!IsNullish(fromItem) ==> r == Some(JsString(fromItem.value)))
      && (IsNullish(fromItem) && !IsNullish(fromSection) ==> r == Some(JsString(fromSection.value)))
      && (IsNullish(fromItem) && IsNullish(fromSection) && !IsNullish(fromItemTranslation) ==>
            r == Some(JsString(fromItemTranslation.value)))
      && (IsNullish(fromItem) && IsNullish(fromSection) && IsNullish(fromItemTranslation) ==> r.None?)
  {
    var item := section.items[0];
    TextOfIsSafeText(Coalesce(Coalesce(Get(item.metadata, key), TranslationGet(section.translation, key)),
                              TranslationGet(item.translation, key)));
  }

  lemma MergeValueKeepsNonNull(bv: Json, ov: Json)
    requires !ov.JNull?
    ensures !MergeValue(bv, ov).JNull?
  {
  }

  /**
   * For an item resolved by `getProfile`, the item translation's metadata is
   * already merged into the item's own, so a non-null value there is found
   * at the first source: the hero never consults the section translation
   * for that key, and its third source is never the one used.
   */
  lemma ItemTranslationShadowsSection(section: SectionView, row: Store.ItemRow, languages: seq<Translations.Language>, key: string)
    requires section.items != [] && section.items[0] == ItemViewOf(row, languages)
    requires !IsNullish(Get(TranslationMetadata(Translations.Pick(row.translations, languages, RowLanguage)), key))
    ensures HeroDetail(section, key) == SafeText(Get(section.items[0].metadata, key))
    ensures !IsNullish(Get(section.items[0].metadata, key))
  {
    var t := TranslationMetadata(Translations.Pick(row.translations, languages, RowLanguage));
    var base := row.metadata.GetOr([]);
    MergeGet(base, t, key);
    if HasKey(base, key) {
      MergeValueKeepsNonNull(Get(base, key).value, Get(t, key).value);
    }
    HeroDetailPrecedence(section, key);
  }

  // ---- Grid columns ----

  /**
   * Columns of the grid a layout places its items on, for the `columns`
   * setting (`None` when unset or null): cards and badges use 3 from 3
   * columns up and 2 below, defaulting to 2 and 3; icons use 4 from 4 up and
   * 2 below, defaulting to 4. The other layouts are not grids.
   */
  function GridColumns(layout: Layout, columns: Option<int>): (r: Option<int>)
    ensures r.Some? <==> layout == Cards || layout == Badges || layout == Icons
    ensures layout == Icons ==> r == Some(2) || r == Some(4)
    ensures layout == Cards || layout == Badges ==> r == Some(2) || r == Some(3)
    ensures columns.Some? && (layout == Cards || layout == Badges) ==> (r == Some(3) <==> columns.value >= 3)
    ensures columns.Some? && layout == Icons ==> (r == Some(4) <==> columns.value >= 4)
  {
    match layout
    case Cards => Some(if columns.GetOr(2) >= 3 then 3 else 2)
    case Badges => Some(if columns.GetOr(3) >= 3 then 3 else 2)
    case Icons => Some(if columns.GetOr(4) >= 4 then 4 else 2)
    case _ => None
  }

  /** Asking for more columns never yields fewer. */
  lemma GridColumnsMonotone(layout: Layout, c1: int, c2: int)
    requires c1 <= c2
    requires GridColumns(layout, Some(c1)).Some?
    ensures GridColumns(layout, Some(c1)).value <= GridColumns(layout, Some(c2)).value
  {
  }

  /** From two columns up, the grid never has more columns than asked for. */
  lemma GridColumnsAtMostAsked(layout: Layout, c: int)
    requires c >= 2 && GridColumns(layout, Some(c)).Some?
    ensures GridColumns(layout, Some(c)).value <= c
  {
  }

  /** With no setting, cards use 2 columns, badges 3 and icons 4. */
  lemma GridColumnsDefaults()
    ensures GridColumns(Cards, None) == Some(2)
    ensures GridColumns(Badges, None) == Some(3)
    ensures GridColumns(Icons, None) == Some(4)
  {
  }

  // ---- The date-range badge ----

  predicate TruthyRead(v: Option<Json>) {
    v.Some? && Truthy(v.value)
  }

  /**
   * `MetadataBadge` for a start and an end key: nothing when both values are
   * falsy; otherwise the start's text or `-`, a space, then `-> ` and the
   * end's text, or `-> Present`.
   */
  function MetadataBadge(metadata: Entries, startKey: string, endKey: string): (r: Option<string>)
    ensures r.None? <==> !TruthyRead(Get(metadata, startKey)) && !TruthyRead(Get(metadata, endKey))
    ensures r.Some? ==>
      var start, end := Get(metadata, startKey), Get(metadata, endKey);
      r.value == (if TruthyRead(start) then JsString(start.value) else "-") + " -> "
                 + (if TruthyRead(end) then JsString(end.value) else "Present")
  {
    var start := Get(metadata, startKey);
    var end := Get(metadata, endKey);
    if !TruthyRead(start) && !TruthyRead(end) then None
    else
      var startText := if TruthyRead(start) then JsString(start.value) else "-";
      var endValue := if TruthyRead(end) then JsString(end.value) else "Present";
      ArrowText(startText, endValue);
      Some(startText + " " + ("-> " + endValue))
  }

  lemma ArrowText(a: string, b: string)
    ensures a + " " + ("-> " + b) == a + " -> " + b
  {
    assert " " + "-> " == " -> ";
  }

  /** An open-ended range reads "<start> -> Present". */
  lemma BadgeOpenEnded()
    ensures MetadataBadge([("startDate", JStr("2021-03"))], "startDate", "endDate") == Some("2021-03 -> Present")
  {
    var m := [("startDate", JStr("2021-03"))];
    assert !HasKey(m, "endDate");
    assert Get(m, "startDate") == Some(JStr("2021-03")) by { assert m[0].0 == "startDate"; }
    ArrowText("2021-03", "Present");
    assert "2021-03" + " -> " + "Present" == "2021-03 -> Present";
  }

  /** Falsy values count as missing: a start of `0` and an empty end show nothing. */
  lemma BadgeFalsyValuesHidden()
    ensures MetadataBadge([("startDate", JNum(0)), ("endDate", JStr(""))], "startDate", "endDate").None?
  {
    var m := [("startDate", JNum(0)), ("endDate", JStr(""))];
    assert Get(m, "startDate") == Some(JNum(0));
    assert Get(m, "endDate") == Some(JStr("")) by { assert m[0].0 != "endDate"; }
  }

  /** A range with only an end reads "- -> <end>". */
  lemma BadgeOnlyEnd()
    ensures MetadataBadge([("endDate", JStr("2024"))], "startDate", "endDate") == Some("- -> 2024")
  {
    var m := [("endDate", JStr("2024"))];
    assert !HasKey(m, "startDate");
    assert Get(m, "endDate") == Some(JStr("2024")) by { assert m[0].0 == "endDate"; }
    assert "-" + " " + ("-> " + "2024") == "- -> 2024";
  }

  // ---- Metadata listings ----

  /** `Number.MAX_SAFE_INTEGER`, the position given to keys the order does not list. */
  const MaxSafeInteger: int := 9007199254740991

  /** `order.indexOf(key)`: strict equality, so only string elements can match. */
  function IndexIn(order: seq<Json>, key: string): (r: int)
    ensures -1 <= r < |order|
    ensures r >= 0 ==> order[r] == JStr(key) && forall j :: 0 <= j < r ==> order[j] != JStr(key)
    ensures r < 0 <==> JStr(key) !in order
  {
    if order == [] then -1
    else if order[0] == JStr(key) then 0
    else
      var r := IndexIn(order[1..], key);
      if r < 0 then -1 else r + 1
  }

  /** `sortOrder`: a listed key's position in `order`, an unlisted key's `MAX_SAFE_INTEGER`. */
  function SortOrder(order: seq<Json>, key: string): (r: int)
    ensures JStr(key) in order ==> 0 <= r < |order| && order[r] == JStr(key)
    ensures JStr(key) in order ==> forall j :: 0 <= j < r ==> order[j] != JStr(key)
    ensures JStr(key) !in order ==> r == MaxSafeInteger
  {
    var index := IndexIn(order, key);
    if index == -1 then MaxSafeInteger else index
  }

  function EntryOrder(order: seq<Json>): ((string, Json)) -> int {
    (e: (string, Json)) => SortOrder(order, e.0)
  }

  /** The entries a listing keeps: keys not omitted, values not null, in entry order. */
  function Visible(entries: Entries, omit: seq<string>): (r: Entries)
    ensures |r| <= |entries|
    ensures forall e :: e in r <==> e in entries && e.0 !in omit && !e.1.JNull?
  {
    if entries == [] then []
    else
      var rest := Visible(entries[1..], omit);
      if entries[0].0 !in omit && !entries[0].1.JNull? then [entries[0]] + rest else rest
  }

  /**
   * Filtering keeps entry order: the visible entries of two runs of entries
   * are those of the first run followed by those of the second.
   */
  lemma {:induction false} VisibleConcat(a: Entries, b: Entries, omit: seq<string>)
    ensures Visible(a + b, omit) == Visible(a, omit) + Visible(b, omit)
  {
    if a == [] {
      assert a + b == b;
    } else {
      var head := if a[0].0 !in omit && !a[0].1.JNull? then [a[0]] else [];
      VisibleConcat(a[1..], b, omit);
      VisibleHead(a, omit);
      VisibleHead(a + b, omit);
      ConcatTail(a, b);
      calc {
        Visible(a + b, omit);
        head + Visible(a[1..] + b, omit);
        head + (Visible(a[1..], omit) + Visible(b, omit));
        { ConcatAssoc(head, Visible(a[1..], omit), Visible(b, omit)); }
        (head + Visible(a[1..], omit)) + Visible(b, omit);
        Visible(a, omit) + Visible(b, omit);
      }
    }
  }

  lemma VisibleHead(entries: Entries, omit: seq<string>)
    requires entries != []
    ensures Visible(entries, omit)
      == (if entries[0].0 !in omit && !entries[0].1.JNull? then [entries[0]] else []) + Visible(entries[1..], omit)
  {
  }

  /** A single entry is shown exactly when its key is not omitted and its value is not null. */
  lemma VisibleSingle(e: (string, Json), omit: seq<string>)
    ensures Visible([e], omit) == if e.0 !in omit && !e.1.JNull? then [e] else []
  {
    assert [e][1..] == [];
  }

  /**
   * `MetadataList`: the visible entries stably sorted by `sortOrder`;
   * nothing when no entry is visible.
   */
  function MetadataList(metadata: Entries, order: seq<Json>, omit: seq<string>): (r: Option<Entries>)
    ensures r.None? <==> Visible(metadata, omit) == []
    ensures r.Some? ==> multiset(r.value) == multiset(Visible(metadata, omit))
    ensures r.Some? ==> SortedBy(r.value, EntryOrder(order))
  {
    var sorted := SortBy(Visible(metadata, omit), EntryOrder(order));
    if sorted == [] then None else Some(sorted)
  }

  /** A listing shows only entries of the metadata, never an omitted key or a null value. */
  lemma MetadataListFiltered(metadata: Entries, order: seq<Json>, omit: seq<string>)
    ensures
      var r := MetadataList(metadata, order, omit);
      r.Some? ==> forall i :: 0 <= i < |r.value| ==>
        r.value[i] in metadata && r.value[i].0 !in omit && !r.value[i].1.JNull?
  {
    var r := MetadataList(metadata, order, omit);
    if r.Some? {
      forall i | 0 <= i < |r.value|
        ensures r.value[i] in metadata && r.value[i].0 !in omit && !r.value[i].1.JNull?
      {
        assert r.value[i] in multiset(Visible(metadata, omit));
      }
    }
  }

  /**
   * Listed keys come first, in the order's index order, ahead of every
   * unlisted key (for any order shorter than `MAX_SAFE_INTEGER`).
   */
  lemma MetadataListListedFirst(metadata: Entries, order: seq<Json>, omit: seq<string>)
    requires |order| <= MaxSafeInteger
    ensures
      var r := MetadataList(metadata, order, omit);
      r.Some? ==>
        && (forall i, j :: 0 <= i < |r.value| && 0 <= j < |r.value| && JStr(r.value[i].0) in order && JStr(r.value[j].0) !in order ==> i < j)
        && (forall i, j :: 0 <= i < j < |r.value| && JStr(r.value[i].0) in order && JStr(r.value[j].0) in order ==>
              SortOrder(order, r.value[i].0) <= SortOrder(order, r.value[j].0))
  {
    var r := MetadataList(metadata, order, omit);
    if r.Some? {
      var s, key := r.value, EntryOrder(order);
      forall i, j | 0 <= i < |s| && 0 <= j < |s| && JStr(s[i].0) in order && JStr(s[j].0) !in order
        ensures i < j
      {
        assert key(s[i]) < |order| && key(s[j]) == MaxSafeInteger;
        if j <= i {
          SortedAt(s, key, j, i);
        }
      }
      forall i, j | 0 <= i < j < |s|
        ensures SortOrder(order, s[i].0) <= SortOrder(order, s[j].0)
      {
        SortedAt(s, key, i, j);
      }
    }
  }

  /**
   * The sort is stable: entries with the same sort position keep their
   * relative order; in particular the unlisted keys follow in entry order.
   */
  lemma MetadataListStable(metadata: Entries, order: seq<Json>, omit: seq<string>, k: int)
    ensures
      var r := MetadataList(metadata, order, omit);
      r.Some? ==> WithKey(r.value, EntryOrder(order), k) == WithKey(Visible(metadata, omit), EntryOrder(order), k)
  {
    SortByStable(Visible(metadata, omit), EntryOrder(order), k);
  }

  /** The entries at position `MAX_SAFE_INTEGER` are exactly the visible unlisted ones. */
  lemma UnlistedAtMaxSafe(entries: Entries, order: seq<Json>)
    requires |order| <= MaxSafeInteger
    ensures forall e :: e in WithKey(entries, EntryOrder(order), MaxSafeInteger) <==> e in entries && JStr(e.0) !in order
  {
    WithKeyMembers(entries, EntryOrder(order), MaxSafeInteger);
  }

  /** With an empty order every key is unlisted, so the listing keeps entry order. */
  lemma UnorderedListingKeepsEntryOrder(metadata: Entries, omit: seq<string>)
    ensures MetadataList(metadata, [], omit) == if Visible(metadata, omit) == [] then None else Some(Visible(metadata, omit))
  {
    var v := Visible(metadata, omit);
    MetadataListStable(metadata, [], omit, MaxSafeInteger);
    WithKeyAll(v, EntryOrder([]), MaxSafeInteger);
    WithKeyAll(SortBy(v, EntryOrder([])), EntryOrder([]), MaxSafeInteger);
  }

  /** The keys a timeline item's listing leaves to its date badge and hero-only fields. */
  const TimelineOmit: seq<string> := ["actions", "highlights", "startDate", "endDate"]

  /** `showMetadataKeys` from a section's UI configuration; anything but an array counts as none. */
  function ShowMetadataKeys(uiConfig: Entries): seq<Json> {
    AsArrayOf(Get(uiConfig, "showMetadataKeys"))
  }

  /**
   * The listing under an item for each layout: timelines and cards order by
   * the section's `showMetadataKeys` (timelines also omit their date and
   * hero-only keys), badges put `keywords` first, lists keep entry order;
   * heroes and icons have no listing.
   */
  function ItemListing(layout: Layout, uiConfig: Entries, metadata: Entries): (r: Option<Entries>)
    ensures layout == Hero || layout == Icons ==> r.None?
    ensures layout == List ==> r == if Visible(metadata, []) == [] then None else Some(Visible(metadata, []))
    ensures layout == Timeline || layout == Cards || layout == Badges ==>
      (r.None? <==> Visible(metadata, if layout == Timeline then TimelineOmit else []) == [])
    ensures (layout == Timeline || layout == Cards) && r.Some? ==>
      SortedBy(r.value, EntryOrder(ShowMetadataKeys(uiConfig)))
      && multiset(r.value) == multiset(Visible(metadata, if layout == Timeline then TimelineOmit else []))
    ensures layout == Badges && r.Some? ==>
      SortedBy(r.value, EntryOrder([JStr("keywords")])) && multiset(r.value) == multiset(Visible(metadata, []))
  {
    UnorderedListingKeepsEntryOrder(metadata, []);
    match layout
    case Timeline => MetadataList(metadata, ShowMetadataKeys(uiConfig), TimelineOmit)
    case Cards => MetadataList(metadata, ShowMetadataKeys(uiConfig), [])
    case Badges => MetadataList(metadata, [JStr("keywords")], [])
    case List => MetadataList(metadata, [], [])
    case _ => None
  }

  /** A timeline's listing never repeats the dates its badge shows. */
  lemma TimelineListingOmitsDates(uiConfig: Entries, metadata: Entries)
    ensures
      var r := ItemListing(Timeline, uiConfig, metadata);
      r.Some? ==> forall i :: 0 <= i < |r.value| ==> r.value[i].0 != "startDate" && r.value[i].0 != "endDate"
  {
    MetadataListFiltered(metadata, ShowMetadataKeys(uiConfig), TimelineOmit);
  }

  /** On a badge card a non-null `keywords` entry is listed first. */
  lemma BadgesKeywordsFirst(uiConfig: Entries, metadata: Entries, v: Json)
    requires ("keywords", v) in metadata && !v.JNull?
    ensures
      var r := ItemListing(Badges, uiConfig, metadata);
      r.Some? && r.value[0].0 == "keywords"
  {
    var order := [JStr("keywords")];
    var r := MetadataList(metadata, order, []);
    assert ("keywords", v) in Visible(metadata, []);
    assert ("keywords", v) in multiset(r.value);
    var i :| 0 <= i < |r.value| && r.value[i] == ("keywords", v);
    assert EntryOrder(order)(r.value[i]) == 0;
    SortedAt(r.value, EntryOrder(order), 0, i);
    assert SortOrder(order, r.value[0].0) == 0;
  }

  // ---- Labels for metadata keys ----

  predicate IsLowerOrDigit(c: char) { 'a' <= c <= 'z' || '0' <= c <= '9' }
  predicate IsUpper(c: char) { 'A' <= c <= 'Z' }

  /** `\w`: ASCII letters, digits and the underscore. */
  predicate IsWordChar(c: char) { 'a' <= c <= 'z' || 'A' <= c <= 'Z' || '0' <= c <= '9' || c == '_' }

  /** A lower-case letter or digit directly followed by a capital. */
  predicate NoCamelJoint(s: string) {
    forall i :: 0 <= i < |s| - 1 ==> !(IsLowerOrDigit(s[i]) && IsUpper(s[i + 1]))
  }

  /** `s` without its spaces. */
  function Unspaced(s: string): string {
    if s == [] then [] else (if s[0] == ' ' then [] else [s[0]]) + Unspaced(s[1..])
  }

  /**
   * `replace(/([a-z0-9])([A-Z])/g, "$1 $2")`: matches are found left to
   * right and never overlap, so after a match the scan resumes behind its
   * capital.
   */
  function SplitCamel(s: string): (r: string)
    ensures NoCamelJoint(r)
    ensures s != [] ==> r != [] && r[0] == s[0]
  {
    if |s| < 2 then s
    else if IsLowerOrDigit(s[0]) && IsUpper(s[1]) then [s[0], ' ', s[1]] + SplitCamel(s[2..])
    else [s[0]] + SplitCamel(s[1..])
  }

  /** Splitting adds exactly one character per camel joint of the input. */
  lemma {:induction false} SplitCamelLength(s: string)
    ensures |SplitCamel(s)| == |s| + JointCount(s)
  {
    if |s| >= 2 {
      if IsLowerOrDigit(s[0]) && IsUpper(s[1]) {
        SplitCamelJoint(s);
        JointCountAfterJoint(s);
        SplitCamelLength(s[2..]);
      } else {
        SplitCamelPlain(s);
        SplitCamelLength(s[1..]);
      }
    }
  }

  /**
   * The number of positions where a lower-case letter or digit is directly
   * followed by a capital. A capital never starts such a pair, so no two of
   * them overlap and each is one match of the pattern.
   */
  function JointCount(s: string): nat {
    if |s| < 2 then 0
    else (if IsLowerOrDigit(s[0]) && IsUpper(s[1]) then 1 else 0) + JointCount(s[1..])
  }

  lemma JointCountAfterJoint(s: string)
    requires |s| >= 2 && IsUpper(s[1])
    ensures JointCount(s[1..]) == JointCount(s[2..])
  {
    assert s[1..][1..] == s[2..];
  }

  /**
   * `r` is `s` with spaces inserted: matching `r` against `s` from the left,
   * every character of `r` that does not match the next one of `s` is a space,
   * and all of `s` gets matched.
   */
  predicate SpacesInserted(s: string, r: string)
    decreases |r|
  {
    if r == [] then s == []
    else if s != [] && r[0] == s[0] then SpacesInserted(s[1..], r[1..])
    else r[0] == ' ' && SpacesInserted(s, r[1..])
  }

  lemma {:induction false} SpacesInsertedRefl(s: string)
    ensures SpacesInserted(s, s)
  {
    if s != [] {
      SpacesInsertedRefl(s[1..]);
    }
  }

  lemma SpacesInsertedJoint(s: string, rest: string)
    requires |s| >= 2 && s[1] != ' ' && SpacesInserted(s[2..], rest)
    ensures SpacesInserted(s, [s[0], ' ', s[1]] + rest)
  {
    var r := [s[0], ' ', s[1]] + rest;
    assert r[1..] == [' ', s[1]] + rest;
    assert r[1..][1..] == [s[1]] + rest;
    assert ([s[1]] + rest)[1..] == rest;
    assert s[1..][1..] == s[2..];
  }

  lemma SpacesInsertedPlain(s: string, rest: string)
    requires s != [] && SpacesInserted(s[1..], rest)
    ensures SpacesInserted(s, [s[0]] + rest)
  {
    assert ([s[0]] + rest)[1..] == rest;
  }

  /** Splitting only inserts spaces: the original key is the split key with some spaces dropped. */
  lemma {:induction false} SplitCamelInsertsSpaces(s: string)
    ensures SpacesInserted(s, SplitCamel(s))
    ensures Unspaced(SplitCamel(s)) == Unspaced(s)
  {
    if |s| < 2 {
      SpacesInsertedRefl(s);
    } else {
      if IsLowerOrDigit(s[0]) && IsUpper(s[1]) {
        SplitCamelJoint(s);
        SplitCamelInsertsSpaces(s[2..]);
        SpacesInsertedJoint(s, SplitCamel(s[2..]));
        UnspacedConcat([s[0], ' ', s[1]], SplitCamel(s[2..]));
        UnspacedConcat([s[0], s[1]], s[2..]);
        assert Unspaced([s[0], ' ', s[1]]) == Unspaced([s[0], s[1]]) by {
          assert [s[0], ' ', s[1]][1..] == [' ', s[1]] && [' ', s[1]][1..] == [s[1]];
          assert [s[0], s[1]][1..] == [s[1]];
        }
        assert s == [s[0], s[1]] + s[2..];
      } else {
        SplitCamelPlain(s);
        SplitCamelInsertsSpaces(s[1..]);
        SpacesInsertedPlain(s, SplitCamel(s[1..]));
        UnspacedConcat([s[0]], SplitCamel(s[1..]));
        UnspacedConcat([s[0]], s[1..]);
        assert s == [s[0]] + s[1..];
      }
    }
  }

  lemma {:induction false} UnspacedConcat(a: string, b: string)
    ensures Unspaced(a + b) == Unspaced(a) + Unspaced(b)
  {
    if a == [] {
      assert a + b == b;
    } else {
      var h := if a[0] == ' ' then [] else [a[0]];
      UnspacedConcat(a[1..], b);
      assert (a + b)[0] == a[0] && (a + b)[1..] == a[1..] + b;
      calc {
        Unspaced(a + b);
        h + Unspaced(a[1..] + b);
        h + (Unspaced(a[1..]) + Unspaced(b));
        (h + Unspaced(a[1..])) + Unspaced(b);
        Unspaced(a) + Unspaced(b);
      }
    }
  }

  /** A string without camel joints is left as it is. */
  lemma {:induction false} SplitCamelFixpoint(s: string)
    requires NoCamelJoint(s)
    ensures SplitCamel(s) == s
  {
    if |s| >= 2 {
      SplitCamelFixpoint(s[1..]);
      assert s == [s[0]] + s[1..];
    }
  }

  /** `replace(/[-_]/g, " ")`. */
  function DashesToSpaces(s: string): (r: string)
    ensures |r| == |s|
    ensures forall i :: 0 <= i < |r| ==> r[i] != '-' && r[i] != '_'
    ensures forall i :: 0 <= i < |s| && (s[i] == '-' || s[i] == '_') ==> r[i] == ' '
    ensures forall i :: 0 <= i < |s| && s[i] != '-' && s[i] != '_' ==> r[i] == s[i]
  {
    seq(|s|, i requires 0 <= i < |s| => if s[i] == '-' || s[i] == '_' then ' ' else s[i])
  }

  function UpperChar(c: char): char {
    if 'a' <= c <= 'z' then (c as int - 32) as char else c
  }

  /** A word character at the start of the string or after a non-word character (`\b\w`). */
  predicate IsWordStart(s: string, i: int)
    requires 0 <= i < |s|
  {
    IsWordChar(s[i]) && (i == 0 || !IsWordChar(s[i - 1]))
  }

  /** `replace(/\b\w/g, (c) => c.toUpperCase())`. */
  function CapitalizeWords(s: string): (r: string)
    ensures |r| == |s|
    ensures forall i :: 0 <= i < |s| && !IsWordStart(s, i) ==> r[i] == s[i]
    ensures forall i :: 0 <= i < |s| && IsWordStart(s, i) ==>
      !('a' <= r[i] <= 'z') && I18n.LowerChar(r[i]) == I18n.LowerChar(s[i])
  {
    seq(|s|, i requires 0 <= i < |s| => if IsWordStart(s, i) then UpperChar(s[i]) else s[i])
  }

  /** Capitalizing keeps word starts where they were and leaves no word start in lower case. */
  lemma CapitalizeWordsStarts(s: string)
    ensures var r := CapitalizeWords(s);
      forall i :: 0 <= i < |s| ==> (IsWordStart(r, i) <==> IsWordStart(s, i)) && (IsWordStart(r, i) ==> !('a' <= r[i] <= 'z'))
  {
  }

  lemma CapitalizeWordsIdempotent(s: string)
    ensures CapitalizeWords(CapitalizeWords(s)) == CapitalizeWords(s)
  {
    CapitalizeWordsStarts(s);
  }

  lemma CapitalizeWordsKeeps(s: string)
    requires NoCamelJoint(s)
    requires forall i :: 0 <= i < |s| ==> s[i] != '-' && s[i] != '_'
    ensures NoCamelJoint(CapitalizeWords(s))
    ensures forall i :: 0 <= i < |s| ==> CapitalizeWords(s)[i] != '-' && CapitalizeWords(s)[i] != '_'
  {
    var r := CapitalizeWords(s);
    forall i | 0 <= i < |s| - 1 ensures !(IsLowerOrDigit(r[i]) && IsUpper(r[i + 1])) {
      if IsLowerOrDigit(r[i]) {
        assert IsLowerOrDigit(s[i]);
        assert !IsWordStart(s, i + 1);
        assert r[i + 1] == s[i + 1];
      }
    }
  }

  lemma DashesToSpacesKeeps(s: string)
    requires NoCamelJoint(s)
    ensures NoCamelJoint(DashesToSpaces(s))
  {
  }

  /**
   * `prettyLabel`: a space between a lower-case letter or digit and a
   * following capital, dashes and underscores as spaces, and every word
   * capitalized.
   */
  function PrettyLabel(key: string): (r: string)
    ensures forall i :: 0 <= i < |r| ==> r[i] != '-' && r[i] != '_'
    ensures forall i :: 0 <= i < |r| && IsWordStart(r, i) ==> !('a' <= r[i] <= 'z')
    ensures NoCamelJoint(r)
  {
    var spaced := DashesToSpaces(SplitCamel(key));
    DashesToSpacesKeeps(SplitCamel(key));
    CapitalizeWordsKeeps(spaced);
    CapitalizeWordsStarts(spaced);
    CapitalizeWords(spaced)
  }

  /**
   * How a label relates to its key: splitting the key at its camel joints
   * only inserts spaces, one per joint, and leaves no joint. The label has one
   * character per character of that split key, with dashes and underscores
   * turned into spaces and every other character kept up to its case,
   * unchanged except at a word start.
   */
  lemma PrettyLabelFromKey(key: string)
    ensures
      var t, r := SplitCamel(key), PrettyLabel(key);
      && SpacesInserted(key, t) && NoCamelJoint(t) && |t| == |key| + JointCount(key)
      && |r| == |t|
      && (forall i :: 0 <= i < |t| && (t[i] == '-' || t[i] == '_') ==> r[i] == ' ')
      && (forall i :: 0 <= i < |t| && t[i] != '-' && t[i] != '_' ==> I18n.LowerChar(r[i]) == I18n.LowerChar(t[i]))
      && (forall i :: 0 <= i < |t| && t[i] != '-' && t[i] != '_' && !IsWordStart(r, i) ==> r[i] == t[i])
  {
    var t := SplitCamel(key);
    SplitCamelInsertsSpaces(key);
    SplitCamelLength(key);
    CapitalizeWordsStarts(DashesToSpaces(t));
  }

  /** A label is already pretty: rewriting it again changes nothing. */
  lemma PrettyLabelIdempotent(key: string)
    ensures PrettyLabel(PrettyLabel(key)) == PrettyLabel(key)
  {
    var r := PrettyLabel(key);
    SplitCamelFixpoint(r);
    assert DashesToSpaces(r) == r;
    CapitalizeWordsIdempotent(DashesToSpaces(SplitCamel(key)));
  }

  lemma PrettyLabelExample()
    ensures PrettyLabel("startDate") == "Start Date"
  {
    SplitStartDate();
    DashesStartDate();
    CapitalizeStartDate();
  }

  lemma SplitCamelPlain(s: string)
    requires |s| >= 2 && !(IsLowerOrDigit(s[0]) && IsUpper(s[1]))
    ensures SplitCamel(s) == [s[0]] + SplitCamel(s[1..])
  {
  }

  lemma SplitCamelJoint(s: string)
    requires |s| >= 2 && IsLowerOrDigit(s[0]) && IsUpper(s[1])
    ensures SplitCamel(s) == [s[0], ' ', s[1]] + SplitCamel(s[2..])
  {
  }

  lemma SplitStartDate()
    ensures SplitCamel("startDate") == "start Date"
  {
    SplitTartDate();
    SplitPlainStep('s', "tartDate", "tart Date");
    assert ['s'] + "tartDate" == "startDate" && ['s'] + "tart Date" == "start Date";
  }

  lemma SplitTartDate()
    ensures SplitCamel("tartDate") == "tart Date"
  {
    SplitArtDate();
    SplitPlainStep('t', "artDate", "art Date");
    assert ['t'] + "artDate" == "tartDate" && ['t'] + "art Date" == "tart Date";
  }

  lemma SplitArtDate()
    ensures SplitCamel("artDate") == "art Date"
  {
    SplitRtDate();
    SplitPlainStep('a', "rtDate", "rt Date");
    assert ['a'] + "rtDate" == "artDate" && ['a'] + "rt Date" == "art Date";
  }

  lemma SplitRtDate()
    ensures SplitCamel("rtDate") == "rt Date"
  {
    SplitTDate();
    SplitPlainStep('r', "tDate", "t Date");
    assert ['r'] + "tDate" == "rtDate" && ['r'] + "t Date" == "rt Date";
  }

  lemma SplitPlainStep(c: char, s: string, r: string)
    requires s != [] && !(IsLowerOrDigit(c) && IsUpper(s[0])) && SplitCamel(s) == r
    ensures SplitCamel([c] + s) == [c] + r
  {
    var t := [c] + s;
    assert t[0] == c && t[1..] == s;
  }

  lemma SplitTDate()
    ensures SplitCamel("tDate") == "t Date"
  {
    assert NoCamelJoint("ate");
    SplitCamelFixpoint("ate");
    assert "tDate"[2..] == "ate";
    SplitCamelJoint("tDate");
  }

  lemma DashesStartDate()
    ensures DashesToSpaces("start Date") == "start Date"
  {
    var s := "start Date";
    assert forall i :: 0 <= i < |s| ==> s[i] != '-' && s[i] != '_';
  }

  lemma CapitalizeStartDate()
    ensures CapitalizeWords("start Date") == "Start Date"
  {
    var s, r := "start Date", CapitalizeWords("start Date");
    assert IsWordStart(s, 0) && IsWordStart(s, 6);
    forall i | 0 <= i < |s| && i != 0 && i != 6 ensures r[i] == s[i] {
      assert !IsWordStart(s, i);
    }
  }

}
