# Profile resolution and section rendering of a data-driven CV site

This project is a Dafny model of the core of a multilingual "CV" website whose
pages are built entirely from database rows. A profile has sections, a
section has items, and each of the three carries translations in Vietnamese,
English and Russian. The model covers:

- **Language table** (`src/lib/i18n.ts`): the supported codes `vi`, `en` and
  `ru`, with `vi` as the default. A requested tag is checked and normalised
  after `trim()` and `toLowerCase()`, and an unknown or missing tag falls back
  to `vi`.
- **Route gate** (`src/middleware.ts`): the pass-or-redirect decision on a
  pathname.
- **Profile resolution** (`src/lib/profile.ts`):
  - the language preference chain and the mapping to the database
    enumeration;
  - the translation picker;
  - the recursive metadata merge;
  - the assembly of the view model from the fetched rows.
  The database query becomes a relation between the stored rows and the
  fetched tree: the earliest active profile, and its active sections and
  items ordered by `displayOrder`. A witness function shows the relation can
  be met.
- **Section renderer** (`src/components/section-renderer.tsx`):
  - the layout chosen from `uiConfig.variant`;
  - `asArrayOf` and `safeText`;
  - the precedence of the hero's location and availability;
  - the grid column choice;
  - the timeline's date badge;
  - the metadata list (filter, then a stable sort by position in an order
    list);
  - `prettyLabel`.
- **Profile header** (`src/components/profile-shell.tsx`): the metadata
  badges (at most six) and `formatLabel`.

JSON columns are the datatype `Json.Json`. Records are ordered association
lists, because `Object.entries` order matters to both the merge and the
renderers. JavaScript's `undefined` and `null` property reads become
`Option` and `JNull`. The two stateful algorithms are methods with loops,
and each is proved equal to a declarative function:

- `mergeMetadata` is a method with a `while` loop, proved equal to
  `Metadata.Merge`;
- `pickTranslation` is a method with a `for` loop, proved equal to
  `Translations.Pick`.

Everything else in the core is expression code and is modelled as functions
and lemmas.

## Model

| member | source | states |
|---|---|---|
| I18n.NormalizeLanguage | src/lib/i18n.ts:13-19 | the result is always a supported code; it is the trimmed, lower-cased input when that is supported, and `vi` otherwise |
| I18n.CanonicalSupportedIff | src/lib/i18n.ts:7-11 | checking the trimmed, lower-cased form decides support exactly as checking the raw value does (the double normalisation in `normalizeLanguage` is harmless) |
| I18n.CanonicalIdempotent | src/lib/i18n.ts:9 | trimming and lower-casing twice equals doing it once |
| I18n.SupportedAreCanonical | src/lib/i18n.ts:1 | each of `vi`, `en`, `ru` is its own trimmed, lower-cased form and is supported |
| I18n.NormalizeSupportedIdentity | src/lib/i18n.ts:13-19 | a supported code normalises to itself |
| I18n.NormalizeIdempotent | src/lib/i18n.ts:13-19 | normalising an already normalised code changes nothing |
| I18n.NormalizeAbsent | src/lib/i18n.ts:7-8 | a missing or empty value is unsupported and normalises to `vi` |
| I18n.NormalizeUnknown | src/lib/i18n.ts:13-19 | `fr` is unsupported and falls back to `vi` |
| I18n.NormalizePadded | src/lib/i18n.ts:9 | `" EN "` is supported and normalises to `en` |
| I18n.IsSupportedLanguage | src/lib/i18n.ts:7-11 | a value is supported exactly when it is given and its trimmed, lower-cased form is `vi`, `en` or `ru`; the separate test for `""` changes nothing |
| I18n.Trim | src/lib/i18n.ts:9 | the result is a slice of the input with only ECMAScript white space before and after it, and it neither starts nor ends with white space |
| I18n.ToLower | src/lib/i18n.ts:9 | no ASCII capital is left; each capital becomes its lower-case letter and every other character is kept |
| Middleware.Decide | src/middleware.ts:8-24 | every redirect goes to `/vi`; a path passes exactly when it has a bypass prefix or exactly one non-empty segment |
| Middleware.Split | src/middleware.ts:12 | the pieces contain no `/` and join back with `/` into the path |
| Middleware.NoSegmentsIffSlashes | src/middleware.ts:12-17 | a path has no non-empty segment exactly when it consists of slashes only |
| Middleware.RootRedirects | src/middleware.ts:15-17 | `/`, `//` and every run of slashes redirect to `/vi` |
| Middleware.DeepPathRedirects | src/middleware.ts:20-21 | two or more segments redirect to `/vi` unless bypassed |
| Middleware.UnknownLanguageSegmentPasses | src/middleware.ts:20-24 | `/fr` has the single segment `fr` and passes the gate as written |
| Middleware.DecideIntended | src/middleware.ts:19-24 | the gate with the segment itself checked: passes exactly when bypassed, or for one segment that is a supported code |
| Middleware.IntendedStricter | src/middleware.ts:19-24 | whatever the corrected gate passes, the written gate passes; they differ only on one unsupported segment |
| Middleware.IntendedRedirectsUnknown | src/middleware.ts:19-21 | the corrected gate redirects `/fr` to `/vi` |
| Middleware.IntendedPassesSupported | src/middleware.ts:19-24 | the corrected gate passes `/vi`, `/en` and `/ru` |
| Translations.ToPrismaLanguage | src/lib/profile.ts:77-86 | `vi` maps to `Vi`, `ru` to `Ru`, `en` to `En`, each in both directions |
| Translations.LanguagePriority | src/lib/profile.ts:67-75 | the chain has the requested language first and the default last, with no duplicate; it has length 1 for `vi` and 2 otherwise |
| Translations.IndexOfLanguage | src/lib/profile.ts:93 | the index of the first row in the language, or -1 when no row has it |
| Translations.FindByLanguage | src/lib/profile.ts:93 | `find` returns the first row in the language, or nothing when none exists |
| Translations.PickTranslation | src/lib/profile.ts:88-97 | the loop with its early return computes `Pick`; the choice is a row of the input, and there is none only for no rows |
| Translations.PickIsMember | src/lib/profile.ts:88-97 | the choice is an input row, and there is one exactly when the input is non-empty |
| Translations.PickEarliestPreference | src/lib/profile.ts:92-95 | when preference `k` is the first one any row has, the first row in that language is chosen |
| Translations.PickFallback | src/lib/profile.ts:96 | when no row is in a preferred language, the first row is chosen |
| Translations.PickFirstPreference | src/lib/profile.ts:92-94 | the first row in the first preferred language wins whatever the other rows hold |
| Metadata.MergeMetadata | src/lib/profile.ts:99-120 | copying the base (absent is `{}`) and assigning each override entry in order yields `Merge(base, override)` |
| Metadata.ResolveEntry | src/lib/profile.ts:103-117 | the value one entry assigns: an array replaces an array, two records merge recursively, anything else replaces |
| Metadata.LoopStep | src/lib/profile.ts:102-118 | one loop iteration extends the merge of the entries seen so far by the next entry |
| Metadata.MergeStep | src/lib/profile.ts:103-117 | merging one more override key is a property assignment (in place for an existing key, appended for a new one) of the resolved value |
| Metadata.MergeGet | src/lib/profile.ts:99-120 | reading key `k` of the merge gives the base's value when the override lacks `k`, the override's when the base lacks it, and their recursive merge otherwise |
| Metadata.MergeKeys | src/lib/profile.ts:99-120 | the merge has exactly the keys of base and override |
| Metadata.KeysOverlay | src/lib/profile.ts:100 | base keys keep their positions in the merge |
| Metadata.HasKeyAdded | src/lib/profile.ts:116 | keys new to the base are appended with the override's value |
| Metadata.UnassignedReadsBase | src/lib/profile.ts:103 | a key the override has not reached yet still reads the base's value |
| Metadata.MergeRightIdentity | src/lib/profile.ts:101 | merging with an empty override returns the base |
| Metadata.MergeLeftIdentity | src/lib/profile.ts:99-120 | merging into an empty base returns the override |
| Metadata.ArraysReplaced | src/lib/profile.ts:104-105 | merging `{a:[3]}` into `{a:[1,2]}` gives `{a:[3]}`: arrays are replaced, not concatenated |
| Metadata.NestedRecordsMerged | src/lib/profile.ts:106-114 | merging `{a:{y:3}}` into `{a:{x:1,y:2}}` gives `{a:{x:1,y:3}}` |
| Store.ActiveRows | src/lib/profile.ts:137-141 | keeps exactly the rows whose active flag is set (items and sections alike) |
| Store.EarliestActiveIndex | src/lib/profile.ts:126-128 | the index of an active profile with the smallest `createdAt`, or -1 exactly when no profile is active |
| Store.Fetch | src/lib/profile.ts:126-144 | a fetch result exists for every store: the earliest active profile, with active sections and items sorted by `displayOrder` |
| Store.ItemsFetchedShape | src/lib/profile.ts:134-138 | fetched items are sorted by `displayOrder`, all active, and as many as the active stored items |
| Store.SectionsFetchedShape | src/lib/profile.ts:131-142 | fetched sections are sorted, active and complete, and each carries the fetched items of a stored section |
| Profile.GetProfile | src/lib/profile.ts:122-213 | there is no payload exactly when no profile was fetched; the payload's language is the normalised request; the profile keeps its id and slug; every fetched section and each of its items keeps its position, id, key or type, display order and active flag |
| Profile.ProfileWithoutTranslations | src/lib/profile.ts:201-209 | without translations the full name falls back to the slug, and the SEO block is empty with no keywords |
| Profile.ProfileTranslated | src/lib/profile.ts:201-209 | with translations the picked one, an input row, supplies the name, headline, summary, SEO keywords and SEO metadata; the SEO title falls back to the name and the description to the summary |
| Profile.RequestedLanguageWins | src/lib/profile.ts:123-148 | the first profile translation in the normalised requested language supplies the full name |
| Profile.ItemMetadataOverlaid | src/lib/profile.ts:153-162 | item metadata is the stored metadata merged with the picked translation's, key by key |
| Profile.ItemWithoutTranslations | src/lib/profile.ts:159-170 | an item without translations keeps its stored metadata and has no translation |
| Profile.SectionMetadataAsStored | src/lib/profile.ts:179-188 | section metadata and `uiConfig` are used as stored, not merged; a section has a translation exactly when it has rows |
| Profile.ResolvedFromStore | src/lib/profile.ts:126-146 | from any fetch result there is a payload exactly when an active profile exists; its sections are active and ordered, as many as the earliest active profile's active sections |
| Profile.ResolvedSectionIds | src/lib/profile.ts:131-175 | the payload's section ids are a permutation of the active stored sections' ids |
| Profile.ResolvedSectionsOrdered | src/lib/profile.ts:140-178 | resolved sections are active and ordered by `displayOrder` |
| Profile.ResolvedItemsOrdered | src/lib/profile.ts:136-158 | resolved items are active and ordered by `displayOrder` |
| Profile.EnglishItemMetadata | src/lib/profile.ts:159-162 | an English override adds a localised `location` beside the language-neutral `techStack` |
| Profile.UnsupportedLanguageItem | src/lib/profile.ts:123-153 | a request for `fr` resolves to the Vietnamese translation |
| Sorting.SortBy | src/components/section-renderer.tsx:357 | the sort's output is sorted by the key and is a permutation of its input |
| Sorting.SortByStable | src/components/section-renderer.tsx:357 | elements with equal keys keep their relative order |
| SectionRenderer.SelectLayout | src/components/section-renderer.tsx:20-38 | an inactive section renders nothing; otherwise each named variant selects its own layout exactly when `variant` is that string |
| SectionRenderer.DefaultLayoutIsCards | src/components/section-renderer.tsx:23 | a missing or null variant selects the cards layout |
| SectionRenderer.FallbackLayoutIsCards | src/components/section-renderer.tsx:36-37 | any variant that names no layout selects the cards layout |
| SectionRenderer.LayoutNamesDistinct | src/components/section-renderer.tsx:25-37 | no two layouts share a variant name |
| SectionRenderer.AsArrayOf | src/components/section-renderer.tsx:13 | an array gives its elements; anything else gives the empty list |
| SectionRenderer.SafeText | src/components/section-renderer.tsx:14-15 | null and undefined give no text; anything else gives `String(value)` |
| SectionRenderer.TextOfIsSafeText | src/components/section-renderer.tsx:84-86 | a string is shown as is, which agrees with `safeText` |
| SectionRenderer.HeroDetail | src/components/section-renderer.tsx:76-86 | a hero section without items shows no location or availability (the precedence otherwise is HeroDetailPrecedence's) |
| SectionRenderer.HeroDetailPrecedence | src/components/section-renderer.tsx:76-86 | the hero's location comes from the item's metadata, then the section translation's, then the item translation's, with null skipped |
| SectionRenderer.ItemTranslationShadowsSection | src/components/section-renderer.tsx:76-79 | once an item's translation sets a key, the merged item metadata holds it, so the later sources are never read |
| SectionRenderer.GridColumns | src/components/section-renderer.tsx:202-203 | only cards, badges and icons have a grid; cards and badges use 3 columns exactly when at least 3 are set and 2 otherwise, icons 4 exactly when at least 4 are set and 2 otherwise |
| SectionRenderer.GridColumnsDefaults | src/components/section-renderer.tsx:202-258 | without a setting, cards use 2 columns, badges 3, icons 4 |
| SectionRenderer.GridColumnsMonotone | src/components/section-renderer.tsx:203-259 | asking for more columns never yields fewer |
| SectionRenderer.GridColumnsAtMostAsked | src/components/section-renderer.tsx:203-259 | a request of at least 2 columns never yields more than asked |
| SectionRenderer.MetadataBadge | src/components/section-renderer.tsx:319-332 | the badge is absent exactly when both dates are falsy; otherwise it reads the start's text (or `-`), then ` -> `, then the end's text (or `Present`) |
| SectionRenderer.BadgeOpenEnded | src/components/section-renderer.tsx:323-324 | a start date alone reads `2021-03 -> Present` |
| SectionRenderer.BadgeOnlyEnd | src/components/section-renderer.tsx:323-324 | an end date alone reads `- -> 2024` |
| SectionRenderer.BadgeFalsyValuesHidden | src/components/section-renderer.tsx:322 | `0` and `""` count as missing dates |
| SectionRenderer.SortOrder | src/components/section-renderer.tsx:352-355 | a listed key sorts at its first position in the order list; an unlisted key at `Number.MAX_SAFE_INTEGER` |
| SectionRenderer.Visible | src/components/section-renderer.tsx:348-350 | keeps exactly the entries whose key is not omitted and whose value is not null |
| SectionRenderer.VisibleConcat | src/components/section-renderer.tsx:348-350 | filtering two runs of entries gives the filtered first run followed by the filtered second, so entry order is kept |
| SectionRenderer.VisibleSingle | src/components/section-renderer.tsx:348-350 | a single entry is kept exactly when its key is not omitted and its value is not null |
| SectionRenderer.MetadataList | src/components/section-renderer.tsx:347-368 | nothing is rendered exactly when no entry survives the filter; otherwise the survivors are all rendered, sorted by order position |
| SectionRenderer.MetadataListFiltered | src/components/section-renderer.tsx:348-350 | every listed entry comes from the metadata, is not omitted and is not null |
| SectionRenderer.MetadataListListedFirst | src/components/section-renderer.tsx:352-357 | listed keys come before unlisted ones, in order-list order |
| SectionRenderer.MetadataListStable | src/components/section-renderer.tsx:357 | entries with the same sort position keep their `Object.entries` order |
| SectionRenderer.UnlistedAtMaxSafe | src/components/section-renderer.tsx:354 | the entries at `MAX_SAFE_INTEGER` are exactly the unlisted ones |
| SectionRenderer.UnorderedListingKeepsEntryOrder | src/components/section-renderer.tsx:347-357 | without an order list the entries keep `Object.entries` order |
| SectionRenderer.ItemListing | src/components/section-renderer.tsx:187-311 | hero and icons items have no metadata list; a list item shows its visible entries in entry order; timeline, cards and badges items show nothing exactly when no entry survives the filter (the timeline also omitting `actions`, `highlights`, `startDate`, `endDate`); a timeline or cards listing is the visible entries (a permutation of them) sorted by `showMetadataKeys`, a badges listing the same sorted by `["keywords"]` |
| SectionRenderer.TimelineListingOmitsDates | src/components/section-renderer.tsx:187-191 | the timeline's list never repeats the dates shown in its badge |
| SectionRenderer.BadgesKeywordsFirst | src/components/section-renderer.tsx:249 | in the badges layout a non-null `keywords` entry is listed first |
| SectionRenderer.SplitCamel | src/components/section-renderer.tsx:335 | the result has no lower-case letter or digit directly followed by a capital, and keeps the first character |
| SectionRenderer.SplitCamelLength | src/components/section-renderer.tsx:335 | the split is longer than the input by exactly the number of lower-case-or-digit/capital pairs in the input, which never overlap: one space per pair |
| SectionRenderer.SplitCamelInsertsSpaces | src/components/section-renderer.tsx:335 | the key is the split key with some characters dropped, and every dropped character is a space: the split only inserts spaces |
| SectionRenderer.SplitCamelFixpoint | src/components/section-renderer.tsx:335 | a string without such a pair is unchanged |
| SectionRenderer.DashesToSpaces | src/components/section-renderer.tsx:336 | every `-` and `_` becomes a space and every other character is kept, so none of them remains |
| SectionRenderer.CapitalizeWords | src/components/section-renderer.tsx:337 | a character that does not start a word is kept; a word-start character is the same character up to case and is never a lower-case letter |
| SectionRenderer.CapitalizeWordsIdempotent | src/components/section-renderer.tsx:337 | capitalising twice equals capitalising once |
| SectionRenderer.PrettyLabel | src/components/section-renderer.tsx:333-338 | the label has no `-` or `_`, no word starts in lower case, and no lower-case letter or digit is directly followed by a capital |
| SectionRenderer.PrettyLabelIdempotent | src/components/section-renderer.tsx:333-338 | prettifying a label again changes nothing |
| SectionRenderer.PrettyLabelExample | src/components/section-renderer.tsx:333-338 | `startDate` becomes `Start Date` |
| SectionRenderer.PrettyLabelFromKey | src/components/section-renderer.tsx:333-338 | the label has one character per character of the camel-split key, which is the key with one space inserted per camel pair and no pair left; each `-` and `_` becomes a space, and every other character keeps its letter, changing case only at a word start |
| ProfileShell.FormatLabel | src/components/profile-shell.tsx:69-74 | the header's label formatting is the same transformation as the section renderer's `prettyLabel` |
| ProfileShell.BuildProfileBadges | src/components/profile-shell.tsx:54-67 | no metadata gives no badges; otherwise the first six non-null entries, in order, each rendered as `Label: value` |
| ProfileShell.BadgesFromNonNullEntries | src/components/profile-shell.tsx:56-59 | every badge is the text of a non-null entry of the metadata |
| ProfileShell.FewEntriesAllShown | src/components/profile-shell.tsx:58 | with six or fewer non-null entries every one gets a badge |
| ProfileShell.LowerWordLabel | src/components/profile-shell.tsx:69-74 | a lower-case word gets only its first letter capitalised |
| ProfileShell.ValueText | src/components/profile-shell.tsx:64 | an array value is its element texts (null as empty) joined with `", "`; any other value, or an array of at most one element, reads exactly as `String(value)` |
| Strings.Join | src/components/profile-shell.tsx:64 | `join` of no parts is the empty string and of one part is that part, with no separator |
| Strings.JoinAppend | src/components/profile-shell.tsx:64 | `join` puts the separator between consecutive parts: appending a part to a non-empty list appends the separator and that part (with `Strings.Join`'s contract for no parts and one part this fixes `join` completely) |
| ProfileShell.StackText | src/components/profile-shell.tsx:64 | an array value is joined with `", "` |
| ProfileShell.BadgesExample | src/components/profile-shell.tsx:54-67 | a null entry is skipped, and the remaining city and stack entries read `City: Hanoi` and `Stack: Go, TS` |
| Json.Put | src/lib/profile.ts:105 | assignment sets the key, leaves every other key as it was, and keeps an existing key in its position (a new key is appended) |
| Json.Get | src/lib/profile.ts:103 | a read is undefined exactly when the key is missing, and otherwise gives that key's value |
| Json.JsString | src/components/section-renderer.tsx:14-15 | `String(value)` of a string is the string itself; of a number, its decimal digits without leading zero ("0" only for zero) reading back as the number, after a `-` exactly when it is negative; of an array, its element texts joined with `","` |
| Json.IntToString | src/components/section-renderer.tsx:14-15 | `String(n)` of an integer is its decimal digits, non-empty and without leading zero ("0" only for zero), reading back as the number, after a `-` exactly when it is negative |
| Json.NatToStringDecimal | src/components/section-renderer.tsx:14-15 | the digits of a natural number are non-empty, have no leading zero unless the number is zero, and read back as the number |
| Json.NatToStringDigits | src/components/section-renderer.tsx:15 | `String(n)` of a natural number is its decimal digits, has no leading zero, and reads back as `n` |

## Left out

- The database client and its I/O are not modelled. The query becomes the relation `Store.FetchResult` over a list of stored profile rows.
- Store.FetchResult: `orderBy: { displayOrder: "asc" }` promises no order among ties, so the relation requires only sortedness and a permutation of the active rows. Likewise any active profile with the earliest `createdAt` may be the one fetched.
- Translations are included without an `orderBy`. The stored list order stands for the order the query returns translations in.
- React's `cache`, `getAllProfilePaths`, `src/app/api/profile/route.ts` and the pages that call `getProfile` are not modelled.
- `Date.prototype.toISOString` is not modelled; `dateOfBirth` is carried as an optional string.
- JavaScript numbers are integers here. Fractions are not modelled, and neither is the exponent form `String` uses from `1e21` up.
- The `Number(...)` coercion of `uiConfig.columns` is not modelled: columns are an optional integer.
- JSX markup, CSS classes, `JSON.stringify` of record values and link detection are not modelled.
- The `MetadataValue` chips are not modelled.
- The hero's stats, highlights, actions and tags are rendered only as far as `AsArrayOf` reads them.
- The section header (`SectionShell`), item titles, the icon initial and the badges layout's level chip are not modelled.
- `Object.entries` lists integer-like keys first, in numeric order. The model keeps insertion order for every key.
- Theme and language-switcher components, layouts, `prisma/seed.ts` and the middleware `matcher` regex are not modelled.
- Metadata columns are assumed to hold records (or be null), with unique keys.
- Metadata.MergeMetadata: requires well-formed records (unique keys at every depth), which every JavaScript object satisfies.
- Metadata.MergeMetadata: an override key `__proto__` is assigned like any other key. In JavaScript, when the copied base has no own `__proto__`, that assignment goes to the prototype setter instead, and the key does not appear in `Object.entries` of the result.
- SectionRenderer.ItemListing: every `showMetadataKeys` that is neither an array nor null is modelled as the empty order list `[]`. The source searches a string there by substring, and throws for any other value once two or more entries are visible.
- SectionRenderer.MetadataListListedFirst: requires an order list no longer than `Number.MAX_SAFE_INTEGER` entries.
- I18n.ToLower: lower-cases ASCII letters only. No other character lower-cases to a letter of `vi`, `en` or `ru`, so support is decided exactly and `normalizeLanguage` returns the same code.

## Findings

| source | as written | input that shows it | evidently intended | confidence | as-written member | corrected member |
|---|---|---|---|---|---|---|
| src/middleware.ts:20 | the single segment is checked after `normalizeLanguage`, which always returns a supported code, so the check never fails | `/fr` passes instead of redirecting to `/vi` | check the segment itself, so only `/{lang}` with a supported code passes | medium; not executed | Middleware.UnknownLanguageSegmentPasses | Middleware.IntendedRedirectsUnknown |
