/**
 * Language preference and translation choice (src/lib/profile.ts): the
 * database's language enumeration, the preference chain built from the
 * requested code, and the picker that chooses one translation row.
 */
module Translations {
  import opened Wrappers
  import opened I18n

  /** The database's `Language` enumeration. */
  datatype Language = Vi | En | Ru

  /** `toPrismaLanguage`: "vi" and "ru" map to their own value, everything else to `en`. */
  function ToPrismaLanguage(lang: LanguageCode): (r: Language)
    ensures r == Vi <==> lang == "vi"
    ensures r == Ru <==> lang == "ru"
    ensures r == En <==> lang == "en"
  {
    if lang == "vi" then Vi
    else if lang == "ru" then Ru
    else En
  }

  /**
   * `languagePriority`: the requested code first, then the default when it
   * differs, each mapped to the database enumeration.
   */
  function LanguagePriority(lang: LanguageCode): (r: seq<Language>)
    ensures |r| == if lang == DefaultLanguage then 1 else 2
    ensures r[0] == ToPrismaLanguage(lang)
    ensures r[|r| - 1] == ToPrismaLanguage(DefaultLanguage)
    ensures forall i, j :: 0 <= i < j < |r| ==> r[i] != r[j]
  {
    SupportedAreLower();
    var primary: LanguageCode := ToLower(lang);
    var fallback := DefaultLanguage;
    var list := if fallback != primary then [primary, fallback] else [primary];
    seq(|list|, i requires 0 <= i < |list| => ToPrismaLanguage(list[i]))
  }

  /** Index of the first row in `language` `l`, or -1. */
  function IndexOfLanguage<T>(ts: seq<T>, l: Language, langOf: T -> Language): (i: int)
    ensures -1 <= i < |ts|
    ensures i >= 0 ==> langOf(ts[i]) == l && forall j :: 0 <= j < i ==> langOf(ts[j]) != l
    ensures i < 0 ==> forall j :: 0 <= j < |ts| ==> langOf(ts[j]) != l
  {
    if ts == [] then -1
    else if langOf(ts[0]) == l then 0
    else
      var i := IndexOfLanguage(ts[1..], l, langOf);
      if i < 0 then -1 else i + 1
  }

  /** `translations.find((t) => t.language === l)`. */
  function FindByLanguage<T>(ts: seq<T>, l: Language, langOf: T -> Language): (r: Option<T>)
    ensures r.None? <==> IndexOfLanguage(ts, l, langOf) < 0
    ensures r.Some? ==> r.value == ts[IndexOfLanguage(ts, l, langOf)]
  {
    var i := IndexOfLanguage(ts, l, langOf);
    if i < 0 then None else Some(ts[i])
  }

  /**
   * The choice `pickTranslation` makes: the first row in the first
   * preferred language that has one; failing all, the first row; failing
   * that, nothing.
   */
  function Pick<T>(ts: seq<T>, langs: seq<Language>, langOf: T -> Language): Option<T>
    decreases |langs|
  {
    if langs == [] then (if ts == [] then None else Some(ts[0]))
    else
      var m := FindByLanguage(ts, langs[0], langOf);
      if m.Some? then m else Pick(ts, langs[1..], langOf)
  }

  /** `pickTranslation`: the loop over the preferences with its early return. */
  method PickTranslation<T>(translations: seq<T>, languages: seq<Language>, langOf: T -> Language)
      returns (r: Option<T>)
    ensures r == Pick(translations, languages, langOf)
    ensures r.Some? ==> r.value in translations
    ensures r.None? <==> translations == []
  {
    PickIsMember(translations, languages, langOf);
    for i := 0 to |languages|
      invariant Pick(translations, languages, langOf) == Pick(translations, languages[i..], langOf)
    {
      var m := FindByLanguage(translations, languages[i], langOf);
      if m.Some? {
        return m;
      }
      assert languages[i..][1..] == languages[i + 1..];
    }
    r := if |translations| > 0 then Some(translations[0]) else None;
  }

  /** Any choice is a row of the input, and there is one exactly when the input is non-empty. */
  lemma {:induction false} PickIsMember<T>(ts: seq<T>, langs: seq<Language>, langOf: T -> Language)
    ensures Pick(ts, langs, langOf).Some? ==> Pick(ts, langs, langOf).value in ts
    ensures Pick(ts, langs, langOf).None? <==> ts == []
    decreases |langs|
  {
    if langs != [] {
      PickIsMember(ts, langs[1..], langOf);
    }
  }

  /**
   * When preference `k` is the earliest one any row has, the choice is the
   * first row, in list order, in that language.
   */
  lemma {:induction false} PickEarliestPreference<T>(ts: seq<T>, langs: seq<Language>, langOf: T -> Language, k: nat)
    requires k < |langs| && IndexOfLanguage(ts, langs[k], langOf) >= 0
    requires forall k' :: 0 <= k' < k ==> forall j :: 0 <= j < |ts| ==> langOf(ts[j]) != langs[k']
    ensures Pick(ts, langs, langOf) == Some(ts[IndexOfLanguage(ts, langs[k], langOf)])
    decreases k
  {
    if k > 0 {
      assert IndexOfLanguage(ts, langs[0], langOf) < 0 by {
        assert forall j :: 0 <= j < |ts| ==> langOf(ts[j]) != langs[0];
      }
      PickEarliestPreference(ts, langs[1..], langOf, k - 1);
    }
  }

  /** When no row is in any preferred language, the first row is chosen (nothing for no rows). */
  lemma {:induction false} PickFallback<T>(ts: seq<T>, langs: seq<Language>, langOf: T -> Language)
    requires forall k, j :: 0 <= k < |langs| && 0 <= j < |ts| ==> langOf(ts[j]) != langs[k]
    ensures Pick(ts, langs, langOf) == if ts == [] then None else Some(ts[0])
    decreases |langs|
  {
    if langs != [] {
      assert IndexOfLanguage(ts, langs[0], langOf) < 0 by {
        assert forall j :: 0 <= j < |ts| ==> langOf(ts[j]) != langs[0];
      }
      PickFallback(ts, langs[1..], langOf);
    }
  }

  /** The first row in the first preferred language is chosen, whatever the other rows hold. */
  lemma PickFirstPreference<T>(ts: seq<T>, langs: seq<Language>, langOf: T -> Language, j: nat)
    requires langs != [] && j < |ts| && langOf(ts[j]) == langs[0]
    requires forall i :: 0 <= i < j ==> langOf(ts[i]) != langs[0]
    ensures Pick(ts, langs, langOf) == Some(ts[j])
  {
    PickEarliestPreference(ts, langs, langOf, 0);
  }
}
