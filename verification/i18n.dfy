/**
 * The language table of the site and the normalisation of a requested
 * language tag (src/lib/i18n.ts).
 */
module I18n {
  import opened Wrappers

  /** The supported codes, in declaration order. */
  const SupportedLanguages: seq<string> := ["vi", "en", "ru"]

  type LanguageCode = s: string | s in SupportedLanguages witness "vi"

  /** The first declared code is the default. */
  const DefaultLanguage: LanguageCode := "vi"

  /**
   * The characters `String.prototype.trim` removes: ECMAScript's WhiteSpace
   * (tab, vertical tab, form feed, no-break space, byte order mark and the
   * space separators) and LineTerminator (LF, CR, LS, PS).
   */
  predicate IsWhiteSpace(c: char) {
    c == '\t' || c == '\n' || c == '\U{B}' || c == '\U{C}' || c == '\r' || c == ' '
    || c == '\U{A0}' || c == '\U{1680}' || ('\U{2000}' <= c <= '\U{200A}')
    || c == '\U{2028}' || c == '\U{2029}' || c == '\U{202F}' || c == '\U{205F}'
    || c == '\U{3000}' || c == '\U{FEFF}'
  }

  /** Leading white space removed: the longest suffix that does not start with white space. */
  function TrimStart(s: string): (r: string)
    ensures |r| <= |s| && r == s[|s| - |r|..]
    ensures forall i :: 0 <= i < |s| - |r| ==> IsWhiteSpace(s[i])
    ensures r != [] ==> !IsWhiteSpace(r[0])
  {
    if s != [] && IsWhiteSpace(s[0]) then
      var r := TrimStart(s[1..]);
      assert s[1..][|s| - 1 - |r|..] == s[|s| - |r|..];
      assert forall i :: 1 <= i < |s| - |r| ==> s[i] == s[1..][i - 1];
      r
    else s
  }

  /** Trailing white space removed: the longest prefix that does not end with white space. */
  function TrimEnd(s: string): (r: string)
    ensures |r| <= |s| && r == s[..|r|]
    ensures forall i :: |r| <= i < |s| ==> IsWhiteSpace(s[i])
    ensures r != [] ==> !IsWhiteSpace(r[|r| - 1])
  {
    if s != [] && IsWhiteSpace(s[|s| - 1]) then TrimEnd(s[..|s| - 1]) else s
  }

  /**
   * `s.trim()`: the slice of `s` left between leading and trailing white
   * space, neither starting nor ending with white space.
   */
  function Trim(s: string): (r: string)
    ensures exists a, b :: TrimmedSlice(s, a, b) && r == s[a..b]
    ensures r != [] ==> !IsWhiteSpace(r[0]) && !IsWhiteSpace(r[|r| - 1])
  {
    var t := TrimStart(s);
    var r := TrimEnd(t);
    TrimSlice(s, t, r);
    r
  }

  /** `s[a..b]` is a slice of `s` with only white space before and after it. */
  predicate TrimmedSlice(s: string, a: int, b: int) {
    && 0 <= a <= b <= |s|
    && (forall i :: 0 <= i < a ==> IsWhiteSpace(s[i]))
    && (forall i :: b <= i < |s| ==> IsWhiteSpace(s[i]))
  }

  lemma TrimSlice(s: string, t: string, r: string)
    requires |t| <= |s| && t == s[|s| - |t|..] && forall i :: 0 <= i < |s| - |t| ==> IsWhiteSpace(s[i])
    requires |r| <= |t| && r == t[..|r|] && forall i :: |r| <= i < |t| ==> IsWhiteSpace(t[i])
    ensures TrimmedSlice(s, |s| - |t|, |s| - |t| + |r|) && r == s[|s| - |t|..|s| - |t| + |r|]
  {
    var a := |s| - |t|;
    forall i | a + |r| <= i < |s| ensures IsWhiteSpace(s[i]) {
      assert s[i] == t[i - a];
    }
  }

  function LowerChar(c: char): char {
    if 'A' <= c <= 'Z' then (c as int - 'A' as int + 'a' as int) as char else c
  }

  /**
   * `s.toLowerCase()` on ASCII letters: no capital is left, each capital
   * becomes its lower-case letter, and every other character stays. No other
   * character lower-cases to one of the letters of "vi", "en" or "ru", so
   * membership in the table after lower-casing is decided exactly.
   */
  function ToLower(s: string): (r: string)
    ensures |r| == |s|
    ensures forall i :: 0 <= i < |r| ==> !('A' <= r[i] <= 'Z')
    ensures forall i :: 0 <= i < |s| && 'A' <= s[i] <= 'Z' ==> 'a' <= r[i] <= 'z' && r[i] as int - s[i] as int == 32
    ensures forall i :: 0 <= i < |s| && !('A' <= s[i] <= 'Z') ==> r[i] == s[i]
  {
    seq(|s|, i requires 0 <= i < |s| => LowerChar(s[i]))
  }

  /** `value.trim().toLowerCase()`. */
  function Canonical(s: string): string {
    ToLower(Trim(s))
  }

  lemma TrimNoEdgeSpace(s: string)
    requires s != [] ==> !IsWhiteSpace(s[0]) && !IsWhiteSpace(s[|s| - 1])
    ensures Trim(s) == s
  {
  }

  /** Canonicalising twice changes nothing: lower-casing creates no white space. */
  lemma CanonicalIdempotent(s: string)
    ensures Canonical(Canonical(s)) == Canonical(s)
  {
    var t := Trim(s);
    ToLowerNoEdgeSpace(t);
    TrimNoEdgeSpace(ToLower(t));
    ToLowerIdempotent(t);
  }

  lemma ToLowerNoEdgeSpace(t: string)
    requires t != [] ==> !IsWhiteSpace(t[0]) && !IsWhiteSpace(t[|t| - 1])
    ensures var c := ToLower(t); c != [] ==> !IsWhiteSpace(c[0]) && !IsWhiteSpace(c[|c| - 1])
  {
    if t != [] {
      LowerCharSpace(t[0]);
      LowerCharSpace(t[|t| - 1]);
    }
  }

  lemma ToLowerIdempotent(t: string)
    ensures ToLower(ToLower(t)) == ToLower(t)
  {
    var c := ToLower(t);
    forall i | 0 <= i < |c| ensures ToLower(c)[i] == c[i] {
      LowerCharTwice(t[i]);
    }
  }

  /** Lower-casing neither creates nor removes white space. */
  lemma LowerCharSpace(c: char)
    ensures IsWhiteSpace(LowerChar(c)) <==> IsWhiteSpace(c)
  {
  }

  lemma LowerCharTwice(c: char)
    ensures LowerChar(LowerChar(c)) == LowerChar(c)
  {
  }

  /**
   * `isSupportedLanguage`: absent, null and "" are not; otherwise compare
   * after trim and lower-case. The test for "" decides nothing on its own,
   * since "" trims and lower-cases to "", which is not a code.
   */
  predicate IsSupportedLanguage(value: Option<string>): (r: bool)
    ensures r <==> value.Some? && Canonical(value.value) in SupportedLanguages
  {
    CanonicalEmpty();
    value.Some? && value.value != "" && Canonical(value.value) in SupportedLanguages
  }

  /**
   * `normalizeLanguage`: the canonical form when that is a supported code,
   * the default otherwise; never fails.
   */
  function NormalizeLanguage(value: Option<string>): (r: LanguageCode)
    ensures IsSupportedLanguage(Some(r))
    ensures IsSupportedLanguage(value) ==> r == Canonical(value.value)
    ensures !IsSupportedLanguage(value) ==> r == DefaultLanguage
  {
    var normalized := if value.Some? then Some(Canonical(value.value)) else None;
    CanonicalSupportedIff(value);
    SupportedAreCanonical();
    if IsSupportedLanguage(normalized) then normalized.value else DefaultLanguage
  }

  /** Checking the canonical form decides the same as checking the raw input. */
  lemma CanonicalSupportedIff(value: Option<string>)
    ensures value.Some? ==>
      (IsSupportedLanguage(Some(Canonical(value.value))) <==> IsSupportedLanguage(value))
  {
    if value.Some? {
      var v := value.value;
      var c := Canonical(v);
      SupportedDecidedOnCanonical(v, c);
      if v == "" {
        CanonicalEmpty();
      } else if c == "" {
        EmptyUnsupported();
      } else {
        CanonicalIdempotent(v);
      }
    }
  }

  lemma SupportedDecidedOnCanonical(v: string, c: string)
    requires c == Canonical(v)
    ensures IsSupportedLanguage(Some(v)) == (v != "" && c in SupportedLanguages)
    ensures IsSupportedLanguage(Some(c)) == (c != "" && Canonical(c) in SupportedLanguages)
  {
  }

  lemma EmptyUnsupported()
    ensures "" !in SupportedLanguages
  {
  }

  lemma CanonicalEmpty()
    ensures Canonical("") == ""
  {
    assert TrimStart("") == "";
    assert TrimEnd("") == "";
  }

  /** Each supported code is its own canonical form. */
  lemma SupportedAreCanonical()
    ensures forall l :: l in SupportedLanguages ==> Canonical(l) == l && IsSupportedLanguage(Some(l))
  {
    forall l | l in SupportedLanguages ensures Canonical(l) == l && IsSupportedLanguage(Some(l)) {
      if l == "vi" {
        assert l == ['v', 'i'];
        TwoLowerLetters('v', 'i');
      } else if l == "en" {
        assert l == ['e', 'n'];
        TwoLowerLetters('e', 'n');
      } else {
        assert l == ['r', 'u'];
        TwoLowerLetters('r', 'u');
      }
    }
  }

  lemma TwoLowerLetters(a: char, b: char)
    requires 'a' <= a <= 'z' && 'a' <= b <= 'z'
    ensures Canonical([a, b]) == [a, b] && ToLower([a, b]) == [a, b]
  {
    LowerLetter(a);
    LowerLetter(b);
    var s := [a, b];
    assert TrimStart(s) == s;
    assert TrimEnd(s) == s;
    assert ToLower(s) == [LowerChar(a), LowerChar(b)];
  }

  lemma LowerLetter(c: char)
    requires 'a' <= c <= 'z'
    ensures !IsWhiteSpace(c) && LowerChar(c) == c
  {
  }

  /** A string of lower-case ASCII letters is its own canonical form. */
  lemma LowerLettersCanonical(s: string)
    requires forall i :: 0 <= i < |s| ==> 'a' <= s[i] <= 'z'
    ensures Canonical(s) == s
  {
    LowerLettersUntrimmed(s);
    LowerLettersUnchanged(s);
  }

  lemma LowerLettersUntrimmed(s: string)
    requires forall i :: 0 <= i < |s| ==> 'a' <= s[i] <= 'z'
    ensures Trim(s) == s
  {
    if s != [] {
      assert !IsWhiteSpace(s[0]) && !IsWhiteSpace(s[|s| - 1]);
    }
    TrimNoEdgeSpace(s);
  }

  lemma LowerLettersUnchanged(s: string)
    requires forall i :: 0 <= i < |s| ==> 'a' <= s[i] <= 'z'
    ensures ToLower(s) == s
  {
    forall i | 0 <= i < |s| ensures ToLower(s)[i] == s[i] {
      assert !('A' <= s[i] <= 'Z');
    }
  }

  /** Lower-casing leaves every supported code unchanged. */
  lemma SupportedAreLower()
    ensures forall l :: l in SupportedLanguages ==> ToLower(l) == l
  {
    SupportedAreCanonical();
  }

  /** A supported code normalises to itself. */
  lemma NormalizeSupportedIdentity(l: LanguageCode)
    ensures NormalizeLanguage(Some(l)) == l
  {
    SupportedAreCanonical();
  }

  /** Normalising a normalised code changes nothing. */
  lemma NormalizeIdempotent(value: Option<string>)
    ensures NormalizeLanguage(Some(NormalizeLanguage(value))) == NormalizeLanguage(value)
  {
    NormalizeSupportedIdentity(NormalizeLanguage(value));
  }

  /** Absent and empty inputs are unsupported and fall back to "vi". */
  lemma NormalizeAbsent()
    ensures !IsSupportedLanguage(None) && !IsSupportedLanguage(Some(""))
    ensures NormalizeLanguage(None) == "vi"
  {
  }

  /** An unknown code such as "fr" falls back to "vi". */
  lemma NormalizeUnknown()
    ensures !IsSupportedLanguage(Some("fr"))
    ensures NormalizeLanguage(Some("fr")) == "vi"
  {
    LowerLettersCanonical("fr");
    assert "fr" != "vi" && "fr" != "en" && "fr" != "ru";
  }

  /** Comparison happens after trimming and lower-casing, so " EN " is English. */
  lemma NormalizePadded()
    ensures IsSupportedLanguage(Some(" EN ")) && NormalizeLanguage(Some(" EN ")) == "en"
  {
    PaddedEnglish();
  }

  lemma PaddedEnglish()
    ensures Canonical(" EN ") == "en"
  {
    TrimPadded();
    LowerEN();
  }

  lemma TrimPadded()
    ensures Trim(" EN ") == "EN"
  {
    var w := "EN";
    assert !IsWhiteSpace(w[0]) && !IsWhiteSpace(w[1]);
    assert " EN " == [' '] + w + [' '];
    TrimOneSpace(w);
  }

  /** One space on each side of a word without edge white space is trimmed away. */
  lemma TrimOneSpace(w: string)
    requires w != [] && !IsWhiteSpace(w[0]) && !IsWhiteSpace(w[|w| - 1])
    ensures Trim([' '] + w + [' ']) == w
  {
    var s, t := [' '] + w + [' '], w + [' '];
    assert s[0] == ' ' && s[1..] == t;
    TrimStartSkip(s);
    assert t[0] == w[0];
    TrimStartStop(t);
    assert t[|t| - 1] == ' ' && t[..|t| - 1] == w;
    TrimEndSkip(t);
    TrimEndStop(w);
  }

  lemma TrimStartSkip(s: string)
    requires s != [] && IsWhiteSpace(s[0])
    ensures TrimStart(s) == TrimStart(s[1..])
  {
  }

  lemma TrimStartStop(s: string)
    requires s != [] && !IsWhiteSpace(s[0])
    ensures TrimStart(s) == s
  {
  }

  lemma TrimEndSkip(s: string)
    requires s != [] && IsWhiteSpace(s[|s| - 1])
    ensures TrimEnd(s) == TrimEnd(s[..|s| - 1])
  {
  }

  lemma TrimEndStop(s: string)
    requires s != [] && !IsWhiteSpace(s[|s| - 1])
    ensures TrimEnd(s) == s
  {
  }

  lemma LowerEN()
    ensures ToLower("EN") == "en"
  {
    assert ToLower(['E', 'N']) == ['e', 'n'];
  }
}
