/**
 * The routing gate in front of every page (src/middleware.ts): framework and
 * API paths pass; every other path must be exactly one segment, otherwise the
 * visitor is sent to the default language's page.
 */
module Middleware {
  import opened Wrappers
  import opened Strings
  import I18n

  datatype Decision = Next | Redirect(target: string)

  /** Paths the gate never touches. */
  predicate Bypassed(pathname: string) {
    StartsWith(pathname, "/_next") || StartsWith(pathname, "/api") || StartsWith(pathname, "/static")
  }

  /** `s.split("/")`: the pieces between separators, joined back by "/" into `s`. */
  function Split(s: string): (parts: seq<string>)
    ensures |parts| >= 1
    ensures forall i :: 0 <= i < |parts| ==> '/' !in parts[i]
    ensures Join(parts, "/") == s
  {
    if s == [] then [""]
    else
      var rest := Split(s[1..]);
      if s[0] == '/' then [""] + rest
      else [[s[0]] + rest[0]] + rest[1..]
  }

  /** `.filter(Boolean)` on strings: drop the empty ones. */
  function NonEmpty(parts: seq<string>): (r: seq<string>)
    ensures forall i :: 0 <= i < |r| ==> r[i] != "" && r[i] in parts
    ensures |r| <= |parts|
  {
    if parts == [] then []
    else if parts[0] == "" then NonEmpty(parts[1..])
    else [parts[0]] + NonEmpty(parts[1..])
  }

  /** The non-empty path segments. */
  function Segments(pathname: string): (segs: seq<string>)
    ensures forall i :: 0 <= i < |segs| ==> segs[i] != "" && '/' !in segs[i]
  {
    NonEmpty(Split(pathname))
  }

  /** The page of the default language. */
  const DefaultTarget: string := "/" + I18n.DefaultLanguage

  /**
   * `middleware`: bypassed paths pass; otherwise exactly one non-empty
   * segment passes (the language check on it cannot fail, since
   * normalisation always yields a supported code) and anything else is
   * redirected to "/vi".
   */
  function Decide(pathname: string): (r: Decision)
    ensures r.Redirect? ==> r.target == "/vi"
    ensures r == Next <==> Bypassed(pathname) || |Segments(pathname)| == 1
  {
    if Bypassed(pathname) then Next
    else
      var segments := Segments(pathname);
      if |segments| == 0 then Redirect(DefaultTarget)
      else if |segments| != 1
        || !I18n.IsSupportedLanguage(Some(I18n.NormalizeLanguage(Some(segments[0])))) then
        Redirect(DefaultTarget)
      else Next
  }

  /** A path made only of slashes has no segment, and conversely. */
  lemma {:induction false} NoSegmentsIffSlashes(p: string)
    ensures Segments(p) == [] <==> forall i :: 0 <= i < |p| ==> p[i] == '/'
  {
    if p != [] {
      NoSegmentsIffSlashes(p[1..]);
      var rest := Split(p[1..]);
      if p[0] == '/' {
        assert Split(p) == [""] + rest;
        assert NonEmpty(Split(p)) == NonEmpty(rest);
        assert forall i :: 1 <= i < |p| ==> p[i] == p[1..][i - 1];
      } else {
        assert Split(p)[0] != "";
      }
    }
  }

  /** The root "/" and any run of slashes such as "//" redirect to "/vi". */
  lemma RootRedirects(p: string)
    requires forall i :: 0 <= i < |p| ==> p[i] == '/'
    ensures Decide(p) == Redirect("/vi")
  {
    NoSegmentsIffSlashes(p);
    if |p| >= 2 { assert p[1] == '/'; }
  }

  /** Two or more non-empty segments redirect, unless the path is bypassed. */
  lemma DeepPathRedirects(p: string)
    requires !Bypassed(p) && |Segments(p)| >= 2
    ensures Decide(p) == Redirect("/vi")
  {
  }

  /** "/fr" passes: a single segment is never checked against the table. */
  lemma UnknownLanguageSegmentPasses()
    ensures Segments("/fr") == ["fr"]
    ensures Decide("/fr") == Next
  {
    assert "/fr" == "/" + "fr";
    OneSegment("fr");
  }

  /** A slash followed by a word without slashes is that one segment. */
  lemma OneSegment(w: string)
    requires w != [] && '/' !in w
    ensures Segments("/" + w) == [w]
  {
    var p := "/" + w;
    SplitNoSlash(w);
    assert p[0] == '/' && p[1..] == w;
    assert Split(p) == [""] + [w];
    assert NonEmpty([""] + [w]) == NonEmpty([w]);
  }

  lemma {:induction false} SplitNoSlash(w: string)
    requires '/' !in w
    ensures Split(w) == [w]
  {
    if w != [] {
      SplitNoSlash(w[1..]);
      assert [w[0]] + w[1..] == w;
    }
  }

  /**
   * The gate as its comment "Only allow /{lang}" describes it: a single
   * segment passes only when it is itself a supported code (after trimming
   * and lower-casing), so "/fr" is redirected.
   */
  function DecideIntended(pathname: string): (r: Decision)
    ensures r.Redirect? ==> r.target == "/vi"
    ensures r == Next <==>
      (Bypassed(pathname) || (|Segments(pathname)| == 1 && I18n.IsSupportedLanguage(Some(Segments(pathname)[0]))))
  {
    if Bypassed(pathname) then Next
    else
      var segments := Segments(pathname);
      if |segments| != 1 || !I18n.IsSupportedLanguage(Some(segments[0])) then Redirect(DefaultTarget)
      else Next
  }

  /** The intended gate is stricter: whatever it lets through, the written gate does too. */
  lemma IntendedStricter(p: string)
    ensures DecideIntended(p) == Next ==> Decide(p) == Next
    ensures DecideIntended(p) != Decide(p) ==>
      !Bypassed(p) && |Segments(p)| == 1 && !I18n.IsSupportedLanguage(Some(Segments(p)[0]))
  {
  }

  /** Under the intended gate "/fr" is redirected. */
  lemma IntendedRedirectsUnknown()
    ensures DecideIntended("/fr") == Redirect("/vi")
  {
    assert Segments("/fr") == ["fr"] by { UnknownLanguageSegmentPasses(); }
    assert !I18n.IsSupportedLanguage(Some("fr")) by { I18n.NormalizeUnknown(); }
    assert !Bypassed("/fr") by { NotBypassed("/fr"); }
    IntendedRedirectsUnsupported("/fr", "fr");
  }

  lemma IntendedRedirectsUnsupported(p: string, segment: string)
    requires !Bypassed(p) && Segments(p) == [segment] && !I18n.IsSupportedLanguage(Some(segment))
    ensures DecideIntended(p) == Redirect("/vi")
  {
  }

  /** Under the intended gate the page of every supported code passes. */
  lemma IntendedPassesSupported(l: I18n.LanguageCode)
    ensures DecideIntended("/" + l) == Next
  {
    var p := "/" + l;
    SupportedCodeShape(l);
    assert Segments(p) == [l] by { OneSegment(l); }
    assert I18n.IsSupportedLanguage(Some(l)) by { I18n.SupportedAreCanonical(); }
    assert !Bypassed(p) by {
      assert p[1] == l[0];
      NotBypassed(p);
    }
    IntendedPassesSupportedSegment(p, l);
  }

  /** Every supported code is a non-empty word without slashes that starts none of the bypassed prefixes. */
  lemma SupportedCodeShape(l: I18n.LanguageCode)
    ensures l != [] && '/' !in l && l[0] != '_' && l[0] != 'a' && l[0] != 's'
  {
    assert l == "vi" || l == "en" || l == "ru";
  }

  lemma IntendedPassesSupportedSegment(p: string, segment: string)
    requires !Bypassed(p) && Segments(p) == [segment] && I18n.IsSupportedLanguage(Some(segment))
    ensures DecideIntended(p) == Next
  {
  }

  lemma NotBypassed(p: string)
    requires |p| >= 2 && p[1] != '_' && p[1] != 'a' && p[1] != 's'
    ensures !Bypassed(p)
  {
    assert !StartsWith(p, "/_next") by { assert "/_next"[1] == '_'; }
    assert !StartsWith(p, "/api") by { assert "/api"[1] == 'a'; }
    assert !StartsWith(p, "/static") by { assert "/static"[1] == 's'; }
  }
}
