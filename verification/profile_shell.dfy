/**
 * The badges the profile header shows under the name
 * (src/components/profile-shell.tsx): one per non-null entry of the
 * profile's metadata, at most six, each reading "<Label>: <value>".
 */
module ProfileShell {
  import opened Wrappers
  import opened Json
  import opened Strings
  import opened SectionRenderer

  /** The most badges the header shows. */
  const MaxBadges: nat := 6

  /** `formatLabel`: the same three rewrites as the section renderer's `prettyLabel`. */
  function FormatLabel(text: string): (r: string)
    ensures r == PrettyLabel(text)
  {
    CapitalizeWords(DashesToSpaces(SplitCamel(text)))
  }

  /**
   * A badge's value: an array's elements joined with ", ", anything else
   * `String(value)`. The two differ only in the separator, so a value that is
   * not an array of two or more elements reads as `String(value)`.
   */
  function ValueText(v: Json): (r: string)
    ensures !v.JArr? || |v.elems| <= 1 ==> r == JsString(v)
    ensures v.JArr? ==> r == Join(ElementTexts(v.elems), ", ")
  {
    if v.JArr? then Join(ElementTexts(v.elems), ", ") else JsString(v)
  }

  function BadgeText(entry: (string, Json)): string {
    FormatLabel(entry.0) + ": " + ValueText(entry.1)
  }

  /**
   * `buildProfileBadges`: nothing without metadata; otherwise the first six
   * non-null entries, in entry order, as badge texts.
   */
  function BuildProfileBadges(metadata: Option<Entries>): (r: Option<seq<string>>)
    ensures r.None? <==> metadata.None?
    ensures r.Some? ==>
      var shown := Visible(metadata.value, []);
      && |r.value| == (if |shown| < MaxBadges then |shown| else MaxBadges)
      && forall i :: 0 <= i < |r.value| ==> r.value[i] == BadgeText(shown[i])
  {
    if metadata.None? then None
    else
      var shown := Visible(metadata.value, []);
      var kept := if |shown| < MaxBadges then shown else shown[..MaxBadges];
      Some(seq(|kept|, i requires 0 <= i < |kept| => BadgeText(kept[i])))
  }

  /** Every badge is the text of a non-null entry of the metadata. */
  lemma BadgesFromNonNullEntries(metadata: Entries)
    ensures
      var r := BuildProfileBadges(Some(metadata)).value;
      forall i :: 0 <= i < |r| ==> exists e :: e in metadata && !e.1.JNull? && r[i] == BadgeText(e)
  {
    var r := BuildProfileBadges(Some(metadata)).value;
    forall i | 0 <= i < |r| ensures exists e :: e in metadata && !e.1.JNull? && r[i] == BadgeText(e) {
      BadgeFromEntry(metadata, i);
    }
  }

  lemma BadgeFromEntry(metadata: Entries, i: nat)
    requires i < |BuildProfileBadges(Some(metadata)).value|
    ensures var e := Visible(metadata, [])[i];
      e in metadata && !e.1.JNull? && BuildProfileBadges(Some(metadata)).value[i] == BadgeText(e)
  {
    var shown := Visible(metadata, []);
    assert shown[i] in shown;
  }

  /** With six or fewer non-null entries, every one of them gets a badge. */
  lemma FewEntriesAllShown(metadata: Entries)
    requires |Visible(metadata, [])| <= MaxBadges
    ensures
      var r := BuildProfileBadges(Some(metadata)).value;
      forall e :: e in metadata && !e.1.JNull? ==> BadgeText(e) in r
  {
    var r := BuildProfileBadges(Some(metadata)).value;
    var shown := Visible(metadata, []);
    forall e | e in metadata && !e.1.JNull? ensures BadgeText(e) in r {
      assert e in shown;
      var i :| 0 <= i < |shown| && shown[i] == e;
      assert r[i] == BadgeText(e);
    }
  }

  /** A lower-case word's label is the word capitalized. */
  lemma LowerWordLabel(w: string)
    requires w != [] && forall i :: 0 <= i < |w| ==> 'a' <= w[i] <= 'z'
    ensures FormatLabel(w) == [UpperChar(w[0])] + w[1..]
  {
    SplitCamelFixpoint(w);
    assert DashesToSpaces(w) == w;
    var r := CapitalizeWords(w);
    forall i | 1 <= i < |w| ensures r[i] == w[i] {
      assert !IsWordStart(w, i);
    }
  }

  lemma ExampleVisible(m: Entries)
    requires m == [("city", JStr("Hanoi")), ("remote", JNull), ("stack", JArr([JStr("Go"), JStr("TS")]))]
    ensures Visible(m, []) == [m[0], m[2]]
  {
    assert Visible(m[2..], []) == [m[2]];
    assert m[1..][1..] == m[2..];
  }

  lemma CityText()
    ensures BadgeText(("city", JStr("Hanoi"))) == "City: Hanoi"
  {
    LowerWordLabel("city");
  }

  lemma StackText()
    ensures BadgeText(("stack", JArr([JStr("Go"), JStr("TS")]))) == "Stack: Go, TS"
  {
    LowerWordLabel("stack");
    JoinedExample();
  }

  lemma JoinedExample()
    ensures ValueText(JArr([JStr("Go"), JStr("TS")])) == "Go, TS"
  {
    assert ElementTexts([JStr("Go"), JStr("TS")]) == ["Go", "TS"];
    assert Join(["Go", "TS"], ", ") == "Go, TS" by {
      assert Join(["TS"], ", ") == "TS";
    }
  }

  /** Arrays are joined with ", " and null entries are skipped. */
  lemma BadgesExample()
    ensures BuildProfileBadges(Some([("city", JStr("Hanoi")), ("remote", JNull), ("stack", JArr([JStr("Go"), JStr("TS")]))]))
         == Some(["City: Hanoi", "Stack: Go, TS"])
  {
    var m := [("city", JStr("Hanoi")), ("remote", JNull), ("stack", JArr([JStr("Go"), JStr("TS")]))];
    ExampleVisible(m);
    TwoBadges(m, m[0], m[2]);
    CityText();
    StackText();
  }

  lemma TwoBadges(m: Entries, a: (string, Json), b: (string, Json))
    requires Visible(m, []) == [a, b]
    ensures BuildProfileBadges(Some(m)) == Some([BadgeText(a), BadgeText(b)])
  {
    var r := BuildProfileBadges(Some(m)).value;
    assert |r| == 2 && r[0] == BadgeText(a) && r[1] == BadgeText(b);
    assert r == [BadgeText(a), BadgeText(b)];
  }
}
