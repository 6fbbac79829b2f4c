/**
 * The deep merge of a language-neutral metadata record with a translation's
 * override record (`mergeMetadata` in src/lib/profile.ts).
 *
 * `Merge` states the result declaratively: the base's entries in their
 * order, each key the override also sets resolved by `MergeValue`, followed
 * by the override's new keys in their order. `MergeMetadata` is the source's
 * copy-then-assign loop, proved to compute it.
 */
module Metadata {
  import opened Wrappers
  import opened Json

  /**
   * The value a key takes when the override sets it: an array replaces an
   * array, two records merge recursively, anything else (null, a scalar, a
   * change of type) is replaced by the override's value.
   */
  function MergeValue(bv: Json, ov: Json): Json
    decreases ov, 2
  {
    if bv.JArr? && ov.JArr? then ov
    else if bv.JObj? && ov.JObj? then JObj(Merge(bv.fields, ov.fields))
    else ov
  }

  /** The base's entries, in order, with the keys the override sets resolved. */
  function Overlay(base: Entries, over: Entries): (r: Entries)
    decreases JObj(over), 0
    ensures |r| == |base|
  {
    seq(|base|, i requires 0 <= i < |base| =>
      var j := IndexOf(over, base[i].0);
      if j < 0 then base[i]
      else
        assert over[j] in over;
        (base[i].0, MergeValue(base[i].1, over[j].1)))
  }

  /** The override's entries whose key the base lacks, in override order. */
  function Added(base: Entries, over: Entries): (r: Entries)
    ensures forall i :: 0 <= i < |r| ==> !HasKey(base, r[i].0)
  {
    if over == [] then []
    else (if HasKey(base, over[0].0) then [] else [over[0]]) + Added(base, over[1..])
  }

  /** The merged record. */
  function Merge(base: Entries, over: Entries): Entries
    decreases JObj(over), 1
  {
    Overlay(base, over) + Added(base, over)
  }

  // ---- The source's loop ----

  /**
   * `mergeMetadata`: copy the base (an absent base is `{}`), then assign
   * each override entry in turn, recursing where both sides hold records.
   * The result is `Merge` of the two records.
   */
  method MergeMetadata(base: Option<Entries>, override: Option<Entries>) returns (output: Entries)
    requires base.Some? ==> ValidRecord(base.value)
    requires override.Some? ==> ValidRecord(override.value)
    ensures output == Merge(base.GetOr([]), override.GetOr([]))
    decreases if override.Some? then JObj(override.value) else JNull, 1
  {
    var b := base.GetOr([]);
    output := b;
    if override.None? {
      MergeRightIdentity(b);
      return;
    }
    var entries := override.value;
    MergeRightIdentity(b);
    assert entries[..0] == [];
    var i := 0;
    while i < |entries|
      invariant 0 <= i <= |entries|
      invariant output == Merge(b, entries[..i])
    {
      var key, value := entries[i].0, entries[i].1;
      NextEntry(entries, i);
      UnassignedReadsBase(b, entries[..i], key);
      var baseValue := Get(output, key);
      RecordValuesWellFormed(b, key);
      assert entries[i] in entries;
      var newValue := ResolveEntry(baseValue, value);
      LoopStep(b, entries, i, newValue);
      output := Put(output, key, newValue);
      assert output == Merge(b, entries[..i + 1]);
      i := i + 1;
    }
    assert entries[..i] == entries;
  }

  /**
   * The value one override entry assigns: an array replaces an array, two
   * records are merged recursively, anything else is replaced.
   */
  method ResolveEntry(baseValue: Option<Json>, value: Json) returns (newValue: Json)
    requires baseValue.Some? ==> WellFormed(baseValue.value)
    requires WellFormed(value)
    ensures newValue == if baseValue.Some? then MergeValue(baseValue.value, value) else value
    decreases value, 2
  {
    if baseValue.Some? && baseValue.value.JArr? && value.JArr? {
      newValue := value;
    } else if baseValue.Some? && baseValue.value.JObj? && value.JObj? {
      var nested := MergeMetadata(Some(baseValue.value.fields), Some(value.fields));
      newValue := JObj(nested);
    } else {
      newValue := value;
    }
  }

  /** Assigning the resolved value of the next entry extends the merge by that entry. */
  lemma LoopStep(base: Entries, entries: Entries, i: nat, newValue: Json)
    requires UniqueKeys(base) && ValidRecord(entries) && i < |entries|
    requires newValue == if HasKey(base, entries[i].0) then MergeValue(Get(base, entries[i].0).value, entries[i].1) else entries[i].1
    ensures Put(Merge(base, entries[..i]), entries[i].0, newValue) == Merge(base, entries[..i + 1])
  {
    NextEntry(entries, i);
    MergeStep(base, entries[..i], entries[i].0, entries[i].1);
  }

  /** A key the override has not assigned yet still reads the base's value. */
  lemma UnassignedReadsBase(base: Entries, over: Entries, k: string)
    requires !HasKey(over, k)
    ensures Get(Merge(base, over), k) == Get(base, k)
  {
    MergeGet(base, over, k);
  }

  /** The loop's next entry: its key is not among the earlier ones, and its value is well-formed. */
  lemma NextEntry(entries: Entries, i: nat)
    requires ValidRecord(entries) && i < |entries|
    ensures !HasKey(entries[..i], entries[i].0)
    ensures entries[..i + 1] == entries[..i] + [(entries[i].0, entries[i].1)]
    ensures WellFormed(entries[i].1)
  {
  }

  // ---- Properties of the merge ----

  /** An empty override leaves the base as it is. */
  lemma {:induction false} MergeRightIdentity(base: Entries)
    ensures Merge(base, []) == base
  {
    assert Overlay(base, []) == base;
  }

  lemma {:induction false} AddedToEmpty(over: Entries)
    ensures Added([], over) == over
  {
    if over != [] {
      AddedToEmpty(over[1..]);
    }
  }

  /** Over an empty base the merge is the override. */
  lemma MergeLeftIdentity(over: Entries)
    ensures Merge([], over) == over
  {
    AddedToEmpty(over);
  }

  lemma KeysOverlay(base: Entries, over: Entries)
    ensures Keys(Overlay(base, over)) == Keys(base)
  {
  }

  lemma {:induction false} HasKeyAdded(base: Entries, over: Entries, k: string)
    ensures HasKey(Added(base, over), k) <==> !HasKey(base, k) && HasKey(over, k)
    ensures !HasKey(base, k) ==> Get(Added(base, over), k) == Get(over, k)
  {
    if over != [] {
      HasKeyAdded(base, over[1..], k);
      var head := if HasKey(base, over[0].0) then [] else [over[0]];
      GetConcat(head, Added(base, over[1..]), k);
      GetConcat([over[0]], over[1..], k);
      assert over == [over[0]] + over[1..];
      if HasKey(over, k) && !HasKey(over[1..], k) {
        assert over[0].0 == k by {
          var i :| 0 <= i < |over| && over[i].0 == k;
          if i > 0 { assert over[1..][i - 1].0 == k; }
        }
      }
    }
  }

  lemma GetConcat(a: Entries, c: Entries, k: string)
    ensures HasKey(a + c, k) <==> HasKey(a, k) || HasKey(c, k)
    ensures Get(a + c, k) == if HasKey(a, k) then Get(a, k) else Get(c, k)
  {
    var ac := a + c;
    if HasKey(a, k) {
      var i := IndexOf(a, k);
      assert ac[i] == a[i];
      assert forall j :: 0 <= j < i ==> ac[j] == a[j];
      assert IndexOf(ac, k) == i;
    } else if HasKey(c, k) {
      var i := IndexOf(c, k);
      assert ac[|a| + i] == c[i];
      assert forall j :: 0 <= j < |a| ==> ac[j] == a[j];
      assert forall j :: |a| <= j < |a| + i ==> ac[j] == c[j - |a|];
      assert IndexOf(ac, k) == |a| + i;
    } else {
      forall j | 0 <= j < |ac| ensures ac[j].0 != k {
        if j < |a| { assert ac[j] == a[j]; } else { assert ac[j] == c[j - |a|]; }
      }
    }
  }

  /** The merged keys are the base's keys followed by the override's new keys. */
  lemma MergeKeys(base: Entries, over: Entries, k: string)
    ensures HasKey(Merge(base, over), k) <==> HasKey(base, k) || HasKey(over, k)
  {
    KeysOverlay(base, over);
    HasKeyAdded(base, over, k);
    GetConcat(Overlay(base, over), Added(base, over), k);
    HasKeySameKeys(Overlay(base, over), base, k);
  }

  lemma HasKeySameKeys(a: Entries, b: Entries, k: string)
    requires Keys(a) == Keys(b)
    ensures HasKey(a, k) <==> HasKey(b, k)
    ensures HasKey(a, k) ==> IndexOf(a, k) == IndexOf(b, k)
  {
    IndexOfSameKeys(a, b, k);
  }

  /**
   * How each key resolves: a key only the base has keeps its base value, a
   * key only the override has takes the override's value, and a key both
   * have takes `MergeValue` of the two.
   */
  lemma MergeGet(base: Entries, over: Entries, k: string)
    ensures !HasKey(over, k) ==> Get(Merge(base, over), k) == Get(base, k)
    ensures HasKey(over, k) && !HasKey(base, k) ==> Get(Merge(base, over), k) == Get(over, k)
    ensures HasKey(over, k) && HasKey(base, k) ==>
      Get(Merge(base, over), k) == Some(MergeValue(Get(base, k).value, Get(over, k).value))
  {
    var ov := Overlay(base, over);
    KeysOverlay(base, over);
    HasKeySameKeys(ov, base, k);
    GetConcat(ov, Added(base, over), k);
    HasKeyAdded(base, over, k);
    if HasKey(base, k) {
      var i := IndexOf(base, k);
      assert ov[i].0 == k;
    }
  }

  /** The values inside a well-formed record are well-formed. */
  lemma RecordValuesWellFormed(e: Entries, k: string)
    requires ValidRecord(e)
    ensures Get(e, k).Some? ==> WellFormed(Get(e, k).value)
  {
  }

  lemma OverlayAppendNew(base: Entries, over: Entries, k: string, v: Json)
    requires !HasKey(over, k) && !HasKey(base, k)
    ensures Overlay(base, over + [(k, v)]) == Overlay(base, over)
  {
    IndexOfAppend(over, k, v);
    forall i | 0 <= i < |base| ensures base[i].0 != k { }
  }

  lemma OverlayAppendExisting(base: Entries, over: Entries, k: string, v: Json)
    requires !HasKey(over, k) && HasKey(base, k) && UniqueKeys(base)
    ensures Overlay(base, over + [(k, v)])
         == Overlay(base, over)[IndexOf(base, k) := (k, MergeValue(Get(base, k).value, v))]
  {
    IndexOfAppend(over, k, v);
    var idx := IndexOf(base, k);
    var over' := over + [(k, v)];
    assert IndexOf(over', k) == |over|;
    assert over'[|over|] == (k, v);
    forall i | 0 <= i < |base| && i != idx ensures base[i].0 != k { }
  }

  lemma {:induction false} AddedAppend(base: Entries, over: Entries, k: string, v: Json)
    ensures Added(base, over + [(k, v)])
         == Added(base, over) + (if HasKey(base, k) then [] else [(k, v)])
  {
    if over == [] {
      assert Added(base, [(k, v)]) == (if HasKey(base, k) then [] else [(k, v)]) + Added(base, []);
    } else {
      var h := if HasKey(base, over[0].0) then [] else [over[0]];
      var x := if HasKey(base, k) then [] else [(k, v)];
      AddedAppend(base, over[1..], k, v);
      assert (over + [(k, v)])[0] == over[0];
      assert (over + [(k, v)])[1..] == over[1..] + [(k, v)];
      calc {
        Added(base, over + [(k, v)]);
        h + Added(base, over[1..] + [(k, v)]);
        h + (Added(base, over[1..]) + x);
        (h + Added(base, over[1..])) + x;
        Added(base, over) + x;
      }
    }
  }

  /**
   * One turn of the loop: assigning the next override entry to the merge of
   * the entries before it gives the merge with that entry included.
   */
  lemma MergeStep(base: Entries, over: Entries, k: string, v: Json)
    requires !HasKey(over, k) && UniqueKeys(base)
    ensures Merge(base, over + [(k, v)])
         == Put(Merge(base, over), k, if HasKey(base, k) then MergeValue(Get(base, k).value, v) else v)
  {
    AddedAppend(base, over, k, v);
    if HasKey(base, k) {
      MergeStepExisting(base, over, k, v);
    } else {
      OverlayAppendNew(base, over, k, v);
      MergeKeys(base, over, k);
    }
  }

  lemma MergeStepExisting(base: Entries, over: Entries, k: string, v: Json)
    requires !HasKey(over, k) && UniqueKeys(base) && HasKey(base, k)
    requires Added(base, over + [(k, v)]) == Added(base, over)
    ensures Merge(base, over + [(k, v)]) == Put(Merge(base, over), k, MergeValue(Get(base, k).value, v))
  {
    var ov := Overlay(base, over);
    var ad := Added(base, over);
    var x := MergeValue(Get(base, k).value, v);
    var idx := IndexOf(base, k);
    OverlayAppendExisting(base, over, k, v);
    KeysOverlay(base, over);
    HasKeySameKeys(ov, base, k);
    IndexOfPrefix(ov, ad, k);
    UpdateConcat(ov, ad, idx, (k, x));
  }

  lemma IndexOfPrefix(a: Entries, c: Entries, k: string)
    requires HasKey(a, k)
    ensures HasKey(a + c, k) && IndexOf(a + c, k) == IndexOf(a, k)
  {
    var m := a + c;
    var i := IndexOf(a, k);
    assert m[i] == a[i];
    assert forall j :: 0 <= j < i ==> m[j] == a[j];
  }

  lemma UpdateConcat<T>(a: seq<T>, c: seq<T>, i: nat, x: T)
    requires i < |a|
    ensures (a + c)[i := x] == a[i := x] + c
  {
  }

  // ---- Examples ----

  /** Arrays are replaced, not appended: merging {a:[1,2]} with {a:[3]} gives {a:[3]}. */
  lemma ArraysReplaced()
    ensures Merge([("a", JArr([JNum(1), JNum(2)]))], [("a", JArr([JNum(3)]))])
         == [("a", JArr([JNum(3)]))]
  {
    var base := [("a", JArr([JNum(1), JNum(2)]))];
    var over := [("a", JArr([JNum(3)]))];
    assert IndexOf(over, "a") == 0;
    assert base[0].0 == "a";
  }

  /** Nested records merge: {a:{x:1,y:2}} with {a:{y:3}} gives {a:{x:1,y:3}}. */
  lemma NestedRecordsMerged()
    ensures Merge([("a", JObj([("x", JNum(1)), ("y", JNum(2))]))], [("a", JObj([("y", JNum(3))]))])
         == [("a", JObj([("x", JNum(1)), ("y", JNum(3))]))]
  {
    var inner := [("x", JNum(1)), ("y", JNum(2))];
    var innerOver := [("y", JNum(3))];
    assert "x" != "y";
    assert IndexOf(innerOver, "x") == -1;
    assert IndexOf(innerOver, "y") == 0;
    assert inner[1].0 == "y";
    assert Added(inner, innerOver) == [];
    assert Merge(inner, innerOver) == [("x", JNum(1)), ("y", JNum(3))];
    var over := [("a", JObj(innerOver))];
    assert IndexOf(over, "a") == 0;
    assert [("a", JObj(inner))][0].0 == "a";
  }
}
