/**
 * JSON-like values as they come out of the database's JSON columns, with
 * records kept as ordered association lists: JavaScript's `Object.entries`
 * order is insertion order, and both the metadata merge and the renderers
 * depend on it.
 */
module Json {
  import opened Wrappers
  import opened Strings

  datatype Json =
    | JNull
    | JBool(b: bool)
    | JNum(n: int)
    | JStr(s: string)
    | JArr(elems: seq<Json>)
    | JObj(fields: seq<(string, Json)>)

  /** The entries of a record, in `Object.entries` order. */
  type Entries = seq<(string, Json)>

  /** The keys of a record, one per entry: exactly the keys it has. */
  function Keys(e: Entries): (ks: seq<string>)
    ensures |ks| == |e|
    ensures forall k :: k in ks <==> HasKey(e, k)
  {
    var ks := seq(|e|, i requires 0 <= i < |e| => e[i].0);
    assert forall k :: k in ks <==> HasKey(e, k) by {
      forall k | HasKey(e, k) ensures k in ks {
        var i :| 0 <= i < |e| && e[i].0 == k;
        assert ks[i] == k;
      }
    }
    ks
  }

  lemma KeysAt(e: Entries, i: int)
    requires 0 <= i < |e|
    ensures Keys(e)[i] == e[i].0
  {
  }

  predicate HasKey(e: Entries, k: string) {
    exists i :: 0 <= i < |e| && e[i].0 == k
  }

  /** A JavaScript object never holds the same key twice. */
  predicate UniqueKeys(e: Entries) {
    forall i, j :: 0 <= i < j < |e| ==> e[i].0 != e[j].0
  }

  /** Every record inside the value, at any depth, has unique keys. */
  predicate WellFormed(j: Json) {
    match j
    case JArr(xs) => forall i :: 0 <= i < |xs| ==> WellFormed(xs[i])
    case JObj(fs) => UniqueKeys(fs) && forall i :: 0 <= i < |fs| ==> WellFormed(fs[i].1)
    case _ => true
  }

  /** A record as JavaScript can build one: unique keys, well-formed values. */
  predicate ValidRecord(e: Entries) {
    WellFormed(JObj(e))
  }

  /** Position of key `k`, or -1. */
  function IndexOf(e: Entries, k: string): (r: int)
    ensures -1 <= r < |e|
    ensures r >= 0 ==> e[r].0 == k && forall i :: 0 <= i < r ==> e[i].0 != k
    ensures r < 0 <==> !HasKey(e, k)
  {
    if e == [] then -1
    else if e[0].0 == k then 0
    else
      var r := IndexOf(e[1..], k);
      assert forall i :: 1 <= i < |e| ==> e[i] == e[1..][i - 1];
      if r < 0 then -1 else r + 1
  }

  /** Property read `obj[k]`: the value, or None for JavaScript's `undefined`. */
  function Get(e: Entries, k: string): (r: Option<Json>)
    ensures r.None? <==> !HasKey(e, k)
    ensures r.Some? ==> (k, r.value) in e
    ensures UniqueKeys(e) ==> forall i :: 0 <= i < |e| && e[i].0 == k ==> r == Some(e[i].1)
  {
    var i := IndexOf(e, k);
    if i < 0 then None else Some(e[i].1)
  }

  /**
   * Property assignment `obj[k] = v`: an existing key keeps its position and
   * takes the new value, a new key is appended.
   */
  function Put(e: Entries, k: string, v: Json): (r: Entries)
    ensures Get(r, k) == Some(v)
    ensures forall k' :: k' != k ==> Get(r, k') == Get(e, k')
    ensures HasKey(e, k) ==> Keys(r) == Keys(e)
    ensures !HasKey(e, k) ==> r == e + [(k, v)]
    ensures HasKey(e, k) ==> r == e[IndexOf(e, k) := (k, v)]
    ensures UniqueKeys(e) ==> UniqueKeys(r)
  {
    var i := IndexOf(e, k);
    if i < 0 then
      IndexOfAppend(e, k, v);
      e + [(k, v)]
    else
      var r := e[i := (k, v)];
      assert Keys(r) == Keys(e) by {
        forall j | 0 <= j < |e| ensures Keys(r)[j] == Keys(e)[j] {
          KeysAt(r, j);
          KeysAt(e, j);
        }
      }
      IndexOfSameKeys(r, e, k);
      assert forall k' :: k' != k ==> IndexOf(r, k') == IndexOf(e, k') by {
        forall k' | k' != k ensures IndexOf(r, k') == IndexOf(e, k') {
          IndexOfSameKeys(r, e, k');
        }
      }
      r
  }

  lemma IndexOfAppend(e: Entries, k: string, v: Json)
    requires !HasKey(e, k)
    ensures IndexOf(e + [(k, v)], k) == |e|
    ensures forall k' :: k' != k ==> IndexOf(e + [(k, v)], k') == IndexOf(e, k')
  {
    var r := e + [(k, v)];
    assert r[|e|].0 == k;
    forall k' | k' != k ensures IndexOf(r, k') == IndexOf(e, k') {
      var i := IndexOf(r, k');
      if i >= 0 { assert r[i] == e[i]; }
      var j := IndexOf(e, k');
      if j >= 0 { assert r[j] == e[j]; }
    }
  }

  lemma IndexOfSameKeys(a: Entries, b: Entries, k: string)
    requires Keys(a) == Keys(b)
    ensures IndexOf(a, k) == IndexOf(b, k)
  {
    var ia, ib := IndexOf(a, k), IndexOf(b, k);
    assert |a| == |b|;
    if ia >= 0 { KeysAt(a, ia); KeysAt(b, ia); }
    if ib >= 0 { KeysAt(a, ib); KeysAt(b, ib); }
  }

  /** JavaScript truthiness: null, false, 0 and "" are falsy; arrays and objects are truthy. */
  predicate Truthy(j: Json) {
    match j
    case JNull => false
    case JBool(b) => b
    case JNum(n) => n != 0
    case JStr(s) => s != ""
    case _ => true
  }

  /** A property read that yields `undefined` or `null` (what `??` skips). */
  predicate IsNullish(v: Option<Json>) {
    v.None? || v.value.JNull?
  }

  /** `a ?? b` on property reads. */
  function Coalesce(a: Option<Json>, b: Option<Json>): (r: Option<Json>)
    ensures !IsNullish(a) ==> r == a
    ensures IsNullish(a) ==> r == b
  {
    if IsNullish(a) then b else a
  }

  // ---- String(value) ----

  function DigitChar(d: nat): (c: char)
    requires d < 10
    ensures '0' <= c <= '9' && c as int - '0' as int == d
  {
    "0123456789"[d]
  }

  /** Decimal digits of a natural number, without leading zeros. */
  function NatToString(n: nat): (s: string)
    decreases n
  {
    if n < 10 then [DigitChar(n)] else NatToString(n / 10) + [DigitChar(n % 10)]
  }

  /** Value of a string of decimal digits. */
  function DigitsValue(s: string): int
  {
    if s == [] then 0 else DigitsValue(s[..|s| - 1]) * 10 + (s[|s| - 1] as int - '0' as int)
  }

  predicate IsDigits(s: string) {
    forall i :: 0 <= i < |s| ==> '0' <= s[i] <= '9'
  }

  /** The decimal rendering reads back as the number, has digits only and no leading zero. */
  lemma {:induction false} NatToStringDigits(n: nat)
    ensures IsDigits(NatToString(n)) && NatToString(n) != []
    ensures DigitsValue(NatToString(n)) == n
    ensures |NatToString(n)| > 1 ==> NatToString(n)[0] != '0'
  {
    if n >= 10 {
      NatToStringDigits(n / 10);
      var s := NatToString(n);
      assert s[..|s| - 1] == NatToString(n / 10);
    }
  }

  /** `s` is the decimal rendering of `n`: digits only, not empty, no leading zero, reading back as `n`. */
  predicate Decimal(s: string, n: nat) {
    IsDigits(s) && s != [] && (s[0] == '0' ==> s == "0") && DigitsValue(s) == n
  }

  lemma NatToStringDecimal(n: nat)
    ensures Decimal(NatToString(n), n)
  {
    var s := NatToString(n);
    NatToStringDigits(n);
    if s[0] == '0' {
      assert |s| == 1;
      assert s == [s[0]];
    }
  }

  /** `String(n)` for an integer (JavaScript numbers below 1e21 in magnitude). */
  function IntToString(n: int): (r: string)
    ensures n >= 0 ==> Decimal(r, n)
    ensures n < 0 ==> r != [] && r[0] == '-' && Decimal(r[1..], -n)
  {
    NatToStringDigits(if n < 0 then -n else n);
    NatToStringDecimal(if n < 0 then -n else n);
    if n < 0 then
      assert ("-" + NatToString(-n))[1..] == NatToString(-n);
      "-" + NatToString(-n)
    else NatToString(n)
  }

  /** The element texts `Array.prototype.join` uses: null becomes "", others `String(x)`. */
  function ElementTexts(xs: seq<Json>): (r: seq<string>)
    decreases JArr(xs), 0
    ensures |r| == |xs|
  {
    seq(|xs|, i requires 0 <= i < |xs| => if xs[i].JNull? then "" else JsString(xs[i]))
  }

  /**
   * `String(value)` for a JSON value: a string is itself, and a number is its
   * decimal digits, after a `-` when negative.
   */
  function JsString(j: Json): (r: string)
    decreases j, 1
    ensures j.JStr? ==> r == j.s
    ensures j.JNum? && j.n >= 0 ==> Decimal(r, j.n)
    ensures j.JNum? && j.n < 0 ==> r != [] && r[0] == '-' && Decimal(r[1..], -j.n)
    ensures j.JArr? ==> r == Join(ElementTexts(j.elems), ",")
  {
    match j
    case JNull => "null"
    case JBool(b) => if b then "true" else "false"
    case JNum(n) => IntToString(n)
    case JStr(s) => s
    case JArr(xs) => Join(ElementTexts(xs), ",")
    case JObj(_) => "[object Object]"
  }
}
