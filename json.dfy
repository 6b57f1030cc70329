/**
  JSON values as both programs see them once a body is parsed, and the
  canonical text Go's `encoding/json` writes for a decoded value
  (`json.Marshal` of a `map[string]interface{}` or a slice of them).

  An object keeps its members in the order of the text it came from,
  duplicates included. Both nlohmann's parser and Go's decoder keep the LAST
  member of a duplicated key, so every lookup here finds the last one.
 */
module Json {
  import opened Options
  import Decimal

  datatype Value =
    | Null
    | Bool(b: bool)
    | Number(n: int)
    | String(s: string)
    | Array(items: seq<Value>)
    | Object(members: seq<Member>)

  datatype Member = Member(key: string, value: Value)

  // ---------------------------------------------------------------------
  // Lookup

  /** The index of the last member named `key`, the one a decoder keeps. */
  function Find(ms: seq<Member>, key: string): (r: Option<nat>)
    ensures r.Some? ==> r.value < |ms| && ms[r.value].key == key
    ensures r.Some? ==> forall j :: r.value < j < |ms| ==> ms[j].key != key
    ensures r.None? <==> forall j :: 0 <= j < |ms| ==> ms[j].key != key
  {
    if |ms| == 0 then None
    else if ms[|ms| - 1].key == key then Some(|ms| - 1)
    else Find(ms[..|ms| - 1], key)
  }

  /** The member value under `key`, when `v` is an object that has one. */
  function Get(v: Value, key: string): (r: Option<Value>)
    ensures r.Some? <==> v.Object? && Find(v.members, key).Some?
    ensures r.Some? ==> r.value == v.members[Find(v.members, key).value].value
  {
    if v.Object? then
      match Find(v.members, key)
      case Some(j) => Some(v.members[j].value)
      case None => None
    else None
  }

  predicate DistinctKeys(ms: seq<Member>) {
    forall i, j :: 0 <= i < j < |ms| ==> ms[i].key != ms[j].key
  }

  /** In an object whose names are distinct, each name leads to its own member. */
  lemma FindDistinct(ms: seq<Member>, j: nat)
    requires DistinctKeys(ms) && j < |ms|
    ensures Find(ms, ms[j].key) == Some(j)
  {
  }

  // ---------------------------------------------------------------------
  // Key order: Go sorts map keys by their UTF-8 bytes, which orders
  // strings lexicographically by code point.

  predicate Below(a: string, b: string) {
    if |a| == 0 then |b| > 0
    else if |b| == 0 then false
    else a[0] < b[0] || (a[0] == b[0] && Below(a[1..], b[1..]))
  }

  lemma {:induction false} BelowIrreflexive(a: string)
    ensures !Below(a, a)
  {
    if |a| > 0 {
      BelowIrreflexive(a[1..]);
    }
  }

  lemma {:induction false} BelowTransitive(a: string, b: string, c: string)
    requires Below(a, b) && Below(b, c)
    ensures Below(a, c)
  {
    if |a| > 0 && a[0] == b[0] && b[0] == c[0] {
      BelowTransitive(a[1..], b[1..], c[1..]);
    }
  }

  lemma {:induction false} BelowTotal(a: string, b: string)
    ensures a == b || Below(a, b) || Below(b, a)
  {
    if |a| > 0 && |b| > 0 && a[0] == b[0] {
      BelowTotal(a[1..], b[1..]);
      if a[1..] == b[1..] {
        assert a == [a[0]] + a[1..] && b == [b[0]] + b[1..];
      }
    }
  }

  predicate StrictlySorted(ks: seq<string>) {
    forall i, j :: 0 <= i < j < |ks| ==> Below(ks[i], ks[j])
  }

  /** Adds `k` to a strictly sorted list of keys, keeping it sorted. */
  function Insert(ks: seq<string>, k: string): (r: seq<string>)
    requires StrictlySorted(ks)
    ensures StrictlySorted(r)
    ensures forall x :: x in r <==> x in ks || x == k
  {
    if ks == [] then [k]
    else if k == ks[0] then ks
    else if Below(k, ks[0]) then
      assert forall j :: 0 < j < |ks| ==> Below(k, ks[j]) by {
        forall j | 0 < j < |ks| {
          BelowTransitive(k, ks[0], ks[j]);
        }
      }
      [k] + ks
    else
      BelowTotal(k, ks[0]);
      var rest := Insert(ks[1..], k);
      assert forall x :: x in rest ==> Below(ks[0], x) by {
        forall x | x in rest
          ensures Below(ks[0], x)
        {
          if x != k {
            var j :| 1 <= j < |ks| && ks[j] == x;
          }
        }
      }
      [ks[0]] + rest
  }

  /** The distinct member names of an object, in the order Go writes them. */
  function SortedKeys(ms: seq<Member>): (ks: seq<string>)
    ensures StrictlySorted(ks)
    ensures forall k :: k in ks <==> Find(ms, k).Some?
  {
    if ms == [] then []
    else
      var ks := Insert(SortedKeys(ms[..|ms| - 1]), ms[|ms| - 1].key);
      assert forall k :: Find(ms, k).Some? <==> Find(ms[..|ms| - 1], k).Some? || k == ms[|ms| - 1].key;
      ks
  }

  /** Two strictly sorted lists with the same elements are the same list. */
  lemma {:induction false} SortedUnique(a: seq<string>, b: seq<string>)
    requires StrictlySorted(a) && StrictlySorted(b)
    requires forall x :: x in a <==> x in b
    ensures a == b
  {
    if a != [] {
      assert a[0] in a;
    }
    if b != [] {
      assert b[0] in b;
    }
    if a != [] && b != [] {
      if a[0] != b[0] {
        var i :| 0 <= i < |a| && a[i] == b[0];
        var j :| 0 <= j < |b| && b[j] == a[0];
        BelowTransitive(a[0], b[0], a[0]);
        BelowIrreflexive(a[0]);
      }
      forall x | x in a[1..]
        ensures x in b[1..]
      {
        var i :| 1 <= i < |a| && a[i] == x;
        BelowIrreflexive(x);
        assert x in b;
        var j :| 0 <= j < |b| && b[j] == x;
        assert j != 0;
        assert b[1..][j - 1] == x;
      }
      forall x | x in b[1..]
        ensures x in a[1..]
      {
        var j :| 1 <= j < |b| && b[j] == x;
        BelowIrreflexive(x);
        assert x in a;
        var i :| 0 <= i < |a| && a[i] == x;
        assert i != 0;
        assert a[1..][i - 1] == x;
      }
      SortedUnique(a[1..], b[1..]);
      assert a == [a[0]] + a[1..] && b == [b[0]] + b[1..];
    }
  }

  // ---------------------------------------------------------------------
  // Canonical text

  function HexDigit(d: nat): (c: char)
    requires d < 16
  {
    if d < 10 then ('0' as int + d) as char else ('a' as int + d - 10) as char
  }

  /**
    How `json.Marshal` writes one character of a string: quote, backslash
    and the usual control characters get a short escape, the other control
    characters and the HTML-sensitive '<', '>' and '&' get `\u00XX`, the
    two line separators U+2028 and U+2029 get `\u202X`, and every other
    character stands for itself.
   */
  function EscapeChar(c: char): string {
    if c == '"' then "\\\""
    else if c == '\\' then "\\\\"
    else if c == '\n' then "\\n"
    else if c == '\r' then "\\r"
    else if c == '\t' then "\\t"
    else if c as int == 8 then "\\b"
    else if c as int == 12 then "\\f"
    else if c as int < 0x20 || c == '<' || c == '>' || c == '&' then
      "\\u00" + [HexDigit(c as int / 16), HexDigit(c as int % 16)]
    else if c as int == 0x2028 || c as int == 0x2029 then
      "\\u202" + [HexDigit(c as int % 16)]
    else [c]
  }

  function Escape(s: string): string {
    if s == [] then [] else EscapeChar(s[0]) + Escape(s[1..])
  }

  function Quoted(s: string): string {
    "\"" + Escape(s) + "\""
  }

  /** `json.Marshal` of a decoded value. */
  function Serialize(v: Value): string
    decreases v, 1, 0
  {
    match v
    case Null => "null"
    case Bool(b) => if b then "true" else "false"
    case Number(n) => Decimal.Format(n)
    case String(s) => Quoted(s)
    case Array(items) => "[" + ItemsText(v, 0) + "]"
    case Object(ms) => "{" + MembersText(v, SortedKeys(ms), 0) + "}"
  }

  /** The elements of an array from index `i` on, comma-separated. */
  function ItemsText(v: Value, i: nat): string
    requires v.Array? && i <= |v.items|
    decreases v, 0, |v.items| - i
  {
    if i == |v.items| then ""
    else (if i == 0 then "" else ",") + Serialize(v.items[i]) + ItemsText(v, i + 1)
  }

  /** The members of an object named `keys[i..]`, as `"name":value` pairs. */
  function MembersText(v: Value, keys: seq<string>, i: nat): string
    requires v.Object? && i <= |keys|
    requires forall k :: k in keys ==> Find(v.members, k).Some?
    decreases v, 0, |keys| - i
  {
    if i == |keys| then ""
    else
      var j := Find(v.members, keys[i]).value;
      (if i == 0 then "" else ",") + Quoted(keys[i]) + ":" + Serialize(v.members[j].value)
      + MembersText(v, keys, i + 1)
  }

  // ---------------------------------------------------------------------
  // Structural equality

  /**
    Two values are equivalent when they have the same kind and: scalars are
    equal; arrays have the same length and equivalent elements in order;
    objects have the same member names and equivalent values under each
    (member order and overridden duplicates do not matter).
   */
  ghost predicate Equivalent(a: Value, b: Value)
    decreases a
  {
    match a
    case Array(xs) =>
      && b.Array?
      && |xs| == |b.items|
      && forall i :: 0 <= i < |xs| ==> Equivalent(xs[i], b.items[i])
    case Object(ms) =>
      && b.Object?
      && (forall k :: Find(ms, k).Some? <==> Find(b.members, k).Some?)
      && forall k :: Find(ms, k).Some? && Find(b.members, k).Some? ==>
           Equivalent(ms[Find(ms, k).value].value, b.members[Find(b.members, k).value].value)
    case _ => a == b
  }
}
