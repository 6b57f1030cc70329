/**
  What comparing canonical texts means: two decoded values are written the
  same by `json.Marshal` exactly when they are structurally equivalent, so
  the order of object members never matters and array order always does.
 */
module JsonLaws {
  import opened Options
  import Decimal
  import opened Json

  // ---------------------------------------------------------------------
  // Equivalent values have the same text

  lemma {:induction false} EquivalentSameText(a: Value, b: Value)
    requires Equivalent(a, b)
    ensures Serialize(a) == Serialize(b)
    decreases a, 1, 0
  {
    match a
    case Array(xs) =>
      ItemsSameText(a, b, 0);
    case Object(ms) =>
      SortedUnique(SortedKeys(ms), SortedKeys(b.members));
      MembersSameText(a, b, SortedKeys(ms), 0);
    case _ =>
  }

  lemma {:induction false} ItemsSameText(a: Value, b: Value, i: nat)
    requires a.Array? && Equivalent(a, b) && i <= |a.items|
    ensures b.Array? && i <= |b.items| && ItemsText(a, i) == ItemsText(b, i)
    decreases a, 0, |a.items| - i
  {
    if i < |a.items| {
      EquivalentSameText(a.items[i], b.items[i]);
      ItemsSameText(a, b, i + 1);
    }
  }

  lemma {:induction false} MembersSameText(a: Value, b: Value, keys: seq<string>, i: nat)
    requires a.Object? && Equivalent(a, b) && i <= |keys|
    requires forall k :: k in keys ==> Find(a.members, k).Some?
    ensures b.Object? && forall k :: k in keys ==> Find(b.members, k).Some?
    ensures MembersText(a, keys, i) == MembersText(b, keys, i)
    decreases a, 0, |keys| - i
  {
    if i < |keys| {
      EquivalentAt(a, b, keys[i]);
      var ja := Find(a.members, keys[i]).value;
      var jb := Find(b.members, keys[i]).value;
      EquivalentSameText(a.members[ja].value, b.members[jb].value);
      MembersSameText(a, b, keys, i + 1);
      MembersStep(a, b, keys, i);
    }
  }

  /** What equivalence of two objects says about one member name. */
  lemma EquivalentAt(a: Value, b: Value, k: string)
    requires a.Object? && Equivalent(a, b) && Find(a.members, k).Some?
    ensures b.Object? && Find(b.members, k).Some?
    ensures Equivalent(a.members[Find(a.members, k).value].value, b.members[Find(b.members, k).value].value)
  {
  }

  lemma MembersStep(a: Value, b: Value, keys: seq<string>, i: nat)
    requires a.Object? && b.Object? && i < |keys|
    requires forall k :: k in keys ==> Find(a.members, k).Some?
    requires forall k :: k in keys ==> Find(b.members, k).Some?
    requires Serialize(a.members[Find(a.members, keys[i]).value].value)
          == Serialize(b.members[Find(b.members, keys[i]).value].value)
    requires MembersText(a, keys, i + 1) == MembersText(b, keys, i + 1)
    ensures MembersText(a, keys, i) == MembersText(b, keys, i)
  {
  }

  // ---------------------------------------------------------------------
  // Equal text means equivalent values

  /** What may follow a value in a text without making it ambiguous. */
  predicate Stop(s: string) {
    s == [] || !Decimal.IsDigit(s[0])
  }

  lemma Assoc(p: string, q: string, r: string)
    ensures p + q + r == p + (q + r)
  {
  }

  lemma SplitEqual(p: string, q: string, s: string, t: string)
    requires p + s == q + t && |p| == |q|
    ensures p == q && s == t
  {
    assert p == (p + s)[..|p|] && q == (q + t)[..|q|];
    assert s == (p + s)[|p|..] && t == (q + t)[|q|..];
  }

  /** The class of a value's first character: it fixes the value's kind. */
  function LeadClass(c: char): nat {
    if c == 'n' then 0
    else if c == 't' then 1
    else if c == 'f' then 2
    else if c == '-' || Decimal.IsDigit(c) then 3
    else if c == '"' then 4
    else if c == '[' then 5
    else if c == '{' then 6
    else 7
  }

  function KindOf(v: Value): nat {
    match v
    case Null => 0
    case Bool(b) => if b then 1 else 2
    case Number(_) => 3
    case String(_) => 4
    case Array(_) => 5
    case Object(_) => 6
  }

  lemma LeadOfSerialize(v: Value, s: string)
    ensures |Serialize(v)| > 0
    ensures LeadClass((Serialize(v) + s)[0]) == KindOf(v)
  {
    match v
    case Number(n) =>
      assert (Serialize(v) + s)[0] == Decimal.Format(n)[0];
    case _ =>
  }

  /** Length of the escape code at the front of `x`, read off its first characters. */
  function CodeLength(x: string): nat
    requires |x| > 0
  {
    if x[0] != '\\' then 1 else if |x| > 1 && x[1] == 'u' then 6 else 2
  }

  lemma CodeLengthOf(c: char, u: string)
    ensures |EscapeChar(c)| > 0
    ensures CodeLength(EscapeChar(c) + u) == |EscapeChar(c)|
  {
    var e := EscapeChar(c);
    assert (e + u)[0] == e[0];
    if |e| > 1 {
      assert (e + u)[1] == e[1];
    }
  }

  function HexValue(h: char): int {
    if h <= '9' then h as int - '0' as int else h as int - 'a' as int + 10
  }

  /** The code point an escape code stands for: the inverse of `EscapeChar`. */
  function Unescape(e: string): int {
    if |e| == 1 then e[0] as int
    else if |e| == 2 then
      var x := e[1];
      if x == 'n' then '\n' as int
      else if x == 'r' then '\r' as int
      else if x == 't' then '\t' as int
      else if x == 'b' then 8
      else if x == 'f' then 12
      else x as int
    else if |e| == 6 && e[2] == '0' then HexValue(e[4]) * 16 + HexValue(e[5])
    else if |e| == 6 then 0x2020 + HexValue(e[5])
    else 0
  }

  lemma HexRoundTrip(d: nat)
    requires d < 16
    ensures HexValue(HexDigit(d)) == d
  {
  }

  lemma UnescapeEscapeChar(c: char)
    ensures Unescape(EscapeChar(c)) == c as int
  {
    if c as int < 0x20 || c == '<' || c == '>' || c == '&' {
      HexRoundTrip(c as int / 16);
      HexRoundTrip(c as int % 16);
    } else if c as int == 0x2028 || c as int == 0x2029 {
      HexRoundTrip(c as int % 16);
    }
  }

  lemma EscapeCharInjective(c: char, d: char)
    requires EscapeChar(c) == EscapeChar(d)
    ensures c == d
  {
    UnescapeEscapeChar(c);
    UnescapeEscapeChar(d);
  }

  lemma EscapeCharUnique(c: char, d: char, u: string, w: string)
    requires EscapeChar(c) + u == EscapeChar(d) + w
    ensures c == d && u == w
  {
    CodeLengthOf(c, u);
    CodeLengthOf(d, w);
    SplitEqual(EscapeChar(c), EscapeChar(d), u, w);
    EscapeCharInjective(c, d);
  }

  /** An escaped string is followed by a quote exactly where it ends. */
  lemma EscapeLead(x: string, s: string)
    requires s != [] && s[0] == '"'
    ensures ((Escape(x) + s)[0] == '"') == (x == [])
  {
    if x != [] {
      EscapeCons(x, s);
      EscapeCharLead(x[0]);
      var e := EscapeChar(x[0]);
      assert (e + (Escape(x[1..]) + s))[0] == e[0];
    }
  }

  /** No escape code starts with a quote. */
  lemma EscapeCharLead(c: char)
    ensures |EscapeChar(c)| > 0 && EscapeChar(c)[0] != '"'
  {
  }

  lemma EscapeCons(x: string, s: string)
    requires x != []
    ensures Escape(x) + s == EscapeChar(x[0]) + (Escape(x[1..]) + s)
  {
    Assoc(EscapeChar(x[0]), Escape(x[1..]), s);
  }

  lemma {:induction false} EscapeUnique(x: string, y: string, s: string, t: string)
    requires Escape(x) + s == Escape(y) + t
    requires s != [] && s[0] == '"' && t != [] && t[0] == '"'
    ensures x == y && s == t
  {
    EscapeLead(x, s);
    EscapeLead(y, t);
    if x != [] {
      EscapeCons(x, s);
      EscapeCons(y, t);
      EscapeCharUnique(x[0], y[0], Escape(x[1..]) + s, Escape(y[1..]) + t);
      EscapeUnique(x[1..], y[1..], s, t);
      assert x == [x[0]] + x[1..] && y == [y[0]] + y[1..];
    } else {
      assert Escape(x) == [] && Escape(y) == [];
      assert s == Escape(x) + s;
      assert t == Escape(y) + t;
    }
  }

  lemma StripQuote(e: string, f: string, s: string, t: string)
    requires "\"" + e + "\"" + s == "\"" + f + "\"" + t
    ensures e + ("\"" + s) == f + ("\"" + t)
  {
    assert "\"" + e + "\"" + s == "\"" + (e + ("\"" + s));
    assert "\"" + f + "\"" + t == "\"" + (f + ("\"" + t));
    SplitEqual("\"", "\"", e + ("\"" + s), f + ("\"" + t));
  }

  /** A quoted string followed by anything is cut off in one way only. */
  lemma QuotedUnique(x: string, y: string, s: string, t: string)
    requires Quoted(x) + s == Quoted(y) + t
    ensures x == y && s == t
  {
    StripQuote(Escape(x), Escape(y), s, t);
    EscapeUnique(x, y, "\"" + s, "\"" + t);
    SplitEqual("\"", "\"", s, t);
  }

  /**
    Equal texts, each followed by something that cannot continue a number,
    come from equivalent values.
   */
  lemma {:induction false} SerializeUnique(a: Value, b: Value, s: string, t: string)
    requires Serialize(a) + s == Serialize(b) + t
    requires Stop(s) && Stop(t)
    ensures Equivalent(a, b) && s == t
    decreases a, 2, 0, 0
  {
    LeadOfSerialize(a, s);
    LeadOfSerialize(b, t);
    match a
    case Null =>
      SplitEqual(Serialize(a), Serialize(b), s, t);
    case Bool(_) =>
      SplitEqual(Serialize(a), Serialize(b), s, t);
    case Number(m) =>
      Decimal.FormatUnique(m, b.n, s, t);
    case String(x) =>
      QuotedUnique(x, b.s, s, t);
    case Array(_) =>
      ArrayUnique(a, b, s, t);
    case Object(_) =>
      ObjectUnique(a, b, s, t);
  }

  lemma {:induction false} ArrayUnique(a: Value, b: Value, s: string, t: string)
    requires a.Array? && b.Array?
    requires Serialize(a) + s == Serialize(b) + t
    ensures Equivalent(a, b) && s == t
    decreases a, 1, 0, 0
  {
    Assoc4("[", ItemsText(a, 0), "]", s);
    Assoc4("[", ItemsText(b, 0), "]", t);
    SplitEqual("[", "[", ItemsText(a, 0) + ("]" + s), ItemsText(b, 0) + ("]" + t));
    ItemsUnique(a, b, 0, s, t);
  }

  lemma {:induction false} ObjectUnique(a: Value, b: Value, s: string, t: string)
    requires a.Object? && b.Object?
    requires Serialize(a) + s == Serialize(b) + t
    ensures Equivalent(a, b) && s == t
    decreases a, 1, 0, 0
  {
    var ka, kb := SortedKeys(a.members), SortedKeys(b.members);
    Assoc4("{", MembersText(a, ka, 0), "}", s);
    Assoc4("{", MembersText(b, kb, 0), "}", t);
    SplitEqual("{", "{", MembersText(a, ka, 0) + ("}" + s), MembersText(b, kb, 0) + ("}" + t));
    MembersUnique(a, b, ka, kb, 0, s, t);
    forall k | 0 <= k < |ka|
      ensures ka[k] == kb[k]
    {
      AgreeAt(a, b, ka, kb, 0, k);
    }
    assert ka == kb;
    forall k | Find(a.members, k).Some? && Find(b.members, k).Some?
      ensures Equivalent(a.members[Find(a.members, k).value].value, b.members[Find(b.members, k).value].value)
    {
      var i :| 0 <= i < |ka| && ka[i] == k;
      AgreeAt(a, b, ka, kb, 0, i);
    }
  }

  lemma Assoc4(p: string, q: string, u: string, r: string)
    ensures p + q + u + r == p + (q + (u + r))
  {
  }

  lemma Assoc5(p: string, q: string, u: string, w: string, r: string)
    ensures p + q + u + w + r == p + (q + (u + (w + r)))
  {
  }

  lemma ItemsCons(a: Value, i: nat, r: string)
    requires a.Array? && i < |a.items|
    ensures ItemsText(a, i) + r
         == (if i == 0 then "" else ",") + (Serialize(a.items[i]) + (ItemsText(a, i + 1) + r))
  {
    Assoc4(if i == 0 then "" else ",", Serialize(a.items[i]), ItemsText(a, i + 1), r);
  }

  lemma LeadOfAppend(p: string, r: string)
    requires |p| > 0
    ensures (p + r)[0] == p[0]
  {
  }

  /** The first character after the elements from `i` on. */
  lemma ItemsLead(a: Value, i: nat, r: string)
    requires a.Array? && i <= |a.items| && r != []
    ensures i == |a.items| ==> ItemsText(a, i) + r == r
    ensures i < |a.items| ==> (ItemsText(a, i) + r)[0] == if i == 0 then Serialize(a.items[0])[0] else ','
    ensures i < |a.items| ==> (ItemsText(a, i) + r)[0] != ']'
  {
    if i < |a.items| {
      ItemsCons(a, i, r);
      var rest := ItemsText(a, i + 1) + r;
      LeadOfSerialize(a.items[i], rest);
      LeadOfAppend(Serialize(a.items[i]), rest);
      if i == 0 {
        assert "" + (Serialize(a.items[i]) + rest) == Serialize(a.items[i]) + rest;
      } else {
        LeadOfAppend(",", Serialize(a.items[i]) + rest);
      }
    } else {
      assert ItemsText(a, i) == "";
    }
  }

  /** What may follow the element at `i`: a comma or the closing bracket. */
  lemma ItemsRestStops(a: Value, i: nat, s: string)
    requires a.Array? && i < |a.items|
    ensures Stop(ItemsText(a, i + 1) + ("]" + s))
  {
    ItemsLead(a, i + 1, "]" + s);
    if i + 1 == |a.items| {
      assert (ItemsText(a, i + 1) + ("]" + s))[0] == ']';
    }
  }

  lemma {:induction false} ItemsUnique(a: Value, b: Value, i: nat, s: string, t: string)
    requires a.Array? && b.Array? && i <= |a.items| && i <= |b.items|
    requires ItemsText(a, i) + ("]" + s) == ItemsText(b, i) + ("]" + t)
    ensures |a.items| == |b.items| && s == t
    ensures forall k :: i <= k < |a.items| ==> Equivalent(a.items[k], b.items[k])
    decreases a, 0, |a.items| - i, 1
  {
    ItemsLead(a, i, "]" + s);
    ItemsLead(b, i, "]" + t);
    if i == |a.items| {
      SplitEqual("]", "]", s, t);
    } else {
      ItemsStep(a, b, i, s, t);
      ItemsUnique(a, b, i + 1, s, t);
    }
  }

  lemma {:induction false} ItemsStep(a: Value, b: Value, i: nat, s: string, t: string)
    requires a.Array? && b.Array? && i < |a.items| && i < |b.items|
    requires ItemsText(a, i) + ("]" + s) == ItemsText(b, i) + ("]" + t)
    ensures Equivalent(a.items[i], b.items[i])
    ensures ItemsText(a, i + 1) + ("]" + s) == ItemsText(b, i + 1) + ("]" + t)
    decreases a, 0, |a.items| - i, 0
  {
    var sep: string := if i == 0 then "" else ",";
    var ra := ItemsText(a, i + 1) + ("]" + s);
    var rb := ItemsText(b, i + 1) + ("]" + t);
    ItemsCons(a, i, "]" + s);
    ItemsCons(b, i, "]" + t);
    SplitEqual(sep, sep, Serialize(a.items[i]) + ra, Serialize(b.items[i]) + rb);
    ItemsRestStops(a, i, s);
    ItemsRestStops(b, i, t);
    SerializeUnique(a.items[i], b.items[i], ra, rb);
  }

  lemma MembersCons(a: Value, keys: seq<string>, i: nat, r: string)
    requires a.Object? && i < |keys|
    requires forall k :: k in keys ==> Find(a.members, k).Some?
    ensures MembersText(a, keys, i) + r
         == (if i == 0 then "" else ",") + (Quoted(keys[i]) + (":"
            + (Serialize(a.members[Find(a.members, keys[i]).value].value) + (MembersText(a, keys, i + 1) + r))))
  {
    Assoc5(if i == 0 then "" else ",", Quoted(keys[i]), ":",
           Serialize(a.members[Find(a.members, keys[i]).value].value), MembersText(a, keys, i + 1) + r);
    Assoc(Serialize(a.members[Find(a.members, keys[i]).value].value), MembersText(a, keys, i + 1), r);
  }

  lemma QuoteLead(e: string, r: string)
    ensures ("\"" + e + "\"" + r)[0] == '"'
  {
  }

  /** The first character after the members from `i` on. */
  lemma MembersLead(a: Value, keys: seq<string>, i: nat, r: string)
    requires a.Object? && i <= |keys| && r != []
    requires forall k :: k in keys ==> Find(a.members, k).Some?
    ensures i == |keys| ==> MembersText(a, keys, i) + r == r
    ensures i < |keys| ==> (MembersText(a, keys, i) + r)[0] == if i == 0 then '"' else ','
  {
    if i < |keys| {
      MembersCons(a, keys, i, r);
      var rest := ":" + (Serialize(a.members[Find(a.members, keys[i]).value].value) + (MembersText(a, keys, i + 1) + r));
      QuoteLead(Escape(keys[i]), rest);
      if i == 0 {
        assert "" + (Quoted(keys[i]) + rest) == Quoted(keys[i]) + rest;
      } else {
        LeadOfAppend(",", Quoted(keys[i]) + rest);
      }
    } else {
      assert MembersText(a, keys, i) == "";
    }
  }

  /** What may follow a member value: a comma or the closing brace. */
  lemma MembersRestStops(a: Value, keys: seq<string>, i: nat, s: string)
    requires a.Object? && i < |keys|
    requires forall k :: k in keys ==> Find(a.members, k).Some?
    ensures Stop(MembersText(a, keys, i + 1) + ("}" + s))
  {
    MembersLead(a, keys, i + 1, "}" + s);
    if i + 1 == |keys| {
      assert (MembersText(a, keys, i + 1) + ("}" + s))[0] == '}';
    }
  }

  lemma {:induction false} MembersUnique(a: Value, b: Value, ka: seq<string>, kb: seq<string>, i: nat, s: string, t: string)
    requires a.Object? && b.Object? && i <= |ka| && i <= |kb|
    requires forall k :: k in ka ==> Find(a.members, k).Some?
    requires forall k :: k in kb ==> Find(b.members, k).Some?
    requires MembersText(a, ka, i) + ("}" + s) == MembersText(b, kb, i) + ("}" + t)
    ensures |ka| == |kb| && s == t && AgreeFrom(a, b, ka, kb, i)
    decreases a, 0, |ka| - i, 2
  {
    MembersEndTogether(a, b, ka, kb, i, s, t);
    if i == |ka| {
      SplitEqual("}", "}", s, t);
    } else {
      MembersNext(a, b, ka, kb, i, s, t);
    }
  }

  lemma {:induction false} MembersNext(a: Value, b: Value, ka: seq<string>, kb: seq<string>, i: nat, s: string, t: string)
    requires a.Object? && b.Object? && i < |ka| && i < |kb|
    requires forall k :: k in ka ==> Find(a.members, k).Some?
    requires forall k :: k in kb ==> Find(b.members, k).Some?
    requires MembersText(a, ka, i) + ("}" + s) == MembersText(b, kb, i) + ("}" + t)
    ensures |ka| == |kb| && s == t && AgreeFrom(a, b, ka, kb, i)
    decreases a, 0, |ka| - i, 1
  {
    MembersStepUnique(a, b, ka, kb, i, s, t);
    MembersUnique(a, b, ka, kb, i + 1, s, t);
  }

  /** The values under the `k`-th names of two objects are equivalent. */
  ghost predicate MemberEquivalent(a: Value, b: Value, ka: seq<string>, kb: seq<string>, k: nat)
    requires a.Object? && b.Object? && k < |ka| && k < |kb|
    requires forall x :: x in ka ==> Find(a.members, x).Some?
    requires forall x :: x in kb ==> Find(b.members, x).Some?
  {
    Equivalent(a.members[Find(a.members, ka[k]).value].value, b.members[Find(b.members, kb[k]).value].value)
  }

  /** From index `i` on, both name lists agree and so do the values under them. */
  ghost predicate AgreeFrom(a: Value, b: Value, ka: seq<string>, kb: seq<string>, i: nat)
    requires a.Object? && b.Object? && i <= |ka| && |ka| == |kb|
    requires forall x :: x in ka ==> Find(a.members, x).Some?
    requires forall x :: x in kb ==> Find(b.members, x).Some?
    decreases |ka| - i
  {
    i == |ka| || (ka[i] == kb[i] && MemberEquivalent(a, b, ka, kb, i) && AgreeFrom(a, b, ka, kb, i + 1))
  }

  lemma {:induction false} AgreeAt(a: Value, b: Value, ka: seq<string>, kb: seq<string>, i: nat, k: nat)
    requires a.Object? && b.Object? && i <= k < |ka| && |ka| == |kb|
    requires forall x :: x in ka ==> Find(a.members, x).Some?
    requires forall x :: x in kb ==> Find(b.members, x).Some?
    requires AgreeFrom(a, b, ka, kb, i)
    ensures ka[k] == kb[k] && MemberEquivalent(a, b, ka, kb, k)
    decreases k - i
  {
    if i < k {
      AgreeAt(a, b, ka, kb, i + 1, k);
    }
  }

  lemma MembersEndTogether(a: Value, b: Value, ka: seq<string>, kb: seq<string>, i: nat, s: string, t: string)
    requires a.Object? && b.Object? && i <= |ka| && i <= |kb|
    requires forall k :: k in ka ==> Find(a.members, k).Some?
    requires forall k :: k in kb ==> Find(b.members, k).Some?
    requires MembersText(a, ka, i) + ("}" + s) == MembersText(b, kb, i) + ("}" + t)
    ensures (i == |ka|) == (i == |kb|)
    ensures i == |ka| ==> "}" + s == "}" + t
  {
    MembersLead(a, ka, i, "}" + s);
    MembersLead(b, kb, i, "}" + t);
  }

  lemma {:induction false} MembersStepUnique(a: Value, b: Value, ka: seq<string>, kb: seq<string>, i: nat, s: string, t: string)
    requires a.Object? && b.Object? && i < |ka| && i < |kb|
    requires forall k :: k in ka ==> Find(a.members, k).Some?
    requires forall k :: k in kb ==> Find(b.members, k).Some?
    requires MembersText(a, ka, i) + ("}" + s) == MembersText(b, kb, i) + ("}" + t)
    ensures ka[i] == kb[i]
    ensures MemberEquivalent(a, b, ka, kb, i)
    ensures MembersText(a, ka, i + 1) + ("}" + s) == MembersText(b, kb, i + 1) + ("}" + t)
    decreases a, 0, |ka| - i, 0
  {
    var va := a.members[Find(a.members, ka[i]).value].value;
    var vb := b.members[Find(b.members, kb[i]).value].value;
    var sep: string := if i == 0 then "" else ",";
    var ra := MembersText(a, ka, i + 1) + ("}" + s);
    var rb := MembersText(b, kb, i + 1) + ("}" + t);
    MembersCons(a, ka, i, "}" + s);
    MembersCons(b, kb, i, "}" + t);
    SplitEqual(sep, sep, Quoted(ka[i]) + (":" + (Serialize(va) + ra)), Quoted(kb[i]) + (":" + (Serialize(vb) + rb)));
    QuotedUnique(ka[i], kb[i], ":" + (Serialize(va) + ra), ":" + (Serialize(vb) + rb));
    SplitEqual(":", ":", Serialize(va) + ra, Serialize(vb) + rb);
    MembersRestStops(a, ka, i, s);
    MembersRestStops(b, kb, i, t);
    SerializeUnique(va, vb, ra, rb);
  }

  // ---------------------------------------------------------------------
  // Consequences

  /** Two values have the same canonical text exactly when they are equivalent. */
  lemma SameTextIffEquivalent(a: Value, b: Value)
    ensures Serialize(a) == Serialize(b) <==> Equivalent(a, b)
  {
    if Serialize(a) == Serialize(b) {
      assert Serialize(a) + [] == Serialize(b) + [];
      SerializeUnique(a, b, [], []);
    }
    if Equivalent(a, b) {
      EquivalentSameText(a, b);
    }
  }

  lemma EquivalentReflexive(a: Value)
    ensures Equivalent(a, a)
  {
    SameTextIffEquivalent(a, a);
  }

  /**
    Reordering the members of an object whose names are distinct leaves its
    canonical text unchanged.
   */
  lemma KeyOrderIrrelevant(ms: seq<Member>, ps: seq<Member>)
    requires DistinctKeys(ms)
    requires multiset(ms) == multiset(ps)
    ensures Serialize(Object(ms)) == Serialize(Object(ps))
  {
    forall k
      ensures Find(ms, k).Some? <==> Find(ps, k).Some?
    {
      if Find(ms, k).Some? {
        var m := ms[Find(ms, k).value];
        assert m in multiset(ps);
        var j :| 0 <= j < |ps| && ps[j] == m;
      }
      if Find(ps, k).Some? {
        var p := ps[Find(ps, k).value];
        assert p in multiset(ms);
        var i :| 0 <= i < |ms| && ms[i] == p;
      }
    }
    forall k | Find(ms, k).Some? && Find(ps, k).Some?
      ensures Equivalent(ms[Find(ms, k).value].value, ps[Find(ps, k).value].value)
    {
      var i, j := Find(ms, k).value, Find(ps, k).value;
      assert ps[j] in multiset(ms);
      var i' :| 0 <= i' < |ms| && ms[i'] == ps[j];
      assert i' == i;
      EquivalentReflexive(ms[i].value);
    }
    EquivalentSameText(Object(ms), Object(ps));
  }
}
