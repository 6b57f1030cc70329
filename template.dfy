/**
  The step texts' placeholder: every `{lastCreatedID}` in a path or an
  expected document is replaced by the decimal id of the last contact the
  steps created, with Go's `strings.ReplaceAll`.
 */
module Template {
  import opened Options
  import Decimal

  predicate OccursAt(s: string, pat: string, i: nat) {
    i + |pat| <= |s| && s[i..i + |pat|] == pat
  }

  predicate Occurs(s: string, pat: string) {
    exists i :: 0 <= i <= |s| && OccursAt(s, pat, i)
  }

  /**
    `strings.ReplaceAll(s, pat, rep)`, as Go's loop does it: find the
    leftmost occurrence of `pat` in what is left of the text, write the text
    before it and `rep`, and carry on after it, so the occurrences replaced
    never overlap. An empty `pat` matches before every character and at the
    end.
   */
  function ReplaceAll(s: string, pat: string, rep: string): string
    decreases |s|
  {
    if pat == [] then Interleave(s, rep)
    else
      match FirstOccurrence(s, pat)
      case None => s
      case Some(f) => s[..f] + rep + ReplaceAll(s[f + |pat|..], pat, rep)
  }

  /** `rep` before every character of `s` and after the last. */
  function Interleave(s: string, rep: string): string {
    if s == [] then rep else rep + [s[0]] + Interleave(s[1..], rep)
  }

  /** The leftmost occurrence of a non-empty `pat` in `s` at or after `i`. */
  function FirstFrom(s: string, pat: string, i: nat): (r: Option<nat>)
    requires pat != [] && i <= |s|
    ensures r.Some? ==> i <= r.value && r.value + |pat| <= |s|
    decreases |s| - i
  {
    if i + |pat| > |s| then None
    else if OccursAt(s, pat, i) then Some(i)
    else FirstFrom(s, pat, i + 1)
  }

  function FirstOccurrence(s: string, pat: string): Option<nat>
    requires pat != []
  {
    FirstFrom(s, pat, 0)
  }

  /**
    The occurrence found from `i` is one, none starts between `i` and it,
    and none at or after `i` is found only when there is none.
   */
  lemma {:induction false} FirstFromIsFirst(s: string, pat: string, i: nat)
    requires pat != [] && i <= |s|
    ensures FirstFrom(s, pat, i).Some? ==> OccursAt(s, pat, FirstFrom(s, pat, i).value)
    ensures FirstFrom(s, pat, i).Some? ==>
              forall j: nat :: i <= j < FirstFrom(s, pat, i).value ==> !OccursAt(s, pat, j)
    ensures FirstFrom(s, pat, i).None? ==> forall j: nat :: i <= j ==> !OccursAt(s, pat, j)
    decreases |s| - i
  {
    if i + |pat| <= |s| && !OccursAt(s, pat, i) {
      FirstFromIsFirst(s, pat, i + 1);
    }
  }

  /**
    The occurrence found is one, no occurrence starts before it, and none is
    found only when there is none.
   */
  lemma FirstOccurrenceIsFirst(s: string, pat: string)
    requires pat != []
    ensures FirstOccurrence(s, pat).Some? ==> OccursAt(s, pat, FirstOccurrence(s, pat).value)
    ensures FirstOccurrence(s, pat).Some? ==>
              forall j: nat :: j < FirstOccurrence(s, pat).value ==> !OccursAt(s, pat, j)
    ensures FirstOccurrence(s, pat).None? <==> !Occurs(s, pat)
  {
    FirstFromIsFirst(s, pat, 0);
  }

  lemma SliceOfSlice(s: string, i: nat, k: nat, a: nat, b: nat)
    requires i <= k <= |s| && a <= b <= k - i
    ensures s[i..k][a..b] == s[i + a..i + b]
  {
    var x, y := s[i..k][a..b], s[i + a..i + b];
    forall q | 0 <= q < |x|
      ensures x[q] == y[q]
    {
      assert x[q] == s[i..k][a + q] == s[i + a + q];
    }
  }

  /** Text without the pattern is returned unchanged. */
  lemma Unchanged(s: string, pat: string, rep: string)
    requires pat != [] && !Occurs(s, pat)
    ensures ReplaceAll(s, pat, rep) == s
  {
    FirstOccurrenceIsFirst(s, pat);
  }

  /** Replacing the pattern by itself gives the text back. */
  lemma {:induction false} ReplaceSelf(s: string, pat: string)
    requires pat != []
    ensures ReplaceAll(s, pat, pat) == s
    decreases |s|
  {
    FirstOccurrenceIsFirst(s, pat);
    if FirstOccurrence(s, pat).Some? {
      var f := FirstOccurrence(s, pat).value;
      var a, rest := s[..f], s[f + |pat|..];
      assert ReplaceAll(s, pat, pat) == a + pat + rest by {
        ReplaceSelf(rest, pat);
      }
      assert s == a + pat + rest by {
        assert OccursAt(s, pat, f);
        assert s == a + s[f..f + |pat|] + rest;
      }
    }
  }

  /**
    When the replacement is not empty and has no character of the pattern,
    no occurrence of the pattern is left afterwards.
   */
  lemma {:induction false} NoneLeft(s: string, pat: string, rep: string)
    requires pat != [] && rep != []
    requires forall c :: c in rep ==> c !in pat
    ensures !Occurs(ReplaceAll(s, pat, rep), pat)
    decreases |s|
  {
    FirstOccurrenceIsFirst(s, pat);
    if FirstOccurrence(s, pat).Some? {
      var f := FirstOccurrence(s, pat).value;
      var a, b := s[..f], ReplaceAll(s[f + |pat|..], pat, rep);
      assert !Occurs(a, pat) by {
        NoneBetween(s, pat, 0, f);
        assert s[0..f] == a;
      }
      assert !Occurs(b, pat) by {
        NoneLeft(s[f + |pat|..], pat, rep);
      }
      JoinKeepsOut(a, rep, b, pat);
      assert ReplaceAll(s, pat, rep) == a + rep + b;
    }
  }

  /** A stretch of text in which no occurrence starts holds none. */
  lemma NoneBetween(s: string, pat: string, i: nat, k: nat)
    requires pat != [] && i <= k <= |s|
    requires forall j: nat :: i <= j < k ==> !OccursAt(s, pat, j)
    ensures !Occurs(s[i..k], pat)
  {
    forall p | 0 <= p <= k - i && OccursAt(s[i..k], pat, p)
      ensures OccursAt(s, pat, i + p)
    {
      SliceOfSlice(s, i, k, p, p + |pat|);
    }
  }

  /**
    Two texts without the pattern, joined by a non-empty text that shares
    no character with it, hold no occurrence either.
   */
  lemma JoinKeepsOut(a: string, rep: string, b: string, pat: string)
    requires pat != [] && rep != []
    requires forall c :: c in rep ==> c !in pat
    requires !Occurs(a, pat) && !Occurs(b, pat)
    ensures !Occurs(a + rep + b, pat)
  {
    var r := a + rep + b;
    forall p | 0 <= p <= |r|
      ensures !OccursAt(r, pat, p)
    {
      if p + |pat| > |r| {
      } else if p + |pat| <= |a| {
        assert r[p..p + |pat|] == a[p..p + |pat|];
        assert !OccursAt(a, pat, p);
      } else if p < |a| + |rep| {
        WindowMeetsRep(a, rep, b, pat, p);
      } else {
        var d := |a| + |rep|;
        assert r[p..p + |pat|] == b[p - d..p - d + |pat|];
        assert !OccursAt(b, pat, p - d);
      }
    }
  }

  /** A window that overlaps `rep` holds one of its characters, so it is not the pattern. */
  lemma WindowMeetsRep(a: string, rep: string, b: string, pat: string, p: nat)
    requires pat != [] && rep != []
    requires forall c :: c in rep ==> c !in pat
    requires |a| < p + |pat| && p < |a| + |rep| && p + |pat| <= |a| + |rep| + |b|
    ensures (a + rep + b)[p..p + |pat|] != pat
  {
    var r := a + rep + b;
    var i := if p < |a| then |a| else p;
    assert r[i] == rep[i - |a|];
    assert rep[i - |a|] in rep;
    assert r[p..p + |pat|][i - p] == r[i];
    assert pat[i - p] in pat;
  }

  const Token := "{lastCreatedID}"

  /** `strings.ReplaceAll(text, "{lastCreatedID}", fmt.Sprintf("%d", id))`. */
  function Substitute(text: string, id: int): string {
    ReplaceAll(text, Token, Decimal.Format(id))
  }

  /** After a substitution no placeholder is left, and text without one is kept. */
  lemma SubstituteComplete(text: string, id: int)
    ensures !Occurs(Substitute(text, id), Token)
    ensures !Occurs(text, Token) ==> Substitute(text, id) == text
  {
    var digits := Decimal.Format(id);
    forall c | c in digits
      ensures c !in Token
    {
      var i :| 0 <= i < |digits| && digits[i] == c;
      assert c == '-' || Decimal.IsDigit(c);
    }
    NoneLeft(text, Token, digits);
    if !Occurs(text, Token) {
      Unchanged(text, Token, digits);
    }
  }

  /**
    A path that ends in the placeholder, with no '{' before it, becomes the
    path with the id in its place: "/records/{lastCreatedID}" with id 42
    becomes "/records/42".
   */
  lemma SubstituteSuffix(prefix: string, id: int)
    requires forall i :: 0 <= i < |prefix| ==> prefix[i] != '{'
    ensures Substitute(prefix + Token, id) == prefix + Decimal.Format(id)
  {
    var s := prefix + Token;
    var digits := Decimal.Format(id);
    assert Token[0] == '{';
    FirstAtEnd(prefix, Token);
    assert s[..|prefix|] == prefix;
    assert s[|prefix| + |Token|..] == [];
    assert ReplaceAll([], Token, digits) == [] by {
      assert FirstOccurrence([], Token) == None;
    }
    assert ReplaceAll(s, Token, digits) == prefix + digits + [];
  }

  /** A pattern whose first character does not occur before it is first found where it is appended. */
  lemma FirstAtEnd(prefix: string, pat: string)
    requires pat != []
    requires forall i :: 0 <= i < |prefix| ==> prefix[i] != pat[0]
    ensures FirstOccurrence(prefix + pat, pat) == Some(|prefix|)
  {
    var s := prefix + pat;
    var n := |prefix|;
    assert forall j: nat :: j < n ==> !OccursAt(s, pat, j) by {
      forall j: nat | j < n
        ensures !OccursAt(s, pat, j)
      {
        assert s[j] == prefix[j];
        if j + |pat| <= |s| {
          assert s[j..j + |pat|][0] == s[j];
        }
      }
    }
    assert OccursAt(s, pat, n) by {
      assert s[n..n + |pat|] == pat;
    }
    FirstOccurrenceIsFirst(s, pat);
  }
}
