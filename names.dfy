/** Lexicographic order on names, as Go's `<` on strings compares them.
    Go compares the bytes; for names that are valid UTF-8, UTF-8 preserves
    code-point order, so comparing the characters one by one gives the same
    answer. A name that is not valid UTF-8 is not a Dafny string. */
module NameOrder {

  /** `s < t` in Go: the first differing character decides, and a proper prefix
      comes first. */
  predicate NameLess(s: string, t: string)
    decreases |s|
  {
    if |s| == 0 then |t| > 0
    else if |t| == 0 then false
    else if s[0] != t[0] then s[0] < t[0]
    else NameLess(s[1..], t[1..])
  }

  lemma {:induction false} NameLessIrreflexive(s: string)
    ensures !NameLess(s, s)
    decreases |s|
  {
    if |s| > 0 {
      NameLessIrreflexive(s[1..]);
    }
  }

  lemma {:induction false} NameLessTransitive(s: string, t: string, u: string)
    requires NameLess(s, t) && NameLess(t, u)
    ensures NameLess(s, u)
    decreases |s|
  {
    if |s| > 0 && |t| > 0 && |u| > 0 && s[0] == t[0] && t[0] == u[0] {
      NameLessTransitive(s[1..], t[1..], u[1..]);
    }
  }

  /** Any two different names are ordered one way or the other. */
  lemma {:induction false} NameLessTotal(s: string, t: string)
    requires s != t
    ensures NameLess(s, t) || NameLess(t, s)
    decreases |s|
  {
    if |s| > 0 && |t| > 0 && s[0] == t[0] {
      assert s == [s[0]] + s[1..] && t == [t[0]] + t[1..];
      NameLessTotal(s[1..], t[1..]);
    }
  }

  lemma {:induction false} NameLessAsymmetric(s: string, t: string)
    requires NameLess(s, t)
    ensures !NameLess(t, s)
  {
    if NameLess(t, s) {
      NameLessTransitive(s, t, s);
      NameLessIrreflexive(s);
    }
  }

  /** Not being smaller is transitive. */
  lemma NameNotLessTransitive(s: string, t: string, u: string)
    requires !NameLess(s, t) && !NameLess(t, u)
    ensures !NameLess(s, u)
  {
    if s != t && t != u {
      NameLessTotal(s, t);
      NameLessTotal(t, u);
      NameLessTransitive(u, t, s);
      NameLessAsymmetric(u, s);
    }
  }
}
