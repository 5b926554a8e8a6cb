/**
  Two pieces of pattern matching shared by the link rules: a lazy `[^c]*?` followed by
  the rest of a pattern, and the fact that a global replacement depends only on what its
  replacer does at the matches.
 */
module LazySearch {
  import opened Strings
  import opened Rewrite

  /** Two replacers that agree on every match give the same result. */
  lemma {:induction false} SameReplacements(s: string, i: nat, m: Matcher, r1: Replacer, r2: Replacer)
    requires i <= |s|
    requires forall j :: i <= j < |s| && MatchesAt(m, s, j) ==> r1(s, j, m(s, j).value) == r2(s, j, m(s, j).value)
    ensures ReplaceFrom(s, i, m, r1) == ReplaceFrom(s, i, m, r2)
    decreases |s| - i
  {
    if i < |s| {
      if MatchesAt(m, s, i) {
        SameReplacements(s, m(s, i).value, m, r1, r2);
      } else {
        SameReplacements(s, i + 1, m, r1, r2);
      }
    }
  }

  /** A lazy `([^c]*?)` from `a` followed by the rest of a pattern, `tail`: the first
      position at or after `a`, with no `c` before it, where `tail` matches, and what
      `tail` found there. */
  function LazyUntil<T>(s: string, a: nat, c: char, tail: (string, nat) -> Option<T>): (r: Option<(nat, T)>)
    requires a <= |s|
    ensures r.Some? ==> a <= r.value.0 <= |s| && tail(s, r.value.0) == Some(r.value.1)
    decreases |s| - a
  {
    match tail(s, a)
    case Some(t) => Some((a, t))
    case None => if a < |s| && s[a] != c then LazyUntil(s, a + 1, c, tail) else None
  }

  /** Before the place it finds, there is no `c` and `tail` does not match. */
  lemma {:induction false} LazyUntilFirst<T>(s: string, a: nat, c: char, tail: (string, nat) -> Option<T>)
    requires a <= |s| && LazyUntil(s, a, c, tail).Some?
    ensures forall k :: a <= k < LazyUntil(s, a, c, tail).value.0 ==> s[k] != c && tail(s, k).None?
    decreases |s| - a
  {
    if tail(s, a).None? {
      LazyUntilFirst(s, a + 1, c, tail);
    }
  }

  /** The first place where `tail` matches, with no `c` before it, is the one found. */
  lemma {:induction false} LazyUntilFinds<T>(s: string, a: nat, c: char, tail: (string, nat) -> Option<T>, n: nat)
    requires a <= n <= |s| && tail(s, n).Some?
    requires forall k :: a <= k < n ==> s[k] != c && tail(s, k).None?
    ensures LazyUntil(s, a, c, tail) == Some((n, tail(s, n).value))
    decreases n - a
  {
    if a < n {
      LazyUntilFinds(s, a + 1, c, tail, n);
    }
  }

  /** A `c` (or the end of the text) before which `tail` matches nowhere stops the
      search empty-handed. */
  lemma {:induction false} LazyUntilStops<T>(s: string, a: nat, c: char, tail: (string, nat) -> Option<T>, g: nat)
    requires a <= g <= |s| && (g == |s| || s[g] == c)
    requires forall k :: a <= k <= g ==> tail(s, k).None?
    ensures LazyUntil(s, a, c, tail).None?
    decreases g - a
  {
    if a < g {
      LazyUntilStops(s, a + 1, c, tail, g);
    }
  }

  /** What the search found, and that nothing stopped it before. */
  lemma LazyUntilFound<T>(s: string, a: nat, c: char, tail: (string, nat) -> Option<T>, n: nat, t: T)
    requires a <= |s| && LazyUntil(s, a, c, tail) == Some((n, t))
    ensures a <= n <= |s| && tail(s, n) == Some(t)
    ensures forall k :: a <= k < n ==> s[k] != c
  {
    LazyUntilFirst(s, a, c, tail);
  }
}
