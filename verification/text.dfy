/** Plain string searching: the literal matching that the controller's prefix
    test and its script-tag pattern are built from. Strings are `seq<char>`,
    one element per Unicode character; README.md says how this differs from
    Java's UTF-16 `char`. */
module Text {

  /** Some/None, standing in for a Java reference that may be null. */
  datatype Option<+T> = None | Some(value: T)

  /** `pat` occurs in `s` starting at index `i`. */
  predicate OccursAt(s: string, pat: string, i: nat)
    decreases |pat|
    ensures OccursAt(s, pat, i) ==> i + |pat| <= |s|
  {
    if |pat| == 0 then i <= |s|
    else i < |s| && s[i] == pat[0] && OccursAt(s, pat[1..], i + 1)
  }

  /** Java's `String.startsWith`. */
  predicate StartsWith(s: string, prefix: string) {
    OccursAt(s, prefix, 0)
  }

  /** `pat` occurs somewhere in `s`. */
  ghost predicate Contains(s: string, pat: string) {
    exists k: nat :: OccursAt(s, pat, k)
  }

  /** Moves a found index `i` places to the right. */
  function Shift(r: Option<nat>, i: nat): Option<nat> {
    match r
    case None => None
    case Some(v) => Some(v + i)
  }

  /** The first index at or after `from` where `pat` occurs, if any. */
  function IndexOf(s: string, pat: string, from: nat): (r: Option<nat>)
    decreases |s| - from
    ensures r.Some? ==> from <= r.value && OccursAt(s, pat, r.value)
  {
    if from + |pat| > |s| then None
    else if OccursAt(s, pat, from) then Some(from)
    else IndexOf(s, pat, from + 1)
  }

  /** The first index at or after `from` holding the character `c`, if any. */
  function FindChar(s: string, c: char, from: nat): (r: Option<nat>)
    decreases |s| - from
    ensures r.Some? ==> from <= r.value < |s| && s[r.value] == c
  {
    if from >= |s| then None
    else if s[from] == c then Some(from)
    else FindChar(s, c, from + 1)
  }

  /** The recursive test agrees with comparing the slice of `s` against `pat`. */
  lemma {:induction false} OccursAtIff(s: string, pat: string, i: nat)
    decreases |pat|
    ensures OccursAt(s, pat, i) <==> i + |pat| <= |s| && s[i..i + |pat|] == pat
  {
    if |pat| > 0 && i < |s| {
      OccursAtIff(s, pat[1..], i + 1);
      if i + |pat| <= |s| {
        assert s[i..i + |pat|] == [s[i]] + s[i + 1..i + 1 + |pat[1..]|];
        assert pat == [pat[0]] + pat[1..];
      }
    }
  }

  /** `pat` occurs at `i` when the suffix from `i` starts with it. */
  lemma {:induction false} OccursAtOfSuffix(s: string, pat: string, i: nat)
    requires i <= |s| && |pat| <= |s| - i && s[i..][..|pat|] == pat
    ensures OccursAt(s, pat, i)
  {
    OccursAtIff(s, pat, i);
    assert s[i..i + |pat|] == s[i..][..|pat|];
  }

  /** `pat` occurs in `a + pat` right after `a`. */
  lemma {:induction false} OccursAtJoin(a: string, pat: string)
    ensures OccursAt(a + pat, pat, |a|)
  {
    OccursAtIff(a + pat, pat, |a|);
    assert (a + pat)[|a|..|a| + |pat|] == pat;
  }

  /** An occurrence stays where it is when text is appended. */
  lemma {:induction false} OccursAtAppend(a: string, b: string, pat: string, i: nat)
    requires OccursAt(a, pat, i)
    ensures OccursAt(a + b, pat, i)
  {
    OccursAtIff(a, pat, i);
    OccursAtIff(a + b, pat, i);
    assert (a + b)[i..i + |pat|] == a[i..i + |pat|];
  }

  /** `pat` cannot occur at `i` when its first two characters are not there. */
  lemma {:induction false} NotOccursAtByFirstTwo(s: string, pat: string, i: nat)
    requires |pat| >= 2
    requires i + 1 < |s| ==> !(s[i] == pat[0] && s[i + 1] == pat[1])
    ensures !OccursAt(s, pat, i)
  {
  }

  /** No occurrence of `pat` lies between `from` and the one `IndexOf` finds;
      when it finds none, there is none at all from `from` on. */
  lemma {:induction false} IndexOfIsFirst(s: string, pat: string, from: nat, k: nat)
    requires from <= k
    requires IndexOf(s, pat, from).None? || k < IndexOf(s, pat, from).value
    decreases |s| - from
    ensures !OccursAt(s, pat, k)
  {
    if from + |pat| <= |s| && !OccursAt(s, pat, from) && from < k {
      IndexOfIsFirst(s, pat, from + 1, k);
    }
  }

  /** `IndexOf` returns the occurrence of `pat` at `j` when none lies between `from` and `j`. */
  lemma {:induction false} IndexOfFinds(s: string, pat: string, from: nat, j: nat)
    requires from <= j && OccursAt(s, pat, j)
    requires forall k: nat :: from <= k < j ==> !OccursAt(s, pat, k)
    decreases j - from
    ensures IndexOf(s, pat, from) == Some(j)
  {
    if from < j {
      IndexOfFinds(s, pat, from + 1, j);
    }
  }

  /** No `c` lies between `from` and the one `FindChar` finds;
      when it finds none, there is none at all from `from` on. */
  lemma {:induction false} FindCharIsFirst(s: string, c: char, from: nat, k: nat)
    requires from <= k < |s|
    requires FindChar(s, c, from).None? || k < FindChar(s, c, from).value
    decreases |s| - from
    ensures s[k] != c
  {
    if s[from] != c && from < k {
      FindCharIsFirst(s, c, from + 1, k);
    }
  }

  /** `FindChar` returns the `c` at `j` when none lies between `from` and `j`. */
  lemma {:induction false} FindCharFinds(s: string, c: char, from: nat, j: nat)
    requires from <= j < |s| && s[j] == c
    requires forall k :: from <= k < j ==> s[k] != c
    decreases j - from
    ensures FindChar(s, c, from) == Some(j)
  {
    if from < j {
      FindCharFinds(s, c, from + 1, j);
    }
  }

  /** An occurrence at `k` in the suffix from `i` is the occurrence at `j = i + k` in `s`. */
  lemma {:induction false} OccursAtSuffix(s: string, pat: string, i: nat, k: nat, j: nat)
    requires i <= |s| && j == i + k
    decreases |pat|
    ensures OccursAt(s, pat, j) <==> OccursAt(s[i..], pat, k)
  {
    if |pat| > 0 && j < |s| {
      assert s[i..][k] == s[j];
      OccursAtSuffix(s, pat[1..], i, k + 1, j + 1);
    }
  }

  /** Searching the suffix from `i` finds the same occurrence as searching `s`, `i` places later. */
  lemma {:induction false} IndexOfSuffix(s: string, pat: string, i: nat, from: nat, j: nat)
    requires i <= |s| && j == i + from
    decreases |s| - j
    ensures IndexOf(s, pat, j) == Shift(IndexOf(s[i..], pat, from), i)
  {
    OccursAtSuffix(s, pat, i, from, j);
    if j + |pat| <= |s| && !OccursAt(s, pat, j) {
      IndexOfSuffix(s, pat, i, from + 1, j + 1);
    }
  }

  /** Searching the suffix from `i` for `c` finds the same index as searching `s`, `i` places later. */
  lemma {:induction false} FindCharSuffix(s: string, c: char, i: nat, from: nat, j: nat)
    requires i <= |s| && j == i + from
    decreases |s| - j
    ensures FindChar(s, c, j) == Shift(FindChar(s[i..], c, from), i)
  {
    if j < |s| {
      assert s[i..][from] == s[j];
      if s[j] != c {
        FindCharSuffix(s, c, i, from + 1, j + 1);
      }
    }
  }
}
