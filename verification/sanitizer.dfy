/** The controller's "basic script tag removal": Java's
    `detail.replaceAll("<script[^>]*>([\\s\\S]*?)</script>", "")`.

    The regular expression has the shape `open[^>]*>[\s\S]*?close` with the
    case-sensitive literals `open = "<script"` and `close = "</script>"`.
    A match may begin only where `open` occurs. The greedy `[^>]*` cannot
    step over a `>`, so the opening tag ends at the FIRST `>` after `open`.
    The lazy `[\s\S]*?` then stops at the FIRST `close` that starts after
    that `>`. `replaceAll` scans left to right, deletes each match and
    resumes after it; where no match begins it keeps the character and moves
    on one place. It is a single pass: deleting a block can join the text
    around it into a new block that survives.

    The scanner is written for any pair of literals and instantiated once,
    with `ScriptTags`, as `Sanitize`. */
module Sanitizer {
  import opened Text

  /** The two literals of a pattern `open[^>]*>[\s\S]*?close`. */
  datatype Tags = Tags(open: string, close: string)

  /** The controller's pattern. */
  const ScriptTags: Tags := Tags("<script", "</script>")

  /** The length of the shortest text the pattern matches: `open`, `>`, `close`. */
  function MinMatch(t: Tags): nat {
    |t.open| + 1 + |t.close|
  }

  /** The pattern matches `s[p..e]` with the opening tag closed by the `>` at
      `q`, and Java's matcher, trying greedy and lazy choices in its order,
      picks exactly this match at `p`. */
  ghost predicate MatchShape(t: Tags, s: string, p: nat, q: nat, e: nat) {
    && OccursAt(s, t.open, p)
    && p + |t.open| <= q < |s| && s[q] == '>'
    && (forall k :: p + |t.open| <= k < q ==> s[k] != '>')
    && q + 1 + |t.close| <= e && OccursAt(s, t.close, e - |t.close|)
    && (forall k: nat :: q + 1 <= k < e - |t.close| ==> !OccursAt(s, t.close, k))
  }

  /** A match of the pattern attempted at `p` ends at `e`. */
  ghost predicate IsMatch(t: Tags, s: string, p: nat, e: nat) {
    exists q: nat :: MatchShape(t, s, p, q, e)
  }

  /** No match of the pattern begins anywhere in `s`. */
  ghost predicate NoMatch(t: Tags, s: string) {
    forall p: nat, e: nat :: !IsMatch(t, s, p, e)
  }

  /** The end of the match attempted at `p`, or None when the attempt fails. */
  function MatchEnd(t: Tags, s: string, p: nat): (r: Option<nat>)
    ensures r.Some? ==> p + MinMatch(t) <= r.value <= |s|
  {
    if !OccursAt(s, t.open, p) then None
    else match FindChar(s, '>', p + |t.open|)
      case None => None
      case Some(q) =>
        match IndexOf(s, t.close, q + 1)
        case None => None
        case Some(c) => Some(c + |t.close|)
  }

  /** `replaceAll(pattern, "")`: scanning starts at the front; a match there
      is dropped and scanning resumes after it, otherwise the first character
      is kept. */
  function RemoveAll(t: Tags, s: string): (r: string)
    decreases |s|
    ensures |r| <= |s|
  {
    if |s| == 0 then []
    else match MatchEnd(t, s, 0)
      case Some(e) => RemoveAll(t, s[e..])
      case None => [s[0]] + RemoveAll(t, s[1..])
  }

  /** The detail text as the controller stores it. */
  function Sanitize(s: string): (r: string)
    ensures |r| <= |s|
  {
    RemoveAll(ScriptTags, s)
  }

  /** The scanner's match test agrees with the pattern's meaning, both ways. */
  lemma {:induction false} MatchEndIff(t: Tags, s: string, p: nat, e: nat)
    ensures MatchEnd(t, s, p) == Some(e) <==> IsMatch(t, s, p, e)
  {
    if MatchEnd(t, s, p) == Some(e) {
      var q := FindChar(s, '>', p + |t.open|).value;
      var c := IndexOf(s, t.close, q + 1).value;
      forall k | p + |t.open| <= k < q ensures s[k] != '>' {
        FindCharIsFirst(s, '>', p + |t.open|, k);
      }
      forall k: nat | q + 1 <= k < c ensures !OccursAt(s, t.close, k) {
        IndexOfIsFirst(s, t.close, q + 1, k);
      }
      assert MatchShape(t, s, p, q, e);
    }
    if IsMatch(t, s, p, e) {
      var q: nat :| MatchShape(t, s, p, q, e);
      FindCharFinds(s, '>', p + |t.open|, q);
      IndexOfFinds(s, t.close, q + 1, e - |t.close|);
    }
  }

  /** Whether a match begins at `j = i + p` depends only on the text from `i` on. */
  lemma {:induction false} MatchEndSuffix(t: Tags, s: string, i: nat, p: nat, j: nat)
    requires i <= |s| && j == i + p
    ensures MatchEnd(t, s, j) == Shift(MatchEnd(t, s[i..], p), i)
  {
    var u := s[i..];
    OccursAtSuffix(s, t.open, i, p, j);
    if !OccursAt(u, t.open, p) {
      assert MatchEnd(t, u, p) == None;
      assert MatchEnd(t, s, j) == None;
    } else {
      FindCharSuffix(s, '>', i, p + |t.open|, j + |t.open|);
      match FindChar(u, '>', p + |t.open|)
      case None =>
        assert MatchEnd(t, u, p) == None;
        assert MatchEnd(t, s, j) == None;
      case Some(q) =>
        IndexOfSuffix(s, t.close, i, q + 1, i + q + 1);
        match IndexOf(u, t.close, q + 1)
        case None =>
          assert MatchEnd(t, u, p) == None;
          assert MatchEnd(t, s, j) == None;
        case Some(c) =>
          assert MatchEnd(t, u, p) == Some(c + |t.close|);
          assert MatchEnd(t, s, j) == Some(i + c + |t.close|);
    }
  }

  /** A prefix in which no match begins is copied through unchanged. */
  lemma {:induction false} RemoveAllPlainPrefix(t: Tags, s: string, p: nat)
    requires p <= |s|
    requires forall k: nat :: k < p ==> MatchEnd(t, s, k).None?
    decreases p
    ensures RemoveAll(t, s) == s[..p] + RemoveAll(t, s[p..])
  {
    if p > 0 {
      var u := s[1..];
      forall k: nat | k < p - 1 ensures MatchEnd(t, u, k).None? {
        MatchEndSuffix(t, s, 1, k, k + 1);
      }
      RemoveAllPlainPrefix(t, u, p - 1);
      assert MatchEnd(t, s, 0).None?;
      assert RemoveAll(t, s) == [s[0]] + RemoveAll(t, u);
      assert u[p - 1..] == s[p..];
      assert s[..p] == [s[0]] + u[..p - 1];
    }
  }

  /** A match at the front is dropped and scanning resumes after it. */
  lemma {:induction false} RemoveAllSkipsFrontMatch(t: Tags, s: string, e: nat)
    requires MatchEnd(t, s, 0) == Some(e)
    ensures RemoveAll(t, s) == RemoveAll(t, s[e..])
  {
  }

  /** The first match is deleted, the text before it is kept, and scanning
      starts afresh after it. */
  lemma {:induction false} RemoveAllLeftmost(t: Tags, s: string, p: nat, e: nat)
    requires IsMatch(t, s, p, e)
    requires forall k: nat, e': nat :: k < p ==> !IsMatch(t, s, k, e')
    ensures p < e <= |s| && RemoveAll(t, s) == s[..p] + RemoveAll(t, s[e..])
  {
    MatchEndIff(t, s, p, e);
    forall k: nat | k < p ensures MatchEnd(t, s, k).None? {
      if MatchEnd(t, s, k).Some? {
        MatchEndIff(t, s, k, MatchEnd(t, s, k).value);
      }
    }
    RemoveAllPlainPrefix(t, s, p);
    var u := s[p..];
    MatchEndSuffix(t, s, p, 0, p);
    RemoveAllSkipsFrontMatch(t, u, e - p);
    assert u[e - p..] == s[e..];
    calc {
      RemoveAll(t, s);
      s[..p] + RemoveAll(t, u);
      s[..p] + RemoveAll(t, u[e - p..]);
      s[..p] + RemoveAll(t, s[e..]);
    }
  }

  /** If some match exists, there is a leftmost one. */
  lemma {:induction false} LeftmostMatchExists(t: Tags, s: string, p: nat, e: nat)
    requires IsMatch(t, s, p, e)
    ensures exists p0: nat, e0: nat :: IsMatch(t, s, p0, e0) && p0 <= p &&
                                       forall k: nat, e': nat :: k < p0 ==> !IsMatch(t, s, k, e')
  {
    var k: nat := 0;
    while k < p && MatchEnd(t, s, k).None?
      invariant k <= p
      invariant forall j: nat :: j < k ==> MatchEnd(t, s, j).None?
      decreases p - k
    {
      k := k + 1;
    }
    var e0: nat := e;
    if k < p {
      e0 := MatchEnd(t, s, k).value;
    }
    MatchEndIff(t, s, k, e0);
    forall j: nat, e': nat | j < k ensures !IsMatch(t, s, j, e') {
      MatchEndIff(t, s, j, e');
    }
  }

  /** Every match that exists costs at least the shortest match's length. */
  lemma {:induction false} RemoveAllShrinks(t: Tags, s: string, p: nat, e: nat)
    requires IsMatch(t, s, p, e)
    ensures |RemoveAll(t, s)| + MinMatch(t) <= |s|
  {
    LeftmostMatchExists(t, s, p, e);
    var p0: nat, e0: nat :| IsMatch(t, s, p0, e0) && p0 <= p &&
      forall k: nat, e': nat :: k < p0 ==> !IsMatch(t, s, k, e');
    RemoveAllLeftmost(t, s, p0, e0);
    MatchEndIff(t, s, p0, e0);
  }

  /** Removal leaves `s` unchanged exactly when no match begins in it. */
  lemma {:induction false} RemoveAllUnchangedIff(t: Tags, s: string)
    ensures RemoveAll(t, s) == s <==> NoMatch(t, s)
  {
    if NoMatch(t, s) {
      forall k: nat | k < |s| ensures MatchEnd(t, s, k).None? {
        if MatchEnd(t, s, k).Some? {
          MatchEndIff(t, s, k, MatchEnd(t, s, k).value);
        }
      }
      RemoveAllPlainPrefix(t, s, |s|);
      assert s[..|s|] == s;
    } else {
      var p: nat, e: nat :| IsMatch(t, s, p, e);
      RemoveAllShrinks(t, s, p, e);
    }
  }

  /** Text in which `open` never occurs is returned unchanged. */
  lemma {:induction false} RemoveAllWithoutOpen(t: Tags, s: string)
    requires !Contains(s, t.open)
    ensures RemoveAll(t, s) == s
  {
    forall p: nat, e: nat ensures !IsMatch(t, s, p, e) {
      assert !OccursAt(s, t.open, p);
    }
    RemoveAllUnchangedIff(t, s);
  }
}
