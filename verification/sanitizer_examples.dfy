/** The script-tag removal stated for the controller's own pattern, and
    proved for concrete inputs. */
module SanitizerExamples {
  import opened Text
  import opened Sanitizer

  /** Text without a lower-case `<script` is stored exactly as sent. */
  lemma SanitizeWithoutScriptTag(s: string)
    requires !Contains(s, ScriptTags.open)
    ensures Sanitize(s) == s
  {
    RemoveAllWithoutOpen(ScriptTags, s);
  }

  /** The stored detail equals the input exactly when no script block is in it. */
  lemma SanitizeUnchangedIff(s: string)
    ensures Sanitize(s) == s <==> NoMatch(ScriptTags, s)
  {
    RemoveAllUnchangedIff(ScriptTags, s);
  }

  /** A script block in the input shortens the stored detail by at least
      the 17 characters of `<script></script>`. */
  lemma SanitizeShrinks(s: string, p: nat, e: nat)
    requires IsMatch(ScriptTags, s, p, e)
    ensures |Sanitize(s)| + 17 <= |s|
  {
    RemoveAllShrinks(ScriptTags, s, p, e);
  }

  /** No `<` in `s` is followed by a lower-case `s`. */
  ghost predicate NoOpenStart(s: string) {
    forall k :: 0 <= k < |s| - 1 ==> !(s[k] == '<' && s[k + 1] == 's')
  }

  /** The character `c` does not occur in `s`. */
  ghost predicate Lacks(s: string, c: char) {
    forall k :: 0 <= k < |s| ==> s[k] != c
  }

  /** No block begins inside `pre` when the text goes on with a `<`. */
  lemma {:induction false} NoBlockIn(s: string, pre: string)
    requires |pre| < |s| && s[..|pre|] == pre && s[|pre|] == '<'
    requires NoOpenStart(pre)
    ensures forall k: nat, e': nat :: k < |pre| ==> !IsMatch(ScriptTags, s, k, e')
  {
    forall k: nat, e': nat | k < |pre| ensures !IsMatch(ScriptTags, s, k, e') {
      assert s[k] == pre[k];
      if k + 1 < |pre| {
        assert s[k + 1] == pre[k + 1];
      }
      NotOccursAtByFirstTwo(s, ScriptTags.open, k);
    }
  }

  /** A block laid out as `pre`, opening tag with attributes `attrs`, `>`,
      `body`, closing tag, `post` is a match of the pattern. */
  lemma {:induction false} BlockMatches(t: Tags, pre: string, attrs: string, body: string, post: string)
    requires |t.close| > 0 && Lacks(attrs, '>') && Lacks(body, t.close[0])
    ensures var s := pre + t.open + attrs + ">" + body + t.close + post;
            IsMatch(t, s, |pre|, |s| - |post|)
  {
    var l1 := pre + t.open;
    var l2 := l1 + attrs;
    var l3 := l2 + ">";
    var l4 := l3 + body;
    var l5 := l4 + t.close;
    var s := l5 + post;
    OccursAtJoin(pre, t.open);
    OccursAtAppend(l1, attrs, t.open, |pre|);
    OccursAtAppend(l2, ">", t.open, |pre|);
    OccursAtAppend(l3, body, t.open, |pre|);
    OccursAtAppend(l4, t.close, t.open, |pre|);
    OccursAtAppend(l5, post, t.open, |pre|);
    OccursAtJoin(l4, t.close);
    OccursAtAppend(l5, post, t.close, |l4|);
    var q := |l2|;
    assert s[q] == l3[q] == '>';
    forall k | |l1| <= k < q ensures s[k] != '>' {
      assert s[k] == l5[k] == l4[k] == l3[k] == l2[k] == attrs[k - |l1|];
    }
    forall k: nat | q + 1 <= k < |l4| ensures !OccursAt(s, t.close, k) {
      assert s[k] == l5[k] == l4[k] == body[k - |l3|];
    }
    assert MatchShape(t, s, |pre|, q, |l5|);
  }

  /** The first script block is deleted with everything between its tags,
      the text before it is kept, and the rest is sanitised on its own. */
  lemma {:induction false} SanitizeBlock(pre: string, attrs: string, body: string, post: string)
    requires NoOpenStart(pre) && Lacks(attrs, '>') && Lacks(body, '<')
    ensures Sanitize(pre + ScriptTags.open + attrs + ">" + body + ScriptTags.close + post) == pre + Sanitize(post)
  {
    var s := pre + ScriptTags.open + attrs + ">" + body + ScriptTags.close + post;
    var e := |s| - |post|;
    BlockMatches(ScriptTags, pre, attrs, body, post);
    assert s[..|pre|] == pre;
    assert s[|pre|] == '<';
    NoBlockIn(s, pre);
    RemoveAllLeftmost(ScriptTags, s, |pre|, e);
    assert s[e..] == post;
  }

  /** A `<script` can only start at a `<` followed by a lower-case `s`. */
  lemma {:induction false} NoOpenTag(s: string)
    requires NoOpenStart(s)
    ensures Sanitize(s) == s
  {
    forall k: nat ensures !OccursAt(s, ScriptTags.open, k) {
      NotOccursAtByFirstTwo(s, ScriptTags.open, k);
    }
    SanitizeWithoutScriptTag(s);
  }

  // Each example below is split into a Layout lemma (the literal is the
  // concatenation of its pieces) and a Pieces lemma (the pieces meet the side
  // conditions of SanitizeBlock or NoOpenTag). Keeping each literal fact in a
  // lemma of its own keeps the solver from unfolding the scanner over long
  // string literals, which is what makes these proofs cheap.

  /** Layout of the alert example. */
  lemma AlertLayout(s: string, pre: string, attrs: string, body: string, post: string)
    requires s == "<script>alert(1)</script>Hello"
    requires pre == "" && attrs == "" && body == "alert(1)" && post == "Hello"
    ensures s == pre + ScriptTags.open + attrs + ">" + body + ScriptTags.close + post
  {
  }

  /** The pieces of the alert example meet the block's side conditions. */
  lemma AlertPieces(pre: string, attrs: string, body: string, post: string)
    requires pre == "" && attrs == "" && body == "alert(1)" && post == "Hello"
    ensures NoOpenStart(pre) && Lacks(attrs, '>') && Lacks(body, '<') && NoOpenStart(post)
  {
  }

  /** `<script>alert(1)</script>Hello` is stored as `Hello`. */
  lemma ExampleAlert(s: string)
    requires s == "<script>alert(1)</script>Hello"
    ensures Sanitize(s) == "Hello"
  {
    var pre, attrs, body, post := "", "", "alert(1)", "Hello";
    AlertLayout(s, pre, attrs, body, post);
    AlertPieces(pre, attrs, body, post);
    SanitizeBlock(pre, attrs, body, post);
    NoOpenTag(post);
  }

  /** Matching is case-sensitive: an upper-case block survives. */
  lemma ExampleUpperCaseSurvives(s: string)
    requires s == "<SCRIPT>alert(1)</SCRIPT>"
    ensures Sanitize(s) == s
  {
    UpperCasePieces(s);
    NoOpenTag(s);
  }

  /** The upper-case example holds no `<` followed by a lower-case `s`. */
  lemma UpperCasePieces(s: string)
    requires s == "<SCRIPT>alert(1)</SCRIPT>"
    ensures NoOpenStart(s)
  {
  }

  /** Layout of the attributes example. */
  lemma AttributesLayout(s: string, pre: string, attrs: string, body: string, post: string)
    requires s == "a<script src=x>b</script>c"
    requires pre == "a" && attrs == " src=x" && body == "b" && post == "c"
    ensures s == pre + ScriptTags.open + attrs + ">" + body + ScriptTags.close + post
  {
  }

  /** The pieces of the attributes example meet the block's side conditions. */
  lemma AttributesPieces(pre: string, attrs: string, body: string, post: string)
    requires pre == "a" && attrs == " src=x" && body == "b" && post == "c"
    ensures NoOpenStart(pre) && Lacks(attrs, '>') && Lacks(body, '<') && NoOpenStart(post)
  {
  }

  /** `[^>]*` lets the opening tag carry attributes. */
  lemma ExampleAttributes(s: string)
    requires s == "a<script src=x>b</script>c"
    ensures Sanitize(s) == "ac"
  {
    var pre, attrs, body, post := "a", " src=x", "b", "c";
    AttributesLayout(s, pre, attrs, body, post);
    AttributesPieces(pre, attrs, body, post);
    SanitizeBlock(pre, attrs, body, post);
    NoOpenTag(post);
  }

  /** Layout of the lazy-closing example. */
  lemma LazyCloseLayout(s: string, pre: string, attrs: string, body: string, post: string)
    requires s == "<script>a</script>b</script>"
    requires pre == "" && attrs == "" && body == "a" && post == "b</script>"
    ensures s == pre + ScriptTags.open + attrs + ">" + body + ScriptTags.close + post
  {
  }

  /** The pieces of the lazy-closing example meet the block's side conditions. */
  lemma LazyClosePieces(pre: string, attrs: string, body: string, post: string)
    requires pre == "" && attrs == "" && body == "a" && post == "b</script>"
    ensures NoOpenStart(pre) && Lacks(attrs, '>') && Lacks(body, '<') && NoOpenStart(post)
  {
  }

  /** The lazy `[\s\S]*?` stops at the first `</script>`; a later one stays. */
  lemma ExampleLazyClose(s: string)
    requires s == "<script>a</script>b</script>"
    ensures Sanitize(s) == "b</script>"
  {
    var pre, attrs, body, post := "", "", "a", "b</script>";
    LazyCloseLayout(s, pre, attrs, body, post);
    LazyClosePieces(pre, attrs, body, post);
    SanitizeBlock(pre, attrs, body, post);
    NoOpenTag(post);
  }

  /** Layout of the first pass of the two-pass example. */
  lemma NotIdempotentLayout(s: string, pre: string, empty: string, post: string)
    requires s == "<<script></script>script>x</script>"
    requires pre == "<" && empty == "" && post == "script>x</script>"
    ensures s == pre + ScriptTags.open + empty + ">" + empty + ScriptTags.close + post
  {
  }

  /** What the first pass of the two-pass example leaves. */
  lemma NotIdempotentJoin(pre: string, post: string)
    requires pre == "<" && post == "script>x</script>"
    ensures pre + post == "<script>x</script>"
  {
  }

  /** The pieces of the two-pass example meet the block's side conditions. */
  lemma NotIdempotentPieces(pre: string, empty: string, post: string)
    requires pre == "<" && empty == "" && post == "script>x</script>"
    ensures NoOpenStart(pre) && Lacks(empty, '>') && Lacks(empty, '<') && NoOpenStart(post)
  {
  }

  /** Layout of a text that is a single block. */
  lemma ScriptOnlyLayout(s: string, empty: string, body: string)
    requires s == "<script>x</script>"
    requires empty == "" && body == "x"
    ensures s == empty + ScriptTags.open + empty + ">" + body + ScriptTags.close + empty
  {
  }

  /** The pieces of the single-block example meet the block's side conditions. */
  lemma ScriptOnlyPieces(empty: string, body: string)
    requires empty == "" && body == "x"
    ensures NoOpenStart(empty) && Lacks(empty, '>') && Lacks(body, '<')
  {
  }

  /** A text that is one whole block is removed entirely. */
  lemma ExampleScriptOnly(s: string)
    requires s == "<script>x</script>"
    ensures Sanitize(s) == ""
  {
    var empty, body := "", "x";
    ScriptOnlyLayout(s, empty, body);
    ScriptOnlyPieces(empty, body);
    SanitizeBlock(empty, empty, body, empty);
    NoOpenTag(empty);
  }

  /** One pass is not enough: removing the inner block joins `<` and
      `script>` into a new block, which a second pass would remove. */
  lemma ExampleNotIdempotent(s: string)
    requires s == "<<script></script>script>x</script>"
    ensures Sanitize(s) == "<script>x</script>"
    ensures Sanitize(Sanitize(s)) == ""
  {
    var pre, empty, post := "<", "", "script>x</script>";
    NotIdempotentLayout(s, pre, empty, post);
    NotIdempotentPieces(pre, empty, post);
    NotIdempotentJoin(pre, post);
    SanitizeBlock(pre, empty, empty, post);
    NoOpenTag(post);
    ExampleScriptOnly(Sanitize(s));
  }

  /** A block without its closing tag is not removed. */
  lemma ExampleUnclosedKept(s: string)
    requires s == "<script>alert(1)"
    ensures Sanitize(s) == "<script>alert(1)"
  {
    assert forall k :: 0 <= k < |s| ==> s[k] != '/';
    forall p: nat, e: nat ensures !IsMatch(ScriptTags, s, p, e) {
      if e >= 9 {
        NotOccursAtByFirstTwo(s, ScriptTags.close, e - 9);
      }
    }
    SanitizeUnchangedIff(s);
  }
}
