/**
 * What minifying does to a text, piece by piece and without positions: together with the empty text these cover every
 * way in which a text can begin.
 */
module MinifyLaws {
  import opened Bytes
  import opened Minify

  /** No "*" with a "/" right behind it. */
  predicate NoBlockEnd(s: CString) {
    forall i :: 0 <= i < |s| - 1 ==> !(s[i] == 42 && s[i + 1] == 47)
  }

  /** Every quote has a backslash right before it. */
  predicate QuotesHidden(s: CString) {
    forall i :: 0 <= i < |s| && s[i] == 34 ==> i > 0 && s[i - 1] == 92
  }

  // ---- positions do not matter ----

  lemma {:induction false} LineEndInSuffix(s: CString, k: nat, i: nat)
    requires k <= i <= |s|
    ensures LineEnd(s, i) == k + LineEnd(s[k..], i - k)
    decreases |s| - i
  {
    if i < |s| && s[i] != NEWLINE { LineEndInSuffix(s, k, i + 1); }
  }

  lemma {:induction false} BlockEndInSuffix(s: CString, k: nat, i: nat)
    requires k <= i <= |s|
    ensures BlockEnd(s, i) == k + BlockEnd(s[k..], i - k)
    decreases |s| - i
  {
    if i < |s| && !(s[i] == STAR && At(s, i + 1, SLASH)) { BlockEndInSuffix(s, k, i + 1); }
  }

  lemma {:induction false} StringEndInSuffix(s: CString, k: nat, i: nat)
    requires k <= i <= |s|
    ensures StringEnd(s, i) == k + StringEnd(s[k..], i - k)
    decreases |s| - i
  {
    if i < |s| && s[i] != QUOTE {
      StringEndInSuffix(s, k, if s[i] == BACKSLASH && At(s, i + 1, QUOTE) then i + 2 else i + 1);
    }
  }

  lemma {:induction false} SqueezeInSuffix(s: CString, k: nat, i: nat)
    requires k <= i <= |s|
    ensures Squeeze(s, i) == Squeeze(s[k..], i - k)
    decreases |s| - i
  {
    hide Squeeze, StringEnd, CommentEnd;
    var u := s[k..];
    SqueezeStep(s, i);
    SqueezeStep(u, i - k);
    if i < |s| {
      assert u[i - k] == s[i];
      if IsGap(s[i]) {
        SqueezeInSuffix(s, k, i + 1);
      } else if s[i] == SLASH {
        CommentEndInSuffix(s, k, i);
        SqueezeInSuffix(s, k, CommentEnd(s, i));
      } else {
        var e := if s[i] == QUOTE then StringEnd(s, i + 1) else i + 1;
        StringEndInSuffix(s, k, i + 1);
        SqueezeAtToken(s, i);
        SqueezeAtToken(u, i - k);
        SqueezeInSuffix(s, k, e);
        assert s[i..e] == u[i - k..e - k];
      }
    }
  }

  lemma {:induction false} CommentEndInSuffix(s: CString, k: nat, i: nat)
    requires k <= i < |s|
    ensures CommentEnd(s, i) == k + CommentEnd(s[k..], i - k)
  {
    if At(s, i + 1, SLASH) {
      LineEndInSuffix(s, k, i + 2);
    } else if At(s, i + 1, STAR) {
      BlockEndInSuffix(s, k, i + 2);
    }
  }

  lemma {:induction false} SqueezeRest(s: CString, i: nat)
    requires i <= |s|
    ensures Squeeze(s, i) == Minified(s[i..])
  {
    SqueezeInSuffix(s, i, i);
  }

  // ---- where comments and literals end ----

  lemma {:induction false} LineEndsAtNewline(s: CString, i: nat, e: nat)
    requires i <= e <= |s| && forall k :: i <= k < e ==> s[k] != 10
    requires e < |s| ==> s[e] == 10
    ensures LineEnd(s, i) == if e < |s| then e + 1 else e
    decreases e - i
  {
    if i < e { LineEndsAtNewline(s, i + 1, e); }
  }

  lemma {:induction false} BlockEndsAtMark(s: CString, i: nat, e: nat)
    requires i <= e <= |s| && forall k :: i <= k < e && k + 1 < |s| ==> !(s[k] == 42 && s[k + 1] == 47)
    requires e < |s| ==> e + 1 < |s| && s[e] == 42 && s[e + 1] == 47
    ensures BlockEnd(s, i) == if e < |s| then e + 2 else e
    decreases e - i
  {
    if i < e { BlockEndsAtMark(s, i + 1, e); }
  }

  /** From a position that is not in the middle of a hidden quote, the scan finds the first quote that is not hidden. */
  lemma {:induction false} StringEndsAtQuote(s: CString, i: nat, e: nat)
    requires i <= e <= |s| && (i < e ==> s[i] != 34)
    requires forall k :: i < k < e && s[k] == 34 ==> s[k - 1] == 92
    requires e < |s| ==> s[e] == 34 && (i < e ==> s[e - 1] != 92)
    ensures StringEnd(s, i) == if e < |s| then e + 1 else e
    decreases e - i
  {
    if i < e {
      if s[i] == BACKSLASH && At(s, i + 1, QUOTE) {
        assert i + 1 < e && (i + 2 < e ==> s[i + 2] != 34);
        StringEndsAtQuote(s, i + 2, e);
      } else {
        StringEndsAtQuote(s, i + 1, e);
      }
    }
  }

  // ---- the laws ----

  lemma {:induction false} NothingStays()
    ensures Minified([]) == []
  {
  }

  lemma {:induction false} BlankVanishes(c: CByte, rest: CString)
    requires c == 32 || c == 9 || c == 13 || c == 10
    ensures Minified([c] + rest) == Minified(rest)
  {
    var s := [c] + rest;
    SqueezeRest(s, 1);
    assert s[1..] == rest;
  }

  /** A byte that is no whitespace, no slash and no quote stays. */
  lemma {:induction false} ByteStays(c: CByte, rest: CString)
    requires c !in {32, 9, 13, 10, 47, 34}
    ensures Minified([c] + rest) == [c] + Minified(rest)
  {
    var s := [c] + rest;
    SqueezeRest(s, 1);
    assert s[1..] == rest;
  }

  lemma {:induction false} LineCommentVanishes(words: CString, rest: CString)
    requires 10 !in words
    ensures Minified([47, 47] + words + [10] + rest) == Minified(rest)
    ensures Minified([47, 47] + words) == []
  {
    var s, u := [47, 47] + words + [10] + rest, [47, 47] + words;
    LineEndsAtNewline(s, 2, |u|);
    SqueezeRest(s, |u| + 1);
    assert s[|u| + 1..] == rest;
    LineEndsAtNewline(u, 2, |u|);
  }

  lemma {:induction false} BlockCommentVanishes(words: CString, rest: CString)
    requires NoBlockEnd(words)
    ensures Minified([47, 42] + words + [42, 47] + rest) == Minified(rest)
    ensures Minified([47, 42] + words) == []
  {
    var s, u := [47, 42] + words + [42, 47] + rest, [47, 42] + words;
    assert forall k :: 2 <= k < |u| ==> s[k] == words[k - 2] && u[k] == words[k - 2];
    BlockEndsAtMark(s, 2, |u|);
    SqueezeRest(s, |u| + 2);
    assert s[|u| + 2..] == rest;
    BlockEndsAtMark(u, 2, |u|);
  }

  /** A slash that begins no comment is dropped by itself. */
  lemma {:induction false} LoneSlashVanishes(rest: CString)
    requires rest == [] || (rest[0] != 47 && rest[0] != 42)
    ensures Minified([47] + rest) == Minified(rest)
  {
    var s := [47] + rest;
    SqueezeRest(s, 1);
    assert s[1..] == rest;
  }

  /** A literal stays as it is; only a backslash right before a quote keeps it open. */
  lemma {:induction false} LiteralStays(body: CString, rest: CString)
    requires QuotesHidden(body)
    ensures (body == [] || body[|body| - 1] != 92) ==>
              Minified([34] + body + [34] + rest) == [34] + body + [34] + Minified(rest)
    ensures Minified([34] + body) == [34] + body
  {
    hide Squeeze;
    var s, u := [34] + body + [34] + rest, [34] + body;
    var e := |u|;
    assert forall k :: 1 <= k < e ==> s[k] == body[k - 1] && u[k] == body[k - 1];
    if body == [] || body[|body| - 1] != 92 {
      StringEndsAtQuote(s, 1, e);
      SqueezeAtQuote(s, 0);
      SqueezeRest(s, e + 1);
      assert s[0..e + 1] == [34] + body + [34] && s[e + 1..] == rest;
    }
    StringEndsAtQuote(u, 1, e);
    SqueezeAtQuote(u, 0);
    SqueezeStep(u, e);
    assert u[0..e] == u;
  }
}
