/**
 * cJSON_Minify: the out-of-place specification, the in-place loop that refines it, and what it does to
 * printed text.
 */
module Minify {
  import opened Bytes

  // ---- specification: what is written from position i of the text on ----

  predicate IsGap(c: CByte) {
    c == SPACE || c == TAB || c == RETURN || c == NEWLINE
  }

  predicate IsPlain(c: CByte) {
    !IsGap(c) && c != SLASH && c != QUOTE
  }

  /** The position after a line comment whose text starts at `i`. */
  function LineEnd(s: CString, i: nat): (e: nat)
    requires i <= |s|
    ensures i <= e <= |s|
    decreases |s| - i
  {
    if i == |s| then i else if s[i] == NEWLINE then i + 1 else LineEnd(s, i + 1)
  }

  /** The position after a block comment whose text starts at `i`. */
  function BlockEnd(s: CString, i: nat): (e: nat)
    requires i <= |s|
    ensures i <= e <= |s|
    decreases |s| - i
  {
    if i == |s| then i else if s[i] == STAR && At(s, i + 1, SLASH) then i + 2 else BlockEnd(s, i + 1)
  }

  /** The position after the string whose contents start at `i`: only a backslash right before a quote hides it. */
  function StringEnd(s: CString, i: nat): (e: nat)
    requires i <= |s|
    ensures i <= e <= |s|
    decreases |s| - i
  {
    if i == |s| then i
    else if s[i] == QUOTE then i + 1
    else if s[i] == BACKSLASH && At(s, i + 1, QUOTE) then StringEnd(s, i + 2)
    else StringEnd(s, i + 1)
  }

  function Squeeze(s: CString, i: nat): (out: CString)
    requires i <= |s|
    ensures |out| <= |s| - i
    decreases |s| - i, 0
  {
    if i == |s| then []
    else if IsGap(s[i]) then Squeeze(s, i + 1)
    else if s[i] == SLASH then Squeeze(s, CommentEnd(s, i))
    else if s[i] == QUOTE then Verbatim(s, i, StringEnd(s, i + 1))
    else [s[i]] + Squeeze(s, i + 1)
  }

  /** The position after the comment that starts at `i`; a slash that starts none is dropped by itself. */
  function CommentEnd(s: CString, i: nat): (e: nat)
    requires i < |s|
    ensures i < e <= |s|
  {
    if At(s, i + 1, SLASH) then LineEnd(s, i + 2)
    else if At(s, i + 1, STAR) then BlockEnd(s, i + 2)
    else i + 1
  }

  /** The bytes from `i` to `e` as they stand, and the rest squeezed. */
  function Verbatim(s: CString, i: nat, e: nat): (out: CString)
    requires i <= e <= |s|
    ensures |out| <= |s| - i
    decreases |s| - e, 1
  {
    s[i..e] + Squeeze(s, e)
  }

  function Minified(s: CString): CString {
    Squeeze(s, 0)
  }

  // ---- idempotence ----

  /** The scan of a string meets its closing quote. */
  predicate Closes(s: CString, i: nat)
    requires i <= |s|
    decreases |s| - i
  {
    if i == |s| then false
    else if s[i] == QUOTE then true
    else if s[i] == BACKSLASH && At(s, i + 1, QUOTE) then Closes(s, i + 2)
    else Closes(s, i + 1)
  }

  /** The text of `s` from `i` to `e` also stands in `u` from `k` on. */
  predicate StandsAt(s: CString, i: nat, e: nat, u: CString, k: nat)
    requires i <= e <= |s|
  {
    k + (e - i) <= |u| && forall j :: i <= j < e ==> u[k + (j - i)] == s[j]
  }

  lemma {:induction false} CopiedRest(s: CString, i: nat, e: nat, u: CString, k: nat, step: nat)
    requires i + step <= e <= |s| && StandsAt(s, i, e, u, k)
    ensures StandsAt(s, i + step, e, u, k + step)
  {
    forall j | i + step <= j < e
      ensures u[(k + step) + (j - (i + step))] == s[j]
    {
      assert u[k + (j - i)] == s[j];
    }
  }

  /** A string copied to another place ends there at the same distance. */
  lemma {:induction false} CopiedStringEnds(s: CString, i: nat, u: CString, k: nat)
    requires i <= |s| && StandsAt(s, i, StringEnd(s, i), u, k)
    requires Closes(s, i) || (StringEnd(s, i) == |s| && k + (|s| - i) == |u|)
    ensures StringEnd(u, k) - k == StringEnd(s, i) - i
    decreases |s| - i
  {
    var e := StringEnd(s, i);
    if i < |s| {
      assert u[k + (i - i)] == s[i];
      if i + 1 < e { assert u[k + (i + 1 - i)] == s[i + 1]; }
      if s[i] != QUOTE {
        var step := if s[i] == BACKSLASH && At(s, i + 1, QUOTE) then 2 else 1;
        CopiedRest(s, i, e, u, k, step);
        CopiedStringEnds(s, i + step, u, k + step);
      }
    }
  }

  lemma {:induction false} UnclosedRunsOut(s: CString, i: nat)
    requires i <= |s| && !Closes(s, i)
    ensures StringEnd(s, i) == |s|
    decreases |s| - i
  {
    if i < |s| {
      UnclosedRunsOut(s, if s[i] == BACKSLASH && At(s, i + 1, QUOTE) then i + 2 else i + 1);
    }
  }

  /** Squeezing text that was squeezed already changes nothing. */
  lemma {:induction false} SqueezeAgain(s: CString, i: nat, u: CString, k: nat)
    requires i <= |s| && k <= |u| && u[k..] == Squeeze(s, i)
    ensures Squeeze(u, k) == Squeeze(s, i)
    decreases |s| - i
  {
    if i < |s| {
      if IsGap(s[i]) {
        SqueezeAgain(s, i + 1, u, k);
      } else if s[i] == SLASH {
        SqueezeAgain(s, CommentEnd(s, i), u, k);
      } else if s[i] == QUOTE {
        SqueezeStringAgain(s, i, u, k);
      } else {
        assert u[k..][0] == s[i];
        assert u[k + 1..] == u[k..][1..] == Squeeze(s, i + 1);
        SqueezeAgain(s, i + 1, u, k + 1);
      }
    }
  }

  lemma {:induction false} SqueezeStringAgain(s: CString, i: nat, u: CString, k: nat)
    requires At(s, i, QUOTE) && k <= |u| && u[k..] == Squeeze(s, i)
    ensures Squeeze(u, k) == Squeeze(s, i)
    decreases |s| - i, 0
  {
    hide StringEnd, Closes, Squeeze;
    var e := StringEnd(s, i + 1);
    var n := e - i;
    SqueezeAtQuote(s, i);
    VerbatimAgain(s, i, e, u, k);
    if !Closes(s, i + 1) { UnclosedRunsOut(s, i + 1); }
    CopiedStringEnds(s, i + 1, u, k + 1);
    SqueezeAgain(s, e, u, k + n);
    SqueezeAtQuote(u, k);
  }

  lemma {:induction false} SqueezeAtQuote(s: CString, i: nat)
    requires At(s, i, QUOTE)
    ensures Squeeze(s, i) == Verbatim(s, i, StringEnd(s, i + 1))
  {
  }

  lemma {:induction false} SqueezeStep(s: CString, i: nat)
    requires i <= |s|
    ensures i == |s| ==> Squeeze(s, i) == []
    ensures i < |s| && IsGap(s[i]) ==> Squeeze(s, i) == Squeeze(s, i + 1)
    ensures i < |s| && s[i] == SLASH ==> Squeeze(s, i) == Squeeze(s, CommentEnd(s, i))
  {
  }

  lemma {:induction false} SqueezeAtToken(s: CString, i: nat)
    requires i < |s| && !IsGap(s[i]) && s[i] != SLASH
    ensures var e := if s[i] == QUOTE then StringEnd(s, i + 1) else i + 1;
            Squeeze(s, i) == s[i..e] + Squeeze(s, e)
  {
  }

  lemma {:induction false} VerbatimAgain(s: CString, i: nat, e: nat, u: CString, k: nat)
    requires i < e <= |s| && k <= |u| && u[k..] == Verbatim(s, i, e)
    ensures StandsAt(s, i, e, u, k) && StandsAt(s, i + 1, e, u, k + 1)
    ensures k + (e - i) <= |u| && u[k..k + (e - i)] == s[i..e] && u[k + (e - i)..] == Squeeze(s, e)
    ensures e == |s| ==> k + (e - i) == |u|
    ensures u[k] == s[i]
  {
    hide Squeeze;
    assert u[k..] == s[i..e] + Squeeze(s, e);
    assert forall j :: i <= j < e ==> u[k + (j - i)] == u[k..][j - i] == s[j];
    CopiedRest(s, i, e, u, k, 1);
    assert u[k + (e - i)..] == u[k..][e - i..];
  }

  /** Minifying is idempotent on every text, well formed or not. */
  lemma {:induction false} MinifyIdempotent(s: CString)
    ensures Minified(Minified(s)) == Minified(s)
  {
    var m := Minified(s);
    assert m[0..] == m;
    SqueezeAgain(s, 0, m, 0);
  }

  // ---- the in-place loop ----

  /** The C string `s` starts at the beginning of the block and is terminated there. */
  ghost predicate Holds(a: array<Byte>, s: CString)
    reads a
  {
    |s| < a.Length && a[..|s|] == s && a[|s|] == NUL
  }

  /** Everything at or after `i` is still as in the original text. */
  ghost predicate Unread(a: array<Byte>, s: CString, i: nat)
    reads a
  {
    && i <= |s| < a.Length
    && (forall k :: i <= k < |s| ==> a[k] == s[k])
    && a[|s|] == NUL
  }

  method SkipOnelineComment(a: array<Byte>, input: nat, ghost s: CString) returns (next: nat)
    requires Unread(a, s, input) && At(s, input, SLASH) && At(s, input + 1, SLASH)
    ensures next == LineEnd(s, input + 2)
  {
    next := input + 2;
    while a[next] != NUL
      invariant input + 2 <= next <= |s|
      invariant LineEnd(s, next) == LineEnd(s, input + 2)
      decreases |s| - next
    {
      if a[next] == NEWLINE {
        return next + 1;
      }
      next := next + 1;
    }
  }

  method SkipMultilineComment(a: array<Byte>, input: nat, ghost s: CString) returns (next: nat)
    requires Unread(a, s, input) && At(s, input, SLASH) && At(s, input + 1, STAR)
    ensures next == BlockEnd(s, input + 2)
  {
    next := input + 2;
    while a[next] != NUL
      invariant input + 2 <= next <= |s|
      invariant BlockEnd(s, next) == BlockEnd(s, input + 2)
      decreases |s| - next
    {
      if a[next] == STAR && a[next + 1] == SLASH {
        return next + 2;
      }
      next := next + 1;
    }
  }

  lemma {:induction false} StringEndStep(s: CString, i: nat)
    requires i <= |s|
    ensures i < |s| && s[i] == QUOTE ==> StringEnd(s, i) == i + 1
    ensures i < |s| && s[i] == BACKSLASH && At(s, i + 1, QUOTE) ==> StringEnd(s, i) == StringEnd(s, i + 2)
    ensures i < |s| && s[i] != QUOTE && !(s[i] == BACKSLASH && At(s, i + 1, QUOTE)) ==>
              StringEnd(s, i) == StringEnd(s, i + 1)
    ensures i == |s| ==> StringEnd(s, i) == i
  {
  }

  /** One round of the loop of minify_string; `closed` when the byte copied is the closing quote. */
  method CopyStringByte(a: array<Byte>, input: nat, output: nat, ghost s: CString)
    returns (next: nat, into: nat, closed: bool)
    requires Unread(a, s, input) && input < |s| && output <= input
    modifies a
    ensures input < next <= |s| && into == output + (next - input) && Unread(a, s, next)
    ensures closed <==> s[input] == QUOTE
    ensures StringEnd(s, input) == if closed then next else StringEnd(s, next)
    ensures forall k :: output <= k < into ==> a[k] == s[k + (input - output)]
    ensures forall k :: 0 <= k < output || next <= k < a.Length ==> a[k] == old(a[k])
  {
    hide StringEnd;
    StringEndStep(s, input);
    a[output] := a[input];
    closed := a[input] == QUOTE;
    next, into := input, output;
    if closed {
      a[into] := QUOTE;
    } else if a[input] == BACKSLASH && a[input + 1] == QUOTE {
      a[output + 1] := a[input + 1];
      next, into := next + 1, into + 1;
    }
    next, into := next + 1, into + 1;
  }

  /** Copies a string down, quotes included; the write position never passes the read position. */
  method MinifyString(a: array<Byte>, input: nat, output: nat, ghost s: CString) returns (next: nat, into: nat)
    requires Unread(a, s, input) && At(s, input, QUOTE) && output <= input
    modifies a
    ensures next == StringEnd(s, input + 1) && into == output + (next - input)
    ensures Unread(a, s, next)
    ensures forall k :: output <= k < into ==> a[k] == s[k + (input - output)]
    ensures forall k :: 0 <= k < output || |s| <= k < a.Length ==> a[k] == old(a[k])
  {
    hide StringEnd;
    a[output] := a[input];
    next, into := input + 1, output + 1;
    while a[next] != NUL
      invariant input + 1 <= next <= |s| && into == output + (next - input)
      invariant StringEnd(s, next) == StringEnd(s, input + 1)
      invariant Unread(a, s, next)
      invariant forall k :: output <= k < into ==> a[k] == s[k + (input - output)]
      invariant forall k :: 0 <= k < output || |s| <= k < a.Length ==> a[k] == old(a[k])
      decreases |s| - next
    {
      var closed;
      next, into, closed := CopyStringByte(a, next, into, s);
      if closed { return; }
    }
    StringEndStep(s, next);
  }

  /** The bytes written so far, followed by what is still to be written, are the minified text. */
  ghost predicate SqueezedSoFar(a: array<Byte>, s: CString, json: nat, into: nat)
    requires json <= |s|
    reads a
  {
    into <= a.Length && a[..into] + Squeeze(s, json) == Minified(s)
  }

  lemma {:induction false} SqueezedMore(done: seq<Byte>, s: CString, from: nat, to: nat, more: seq<Byte>)
    requires from < to <= |s| && done + Squeeze(s, from) == Minified(s)
    requires more == done + s[from..to] && Squeeze(s, from) == s[from..to] + Squeeze(s, to)
    ensures more + Squeeze(s, to) == Minified(s)
  {
    hide Squeeze;
  }

  /** cJSON_Minify: afterwards the block holds the minified text, and nothing behind the old text changed. */
  method MinifyInPlace(a: array<Byte>, ghost s: CString)
    requires Holds(a, s)
    modifies a
    ensures Holds(a, Minified(s))
    ensures forall k :: |s| < k < a.Length ==> a[k] == old(a[k])
  {
    hide Squeeze;
    var json: nat, into: nat := 0, 0;
    while a[json] != NUL
      invariant into <= json && Unread(a, s, json)
      invariant SqueezedSoFar(a, s, json, into)
      invariant forall k :: |s| < k < a.Length ==> a[k] == old(a[k])
      decreases |s| - json
    {
      SqueezeStep(s, json);
      if a[json] == SPACE || a[json] == TAB || a[json] == RETURN || a[json] == NEWLINE {
        json := json + 1;
      } else if a[json] == SLASH {
        if a[json + 1] == SLASH {
          json := SkipOnelineComment(a, json, s);
        } else if a[json + 1] == STAR {
          json := SkipMultilineComment(a, json, s);
        } else {
          json := json + 1;
        }
      } else {
        json, into := CopyToken(a, json, into, s);
      }
    }
    SqueezeStep(s, json);
    assert a[..into] == Minified(s);
    a[into] := NUL;
  }

  /** The two branches of the loop that write: a whole string, or one byte. */
  method CopyToken(a: array<Byte>, input: nat, output: nat, ghost s: CString) returns (next: nat, into: nat)
    requires Unread(a, s, input) && input < |s| && !IsGap(s[input]) && s[input] != SLASH
    requires output <= input && SqueezedSoFar(a, s, input, output)
    modifies a
    ensures Unread(a, s, next) && input < next && into <= next && SqueezedSoFar(a, s, next, into)
    ensures forall k :: |s| < k < a.Length ==> a[k] == old(a[k])
  {
    hide StringEnd, Squeeze;
    ghost var done := a[..output];
    SqueezeAtToken(s, input);
    if a[input] == QUOTE {
      next, into := MinifyString(a, input, output, s);
    } else {
      a[output] := a[input];
      next, into := input + 1, output + 1;
    }
    assert a[..into] == done + s[input..next];
    SqueezedMore(done, s, input, next, a[..into]);
  }
}
