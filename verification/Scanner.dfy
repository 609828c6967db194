/**
 * The lexical level of the parser: whitespace, hexadecimal digits, UTF-16 escapes, strings and numbers, read
 * from a NUL-terminated buffer and written to the heap.
 */
module Scanner {
  import opened Bytes
  import opened JsonTree
  import opened Utf
  import opened StringCodec
  import opened NumberCodec
  import opened Grammar
  import opened Memory

  // ---- the block a string is decoded into ----

  /** `h` is `h0` with a new block whose first bytes are `done`. */
  predicate Filling(h0: Heap, h: Heap, out: Ptr, size: nat, done: seq<Byte>) {
    && out != NULL && out !in h0.blocks && out in h.blocks
    && h == h0.(blocks := h0.blocks[out := h.blocks[out]])
    && |h.blocks[out]| == size && |done| <= size && h.blocks[out][..|done|] == done
  }

  lemma {:induction false} FillingMore(h0: Heap, h: Heap, out: Ptr, size: nat, done: seq<Byte>, b: Byte)
    requires Filling(h0, h, out, size, done) && |done| < size
    ensures out in h.blocks && |done| < |h.blocks[out]|
    ensures Filling(h0, Written(h, out, |done|, b), out, size, done + [b])
  {
    var h' := Written(h, out, |done|, b);
    assert h'.blocks[out][..|done| + 1] == done + [b];
    assert h'.blocks == h0.blocks[out := h'.blocks[out]];
  }

  lemma {:induction false} FreedAgain(h0: Heap, h: Heap, out: Ptr, size: nat, done: seq<Byte>)
    requires Filling(h0, h, out, size, done)
    ensures out in h.blocks && Without(h, {}, {out}) == h0
  {
    assert h.nodes - {} == h0.nodes;
    assert h.blocks - {out} == h0.blocks;
  }

  lemma {:induction false} CStrBeforeNul(done: seq<Byte>, junk: seq<Byte>)
    ensures CStr(done + [NUL] + junk) == CStr(done)
  {
    var block := done + [NUL] + junk;
    if done != [] && done[0] != NUL {
      assert block[1..] == done[1..] + [NUL] + junk;
      CStrBeforeNul(done[1..], junk);
    }
  }

  /** `h1` is `h0` after parse_string put a string into `item`. */
  predicate GotString(h0: Heap, h1: Heap, item: Ptr, str: Ptr, s: CString) {
    && item in h0.nodes && str != NULL && str !in h0.blocks && HoldsString(h1, str, s)
    && h1.nodes == h0.nodes[item := h0.nodes[item].(kind := KString, valuestring := str)]
    && h1.blocks == h0.blocks[str := h1.blocks[str]]
  }

  // ---- scanning positions ----

  lemma {:induction false} CloseStep(text: CString, i: nat)
    requires i <= |text|
    ensures i == |text| ==> FindClose(text[i..]) == None
    ensures i < |text| && text[i] == QUOTE ==> FindClose(text[i..]) == Some(0)
    ensures i < |text| && text[i] == BACKSLASH && i + 1 == |text| ==> FindClose(text[i..]) == None
    ensures i < |text| && text[i] != QUOTE && (text[i] == BACKSLASH ==> i + 1 < |text|) ==>
              var step := if text[i] == BACKSLASH then 2 else 1;
              FindClose(text[i..]) == match FindClose(text[i + step..])
                                      case None => None
                                      case Some(n) => Some(step + n)
  {
    if i + 1 < |text| { assert text[i..][2..] == text[i + 2..]; }
    if i < |text| { assert text[i..][1..] == text[i + 1..]; }
  }

  lemma {:induction false} SkipsStep(text: CString, i: nat, close: nat)
    requires i < close <= |text|
    ensures text[i] == BACKSLASH && i + 1 < close ==>
              Skips(text[i..close]) == 1 + Skips(text[i + 2..close])
    ensures text[i] != BACKSLASH ==> Skips(text[i..close]) == Skips(text[i + 1..close])
  {
    assert text[i..close][1..] == text[i + 1..close];
    if i + 1 < close { assert text[i..close][2..] == text[i + 2..close]; }
  }

  // ---- the second pass, one step at a time ----

  /** What the second pass has written when it stands at `i`, and what the first pass allowed for it. */
  predicate Decoding(text: CString, from: nat, close: nat, i: nat, done: seq<Byte>)
    requires from <= close <= |text|
  {
    && from <= i <= close + 1
    && Unescape(text[from..close]) == Prepend(done, if i <= close then Unescape(text[i..close]) else Some([]))
    && |done| + (if i <= close then Units(text[i..close]) else 0) <= Units(text[from..close])
  }

  lemma {:induction false} DecodingStarts(text: CString, from: nat, close: nat)
    requires from <= close <= |text|
    ensures Decoding(text, from, close, from, [])
  {
    assert Unescape(text[from..close]).Some? ==> [] + Unescape(text[from..close]).value == Unescape(text[from..close]).value;
  }

  lemma {:induction false} PrependTwice(a: seq<Byte>, b: seq<Byte>, out: Option<seq<Byte>>)
    ensures Prepend(a, Prepend(b, out)) == Prepend(a + b, out)
  {
    if out.Some? { assert a + (b + out.value) == (a + b) + out.value; }
  }

  lemma {:induction false} DecodePlain(text: CString, from: nat, close: nat, i: nat, done: seq<Byte>)
    requires from <= close <= |text| && i < close && Decoding(text, from, close, i, done) && text[i] != BACKSLASH
    ensures Decoding(text, from, close, i + 1, done + [text[i]])
    ensures |done| < Units(text[from..close])
  {
    hide Skips;
    var r := text[i..close];
    assert r[1..] == text[i + 1..close];
    PrependTwice(done, [text[i]], Unescape(r[1..]));
    UnitsOfPlain(r);
  }

  lemma {:induction false} UnitsOfPlain(r: CString)
    requires r != [] && r[0] != BACKSLASH
    ensures Units(r) == 1 + Units(r[1..])
  {
  }

  lemma {:induction false} UnitsOfEscape(r: CString)
    requires r != [] && r[0] == BACKSLASH
    ensures Units(r) == 1 + (if |r| == 1 then 0 else Units(r[2..]))
  {
  }

  /** The letter after a backslash: the closing quote when the backslash is in last place. */
  function Letter(text: CString, i: nat, close: nat): CByte
    requires i < close <= |text|
  {
    if i + 1 < close then text[i + 1] else QUOTE
  }

  lemma {:induction false} DecodeShort(text: CString, from: nat, close: nat, i: nat, done: seq<Byte>)
    requires from <= close <= |text| && i < close && Decoding(text, from, close, i, done)
    requires text[i] == BACKSLASH && Letter(text, i, close) != LOWER_U
    ensures var b := Unshort(Letter(text, i, close));
            if b.None? then Unescape(text[from..close]) == None
            else Decoding(text, from, close, i + 2, done + [b.value])
    ensures |done| < Units(text[from..close])
  {
    hide Skips;
    var r := text[i..close];
    var b := Unshort(Letter(text, i, close));
    UnitsOfEscape(r);
    var rest := if i + 1 < close then Unescape(text[i + 2..close]) else Some([]);
    if i + 1 < close { assert r[2..] == text[i + 2..close]; }
    if b.Some? {
      PrependTwice(done, [b.value], rest);
      assert Unescape(r) == Prepend([b.value], rest);
      if i + 2 == close { assert text[i + 2..close] == []; }
    }
  }

  lemma {:induction false} DecodeLiteral(text: CString, from: nat, close: nat, i: nat, done: seq<Byte>)
    requires from <= close <= |text| && i < close && Decoding(text, from, close, i, done)
    requires text[i] == BACKSLASH && Letter(text, i, close) == LOWER_U
    ensures var l := ReadLiteral(text[i..close]);
            if l.None? then Unescape(text[from..close]) == None
            else i + l.value.consumed <= close
                 && Decoding(text, from, close, i + l.value.consumed, done + l.value.bytes)
                 && |done| + |l.value.bytes| <= Units(text[from..close])
  {
    hide Skips, ReadLiteral;
    var r := text[i..close];
    var l := ReadLiteral(r);
    if l.Some? {
      var n := l.value.consumed;
      assert r[n..] == text[i + n..close];
      UnitsAfterDrop(r, n / 2);
      PrependTwice(done, l.value.bytes, Unescape(r[n..]));
    }
  }

  function Shift(n: nat, x: Option<nat>): Option<nat> {
    match x
    case None => None
    case Some(k) => Some(n + k)
  }

  lemma {:induction false} SkipsOfNone(text: CString, i: nat)
    requires i <= |text|
    ensures Skips(text[i..i]) == 0
  {
  }

  /** What one step of the first pass does to the count of escapes, for any end of the literal. */
  lemma {:induction false} SkipsSteps(text: CString, i: nat)
    ensures forall close :: i < close <= |text| && text[i] == BACKSLASH && i + 1 < close ==>
              Skips(text[i..close]) == 1 + Skips(text[i + 2..close])
    ensures forall close :: i < close <= |text| && text[i] != BACKSLASH ==>
              Skips(text[i..close]) == Skips(text[i + 1..close])
  {
    hide Skips;
    forall close | i < close <= |text|
      ensures text[i] == BACKSLASH && i + 1 < close ==> Skips(text[i..close]) == 1 + Skips(text[i + 2..close])
      ensures text[i] != BACKSLASH ==> Skips(text[i..close]) == Skips(text[i + 1..close])
    {
      SkipsStep(text, i, close);
    }
  }

  /** The units of an escape, read from the slice and from the whole text. */
  lemma {:induction false} UnitsAt(text: CString, p: nat, end: nat)
    requires p + 6 <= end <= |text|
    ensures Hex4(text[p..end], 2) == Hex4(text, p + 2)
    ensures SecondUnit(text[p..end]) ==
            if p + 12 <= end && text[p + 6] == BACKSLASH && text[p + 7] == LOWER_U then Some(Hex4(text, p + 8)) else None
  {
    HexAt(text, p, end, 2);
    if p + 12 <= end { HexAt(text, p, end, 8); }
  }

  lemma {:induction false} HexAt(text: CString, p: nat, end: nat, i: nat)
    requires p + i + 4 <= end <= |text|
    ensures Hex4(text[p..end], i) == Hex4(text, p + i)
  {
    var s := text[p..end];
    assert s[i] == text[p + i] && s[i + 1] == text[p + i + 1];
    assert s[i + 2] == text[p + i + 2] && s[i + 3] == text[p + i + 3];
  }

  lemma {:induction false} TailStarts(h0: Heap, h: Heap, out: Ptr, size: nat, done: seq<Byte>, i: nat)
    requires Filling(h0, h, out, size, done) && i <= size
    ensures HasTail(h, out, i, [])
  {
  }

  lemma {:induction false} ShiftedSteps(cp: int)
    ensures Shifted(cp, 0) == cp
    ensures forall n: nat :: n < 3 ==> Shifted(cp, n + 1) == Shifted(cp, n) / 64
  {
  }

  /** The block holds these bytes from position `i` on. */
  predicate HasTail(h: Heap, out: Ptr, i: nat, tail: seq<Byte>) {
    && out in h.blocks && i + |tail| <= |h.blocks[out]|
    && h.blocks[out][i..i + |tail|] == tail
  }

  lemma {:induction false} TailGrows(h0: Heap, h: Heap, out: Ptr, size: nat, done: seq<Byte>, i: nat, b: Byte,
                       tail: seq<Byte>)
    requires Filling(h0, h, out, size, done) && |done| <= i < size && HasTail(h, out, i + 1, tail)
    ensures out in h.blocks && i < |h.blocks[out]|
    ensures Filling(h0, Written(h, out, i, b), out, size, done)
    ensures HasTail(Written(h, out, i, b), out, i, [b] + tail)
  {
    var block := h.blocks[out];
    var block' := Written(h, out, i, b).blocks[out];
    assert block'[i..i + 1 + |tail|] == [b] + block[i + 1..i + 1 + |tail|];
    assert block'[..|done|] == block[..|done|];
  }

  lemma {:induction false} TailFills(h0: Heap, h: Heap, out: Ptr, size: nat, done: seq<Byte>, tail: seq<Byte>)
    requires Filling(h0, h, out, size, done) && HasTail(h, out, |done|, tail)
    ensures Filling(h0, h, out, size, done + tail)
  {
    var block := h.blocks[out];
    assert block[..|done| + |tail|] == block[..|done|] + block[|done|..|done| + |tail|];
  }

  lemma {:induction false} DecodingBound(text: CString, from: nat, close: nat, i: nat, done: seq<Byte>)
    requires from <= close <= |text| && Decoding(text, from, close, i, done)
    ensures from <= i <= close + 1
  {
  }

  lemma {:induction false} DecodingEnds(text: CString, from: nat, close: nat, i: nat, done: seq<Byte>)
    requires from <= close <= |text| && Decoding(text, from, close, i, done) && i >= close
    ensures Unescape(text[from..close]) == Some(done) && |done| <= Units(text[from..close])
  {
    if i == close { assert text[i..close] == []; }
    assert done + [] == done;
  }

  /** ReadString in terms of positions. */
  lemma {:induction false} ReadStringAt(text: CString, i: nat)
    requires i <= |text|
    ensures i == |text| || text[i] != QUOTE ==> ReadString(text[i..]) == None
    ensures At(text, i, QUOTE) && FindClose(text[i + 1..]) == None ==> ReadString(text[i..]) == None
    ensures At(text, i, QUOTE) && FindClose(text[i + 1..]).Some? ==>
              var close := i + 1 + FindClose(text[i + 1..]).value;
              ReadString(text[i..]) == match Unescape(text[i + 1..close])
                                       case None => None
                                       case Some(out) => Some(Read(out, close + 1 - i))
  {
    hide FindClose, Unescape;
    if At(text, i, QUOTE) {
      assert text[i..][1..] == text[i + 1..];
      if FindClose(text[i + 1..]).Some? {
        var n := FindClose(text[i + 1..]).value;
        assert text[i..][1..1 + n] == text[i + 1..i + 1 + n];
      }
    }
  }

  lemma {:induction false} FillingStarts(h0: Heap, h: Heap, out: Ptr, size: nat)
    requires out != NULL && out !in h0.blocks && out in h.blocks && |h.blocks[out]| == size
    requires h == h0.(blocks := h0.blocks[out := h.blocks[out]])
    ensures Filling(h0, h, out, size, [])
  {
  }

  /** The finished block holds the decoded string; storing its address in the item completes parse_string. */
  lemma {:induction false} StringIsThere(h0: Heap, h: Heap, item: Ptr, out: Ptr, size: nat, done: seq<Byte>)
    requires Filling(h0, h, out, size, done) && item in h0.nodes && done != [] && done[|done| - 1] == NUL
    ensures item in h.nodes
    ensures var h1 := h.(nodes := h.nodes[item := h.nodes[item].(kind := KString, valuestring := out)]);
            GotString(h0, h1, item, out, CStr(done[..|done| - 1]))
  {
    var s := done[..|done| - 1];
    var block := h.blocks[out];
    assert block == s + [NUL] + block[|done|..] by {
      assert block == block[..|done|] + block[|done|..];
      assert done == s + [NUL];
    }
    CStrBeforeNul(s, block[|done|..]);
  }

  /** strncmp against a word, on the terminated buffer. */
  lemma {:induction false} WordAt(text: CString, i: nat, word: CString)
    requires i <= |text| && word != []
    ensures var content: seq<Byte> := text + [NUL];
            Has(text, i, word) <==> i + |word| <= |content| && content[i..i + |word|] == word
  {
    var content: seq<Byte> := text + [NUL];
    if i + |word| <= |text| {
      assert content[i..i + |word|] == text[i..i + |word|];
    } else if i + |word| == |content| {
      assert content[i..i + |word|][|word| - 1] == NUL;
    }
  }
}
