/** The parser: a cursor over a NUL-terminated buffer that builds cJSON nodes on the heap. */
module ParseBuffer {
  import opened Bytes
  import opened JsonTree
  import opened Utf
  import opened StringCodec
  import opened NumberCodec
  import opened Grammar
  import opened Memory
  import opened Scanner
  import opened Builder
  import opened Census
  import Syntax
  import Conformance

  class ParseBuffer {
    const content: seq<Byte>
    const length: nat
    var offset: nat
    var depth: nat
    const memory: CHeap

    /** The C string in the buffer. */
    ghost const text: CString

    ghost predicate Valid()
      reads this
    {
      content == text + [NUL] && length == |text| + 1 && offset <= length && depth <= NESTING_LIMIT
    }

    constructor (value: CString, memory: CHeap)
      ensures Valid() && text == value && this.memory == memory && offset == 0 && depth == 0
    {
      content := value + [NUL];
      length := |value| + 1;
      offset, depth := 0, 0;
      this.memory := memory;
      text := value;
    }

    /** Steps over whitespace; the terminator counts as whitespace but is given back. */
    method BufferSkipWhitespace()
      requires Valid() && offset <= |text|
      modifies this`offset
      ensures Valid() && offset == SkipBlanks(text, old(offset))
    {
      if offset >= length {
        return;
      }
      while offset < length && content[offset] <= 32
        invariant Valid() && old(offset) <= offset
        invariant offset <= |text| ==> SkipBlanks(text, offset) == SkipBlanks(text, old(offset))
        invariant offset == length ==> SkipBlanks(text, old(offset)) == |text|
        decreases length - offset
      {
        offset := offset + 1;
      }
      if offset == length {
        offset := offset - 1;
      }
    }

    /** Four hexadecimal digits at `at`; 0 when one of them is none. */
    method ParseHex4(at: nat) returns (h: int)
      requires Valid() && at + 4 <= |text|
      ensures h == Hex4(text, at)
    {
      h := 0;
      for i := 0 to 4
        invariant forall k :: at <= k < at + i ==> IsHex(text[k])
        invariant h == HexSoFar(text, at, i)
      {
        var c := content[at + i];
        if ZERO <= c <= NINE {
          h := h + (c - ZERO);
        } else if UPPER_A <= c <= UPPER_F {
          h := h + (10 + c - UPPER_A);
        } else if LOWER_A <= c <= LOWER_F {
          h := h + (10 + c - LOWER_A);
        } else {
          return 0;
        }
        if i < 3 {
          h := h * 16;
        }
      }
      HexOfFour(text, at);
    }

    /** Stores byte `j` of `e`, the bytes behind it being there already. */
    method PutByte(out: Ptr, i: nat, b: Byte, ghost h0: Heap, ghost size: nat, ghost done: seq<Byte>,
                   ghost e: seq<Byte>, ghost j: nat)
      requires Filling(h0, memory.heap, out, size, done) && |done| <= i < size
      requires j < |e| && b == e[j] && HasTail(memory.heap, out, i + 1, e[j + 1..])
      modifies memory
      ensures Filling(h0, memory.heap, out, size, done) && HasTail(memory.heap, out, i, e[j..])
      ensures memory.refused == old(memory.refused)
    {
      hide Filling, HasTail, Written;
      TailGrows(h0, memory.heap, out, size, done, i, b, e[j + 1..]);
      memory.Store(out, i, b);
      assert e[j..] == [e[j]] + e[j + 1..];
    }

    /** Writes the UTF-8 form of the code point, last byte first. */
    method EncodeAt(cp: int, out: Ptr, k: nat, ghost h0: Heap, ghost size: nat, ghost done: seq<Byte>)
      returns (end: nat)
      requires 0 <= cp <= 0x10_FFFF
      requires Filling(h0, memory.heap, out, size, done) && k == |done| && k + |EncodeUtf8(cp)| <= size
      modifies memory
      ensures Filling(h0, memory.heap, out, size, done + EncodeUtf8(cp)) && end == k + |EncodeUtf8(cp)|
      ensures memory.refused == old(memory.refused)
    {
      hide EncodeUtf8, Filling, Written, Shifted, HasTail;
      ghost var e := EncodeUtf8(cp);
      EncodedBackwards(cp);
      var utf8Length: nat := if cp < 0x80 then 1 else if cp < 0x800 then 2 else if cp < 0x1_0000 then 3 else 4;
      var firstByteMark := if cp < 0x80 then 0 else if cp < 0x800 then 0xC0 else if cp < 0x1_0000 then 0xE0 else 0xF0;
      var codepoint := cp;
      var position := utf8Length - 1;
      ShiftedSteps(cp);
      TailStarts(h0, memory.heap, out, size, done, k + |e|);
      assert utf8Length == |e| && e[|e|..] == [];
      while position > 0
        invariant 0 <= position < utf8Length == |e| && codepoint == Shifted(cp, utf8Length - 1 - position)
        invariant Filling(h0, memory.heap, out, size, done) && memory.refused == old(memory.refused)
        invariant HasTail(memory.heap, out, k + position + 1, e[position + 1..])
      {
        PutByte(out, k + position, 0x80 + codepoint % 64, h0, size, done, e, position);
        codepoint := codepoint / 64;
        position := position - 1;
      }
      PutByte(out, k, firstByteMark + codepoint, h0, size, done, e, 0);
      assert e[0..] == e;
      end := k + utf8Length;
      TailFills(h0, memory.heap, out, size, done, e);
    }

    /** Decodes "\uXXXX", or a pair of them, at `p`; the result is 0 when it cannot be decoded. */
    method Utf16LiteralToUtf8(p: nat, end: nat, out: Ptr, k: nat, ghost h0: Heap, ghost size: nat,
                              ghost done: seq<Byte>)
      returns (sequenceLength: nat, outEnd: nat)
      requires Valid() && p < end <= |text|
      requires Filling(h0, memory.heap, out, size, done) && k == |done|
      requires ReadLiteral(text[p..end]).Some? ==> k + |ReadLiteral(text[p..end]).value.bytes| <= size
      modifies memory
      ensures memory.refused == old(memory.refused)
      ensures match ReadLiteral(text[p..end])
              case None => sequenceLength == 0 && outEnd == k && Filling(h0, memory.heap, out, size, done)
              case Some(l) =>
                && sequenceLength == l.consumed && outEnd == k + |l.bytes|
                && Filling(h0, memory.heap, out, size, done + l.bytes)
    {
      hide Hex4, Filling, EncodeUtf8;
      sequenceLength, outEnd := 0, k;
      if end - p < 6 {
        return;
      }
      UnitsAt(text, p, end);
      var firstCode := ParseHex4(p + 2);
      if 0xDC00 <= firstCode <= 0xDFFF {
        return;
      }
      var codepoint := firstCode;
      var length := 6;
      if 0xD800 <= firstCode <= 0xDBFF {
        if end - (p + 6) < 6 {
          return;
        }
        if content[p + 6] != BACKSLASH || content[p + 7] != LOWER_U {
          return;
        }
        var secondCode := ParseHex4(p + 8);
        if secondCode < 0xDC00 || secondCode > 0xDFFF {
          return;
        }
        codepoint := 0x1_0000 + (firstCode % 0x400) * 0x400 + secondCode % 0x400;
        length := 12;
      }
      assert ReadLiteral(text[p..end]) == Some(Literal(EncodeUtf8(codepoint), length));
      outEnd := EncodeAt(codepoint, out, k, h0, size, done);
      sequenceLength := length;
    }

    /** The first pass of parse_string: where the literal ends, and how many escapes it holds. */
    method FindStringEnd(from: nat) returns (ok: bool, end: nat, skipped: nat)
      requires Valid() && from <= |text|
      ensures ok <==> FindClose(text[from..]).Some?
      ensures ok ==> from <= end < |text| && text[end] == QUOTE
                     && FindClose(text[from..]) == Some(end - from) && skipped == Skips(text[from..end])
    {
      hide FindClose, Skips;
      ok, end, skipped := false, from, 0;
      while end < length && content[end] != QUOTE
        invariant from <= end <= length
        invariant FindClose(text[from..]) == if end <= |text| then Shift(end - from, FindClose(text[end..])) else None
        invariant forall close :: from <= close < |text| && FindClose(text[from..]) == Some(close - from) ==>
                    end <= close && skipped + Skips(text[end..close]) == Skips(text[from..close])
        decreases length - end
      {
        CloseStep(text, Min(end, |text|));
        SkipsSteps(text, end);
        if content[end] == BACKSLASH {
          if end + 1 >= length {
            return;
          }
          skipped := skipped + 1;
          end := end + 1;
        }
        end := end + 1;
      }
      CloseStep(text, Min(end, |text|));
      if end >= length || content[end] != QUOTE {
        return;
      }
      ok := true;
      SkipsOfNone(text, end);
    }

    /** One escape of the second pass, at `input`. */
    method DecodeEscape(input: nat, from: nat, close: nat, out: Ptr, k: nat, ghost h0: Heap, ghost size: nat,
                        ghost done: seq<Byte>)
      returns (ok: bool, next: nat, outEnd: nat, ghost more: seq<Byte>)
      requires Valid() && from <= input < close < |text| && text[input] == BACKSLASH && text[close] == QUOTE
      requires Decoding(text, from, close, input, done)
      requires Filling(h0, memory.heap, out, size, done) && k == |done| && size == Units(text[from..close]) + 2
      modifies memory
      ensures memory.refused == old(memory.refused)
      ensures Filling(h0, memory.heap, out, size, more) && outEnd == |more|
      ensures ok ==> input < next && Decoding(text, from, close, next, more)
      ensures !ok ==> Unescape(text[from..close]) == None
    {
      hide Decoding, Filling, Unescape, ReadLiteral, Units, Written;
      ok, next, outEnd, more := true, input + 2, k, done;
      var letter := content[input + 1];
      assert letter == Letter(text, input, close);
      if letter == LOWER_U {
        DecodeLiteral(text, from, close, input, done);
        var sequenceLength;
        sequenceLength, outEnd := Utf16LiteralToUtf8(input, close, out, k, h0, size, done);
        ok, next := sequenceLength != 0, input + sequenceLength;
        if ok { more := done + ReadLiteral(text[input..close]).value.bytes; }
      } else {
        DecodeShort(text, from, close, input, done);
        var b: Byte;
        if letter == LOWER_B {
          b := BACKSPACE;
        } else if letter == LOWER_F {
          b := FORM_FEED;
        } else if letter == LOWER_N {
          b := NEWLINE;
        } else if letter == LOWER_R {
          b := RETURN;
        } else if letter == LOWER_T {
          b := TAB;
        } else if letter == QUOTE || letter == BACKSLASH || letter == SLASH {
          b := letter;
        } else {
          ok := false;
          return;
        }
        more := done + [b];
        FillingMore(h0, memory.heap, out, size, done, b);
        memory.Store(out, k, b);
        outEnd := k + 1;
      }
    }

    /** The second pass of parse_string, and the terminator. No write leaves the block. */
    method DecodeString(from: nat, close: nat, out: Ptr, ghost h0: Heap, ghost size: nat)
      returns (ok: bool, ghost done: seq<Byte>, input: nat)
      requires Valid() && from <= close < |text| && text[close] == QUOTE
      requires Filling(h0, memory.heap, out, size, []) && size == Units(text[from..close]) + 2
      modifies memory
      ensures memory.refused == old(memory.refused)
      ensures Filling(h0, memory.heap, out, size, done) && from <= input <= close + 1
      ensures ok ==> exists s :: Unescape(text[from..close]) == Some(s) && done == s + [NUL]
      ensures !ok ==> Unescape(text[from..close]) == None
    {
      hide Decoding, Filling, Unescape, Units, Written;
      input, done := from, [];
      var outputPointer: nat := 0;
      DecodingStarts(text, from, close);
      while input < close
        invariant from <= input <= close + 1 && memory.refused == old(memory.refused)
        invariant Filling(h0, memory.heap, out, size, done) && outputPointer == |done|
        invariant Decoding(text, from, close, input, done)
        decreases close - input
      {
        if content[input] != BACKSLASH {
          DecodePlain(text, from, close, input, done);
          FillingMore(h0, memory.heap, out, size, done, content[input]);
          memory.Store(out, outputPointer, content[input]);
          done := done + [text[input]];
          input, outputPointer := input + 1, outputPointer + 1;
        } else {
          var decoded, next;
          decoded, next, outputPointer, done :=
            DecodeEscape(input, from, close, out, outputPointer, h0, size, done);
          if !decoded {
            ok := false;
            return;
          }
          DecodingBound(text, from, close, next, done);
          input := next;
        }
      }
      DecodingEnds(text, from, close, input, done);
      FillingMore(h0, memory.heap, out, size, done, NUL);
      memory.Store(out, outputPointer, NUL);
      done := done + [NUL];
      ok := true;
    }

    /** parse_string: on failure nothing it allocated is left; on success `item` owns the new block. */
    method ParseString(item: Ptr) returns (ok: bool, ghost str: Ptr)
      requires Valid() && offset <= |text| && item in memory.heap.nodes
      modifies this`offset, memory
      ensures Valid() && (old(memory.refused) ==> memory.refused) && (ok ==> memory.refused == old(memory.refused))
      ensures !ok ==> memory.heap == old(memory.heap) && (memory.refused || ReadString(text[old(offset)..]) == None)
      ensures ok ==>
                && ReadString(text[old(offset)..]).Some?
                && var r := ReadString(text[old(offset)..]).value;
                && offset == old(offset) + r.consumed && offset <= |text|
                && GotString(old(memory.heap), memory.heap, item, str, CStr(r.bytes))
    {
      hide FindClose, Unescape, Skips, Filling, ReadString, GotString;
      ok, str := false, NULL;
      ReadStringAt(text, offset);
      var inputPointer := offset + 1;
      if content[offset] != QUOTE {
        offset := inputPointer;
        return;
      }
      var closed, inputEnd, skipped := FindStringEnd(offset + 1);
      if !closed {
        offset := inputPointer;
        return;
      }
      var allocationLength := inputEnd - offset - skipped;
      var output := memory.Allocate(allocationLength + 1);
      if output == NULL {
        offset := inputPointer;
        return;
      }
      ghost var h0 := old(memory.heap);
      FillingStarts(h0, memory.heap, output, allocationLength + 1);
      var decoded;
      ghost var done: seq<Byte>;
      decoded, done, inputPointer := DecodeString(offset + 1, inputEnd, output, h0, allocationLength + 1);
      if !decoded {
        FreedAgain(h0, memory.heap, output, allocationLength + 1, done);
        memory.FreeBlock(output);
        offset := inputPointer;
        return;
      }
      StringIsThere(h0, memory.heap, item, output, allocationLength + 1, done);
      memory.SetNode(item, memory.heap.nodes[item].(kind := KString, valuestring := output));
      offset := inputEnd + 1;
      ok, str := true, output;
    }

    /** parse_number: copies at most 63 characters and lets strtod decide how many of them are the number. */
    method ParseNumber(item: Ptr) returns (ok: bool)
      requires Valid() && offset <= |text| && item in memory.heap.nodes
      modifies this`offset, memory
      ensures Valid() && memory.refused == old(memory.refused)
      ensures ok <==> ReadNumber(text[old(offset)..]).Some?
      ensures !ok ==> memory.heap == old(memory.heap)
      ensures ok ==>
                var r := ReadNumber(text[old(offset)..]).value;
                && offset == old(offset) + r.consumed && offset <= |text|
                && memory.heap == old(memory.heap).(nodes := old(memory.heap).nodes[
                     item := old(memory.heap).nodes[item].(kind := KNumber, valuedouble := r.value)])
    {
      hide StrtodLength, NumberOf;
      var i: nat := 0;
      var token: CString := [];
      while i < NUMBER_LIMIT && offset + i < length && IsNumberByte(content[offset + i])
        invariant i <= NUMBER_LIMIT && offset + i <= |text| && token == text[offset..offset + i]
        invariant NumberRun(text[offset..], NUMBER_LIMIT) == i + NumberRun(text[offset + i..], NUMBER_LIMIT - i)
        decreases NUMBER_LIMIT - i
      {
        assert text[offset + i..][1..] == text[offset + i + 1..];
        token := token + [content[offset + i]];
        i := i + 1;
      }
      assert token == text[offset..][..NumberRun(text[offset..], NUMBER_LIMIT)];
      var used := StrtodLength(token);
      if used == 0 {
        return false;
      }
      memory.SetNode(item, memory.heap.nodes[item].(kind := KNumber, valuedouble := NumberOf(token[..used])));
      offset := offset + used;
      ok := true;
    }

    /** One round of the loop of parse_array: a new node behind `current`, and the value parsed into it. */
    method ParseElement(current: Ptr, ghost h0: Heap, ghost ts: seq<Tree>, ghost items: seq<Json>)
      returns (ok: bool, newItem: Ptr, ghost ts1: seq<Tree>, ghost v: Json)
      requires Valid() && offset < |text|
      requires Building(h0, memory.heap, ts) && current == Last(ts) && ItemsBuilt(memory.heap, ts, items)
      modifies this`offset, this`depth, memory
      ensures Valid() && (old(memory.refused) ==> memory.refused) && (ok ==> memory.refused == old(memory.refused))
      ensures Building(h0, memory.heap, ts1) && First(ts1) == (if ts == [] then newItem else First(ts))
      ensures !ok ==> memory.refused || ReadElement(text, old(offset) + 1, old(depth)) == None
      ensures ok ==>
                && depth == old(depth) && newItem == Last(ts1) && newItem != NULL && old(offset) < offset <= |text|
                && ReadElement(text, old(offset) + 1, depth) == Some(ReadTree(v, offset))
                && ItemsBuilt(memory.heap, ts1, items + [v])
      decreases |text| - offset, 0
    {
      hide ReadElement, Building, ItemsBuilt, Attached, Blank, StillDenote;
      ok, newItem, ts1, v := false, NULL, ts, Null;
      newItem := AttachNewItem(current, h0, ts);
      if newItem == NULL {
        return;
      }
      ts1 := ts + [Leaf(newItem, NULL)];
      ghost var h1 := memory.heap;
      assert ItemsBuilt(h1, ts, items) by { ItemsStill(old(memory.heap), h1, ts, items); }
      offset := offset + 1;
      ghost var t;
      ok, t, v := FillElement(newItem, h0, ts, items);
      ts1 := ts + [t];
    }

    /** The value of an element, into the node just attached for it. */
    method FillElement(newItem: Ptr, ghost h0: Heap, ghost ts: seq<Tree>, ghost items: seq<Json>)
      returns (ok: bool, ghost t: Tree, ghost v: Json)
      requires Valid() && offset <= |text|
      requires Building(h0, memory.heap, ts + [Leaf(newItem, NULL)]) && Blank(memory.heap, newItem)
      requires newItem in memory.heap.nodes && memory.heap.nodes[newItem].name == NULL
      requires ItemsBuilt(memory.heap, ts, items)
      modifies this`offset, this`depth, memory
      ensures Valid() && (old(memory.refused) ==> memory.refused) && (ok ==> memory.refused == old(memory.refused))
      ensures Building(h0, memory.heap, ts + [t]) && t.ptr == newItem
      ensures !ok ==> memory.refused || ReadElement(text, old(offset), old(depth)) == None
      ensures ok ==>
                && depth == old(depth) && old(offset) < offset <= |text|
                && ReadElement(text, old(offset), depth) == Some(ReadTree(v, offset))
                && ItemsBuilt(memory.heap, ts + [t], items + [v])
      decreases |text| - offset, 4
    {
      hide ReadValue, Denotes, Building, ItemsBuilt, Filled, Blank, StillDenote, BareKids;
      ghost var h1 := memory.heap;
      t, v := Leaf(newItem, NULL), Null;
      BufferSkipWhitespace();
      ghost var start := offset;
      ghost var str, kids;
      ok, str, kids := ParseValue(newItem);
      if !ok {
        return;
      }
      v := ReadValue(text, start, old(depth)).value.value;
      t := Tree(newItem, str, NULL, kids);
      BuildingFilled(h0, h1, memory.heap, ts, newItem, NULL, str, kids, v);
      ItemsMore(h1, memory.heap, ts, items, t, v);
      BufferSkipWhitespace();
    }

    /** cJSON_New_Item, and the new node chained behind the current one. */
    method AttachNewItem(current: Ptr, ghost h0: Heap, ghost ts: seq<Tree>) returns (newItem: Ptr)
      requires Building(h0, memory.heap, ts) && current == Last(ts)
      modifies memory
      ensures old(memory.refused) ==> memory.refused
      ensures newItem == NULL ==> memory.heap == old(memory.heap) && memory.refused
      ensures newItem != NULL ==>
                && memory.refused == old(memory.refused)
                && Building(h0, memory.heap, ts + [Leaf(newItem, NULL)]) && Blank(memory.heap, newItem)
                && newItem in memory.heap.nodes && memory.heap.nodes[newItem].name == NULL
                && memory.heap.blocks == old(memory.heap).blocks
                && StillDenote(old(memory.heap), memory.heap, ts)
    {
      hide Denotes, Owns, OwnsList, ApartAll, Grown, ChainedBack;
      ghost var h := memory.heap;
      KidsPresent(h, ts);
      newItem := memory.NewItem();
      if newItem == NULL {
        return;
      }
      if current != NULL {
        memory.SetNode(current, memory.heap.nodes[current].(next := newItem));
        memory.SetNode(newItem, memory.heap.nodes[newItem].(prev := current));
      }
      assert memory.heap == Attached(h, Last(ts), newItem);
      BuildingGrows(h0, h, ts, newItem);
      forall i | 0 <= i < |ts|
        ensures forall j :: Denotes(h, ts[i], j) ==> Denotes(memory.heap, ts[i], j)
      {
        TreeAfterAttach(h, ts, newItem, i);
      }
    }

    /** parse_value */
    method ParseValue(item: Ptr) returns (ok: bool, ghost str: Ptr, ghost kids: seq<Tree>)
      requires Valid() && offset <= |text| && Blank(memory.heap, item)
      modifies this`offset, this`depth, memory
      ensures Valid() && (old(memory.refused) ==> memory.refused) && (ok ==> memory.refused == old(memory.refused))
      ensures !ok ==> memory.heap == old(memory.heap)
      ensures !ok ==> memory.refused || ReadValue(text, old(offset), old(depth)) == None
      ensures ok ==>
                && ReadValue(text, old(offset), old(depth)).Some?
                && var r := ReadValue(text, old(offset), old(depth)).value;
                && depth == old(depth) && offset == r.next && offset <= |text|
                && Filled(old(memory.heap), memory.heap, item, str, kids, r.value)
      decreases |text| - offset, 3
    {
      hide ReadString, ReadNumber, ReadArray, ReadObject, Filled, Denotes, Owns;
      ok, str, kids := true, NULL, [];
      WordAt(text, offset, NULL_TEXT);
      WordAt(text, offset, FALSE_TEXT);
      WordAt(text, offset, TRUE_TEXT);
      if offset + 4 <= length && content[offset..offset + 4] == NULL_TEXT {
        SetKind(item, KNull, Null);
        offset := offset + 4;
      } else if offset + 5 <= length && content[offset..offset + 5] == FALSE_TEXT {
        SetKind(item, KFalse, Bool(false));
        offset := offset + 5;
      } else if offset + 4 <= length && content[offset..offset + 4] == TRUE_TEXT {
        SetKind(item, KTrue, Bool(true));
        offset := offset + 4;
      } else if offset < length && content[offset] == QUOTE {
        ok, str := ParseStringValue(item);
      } else if offset < length && (content[offset] == MINUS || ZERO <= content[offset] <= NINE) {
        ok := ParseNumberValue(item);
      } else if offset < length && content[offset] == LBRACKET {
        ok, kids := ParseArray(item);
      } else if offset < length && content[offset] == LBRACE {
        ok, kids := ParseObject(item);
      } else {
        ok := false;
      }
    }

    method SetKind(item: Ptr, kind: Kind, ghost j: Json)
      requires Blank(memory.heap, item)
      requires (kind == KNull && j == Null) || (kind == KFalse && j == Bool(false)) || (kind == KTrue && j == Bool(true))
      modifies memory
      ensures Filled(old(memory.heap), memory.heap, item, NULL, [], j) && memory.refused == old(memory.refused)
    {
      hide Filled;
      FilledScalar(memory.heap, item, memory.heap.nodes[item].(kind := kind), j);
      memory.SetNode(item, memory.heap.nodes[item].(kind := kind));
    }

    method ParseStringValue(item: Ptr) returns (ok: bool, ghost str: Ptr)
      requires Valid() && offset <= |text| && Blank(memory.heap, item)
      modifies this`offset, memory
      ensures Valid() && (old(memory.refused) ==> memory.refused) && (ok ==> memory.refused == old(memory.refused))
      ensures !ok ==> memory.heap == old(memory.heap) && (memory.refused || ReadString(text[old(offset)..]) == None)
      ensures ok ==>
                && ReadString(text[old(offset)..]).Some?
                && var r := ReadString(text[old(offset)..]).value;
                && offset == old(offset) + r.consumed && offset <= |text|
                && Filled(old(memory.heap), memory.heap, item, str, [], Str(CStr(r.bytes)))
    {
      hide ReadString, Filled, GotString;
      ok, str := ParseString(item);
      if ok {
        FilledString(old(memory.heap), memory.heap, item, str, CStr(ReadString(text[old(offset)..]).value.bytes));
      }
    }

    method ParseNumberValue(item: Ptr) returns (ok: bool)
      requires Valid() && offset <= |text| && Blank(memory.heap, item)
      modifies this`offset, memory
      ensures Valid() && memory.refused == old(memory.refused)
      ensures !ok ==> memory.heap == old(memory.heap)
      ensures ok <==> ReadNumber(text[old(offset)..]).Some?
      ensures ok ==>
                var r := ReadNumber(text[old(offset)..]).value;
                && offset == old(offset) + r.consumed && offset <= |text|
                && Filled(old(memory.heap), memory.heap, item, NULL, [], r.value)
    {
      hide StrtodLength, NumberOf, NumberRun, Filled;
      ok := ParseNumber(item);
      if ok {
        FilledScalar(old(memory.heap), item, memory.heap.nodes[item], ReadNumber(text[old(offset)..]).value.value);
      }
    }

    /** parse_array */
    method ParseArray(item: Ptr) returns (ok: bool, ghost kids: seq<Tree>)
      requires Valid() && At(text, offset, LBRACKET) && Blank(memory.heap, item)
      modifies this`offset, this`depth, memory
      ensures Valid() && (old(memory.refused) ==> memory.refused) && (ok ==> memory.refused == old(memory.refused))
      ensures !ok ==> memory.heap == old(memory.heap)
      ensures !ok ==> memory.refused || ReadArray(text, old(offset), old(depth)) == None
      ensures ok ==>
                && ReadArray(text, old(offset), old(depth)).Some?
                && var r := ReadArray(text, old(offset), old(depth)).value;
                && depth == old(depth) && offset == r.next && offset <= |text|
                && Filled(old(memory.heap), memory.heap, item, NULL, kids, r.value)
      decreases |text| - offset, 2
    {
      hide ReadElements, ItemsBuilt, Building, Filled, Blank;
      ok, kids := false, [];
      if depth >= NESTING_LIMIT {
        return;
      }
      depth := depth + 1;
      offset := offset + 1;
      BufferSkipWhitespace();
      ghost var h0 := memory.heap;
      ghost var items: seq<Json> := [];
      ghost var d := depth;
      var head, current: Ptr := NULL, NULL;
      NothingBuilt(h0);
      if content[offset] != RBRACKET {
        offset := offset - 1;
        ok, head, current, kids, items := ParseElements(h0);
        if !ok {
          if head != NULL {
            DeletedList(h0, memory.heap, kids);
            memory.Delete(head, kids);
          } else {
            NoneBuilt(h0, memory.heap, kids);
          }
          return;
        }
      }
      depth := depth - 1;
      ContainerFilled(h0, memory.heap, kids, item, KArray, Arr(items));
      Finish(head, current, item, KArray);
      offset := offset + 1;
      ok := true;
    }

    /** The common end of parse_array and parse_object. */
    method Finish(head: Ptr, current: Ptr, item: Ptr, kind: Kind)
      requires item in memory.heap.nodes && (head != NULL ==> head in memory.heap.nodes)
      modifies memory
      ensures memory.heap == Finished(old(memory.heap), head, current, item, kind)
      ensures memory.refused == old(memory.refused)
    {
      if head != NULL {
        memory.SetNode(head, memory.heap.nodes[head].(prev := current));
      }
      memory.SetNode(item, memory.heap.nodes[item].(kind := kind, child := head));
    }

    /** The loop of parse_array, and the check for the closing bracket. */
    method ParseElements(ghost h0: Heap)
      returns (ok: bool, head: Ptr, current: Ptr, ghost ts: seq<Tree>, ghost items: seq<Json>)
      requires Valid() && offset < |text| && memory.heap == h0
      modifies this`offset, this`depth, memory
      ensures Valid() && (old(memory.refused) ==> memory.refused) && (ok ==> memory.refused == old(memory.refused))
      ensures Building(h0, memory.heap, ts) && head == First(ts) && (ok ==> current == Last(ts))
      ensures !ok ==> memory.refused || ReadElements(text, old(offset) + 1, old(depth)) == None
      ensures ok ==>
                && depth == old(depth) && offset < |text|
                && ReadElements(text, old(offset) + 1, depth) == Some(ReadItems(items, offset + 1))
                && ItemsBuilt(memory.heap, ts, items)
      decreases |text| - offset, 1
    {
      hide ReadElement, ReadElements, Building, ItemsBuilt;
      NothingBuilt(h0);
      head, current, ts, items := NULL, NULL, [], [];
      PrependNothing(ReadElements(text, offset + 1, depth), None);
      var more := true;
      while more
        invariant Valid() && memory.refused == old(memory.refused) && depth == old(depth)
        invariant old(offset) <= offset && (more ==> offset < |text|) && offset <= |text|
        invariant Building(h0, memory.heap, ts) && head == First(ts) && current == Last(ts)
        invariant head == NULL ==> ts == []
        invariant ItemsBuilt(memory.heap, ts, items)
        invariant ReadElements(text, old(offset) + 1, depth) ==
                  if more then PrependItems(items, ReadElements(text, offset + 1, depth))
                  else if At(text, offset, RBRACKET) then Some(ReadItems(items, offset + 1)) else None
        decreases |text| - offset, more
      {
        ghost var v;
        var newItem;
        ghost var from := offset;
        ok, newItem, ts, v := ParseElement(current, h0, ts, items);
        if head == NULL {
          head := newItem;
        }
        if !ok {
          ElementMissing(text, from + 1, old(depth), items);
          return;
        }
        current := newItem;
        ElementRead(text, from + 1, depth, items, v, offset);
        items := items + [v];
        more := offset < length && content[offset] == COMMA;
      }
      ok := offset < length && content[offset] == RBRACKET;
    }

    /** One round of the loop of parse_object: a new node, its name, a colon, and its value. */
    method ParseEntry(current: Ptr, ghost h0: Heap, ghost ts: seq<Tree>, ghost members: seq<Member>)
      returns (ok: bool, newItem: Ptr, ghost ts1: seq<Tree>, ghost m: Member)
      requires Valid() && offset < |text|
      requires Building(h0, memory.heap, ts) && current == Last(ts) && MembersBuilt(memory.heap, ts, members)
      modifies this`offset, this`depth, memory
      ensures Valid() && (old(memory.refused) ==> memory.refused) && (ok ==> memory.refused == old(memory.refused))
      ensures Building(h0, memory.heap, ts1) && First(ts1) == (if ts == [] then newItem else First(ts))
      ensures !ok ==> memory.refused || ReadEntry(text, old(offset) + 1, old(depth)) == None
      ensures ok ==>
                && depth == old(depth) && newItem == Last(ts1) && newItem != NULL && old(offset) < offset <= |text|
                && ReadEntry(text, old(offset) + 1, depth) == Some(ReadPair(m, offset))
                && MembersBuilt(memory.heap, ts1, members + [m])
      decreases |text| - offset, 0
    {
      hide ReadKey, ReadValue, Denotes, Building, MembersBuilt, Filled, Attached, Blank, HoldsString, StillDenote;
      ok, newItem, ts1, m := false, NULL, ts, Member([], Null);
      ghost var h := memory.heap;
      newItem := AttachNewItem(current, h0, ts);
      if newItem == NULL {
        return;
      }
      ts1 := ts + [Leaf(newItem, NULL)];
      ghost var h1 := memory.heap;
      MembersStill(h, h1, ts, members);
      offset := offset + 1;
      ghost var key, s;
      ok, key, s := ParseKey(newItem, h0, ts, members);
      ts1 := ts + [Leaf(newItem, key)];
      if !ok {
        return;
      }
      ghost var h2 := memory.heap;
      ghost var start := offset;
      ghost var str, kids;
      ok, str, kids := ParseValue(newItem);
      if !ok {
        return;
      }
      m := Member(s, ReadValue(text, start, old(depth)).value.value);
      BuildingFilled(h0, h2, memory.heap, ts, newItem, key, str, kids, m.value);
      ts1 := ts + [Tree(newItem, str, key, kids)];
      FillKeepsBlocks(h2, memory.heap, newItem, str, kids, m.value, key, s);
      MembersMore(h2, memory.heap, ts, members, Tree(newItem, str, key, kids), m);
      BufferSkipWhitespace();
    }

    /** The name of a member and the colon: the string just read becomes `string` instead of `valuestring`. */
    method ParseKey(item: Ptr, ghost h0: Heap, ghost ts: seq<Tree>, ghost members: seq<Member>)
      returns (ok: bool, ghost key: Ptr, ghost s: CString)
      requires Valid() && offset <= |text|
      requires Building(h0, memory.heap, ts + [Leaf(item, NULL)]) && Blank(memory.heap, item)
      requires item in memory.heap.nodes && memory.heap.nodes[item].name == NULL
      requires MembersBuilt(memory.heap, ts, members)
      modifies this`offset, memory
      ensures Valid() && (old(memory.refused) ==> memory.refused) && (ok ==> memory.refused == old(memory.refused))
      ensures Building(h0, memory.heap, ts + [Leaf(item, key)])
      ensures !ok ==> memory.refused || ReadKey(text, old(offset)) == None
      ensures ok ==>
                && ReadKey(text, old(offset)).Some?
                && var r := ReadKey(text, old(offset)).value;
                && offset == r.next && old(offset) < offset <= |text| && s == CStr(r.bytes)
                && Blank(memory.heap, item) && item in memory.heap.nodes && memory.heap.nodes[item].name == key
                && HoldsString(memory.heap, key, s) && MembersBuilt(memory.heap, ts, members)
      decreases |text| - offset
    {
      hide ReadString, Building, MembersBuilt, Blank, HoldsString;
      BufferSkipWhitespace();
      var read;
      read, key, s := ParseName(item, h0, ts, members);
      ok := false;
      if !read {
        return;
      }
      if offset >= length || content[offset] != COLON {
        return;
      }
      offset := offset + 1;
      BufferSkipWhitespace();
      ok := true;
    }

    method ParseName(item: Ptr, ghost h0: Heap, ghost ts: seq<Tree>, ghost members: seq<Member>)
      returns (ok: bool, ghost key: Ptr, ghost s: CString)
      requires Valid() && offset <= |text|
      requires Building(h0, memory.heap, ts + [Leaf(item, NULL)]) && Blank(memory.heap, item)
      requires item in memory.heap.nodes && memory.heap.nodes[item].name == NULL
      requires MembersBuilt(memory.heap, ts, members)
      modifies this`offset, memory
      ensures Valid() && (old(memory.refused) ==> memory.refused) && (ok ==> memory.refused == old(memory.refused))
      ensures Building(h0, memory.heap, ts + [Leaf(item, key)])
      ensures !ok ==> memory.refused || ReadString(text[old(offset)..]) == None
      ensures ok ==>
                && ReadString(text[old(offset)..]).Some?
                && var r := ReadString(text[old(offset)..]).value;
                && old(offset) + r.consumed <= |text|
                && offset == SkipBlanks(text, old(offset) + r.consumed) && s == CStr(r.bytes)
                && Blank(memory.heap, item) && item in memory.heap.nodes && memory.heap.nodes[item].name == key
                && HoldsString(memory.heap, key, s) && MembersBuilt(memory.heap, ts, members)
    {
      hide ReadString, Denotes, Building, MembersBuilt, Blank, GotString, HoldsString, Renamed, BlocksKept, StillDenote;
      ghost var h, start := memory.heap, offset;
      ok, key := ParseString(item);
      s := [];
      if !ok {
        key := NULL;
        return;
      }
      s := CStr(ReadString(text[start..]).value.bytes);
      ghost var hs := memory.heap;
      BuildingNamed(h0, h, hs, ts, item, key, s);
      BufferSkipWhitespace();
      StringInItem(h, hs, item, key, s);
      var node := memory.heap.nodes[item];
      memory.SetNode(item, node.(name := node.valuestring, valuestring := NULL));
      assert memory.heap == Renamed(hs, item, key);
      MembersStill(h, memory.heap, ts, members);
    }

    /** parse_object */
    method ParseObject(item: Ptr) returns (ok: bool, ghost kids: seq<Tree>)
      requires Valid() && At(text, offset, LBRACE) && Blank(memory.heap, item)
      modifies this`offset, this`depth, memory
      ensures Valid() && (old(memory.refused) ==> memory.refused) && (ok ==> memory.refused == old(memory.refused))
      ensures !ok ==> memory.heap == old(memory.heap)
      ensures !ok ==> memory.refused || ReadObject(text, old(offset), old(depth)) == None
      ensures ok ==>
                && ReadObject(text, old(offset), old(depth)).Some?
                && var r := ReadObject(text, old(offset), old(depth)).value;
                && depth == old(depth) && offset == r.next && offset <= |text|
                && Filled(old(memory.heap), memory.heap, item, NULL, kids, r.value)
      decreases |text| - offset, 2
    {
      hide ReadEntries, MembersBuilt, Building, Filled, Blank;
      ok, kids := false, [];
      if depth >= NESTING_LIMIT {
        return;
      }
      depth := depth + 1;
      offset := offset + 1;
      BufferSkipWhitespace();
      ghost var h0 := memory.heap;
      ghost var members: seq<Member> := [];
      var head, current: Ptr := NULL, NULL;
      NothingBuilt(h0);
      if content[offset] != RBRACE {
        offset := offset - 1;
        ok, head, current, kids, members := ParseEntries(h0);
        if !ok {
          if head != NULL {
            DeletedList(h0, memory.heap, kids);
            memory.Delete(head, kids);
          } else {
            NoneBuilt(h0, memory.heap, kids);
          }
          return;
        }
      }
      depth := depth - 1;
      ContainerFilled(h0, memory.heap, kids, item, KObject, Obj(members));
      Finish(head, current, item, KObject);
      offset := offset + 1;
      ok := true;
    }

    /** The loop of parse_object, and the check for the closing brace. */
    method ParseEntries(ghost h0: Heap)
      returns (ok: bool, head: Ptr, current: Ptr, ghost ts: seq<Tree>, ghost members: seq<Member>)
      requires Valid() && offset < |text| && memory.heap == h0
      modifies this`offset, this`depth, memory
      ensures Valid() && (old(memory.refused) ==> memory.refused) && (ok ==> memory.refused == old(memory.refused))
      ensures Building(h0, memory.heap, ts) && head == First(ts) && (ok ==> current == Last(ts))
      ensures !ok ==> memory.refused || ReadEntries(text, old(offset) + 1, old(depth)) == None
      ensures ok ==>
                && depth == old(depth) && offset < |text|
                && ReadEntries(text, old(offset) + 1, depth) == Some(ReadMembers(members, offset + 1))
                && MembersBuilt(memory.heap, ts, members)
      decreases |text| - offset, 1
    {
      hide ReadEntry, ReadEntries, Building, MembersBuilt;
      NothingBuilt(h0);
      head, current, ts, members := NULL, NULL, [], [];
      PrependNothing(None, ReadEntries(text, offset + 1, depth));
      var more := true;
      while more
        invariant Valid() && memory.refused == old(memory.refused) && depth == old(depth)
        invariant old(offset) <= offset && (more ==> offset < |text|) && offset <= |text|
        invariant Building(h0, memory.heap, ts) && head == First(ts) && current == Last(ts)
        invariant head == NULL ==> ts == []
        invariant MembersBuilt(memory.heap, ts, members)
        invariant ReadEntries(text, old(offset) + 1, depth) ==
                  if more then PrependMembers(members, ReadEntries(text, offset + 1, depth))
                  else if At(text, offset, RBRACE) then Some(ReadMembers(members, offset + 1)) else None
        decreases |text| - offset, more
      {
        ghost var m;
        var newItem;
        ghost var from := offset;
        ok, newItem, ts, m := ParseEntry(current, h0, ts, members);
        if head == NULL {
          head := newItem;
        }
        if !ok {
          EntryMissing(text, from + 1, old(depth), members);
          return;
        }
        current := newItem;
        EntryRead(text, from + 1, depth, members, m, offset);
        members := members + [m];
        more := offset < length && content[offset] == COMMA;
      }
      ok := offset < length && content[offset] == RBRACE;
    }

    /** skip_utf8_bom */
    method SkipUtf8Bom()
      requires Valid() && offset == 0
      modifies this`offset
      ensures Valid() && offset == MarkLength(text)
    {
      ghost var head := content[..Min(3, length)];
      assert |head| == 3 ==> head[0] == content[0] && head[1] == content[1] && head[2] == content[2];
      if offset + 4 < length && content[offset..offset + 3] == [0xEF, 0xBB, 0xBF] {
        offset := offset + 3;
      }
    }
  }

  /** The finished tree under its root, and what it took from the heap. */
  lemma {:induction false} RootParsed(h0: Heap, h1: Heap, h: Heap, t: Tree, v: Json)
    requires t.ptr != NULL && t.ptr !in h0.nodes && h1 == h0.(nodes := h0.nodes[t.ptr := ZERO_NODE])
    requires t.name == NULL && Filled(h1, h, t.ptr, t.str, t.kids, v)
    ensures Grown(h0, h, NodesOf(t), BlocksOf(t)) && OwnsList(h, [t]) && ApartAll([t])
    ensures Denotes(h, t, v) && BareKids(t.kids, v) && Legible(h, t)
    ensures |h.nodes| == |h0.nodes| + NodeCount(v) && |h.blocks| == |h0.blocks| + StringCount(v)
    ensures Without(h, NodesOfAll([t]), BlocksOfAll([t])) == h0
  {
    hide Denotes, Owns, OwnsList, ApartAll, Grown, Filled, BareKids, NodeCount, StringCount, Legible;
    RootFilled(h0, h1, h, t.ptr, t.str, t.kids, v);
    AllocationsOfATree(h0, h, t, v);
    BareIsLegible(h, t, v);
  }

  /** What the answer says about the text, in terms of the syntax. */
  lemma {:induction false} AnswerMeetsTheSyntax(value: CString, requireEnd: bool)
    ensures requireEnd && ReadText(value, true) == None ==>
              forall j :: !(Syntax.IsTextOf(value, j) && Nesting(j) <= 1000)
    ensures !requireEnd && ReadText(value, false) == None ==>
              forall e: nat, j :: !(Syntax.StartsWith(value, e, j) && Nesting(j) <= 1000)
    ensures ReadText(value, requireEnd).Some? ==>
              var r := ReadText(value, requireEnd).value;
              && Nesting(r.value) <= 1000
              && if requireEnd then Syntax.IsTextOf(value, r.value) else Syntax.StartsWith(value, r.next, r.value)
  {
    hide Syntax.IsTextOf, Syntax.StartsWith, ReadValue;
    if !requireEnd {
      Conformance.RefusedStarts(value);
      if ReadText(value, false).Some? { Conformance.ReadIsStart(value); }
    } else if ReadText(value, true).Some? {
      Conformance.ParserMeetsTheSyntax(value, ReadText(value, true).value.value);
    } else {
      Conformance.RefusedTexts(value);
    }
  }

  /**
   * cJSON_ParseWithLengthOpts on a C string. NULL leaves the heap as it was: what was allocated on the way was
   * freed again, each node and block once. Otherwise no allocation was refused, and the heap gained one node for
   * every value and one block for every string and every name of the tree.
   */
  method ParseWithOpts(memory: CHeap, value: CString, requireNullTerminated: bool)
    returns (item: Ptr, parseEnd: nat, ghost t: Tree)
    modifies memory
    ensures item == NULL ==> memory.heap == old(memory.heap)
    ensures item == NULL ==> memory.refused || ReadText(value, requireNullTerminated) == None
    ensures item == NULL && !memory.refused && requireNullTerminated ==>
              forall j :: !(Syntax.IsTextOf(value, j) && Nesting(j) <= 1000)
    ensures item == NULL && !memory.refused && !requireNullTerminated ==>
              forall e: nat, j :: !(Syntax.StartsWith(value, e, j) && Nesting(j) <= 1000)
    ensures item != NULL ==>
              && ReadText(value, requireNullTerminated).Some? && !memory.refused
              && var r := ReadText(value, requireNullTerminated).value;
              && parseEnd == r.next && t.ptr == item && t.name == NULL
              && Grown(old(memory.heap), memory.heap, NodesOf(t), BlocksOf(t))
              && OwnsList(memory.heap, [t]) && ApartAll([t])
              && Denotes(memory.heap, t, r.value) && BareKids(t.kids, r.value) && Legible(memory.heap, t)
              && |memory.heap.nodes| == |old(memory.heap).nodes| + NodeCount(r.value)
              && |memory.heap.blocks| == |old(memory.heap).blocks| + StringCount(r.value)
    ensures item != NULL ==>
              var r := ReadText(value, requireNullTerminated).value;
              && Nesting(r.value) <= 1000
              && if requireNullTerminated then Syntax.IsTextOf(value, r.value) else Syntax.StartsWith(value, parseEnd, r.value)
  {
    hide Syntax.IsTextOf, Syntax.StartsWith;
    AnswerMeetsTheSyntax(value, requireNullTerminated);
    hide ReadValue, Denotes, OwnsList, ApartAll, Grown, Filled, Blank, BareKids, NodeCount, StringCount, Legible;
    hide SkipBlanks, MarkLength, NodesOf, NodesOfAll, BlocksOf, BlocksOfAll, Without;
    memory.refused := false;
    t := Leaf(NULL, NULL);
    parseEnd := 0;
    ghost var h0 := memory.heap;
    var buffer := new ParseBuffer(value, memory);
    item := memory.NewItem();
    if item == NULL {
      return;
    }
    ghost var h1 := memory.heap;
    NewRoot(h0, h1, item);
    buffer.SkipUtf8Bom();
    buffer.BufferSkipWhitespace();
    var ok;
    ghost var str, kids;
    ok, str, kids := buffer.ParseValue(item);
    if !ok {
      RootOnly(h0, h1, item);
      memory.Delete(item, [Leaf(item, NULL)]);
      item := NULL;
      return;
    }
    ghost var v := ReadValue(value, SkipBlanks(value, MarkLength(value)), 0).value.value;
    t := Tree(item, str, NULL, kids);
    RootParsed(h0, h1, memory.heap, t, v);
    parseEnd := buffer.offset;
    if requireNullTerminated {
      buffer.BufferSkipWhitespace();
      if buffer.offset >= buffer.length || buffer.content[buffer.offset] != NUL {
        memory.Delete(item, [t]);
        item := NULL;
        return;
      }
      parseEnd := buffer.offset;
    }
  }
}
