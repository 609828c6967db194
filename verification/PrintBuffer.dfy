/** The printer: cJSON nodes rendered into a growing or a fixed buffer, against the text of the tree. */
module PrintBuffer {
  import opened Bytes
  import opened JsonTree
  import opened StringCodec
  import opened NumberCodec
  import opened Layout
  import opened PrettyText
  import opened Memory
  import opened Reading

  const INT_MAX: nat := 0x7FFF_FFFF

  class PrintBuffer {
    var buffer: array?<Byte>
    var length: nat
    var offset: nat
    var depth: nat
    const noalloc: bool
    const format: bool
    /** hooks.reallocate is set */
    const canReallocate: bool
    /** Some allocation was refused. */
    ghost var refused: bool

    constructor (block: array<Byte>, length: nat, noalloc: bool, format: bool, canReallocate: bool)
      requires length <= block.Length && length <= INT_MAX && (noalloc || length > 0)
      ensures buffer == block && this.length == length && offset == 0 && depth == 0
      ensures this.noalloc == noalloc && this.format == format && !refused
      ensures Ready([])
    {
      buffer, this.length, offset, depth := block, length, 0, 0;
      this.noalloc, this.format, this.canReallocate := noalloc, format, canReallocate;
      refused := false;
    }

    /** The buffer begins with these bytes. */
    ghost predicate Starts(s: seq<Byte>)
      reads this`buffer, this`length, buffer
    {
      buffer != null && |s| <= length <= buffer.Length && buffer[..|s|] == s
    }

    /** The buffer holds these bytes and a terminator. */
    ghost predicate Shows(s: seq<Byte>)
      reads this`buffer, this`length, buffer
    {
      Starts(s) && |s| < length && buffer[|s|] == NUL
    }

    /** Everything before the offset is `done`; a buffer that may grow always has a byte left. */
    ghost predicate Ready(done: seq<Byte>)
      reads this`buffer, this`length, this`offset, buffer
    {
      Starts(done) && offset == |done| && length <= INT_MAX && (noalloc || offset < length)
    }

    /** How long the buffer may get. */
    ghost function Cap(): nat
      reads this`length
    {
      if noalloc then length else INT_MAX
    }

    /** Room for `needed` more bytes and one, moving the text to a bigger block where that is allowed. */
    method Ensure(needed: nat, ghost done: seq<Byte>) returns (ok: bool)
      requires Ready(done)
      modifies this`buffer, this`length, this`refused
      ensures buffer == null || buffer == old(buffer) || fresh(buffer)
      ensures ok ==> Ready(done) && offset + needed + 1 <= length && refused == old(refused)
      ensures !ok ==> refused || |done| + needed + 1 > Cap()
      ensures noalloc ==> buffer == old(buffer) && length == old(length) && refused == old(refused)
      ensures old(refused) ==> refused
    {
      if length > 0 && offset >= length {
        return false;
      }
      if needed > INT_MAX {
        return false;
      }
      var total := needed + offset + 1;
      if total <= length {
        return true;
      }
      if noalloc {
        return false;
      }
      var newsize := total * 2;
      if total > INT_MAX / 2 {
        if total <= INT_MAX {
          newsize := INT_MAX;
        } else {
          return false;
        }
      }
      var refuse: bool := *;
      if refuse {
        buffer, length, refused := null, 0, true;
        return false;
      }
      var newbuffer := new Byte[newsize];
      var kept := if canReallocate then length else offset + 1;
      forall i | 0 <= i < kept {
        newbuffer[i] := buffer[i];
      }
      assert newbuffer[..offset] == done;
      buffer, length := newbuffer, newsize;
      ok := true;
    }

    /** update_offset: to the terminator of what was written at the offset. */
    method UpdateOffset(ghost done: seq<Byte>, ghost s: CString)
      requires Shows(done + s) && |done| <= offset <= |done + s| && length <= INT_MAX
      modifies this`offset
      ensures Ready(done + s) && Shows(done + s)
    {
      assert forall i :: |done| <= i < |done + s| ==> buffer[i] == (done + s)[i] == s[i - |done|];
      while buffer[offset] != NUL
        invariant |done| <= offset <= |done + s|
        decreases |done + s| - offset
      {
        offset := offset + 1;
      }
    }

    /** Stores bytes one after the other behind those already there. */
    method Write(at: nat, s: seq<Byte>, ghost done: seq<Byte>)
      requires Starts(done) && at == |done| && at + |s| <= length
      modifies buffer
      ensures Starts(done + s)
    {
      assert done + s[..0] == done;
      for i := 0 to |s|
        invariant Starts(done + s[..i])
      {
        buffer[at + i] := s[i];
        assert done + s[..i + 1] == done + s[..i] + [s[i]];
      }
      assert s[..|s|] == s;
    }

    /** Bytes and a terminator at the offset, which stays where it is. */
    method PutText(s: CString, ghost done: seq<Byte>)
      requires Ready(done) && offset + |s| < length
      modifies buffer
      ensures Shows(done + s)
    {
      Write(offset, s, done);
      Write(offset + |s|, [NUL], done + s);
      Terminated(done + s);
    }

    method PutTabs(at: nat, n: nat, ghost done: seq<Byte>)
      requires Starts(done) && at == |done| && at + n <= length
      modifies buffer
      ensures Starts(done + Tabs(n))
    {
      for i := 0 to n
        invariant Starts(done + Tabs(i))
      {
        buffer[at + i] := TAB;
        assert Tabs(i + 1) == Tabs(i) + [TAB];
        assert done + Tabs(i + 1) == done + Tabs(i) + [TAB];
      }
    }

    /**
     * The promise of the print functions. On success the text stands terminated behind `done`, and the offset has
     * come some part of the way to its end; the buffer had the space, and failure means it could not have had it.
     */
    ghost predicate Printed(done: seq<Byte>, s: CString, ok: bool, depth0: nat)
      reads this, buffer
    {
      if ok then
        Shows(done + s) && |done| <= offset <= |done + s| && depth == depth0 && |done + s| + 2 <= length <= INT_MAX
      else
        NoRoom(|done| + |s|)
    }

    /** Between two values: everything printed so far is behind the offset. */
    ghost predicate Passed(done: seq<Byte>, s: CString, ok: bool, depth0: nat)
      reads this, buffer
    {
      if ok then Ready(done + s) && depth == depth0 else NoRoom(|done| + |s|)
    }

    /** This many bytes and two do not fit, or memory ran out. */
    ghost predicate NoRoom(n: nat)
      reads this
    {
      refused || n + 2 > Cap()
    }

    lemma {:induction false} JoinPassed(done: seq<Byte>, a: CString, b: CString, ok: bool, depth0: nat)
      requires Passed(done + a, b, ok, depth0)
      ensures Passed(done, a + b, ok, depth0)
    {
      assert done + (a + b) == done + a + b;
    }

    lemma {:induction false} JoinPrinted(done: seq<Byte>, a: CString, b: CString, ok: bool, depth0: nat)
      requires Printed(done + a, b, ok, depth0)
      ensures Printed(done, a + b, ok, depth0)
    {
      assert done + (a + b) == done + a + b;
    }

    /** Asks for space, stores bytes at the offset and moves it behind them. */
    method Advance(s: CString, needed: nat, ghost done: seq<Byte>) returns (ok: bool)
      requires Ready(done) && |s| <= needed <= |s| + 1
      modifies this`buffer, this`length, this`refused, this`offset, buffer
      ensures Passed(done, s, ok, old(depth))
      ensures buffer == null || buffer == old(buffer) || fresh(buffer)
      ensures noalloc ==> buffer == old(buffer) && length == old(length) && refused == old(refused)
      ensures old(refused) ==> refused
    {
      ok := Ensure(needed, done);
      if !ok {
        return;
      }
      Write(offset, s, done);
      if needed > |s| {
        Write(offset + |s|, [NUL], done + s);
        Terminated(done + s);
      }
      offset := offset + |s|;
    }

    /** The end of print: the text in a block of its own size. */
    method Trimmed(ghost s: seq<Byte>) returns (printed: array<Byte>)
      requires Shows(s) && offset == |s|
      ensures fresh(printed) && printed[..] == s + [NUL]
    {
      printed := new Byte[offset + 1];
      forall i | 0 <= i < Min(length, offset + 1) {
        printed[i] := buffer[i];
      }
      printed[offset] := NUL;
      assert printed[..offset] == buffer[..offset];
    }

    // ---- strings ----

    /** The first pass of print_string_ptr: the length of a string and the extra bytes its escapes take. */
    method CountEscapes(h: Heap, input: Ptr, ghost s: CString) returns (size: nat, extra: nat)
      requires HoldsString(h, input, s)
      ensures size == |s| && extra == Extra(s)
    {
      var block := h.blocks[input];
      size, extra := 0, 0;
      assert s[0..] == s;
      while block[size] != NUL
        invariant size <= |s| && extra + Extra(s[size..]) == Extra(s)
        decreases |s| - size
      {
        assert s[size..][1..] == s[size + 1..];
        var c := block[size];
        if c == QUOTE || c == BACKSLASH || c == BACKSPACE || c == FORM_FEED || c == NEWLINE || c == RETURN || c == TAB {
          extra := extra + 1;
        } else if c < 32 {
          extra := extra + 5;
        }
        size := size + 1;
      }
    }

    /** One round of the second pass. */
    method WriteEscaped(at: nat, c: CByte, ghost done: seq<Byte>) returns (next: nat)
      requires Starts(done) && at == |done| && at + |EscapeByte(c)| < length
      modifies buffer
      ensures Starts(done + EscapeByte(c)) && next == |done + EscapeByte(c)|
    {
      if c > 31 && c != QUOTE && c != BACKSLASH {
        Write(at, [c], done);
        next := at + 1;
        return;
      }
      Write(at, [BACKSLASH], done);
      next := WriteAfterBackslash(at + 1, c, done + [BACKSLASH]);
      assert done + EscapeByte(c) == done + [BACKSLASH] + EscapeByte(c)[1..];
    }

    /** What follows the backslash; sprintf puts a terminator behind the code of a control character. */
    method WriteAfterBackslash(at: nat, c: CByte, ghost done: seq<Byte>) returns (next: nat)
      requires Starts(done) && at == |done| && (c <= 31 || c == QUOTE || c == BACKSLASH)
      requires at + |EscapeByte(c)| <= length
      modifies buffer
      ensures Starts(done + EscapeByte(c)[1..]) && next == |done + EscapeByte(c)[1..]|
    {
      var letter := c;
      if c == BACKSLASH || c == QUOTE {
        letter := c;
      } else if c == BACKSPACE {
        letter := LOWER_B;
      } else if c == FORM_FEED {
        letter := LOWER_F;
      } else if c == NEWLINE {
        letter := LOWER_N;
      } else if c == RETURN {
        letter := LOWER_R;
      } else if c == TAB {
        letter := LOWER_T;
      } else {
        next := WriteCode(at, c, done);
        return;
      }
      assert EscapeByte(c)[1..] == [letter];
      Write(at, [letter], done);
      next := at + 1;
    }

    method WriteCode(at: nat, c: CByte, ghost done: seq<Byte>) returns (next: nat)
      requires Starts(done) && at == |done| && c <= 31 && ShortEscape(c).None? && at + 6 <= length
      modifies buffer
      ensures Starts(done + EscapeByte(c)[1..]) && next == |done + EscapeByte(c)[1..]|
    {
      var code := [LOWER_U, ZERO, ZERO, HexLetter(c / 16), HexLetter(c % 16)];
      assert EscapeByte(c)[1..] == code;
      Write(at, code + [NUL], done);
      assert (done + (code + [NUL]))[..|done + code|] == done + code;
      next := at + 5;
    }

    /** The second pass of print_string_ptr: it ends exactly where the first pass said. */
    method WriteEscapes(h: Heap, input: Ptr, start: nat, ghost s: CString, ghost done: seq<Byte>)
      requires HoldsString(h, input, s) && Starts(done) && start == |done| && start + |s| + Extra(s) < length
      modifies buffer
      ensures Starts(done + Escape(s)) && |Escape(s)| == |s| + Extra(s)
    {
      EscapeLength(s);
      var block := h.blocks[input];
      var i, at := 0, start;
      ghost var cur: seq<Byte> := done;
      assert s[0..] == s;
      while block[i] != NUL
        invariant i <= |s| && Starts(cur) && at == |cur|
        invariant cur + Escape(s[i..]) == done + Escape(s)
        decreases |s| - i
      {
        assert s[i..][1..] == s[i + 1..];
        assert cur + Escape(s[i..]) == cur + EscapeByte(s[i]) + Escape(s[i + 1..]);
        assert |cur + Escape(s[i..])| == |done + Escape(s)|;
        at := WriteEscaped(at, block[i], cur);
        cur := cur + EscapeByte(s[i]);
        i := i + 1;
      }
      assert cur + [] == cur;
    }

    /** print_string_ptr */
    method PrintStringPtr(h: Heap, input: Ptr, ghost s: CString, ghost done: seq<Byte>) returns (ok: bool)
      requires Ready(done) && Spells(h, input, s, true)
      modifies this`buffer, this`length, this`refused, buffer
      ensures Printed(done, Quoted(s), ok, old(depth))
      ensures buffer == null || buffer == old(buffer) || fresh(buffer)
      ensures noalloc ==> buffer == old(buffer) && length == old(length) && refused == old(refused)
      ensures old(refused) ==> refused
    {
      if input == NULL {
        ok := Ensure(3, done);
        if !ok {
          return;
        }
        PutText([QUOTE, QUOTE], done);
        assert Quoted(s) == [QUOTE, QUOTE];
        return;
      }
      var size, extra := CountEscapes(h, input, s);
      EscapeLength(s);
      assert |Quoted(s)| == size + extra + 2;
      ok := Ensure(size + extra + 3, done);
      if !ok {
        return;
      }
      WriteQuoted(h, input, size, extra, s, done);
    }

    /** The rest of print_string_ptr, once there is room. */
    method WriteQuoted(h: Heap, input: Ptr, size: nat, extra: nat, ghost s: CString, ghost done: seq<Byte>)
      requires Ready(done) && HoldsString(h, input, s) && size == |s| && extra == Extra(s)
      requires offset + size + extra + 3 <= length
      modifies buffer
      ensures Shows(done + Quoted(s))
    {
      hide Escape, Extra, Quoted;
      QuotedEnd(s, done);
      Write(offset, [QUOTE], done);
      ghost var cur := done + [QUOTE];
      if extra == 0 {
        NothingToEscape(s);
        var block := h.blocks[input];
        assert block[..size] == s;
        Write(offset + 1, block[..size], cur);
      } else {
        WriteEscapes(h, input, offset + 1, s, cur);
      }
      EscapeLength(s);
      Write(offset + size + extra + 1, [QUOTE, NUL], cur + Escape(s));
      Terminated(done + Quoted(s));
    }

    lemma {:induction false} Terminated(s: seq<Byte>)
      requires Starts(s + [NUL])
      ensures Shows(s)
    {
      assert (s + [NUL])[..|s|] == s && (s + [NUL])[|s|] == NUL;
    }

    // ---- values ----

    /** print_number, for an integer that "%1.15g" prints exactly */
    method PrintNumber(n: SmallInt, ghost done: seq<Byte>) returns (ok: bool)
      requires Ready(done)
      modifies this`buffer, this`length, this`refused, this`offset, buffer
      ensures Printed(done, Decimal(n), ok, old(depth))
      ensures buffer == null || buffer == old(buffer) || fresh(buffer)
      ensures noalloc ==> buffer == old(buffer) && length == old(length) && refused == old(refused)
      ensures old(refused) ==> refused
    {
      var number := Decimal(n);
      ok := Ensure(|number| + 1, done);
      if !ok {
        return;
      }
      PutText(number, done);
      offset := offset + |number|;
    }

    /** strcpy of a constant into the buffer, with `needed` bytes asked for */
    method PrintWord(word: CString, needed: nat, ghost done: seq<Byte>) returns (ok: bool)
      requires Ready(done) && needed == |word| + 1
      modifies this`buffer, this`length, this`refused, buffer
      ensures Printed(done, word, ok, old(depth))
      ensures buffer == null || buffer == old(buffer) || fresh(buffer)
      ensures noalloc ==> buffer == old(buffer) && length == old(length) && refused == old(refused)
      ensures old(refused) ==> refused
    {
      ok := Ensure(needed, done);
      if !ok {
        return;
      }
      PutText(word, done);
    }

    /** print_value: the text of the tree behind what was printed before, whatever moves the buffer made. */
    method PrintValue(h: Heap, item: Ptr, ghost t: Tree, ghost j: Json, ghost done: seq<Byte>) returns (ok: bool)
      requires Ready(done) && Printable(j)
      requires item != NULL ==> item == t.ptr && Reads(h, t, j, true)
      modifies this, buffer
      ensures item == NULL ==> !ok
      ensures item != NULL ==> Printed(done, Text(j, format, old(depth)), ok, old(depth))
      ensures buffer == null || buffer == old(buffer) || fresh(buffer)
      ensures noalloc ==> buffer == old(buffer) && length == old(length) && refused == old(refused)
      ensures old(refused) ==> refused
      decreases t, 2
    {
      ok := false;
      if item == NULL {
        return;
      }
      var node := h.nodes[item];
      match node.kind
      case KNull => ok := PrintWord(NULL_TEXT, 5, done);
      case KFalse => ok := PrintWord(FALSE_TEXT, 6, done);
      case KTrue => ok := PrintWord(TRUE_TEXT, 5, done);
      case KNumber => ok := PrintNumber(node.valuedouble.n, done);
      case KString => ok := PrintStringPtr(h, node.valuestring, j.s, done);
      case KArray => ok := PrintArray(h, item, t, j.items, done);
      case KObject => ok := PrintObject(h, item, t, j.members, done);
      case _ =>
    }

    /** print_array */
    method PrintArray(h: Heap, item: Ptr, ghost t: Tree, ghost items: seq<Json>, ghost done: seq<Byte>)
      returns (ok: bool)
      requires Ready(done) && PrintableItems(items)
      requires item == t.ptr && Reads(h, t, Arr(items), true)
      modifies this, buffer
      ensures Printed(done, Text(Arr(items), format, old(depth)), ok, old(depth))
      ensures buffer == null || buffer == old(buffer) || fresh(buffer)
      ensures noalloc ==> buffer == old(buffer) && length == old(length) && refused == old(refused)
      ensures old(refused) ==> refused
      decreases t, 1
    {
      hide Reads, Text, ItemsText, Printable, PrintableItems, Starts, Shows, Ready;
      ArrayParts(h, t, items, format, depth);
      ghost var head := [LBRACKET] + ItemsText(items, format, depth + 1);
      ok := PrintArrayItems(h, h.nodes[item].child, t.kids, items, done);
      if ok {
        ok := PrintWord([RBRACKET], 2, done + head);
        if ok {
          depth := depth - 1;
        }
        JoinPrinted(done, head, [RBRACKET], ok, depth);
      }
    }

    /** The opening bracket and the items. */
    method PrintArrayItems(h: Heap, first: Ptr, ghost ts: seq<Tree>, ghost items: seq<Json>, ghost done: seq<Byte>)
      returns (ok: bool)
      requires Ready(done) && PrintableItems(items)
      requires first == First(ts) && ReadsItems(h, ts, items, true)
      modifies this, buffer
      ensures Passed(done, [LBRACKET] + ItemsText(items, format, old(depth) + 1), ok, old(depth) + 1)
      ensures buffer == null || buffer == old(buffer) || fresh(buffer)
      ensures noalloc ==> buffer == old(buffer) && length == old(length) && refused == old(refused)
      ensures old(refused) ==> refused
      decreases ts, 1
    {
      hide Reads, ReadsItems, Text, ItemsText, Printable, PrintableItems, Starts, Shows, Ready;
      ok := Advance([LBRACKET], 1, done);
      if ok {
        depth := depth + 1;
        ok := PrintItems(h, first, ts, items, done + [LBRACKET]);
        JoinPassed(done, [LBRACKET], ItemsText(items, format, old(depth) + 1), ok, old(depth) + 1);
      }
    }

    /** The loop of print_array. */
    method PrintItems(h: Heap, first: Ptr, ghost ts: seq<Tree>, ghost items: seq<Json>, ghost done: seq<Byte>)
      returns (ok: bool)
      requires Ready(done) && PrintableItems(items)
      requires first == First(ts) && ReadsItems(h, ts, items, true)
      modifies this, buffer
      ensures Passed(done, ItemsText(items, format, old(depth)), ok, old(depth))
      ensures buffer == null || buffer == old(buffer) || fresh(buffer)
      ensures noalloc ==> buffer == old(buffer) && length == old(length) && refused == old(refused)
      ensures old(refused) ==> refused
      decreases ts, 0
    {
      hide Reads, Text, ItemsText, Printable, PrintableItems, Starts, Shows, Ready, AfterItem, Listed;
      var element := first;
      ghost var i := 0;
      ghost var cur: seq<Byte> := done;
      ghost var all := done + ItemsText(items, format, depth);
      assert items[0..] == items;
      while element != NULL
        invariant i <= |ts| && element == First(ts[i..])
        invariant Ready(cur) && PrintableItems(items[i..]) && cur + ItemsText(items[i..], format, depth) == all
        invariant depth == old(depth) && (buffer == null || buffer == old(buffer) || fresh(buffer))
        invariant noalloc ==> buffer == old(buffer) && length == old(length) && refused == old(refused)
        invariant old(refused) ==> refused
        decreases |ts| - i
      {
        ItemsStep(h, ts, items, i, format, depth);
        ghost var word := Text(items[i], format, depth) + AfterItem(h.nodes[element].next != NULL, format);
        assert cur + word + ItemsText(items[i + 1..], format, depth) == all;
        ok := PrintElement(h, element, ts[i], items[i], cur);
        if !ok {
          return;
        }
        cur := cur + word;
        element := h.nodes[element].next;
        i := i + 1;
      }
      ItemsTextOfNone(format, depth);
      assert i == |ts| by { if i < |ts| { ListedAt(h, ts, i); } }
      assert items[i..] == [];
      assert cur + [] == cur;
      ok := true;
    }

    /** One round of that loop: an element and what separates it from the next. */
    method PrintElement(h: Heap, element: Ptr, ghost t: Tree, ghost j: Json, ghost done: seq<Byte>) returns (ok: bool)
      requires Ready(done) && Printable(j)
      requires element == t.ptr && Reads(h, t, j, true)
      modifies this, buffer
      ensures element in h.nodes
      ensures Passed(done, Text(j, format, old(depth)) + AfterItem(h.nodes[element].next != NULL, format), ok, old(depth))
      ensures buffer == null || buffer == old(buffer) || fresh(buffer)
      ensures noalloc ==> buffer == old(buffer) && length == old(length) && refused == old(refused)
      ensures old(refused) ==> refused
      decreases t, 3
    {
      hide Reads, Text, Printable, Starts, Shows, Ready;
      ReadsIsPresent(h, t, j, true);
      ghost var word := Text(j, format, depth);
      assert done + (word + AfterItem(true, format)) == done + word + AfterItem(true, format);
      assert word + AfterItem(false, format) == word;
      ok := PrintValue(h, element, t, j, done);
      if ok {
        UpdateOffset(done, word);
        if h.nodes[element].next != NULL {
          var size := if format then 2 else 1;
          ok := Advance([COMMA] + SpaceIf(format), size + 1, done + word);
        }
      }
    }

    /** print_object */
    method PrintObject(h: Heap, item: Ptr, ghost t: Tree, ghost members: seq<Member>, ghost done: seq<Byte>)
      returns (ok: bool)
      requires Ready(done) && PrintableMembers(members)
      requires item == t.ptr && Reads(h, t, Obj(members), true)
      modifies this, buffer
      ensures Printed(done, Text(Obj(members), format, old(depth)), ok, old(depth))
      ensures buffer == null || buffer == old(buffer) || fresh(buffer)
      ensures noalloc ==> buffer == old(buffer) && length == old(length) && refused == old(refused)
      ensures old(refused) ==> refused
      decreases t, 1
    {
      hide Reads, Text, MembersText, Printable, PrintableMembers, ObjectOpen, ObjectClose, Starts, Shows, Ready;
      ObjectParts(h, t, members, format, depth);
      ghost var head := ObjectOpen(format) + MembersText(members, format, depth + 1);
      ok := PrintObjectMembers(h, h.nodes[item].child, t.kids, members, done);
      if ok {
        ok := PrintClose(done + head);
        JoinPrinted(done, head, ObjectClose(format, old(depth)), ok, old(depth));
      }
    }

    /** The opening brace and the members. */
    method PrintObjectMembers(h: Heap, first: Ptr, ghost ts: seq<Tree>, ghost members: seq<Member>,
                              ghost done: seq<Byte>)
      returns (ok: bool)
      requires Ready(done) && PrintableMembers(members)
      requires first == First(ts) && ReadsMembers(h, ts, members, true)
      modifies this, buffer
      ensures Passed(done, ObjectOpen(format) + MembersText(members, format, old(depth) + 1), ok, old(depth) + 1)
      ensures buffer == null || buffer == old(buffer) || fresh(buffer)
      ensures noalloc ==> buffer == old(buffer) && length == old(length) && refused == old(refused)
      ensures old(refused) ==> refused
      decreases ts, 1
    {
      hide Reads, ReadsMembers, Text, MembersText, Printable, PrintableMembers, Starts, Shows, Ready;
      var open := [LBRACE] + NewlineIf(format);
      ok := Advance(open, if format then 3 else 2, done);
      if ok {
        depth := depth + 1;
        ok := PrintMembers(h, first, ts, members, done + open);
        JoinPassed(done, open, MembersText(members, format, old(depth) + 1), ok, old(depth) + 1);
      }
    }

    /** The end of print_object: the indentation of the level below, and the brace. */
    method PrintClose(ghost done: seq<Byte>) returns (ok: bool)
      requires Ready(done) && depth > 0
      modifies this, buffer
      ensures Printed(done, ObjectClose(format, old(depth) - 1), ok, old(depth) - 1)
      ensures buffer == null || buffer == old(buffer) || fresh(buffer)
      ensures noalloc ==> buffer == old(buffer) && length == old(length) && refused == old(refused)
      ensures old(refused) ==> refused
    {
      hide Indent, ObjectClose;
      ClosingText(done, format, depth - 1);
      ok := Ensure(if format then depth + 1 else 2, done);
      if !ok {
        return;
      }
      var at := PutIndent(offset, depth - 1, done);
      Write(at, [RBRACE, NUL], done + Indent(format, depth - 1));
      Terminated(done + ObjectClose(format, depth - 1));
      depth := depth - 1;
    }

    method PutIndent(at: nat, n: nat, ghost done: seq<Byte>) returns (next: nat)
      requires Starts(done) && at == |done| && at + (if format then n else 0) <= length
      modifies buffer
      ensures Starts(done + Indent(format, n)) && next == at + |Indent(format, n)|
    {
      next := at;
      if format {
        PutTabs(at, n, done);
        next := at + n;
      } else {
        assert done + Indent(format, n) == done;
      }
    }

    /** The loop of print_object. */
    method PrintMembers(h: Heap, first: Ptr, ghost ts: seq<Tree>, ghost members: seq<Member>, ghost done: seq<Byte>)
      returns (ok: bool)
      requires Ready(done) && PrintableMembers(members)
      requires first == First(ts) && ReadsMembers(h, ts, members, true)
      modifies this, buffer
      ensures Passed(done, MembersText(members, format, old(depth)), ok, old(depth))
      ensures buffer == null || buffer == old(buffer) || fresh(buffer)
      ensures noalloc ==> buffer == old(buffer) && length == old(length) && refused == old(refused)
      ensures old(refused) ==> refused
      decreases ts, 0
    {
      hide Reads, Text, MembersText, Printable, PrintableMembers, Spells, KeyText, AfterMember;
      hide Starts, Shows, Ready, Listed;
      var current := first;
      ghost var i := 0;
      ghost var cur: seq<Byte> := done;
      ghost var all := done + MembersText(members, format, depth);
      assert members[0..] == members;
      while current != NULL
        invariant i <= |ts| && current == First(ts[i..])
        invariant Ready(cur) && PrintableMembers(members[i..]) && cur + MembersText(members[i..], format, depth) == all
        invariant depth == old(depth) && (buffer == null || buffer == old(buffer) || fresh(buffer))
        invariant noalloc ==> buffer == old(buffer) && length == old(length) && refused == old(refused)
        invariant old(refused) ==> refused
        decreases |ts| - i
      {
        MembersStep(h, ts, members, i, format, depth);
        ghost var word := KeyText(members[i].key, format, depth) + Text(members[i].value, format, depth)
                          + AfterMember(h.nodes[current].next != NULL, format);
        assert cur + word + MembersText(members[i + 1..], format, depth) == all;
        ok := PrintMember(h, current, ts[i], members[i], cur);
        if !ok {
          return;
        }
        cur := cur + word;
        current := h.nodes[current].next;
        i := i + 1;
      }
      ItemsTextOfNone(format, depth);
      assert i == |ts| by { if i < |ts| { ListedAt(h, ts, i); } }
      assert members[i..] == [];
      assert cur + [] == cur;
      ok := true;
    }

    /** One round of that loop. */
    method PrintMember(h: Heap, current: Ptr, ghost t: Tree, ghost m: Member, ghost done: seq<Byte>) returns (ok: bool)
      requires Ready(done) && Printable(m.value)
      requires current == t.ptr && Reads(h, t, m.value, true)
      requires current in h.nodes && Spells(h, h.nodes[current].name, m.key, true)
      modifies this, buffer
      ensures current in h.nodes
      ensures Passed(done, KeyText(m.key, format, old(depth)) + Text(m.value, format, old(depth))
                           + AfterMember(h.nodes[current].next != NULL, format), ok, old(depth))
      ensures buffer == null || buffer == old(buffer) || fresh(buffer)
      ensures noalloc ==> buffer == old(buffer) && length == old(length) && refused == old(refused)
      ensures old(refused) ==> refused
      decreases t, 4
    {
      hide Reads, Text, Printable, KeyText, AfterMember, Starts, Shows, Ready, Spells;
      ghost var pair := KeyText(m.key, format, depth) + Text(m.value, format, depth);
      ok := PrintPair(h, current, t, m, done);
      if ok {
        UpdateOffset(done, pair);
        ok := PrintComma(h.nodes[current].next != NULL, done + pair);
        JoinPassed(done, pair, AfterMember(h.nodes[current].next != NULL, format), ok, old(depth));
      }
    }

    /** The key and the value of a member. */
    method PrintPair(h: Heap, current: Ptr, ghost t: Tree, ghost m: Member, ghost done: seq<Byte>) returns (ok: bool)
      requires Ready(done) && Printable(m.value)
      requires current == t.ptr && Reads(h, t, m.value, true)
      requires current in h.nodes && Spells(h, h.nodes[current].name, m.key, true)
      modifies this, buffer
      ensures Printed(done, KeyText(m.key, format, old(depth)) + Text(m.value, format, old(depth)), ok, old(depth))
      ensures buffer == null || buffer == old(buffer) || fresh(buffer)
      ensures noalloc ==> buffer == old(buffer) && length == old(length) && refused == old(refused)
      ensures old(refused) ==> refused
      decreases t, 3
    {
      hide Reads, Text, Printable, KeyText, Starts, Shows, Ready, Spells;
      ReadsIsPresent(h, t, m.value, true);
      ghost var key, word := KeyText(m.key, format, depth), Text(m.value, format, depth);
      ok := PrintKey(h, h.nodes[current].name, m.key, done);
      if ok {
        ok := PrintValue(h, current, t, m.value, done + key);
        JoinPrinted(done, key, word, ok, old(depth));
      }
    }

    /** The end of a member: a comma if there is another one. */
    method PrintComma(more: bool, ghost done: seq<Byte>) returns (ok: bool)
      requires Ready(done)
      modifies this`buffer, this`length, this`refused, this`offset, buffer
      ensures Passed(done, AfterMember(more, format), ok, old(depth))
      ensures buffer == null || buffer == old(buffer) || fresh(buffer)
      ensures noalloc ==> buffer == old(buffer) && length == old(length) && refused == old(refused)
      ensures old(refused) ==> refused
    {
      var size := (if format then 1 else 0) + (if more then 1 else 0);
      ok := Advance((if more then [COMMA] else []) + NewlineIf(format), size + 1, done);
    }

    /** The indentation, the name and the colon of a member. */
    method PrintIndent(ghost done: seq<Byte>) returns (ok: bool)
      requires Ready(done)
      modifies this, buffer
      ensures Passed(done, Indent(format, old(depth)), ok, old(depth))
      ensures buffer == null || buffer == old(buffer) || fresh(buffer)
      ensures noalloc ==> buffer == old(buffer) && length == old(length) && refused == old(refused)
      ensures old(refused) ==> refused
    {
      ok := true;
      if format {
        ok := Ensure(depth, done);
        if !ok {
          return;
        }
      }
      offset := PutIndent(offset, depth, done);
    }

    method PrintKey(h: Heap, name: Ptr, ghost key: CString, ghost done: seq<Byte>) returns (ok: bool)
      requires Ready(done) && Spells(h, name, key, true)
      modifies this, buffer
      ensures Passed(done, KeyText(key, format, old(depth)), ok, old(depth))
      ensures buffer == null || buffer == old(buffer) || fresh(buffer)
      ensures noalloc ==> buffer == old(buffer) && length == old(length) && refused == old(refused)
      ensures old(refused) ==> refused
    {
      hide Quoted;
      ghost var indent := Indent(format, depth);
      ghost var cur := done + indent;
      assert done + KeyText(key, format, depth) == cur + Quoted(key) + ([COLON] + TabIf(format));
      ok := PrintIndent(done);
      if !ok {
        return;
      }
      ok := PrintStringPtr(h, name, key, cur);
      if !ok {
        return;
      }
      UpdateOffset(cur, Quoted(key));
      ok := Advance([COLON] + TabIf(format), if format then 2 else 1, cur + Quoted(key));
    }
  }

  lemma {:induction false} ItemsStep(h: Heap, ts: seq<Tree>, items: seq<Json>, i: nat, format: bool, depth: nat)
    requires ReadsItems(h, ts, items, true) && i < |ts| && PrintableItems(items[i..])
    ensures ts[i].ptr in h.nodes && h.nodes[ts[i].ptr].next == First(ts[i + 1..]) && First(ts[i..]) == ts[i].ptr
    ensures Reads(h, ts[i], items[i], true)
    ensures Printable(items[i]) && PrintableItems(items[i + 1..])
    ensures ItemsText(items[i..], format, depth) ==
            Text(items[i], format, depth) + AfterItem(h.nodes[ts[i].ptr].next != NULL, format)
            + ItemsText(items[i + 1..], format, depth)
  {
    hide Reads, Text, ItemsText, Printable, PrintableItems, AfterItem;
    UnfoldItems(items[i..], format, depth);
    ListedAt(h, ts, i);
    assert items[i..][1..] == items[i + 1..];
  }

  lemma {:induction false} MembersStep(h: Heap, ts: seq<Tree>, members: seq<Member>, i: nat, format: bool, depth: nat)
    requires ReadsMembers(h, ts, members, true) && i < |ts| && PrintableMembers(members[i..])
    ensures ts[i].ptr in h.nodes && h.nodes[ts[i].ptr].next == First(ts[i + 1..]) && First(ts[i..]) == ts[i].ptr
    ensures Reads(h, ts[i], members[i].value, true) && Spells(h, h.nodes[ts[i].ptr].name, members[i].key, true)
    ensures Printable(members[i].value) && PrintableMembers(members[i + 1..])
    ensures MembersText(members[i..], format, depth) ==
            KeyText(members[i].key, format, depth) + Text(members[i].value, format, depth)
            + AfterMember(h.nodes[ts[i].ptr].next != NULL, format) + MembersText(members[i + 1..], format, depth)
  {
    hide Reads, Text, MembersText, Printable, PrintableMembers, Spells, KeyText, AfterMember;
    UnfoldMembers(members[i..], format, depth);
    ListedAt(h, ts, i);
    assert members[i..][1..] == members[i + 1..];
  }

  lemma {:induction false} ArrayParts(h: Heap, t: Tree, items: seq<Json>, format: bool, depth: nat)
    requires Reads(h, t, Arr(items), true) && PrintableItems(items)
    ensures t.ptr in h.nodes && h.nodes[t.ptr].child == First(t.kids)
    ensures ReadsItems(h, t.kids, items, true) && Printable(Arr(items))
    ensures Text(Arr(items), format, depth) == [LBRACKET] + ItemsText(items, format, depth + 1) + [RBRACKET]
  {
    ReadsArray(h, t, items, true);
  }

  lemma {:induction false} ObjectParts(h: Heap, t: Tree, members: seq<Member>, format: bool, depth: nat)
    requires Reads(h, t, Obj(members), true) && PrintableMembers(members)
    ensures t.ptr in h.nodes && h.nodes[t.ptr].child == First(t.kids)
    ensures ReadsMembers(h, t.kids, members, true) && Printable(Obj(members))
    ensures Text(Obj(members), format, depth) ==
            ObjectOpen(format) + MembersText(members, format, depth + 1) + ObjectClose(format, depth)
  {
    ReadsObject(h, t, members, true);
  }

  const DEFAULT_SIZE: nat := 256

  /**
   * print, behind cJSON_Print and cJSON_PrintUnformatted: a block that holds exactly the text and its terminator,
   * whatever its size. NULL means that memory ran out or that the text and two bytes pass INT_MAX.
   */
  method Print(h: Heap, item: Ptr, format: bool, canReallocate: bool, ghost t: Tree, ghost j: Json)
    returns (printed: array?<Byte>, ghost refused: bool)
    requires Printable(j)
    requires item != NULL ==> item == t.ptr && Reads(h, t, j, true)
    ensures printed != null ==> item != NULL && fresh(printed)
    ensures printed != null ==> printed[..] == Page(j, format) + [NUL]
    ensures printed == null ==> item == NULL || refused || |Page(j, format)| + 2 > 0x7FFF_FFFF
  {
    hide Page;
    PrintedText(j, format);
    hide Reads, Text, Printable;
    printed, refused := null, true;
    var refuse: bool := *;
    if refuse {
      return;
    }
    var block := new Byte[DEFAULT_SIZE];
    var p := new PrintBuffer(block, DEFAULT_SIZE, false, format, canReallocate);
    var ok := p.PrintValue(h, item, t, j, []);
    refused := p.refused;
    ghost var text := Text(j, format, 0);
    assert [] + text == text;
    if !ok {
      return;
    }
    p.UpdateOffset([], text);
    refuse := *;
    if refuse {
      refused := true;
      return;
    }
    printed := p.Trimmed(text);
  }

  /**
   * cJSON_PrintPreallocated succeeds exactly when the buffer has two bytes more than the text: one for the
   * terminator and one that `ensure` always asks for on top.
   */
  method PrintPreallocated(h: Heap, item: Ptr, buffer: array?<Byte>, length: int, format: bool, ghost t: Tree,
                           ghost j: Json)
    returns (ok: bool)
    requires Printable(j) && length <= INT_MAX && (buffer != null ==> length <= buffer.Length)
    requires item != NULL ==> item == t.ptr && Reads(h, t, j, true)
    modifies buffer
    ensures ok <==> item != NULL && buffer != null && length >= |Page(j, format)| + 2
    ensures ok ==> buffer[..|Page(j, format)|] == Text(j, format, 0) == Page(j, format)
    ensures ok ==> buffer[|Page(j, format)|] == 0
  {
    hide Page;
    PrintedText(j, format);
    hide Reads, Text, Printable;
    if length < 0 || buffer == null {
      return false;
    }
    var p := new PrintBuffer(buffer, length, true, format, false);
    ok := p.PrintValue(h, item, t, j, []);
    assert [] + Text(j, format, 0) == Text(j, format, 0);
  }

  lemma {:induction false} ClosingText(done: seq<Byte>, format: bool, depth: nat)
    ensures |ObjectClose(format, depth)| == |Indent(format, depth)| + 1
    ensures |Indent(format, depth)| == if format then depth else 0
    ensures done + Indent(format, depth) + [RBRACE, NUL] == done + ObjectClose(format, depth) + [NUL]
  {
  }

  lemma {:induction false} QuotedEnd(s: CString, done: seq<Byte>)
    ensures done + [QUOTE] + Escape(s) + [QUOTE, NUL] == done + Quoted(s) + [NUL]
  {
    hide Escape;
  }

  lemma {:induction false} NothingToEscape(s: CString)
    requires Extra(s) == 0
    ensures Escape(s) == s
  {
    if s != [] { NothingToEscape(s[1..]); }
  }
}
