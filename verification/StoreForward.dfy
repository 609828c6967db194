/**
 * Store and forward: a record whose send failed is appended to a file as its formatted text and a newline. After
 * the next login the file is cut back into messages by counting lines.
 */
module StoreForward {
  import opened Bytes
  import opened JsonTree
  import opened StringCodec
  import opened Layout
  import opened Grammar
  import opened RoundTrip

  const MSG_BUFF_SIZE: nat := 500

  // ---- regrouping by lines ----

  /** The messages sent, and whether a record then ran over the end of the fixed buffer. */
  datatype Outcome = Outcome(messages: seq<CString>, overflow: bool)

  function Before(message: CString, o: Outcome): Outcome {
    Outcome([message] + o.messages, o.overflow)
  }

  /** What fgets takes: up to a newline, and at most `limit` bytes. */
  function LineLength(file: CString, limit: nat): (n: nat)
    ensures n <= |file| && n <= limit
    ensures file != [] && limit > 0 ==> n > 0
    ensures 0 < n < limit && n < |file| ==> file[n - 1] == NEWLINE
    ensures forall i :: 0 <= i < n - 1 ==> file[i] != NEWLINE
  {
    if file == [] || limit == 0 then 0
    else if file[0] == NEWLINE then 1
    else 1 + LineLength(file[1..], limit - 1)
  }

  /** The loop of do_with_file from one call of fgets on, with `left` lines still missing from `temp`. */
  function Regroup(file: CString, total: int, left: int, temp: CString): Outcome
    decreases |file|
  {
    if file == [] then Outcome([], false)
    else
      var n := LineLength(file, MSG_BUFF_SIZE - 1);
      var temp1 := temp + file[..n];
      if |temp1| >= MSG_BUFF_SIZE then Outcome([], true)
      else if left - 1 == 0 then Before(temp1, Regroup(file[n..], total, total, []))
      else Regroup(file[n..], total, left - 1, temp1)
  }

  /**
   * One round of the loop, at position `fp` of the file: a line, or the rest of the file, or 499 bytes; 500 bytes
   * and more overrun the buffer.
   */
  lemma {:induction false} RegroupAt(file: CString, fp: nat, total: int, left: int, temp: CString)
    requires fp < |file|
    ensures var n := LineLength(file[fp..], MSG_BUFF_SIZE - 1);
            && 0 < n <= 499 && fp + n <= |file| && (forall i :: fp <= i < fp + n - 1 ==> file[i] != 10)
            && (n == 499 || fp + n == |file| || file[fp + n - 1] == 10)
            && Regroup(file[fp..], total, left, temp) ==
               if |temp| + n >= 500 then Outcome([], true)
               else if left == 1 then Before(temp + file[fp..fp + n], Regroup(file[fp + n..], total, total, []))
               else Regroup(file[fp + n..], total, left - 1, temp + file[fp..fp + n])
  {
    var n := LineLength(file[fp..], MSG_BUFF_SIZE - 1);
    assert file[fp..][..n] == file[fp..fp + n] && file[fp..][n..] == file[fp + n..];
    assert forall i :: fp <= i < fp + n ==> file[i] == file[fp..][i - fp];
  }

  /** Messages already sent, and what is still to come. */
  function Sent(messages: seq<CString>, o: Outcome): Outcome {
    Outcome(messages + o.messages, o.overflow)
  }

  lemma {:induction false} SentOneMore(messages: seq<CString>, m: CString, o: Outcome)
    ensures Sent(messages, Before(m, o)) == Sent(messages + [m], o)
  {
    assert messages + ([m] + o.messages) == messages + [m] + o.messages;
  }

  lemma {:induction false} SentAll(messages: seq<CString>, overflow: bool)
    ensures Sent(messages, Outcome([], overflow)) == Outcome(messages, overflow)
  {
    assert messages + [] == messages;
  }

  /** A persistence file of the client. */
  class PersistenceFile {
    var contents: CString

    /** write of the text and of a newline, after open_file for appending */
    method Append(str: CString)
      modifies this
      ensures contents == old(contents) + str + [NEWLINE]
    {
      contents := contents + str;
      contents := contents + [NEWLINE];
    }

    /** do_with_file: `sent` holds what goes out before a record overruns `temp`, if one does. */
    method DoWithFile(msgLines: int) returns (sent: seq<CString>, overflow: bool)
      modifies this
      ensures Outcome(sent, overflow) == Regroup(old(contents), msgLines, msgLines, [])
      ensures !overflow ==> contents == []
    {
      hide Regroup, Sent, Before;
      var lines := msgLines;
      var temp: CString := [];
      var fp := 0;
      sent, overflow := [], false;
      ghost var whole := Regroup(contents, msgLines, msgLines, []);
      assert contents[0..] == contents;
      SentNone(whole);
      while fp < |contents|
        invariant fp <= |contents| && contents == old(contents)
        invariant whole == Sent(sent, Regroup(contents[fp..], msgLines, lines, temp))
      {
        RegroupAt(contents, fp, msgLines, lines, temp);
        var n := LineLength(contents[fp..], MSG_BUFF_SIZE - 1);
        var a := contents[fp..fp + n];
        fp := fp + n;
        lines := lines - 1;
        if |temp| + |a| >= MSG_BUFF_SIZE {
          overflow := true;
          SentAll(sent, overflow);
          return;
        }
        temp := temp + a;
        if lines == 0 {
          lines := msgLines;
          SentOneMore(sent, temp, Regroup(contents[fp..], msgLines, lines, []));
          sent := sent + [temp];
          temp := [];
        }
      }
      RegroupNothing(msgLines, lines, temp);
      SentAll(sent, overflow);
      contents := [];
    }
  }

  lemma {:induction false} SentNone(o: Outcome)
    ensures Sent([], o) == o
  {
    assert [] + o.messages == o.messages;
  }

  lemma {:induction false} RegroupNothing(total: int, left: int, temp: CString)
    ensures Regroup([], total, left, temp) == Outcome([], false)
  {
  }

  // ---- counting lines ----

  function Newlines(s: CString): nat {
    if s == [] then 0 else (if s[0] == NEWLINE then 1 else 0) + Newlines(s[1..])
  }

  lemma {:induction false} NewlinesOfSum(a: CString, b: CString)
    ensures Newlines(a + b) == Newlines(a) + Newlines(b)
  {
    if a == [] {
      assert a + b == b;
    } else {
      NewlinesOfSum(a[1..], b);
      assert (a + b)[1..] == a[1..] + b;
    }
  }

  lemma {:induction false} NoNewlines(s: CString)
    requires NEWLINE !in s
    ensures Newlines(s) == 0
  {
    if s != [] { NoNewlines(s[1..]); }
  }

  predicate EndsLine(s: CString) {
    s != [] && s[|s| - 1] == NEWLINE
  }

  lemma {:induction false} LineInside(s: CString, rest: CString, limit: nat)
    requires EndsLine(s)
    ensures LineLength(s + rest, limit) == LineLength(s, limit)
  {
    assert (s + rest)[0] == s[0];
    if limit > 0 && s[0] != NEWLINE {
      assert (s + rest)[1..] == s[1..] + rest;
      LineInside(s[1..], rest, limit - 1);
    }
  }

  /** The first line of a text that ends with a newline, if fgets can take it whole. */
  lemma {:induction false} FirstLine(s: CString, limit: nat)
    requires EndsLine(s) && (|s| <= limit || LineLength(s, limit) < limit) && limit > 0
    ensures var n := LineLength(s, limit);
            && Newlines(s) == 1 + Newlines(s[n..]) && (n < |s| ==> EndsLine(s[n..]) && Newlines(s[n..]) > 0)
            && (n == |s| ==> Newlines(s) == 1)
  {
    hide Newlines, LineLength;
    var n := LineLength(s, limit);
    LineEnds(s, limit);
    NoNewlines(s[..n - 1]);
    LastNewline(s[..n]);
    NewlinesOfSum(s[..n], s[n..]);
    assert s[..n][..n - 1] == s[..n - 1] && s == s[..n] + s[n..];
    if n < |s| {
      LastNewline(s[n..]);
    } else {
      NoNewlines(s[n..]);
    }
  }

  lemma {:induction false} LastNewline(s: CString)
    requires EndsLine(s)
    ensures Newlines(s) == Newlines(s[..|s| - 1]) + 1
  {
    NewlinesOfSum(s[..|s| - 1], [NEWLINE]);
    assert s == s[..|s| - 1] + [NEWLINE];
  }

  lemma {:induction false} LineEnds(s: CString, limit: nat)
    requires EndsLine(s) && (|s| <= limit || LineLength(s, limit) < limit) && limit > 0
    ensures LineLength(s, limit) > 0 && s[LineLength(s, limit) - 1] == NEWLINE
  {
    if s[0] != NEWLINE {
      LineEnds(s[1..], limit - 1);
    }
  }

  /** A text of whole lines that fits the buffer joins what is there; the last missing line completes a message. */
  lemma {:induction false} LinesJoin(s: CString, rest: CString, total: int, left: int, temp: CString)
    requires EndsLine(s) && Newlines(s) <= left && |temp| + |s| < MSG_BUFF_SIZE
    ensures Regroup(s + rest, total, left, temp) ==
            if Newlines(s) == left then Before(temp + s, Regroup(rest, total, total, []))
            else Regroup(rest, total, left - Newlines(s), temp + s)
    decreases |s|
  {
    hide Regroup, Newlines, LineLength;
    var n := LineLength(s, MSG_BUFF_SIZE - 1);
    RegroupFirst(s, rest, total, left, temp);
    FirstLine(s, MSG_BUFF_SIZE - 1);
    if n == |s| {
      assert s[n..] + rest == rest && s[..n] == s;
    } else {
      LinesJoin(s[n..], rest, total, left - 1, temp + s[..n]);
      assert temp + s[..n] + s[n..] == temp + s;
    }
  }

  /** The round that takes the first line of `s`. */
  lemma {:induction false} RegroupFirst(s: CString, rest: CString, total: int, left: int, temp: CString)
    requires EndsLine(s)
    ensures var n := LineLength(s, MSG_BUFF_SIZE - 1);
            Regroup(s + rest, total, left, temp) ==
               if |temp| + n >= MSG_BUFF_SIZE then Outcome([], true)
               else if left == 1 then Before(temp + s[..n], Regroup(s[n..] + rest, total, total, []))
               else Regroup(s[n..] + rest, total, left - 1, temp + s[..n])
  {
    hide Regroup, LineLength, Before;
    var n, file := LineLength(s, MSG_BUFF_SIZE - 1), s + rest;
    LineInside(s, rest, MSG_BUFF_SIZE - 1);
    RegroupAt(file, 0, total, left, temp);
    assert file[0..] == file && file[0..n] == s[..n] && file[n..] == s[n..] + rest;
  }

  /** A text of too many bytes overruns the buffer before its lines are all in. */
  lemma {:induction false} LinesOverrun(s: CString, rest: CString, total: int, left: int, temp: CString)
    requires EndsLine(s) && Newlines(s) <= left && |temp| + |s| >= MSG_BUFF_SIZE > |temp|
    requires temp != [] || LineLength(s, MSG_BUFF_SIZE - 1) < MSG_BUFF_SIZE - 1
    ensures Regroup(s + rest, total, left, temp) == Outcome([], true)
    decreases |s|
  {
    hide Regroup, Newlines, LineLength;
    var n := LineLength(s, MSG_BUFF_SIZE - 1);
    RegroupFirst(s, rest, total, left, temp);
    if |temp| + n < MSG_BUFF_SIZE {
      FirstLine(s, MSG_BUFF_SIZE - 1);
      LinesOverrun(s[n..], rest, total, left - 1, temp + s[..n]);
    }
  }

  // ---- the text of a record ----

  /** An object whose members are all strings. */
  predicate Flat(record: seq<Member>) {
    forall m :: m in record ==> m.value.Str?
  }

  /** What is stored for a record, and what has to be sent for it: its formatted text and a newline. */
  function Message(record: seq<Member>): CString
    requires PrintableMembers(record)
  {
    Text(Obj(record), true, 0) + [NEWLINE]
  }

  predicate Fits(record: seq<Member>)
    requires PrintableMembers(record)
  {
    |Text(Obj(record), true, 0)| + 2 <= MSG_BUFF_SIZE
  }

  lemma {:induction false} FlatIsPrintable(record: seq<Member>)
    requires Flat(record)
    ensures PrintableMembers(record) && NestingOfMembers(record) == 0
  {
    if record != [] {
      assert record[0] in record;
      FlatIsPrintable(record[1..]);
    }
  }

  /** Escaping leaves no newline in a string, whatever the string holds. */
  lemma {:induction false} EscapedOnOneLine(s: CString)
    ensures NEWLINE !in Escape(s)
  {
    if s != [] { EscapedOnOneLine(s[1..]); }
  }

  lemma {:induction false} QuotedOnOneLine(s: CString)
    ensures Newlines(Quoted(s)) == 0
  {
    EscapedOnOneLine(s);
    NoNewlines(Quoted(s));
  }

  lemma {:induction false} MemberOnOneLine(m: Member, more: bool, depth: nat)
    requires m.value.Str?
    ensures Newlines(MemberText(m, more, true, depth)) == 1
  {
    hide Escape, Quoted;
    QuotedOnOneLine(m.key);
    QuotedOnOneLine(m.value.s);
    NoNewlines(Tabs(depth));
    NoNewlines([COLON]);
    NoNewlines([TAB]);
    NewlinesOfSum(Tabs(depth), Quoted(m.key));
    NewlinesOfSum(Tabs(depth) + Quoted(m.key), [COLON]);
    NewlinesOfSum(Tabs(depth) + Quoted(m.key) + [COLON], [TAB]);
    NewlinesOfSum(KeyText(m.key, true, depth), Quoted(m.value.s));
    NoNewlines([COMMA]);
    NewlinesOfSum(if more then [COMMA] else [], [NEWLINE]);
    NewlinesOfSum(KeyText(m.key, true, depth) + Quoted(m.value.s), AfterMember(more, true));
  }

  lemma {:induction false} MembersOneLineEach(record: seq<Member>, depth: nat)
    requires Flat(record) && PrintableMembers(record)
    ensures Newlines(MembersText(record, true, depth)) == |record|
  {
    hide MemberText;
    if record != [] {
      assert record[0] in record;
      MemberOnOneLine(record[0], record[1..] != [], depth);
      MembersOneLineEach(record[1..], depth);
      NewlinesOfSum(MemberText(record[0], record[1..] != [], true, depth), MembersText(record[1..], true, depth));
    }
  }

  /** A stored record of n string members takes exactly n + 2 lines. */
  lemma {:induction false} RecordLines(record: seq<Member>)
    requires Flat(record) && PrintableMembers(record)
    ensures Newlines(Message(record)) == |record| + 2 && EndsLine(Message(record))
    ensures LineLength(Message(record), MSG_BUFF_SIZE - 1) == 2
  {
    hide MembersText, Text, Newlines, LineLength, Message;
    var body := MembersText(record, true, 1);
    MessageParts(record);
    MembersOneLineEach(record, 1);
    NewlinesOfSum([LBRACE, NEWLINE], body);
    NewlinesOfSum([LBRACE, NEWLINE] + body, [RBRACE, NEWLINE]);
    NewlinesOfTwo();
    ShortFirstLine(Message(record));
  }

  lemma {:induction false} MessageParts(record: seq<Member>)
    requires PrintableMembers(record)
    ensures Message(record) == [LBRACE, NEWLINE] + MembersText(record, true, 1) + [RBRACE, NEWLINE]
  {
    hide MembersText, Text;
    UnfoldObject(record, true, 0);
  }

  lemma {:induction false} ShortFirstLine(s: CString)
    requires |s| >= 2 && s[0] == LBRACE && s[1] == NEWLINE
    ensures LineLength(s, MSG_BUFF_SIZE - 1) == 2
  {
    assert s[1..][0] == NEWLINE;
  }

  lemma {:induction false} NewlinesOfTwo()
    ensures Newlines([LBRACE, NEWLINE]) == 1 && Newlines([RBRACE, NEWLINE]) == 1
  {
    NewlinesOfSum([LBRACE], [NEWLINE]);
    NewlinesOfSum([RBRACE], [NEWLINE]);
    assert [LBRACE, NEWLINE] == [LBRACE] + [NEWLINE] && [RBRACE, NEWLINE] == [RBRACE] + [NEWLINE];
  }

  // ---- the whole file ----

  predicate FlatRecords(records: seq<seq<Member>>) {
    forall i :: 0 <= i < |records| ==> Flat(records[i]) && PrintableMembers(records[i])
  }

  /** Records of `n` string members each. */
  predicate Records(records: seq<seq<Member>>, n: nat) {
    FlatRecords(records) && forall i :: 0 <= i < |records| ==> |records[i]| == n
  }

  /** The file after these records were appended to it. */
  function Stored(records: seq<seq<Member>>): CString
    requires FlatRecords(records)
  {
    if records == [] then [] else Message(records[0]) + Stored(records[1..])
  }

  /** One more record in the file is what one more call of Append leaves there. */
  lemma {:induction false} StoredOneMore(records: seq<seq<Member>>, record: seq<Member>)
    requires FlatRecords(records) && Flat(record) && PrintableMembers(record)
    ensures FlatRecords(records + [record])
    ensures Stored(records + [record]) == Stored(records) + Text(Obj(record), true, 0) + [NEWLINE]
  {
    hide Flat, PrintableMembers, Text;
    var all := records + [record];
    if records == [] {
      assert all[1..] == [] && Stored(all) == Message(record) + [];
    } else {
      assert all[0] == records[0] && all[1..] == records[1..] + [record];
      StoredOneMore(records[1..], record);
    }
  }

  function Messages(records: seq<seq<Member>>): (ms: seq<CString>)
    requires FlatRecords(records)
    ensures |ms| == |records| && forall i :: 0 <= i < |ms| ==> ms[i] == Message(records[i])
  {
    seq(|records|, i requires 0 <= i < |records| => Message(records[i]))
  }

  /** How many records come before the first that is too long. */
  function FittingPrefix(records: seq<seq<Member>>): (k: nat)
    requires FlatRecords(records)
    ensures k <= |records| && (forall i :: 0 <= i < k ==> Fits(records[i])) && (k < |records| ==> !Fits(records[k]))
  {
    if records == [] || !Fits(records[0]) then 0 else 1 + FittingPrefix(records[1..])
  }

  /**
   * With n + 2 lines to a message, exactly the stored records are sent, in order, up to the first one whose text
   * leaves less than two bytes of the buffer free; there the buffer is overrun. No record is ever cut or merged.
   */
  lemma {:induction false} StoredRecordsAreResent(records: seq<seq<Member>>, n: nat)
    requires Records(records, n)
    ensures var k := FittingPrefix(records);
            Regroup(Stored(records), n + 2, n + 2, []) == Outcome(Messages(records[..k]), k < |records|)
    decreases |records|
  {
    hide Message, Fits, Flat, PrintableMembers, Regroup;
    if records == [] {
      NothingStored(n + 2);
    } else {
      StoredRecord(records, n);
      if Fits(records[0]) {
        StoredRecordsAreResent(records[1..], n);
        var k := FittingPrefix(records[1..]);
        FirstOfMessages(records[..k + 1]);
        assert records[..k + 1][1..] == records[1..][..k];
      }
    }
  }

  lemma {:induction false} NothingStored(total: int)
    ensures Regroup([], total, total, []) == Outcome([], false)
  {
  }

  lemma {:induction false} StoredRecord(records: seq<seq<Member>>, n: nat)
    requires records != [] && FlatRecords(records) && |records[0]| == n
    ensures Regroup(Stored(records), n + 2, n + 2, []) ==
            if Fits(records[0]) then Before(Message(records[0]), Regroup(Stored(records[1..]), n + 2, n + 2, []))
            else Outcome([], true)
  {
    hide Flat, PrintableMembers, Regroup, Text;
    var s, rest := Message(records[0]), Stored(records[1..]);
    RecordLines(records[0]);
    if Fits(records[0]) {
      LinesJoin(s, rest, n + 2, n + 2, []);
      assert [] + s == s;
    } else {
      LinesOverrun(s, rest, n + 2, n + 2, []);
    }
  }

  // ---- any file ----

  function Joined(messages: seq<CString>): CString {
    if messages == [] then [] else messages[0] + Joined(messages[1..])
  }

  /**
   * Whatever is in the file: the messages are cut from it in order, from its start on and without a gap, none of them
   * has 500 bytes or more, and what is lost when the file is emptied has fewer lines than a message.
   */
  lemma {:induction false} MessagesAreCutInOrder(file: CString, total: int)
    requires total > 0
    ensures var o := Regroup(file, total, total, []);
            && |Joined(o.messages)| <= |file| && Joined(o.messages) == file[..|Joined(o.messages)|]
            && (forall i :: 0 <= i < |o.messages| ==> |o.messages[i]| < 500)
            && (!o.overflow ==> Newlines(file[|Joined(o.messages)|..]) < total)
  {
    CutInOrder(file, total, total, []);
    assert [] + file == file;
  }

  lemma {:induction false} CutInOrder(file: CString, total: int, left: int, temp: CString)
    requires total > 0 && left > 0 && Newlines(temp) + left <= total
    ensures var o, all := Regroup(file, total, left, temp), temp + file;
            && |Joined(o.messages)| <= |all| && Joined(o.messages) == all[..|Joined(o.messages)|]
            && (forall i :: 0 <= i < |o.messages| ==> |o.messages[i]| < 500)
            && (!o.overflow ==> Newlines(all[|Joined(o.messages)|..]) < total)
    decreases |file|
  {
    hide Newlines, LineLength;
    if file == [] {
      assert temp + file == temp && temp[0..] == temp;
    } else {
      var n := LineLength(file, MSG_BUFF_SIZE - 1);
      var temp1, rest := temp + file[..n], file[n..];
      OneLine(file, MSG_BUFF_SIZE - 1);
      NewlinesOfSum(temp, file[..n]);
      assert temp + file == temp1 + rest;
      if |temp1| < MSG_BUFF_SIZE {
        if left - 1 == 0 {
          NoNewlines([]);
          CutInOrder(rest, total, total, []);
          OneMessage(temp1, rest, Regroup(rest, total, total, []).messages);
        } else {
          CutInOrder(rest, total, left - 1, temp1);
        }
      }
    }
  }

  lemma {:induction false} OneMessage(m: CString, rest: CString, messages: seq<CString>)
    requires |Joined(messages)| <= |rest| && Joined(messages) == ([] + rest)[..|Joined(messages)|]
    ensures var all, cut := m + rest, Joined([m] + messages);
            cut == all[..|cut|] && all[|cut|..] == ([] + rest)[|Joined(messages)|..]
  {
    assert ([m] + messages)[1..] == messages;
    assert [] + rest == rest;
  }

  // ---- when the framing is right ----

  /** A message is longer than what had been gathered of it. */
  lemma {:induction false} FirstMessageGrows(file: CString, total: int, left: int, temp: CString)
    ensures var o := Regroup(file, total, left, temp); o.messages != [] ==> |o.messages[0]| > |temp|
    decreases |file|
  {
    if file != [] {
      var n := LineLength(file, MSG_BUFF_SIZE - 1);
      if |temp + file[..n]| < MSG_BUFF_SIZE && left - 1 != 0 {
        FirstMessageGrows(file[n..], total, left - 1, temp + file[..n]);
      }
    }
  }

  /** It has no more newlines than lines were missing, and there is none if none was missing to begin with. */
  lemma {:induction false} FirstMessageLines(file: CString, total: int, left: int, temp: CString)
    ensures var o := Regroup(file, total, left, temp);
            o.messages != [] ==> left > 0 && Newlines(o.messages[0]) <= Newlines(temp) + left
    decreases |file|
  {
    hide Newlines, LineLength;
    if file != [] {
      var n := LineLength(file, MSG_BUFF_SIZE - 1);
      var temp1 := temp + file[..n];
      OneLine(file, MSG_BUFF_SIZE - 1);
      NewlinesOfSum(temp, file[..n]);
      if |temp1| < MSG_BUFF_SIZE && left - 1 != 0 {
        FirstMessageLines(file[n..], total, left - 1, temp1);
      }
    }
  }

  lemma {:induction false} OneLine(file: CString, limit: nat)
    requires file != [] && limit > 0
    ensures LineLength(file, limit) > 0 && Newlines(file[..LineLength(file, limit)]) <= 1
  {
    hide Newlines, LineLength;
    var n := LineLength(file, limit);
    assert file[..n] == file[..n - 1] + [file[n - 1]];
    NewlinesOfSum(file[..n - 1], [file[n - 1]]);
    NoNewlines(file[..n - 1]);
    NewlinesOfByte(file[n - 1]);
  }

  lemma {:induction false} NewlinesOfByte(c: CByte)
    ensures Newlines([c]) <= 1
  {
  }

  /** If the first record has another number of lines, the first message is not its text. */
  lemma {:induction false} WrongCount(records: seq<seq<Member>>, total: int)
    requires records != [] && FlatRecords(records) && |records[0]| + 2 != total
    ensures var o := Regroup(Stored(records), total, total, []);
            o.messages != [] ==> o.messages[0] != Message(records[0])
  {
    hide Flat, PrintableMembers, Regroup, Text, Message;
    var s, rest := Message(records[0]), Stored(records[1..]);
    RecordLines(records[0]);
    if total < |records[0]| + 2 {
      FirstMessageLines(Stored(records), total, total, []);
    } else if |s| < MSG_BUFF_SIZE {
      LinesJoin(s, rest, total, total, []);
      assert [] + s == s;
      FirstMessageGrows(rest, total, total - Newlines(s), s);
    } else {
      LinesOverrun(s, rest, total, total, []);
    }
  }

  /**
   * The messages sent are the records stored, and nothing is overrun, exactly when every record has the number of
   * lines counted for it and fits the buffer. One record with a member less shifts the framing.
   */
  lemma {:induction false} FramingIsExact(records: seq<seq<Member>>, total: int)
    requires FlatRecords(records)
    ensures Regroup(Stored(records), total, total, []) == Outcome(Messages(records), false) <==>
            forall i :: 0 <= i < |records| ==>
              |records[i]| + 2 == total && |Text(Obj(records[i]), true, 0)| <= 498
    decreases |records|
  {
    hide Message, Text, Flat, PrintableMembers, Regroup;
    if records == [] {
      NothingStored(total);
    } else if |records[0]| + 2 != total {
      WrongCount(records, total);
      assert Messages(records)[0] == Message(records[0]);
    } else {
      StoredRecord(records, total - 2);
      FramingIsExact(records[1..], total);
      FirstOfMessages(records);
      assert forall i :: 1 <= i < |records| ==> records[i] == records[1..][i - 1];
    }
  }

  lemma {:induction false} FirstOfMessages(records: seq<seq<Member>>)
    requires records != [] && FlatRecords(records)
    ensures Messages(records) == [Message(records[0])] + Messages(records[1..])
    ensures Messages(records)[1..] == Messages(records[1..])
  {
    hide Message, Flat, PrintableMembers;
  }

  /** The server parses every message back to the record it was, whatever the strings hold. */
  lemma {:induction false} MessageParsesBack(record: seq<Member>)
    requires Flat(record) && PrintableMembers(record)
    ensures ReadText(Message(record), false) == Some(ReadTree(Obj(record), |Message(record)| - 1))
    ensures ReadText(Message(record), true).Some? && ReadText(Message(record), true).value.value == Obj(record)
  {
    hide ReadValue, Text;
    FlatIsPrintable(record);
    var text, t := Message(record), Obj(record);
    var n := |Text(t, true, 0)|;
    TextStart(t, true, 0);
    assert Has(text, 0, Text(t, true, 0)) by { assert text[0..n] == Text(t, true, 0); }
    ValueRoundTrip(t, true, 0, 0, text, 0);
  }

  // ---- the four kinds of records ----

  datatype RecordKind = Memory | Cpu | Disk | System

  /** mem_lines, cpu_lines, disk_lines and sys_lines */
  function LinesOf(kind: RecordKind): int {
    match kind
    case Memory => 7
    case Cpu => 9
    case Disk => 7
    case System => 17
  }

  /**
   * cJSON_AddStringToObject for each key in turn: where strtok found no more token the value is NULL, and no member
   * is added.
   */
  function Record(keys: seq<CString>, tokens: seq<Option<CString>>): (record: seq<Member>)
    requires |keys| == |tokens|
  {
    if keys == [] then []
    else (if tokens[0].None? then [] else [Member(keys[0], Str(tokens[0].value))]) + Record(keys[1..], tokens[1..])
  }

  lemma {:induction false} RecordIsFlat(keys: seq<CString>, tokens: seq<Option<CString>>)
    requires |keys| == |tokens|
    ensures Flat(Record(keys, tokens)) && PrintableMembers(Record(keys, tokens)) && |Record(keys, tokens)| <= |keys|
    ensures |Record(keys, tokens)| == |keys| <==> None !in tokens
  {
    if keys != [] {
      RecordIsFlat(keys[1..], tokens[1..]);
      assert tokens == [tokens[0]] + tokens[1..];
    }
    FlatIsPrintable(Record(keys, tokens));
  }

  function Present(tokens: seq<Option<CString>>): nat {
    if tokens == [] then 0 else (if tokens[0].Some? then 1 else 0) + Present(tokens[1..])
  }

  /** Every token that is there makes a member of its own, under its own key, in order; and nothing else does. */
  lemma {:induction false} RecordHolds(keys: seq<CString>, tokens: seq<Option<CString>>, i: nat)
    requires i < |keys| == |tokens|
    ensures |Record(keys, tokens)| == Present(tokens)
    ensures tokens[i].Some? ==>
              && Present(tokens[..i]) < |Record(keys, tokens)|
              && Record(keys, tokens)[Present(tokens[..i])] == Member(keys[i], Str(tokens[i].value))
  {
    if i > 0 {
      RecordHolds(keys[1..], tokens[1..], i - 1);
      assert tokens[..i][1..] == tokens[1..][..i - 1];
    } else if |keys| > 1 {
      RecordHolds(keys[1..], tokens[1..], 0);
    } else {
      assert keys[1..] == [] && tokens[1..] == [];
    }
  }

  /** The file of the client after it failed to send what these rows of tokens say. */
  ghost predicate FromTokens(records: seq<seq<Member>>, keys: seq<CString>, rows: seq<seq<Option<CString>>>) {
    && |records| == |rows|
    && forall i :: 0 <= i < |rows| ==> |rows[i]| == |keys| && records[i] == Record(keys, rows[i])
  }

  /**
   * Each kind is resent with its own line count. The records go out as they were stored exactly when no token was
   * missing from any of them and all of them fit the buffer; each then parses back to what the client had to say.
   */
  lemma {:induction false} EveryKindIsResent(kind: RecordKind, records: seq<seq<Member>>, keys: seq<CString>,
                                             rows: seq<seq<Option<CString>>>)
    requires |keys| == (match kind case Memory => 5 case Cpu => 7 case Disk => 5 case System => 15)
    requires FromTokens(records, keys, rows)
    ensures FlatRecords(records)
    ensures Regroup(Stored(records), LinesOf(kind), LinesOf(kind), []) == Outcome(Messages(records), false) <==>
            forall i :: 0 <= i < |records| ==> None !in rows[i] && |Text(Obj(records[i]), true, 0)| <= 498
    ensures forall i :: 0 <= i < |records| ==>
              var r := ReadText(Messages(records)[i], false); r.Some? && r.value.value == Obj(records[i])
  {
    hide Record, Flat, PrintableMembers, Text, Regroup, Message, ReadText;
    forall i | 0 <= i < |records|
      ensures Flat(records[i]) && PrintableMembers(records[i])
      ensures |records[i]| + 2 == LinesOf(kind) <==> None !in rows[i]
    {
      RecordIsFlat(keys, rows[i]);
    }
    FramingIsExact(records, LinesOf(kind));
    forall i | 0 <= i < |records|
      ensures var r := ReadText(Messages(records)[i], false); r.Some? && r.value.value == Obj(records[i])
    {
      MessageParsesBack(records[i]);
    }
  }
}
