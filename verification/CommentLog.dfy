/**
 * The analysis loop's bookkeeping in main.py: which model replies are logged,
 * how one reply becomes a `<comment>` line spliced into the pseudo-XML log
 * file, the write counter, and the two small pass-throughs around the model
 * call. The file is its content (or its absence); the clock reading and any
 * exception raised while writing are parameters.
 */
module CommentLog {
  import opened Text
  import opened Wrappers

  // ---------------------------------------------------------------------
  // The logging gate
  // ---------------------------------------------------------------------

  /** The condition guarding `write_to_xml_log` in `run_continuous_analysis`. */
  predicate ShouldLog(response: string) {
    !HasSubstring(response, "none") && !HasSubstring(response, "None") && Strip(response) != ""
  }

  /** A reply is logged exactly when it contains neither "none" nor "None" as
      a substring and has a character that is not whitespace. */
  lemma ShouldLogIff(response: string)
    ensures ShouldLog(response) <==>
      !Contains(response, "none") && !Contains(response, "None") &&
      exists i :: 0 <= i < |response| && !IsSpace(response[i])
  {
    HasSubstringIsContains(response, "none");
    HasSubstringIsContains(response, "None");
    StripEmptyIffBlank(response);
  }

  /** The test is case-sensitive: an upper-case "NONE" reply is logged, while
      any reply with "none" inside it is not. */
  lemma GateIsCaseSensitive(a: string, b: string)
    ensures ShouldLog("NONE")
    ensures !ShouldLog(a + "none" + b)
  {
    ShouldLogIff("NONE");
    AbsentByMissingChar("NONE", "none", 'n');
    AbsentByMissingChar("NONE", "None", 'o');
    assert !IsSpace("NONE"[0]);
    ShouldLogIff(a + "none" + b);
    assert Occurs(a + "none" + b, "none", |a|) by {
      assert (a + "none" + b)[|a|..|a| + 4] == "none";
    }
  }

  // ---------------------------------------------------------------------
  // The log file
  // ---------------------------------------------------------------------

  const XmlDeclaration: string := "<?xml version=\"1.0\" encoding=\"utf-8\"?>"
  const LogOpen: string := "\n<log>\n"
  const CloseTag: string := "</log>"

  /** The skeleton written when the file does not exist. */
  const Skeleton: string := XmlDeclaration + LogOpen + CloseTag

  const EntryStart: string := "  <comment no=\"0\" time=\""
  const EntryAttributes: string := "\" owner=\"0\" service=\"youtubelive\"" + " handle=\"安全bot\">"
  const EntryEnd: string := "</comment>"

  /** The `<comment>` line for a reply at a UNIX time; the reply is inserted
      as it is, with no XML escaping. */
  function EntryLine(time: int, text: string): string {
    EntryStart + SignedDecimal(time) + EntryAttributes + text + EntryEnd
  }

  /** Reads back the digits of a time written by `SignedDecimal`. */
  function ReadTime(s: string): Option<int> {
    if |s| > 1 && s[0] == '-' && AllDigits(s[1..]) then Some(0 - ParseDecimal(s[1..]) as int)
    else if |s| > 0 && AllDigits(s) then Some(ParseDecimal(s))
    else None
  }

  lemma ReadTimeInverts(n: int)
    ensures ReadTime(SignedDecimal(n)) == Some(n)
  {
    var s := SignedDecimal(n);
    if n < 0 {
      assert s[1..] == Decimal(-n);
      ParseDecimalInverts(-n);
    } else {
      ParseDecimalInverts(n);
    }
  }

  /** Decodes one `<comment>` line into its time and text: the time runs up to
      the first `"` after `time="`, and the text is everything between the
      attributes and `</comment>`. */
  function ParseEntry(line: string): Option<(int, string)> {
    if |line| < |EntryStart| + |EntryEnd| || line[..|EntryStart|] != EntryStart
       || line[|line| - |EntryEnd|..] != EntryEnd then None
    else
      var rest := line[|EntryStart|..|line| - |EntryEnd|];
      var k := FirstIndexOf(rest, '"');
      if !IsPrefix(EntryAttributes, rest[k..]) then None
      else
        match ReadTime(rest[..k])
        case None => None
        case Some(t) => Some((t, rest[k + |EntryAttributes|..]))
  }

  /** The framing of a line built as `a + n + b + x + e`. */
  lemma SplitFrame(a: string, n: string, b: string, x: string, e: string)
    ensures (a + n + b + x + e)[..|a|] == a
    ensures (a + n + b + x + e)[|a + n + b + x + e| - |e|..] == e
    ensures (a + n + b + x + e)[|a|..|a + n + b + x + e| - |e|] == n + (b + x)
  {
    var s := a + n + b + x + e;
    assert s == a + (n + (b + x)) + e;
  }

  /** The split of the inner part `n + (b + x)` at the end of `n`. */
  lemma SplitInner(n: string, b: string, x: string)
    ensures (n + (b + x))[..|n|] == n
    ensures (n + (b + x))[|n|..] == b + x
    ensures (n + (b + x))[|n| + |b|..] == x
  {
  }

  /** An entry line decodes back to its time and its text, unchanged: the text
      is written without escaping and nothing else in the line is mistaken for
      it. */
  lemma EntryLineRoundTrip(time: int, text: string)
    ensures ParseEntry(EntryLine(time, text)) == Some((time, text))
  {
    var num := SignedDecimal(time);
    var line := EntryLine(time, text);
    SplitFrame(EntryStart, num, EntryAttributes, text, EntryEnd);
    var rest := line[|EntryStart|..|line| - |EntryEnd|];
    assert rest == num + (EntryAttributes + text);
    assert EntryAttributes[0] == '"';
    assert '"' !in num;
    FirstIndexAfter(num, EntryAttributes + text, '"');
    SplitInner(num, EntryAttributes, text);
    assert rest[|num|..][..|EntryAttributes|] == EntryAttributes;
    ReadTimeInverts(time);
  }

  /** `content.replace('</log>', entry + '\n</log>')`. */
  function Insert(content: string, entry: string): string {
    ReplaceAll(content, CloseTag, entry + "\n" + CloseTag)
  }

  lemma CloseTagEndsUnique()
    ensures EndsUnique(CloseTag)
  {
  }

  /** Every closing tag gets its own copy of the entry: the first one is
      rewritten and the search resumes after it. */
  lemma InsertBeforeEach(a: string, b: string, entry: string)
    requires !Contains(a, CloseTag)
    ensures Insert(a + CloseTag + b, entry) == a + entry + "\n" + CloseTag + Insert(b, entry)
  {
    CloseTagEndsUnique();
    ReplaceFirst(a, CloseTag, b, entry + "\n" + CloseTag);
  }

  /** With one closing tag the entry and a newline land just before it and
      nothing else changes. */
  lemma InsertSingle(a: string, b: string, entry: string)
    requires !Contains(a, CloseTag) && !Contains(b, CloseTag)
    ensures Insert(a + CloseTag + b, entry) == a + entry + "\n" + CloseTag + b
  {
    CloseTagEndsUnique();
    ReplaceSingle(a, CloseTag, b, entry + "\n" + CloseTag);
    assert a + (entry + "\n" + CloseTag) + b == a + entry + "\n" + CloseTag + b;
  }

  /** Without a closing tag the content is rewritten unchanged. */
  lemma InsertWithoutTag(content: string, entry: string)
    requires !Contains(content, CloseTag)
    ensures Insert(content, entry) == content
  {
    ReplaceAbsent(content, CloseTag, entry + "\n" + CloseTag);
  }

  /** The log file on disk: missing, or holding `content` as stored, with the
      line separators a text-mode write put there. */
  datatype LogFile = Absent | Present(content: string)

  /** The log file and `comment_counter`, which starts at 0. */
  datatype Logger = Logger(file: LogFile, counter: nat)

  const InitialLogger: Logger := Logger(Absent, 0)

  /** Whether `write_to_xml_log` ran to the end, or raised somewhere (while
      seeding, reading or rewriting the file) and left the file as `left`. */
  datatype Fault = NoFault | Raised(left: LogFile)

  /** The text read back after the seeding step: a text-mode read of the
      stored content, or of the skeleton when the file was missing. */
  function Seeded(file: LogFile): (content: string)
    ensures '\r' !in content
    ensures file.Absent? ==> content == Skeleton
    ensures file.Present? ==> content == ReadNewlines(file.content)
  {
    match file
    case Absent => SkeletonFree(); Skeleton
    case Present(stored) => ReadNewlines(stored)
  }

  /** The skeleton holds no carriage return. */
  lemma SkeletonFree()
    ensures '\r' !in Skeleton
  {
    assert Skeleton == XmlDeclaration + LogOpen + CloseTag;
  }

  /** Seeding writes the skeleton in text mode, and reading it back gives the
      skeleton on either platform: that is the `Absent` case of `Seeded`. */
  lemma SkeletonReadsBack(nl: Newline)
    ensures Settle(nl, Skeleton) == Seeded(Absent)
  {
    SkeletonFree();
    WriteThenRead(nl, Skeleton);
  }

  /** `write_to_xml_log` with the clock reading `time`, on a platform whose
      line separator is `nl`. The exception handler swallows every fault, so
      the counter moves only on a completed write. */
  function WriteToXmlLog(nl: Newline, log: Logger, time: int, text: string, fault: Fault): (r: Logger)
    ensures fault.NoFault? ==> r.file == Present(WriteNewlines(nl, Insert(Seeded(log.file), EntryLine(time, text))))
    ensures fault.NoFault? ==> r.counter == log.counter + 1
    ensures fault.Raised? ==> r == Logger(fault.left, log.counter)
  {
    match fault
    case NoFault => Logger(Present(WriteNewlines(nl, Insert(Seeded(log.file), EntryLine(time, text)))), log.counter + 1)
    case Raised(left) => Logger(left, log.counter)
  }

  /** A file without a closing tag is written back with nothing inserted, only
      its line separators made the platform's own, yet the write still counts;
      a file already in `\n` form on a `\n` platform is left as it was. */
  lemma WriteWithoutTag(nl: Newline, log: Logger, time: int, text: string)
    requires log.file.Present? && !Contains(log.file.content, CloseTag)
    ensures WriteToXmlLog(nl, log, time, text, NoFault) ==
            Logger(Present(WriteNewlines(nl, ReadNewlines(log.file.content))), log.counter + 1)
    ensures nl == Lf && '\r' !in log.file.content ==>
            WriteToXmlLog(nl, log, time, text, NoFault) == Logger(log.file, log.counter + 1)
  {
    var stored := log.file.content;
    if Contains(ReadNewlines(stored), CloseTag) {
      var i :| Occurs(ReadNewlines(stored), CloseTag, i);
      ReadOccurs(stored, CloseTag, i);
    }
    InsertWithoutTag(ReadNewlines(stored), EntryLine(time, text));
    if nl == Lf && '\r' !in stored {
      ReadPlain(stored);
      WriteLf(stored);
    }
  }

  /** One pass of the analysis loop after the model replied: the reply is
      written only when the gate lets it through. */
  function LogReply(nl: Newline, log: Logger, time: int, response: string, fault: Fault): (r: Logger)
    ensures !ShouldLog(response) ==> r == log
    ensures ShouldLog(response) ==> r == WriteToXmlLog(nl, log, time, response, fault)
  {
    if ShouldLog(response) then WriteToXmlLog(nl, log, time, response, fault) else log
  }

  /** One call of `write_to_xml_log`. */
  datatype Attempt = Attempt(time: int, text: string, fault: Fault)

  /** Successive calls, oldest first. */
  function Run(nl: Newline, log: Logger, attempts: seq<Attempt>): Logger
    decreases |attempts|
  {
    if |attempts| == 0 then log
    else
      var a := attempts[|attempts| - 1];
      WriteToXmlLog(nl, Run(nl, log, attempts[..|attempts| - 1]), a.time, a.text, a.fault)
  }

  function Completed(attempts: seq<Attempt>): nat
    decreases |attempts|
  {
    if |attempts| == 0 then 0
    else Completed(attempts[..|attempts| - 1]) + (if attempts[|attempts| - 1].fault.NoFault? then 1 else 0)
  }

  /** The counter counts exactly the calls that completed. */
  lemma {:induction false} CounterCountsCompleted(nl: Newline, log: Logger, attempts: seq<Attempt>)
    ensures Run(nl, log, attempts).counter == log.counter + Completed(attempts)
    decreases |attempts|
  {
    if |attempts| > 0 {
      CounterCountsCompleted(nl, log, attempts[..|attempts| - 1]);
    }
  }

  /** The counter never decreases along a run. */
  lemma {:induction false} CounterMonotone(nl: Newline, log: Logger, attempts: seq<Attempt>, k: nat)
    requires k <= |attempts|
    ensures Run(nl, log, attempts[..k]).counter <= Run(nl, log, attempts).counter
    decreases |attempts|
  {
    if k < |attempts| {
      var prefix := attempts[..|attempts| - 1];
      assert attempts[..k] == prefix[..k];
      CounterMonotone(nl, log, prefix, k);
    } else {
      assert attempts[..k] == attempts;
    }
  }

  /** One reply to write, with its clock reading. */
  datatype Reply = Reply(time: int, text: string)

  /** The entry lines of `writes`, each followed by a newline, in order. */
  function Lines(writes: seq<Reply>): string
    decreases |writes|
  {
    if |writes| == 0 then ""
    else
      var w := writes[|writes| - 1];
      Lines(writes[..|writes| - 1]) + EntryLine(w.time, w.text) + "\n"
  }

  /** The replies as a later read of the file shows them: each text written in
      text mode and read back. */
  function Settled(nl: Newline, writes: seq<Reply>): (r: seq<Reply>)
    ensures |r| == |writes|
    ensures forall i :: 0 <= i < |writes| ==> r[i] == Reply(writes[i].time, Settle(nl, writes[i].text))
  {
    seq(|writes|, i requires 0 <= i < |writes| => Reply(writes[i].time, Settle(nl, writes[i].text)))
  }

  /** Replies without a carriage return read back as they were written. */
  lemma SettledPlain(nl: Newline, writes: seq<Reply>)
    requires forall i :: 0 <= i < |writes| ==> '\r' !in writes[i].text
    ensures Settled(nl, writes) == writes
  {
    forall i | 0 <= i < |writes|
      ensures Settled(nl, writes)[i] == writes[i]
    {
      WriteThenRead(nl, writes[i].text);
    }
  }

  /** Successive completed writes, oldest first. */
  function AppendAll(nl: Newline, log: Logger, replies: seq<Reply>): Logger
    decreases |replies|
  {
    if |replies| == 0 then log
    else
      var w := replies[|replies| - 1];
      WriteToXmlLog(nl, AppendAll(nl, log, replies[..|replies| - 1]), w.time, w.text, NoFault)
  }

  /** The fixed parts of an entry line hold no closing tag. */
  lemma EntryStartFree()
    ensures !Contains(EntryStart, CloseTag)
  {
    assert '/' in CloseTag;
    AbsentByMissingChar(EntryStart, CloseTag, '/');
  }

  lemma EntryAttributesFree()
    ensures !Contains(EntryAttributes, CloseTag)
  {
    assert '/' in CloseTag;
    AbsentByMissingChar(EntryAttributes, CloseTag, '/');
  }

  lemma EntryPartsFree(num: string)
    requires '<' !in num
    ensures !Contains(EntryStart, CloseTag) && !Contains(num, CloseTag)
    ensures !Contains(EntryAttributes, CloseTag) && !Contains(EntryEnd, CloseTag)
    ensures !Contains("\n", CloseTag)
  {
    var p := CloseTag;
    assert 'l' in p && '<' in p;
    EntryStartFree();
    AbsentByMissingChar(num, p, '<');
    EntryAttributesFree();
    AbsentByMissingChar(EntryEnd, p, 'l');
    AbsentByMissingChar("\n", p, '<');
  }

  lemma EntryFree(time: int, text: string)
    requires !Contains(text, CloseTag)
    ensures !Contains(EntryLine(time, text) + "\n", CloseTag)
  {
    var p := CloseTag;
    var num := SignedDecimal(time);
    assert '<' !in num;
    EntryPartsFree(num);
    var s1 := EntryStart + num;
    AbsentConcat(EntryStart, num, p);
    var s2 := s1 + EntryAttributes;
    AbsentConcat(s1, EntryAttributes, p);
    var s3 := s2 + text;
    AbsentConcat(s2, text, p);
    var s4 := s3 + EntryEnd;
    AbsentConcat(s3, EntryEnd, p);
    assert s4 == EntryLine(time, text);
    AbsentConcat(s4, "\n", p);
  }

  lemma XmlDeclarationFree()
    ensures !Contains(XmlDeclaration, CloseTag)
  {
    assert '/' in CloseTag;
    AbsentByMissingChar(XmlDeclaration, CloseTag, '/');
  }

  lemma HeadFree()
    ensures !Contains(XmlDeclaration + LogOpen, CloseTag)
  {
    var p := CloseTag;
    XmlDeclarationFree();
    assert '/' in p;
    AbsentByMissingChar(LogOpen, p, '/');
    AbsentConcat(XmlDeclaration, LogOpen, p);
  }

  /** The fixed parts of an entry line hold no carriage return. */
  lemma EntryPartsNoCr(time: int)
    ensures '\r' !in SignedDecimal(time)
    ensures '\r' !in EntryStart && '\r' !in EntryAttributes
    ensures '\r' !in EntryEnd && '\r' !in CloseTag
  {
    EntryStartNoCr();
    EntryAttributesNoCr();
  }

  lemma EntryStartNoCr()
    ensures '\r' !in EntryStart
  {
    assert forall i :: 0 <= i < |EntryStart| ==> EntryStart[i] != '\r';
  }

  lemma EntryAttributesNoCr()
    ensures '\r' !in EntryAttributes
  {
    var a := "\" owner=\"0\" service=\"youtubelive\"";
    var b := " handle=\"安全bot\">";
    assert forall i :: 0 <= i < |a| ==> a[i] != '\r';
    assert forall i :: 0 <= i < |b| ==> b[i] != '\r';
    assert EntryAttributes == a + b;
  }

  /** Regrouping a log text around the reply inside its newest entry. */
  lemma Regroup(body: string, start: string, num: string, attrs: string, text: string, end: string, rest: string)
    ensures body + (start + num + attrs + text + end) + rest == (body + start + num + attrs) + text + (end + rest)
  {
  }

  lemma GroupTail(a: string, b: string, c: string, d: string, e: string)
    ensures a + b + c + d + e == a + b + (c + d + e)
  {
  }

  /** Around a reply, a written-then-read file changes only in the reply: the
      rest of the text has no carriage return and the reply is followed by
      `</comment>`, not by a line feed. */
  lemma EntrySettles(nl: Newline, body: string, time: int, text: string, tail: string)
    requires '\r' !in body && '\r' !in tail
    ensures Settle(nl, body + EntryLine(time, text) + "\n" + CloseTag + tail) ==
            body + EntryLine(time, Settle(nl, text)) + "\n" + CloseTag + tail
  {
    var num := SignedDecimal(time);
    var before := body + EntryStart + num + EntryAttributes;
    var after := EntryEnd + ("\n" + CloseTag + tail);
    EntryPartsNoCr(time);
    Regroup(body, EntryStart, num, EntryAttributes, text, EntryEnd, "\n" + CloseTag + tail);
    Regroup(body, EntryStart, num, EntryAttributes, Settle(nl, text), EntryEnd, "\n" + CloseTag + tail);
    assert EntryLine(time, text) == EntryStart + num + EntryAttributes + text + EntryEnd;
    assert EntryLine(time, Settle(nl, text)) == EntryStart + num + EntryAttributes + Settle(nl, text) + EntryEnd;
    GroupTail(body, EntryLine(time, text), "\n", CloseTag, tail);
    GroupTail(body, EntryLine(time, Settle(nl, text)), "\n", CloseTag, tail);
    assert after[0] == '<';
    SettleSplice(nl, before, text, after);
  }

  /** One completed write onto a file whose one closing tag is followed by
      `tail`: the entry line lands just before the tag, and a later read shows
      the reply as written and read back. The tag stays the only one when the
      reply holds none. */
  lemma AppendOne(nl: Newline, log: Logger, body: string, tail: string, time: int, text: string)
    requires Seeded(log.file) == body + CloseTag + tail
    requires !Contains(body, CloseTag) && !Contains(tail, CloseTag)
    ensures WriteToXmlLog(nl, log, time, text, NoFault) ==
            Logger(Present(WriteNewlines(nl, body + EntryLine(time, text) + "\n" + CloseTag + tail)), log.counter + 1)
    ensures Seeded(WriteToXmlLog(nl, log, time, text, NoFault).file) ==
            body + EntryLine(time, Settle(nl, text)) + "\n" + CloseTag + tail
    ensures !Contains(text, CloseTag) ==> !Contains(body + EntryLine(time, Settle(nl, text)) + "\n", CloseTag)
  {
    InsertSingle(body, tail, EntryLine(time, text));
    assert '\r' !in body && '\r' !in tail by {
      assert forall i :: 0 <= i < |body| ==> body[i] == Seeded(log.file)[i];
      assert forall i :: 0 <= i < |tail| ==> tail[i] == Seeded(log.file)[|body| + |CloseTag| + i];
    }
    EntrySettles(nl, body, time, text, tail);
    if !Contains(text, CloseTag) {
      BodyGrowsFree(nl, body, time, text);
    }
  }

  /** Appending a settled entry line to a text free of closing tags keeps it
      free of them. */
  lemma BodyGrowsFree(nl: Newline, body: string, time: int, text: string)
    requires !Contains(body, CloseTag) && !Contains(text, CloseTag)
    ensures !Contains(body + EntryLine(time, Settle(nl, text)) + "\n", CloseTag)
  {
    var line := EntryLine(time, Settle(nl, text)) + "\n";
    SettleKeepsAbsent(nl, text, CloseTag);
    EntryFree(time, Settle(nl, text));
    assert line[0] == ' ' && ' ' !in CloseTag[1..];
    AbsentConcat(body, line, CloseTag);
    assert body + line == body + EntryLine(time, Settle(nl, text)) + "\n";
  }

  /** `head` followed by the entry lines of `writes`, grouped the way the
      successive writes build it. */
  function Body(head: string, writes: seq<Reply>): string
    decreases |writes|
  {
    if |writes| == 0 then head
    else
      var w := writes[|writes| - 1];
      Body(head, writes[..|writes| - 1]) + EntryLine(w.time, w.text) + "\n"
  }

  lemma {:induction false} BodyIsHeadLines(head: string, writes: seq<Reply>)
    ensures Body(head, writes) == head + Lines(writes)
    decreases |writes|
  {
    if |writes| > 0 {
      var prefix := writes[..|writes| - 1];
      var w := writes[|writes| - 1];
      BodyIsHeadLines(head, prefix);
      SeqAssoc3(head, Lines(prefix), EntryLine(w.time, w.text), "\n");
    }
  }

  /** The last write of a run extends the settled body by its own entry. */
  lemma SettledStep(nl: Newline, head: string, writes: seq<Reply>)
    requires |writes| > 0
    ensures Body(head, Settled(nl, writes)) ==
            Body(head, Settled(nl, writes[..|writes| - 1])) +
            EntryLine(writes[|writes| - 1].time, Settle(nl, writes[|writes| - 1].text)) + "\n"
  {
    var all := Settled(nl, writes);
    assert all[..|writes| - 1] == Settled(nl, writes[..|writes| - 1]);
  }

  /**
   * Completed writes onto a file that reads as `head`, its one closing tag,
   * then `tail`: the entries go, in order, between `head` and the tag, the
   * newest exactly as given, and the next read shows every reply written and
   * read back. The counter grows by the number of writes.
   */
  lemma {:induction false} AppendsOnto(nl: Newline, log: Logger, head: string, tail: string, writes: seq<Reply>)
    requires Seeded(log.file) == head + CloseTag + tail
    requires !Contains(head, CloseTag) && !Contains(tail, CloseTag)
    requires forall i :: 0 <= i < |writes| ==> !Contains(writes[i].text, CloseTag)
    ensures |writes| > 0 ==>
      var w := writes[|writes| - 1];
      AppendAll(nl, log, writes).file ==
        Present(WriteNewlines(nl, Body(head, Settled(nl, writes[..|writes| - 1])) + EntryLine(w.time, w.text) + "\n" + CloseTag + tail))
    ensures AppendAll(nl, log, writes).counter == log.counter + |writes|
    ensures Seeded(AppendAll(nl, log, writes).file) == Body(head, Settled(nl, writes)) + CloseTag + tail
    ensures !Contains(Body(head, Settled(nl, writes)), CloseTag)
    decreases |writes|
  {
    if |writes| > 0 {
      var prefix := writes[..|writes| - 1];
      var w := writes[|writes| - 1];
      forall i | 0 <= i < |prefix|
        ensures !Contains(prefix[i].text, CloseTag)
      {
        assert prefix[i] == writes[i];
      }
      AppendsOnto(nl, log, head, tail, prefix);
      AppendOne(nl, AppendAll(nl, log, prefix), Body(head, Settled(nl, prefix)), tail, w.time, w.text);
      SettledStep(nl, head, writes);
    } else {
      assert Settled(nl, writes) == [];
    }
  }

  /**
   * From a missing file, completed writes of replies without a closing tag
   * leave the skeleton with the entries, in the order written, before its one
   * `</log>`, and the counter advanced by their number. A later read shows
   * each reply written and read back; replies without a carriage return are
   * on disk exactly as given, in the platform's line separators.
   */
  lemma AppendsFromMissing(nl: Newline, counter: nat, writes: seq<Reply>)
    requires forall i :: 0 <= i < |writes| ==> !Contains(writes[i].text, CloseTag)
    ensures AppendAll(nl, Logger(Absent, counter), writes).counter == counter + |writes|
    ensures Seeded(AppendAll(nl, Logger(Absent, counter), writes).file) ==
            XmlDeclaration + LogOpen + Lines(Settled(nl, writes)) + CloseTag
    ensures |writes| > 0 && (forall i :: 0 <= i < |writes| ==> '\r' !in writes[i].text) ==>
            AppendAll(nl, Logger(Absent, counter), writes).file ==
            Present(WriteNewlines(nl, XmlDeclaration + LogOpen + Lines(writes) + CloseTag))
    ensures !Contains(XmlDeclaration + LogOpen + Lines(Settled(nl, writes)), CloseTag)
  {
    HeadFree();
    var head := XmlDeclaration + LogOpen;
    assert Seeded(Absent) == head + CloseTag + "";
    assert !Contains("", CloseTag);
    AppendsOnto(nl, Logger(Absent, counter), head, "", writes);
    BodyIsHeadLines(head, Settled(nl, writes));
    if |writes| > 0 && (forall i :: 0 <= i < |writes| ==> '\r' !in writes[i].text) {
      var prefix := writes[..|writes| - 1];
      SettledPlain(nl, prefix);
      BodyIsHeadLines(head, writes);
      assert Body(head, prefix) + EntryLine(writes[|writes| - 1].time, writes[|writes| - 1].text) + "\n" + CloseTag + ""
             == head + Lines(writes) + CloseTag;
    }
  }

  // ---------------------------------------------------------------------
  // Around the model call
  // ---------------------------------------------------------------------

  /** `create_prompt_with_persona`: the persona wrapping is disabled, so the
      base prompt goes to the model as it is. */
  function PromptWithPersona(basePrompt: string): (prompt: string)
    ensures prompt == basePrompt
  {
    basePrompt
  }

  const EmptyResponse: string := "レスポンスが空です"

  /** `result.get("response", ...)` on the decoded reply. */
  function ResponseText(result: map<string, string>): (text: string)
    ensures "response" in result ==> text == result["response"]
    ensures "response" !in result ==> text == EmptyResponse
  {
    if "response" in result then result["response"] else EmptyResponse
  }

  /** The placeholder for a reply without text is itself logged. */
  lemma EmptyResponseIsLogged()
    ensures ShouldLog(ResponseText(map[]))
  {
    ShouldLogIff(EmptyResponse);
    AbsentByMissingChar(EmptyResponse, "none", 'n');
    AbsentByMissingChar(EmptyResponse, "None", 'N');
    assert !IsSpace(EmptyResponse[0]);
  }
}
