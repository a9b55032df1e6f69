/**
 * The emoji rewriter of fix_unicode.py: a file's text is passed through
 * `str.replace` once per entry of a fixed emoji-to-tag table, in the table's
 * order, and the file is rewritten only when the text changed.
 */
module EmojiTags {
  import opened Text
  import opened Wrappers

  datatype Replacement = Replacement(emoji: string, tag: string)

  /** The table `emoji_replacements`, in dictionary insertion order, written
      as three consecutive runs. Two keys carry the variation selector U+FE0F
      after the base symbol. */
  const EmojiReplacements: seq<Replacement> := StatusTags + ResultTags + MediaTags

  const StatusTags: seq<Replacement> := [
    Replacement("\U{1F504}", "[Queue]"),
    Replacement("\U{1F4DD}", "[XML]"),
    Replacement("\U{1F9F5}", "[Thread]"),
    Replacement("\U{1F534}", "[Stop]"),
    Replacement("\U{1F7E2}", "[Start]")
  ]

  const ResultTags: seq<Replacement> := [
    Replacement("\U{2705}", "[OK]"),
    Replacement("\U{274C}", "[Error]"),
    Replacement("\U{1F507}", "[Mute]"),
    Replacement("\U{1F4CB}", "[File]")
  ]

  const MediaTags: seq<Replacement> := [
    Replacement("\U{26A0}\U{FE0F}", "[Warning]"),
    Replacement("\U{1F5BC}\U{FE0F}", "[Image]"),
    Replacement("\U{1F4F8}", "[Screenshot]"),
    Replacement("\U{1F50D}", "[Debug]")
  ]

  /** Printable ASCII: no control character, so in particular no line break. */
  ghost predicate Printable(s: string) {
    forall i :: 0 <= i < |s| ==> ' ' <= s[i] <= '~'
  }

  ghost predicate NoAscii(s: string) {
    forall i :: 0 <= i < |s| ==> s[i] as int >= 128
  }

  /** Keys are non-empty and free of ASCII; tags are non-empty printable
      ASCII. A tag can therefore never form, or complete, any key. */
  ghost predicate EntryOk(r: Replacement) {
    |r.emoji| > 0 && NoAscii(r.emoji) && |r.tag| > 0 && Printable(r.tag)
  }

  ghost predicate WellFormed(table: seq<Replacement>) {
    forall i :: 0 <= i < |table| ==> EntryOk(table[i])
  }

  predicate NonEmptyKeys(table: seq<Replacement>) {
    forall i :: 0 <= i < |table| ==> |table[i].emoji| > 0
  }

  /** The loop `for emoji, replacement in table: content = content.replace(...)`. */
  function ReplaceEach(s: string, table: seq<Replacement>): string
    requires NonEmptyKeys(table)
    decreases |table|
  {
    if |table| == 0 then s
    else ReplaceEach(ReplaceAll(s, table[0].emoji, table[0].tag), table[1..])
  }

  /** The text after rewriting, and whether it differs from the original. */
  datatype Rewrite = Rewrite(content: string, changed: bool)

  lemma WellFormedConcat(a: seq<Replacement>, b: seq<Replacement>)
    requires WellFormed(a) && WellFormed(b)
    ensures WellFormed(a + b)
  {
    forall i | |a| <= i < |a + b|
      ensures (a + b)[i] == b[i - |a|]
    {
    }
  }

  lemma StatusTagsWellFormed()
    ensures WellFormed(StatusTags)
  {
    forall i | 0 <= i < |StatusTags|
      ensures EntryOk(StatusTags[i])
    {
      if i == 0 {
        assert EntryOk(StatusTags[0]);
      } else if i == 1 {
        assert EntryOk(StatusTags[1]);
      } else if i == 2 {
        assert EntryOk(StatusTags[2]);
      } else if i == 3 {
        assert EntryOk(StatusTags[3]);
      } else if i == 4 {
        assert EntryOk(StatusTags[4]);
      }
    }
  }

  lemma ResultTagsWellFormed()
    ensures WellFormed(ResultTags)
  {
    forall i | 0 <= i < |ResultTags|
      ensures EntryOk(ResultTags[i])
    {
      if i == 0 {
        assert EntryOk(ResultTags[0]);
      } else if i == 1 {
        assert EntryOk(ResultTags[1]);
      } else if i == 2 {
        assert EntryOk(ResultTags[2]);
      } else if i == 3 {
        assert EntryOk(ResultTags[3]);
      }
    }
  }

  lemma MediaTagsWellFormed()
    ensures WellFormed(MediaTags)
  {
    forall i | 0 <= i < |MediaTags|
      ensures EntryOk(MediaTags[i])
    {
      if i == 0 {
        assert EntryOk(MediaTags[0]);
      } else if i == 1 {
        assert EntryOk(MediaTags[1]);
      } else if i == 2 {
        assert EntryOk(MediaTags[2]);
      } else if i == 3 {
        assert EntryOk(MediaTags[3]);
      }
    }
  }

  lemma TableWellFormed()
    ensures WellFormed(EmojiReplacements)
  {
    StatusTagsWellFormed();
    ResultTagsWellFormed();
    MediaTagsWellFormed();
    WellFormedConcat(StatusTags, ResultTags);
    WellFormedConcat(StatusTags + ResultTags, MediaTags);
  }

  function FixUnicode(content: string): (r: Rewrite)
    ensures r.changed <==> r.content != content
  {
    TableWellFormed();
    var fixed := ReplaceEach(content, EmojiReplacements);
    Rewrite(fixed, fixed != content)
  }

  /** How rewriting the file went: it completed, `open(path, 'w')` raised
      before touching the file, or `write` raised after that open had emptied
      the file, which then holds the first `kept` characters of the new text. */
  datatype WriteFault = WriteOk | OpenRaised | WriteRaised(kept: nat)

  /** What is on disk afterwards (None: the file could not be read, and it is
      not touched), and the value returned. */
  datatype FileOutcome = FileOutcome(left: Option<string>, returned: bool)

  /** `fix_unicode_in_file` on a file holding `disk` (None: opening or reading
      it raised). The file is read and written in text mode with the
      platform's line separator `nl`; any exception makes it return False. */
  function FixUnicodeInFile(nl: Newline, disk: Option<string>, fault: WriteFault): (r: FileOutcome)
    ensures disk.None? ==> r == FileOutcome(None, false)
    ensures r.returned <==> disk.Some? && HasEmoji(ReadNewlines(disk.value)) && fault.WriteOk?
    ensures disk.Some? && !HasEmoji(ReadNewlines(disk.value)) ==> r == FileOutcome(disk, false)
    ensures fault.OpenRaised? ==> r == FileOutcome(disk, false)
    ensures r.returned ==> r.left.Some? && ReadNewlines(r.left.value) == FixUnicode(ReadNewlines(disk.value)).content
    ensures disk.Some? && fault.WriteRaised? && HasEmoji(ReadNewlines(disk.value)) ==>
      r.left.Some? && IsPrefix(r.left.value, WriteNewlines(nl, FixUnicode(ReadNewlines(disk.value)).content))
  {
    match disk
    case None => FileOutcome(None, false)
    case Some(stored) =>
      var content := ReadNewlines(stored);
      var fix := FixUnicode(content);
      FixUnicodeChangedIff(content);
      if !fix.changed then FileOutcome(disk, false)
      else
        var out := WriteNewlines(nl, fix.content);
        FixedHasNoCr(content);
        WriteThenRead(nl, fix.content);
        match fault
        case WriteOk => FileOutcome(Some(out), true)
        case OpenRaised => FileOutcome(disk, false)
        case WriteRaised(kept) => FileOutcome(Some(out[..if kept < |out| then kept else |out|]), false)
  }

  /** The rewrite adds no carriage return: every tag is printable. */
  lemma {:induction false} ReplaceEachKeepsNoCr(s: string, table: seq<Replacement>)
    requires WellFormed(table)
    requires '\r' !in s
    ensures '\r' !in ReplaceEach(s, table)
    decreases |table|
  {
    if |table| > 0 {
      assert EntryOk(table[0]);
      ReplaceKeepsChar(s, table[0].emoji, table[0].tag, '\r');
      ReplaceEachKeepsNoCr(ReplaceAll(s, table[0].emoji, table[0].tag), table[1..]);
    }
  }

  lemma FixedHasNoCr(content: string)
    requires '\r' !in content
    ensures '\r' !in FixUnicode(content).content
  {
    TableWellFormed();
    ReplaceEachKeepsNoCr(content, EmojiReplacements);
  }

  /** Once a run has completed, a second run finds no key in the file it
      reads back: it returns False and leaves the file as it is. */
  lemma FixFileIdempotent(nl: Newline, disk: Option<string>, again: WriteFault)
    ensures FixUnicodeInFile(nl, disk, WriteOk).returned ==>
      var left := FixUnicodeInFile(nl, disk, WriteOk).left;
      FixUnicodeInFile(nl, left, again) == FileOutcome(left, false)
  {
    if FixUnicodeInFile(nl, disk, WriteOk).returned {
      FixUnicodeRemovesEmoji(ReadNewlines(disk.value));
    }
  }

  lemma KeyAndTagDisjoint(table: seq<Replacement>, q: string, j: int)
    requires WellFormed(table)
    requires NoAscii(q)
    requires 0 <= j < |table|
    ensures NoSharedChar(q, table[j].tag)
  {
    forall c | c in q
      ensures c !in table[j].tag
    {
      var k :| 0 <= k < |q| && q[k] == c;
    }
  }

  /** The table's later rounds never re-create a key that is already gone. */
  lemma {:induction false} ReplaceEachKeepsAbsent(s: string, table: seq<Replacement>, q: string)
    requires WellFormed(table)
    requires |q| > 0 && NoAscii(q)
    requires !Contains(s, q)
    ensures !Contains(ReplaceEach(s, table), q)
    decreases |table|
  {
    if |table| > 0 {
      KeyAndTagDisjoint(table, q, 0);
      ReplaceKeepsAbsent(s, table[0].emoji, table[0].tag, q);
      ReplaceEachKeepsAbsent(ReplaceAll(s, table[0].emoji, table[0].tag), table[1..], q);
    }
  }

  /** After the pass no key of the table occurs anywhere in the text. */
  lemma {:induction false} ReplaceEachRemovesKeys(s: string, table: seq<Replacement>)
    requires WellFormed(table)
    ensures forall i :: 0 <= i < |table| ==> !Contains(ReplaceEach(s, table), table[i].emoji)
    decreases |table|
  {
    if |table| > 0 {
      var s' := ReplaceAll(s, table[0].emoji, table[0].tag);
      KeyAndTagDisjoint(table, table[0].emoji, 0);
      ReplaceRemovesAll(s, table[0].emoji, table[0].tag);
      ReplaceEachKeepsAbsent(s', table[1..], table[0].emoji);
      ReplaceEachRemovesKeys(s', table[1..]);
      forall i | 1 <= i < |table|
        ensures !Contains(ReplaceEach(s, table), table[i].emoji)
      {
        assert table[i] == table[1..][i - 1];
      }
    }
  }

  /** A text without any key passes through every round unchanged. */
  lemma {:induction false} ReplaceEachIdentity(s: string, table: seq<Replacement>)
    requires NonEmptyKeys(table)
    requires forall i :: 0 <= i < |table| ==> !Contains(s, table[i].emoji)
    ensures ReplaceEach(s, table) == s
    decreases |table|
  {
    if |table| > 0 {
      ReplaceAbsent(s, table[0].emoji, table[0].tag);
      forall i | 0 <= i < |table[1..]|
        ensures !Contains(s, table[1..][i].emoji)
      {
        assert table[1..][i] == table[i + 1];
      }
      ReplaceEachIdentity(s, table[1..]);
    }
  }

  ghost predicate HasEmoji(content: string) {
    exists i :: 0 <= i < |EmojiReplacements| && Contains(content, EmojiReplacements[i].emoji)
  }

  /** No key of the table survives the rewrite, however often it occurred. */
  lemma FixUnicodeRemovesEmoji(content: string)
    ensures !HasEmoji(FixUnicode(content).content)
  {
    TableWellFormed();
    ReplaceEachRemovesKeys(content, EmojiReplacements);
  }

  /** The rewrite reports a change exactly when some key occurred in the input;
      without one the text comes back unchanged. */
  lemma FixUnicodeChangedIff(content: string)
    ensures FixUnicode(content).changed <==> HasEmoji(content)
    ensures !HasEmoji(content) ==> FixUnicode(content).content == content
  {
    TableWellFormed();
    if HasEmoji(content) {
      FixUnicodeRemovesEmoji(content);
    } else {
      ReplaceEachIdentity(content, EmojiReplacements);
    }
  }

  lemma NoEmojiUnchanged(content: string)
    requires !HasEmoji(content)
    ensures FixUnicode(content) == Rewrite(content, false)
  {
    FixUnicodeChangedIff(content);
  }

  /** Rewriting an already rewritten text changes nothing. */
  lemma FixUnicodeIdempotent(content: string)
    ensures FixUnicode(FixUnicode(content).content) == Rewrite(FixUnicode(content).content, false)
  {
    FixUnicodeRemovesEmoji(content);
    FixUnicodeChangedIff(FixUnicode(content).content);
  }

  /** The single-character keys are exactly the table entries of length one. */
  lemma NoEmojiInSingleChar(c: char)
    requires forall i :: 0 <= i < |EmojiReplacements| ==> EmojiReplacements[i].emoji != [c]
    ensures !HasEmoji([c])
  {
    forall i, j | 0 <= i < |EmojiReplacements|
      ensures !Occurs([c], EmojiReplacements[i].emoji, j)
    {
      var key := EmojiReplacements[i].emoji;
      if 0 <= j && j + |key| <= 1 {
        assert [c][j..j + |key|] == [c];
      }
    }
  }

  const VariationSelector: char := '\U{FE0F}'

  /** A key is one symbol, or one symbol followed by the variation selector. */
  ghost predicate ShortKey(k: string) {
    0 < |k| <= 2 && (|k| == 2 ==> k[1] == VariationSelector)
  }

  ghost predicate ShortKeys(table: seq<Replacement>) {
    forall i :: 0 <= i < |table| ==> ShortKey(table[i].emoji)
  }

  lemma ShortKeysConcat(a: seq<Replacement>, b: seq<Replacement>)
    requires ShortKeys(a) && ShortKeys(b)
    ensures ShortKeys(a + b)
  {
    forall i | |a| <= i < |a + b|
      ensures (a + b)[i] == b[i - |a|]
    {
    }
  }

  lemma StatusKeysShort()
    ensures ShortKeys(StatusTags)
  {
    forall i | 0 <= i < |StatusTags|
      ensures ShortKey(StatusTags[i].emoji)
    {
      if i == 0 {
        assert ShortKey(StatusTags[0].emoji);
      } else if i == 1 {
        assert ShortKey(StatusTags[1].emoji);
      } else if i == 2 {
        assert ShortKey(StatusTags[2].emoji);
      } else if i == 3 {
        assert ShortKey(StatusTags[3].emoji);
      } else if i == 4 {
        assert ShortKey(StatusTags[4].emoji);
      }
    }
  }

  lemma ResultKeysShort()
    ensures ShortKeys(ResultTags)
  {
    forall i | 0 <= i < |ResultTags|
      ensures ShortKey(ResultTags[i].emoji)
    {
      if i == 0 {
        assert ShortKey(ResultTags[0].emoji);
      } else if i == 1 {
        assert ShortKey(ResultTags[1].emoji);
      } else if i == 2 {
        assert ShortKey(ResultTags[2].emoji);
      } else if i == 3 {
        assert ShortKey(ResultTags[3].emoji);
      }
    }
  }

  lemma MediaKeysShort()
    ensures ShortKeys(MediaTags)
  {
    forall i | 0 <= i < |MediaTags|
      ensures ShortKey(MediaTags[i].emoji)
    {
      if i == 0 {
        assert ShortKey(MediaTags[0].emoji);
      } else if i == 1 {
        assert ShortKey(MediaTags[1].emoji);
      } else if i == 2 {
        assert ShortKey(MediaTags[2].emoji);
      } else if i == 3 {
        assert ShortKey(MediaTags[3].emoji);
      }
    }
  }

  /** Every key of the table is a symbol with at most a trailing U+FE0F. */
  lemma TableKeysShort()
    ensures ShortKeys(EmojiReplacements)
  {
    StatusKeysShort();
    ResultKeysShort();
    MediaKeysShort();
    ShortKeysConcat(StatusTags, ResultTags);
    ShortKeysConcat(StatusTags + ResultTags, MediaTags);
  }

  /** A short key absent from `a`, from `b` and from the lone symbol `c` cannot
      straddle `c`'s edges, unless `b` opens with the variation selector. */
  lemma KeyAbsentAround(a: string, c: char, b: string, k: string)
    requires ShortKey(k) && c != VariationSelector
    requires |b| > 0 ==> b[0] != VariationSelector
    requires !Contains(a, k) && !Contains([c], k) && !Contains(b, k)
    ensures !Contains(a + [c] + b, k)
  {
    assert k[1..] == [] || k[1..] == [VariationSelector];
    AbsentConcat(a, [c], k);
    AbsentConcat(a + [c], b, k);
  }

  /** The warning sign and the framed picture without the variation selector
      U+FE0F match no key: wherever they stand in a text that otherwise holds
      no key, and not just before a U+FE0F, the text is left as it is. */
  lemma BareSymbolKept(a: string, c: char, b: string)
    requires c == '\U{26A0}' || c == '\U{1F5BC}'
    requires !HasEmoji(a) && !HasEmoji(b)
    requires |b| > 0 ==> b[0] != VariationSelector
    ensures FixUnicode(a + [c] + b) == Rewrite(a + [c] + b, false)
  {
    NoEmojiInSingleChar(c);
    TableKeysShort();
    forall i | 0 <= i < |EmojiReplacements|
      ensures !Contains(a + [c] + b, EmojiReplacements[i].emoji)
    {
      KeyAbsentAround(a, c, b, EmojiReplacements[i].emoji);
    }
    NoEmojiUnchanged(a + [c] + b);
  }
}
