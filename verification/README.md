# Live comment tools: a Dafny model

local-ai-live-tools looks at a captured game screen, asks a local vision
model for short chat-style comments from a set of personas, and appends the
accepted comments to a pseudo-XML log that a streaming overlay reads. This
project models the parts of that program that decide *what* is written:

- **Personas** (`persona_manager.py`): loading persona definitions from a
  parsed YAML document, with a built-in set of five; lookup; drawing a random
  subset; the id-to-handle mapping; and building the prompt from a template
  by three placeholder substitutions.
- **Config** (`config_manager.py`): building the application configuration
  from a parsed YAML document. Every missing key gets its default, and any
  failure while loading gives the whole default configuration. Command-line
  values then override selected fields.
- **CommentLog** (`main.py`): the gate that decides whether a model reply is
  logged; `write_to_xml_log`, which splices one `<comment>` line in front of
  `</log>`; the write counter; and the two pass-throughs around the model
  call.
- **EmojiTags** (`fix_unicode.py`): replacing emoji by ASCII tags, one
  `str.replace` per table entry, and rewriting the file only when something
  changed.
- **Voice** (`voice.py`): the chunk size, the consumer's buffer split, the
  capture callback's queue policy, and the recording flag.
- **Text**: the Python string operations these rely on, stated over
  `seq<char>`. These are `p in s`, `str.replace`, `str.join`, `str.strip`,
  integer formatting, and the newline translation of text-mode files. **Wrappers** holds `Option`, `Result` and the
  dictionary lookup `d.get(key, default)`.

Files, clocks, randomness and exceptions are parameters. A file is its
content as stored, or a datatype saying it was missing or unreadable. Files
are opened in text mode: a read turns `\r\n` and a lone `\r` into `\n`, and
a write turns `\n` into the platform's line separator, which is a parameter
(`Text.Newline`). The clock reading in a log entry is an `int` argument. The
random draw is a nondeterministic choice (`:|`), so the contracts hold for
every possible draw. An exception is a fault argument. The recorder and the
emoji rewriter name the call that raised. The log writer takes the file left
behind as an argument, whichever stage raised.

Behaviours of the code that the model keeps:

- **Reply gate.** `main.py:245` rejects a reply that contains "none" or
  "None", or that is blank. The comparison is case-sensitive, so a reply
  "NONE" is logged (`CommentLog.GateIsCaseSensitive`).
- **Log entry handle.** The `<comment>` line always carries the handle
  `安全bot` and `no="0"`, not the persona's handle.
- **Missing `personas` key.** A personas file that parses to a mapping without
  a `personas` key loads *no* persona at all. The defaults apply only when the
  file is missing or loading raises (`Personas.MissingSectionLoadsNothing`).
- **Text-mode files.** A reply holding `\r` is written to the log as given,
  but the next write reads it back as `\n` and stores it that way
  (`Text.CarriageReturnsSettle`, `CommentLog.AppendsFromMissing`).
- **Recording flag.** `start_recording` sets the recording flag before it
  starts the stream. A failure in `start_stream` therefore returns False with
  the flag still set (`Voice.StartFailureLeavesFlagSet`).

## Model

| member | source | states |
|---|---|---|
| Personas.EntryPersona | persona_manager.py:52-59 | the persona built from an entry is filed under the entry's id |
| Personas.LoadEntries | persona_manager.py:50-59 | well-formed entries give exactly one persona per entry id, with name and handle defaulting to the id and the three texts defaulting to empty |
| Personas.LoadPersonas | persona_manager.py:43-76 | every loaded persona sits under its own id; a missing or unreadable file loads the five defaults; well-formed entries load exactly their ids |
| Personas.MissingSectionLoadsNothing | persona_manager.py:50-76 | a mapping without `personas` loads an empty registry, while a non-mapping root or section falls back to the defaults |
| Personas.MalformedEntryLoadsDefaults | persona_manager.py:51-76 | one malformed entry makes loading raise, discarding every well-formed entry for the defaults |
| Personas.BareEntryDefaults | persona_manager.py:54-58 | an entry with no fields loads as a persona whose name and handle are its id and whose texts are empty |
| Personas.EntryOfFields | persona_manager.py:52-59 | each of the five fields is read from its own key, so a persona written out with all its fields loads back as itself |
| Personas.EntriesOfSection | persona_manager.py:50-59 | loading a registry's fully written entries gives back the same registry |
| Personas.LoadToSection | persona_manager.py:43-59 | writing a registry out as a personas document and loading it back is the identity |
| Personas.DefaultsKeyed | persona_manager.py:78-87 | the built-in set holds five personas, each under its own id |
| Personas.GetPersona | persona_manager.py:93-95 | a lookup succeeds exactly for a registered id and returns that persona; otherwise it gives None |
| Personas.Available | persona_manager.py:108-109 | the candidate pool is exactly the registered ids not in the exclusion list; a missing list excludes nothing |
| Personas.SampleIds | persona_manager.py:115 | a sample of n ids from a pool of at least n holds n distinct pool members, and all of them when n is the pool size |
| Personas.GetRandomPersonas | persona_manager.py:97-116 | the call fails exactly for a negative count; otherwise it returns min(count, pool size) distinct available personas, and the whole pool when count is at least the pool size |
| Personas.MappingKeys | persona_manager.py:183-189 | the mapping has an entry for exactly the ids of the selected personas |
| Personas.MappingHoldsLast | persona_manager.py:183-189 | each id maps to the handle and name of the last selected persona with that id |
| Personas.MappingSizeOfDistinct | persona_manager.py:183-189 | selected personas with distinct ids give exactly one entry each |
| Personas.PersonaMapping | persona_manager.py:173-189 | characterised by MappingKeys, MappingHoldsLast and MappingSizeOfDistinct |
| Personas.DescriptionLines | persona_manager.py:157-160 | one description per selected persona, in order, numbered from 1 |
| Personas.FieldLines | persona_manager.py:157-161 | one JSON member line per selected persona, in order |
| Personas.VoiceSection | persona_manager.py:164 | the voice section is empty exactly when there is no voice context; otherwise it is the heading followed by the context |
| Personas.Template | persona_manager.py:131-151 | the template is the prompt file as read in text mode, the fallback template when it is missing, and the error template on any other exception; characterised by FallbackPromptLayout and PlainTemplateUnchanged |
| Personas.FillTemplate | persona_manager.py:167-169 | characterised by FillTemplateLayout and PlainTemplateUnchanged |
| Personas.CreatePromptForPersonas | persona_manager.py:118-171 | characterised by FallbackPromptLayout and PlainTemplateUnchanged |
| Personas.FillTemplateLayout | persona_manager.py:167-169 | a template with one copy of each placeholder, in order, between brace-safe texts comes out with each placeholder replaced in place by its section |
| Personas.FallbackPromptLayout | persona_manager.py:131-169 | without a prompt file, the fallback template is filled with the descriptions, the voice section and the JSON lines, each exactly where its placeholder stood |
| Personas.PlainTemplateUnchanged | persona_manager.py:132-169 | a prompt file with no `{` is returned as read, and exactly as stored when it has no `\r`; the error template is returned unchanged |
| Config.NewPersonasConfig | config_manager.py:50-58 | the always-include list is never null after construction; a non-null list is kept as given |
| Config.DefaultConfig | config_manager.py:13-58 | characterised by ParseEmptyIsDefault and LoadConfig |
| Wrappers.GetOr | config_manager.py:133-158 | a present key wins even when its value is null; only an absent key gets the default (the same lookup reads persona fields at persona_manager.py:54-58) |
| Config.Section | config_manager.py:121-129 | a missing section reads as empty; a present section that is not a mapping makes parsing fail |
| Config.ParseConfig | config_manager.py:119-160 | a parsed configuration never holds a null always-include list |
| Config.LoadConfig | config_manager.py:95-117 | a missing or unreadable file, or a document that fails to parse, gives the default configuration; otherwise the parsed one |
| Config.ParseEmptyIsDefault | config_manager.py:119-173 | an empty document parses to exactly the default configuration, so both places agree on every default |
| Config.MissingSectionIsEmpty | config_manager.py:121-129 | leaving a section out is the same as giving it empty |
| Config.NullKeyIsKept | config_manager.py:133-135 | a key given as YAML null stays null rather than taking its default |
| Config.NullAlwaysIncludeBecomesEmpty | config_manager.py:56-58 | `always_include: null` ends up as the empty list, the default |
| Config.NonMappingLoadsDefault | config_manager.py:97-117 | a document that is not a mapping, or that has a null section, loads as the default configuration |
| Config.SectionsRoundTrip | config_manager.py:131-160 | every field of every section is read back from the key it is written under |
| Config.ParseToDocument | config_manager.py:119-160 | a document spelling out every field parses back to the configuration it was written from |
| Config.OverrideWithArgs | config_manager.py:207-231 | the URLs, log file and interval change only when given non-null; the two flags change whenever the key is present; nothing else changes |
| Config.OverrideIdempotent | config_manager.py:207-231 | overriding twice with the same arguments is the same as overriding once |
| Config.OverrideNothing | config_manager.py:207-231 | overriding with no arguments leaves the configuration unchanged |
| Config.NoneOverrides | config_manager.py:212-226 | null for a URL keeps the configured URL, while null for a flag replaces the flag |
| CommentLog.ShouldLogIff | main.py:245 | a reply is logged exactly when it contains neither "none" nor "None" and has a non-whitespace character |
| CommentLog.GateIsCaseSensitive | main.py:245 | "NONE" is logged, while any reply with "none" inside it is not |
| CommentLog.ShouldLog | main.py:245 | characterised by ShouldLogIff and GateIsCaseSensitive |
| CommentLog.EntryLine | main.py:177-180 | characterised by EntryLineRoundTrip and ReadTimeInverts |
| CommentLog.ReadTimeInverts | main.py:177-180 | the time written into an entry, negative or not, reads back as the same integer |
| CommentLog.EntryLineRoundTrip | main.py:180 | an entry line decodes back to its time and its reply text: the text is inserted verbatim, without escaping, between the fixed attributes and `</comment>` |
| CommentLog.InsertBeforeEach | main.py:186-187 | every closing tag gets its own copy of the entry, not only the first |
| CommentLog.InsertSingle | main.py:186-187 | with exactly one closing tag, the entry and a newline land just before it and nothing else changes |
| CommentLog.InsertWithoutTag | main.py:187 | content without a closing tag is written back unchanged |
| CommentLog.Insert | main.py:186-187 | characterised by InsertBeforeEach, InsertSingle and InsertWithoutTag |
| CommentLog.Seeded | main.py:171-184 | a missing file reads back as the empty skeleton; an existing one as its stored content with every line separator read as `\n`, so no `\r` is ever read |
| CommentLog.SkeletonReadsBack | main.py:171-184 | the skeleton written in text mode reads back as itself on either platform, which is the missing-file case of Seeded |
| CommentLog.WriteToXmlLog | main.py:163-199 | a completed write inserts the entry into the text read back, stores the result with the platform's line separators and advances the counter by one; an exception raised while seeding, reading or rewriting the file leaves the counter unchanged and the file as the fault left it |
| CommentLog.WriteWithoutTag | main.py:183-194 | a file without `</log>` gets nothing inserted and only its line separators made the platform's own, yet the write still counts; a file with `\n` separators on a `\n` platform is left as it was |
| CommentLog.LogReply | main.py:244-247 | a reply the gate rejects changes nothing; an accepted one goes through `write_to_xml_log` |
| CommentLog.CounterCountsCompleted | main.py:194-199 | after a run of writes, the counter has grown by exactly the number that completed |
| CommentLog.CounterMonotone | main.py:194 | the counter never decreases along a run of writes |
| CommentLog.AppendOne | main.py:180-194 | one completed write to a file with one `</log>`, whatever follows it, stores the entry line just before that tag; a later read shows the reply written and read back, and the tag stays the only one when the reply holds no `</log>` |
| CommentLog.AppendsOnto | main.py:180-194 | successive completed writes onto a file with one `</log>` and any text after it put their entries, in order, before the tag; the newest is stored as given, a later read shows every reply written and read back, and the counter grows by their number |
| CommentLog.AppendsFromMissing | main.py:170-194 | from a missing file, n completed writes leave the skeleton with the n entries, in order, before its single `</log>`, and the counter advanced by n; replies without `\r` are stored exactly as given |
| CommentLog.SettledPlain | main.py:183-191 | replies without `\r` read back exactly as they were written |
| CommentLog.PromptWithPersona | main.py:101-120 | with the persona wrapping commented out, the prompt sent is the base prompt itself |
| CommentLog.ResponseText | main.py:151-152 | a reply's `response` field is used when present; otherwise the fixed empty-reply text |
| CommentLog.EmptyResponseIsLogged | main.py:152 | the empty-reply placeholder itself passes the gate and is logged |
| EmojiTags.TableWellFormed | fix_unicode.py:7-21 | every key is non-empty and non-ASCII, and every tag is non-empty printable ASCII |
| EmojiTags.FixUnicode | fix_unicode.py:30-37 | the change flag is set exactly when the rewritten text differs from the original |
| EmojiTags.FixUnicodeInFile | fix_unicode.py:23-48 | True is returned exactly when the text read holds a key and the rewrite completes; an unreadable file, a file without a key and a file whose open for writing raises are left as they were; a completed rewrite reads back as the rewritten text; a write that raises leaves a prefix of the new text |
| EmojiTags.FixFileIdempotent | fix_unicode.py:23-48 | after a completed run, a second run returns False and leaves the file as it is, whatever happens to its write |
| EmojiTags.FixedHasNoCr | fix_unicode.py:33-34 | the rewrite adds no `\r` to a text read in text mode |
| EmojiTags.ReplaceEach | fix_unicode.py:33-34 | characterised by ReplaceEachKeepsAbsent, ReplaceEachRemovesKeys and ReplaceEachIdentity |
| EmojiTags.ReplaceEachKeepsAbsent | fix_unicode.py:33-34 | later rounds never re-create a key already gone |
| EmojiTags.ReplaceEachRemovesKeys | fix_unicode.py:33-34 | after the loop no key of the table occurs anywhere in the text |
| EmojiTags.ReplaceEachIdentity | fix_unicode.py:33-34 | a text holding no key passes through every round unchanged |
| EmojiTags.FixUnicodeRemovesEmoji | fix_unicode.py:30-34 | no key of the table survives the rewrite |
| EmojiTags.FixUnicodeChangedIff | fix_unicode.py:30-44 | a file is reported as changed exactly when some key occurred in it |
| EmojiTags.NoEmojiUnchanged | fix_unicode.py:36-44 | a text holding no key comes back unchanged and unflagged |
| EmojiTags.FixUnicodeIdempotent | fix_unicode.py:30-44 | rewriting an already rewritten text changes nothing |
| EmojiTags.NoEmojiInSingleChar | fix_unicode.py:7-21 | a one-character text that is not itself a key holds no key |
| EmojiTags.BareSymbolKept | fix_unicode.py:17-18 | the bare warning sign or framed picture, not followed by U+FE0F, stays in place in any text otherwise free of keys |
| Voice.ChunkSizeIs48000 | voice.py:42-44 | a chunk is 48000 samples, three seconds at 16 kHz |
| Voice.ConsumeFrame | voice.py:158-165 | a chunk is split off exactly when the buffer holds at least one chunk's worth; the chunk is one chunk long and, with the remaining buffer, reproduces the buffer plus the frame |
| Voice.ProcessFrames | voice.py:151-165 | the chunks handed out, then the final buffer, spell out the frames in arrival order; every chunk is one chunk long and at most one is split per frame |
| Voice.OneChunkPerFrame | voice.py:162-165 | a frame two chunks long leaves a full chunk in the buffer |
| Voice.PutDropOldest | voice.py:69-84 | the newest frame always ends the queue; only a bounded full queue drops its oldest frame, and a bounded queue stays within its size |
| Voice.CallbackAppends | voice.py:52 | the recogniser's queue is unbounded, so every callback appends |
| Voice.PutAllBounded | voice.py:74-82 | a bounded queue stays within its size over any number of callbacks and ends with the newest frame |
| Voice.StartRecording | voice.py:86-118 | success is reported exactly without a fault; a failure while opening changes nothing; a failure while starting leaves the flag set |
| Voice.StopRecording | voice.py:120-126 | after stopping the flag is clear; stopping a stopped recorder changes nothing; stopping a recording one closes the stream |
| Voice.StopIdempotent | voice.py:120-126 | stopping twice is the same as stopping once |
| Voice.StartFailureLeavesFlagSet | voice.py:109-126 | a failed stream start reports failure with the flag set, so a later stop still closes the stream |
| Text.HasSubstringIsContains | main.py:245 | the left-to-right substring scan agrees with substring containment |
| Text.TrimStart | main.py:245 | only leading whitespace is dropped, and what remains starts with a non-whitespace character |
| Text.TrimEnd | main.py:245 | only trailing whitespace is dropped, and what remains ends with a non-whitespace character |
| Text.StripEmptyIffBlank | main.py:245 | a stripped reply is empty exactly when every character is whitespace |
| Text.Strip | main.py:245 | `str.strip`; characterised by StripEmptyIffBlank |
| Text.ReplaceAbsent | fix_unicode.py:34 | `str.replace` leaves a text without the pattern unchanged |
| Text.ReplaceRemovesAll | fix_unicode.py:34 | replacing by a text sharing no character with the pattern leaves no occurrence of the pattern |
| Text.ReplaceKeepsAbsent | fix_unicode.py:33-34 | replacing by a text sharing no character with q creates no occurrence of q |
| Text.ReplaceOnlyAt | persona_manager.py:167-169 | with a single occurrence, exactly that slice is replaced |
| Text.ReplaceSingle | persona_manager.py:167-169 | the one copy of a non-self-overlapping pattern between two texts free of it is replaced in place |
| Text.ReplaceFirst | main.py:187 | the first occurrence of a non-self-overlapping pattern is replaced and the scan resumes right after it |
| Text.ReplaceAll | fix_unicode.py:34 | `str.replace`; characterised by ReplaceAbsent, ReplaceFirst, ReplaceSingle, ReplaceOnlyAt and ReplaceRemovesAll |
| Text.ReplaceKeepsChar | fix_unicode.py:34 | replacing introduces no character found neither in the text nor in the replacement |
| Text.Decimal | persona_manager.py:159 | a persona's number is written as a non-empty string of digits with no leading zero |
| Text.ParseDecimalInverts | persona_manager.py:159 | reading the digits back gives the number |
| Text.SignedDecimal | main.py:177-180 | the time in a log entry is written as digits, with a leading minus sign exactly for a negative value |
| Text.ReadNewlines | main.py:183 | no `\r` survives a text-mode read |
| Text.WriteNewlines | main.py:190-191 | characterised by WriteThenRead and WriteLf |
| Text.ReadPlain | main.py:183 | a text without `\r` is read as it is |
| Text.ReadKeepsChar | persona_manager.py:132-133 | a read introduces no character other than `\n` |
| Text.WriteLf | main.py:190-191 | on a platform whose separator is `\n` a write translates nothing |
| Text.WriteThenRead | main.py:190-191 | a text without `\r`, written and read back in text mode, is unchanged on either platform |
| Text.ReadConcat | main.py:183 | two texts are read independently unless a `\r` ends the first and a `\n` starts the second |
| Text.SettleKeepsAbsent | main.py:183-191 | writing and reading back create no occurrence of a pattern without line breaks, such as `</log>` |
| Text.CarriageReturnsSettle | main.py:183-191 | a lone `\r` reads back as `\n`; on a `\r\n` platform a written `\r\n` reads back as two `\n` |

## Left out

- YAML parsing, UTF-8 encoding and `os.path.exists` are not modelled. Each YAML loader takes the parsed document, or a datatype saying the file was missing or unreadable. Other files are sequences of characters, with text-mode newline translation modelled.
- The HTTP call to the model server, screen capture, image encoding, Whisper transcription, the silence check in `process_audio_chunk`, device listing, and all console output are left out. They are I/O or foreign code.
- Threads, sleeps and the timed `queue.get` of `processing_thread` are left out. Their sequential effect is modelled as a list of frames fed through the consumer.
- `create_sample_config`, `create_personas_file`, `list_personas` and `load_persona` are left out. They only copy, read or print files.
- `get_all_personas` returns a copy of the registry. The model's registry is an immutable map, so the copy is the map itself.
- Config.OverrideWithArgs: returns a new configuration. The source changes `self.config` in place and returns that same object (`config_manager.py:209-231`), so every earlier reference to it also sees the overrides.
- Config fields that hold floats (`analysis_interval`, `compression_ratio`) are Dafny `real`s. Floating-point rounding is not modelled.
- Personas.LoadPersonas: an entry's field values are strings only. A YAML number or list stored as a persona field is not modelled.
- Personas.GetRandomPersonas: states which personas may be drawn and how many, but not that the draw is uniform. Randomness is a nondeterministic choice.
- Personas.FallbackPromptLayout: requires the persona texts and the voice context to be brace-safe. A `{` followed by `P`, `V` or `J` inside a persona text could form a placeholder that a later `str.replace` rewrites. That case is described by Text.ReplaceAll itself, not by a layout lemma.
- CommentLog.AppendsFromMissing: requires that no reply contains `</log>`. A reply that does adds a second closing tag, and the next write then inserts its entry before each tag (CommentLog.InsertBeforeEach).
- CommentLog.AppendsOnto: requires that no reply contains `</log>`, for the same reason as CommentLog.AppendsFromMissing above.
- EmojiTags.FixUnicodeInFile: a write that raises leaves a prefix of the new text counted in characters. A cut inside a UTF-8 sequence is not modelled, and a read that fails to decode counts as unreadable.
- CommentLog.WriteToXmlLog: a fault is any exception from seeding, reading or rewriting the file. The file left behind is an argument, not derived from the stage that failed.
- CommentLog.WriteToXmlLog: an exception raised after the counter is incremented (the console message at `main.py:196`) is caught at `main.py:198` once the file was written and the counter advanced. The model treats that case as NoFault.
- CommentLog.WriteToXmlLog: the clock reading is an `int` argument. `int(time.time())` itself is not modelled.
- Voice.PutDropOldest: the capture thread and the consumer run concurrently in the source. The model applies callbacks one at a time.
