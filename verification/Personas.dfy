/**
 * The persona manager of persona_manager.py: loading persona definitions from
 * a parsed YAML document (with a built-in default set), lookup, random
 * selection, the handle mapping, and the prompt assembled from a template by
 * three placeholder substitutions.
 */
module Personas {
  import opened Text
  import opened Wrappers

  datatype Persona = Persona(
    personaId: string,
    name: string,
    handle: string,
    description: string,
    style: string,
    example: string)

  /** `PersonaManager.personas`, keyed by persona id. */
  type Registry = map<string, Persona>

  /** Every persona is filed under its own id. */
  ghost predicate Keyed(reg: Registry) {
    forall id :: id in reg ==> reg[id].personaId == id
  }

  /** `_load_default_personas`. */
  const DefaultPersonas: Registry := map[
    "listener" := Persona("listener", "リスナー", "リスナーbot", "一般的な視聴者", "短く反応", "右上HPが赤色！"),
    "safety" := Persona("safety", "安全監視員", "安全監視bot", "危険を指摘", "警告形式", "落下穴に注意"),
    "expert" := Persona("expert", "ゲーム専門家", "ゲーム専門bot", "技術的解説", "解説形式", "ジャンプが有効"),
    "fan1" := Persona("fan1", "配信者ファン1", "ファン1", "冗談好き", "親しみやすく", "そのジャンプナイス！w"),
    "fan2" := Persona("fan2", "配信者ファン2", "ファン2", "真面目で冷静", "丁寧に", "操作が上達してますね")
  ]

  // ---------------------------------------------------------------------
  // Loading
  // ---------------------------------------------------------------------

  /** One value under `personas:`: a mapping from field names to text, or
      anything else (null, a list, a scalar), on which `.get` raises. */
  datatype EntryNode = Fields(fields: map<string, string>) | OtherEntry

  /** The value of the `personas:` key: a mapping from ids to entries, or
      anything else, on which `.items()` raises. */
  datatype SectionNode = Entries(entries: map<string, EntryNode>) | OtherSection

  /** The parsed document: a mapping whose `personas` key may be absent, or
      anything else (an empty file parses to null), on which `.get` raises. */
  datatype RootNode = Mapping(personas: Option<SectionNode>) | OtherRoot

  /** The personas file as the loader meets it. `Unreadable` covers every
      exception raised while opening, reading or parsing it. */
  datatype PersonasFile = NoFile | Unreadable | Loaded(root: RootNode)

  /** The persona built from one entry: name and handle fall back to the id,
      the three texts to the empty string. */
  function EntryPersona(id: string, fields: map<string, string>): (p: Persona)
    ensures p.personaId == id
  {
    Persona(id,
      GetOr(fields, "name", id),
      GetOr(fields, "handle", id),
      GetOr(fields, "description", ""),
      GetOr(fields, "style", ""),
      GetOr(fields, "example", ""))
  }

  predicate AllFields(entries: map<string, EntryNode>) {
    forall id :: id in entries ==> entries[id].Fields?
  }

  /** The registry built from well-formed entries, one persona per id. */
  function LoadEntries(entries: map<string, EntryNode>): (reg: Registry)
    requires AllFields(entries)
    ensures reg.Keys == entries.Keys
    ensures forall id :: id in reg ==> reg[id] == EntryPersona(id, entries[id].fields)
  {
    map id | id in entries :: EntryPersona(id, entries[id].fields)
  }

  /** `_load_personas`. Any exception, including one raised part-way through
      the entries, replaces whatever was loaded by the default set. */
  function LoadPersonas(file: PersonasFile): (reg: Registry)
    ensures Keyed(reg)
    ensures !file.Loaded? ==> reg == DefaultPersonas
    ensures file.Loaded? && file.root.Mapping? && file.root.personas.Some?
            && file.root.personas.value.Entries? && AllFields(file.root.personas.value.entries)
            ==> reg.Keys == file.root.personas.value.entries.Keys
  {
    match file
    case Loaded(Mapping(None)) => map[]
    case Loaded(Mapping(Some(Entries(entries)))) =>
      if AllFields(entries) then LoadEntries(entries) else DefaultPersonas
    case _ => DefaultPersonas
  }

  /** A document with a mapping root but no `personas` key loads no persona
      at all; the defaults are used only when loading raises. */
  lemma MissingSectionLoadsNothing()
    ensures LoadPersonas(Loaded(Mapping(None))) == map[]
    ensures LoadPersonas(Loaded(OtherRoot)) == DefaultPersonas
    ensures LoadPersonas(Loaded(Mapping(Some(OtherSection)))) == DefaultPersonas
  {
  }

  /** A single malformed entry discards every well-formed one. */
  lemma MalformedEntryLoadsDefaults(entries: map<string, EntryNode>, id: string)
    requires id in entries && entries[id] == OtherEntry
    ensures LoadPersonas(Loaded(Mapping(Some(Entries(entries))))) == DefaultPersonas
  {
  }

  /** An entry without fields gets its id as name and handle. */
  lemma BareEntryDefaults(id: string)
    ensures LoadPersonas(Loaded(Mapping(Some(Entries(map[id := Fields(map[])]))))) ==
            map[id := Persona(id, id, id, "", "", "")]
  {
    var entries := map[id := Fields(map[])];
    assert AllFields(entries);
    var reg := LoadPersonas(Loaded(Mapping(Some(Entries(entries)))));
    assert reg.Keys == {id};
  }

  /** One persona written out with all five fields. */
  function FieldsOf(p: Persona): map<string, string> {
    map["name" := p.name, "handle" := p.handle, "description" := p.description,
        "style" := p.style, "example" := p.example]
  }

  lemma EntryOfFields(p: Persona)
    ensures EntryPersona(p.personaId, FieldsOf(p)) == p
  {
  }

  /** The document that spells out every field of every persona. */
  function ToSection(reg: Registry): (section: SectionNode)
    ensures section.Entries? && section.entries.Keys == reg.Keys
    ensures forall id :: id in reg ==> section.entries[id] == Fields(FieldsOf(reg[id]))
  {
    Entries(map id | id in reg :: Fields(FieldsOf(reg[id])))
  }

  lemma EntriesOfSection(reg: Registry)
    requires Keyed(reg)
    ensures AllFields(ToSection(reg).entries)
    ensures LoadEntries(ToSection(reg).entries) == reg
  {
    var entries := ToSection(reg).entries;
    assert AllFields(entries);
    var loaded := LoadEntries(entries);
    assert loaded.Keys == reg.Keys;
    forall id | id in reg
      ensures loaded[id] == reg[id]
    {
      EntryOfFields(reg[id]);
    }
  }

  /** Each field is read from its own key: writing a registry out in full and
      loading it back gives the same registry. */
  lemma LoadToSection(reg: Registry)
    requires Keyed(reg)
    ensures LoadPersonas(Loaded(Mapping(Some(ToSection(reg))))) == reg
  {
    EntriesOfSection(reg);
  }

  lemma DefaultsKeyed()
    ensures Keyed(DefaultPersonas) && |DefaultPersonas| == 5
  {
    assert DefaultPersonas.Keys == {"listener", "safety", "expert", "fan1", "fan2"};
  }

  // ---------------------------------------------------------------------
  // Lookup and selection
  // ---------------------------------------------------------------------

  /** `get_persona`: None for an unknown id. */
  function GetPersona(reg: Registry, id: string): (r: Option<Persona>)
    ensures r.Some? <==> id in reg
    ensures r.Some? && Keyed(reg) ==> r.value.personaId == id
    ensures r.Some? ==> r.value == reg[id]
  {
    if id in reg then Some(reg[id]) else None
  }

  /** `exclude or []`: None and the empty list both exclude nothing. */
  function ExcludedIds(exclude: Option<seq<string>>): seq<string> {
    match exclude
    case None => []
    case Some(ids) => ids
  }

  /** The ids `get_random_personas` may draw from. */
  function Available(reg: Registry, exclude: Option<seq<string>>): (ids: set<string>)
    ensures ids <= reg.Keys
    ensures forall id :: id in ids <==> id in reg && id !in ExcludedIds(exclude)
  {
    set id | id in reg && id !in ExcludedIds(exclude)
  }

  function Min(a: int, b: int): int {
    if a <= b then a else b
  }

  /** Raised by `random.sample` for a negative sample size. */
  datatype SampleError = NegativeCount

  /** `random.sample` over a set of ids: `n` distinct ids in an unspecified
      order; drawing all of them leaves none out. */
  method SampleIds(pool: set<string>, n: nat) returns (ids: seq<string>)
    requires n <= |pool|
    ensures |ids| == n
    ensures forall i :: 0 <= i < |ids| ==> ids[i] in pool
    ensures forall i, j :: 0 <= i < j < |ids| ==> ids[i] != ids[j]
    ensures n == |pool| ==> forall k :: k in pool ==> k in ids
  {
    var rest := pool;
    ids := [];
    while |ids| < n
      invariant |ids| <= n
      invariant rest <= pool
      invariant |ids| + |rest| == |pool|
      invariant forall k :: k in pool <==> k in rest || k in ids
      invariant forall i :: 0 <= i < |ids| ==> ids[i] in pool && ids[i] !in rest
      invariant forall i, j :: 0 <= i < j < |ids| ==> ids[i] != ids[j]
      decreases n - |ids|
    {
      var id :| id in rest;
      rest := rest - {id};
      ids := ids + [id];
    }
    if n == |pool| {
      assert rest == {};
    }
  }

  /**
   * `get_random_personas`: draws `min(count, available)` distinct available
   * personas in random order. A count above the number available is lowered
   * to it, so every available persona is then drawn; a negative count is not
   * lowered and `random.sample` raises.
   */
  method GetRandomPersonas(reg: Registry, count: int, exclude: Option<seq<string>>)
    returns (r: Result<seq<Persona>, SampleError>)
    ensures r.Failure? <==> count < 0
    ensures r.Success? ==> |r.value| == Min(count, |Available(reg, exclude)|)
    ensures r.Success? ==> forall i :: 0 <= i < |r.value| ==>
              exists id :: id in Available(reg, exclude) && r.value[i] == reg[id]
    ensures r.Success? && Keyed(reg) ==> forall i :: 0 <= i < |r.value| ==>
              r.value[i].personaId in Available(reg, exclude)
    ensures r.Success? && Keyed(reg) ==> forall i, j :: 0 <= i < j < |r.value| ==>
              r.value[i].personaId != r.value[j].personaId
    ensures r.Success? && count >= |Available(reg, exclude)| ==>
              forall id :: id in Available(reg, exclude) ==> reg[id] in r.value
  {
    var avail := Available(reg, exclude);
    var n := count;
    if |avail| < n {
      n := |avail|;
    }
    if n < 0 {
      return Failure(NegativeCount);
    }
    var ids := SampleIds(avail, n);
    var picked := seq(|ids|, i requires 0 <= i < |ids| => reg[ids[i]]);
    forall i | 0 <= i < |picked|
      ensures exists id :: id in avail && picked[i] == reg[id]
    {
      assert ids[i] in avail && picked[i] == reg[ids[i]];
    }
    if count >= |avail| {
      forall k | k in avail
        ensures reg[k] in picked
      {
        var i :| 0 <= i < |ids| && ids[i] == k;
        assert picked[i] == reg[k];
      }
    }
    r := Success(picked);
  }

  /** What `get_persona_mapping` records for one persona. */
  datatype PersonaRef = PersonaRef(handle: string, persona: string)

  ghost predicate LastWithId(selected: seq<Persona>, i: int) {
    0 <= i < |selected| &&
    forall j :: i < j < |selected| ==> selected[j].personaId != selected[i].personaId
  }

  /** `get_persona_mapping`: the selected personas folded, in order, into a
      dictionary from id to handle and name; a later persona with the same id
      overwrites an earlier one. */
  function PersonaMapping(selected: seq<Persona>): map<string, PersonaRef>
    decreases |selected|
  {
    if |selected| == 0 then map[]
    else
      var last := selected[|selected| - 1];
      PersonaMapping(selected[..|selected| - 1])[last.personaId := PersonaRef(last.handle, last.name)]
  }

  /** The mapping has an entry for exactly the ids of the selected personas. */
  lemma {:induction false} MappingKeys(selected: seq<Persona>)
    ensures forall id :: id in PersonaMapping(selected) <==>
              exists i :: 0 <= i < |selected| && selected[i].personaId == id
    decreases |selected|
  {
    if |selected| > 0 {
      var prefix := selected[..|selected| - 1];
      MappingKeys(prefix);
      forall id | id in PersonaMapping(selected)
        ensures exists i :: 0 <= i < |selected| && selected[i].personaId == id
      {
        if id != selected[|selected| - 1].personaId {
          assert id in PersonaMapping(prefix);
          var i :| 0 <= i < |prefix| && prefix[i].personaId == id;
          assert selected[i] == prefix[i];
        }
      }
      forall id | exists i :: 0 <= i < |selected| && selected[i].personaId == id
        ensures id in PersonaMapping(selected)
      {
        var i :| 0 <= i < |selected| && selected[i].personaId == id;
        if i < |prefix| {
          assert prefix[i] == selected[i];
        }
      }
    }
  }

  /** Each id maps to the handle and name of the last persona carrying it. */
  lemma {:induction false} MappingHoldsLast(selected: seq<Persona>, i: int)
    requires LastWithId(selected, i)
    ensures selected[i].personaId in PersonaMapping(selected)
    ensures PersonaMapping(selected)[selected[i].personaId] == PersonaRef(selected[i].handle, selected[i].name)
    decreases |selected|
  {
    var prefix := selected[..|selected| - 1];
    if i < |prefix| {
      assert LastWithId(prefix, i) by {
        forall j | i < j < |prefix|
          ensures prefix[j].personaId != prefix[i].personaId
        {
          assert prefix[j] == selected[j];
        }
      }
      MappingHoldsLast(prefix, i);
      assert selected[|selected| - 1].personaId != selected[i].personaId;
    }
  }

  /** Distinct ids give exactly one entry per selected persona. */
  lemma {:induction false} MappingSizeOfDistinct(selected: seq<Persona>)
    requires forall i, j :: 0 <= i < j < |selected| ==> selected[i].personaId != selected[j].personaId
    ensures |PersonaMapping(selected)| == |selected|
    decreases |selected|
  {
    if |selected| > 0 {
      var prefix := selected[..|selected| - 1];
      MappingSizeOfDistinct(prefix);
      MappingKeys(prefix);
      var last := selected[|selected| - 1];
      assert last.personaId !in PersonaMapping(prefix) by {
        forall i | 0 <= i < |prefix|
          ensures prefix[i].personaId != last.personaId
        {
          assert prefix[i] == selected[i];
        }
      }
    }
  }

  // ---------------------------------------------------------------------
  // Prompt assembly
  // ---------------------------------------------------------------------

  /** The placeholders `{PERSONA_DESCRIPTIONS}`, `{VOICE_CONTEXT}` and
      `{JSON_FIELDS}`. */
  const DescriptionsName: string := "PERSONA_DESCRIPTIONS"
  const VoiceName: string := "VOICE_CONTEXT"
  const FieldsName: string := "JSON_FIELDS"
  const DescriptionsKey: string := "{" + DescriptionsName + "}"
  const VoiceKey: string := "{" + VoiceName + "}"
  const FieldsKey: string := "{" + FieldsName + "}"

  /** The template used when the prompt file does not exist, in four pieces
      around the three placeholders. */
  const FallbackHead: string := "あなたは複数の異なる人格として、" + "ゲーム配信に対してコメントしてください。\n\n"
  const FallbackGap: string := "\n\n"
  const FallbackMiddle: string := "\n\n**出力形式：**\n```json\n" + "{\n"
  const FallbackTail: string := "\n}\n```"
  const FallbackTemplate: string :=
    FallbackHead + DescriptionsKey + FallbackGap + VoiceKey + FallbackMiddle + FieldsKey + FallbackTail

  /** The template used when reading the prompt file raises anything else. */
  const ErrorTemplate: string := "エラーが発生しました。"

  /** The outcome of reading the prompt file: its content as stored, or the
      exception raised. */
  datatype TemplateRead = TemplateText(stored: string) | TemplateNotFound | TemplateError

  /** The template text: the file is read in text mode, so its line
      separators arrive as `\n`. */
  function Template(read: TemplateRead): string {
    match read
    case TemplateText(stored) => ReadNewlines(stored)
    case TemplateNotFound => FallbackTemplate
    case TemplateError => ErrorTemplate
  }

  /** The entry for the `n`-th persona (counted from one). */
  function DescriptionLine(n: nat, p: Persona): string {
    Decimal(n) + ". **" + p.name + "**: " + p.description + "\n   スタイル: " + p.style + "\n   例: " + p.example
  }

  const FieldComment: string :=
    "画面の具体的要素1つに言及した" + "短いコメント（20文字以内、" + "ゲーム画面でない場合は「none」）"

  /** The JSON member line that asks for one comment from the persona. */
  function FieldLine(p: Persona): string {
    "  \"" + p.personaId + "\": \"" + FieldComment + "\""
  }

  function DescriptionLines(selected: seq<Persona>): (lines: seq<string>)
    ensures |lines| == |selected|
    ensures forall i :: 0 <= i < |selected| ==> lines[i] == DescriptionLine(i + 1, selected[i])
  {
    seq(|selected|, i requires 0 <= i < |selected| => DescriptionLine(i + 1, selected[i]))
  }

  function FieldLines(selected: seq<Persona>): (lines: seq<string>)
    ensures |lines| == |selected|
    ensures forall i :: 0 <= i < |selected| ==> lines[i] == FieldLine(selected[i])
  {
    seq(|selected|, i requires 0 <= i < |selected| => FieldLine(selected[i]))
  }

  const VoiceHeading: string := "\n\n**音声認識結果:**\n"

  /** The voice section is present exactly when there is voice context. */
  function VoiceSection(voiceContext: string): (s: string)
    ensures s == "" <==> voiceContext == ""
    ensures s != "" ==> s == VoiceHeading + voiceContext
  {
    if voiceContext != "" then VoiceHeading + voiceContext else ""
  }

  /** The three `str.replace` calls, in the source's order. */
  function FillTemplate(template: string, descriptions: string, voice: string, fields: string): string {
    var t1 := ReplaceAll(template, DescriptionsKey, descriptions);
    var t2 := ReplaceAll(t1, VoiceKey, voice);
    ReplaceAll(t2, FieldsKey, fields)
  }

  /** `create_prompt_for_personas`, with the template file's outcome given. */
  function CreatePromptForPersonas(selected: seq<Persona>, voiceContext: string, read: TemplateRead): string {
    FillTemplate(Template(read),
      Join("\n", DescriptionLines(selected)),
      VoiceSection(voiceContext),
      Join("\n", FieldLines(selected)))
  }

  /** Every `{` in `s` is followed, inside `s`, by a character that cannot
      start a placeholder name. Such a text can neither hold a placeholder nor
      begin one that the next text completes. */
  ghost predicate BraceSafe(s: string) {
    forall i :: 0 <= i < |s| && s[i] == '{' ==> i + 1 < |s| && s[i + 1] !in "PVJ"
  }

  lemma BraceFreeIsSafe(s: string)
    requires '{' !in s
    ensures BraceSafe(s)
  {
  }

  lemma BraceSafeConcat(a: string, b: string)
    requires BraceSafe(a) && BraceSafe(b)
    ensures BraceSafe(a + b)
  {
    forall i | 0 <= i < |a + b| && (a + b)[i] == '{'
      ensures i + 1 < |a + b| && (a + b)[i + 1] !in "PVJ"
    {
      if i < |a| {
        assert a[i] == '{';
      } else {
        assert b[i - |a|] == '{';
      }
    }
  }

  /** A brace-safe text cannot hold a placeholder, nor start one that spills
      into what follows. */
  lemma AbsentAfterSafe(a: string, b: string, p: string)
    requires |p| >= 2 && p[0] == '{' && p[1] in "PVJ"
    requires BraceSafe(a) && !Contains(b, p)
    ensures !Contains(a + b, p)
  {
    var s := a + b;
    forall i
      ensures !Occurs(s, p, i)
    {
      if 0 <= i < |a| && i + |p| <= |s| {
        if s[i] == '{' {
          assert a[i] == '{';
          assert s[i + 1] == a[i + 1];
          assert s[i..i + |p|][1] == s[i + 1];
        } else {
          assert s[i..i + |p|][0] == s[i];
        }
      } else if i >= |a| {
        OccursInRight(a, b, p, i);
      }
    }
  }

  lemma SafeAbsent(a: string, p: string)
    requires |p| >= 2 && p[0] == '{' && p[1] in "PVJ"
    requires BraceSafe(a)
    ensures !Contains(a, p)
  {
    assert !Contains([], p);
    AbsentAfterSafe(a, [], p);
    assert a + [] == a;
  }

  /** The shape shared by the three placeholders: `{`, a name starting with
      one of `P`, `V`, `J`, and a closing `}` that occurs nowhere before. */
  ghost predicate Placeholder(p: string) {
    |p| >= 2 && EndsUnique(p) && p[0] == '{' && p[1] in "PVJ" &&
    p[|p| - 1] == '}' && '}' !in p[..|p| - 1]
  }

  /** `{`, a non-empty name free of braces, `}`. */
  lemma BracedIsPlaceholder(name: string)
    requires |name| > 0 && name[0] in "PVJ"
    requires '{' !in name && '}' !in name
    ensures Placeholder("{" + name + "}")
  {
    var p := "{" + name + "}";
    assert p[1..] == name + "}";
    assert p[..|p| - 1] == "{" + name;
  }

  lemma DescriptionsKeyShape()
    ensures Placeholder(DescriptionsKey) && 'P' in DescriptionsKey
  {
    BracedIsPlaceholder(DescriptionsName);
    assert DescriptionsKey[1] == 'P';
  }

  lemma VoiceKeyShape()
    ensures Placeholder(VoiceKey) && 'P' !in VoiceKey && 'V' in VoiceKey
  {
    BracedIsPlaceholder(VoiceName);
    assert VoiceKey[1] == 'V';
  }

  lemma FieldsKeyShape()
    ensures Placeholder(FieldsKey) && 'P' !in FieldsKey && 'V' !in FieldsKey
  {
    BracedIsPlaceholder(FieldsName);
  }

  lemma KeysApart()
    ensures Placeholder(DescriptionsKey) && Placeholder(VoiceKey) && Placeholder(FieldsKey)
    ensures !Contains(VoiceKey, DescriptionsKey) && !Contains(FieldsKey, DescriptionsKey)
    ensures !Contains(FieldsKey, VoiceKey)
  {
    DescriptionsKeyShape();
    VoiceKeyShape();
    FieldsKeyShape();
    AbsentByMissingChar(VoiceKey, DescriptionsKey, 'P');
    AbsentByMissingChar(FieldsKey, DescriptionsKey, 'P');
    AbsentByMissingChar(FieldsKey, VoiceKey, 'V');
  }

  /** Once a placeholder closes, no other placeholder can span past its `}`. */
  lemma ClosedKey(k: string, rest: string, p: string)
    requires Placeholder(k) && Placeholder(p) && !Contains(k, p)
    requires !Contains(rest, p)
    ensures !Contains(k + rest, p)
  {
    AbsentConcat(k, rest, p);
  }

  /** Replacing the first of three distinct placeholders laid out in order. */
  lemma SubstituteFirst(a: string, b: string, c: string, d: string,
                        p1: string, p2: string, p3: string, r: string)
    requires Placeholder(p1) && Placeholder(p2) && Placeholder(p3)
    requires !Contains(p2, p1) && !Contains(p3, p1)
    requires BraceSafe(a) && BraceSafe(b) && BraceSafe(c) && BraceSafe(d)
    ensures ReplaceAll(a + p1 + b + p2 + c + p3 + d, p1, r) == a + r + b + p2 + c + p3 + d
  {
    SafeAbsent(d, p1);
    ClosedKey(p3, d, p1);
    AbsentAfterSafe(c, p3 + d, p1);
    ClosedKey(p2, c + (p3 + d), p1);
    var rest := b + (p2 + (c + (p3 + d)));
    AbsentAfterSafe(b, p2 + (c + (p3 + d)), p1);
    SafeAbsent(a, p1);
    assert a + p1 + b + p2 + c + p3 + d == a + p1 + rest;
    ReplaceSingle(a, p1, rest, r);
    assert a + r + rest == a + r + b + p2 + c + p3 + d;
  }

  lemma SubstituteDescriptions(a: string, b: string, c: string, d: string, descriptions: string)
    requires BraceSafe(a) && BraceSafe(b) && BraceSafe(c) && BraceSafe(d)
    ensures ReplaceAll(a + DescriptionsKey + b + VoiceKey + c + FieldsKey + d, DescriptionsKey, descriptions)
            == a + descriptions + b + VoiceKey + c + FieldsKey + d
  {
    KeysApart();
    SubstituteFirst(a, b, c, d, DescriptionsKey, VoiceKey, FieldsKey, descriptions);
  }

  /** Replacing the first of two distinct placeholders laid out in order. */
  lemma SubstituteSecond(x: string, c: string, d: string, p2: string, p3: string, r: string)
    requires Placeholder(p2) && Placeholder(p3) && !Contains(p3, p2)
    requires BraceSafe(x) && BraceSafe(c) && BraceSafe(d)
    ensures ReplaceAll(x + p2 + c + p3 + d, p2, r) == x + r + c + p3 + d
  {
    SafeAbsent(x, p2);
    SafeAbsent(d, p2);
    ClosedKey(p3, d, p2);
    AbsentAfterSafe(c, p3 + d, p2);
    assert x + p2 + c + p3 + d == x + p2 + (c + (p3 + d));
    ReplaceSingle(x, p2, c + (p3 + d), r);
    assert x + r + (c + (p3 + d)) == x + r + c + p3 + d;
  }

  lemma SubstituteVoice(x: string, c: string, d: string, voice: string)
    requires BraceSafe(x) && BraceSafe(c) && BraceSafe(d)
    ensures ReplaceAll(x + VoiceKey + c + FieldsKey + d, VoiceKey, voice) == x + voice + c + FieldsKey + d
  {
    KeysApart();
    SubstituteSecond(x, c, d, VoiceKey, FieldsKey, voice);
  }

  /** Replacing a lone placeholder. */
  lemma SubstituteLast(y: string, d: string, p3: string, r: string)
    requires Placeholder(p3)
    requires BraceSafe(y) && BraceSafe(d)
    ensures ReplaceAll(y + p3 + d, p3, r) == y + r + d
  {
    SafeAbsent(y, p3);
    SafeAbsent(d, p3);
    ReplaceSingle(y, p3, d, r);
  }

  lemma SubstituteFields(y: string, d: string, fields: string)
    requires BraceSafe(y) && BraceSafe(d)
    ensures ReplaceAll(y + FieldsKey + d, FieldsKey, fields) == y + fields + d
  {
    FieldsKeyShape();
    SubstituteLast(y, d, FieldsKey, fields);
  }

  /**
   * A template made of brace-safe text around one copy of each placeholder,
   * in the order descriptions, voice, fields, comes out with each placeholder
   * replaced by its section, provided the sections are brace-safe too.
   */
  lemma FillTemplateLayout(a: string, b: string, c: string, d: string,
                           descriptions: string, voice: string, fields: string)
    requires BraceSafe(a) && BraceSafe(b) && BraceSafe(c) && BraceSafe(d)
    requires BraceSafe(descriptions) && BraceSafe(voice) && BraceSafe(fields)
    ensures FillTemplate(a + DescriptionsKey + b + VoiceKey + c + FieldsKey + d, descriptions, voice, fields)
            == a + descriptions + b + voice + c + fields + d
  {
    SubstituteDescriptions(a, b, c, d, descriptions);
    var x := a + descriptions + b;
    BraceSafeConcat(a, descriptions);
    BraceSafeConcat(a + descriptions, b);
    SubstituteVoice(x, c, d, voice);
    var y := x + voice + c;
    BraceSafeConcat(x, voice);
    BraceSafeConcat(x + voice, c);
    SubstituteFields(y, d, fields);
  }

  /** What the prompt texts must avoid for the sections to land verbatim. */
  ghost predicate SafePersona(p: Persona) {
    BraceSafe(p.personaId) && BraceSafe(p.name) && BraceSafe(p.description) &&
    BraceSafe(p.style) && BraceSafe(p.example)
  }

  lemma {:induction false} JoinSafe(sep: string, xs: seq<string>)
    requires BraceSafe(sep)
    requires forall i :: 0 <= i < |xs| ==> BraceSafe(xs[i])
    ensures BraceSafe(Join(sep, xs))
    decreases |xs|
  {
    if |xs| == 0 {
      BraceFreeIsSafe("");
    } else if |xs| > 1 {
      JoinSafe(sep, xs[1..]);
      BraceSafeConcat(xs[0], sep);
      BraceSafeConcat(xs[0] + sep, Join(sep, xs[1..]));
    }
  }

  lemma DescriptionLineSafe(n: nat, p: Persona)
    requires SafePersona(p)
    ensures BraceSafe(DescriptionLine(n, p))
  {
    var s0 := Decimal(n);
    BraceFreeIsSafe(s0);
    BraceFreeIsSafe(". **");
    BraceFreeIsSafe("**: ");
    BraceFreeIsSafe("\n   スタイル: ");
    BraceFreeIsSafe("\n   例: ");
    var s1 := s0 + ". **";
    BraceSafeConcat(s0, ". **");
    var s2 := s1 + p.name;
    BraceSafeConcat(s1, p.name);
    var s3 := s2 + "**: ";
    BraceSafeConcat(s2, "**: ");
    var s4 := s3 + p.description;
    BraceSafeConcat(s3, p.description);
    var s5 := s4 + "\n   スタイル: ";
    BraceSafeConcat(s4, "\n   スタイル: ");
    var s6 := s5 + p.style;
    BraceSafeConcat(s5, p.style);
    var s7 := s6 + "\n   例: ";
    BraceSafeConcat(s6, "\n   例: ");
    BraceSafeConcat(s7, p.example);
  }

  lemma FieldLineSafe(p: Persona)
    requires SafePersona(p)
    ensures BraceSafe(FieldLine(p))
  {
    BraceFreeIsSafe("  \"");
    BraceFreeIsSafe("\": \"");
    BraceFreeIsSafe(FieldComment);
    BraceFreeIsSafe("\"");
    var s1 := "  \"" + p.personaId;
    BraceSafeConcat("  \"", p.personaId);
    var s2 := s1 + "\": \"";
    BraceSafeConcat(s1, "\": \"");
    var s3 := s2 + FieldComment;
    BraceSafeConcat(s2, FieldComment);
    BraceSafeConcat(s3, "\"");
  }

  lemma SectionsSafe(selected: seq<Persona>, voiceContext: string)
    requires forall i :: 0 <= i < |selected| ==> SafePersona(selected[i])
    requires BraceSafe(voiceContext)
    ensures BraceSafe(Join("\n", DescriptionLines(selected)))
    ensures BraceSafe(Join("\n", FieldLines(selected)))
    ensures BraceSafe(VoiceSection(voiceContext))
  {
    BraceFreeIsSafe("\n");
    var descs := DescriptionLines(selected);
    forall i | 0 <= i < |selected|
      ensures BraceSafe(descs[i])
    {
      DescriptionLineSafe(i + 1, selected[i]);
    }
    JoinSafe("\n", descs);
    var fields := FieldLines(selected);
    forall i | 0 <= i < |selected|
      ensures BraceSafe(fields[i])
    {
      FieldLineSafe(selected[i]);
    }
    JoinSafe("\n", fields);
    BraceFreeIsSafe(VoiceHeading);
    BraceFreeIsSafe("");
    BraceSafeConcat(VoiceHeading, voiceContext);
  }

  /** The fixed text of the fallback template cannot form a placeholder. */
  lemma FallbackPiecesSafe()
    ensures BraceSafe(FallbackHead) && BraceSafe(FallbackGap)
    ensures BraceSafe(FallbackMiddle) && BraceSafe(FallbackTail)
  {
    BraceFreeIsSafe("あなたは複数の異なる人格として、");
    BraceFreeIsSafe("ゲーム配信に対してコメントしてください。\n\n");
    BraceSafeConcat("あなたは複数の異なる人格として、", "ゲーム配信に対してコメントしてください。\n\n");
    BraceFreeIsSafe(FallbackGap);
    BraceFreeIsSafe(FallbackTail);
    BraceFreeIsSafe("\n\n**出力形式：**\n```json\n");
    assert BraceSafe("{\n");
    BraceSafeConcat("\n\n**出力形式：**\n```json\n", "{\n");
  }

  /**
   * Without a prompt file the fallback template is filled in place: the
   * numbered descriptions, then the voice section (empty without voice
   * context), then one JSON member line per persona, each exactly where its
   * placeholder stood.
   */
  lemma FallbackPromptLayout(selected: seq<Persona>, voiceContext: string)
    requires forall i :: 0 <= i < |selected| ==> SafePersona(selected[i])
    requires BraceSafe(voiceContext)
    ensures CreatePromptForPersonas(selected, voiceContext, TemplateNotFound) ==
            FallbackHead + Join("\n", DescriptionLines(selected)) + FallbackGap + VoiceSection(voiceContext)
            + FallbackMiddle + Join("\n", FieldLines(selected)) + FallbackTail
  {
    SectionsSafe(selected, voiceContext);
    FallbackPiecesSafe();
    FillTemplateLayout(FallbackHead, FallbackGap, FallbackMiddle, FallbackTail,
      Join("\n", DescriptionLines(selected)), VoiceSection(voiceContext), Join("\n", FieldLines(selected)));
  }

  /** A text with no `{` passes through the three replacements unchanged. */
  lemma PlainFill(template: string, descriptions: string, voice: string, fields: string)
    requires '{' !in template
    ensures FillTemplate(template, descriptions, voice, fields) == template
  {
    AbsentByMissingChar(template, DescriptionsKey, '{');
    AbsentByMissingChar(template, VoiceKey, '{');
    AbsentByMissingChar(template, FieldsKey, '{');
    ReplaceAbsent(template, DescriptionsKey, descriptions);
    ReplaceAbsent(template, VoiceKey, voice);
    ReplaceAbsent(template, FieldsKey, fields);
  }

  /** A prompt file with no `{` at all is returned as read, whatever the
      personas, and exactly as stored when it has no carriage return; the
      error template is returned unchanged too. */
  lemma PlainTemplateUnchanged(template: string, selected: seq<Persona>, voiceContext: string)
    requires '{' !in template
    ensures CreatePromptForPersonas(selected, voiceContext, TemplateText(template)) == ReadNewlines(template)
    ensures '\r' !in template ==> CreatePromptForPersonas(selected, voiceContext, TemplateText(template)) == template
    ensures CreatePromptForPersonas(selected, voiceContext, TemplateError) == ErrorTemplate
  {
    var descriptions := Join("\n", DescriptionLines(selected));
    var voice := VoiceSection(voiceContext);
    var fields := Join("\n", FieldLines(selected));
    ReadKeepsChar(template, '{');
    PlainFill(ReadNewlines(template), descriptions, voice, fields);
    if '\r' !in template {
      ReadPlain(template);
    }
    assert '{' !in ErrorTemplate;
    PlainFill(ErrorTemplate, descriptions, voice, fields);
  }
}
