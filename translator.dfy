/** The translator of src/index.js:289-370 and its variant
    src/-translator/index.js. `load` takes a snapshot of a language table and
    the translations, `use(lang)` builds the lookup table of one language, and
    `translate` looks a key up and fills in its placeholders. The plural
    functions are the default table of the PluralRules module. */
module Translation {
  import opened Js
  import opened PluralRules
  import opened Placeholders
  import opened RegistryModel

  /** What `load` accepts: the rows of `toMinifiedJSON`, or an object with a
      language table and a `phrases` object that maps each phrase to its
      per-language translations. */
  datatype Input =
    | Minified(rows: seq<Row>)
    | Keyed(langs: seq<(string, int)>, phrases: seq<(string, map<string, Value>)>)

  /** The three fields `load` assigns together: `langs`, `phrases` (undefined
      for rows) and `translations`, one array per language. */
  datatype Snapshot = Snapshot(langs: seq<(string, int)>, phrases: Option<seq<string>>,
                               translations: map<string, seq<Value>>)

  /** Every language of the table has its array, and with phrases every array
      is as long as the phrase list. */
  ghost predicate Consistent(s: Snapshot)
  {
    && DistinctKeys(s.langs)
    && (forall l :: l in s.translations <==> l in KeysOf(s.langs))
    && (s.phrases.Some? ==> forall l :: l in s.translations ==> |s.translations[l]| == |s.phrases.value|)
  }

  // ---------------------------------------------------------------------------
  // `load`
  // ---------------------------------------------------------------------------

  /** `langs[row[0]] = row[1]`, row after row. */
  function RowLangs(rows: seq<Row>): (t: seq<(string, int)>)
    ensures DistinctKeys(t)
  {
    if rows == [] then [] else Put(RowLangs(rows[..|rows| - 1]), rows[|rows| - 1].lang, rows[|rows| - 1].rule)
  }

  /** `translations[row[0]] = ` the rest of the row, row after row. */
  function RowTranslations(rows: seq<Row>): map<string, seq<Value>>
  {
    if rows == [] then map[]
    else RowTranslations(rows[..|rows| - 1])[rows[|rows| - 1].lang := rows[|rows| - 1].cells]
  }

  /** `Object.assign(langs, entries.langs)` on an empty object. */
  function Assign(entries: seq<(string, int)>): (t: seq<(string, int)>)
    ensures DistinctKeys(t)
  {
    if entries == [] then [] else Put(Assign(entries[..|entries| - 1]), entries[|entries| - 1].0, entries[|entries| - 1].1)
  }

  /** The array the object form builds for `lang`: each phrase's value for it,
      in phrase order, `undefined` where a phrase has none. */
  function PhraseColumn(phrases: seq<(string, map<string, Value>)>, lang: string): (c: seq<Value>)
    ensures |c| == |phrases|
  {
    if phrases == [] then []
    else PhraseColumn(phrases[..|phrases| - 1], lang) + [Get(phrases[|phrases| - 1].1, lang)]
  }

  /** One array per language of the table, built from the phrases. */
  function Columns(langKeys: seq<string>, phrases: seq<(string, map<string, Value>)>): map<string, seq<Value>>
  {
    map l | l in langKeys :: PhraseColumn(phrases, l)
  }

  /** The fields `load` leaves behind. */
  function SnapshotOf(input: Input): (s: Snapshot)
    ensures Consistent(s)
  {
    match input
    case Minified(rows) =>
      RowKeys(rows);
      Snapshot(RowLangs(rows), None, RowTranslations(rows))
    case Keyed(ls, ps) =>
      var langs := Assign(ls);
      Snapshot(langs, Some(KeysOf(ps)), Columns(KeysOf(langs), ps))
  }

  /** A language has an array exactly when some row names it. */
  lemma {:induction false} RowKeys(rows: seq<Row>)
    ensures forall l :: l in RowTranslations(rows) <==> l in KeysOf(RowLangs(rows))
  {
    if rows != [] {
      RowKeys(rows[..|rows| - 1]);
    }
  }

  /** One more row, one more assignment to each field. */
  lemma {:induction false} RowsSnoc(rows: seq<Row>, i: nat)
    requires i < |rows|
    ensures RowLangs(rows[..i + 1]) == Put(RowLangs(rows[..i]), rows[i].lang, rows[i].rule)
    ensures RowTranslations(rows[..i + 1]) == RowTranslations(rows[..i])[rows[i].lang := rows[i].cells]
  {
    assert rows[..i + 1][..i] == rows[..i];
  }

  /** The array form of `load` (src/index.js:308-314, src/-translator/index.js:22-28). */
  method LoadRows(rows: seq<Row>) returns (langs: seq<(string, int)>, translations: map<string, seq<Value>>)
    ensures langs == RowLangs(rows) && translations == RowTranslations(rows)
  {
    langs := [];
    translations := map[];
    for i := 0 to |rows|
      invariant langs == RowLangs(rows[..i]) && translations == RowTranslations(rows[..i])
    {
      RowsSnoc(rows, i);
      langs := Put(langs, rows[i].lang, rows[i].rule);
      translations := translations[rows[i].lang := rows[i].cells];
    }
    assert rows[..|rows|] == rows;
  }

  /** `Object.assign(langs, entries.langs)` (src/index.js:319, src/-translator/index.js:33). */
  method AssignAll(entries: seq<(string, int)>) returns (langs: seq<(string, int)>)
    ensures langs == Assign(entries)
  {
    langs := [];
    for i := 0 to |entries|
      invariant langs == Assign(entries[..i])
    {
      assert entries[..i + 1][..i] == entries[..i];
      langs := Put(langs, entries[i].0, entries[i].1);
    }
    assert entries[..|entries|] == entries;
  }

  /** `translations[lang] = []` for every language. */
  method EmptyArrays(langKeys: seq<string>) returns (translations: map<string, seq<Value>>)
    ensures forall l :: l in translations <==> l in langKeys
    ensures forall l :: l in translations ==> translations[l] == []
  {
    translations := map[];
    for k := 0 to |langKeys|
      invariant forall l :: l in translations <==> l in langKeys[..k]
      invariant forall l :: l in translations ==> translations[l] == []
    {
      assert langKeys[..k + 1] == langKeys[..k] + [langKeys[k]];
      translations := translations[langKeys[k] := []];
    }
    assert langKeys[..|langKeys|] == langKeys;
  }

  /** `for (const lang of langKeys) translations[lang].push(translation[lang])`. */
  method PushEach(translations: map<string, seq<Value>>, langKeys: seq<string>, translation: map<string, Value>)
    returns (r: map<string, seq<Value>>)
    requires NoDup(langKeys) && forall l :: l in langKeys ==> l in translations
    ensures forall l :: l in r <==> l in translations
    ensures forall l :: l in r ==>
      r[l] == if l in langKeys then translations[l] + [Get(translation, l)] else translations[l]
  {
    r := translations;
    for k := 0 to |langKeys|
      invariant forall l :: l in r <==> l in translations
      invariant forall l :: l in r ==>
        r[l] == if l in langKeys[..k] then translations[l] + [Get(translation, l)] else translations[l]
    {
      assert langKeys[..k + 1] == langKeys[..k] + [langKeys[k]];
      r := r[langKeys[k] := r[langKeys[k]] + [Get(translation, langKeys[k])]];
    }
    assert langKeys[..|langKeys|] == langKeys;
  }

  /** One more phrase, one more item in each language's array. */
  lemma {:induction false} ColumnSnoc(ps: seq<(string, map<string, Value>)>, i: nat, lang: string)
    requires i < |ps|
    ensures PhraseColumn(ps[..i + 1], lang) == PhraseColumn(ps[..i], lang) + [Get(ps[i].1, lang)]
  {
    assert ps[..i + 1][..i] == ps[..i];
  }

  /** The phrase loop of the object form (src/index.js:321-328, src/-translator/index.js:35-42). */
  method PushPhrases(langKeys: seq<string>, entryPhrases: seq<(string, map<string, Value>)>)
    returns (phrases: seq<string>, translations: map<string, seq<Value>>)
    requires NoDup(langKeys)
    ensures phrases == KeysOf(entryPhrases)
    ensures forall l :: l in translations <==> l in langKeys
    ensures forall l :: l in translations ==> translations[l] == PhraseColumn(entryPhrases, l)
  {
    translations := EmptyArrays(langKeys);
    phrases := [];
    for i := 0 to |entryPhrases|
      invariant |phrases| == i && forall m :: 0 <= m < i ==> phrases[m] == entryPhrases[m].0
      invariant forall l :: l in translations <==> l in langKeys
      invariant forall l :: l in translations ==> translations[l] == PhraseColumn(entryPhrases[..i], l)
    {
      forall l | l in langKeys {
        ColumnSnoc(entryPhrases, i, l);
      }
      phrases := phrases + [entryPhrases[i].0];
      translations := PushEach(translations, langKeys, entryPhrases[i].1);
    }
    assert entryPhrases[..|entryPhrases|] == entryPhrases;
  }

  /** The object form of `load` (src/index.js:315-329, src/-translator/index.js:29-43). */
  method LoadKeyed(entryLangs: seq<(string, int)>, entryPhrases: seq<(string, map<string, Value>)>)
    returns (langs: seq<(string, int)>, phrases: seq<string>, translations: map<string, seq<Value>>)
    ensures langs == Assign(entryLangs) && phrases == KeysOf(entryPhrases)
    ensures translations == Columns(KeysOf(langs), entryPhrases)
  {
    langs := AssignAll(entryLangs);
    phrases, translations := PushPhrases(KeysOf(langs), entryPhrases);
  }

  /** Both forms of `load`. */
  method Take(input: Input) returns (s: Snapshot)
    ensures s == SnapshotOf(input)
  {
    match input
    case Minified(rows) =>
      var langs, translations := LoadRows(rows);
      s := Snapshot(langs, None, translations);
    case Keyed(ls, ps) =>
      var langs, phrases, translations := LoadKeyed(ls, ps);
      s := Snapshot(langs, Some(phrases), translations);
  }

  // ---------------------------------------------------------------------------
  // `use`
  // ---------------------------------------------------------------------------

  /** `pluralFunctions[langs[lang]]` for the default table: the rule `lang`
      names, if the table has a function for it. */
  function RuleOf(langs: seq<(string, int)>, lang: string): (r: Option<nat>)
    ensures r.Some? ==> r.value < RuleCount && Lookup(langs, lang) == Some(r.value as int)
    ensures r.None? ==> Lookup(langs, lang).None? || !(0 <= Lookup(langs, lang).value < RuleCount)
  {
    match Lookup(langs, lang)
    case Some(n) => if 0 <= n < RuleCount then Some(n) else None
    case None => None
  }

  /** The key of position `i`: the phrase, or the index without phrases. */
  function KeyAt(phrases: Option<seq<string>>, i: nat): Value
    requires phrases.Some? ==> i < |phrases.value|
  {
    if phrases.Some? then Str(phrases.value[i]) else Num(i)
  }

  /** The table `use` builds from one language's array: the key of each
      position maps to its value, a later position overwriting an earlier one. */
  function DictOf(phrases: Option<seq<string>>, t: seq<Value>): map<Value, Value>
    requires phrases.Some? ==> |t| <= |phrases.value|
  {
    if t == [] then map[] else DictOf(phrases, t[..|t| - 1])[KeyAt(phrases, |t| - 1) := t[|t| - 1]]
  }

  /** One more position, one more entry in the table. */
  lemma {:induction false} DictSnoc(phrases: Option<seq<string>>, t: seq<Value>, i: nat)
    requires i < |t| && (phrases.Some? ==> |t| <= |phrases.value|)
    ensures DictOf(phrases, t[..i + 1]) == DictOf(phrases, t[..i])[KeyAt(phrases, i) := t[i]]
  {
    assert t[..i + 1][..i] == t[..i];
  }

  /** The dictionary loop of `use` (src/index.js:343-350): a fresh `Map` from
      each position's key to its value. */
  method BuildDictionary(phrases: Option<seq<string>>, t: seq<Value>) returns (d: map<Value, Value>)
    requires phrases.Some? ==> |t| <= |phrases.value|
    ensures d == DictOf(phrases, t)
  {
    d := map[];
    for i := 0 to |t|
      invariant d == DictOf(phrases, t[..i])
    {
      DictSnoc(phrases, t, i);
      d := d[KeyAt(phrases, i) := t[i]];
    }
    assert t[..|t|] == t;
  }

  /** `map.get(key)`: the stored value, or `undefined`. */
  function Find(m: map<Value, Value>, k: Value): Value
  {
    if k in m then m[k] else Undefined
  }

  /** Without phrases the table holds exactly the indices of the array, each
      with its value. */
  lemma {:induction false} DictIndexed(t: seq<Value>)
    ensures forall k :: k in DictOf(None, t) <==> k.Num? && 0 <= k.num < |t|
    ensures forall i :: 0 <= i < |t| ==> Find(DictOf(None, t), Num(i)) == t[i]
  {
    if t != [] {
      var init := t[..|t| - 1];
      DictIndexed(init);
      assert forall i :: 0 <= i < |init| ==> init[i] == t[i];
    }
  }

  /** With distinct phrases the table holds exactly the phrases, each with the
      value at its position. */
  lemma {:induction false} DictKeyed(ps: seq<string>, t: seq<Value>)
    requires NoDup(ps) && |t| <= |ps|
    ensures forall k :: k in DictOf(Some(ps), t) <==> k.Str? && k.str in ps[..|t|]
    ensures forall i :: 0 <= i < |t| ==> Find(DictOf(Some(ps), t), Str(ps[i])) == t[i]
  {
    if t != [] {
      var n := |t| - 1;
      DictKeyed(ps, t[..n]);
      assert ps[..n + 1] == ps[..n] + [ps[n]];
      forall i | 0 <= i < n ensures Find(DictOf(Some(ps), t), Str(ps[i])) == t[i] {
        assert ps[i] != ps[n];
        assert t[..n][i] == t[i];
      }
    }
  }

  // ---------------------------------------------------------------------------
  // The translator of src/index.js
  // ---------------------------------------------------------------------------

  /** The language `load` switches to: the current one if the new table has
      it, otherwise the table's first language. */
  function Chosen(current: Option<string>, langs: seq<(string, int)>): (c: Option<string>)
    ensures c.Some? ==> c.value in KeysOf(langs)
    ensures c.None? <==> langs == []
  {
    if current.Some? && current.value in KeysOf(langs) then current
    else if langs != [] then Some(langs[0].0) else None
  }

  /** src/index.js:289-370: `use` builds a fresh `dictionary` and leaves
      everything as it was when the language has no plural function. */
  class Translator {
    /** `langs`, `phrases` and `translations`; None before the first `load`. */
    var data: Option<Snapshot>
    var lang: Option<string>
    /** Which function of the plural table `pluralFunction` is. */
    var rule: Option<nat>
    var dictionary: Option<map<Value, Value>>

    ghost predicate Valid()
      reads this
    {
      && (data.Some? ==> Consistent(data.value))
      && (rule.Some? ==> rule.value < RuleCount)
      && (dictionary.Some? ==> rule.Some?)
    }

    /** `new Translator(entries)`: loads `entries` when they are given. */
    constructor (entries: Option<Input>)
      ensures Valid()
      ensures entries.None? ==> data.None? && lang.None? && rule.None? && dictionary.None?
      ensures entries.Some? ==> data == Some(SnapshotOf(entries.value))
      ensures entries.Some? ==> var s := SnapshotOf(entries.value); var c := Chosen(None, s.langs);
        if c.Some? && RuleOf(s.langs, c.value).Some? then
          lang == c && rule == RuleOf(s.langs, c.value) && dictionary == Some(DictOf(s.phrases, s.translations[c.value]))
        else lang.None? && rule.None? && dictionary.None?
    {
      data := None;
      lang := None;
      rule := None;
      dictionary := None;
      new;
      if entries.Some? {
        Load(entries.value);
      }
    }

    /** `use(lang)` (src/index.js:334-353). Before any `load`, reading
        `this.langs[lang]` is a TypeError. */
    method Use(l: string) returns (r: Result<()>)
      requires Valid()
      modifies this`lang, this`rule, this`dictionary
      ensures Valid()
      ensures data.None? ==> r == Err(TypeError) && lang == old(lang) && rule == old(rule) && dictionary == old(dictionary)
      ensures data.Some? ==> r == Ok(())
      ensures data.Some? && RuleOf(data.value.langs, l).None? ==>
        lang == old(lang) && rule == old(rule) && dictionary == old(dictionary)
      ensures data.Some? && RuleOf(data.value.langs, l).Some? ==>
        && l in data.value.translations
        && lang == Some(l) && rule == RuleOf(data.value.langs, l)
        && dictionary == Some(DictOf(data.value.phrases, data.value.translations[l]))
    {
      if data.None? {
        return Err(TypeError);
      }
      var snap := data.value;
      var found := RuleOf(snap.langs, l);
      if found.Some? {
        lang := Some(l);
        rule := found;
        var d := BuildDictionary(snap.phrases, snap.translations[l]);
        dictionary := Some(d);
      }
      r := Ok(());
    }

    /** `load(entries)` (src/index.js:304-332): takes the snapshot, then `use`s
        the current language if the new table has it, else its first one. */
    method Load(input: Input)
      requires Valid()
      modifies this
      ensures Valid()
      ensures data == Some(SnapshotOf(input))
      ensures var s := SnapshotOf(input); var c := Chosen(old(lang), s.langs);
        if c.Some? && RuleOf(s.langs, c.value).Some? then
          lang == c && rule == RuleOf(s.langs, c.value) && dictionary == Some(DictOf(s.phrases, s.translations[c.value]))
        else lang == old(lang) && rule == old(rule) && dictionary == old(dictionary)
    {
      var snap := Take(input);
      data := Some(snap);
      var c := Chosen(lang, snap.langs);
      if c.Some? {
        var _ := Use(c.value);
      }
    }

    /** `translate(phrase, params)` (src/index.js:355-368): any value that is
        not a string gives the key back, a string comes back verbatim without
        `params`, and is rendered with them; only a translator that never
        `use`d a language fails. */
    function Translate(phrase: Value, params: Option<map<string, Value>>): (r: Result<Value>)
      reads this
      requires Valid()
      ensures r.Err? <==> dictionary.None?
      ensures r.Ok? ==> r.value == phrase || r.value.Str?
      ensures dictionary.Some? && !Find(dictionary.value, phrase).Str? ==> r == Ok(phrase)
      ensures dictionary.Some? && Find(dictionary.value, phrase).Str? && params.None? ==>
        r == Ok(Find(dictionary.value, phrase))
      ensures dictionary.Some? && Find(dictionary.value, phrase).Str? && params.Some? ==>
        var rendered := Render(Find(dictionary.value, phrase).str, params, rule);
        rendered.Ok? && r == Ok(Str(rendered.value))
    {
      if dictionary.None? then Err(TypeError)
      else
        var v := Find(dictionary.value, phrase);
        if !v.Str? then Ok(phrase)
        else if params.None? then Ok(v)
        else
          RenderTotal(v.str, params.value, rule.value);
          Ok(Str(Render(v.str, params, rule).value))
    }
  }

  // ---------------------------------------------------------------------------
  // The translator of src/-translator/index.js
  // ---------------------------------------------------------------------------

  /** src/-translator/index.js: the translator is itself a `Map` from keys to
      translations, which `use` clears and refills; `load` does not `use`. */
  class MapTranslator {
    var data: Option<Snapshot>
    var lang: Option<string>
    var rule: Option<nat>
    /** The entries of the `Map` the translator is. */
    var contents: map<Value, Value>

    ghost predicate Valid()
      reads this
    {
      && (data.Some? ==> Consistent(data.value))
      && (rule.Some? ==> rule.value < RuleCount)
    }

    constructor (entries: Option<Input>)
      ensures Valid() && lang.None? && rule.None? && contents == map[]
      ensures data == if entries.Some? then Some(SnapshotOf(entries.value)) else None
    {
      data := None;
      lang := None;
      rule := None;
      contents := map[];
      new;
      if entries.Some? {
        Load(entries.value);
      }
    }

    /** `load(entries)` (src/-translator/index.js:18-52): only the snapshot changes. */
    method Load(input: Input)
      requires Valid()
      modifies this`data
      ensures Valid() && data == Some(SnapshotOf(input))
    {
      var snap := Take(input);
      data := Some(snap);
    }

    /** `use(lang)` (src/-translator/index.js:54-72): the language is set before
        anything can fail; a language without a plural function clears
        `pluralFunction` and throws, leaving the map as it was. */
    method Use(l: string) returns (r: Result<()>)
      requires Valid()
      modifies this`lang, this`rule, this`contents
      ensures Valid() && lang == Some(l)
      ensures data.None? ==> r == Err(TypeError) && rule == old(rule) && contents == old(contents)
      ensures data.Some? && RuleOf(data.value.langs, l).None? ==>
        r == Err(InvalidPluralRule(Lookup(data.value.langs, l))) && rule.None? && contents == old(contents)
      ensures data.Some? && RuleOf(data.value.langs, l).Some? ==>
        && l in data.value.translations
        && r == Ok(()) && rule == RuleOf(data.value.langs, l)
        && contents == DictOf(data.value.phrases, data.value.translations[l])
    {
      lang := Some(l);
      if data.None? {
        return Err(TypeError);
      }
      var snap := data.value;
      var found := RuleOf(snap.langs, l);
      rule := found;
      if found.None? {
        return Err(InvalidPluralRule(Lookup(snap.langs, l)));
      }
      contents := map[];
      var t := snap.translations[l];
      for i := 0 to |t|
        modifies this`contents
        invariant contents == DictOf(snap.phrases, t[..i])
      {
        DictSnoc(snap.phrases, t, i);
        contents := contents[KeyAt(snap.phrases, i) := t[i]];
      }
      assert t[..|t|] == t;
      r := Ok(());
    }

    /** `translate(phrase, params)` (src/-translator/index.js:74-85): only
        `undefined` gives the key back; any other value is rendered, so a value
        that is not a string, or a placeholder without `params`, throws. */
    function Translate(phrase: Value, params: Option<map<string, Value>>): (r: Result<Value>)
      reads this
      requires Valid()
      ensures r.Err? ==> r.error == TypeError
      ensures r.Ok? ==> r.value == phrase || r.value.Str?
      ensures Find(contents, phrase).Undefined? ==> r == Ok(phrase)
      ensures !Find(contents, phrase).Undefined? && !Find(contents, phrase).Str? ==> r == Err(TypeError)
      ensures Find(contents, phrase).Str? ==>
        var rendered := Render(Find(contents, phrase).str, params, rule);
        r == if rendered.Ok? then Ok(Str(rendered.value)) else Err(rendered.error)
    {
      var v := Find(contents, phrase);
      if v.Undefined? then Ok(phrase)
      else if !v.Str? then Err(TypeError)
      else
        match Render(v.str, params, rule)
        case Ok(out) => Ok(Str(out))
        case Err(e) => Err(e)
    }
  }

  // ---------------------------------------------------------------------------
  // Properties
  // ---------------------------------------------------------------------------

  /** A row's array survives `load` unless a later row names the same
      language: the last row of a language wins. */
  lemma {:induction false} RowsLastWins(rows: seq<Row>, j: nat)
    requires j < |rows|
    requires forall k :: j < k < |rows| ==> rows[k].lang != rows[j].lang
    ensures rows[j].lang in RowTranslations(rows) && RowTranslations(rows)[rows[j].lang] == rows[j].cells
  {
    var n := |rows| - 1;
    if j < n {
      var init := rows[..n];
      assert forall k :: j < k < n ==> init[k] == rows[k];
      RowsLastWins(init, j);
      assert init[j] == rows[j];
    }
  }

  /** Rows that name distinct languages load back into their own table. */
  lemma {:induction false} RowLangsOfTable(rows: seq<Row>, table: seq<(string, int)>)
    requires |rows| == |table| && DistinctKeys(table)
    requires forall j :: 0 <= j < |table| ==> rows[j].lang == table[j].0 && rows[j].rule == table[j].1
    ensures RowLangs(rows) == table
  {
    if rows != [] {
      var n := |rows| - 1;
      DistinctKeysInit(table);
      RowLangsOfTable(rows[..n], table[..n]);
      assert table[..n] + [table[n]] == table;
    }
  }

  /** `Object.assign` onto an empty object keeps a table with distinct keys as it is. */
  lemma {:induction false} AssignDistinct(entries: seq<(string, int)>)
    requires DistinctKeys(entries)
    ensures Assign(entries) == entries
  {
    if entries != [] {
      var n := |entries| - 1;
      DistinctKeysInit(entries);
      AssignDistinct(entries[..n]);
      assert entries[..n] + [entries[n]] == entries;
    }
  }

  /** The object form: each language's array holds, in phrase order, every
      phrase's value for that language, `undefined` where it has none. */
  lemma {:induction false} KeyedColumns(ls: seq<(string, int)>, ps: seq<(string, map<string, Value>)>, l: string, i: nat)
    requires i < |ps| && l in KeysOf(Assign(ls))
    ensures var snap := SnapshotOf(Keyed(ls, ps));
      && snap.phrases == Some(KeysOf(ps))
      && l in snap.translations && |snap.translations[l]| == |ps|
      && snap.translations[l][i] == Get(ps[i].1, l)
  {
    ColumnAt(ps, l, i);
  }

  lemma {:induction false} ColumnAt(ps: seq<(string, map<string, Value>)>, l: string, i: nat)
    requires i < |ps|
    ensures PhraseColumn(ps, l)[i] == Get(ps[i].1, l)
  {
    var n := |ps| - 1;
    if i < n {
      ColumnAt(ps[..n], l, i);
    }
  }

  /** `toMinifiedJSON` followed by `load`: the table comes back as it was,
      without phrases, and position `i` of a language's array is what the
      registry serialised for the `i`-th listed entry. */
  lemma {:induction false} MinifiedRoundTrip(s: seq<EntryState>, table: seq<(string, int)>, strict: bool,
                                             policy: UnusedPolicy, j: nat, i: nat)
    requires DistinctKeys(table) && j < |table| && Rows(s, table, strict, policy).Ok?
    requires Selected(s, strict, policy).Ok? && i < |Selected(s, strict, policy).value|
    ensures var snap := SnapshotOf(Minified(Rows(s, table, strict, policy).value));
      var lang := table[j].0;
      && snap.langs == table && snap.phrases.None?
      && lang in snap.translations
      && Find(DictOf(None, snap.translations[lang]), Num(i)) == Cell(Selected(s, strict, policy).value[i], lang)
  {
    var rows := Rows(s, table, strict, policy).value;
    RowsShape(s, table, strict, policy);
    RowLangsOfTable(rows, table);
    forall k | j < k < |rows| ensures rows[k].lang != rows[j].lang {
      assert KeysOf(table)[k] == rows[k].lang && KeysOf(table)[j] == rows[j].lang;
    }
    RowsLastWins(rows, j);
    DictIndexed(rows[j].cells);
  }

  /** After `load(toMinifiedJSON())` and `use(lang)`, `translate(i)` is the
      `i`-th listed entry's translation, or `i` itself when the entry has none. */
  lemma {:induction false} TranslateMinified(t: Translator, s: seq<EntryState>, table: seq<(string, int)>, strict: bool,
                                             policy: UnusedPolicy, j: nat, i: nat)
    requires DistinctKeys(table) && j < |table| && Rows(s, table, strict, policy).Ok?
    requires Selected(s, strict, policy).Ok? && i < |Selected(s, strict, policy).value|
    requires t.Valid() && t.data == Some(SnapshotOf(Minified(Rows(s, table, strict, policy).value)))
    requires table[j].0 in t.data.value.translations
    requires t.dictionary == Some(DictOf(None, t.data.value.translations[table[j].0]))
    ensures var e := Selected(s, strict, policy).value[i];
      t.Translate(Num(i), None) == Ok(if IsTranslated(e, table[j].0) then e.translations[table[j].0] else Num(i))
  {
    MinifiedRoundTrip(s, table, strict, policy, j, i);
  }

  /** After loading the object form and `use(lang)`, translating a phrase
      gives its string for `lang`, or the phrase itself when there is none. */
  lemma {:induction false} TranslateKeyed(t: Translator, ls: seq<(string, int)>, ps: seq<(string, map<string, Value>)>,
                                          l: string, i: nat)
    requires DistinctKeys(ps) && i < |ps| && l in KeysOf(Assign(ls))
    requires t.Valid() && t.data == Some(SnapshotOf(Keyed(ls, ps)))
    requires t.dictionary == Some(DictOf(Some(KeysOf(ps)), PhraseColumn(ps, l)))
    ensures t.Translate(Str(ps[i].0), None) == Ok(if Get(ps[i].1, l).Str? then Get(ps[i].1, l) else Str(ps[i].0))
  {
    KeyedColumns(ls, ps, l, i);
    DictKeyed(KeysOf(ps), PhraseColumn(ps, l));
  }

  /** The two translators on the same table: they agree on strings with
      parameters and on missing keys; a stored value that is not a string is
      returned as the key by one and throws in the other; without parameters
      one returns the string verbatim while the other throws exactly when the
      string holds a placeholder. */
  lemma {:induction false} TranslateVariants(t: Translator, m: MapTranslator, phrase: Value, params: Option<map<string, Value>>)
    requires t.Valid() && m.Valid() && t.dictionary == Some(m.contents) && t.rule == m.rule
    ensures var v := Find(m.contents, phrase);
      && (v.Undefined? ==> t.Translate(phrase, params) == Ok(phrase) && m.Translate(phrase, params) == Ok(phrase))
      && (!v.Str? && !v.Undefined? ==> t.Translate(phrase, params) == Ok(phrase) && m.Translate(phrase, params) == Err(TypeError))
      && (v.Str? && params.Some? ==> t.Translate(phrase, params) == m.Translate(phrase, params))
      && (v.Str? && params.None? ==>
            && t.Translate(phrase, params) == Ok(v)
            && (m.Translate(phrase, params).Err? <==> exists k :: 0 <= k < |v.str| && PlaceholderAt(v.str[k..]).Some?))
  {
    var v := Find(m.contents, phrase);
    if v.Str? {
      if params.Some? {
        RenderTotal(v.str, params.value, t.rule.value);
      } else {
        RenderNeedsParams(v.str, m.rule);
      }
    }
  }

  // ---------------------------------------------------------------------------
  // Loading the registry's own output
  // ---------------------------------------------------------------------------

  /** A record of `getPhrases` as the object `load` reads back: each language
      to its value. */
  function RecordOf(fields: seq<(string, Value)>): map<string, Value>
  {
    if fields == [] then map[]
    else RecordOf(fields[..|fields| - 1])[fields[|fields| - 1].0 := fields[|fields| - 1].1]
  }

  lemma {:induction false} RecordAt(fields: seq<(string, Value)>, k: nat)
    requires DistinctKeys(fields) && k < |fields|
    ensures Get(RecordOf(fields), fields[k].0) == fields[k].1
  {
    var n := |fields| - 1;
    if k < n {
      var init := fields[..n];
      DistinctKeysInit(fields);
      RecordAt(init, k);
      assert init[k] == fields[k] && KeysOf(init)[k] == fields[k].0;
    }
  }

  /** The object `toJSON()` returns, as `load` reads it. */
  function KeyedOf(json: RegistryJson): (input: Input)
    ensures input.Keyed? && input.langs == json.langs && |input.phrases| == |json.phrases|
    ensures forall i :: 0 <= i < |json.phrases| ==>
      input.phrases[i] == (json.phrases[i].phrase, RecordOf(json.phrases[i].translations))
  {
    Keyed(json.langs, seq(|json.phrases|, i requires 0 <= i < |json.phrases| =>
      (json.phrases[i].phrase, RecordOf(json.phrases[i].translations))))
  }

  /** The entries a serialisation lists keep the registry's unique phrases. */
  lemma {:induction false} SelectedNoDup(s: seq<EntryState>, strict: bool, policy: UnusedPolicy)
    requires NoDup(Phrases(s)) && Selected(s, strict, policy).Ok?
    ensures NoDup(Phrases(Selected(s, strict, policy).value))
  {
    if strict && policy.Skip? {
      UsedNoDup(s);
    }
  }

  lemma {:induction false} UsedNoDup(s: seq<EntryState>)
    requires NoDup(Phrases(s))
    ensures NoDup(Phrases(Used(s)))
  {
    if s != [] {
      var n := |s| - 1;
      var init := s[..n];
      assert Phrases(init) == Phrases(s)[..n];
      UsedNoDup(init);
      UsedMembers(init);
      if IsUsed(s[n]) {
        var prev := Used(init);
        forall k | 0 <= k < |prev| ensures prev[k].phrase != s[n].phrase {
          assert prev[k] in init;
          var m :| 0 <= m < n && init[m] == prev[k];
          assert Phrases(s)[m] == prev[k].phrase;
        }
        assert Phrases(prev + [s[n]]) == Phrases(prev) + [s[n].phrase];
      }
    }
  }

  /** `toJSON()` followed by `load`: the table comes back as it was, the phrase
      list is the listed entries' phrases in order (and a valid key list), and
      position `i` of a language's array is what the registry serialised for the
      `i`-th listed entry. */
  lemma {:induction false} KeyedRoundTrip(s: seq<EntryState>, table: seq<(string, int)>, strict: bool,
                                          policy: UnusedPolicy, noSource: bool, j: nat, i: nat)
    requires NoDup(Phrases(s)) && DistinctKeys(table) && j < |table|
    requires PhrasesJson(s, KeysOf(table), strict, policy, noSource).Ok?
    requires Selected(s, strict, policy).Ok? && i < |Selected(s, strict, policy).value|
    ensures var sel := Selected(s, strict, policy).value;
      var input := KeyedOf(RegistryJson(table, PhrasesJson(s, KeysOf(table), strict, policy, noSource).value));
      var snap := SnapshotOf(input);
      && DistinctKeys(input.phrases)
      && snap.langs == table && snap.phrases == Some(Phrases(sel))
      && table[j].0 in snap.translations && snap.translations[table[j].0][i] == Cell(sel[i], table[j].0)
  {
    var sel := Selected(s, strict, policy).value;
    var langs := KeysOf(table);
    var json := JsonAll(sel, langs, strict, noSource).value;
    var input := KeyedOf(RegistryJson(table, json));
    SelectedNoDup(s, strict, policy);
    forall k | 0 <= k < |sel| ensures input.phrases[k].0 == sel[k].phrase {
      JsonAllAt(sel, langs, strict, noSource, k);
      EntryShape(sel[k], langs, strict, noSource);
    }
    assert KeysOf(input.phrases) == Phrases(sel);
    JsonAllAt(sel, langs, strict, noSource, i);
    EntryShape(sel[i], langs, strict, noSource);
    assert KeysOf(json[i].translations)[j] == table[j].0;
    RecordAt(json[i].translations, j);
    AssignDistinct(table);
    KeyedColumns(table, input.phrases, table[j].0, i);
  }

  /** After `load(toJSON())` and `use(lang)`, translating the `i`-th listed
      entry's phrase gives its translation, or the phrase itself when the entry
      has none. */
  lemma {:induction false} TranslateRegistry(t: Translator, s: seq<EntryState>, table: seq<(string, int)>, strict: bool,
                                             policy: UnusedPolicy, noSource: bool, j: nat, i: nat)
    requires NoDup(Phrases(s)) && DistinctKeys(table) && j < |table|
    requires PhrasesJson(s, KeysOf(table), strict, policy, noSource).Ok?
    requires Selected(s, strict, policy).Ok? && i < |Selected(s, strict, policy).value|
    requires t.Valid()
    requires t.data == Some(SnapshotOf(KeyedOf(RegistryJson(table, PhrasesJson(s, KeysOf(table), strict, policy, noSource).value))))
    requires table[j].0 in t.data.value.translations && t.data.value.phrases.Some?
    requires t.dictionary == Some(DictOf(t.data.value.phrases, t.data.value.translations[table[j].0]))
    ensures var e := Selected(s, strict, policy).value[i];
      t.Translate(Str(e.phrase), None) == Ok(if IsTranslated(e, table[j].0) then e.translations[table[j].0] else Str(e.phrase))
  {
    var sel := Selected(s, strict, policy).value;
    KeyedRoundTrip(s, table, strict, policy, noSource, j, i);
    SelectedNoDup(s, strict, policy);
    DictKeyed(Phrases(sel), t.data.value.translations[table[j].0]);
  }

  /** The positional and the keyed form agree: with the same language in use,
      `translate(i)` on the minified rows and `translate(phrase)` on the keyed
      object give the same text for a translated entry, whatever the
      parameters; for an untranslated one each gives back its own key. */
  lemma {:induction false} PositionalConsistency(byIndex: Translator, byPhrase: Translator, s: seq<EntryState>,
                                                 table: seq<(string, int)>, strict: bool, policy: UnusedPolicy,
                                                 noSource: bool, j: nat, i: nat, params: Option<map<string, Value>>)
    requires NoDup(Phrases(s)) && DistinctKeys(table) && j < |table|
    requires PhrasesJson(s, KeysOf(table), strict, policy, noSource).Ok?
    requires Selected(s, strict, policy).Ok? && i < |Selected(s, strict, policy).value|
    requires Rows(s, table, strict, policy).Ok?
    requires byIndex.Valid() && byPhrase.Valid() && byIndex.rule == byPhrase.rule
    requires byIndex.data == Some(SnapshotOf(Minified(Rows(s, table, strict, policy).value)))
    requires byPhrase.data == Some(SnapshotOf(KeyedOf(RegistryJson(table, PhrasesJson(s, KeysOf(table), strict, policy, noSource).value))))
    requires table[j].0 in byIndex.data.value.translations && byIndex.data.value.phrases.None?
    requires table[j].0 in byPhrase.data.value.translations && byPhrase.data.value.phrases.Some?
    requires byIndex.dictionary == Some(DictOf(None, byIndex.data.value.translations[table[j].0]))
    requires byPhrase.dictionary == Some(DictOf(byPhrase.data.value.phrases, byPhrase.data.value.translations[table[j].0]))
    ensures var e := Selected(s, strict, policy).value[i];
      && (IsTranslated(e, table[j].0) ==> byIndex.Translate(Num(i), params) == byPhrase.Translate(Str(e.phrase), params))
      && (!IsTranslated(e, table[j].0) ==>
            byIndex.Translate(Num(i), params) == Ok(Num(i)) && byPhrase.Translate(Str(e.phrase), params) == Ok(Str(e.phrase)))
  {
    var sel := Selected(s, strict, policy).value;
    RowsFailLikePhrases(s, table, strict, policy, noSource);
    MinifiedRoundTrip(s, table, strict, policy, j, i);
    KeyedRoundTrip(s, table, strict, policy, noSource, j, i);
    SelectedNoDup(s, strict, policy);
    DictKeyed(Phrases(sel), byPhrase.data.value.translations[table[j].0]);
  }

  // ---------------------------------------------------------------------------
  // The index `minify` writes into the code
  // ---------------------------------------------------------------------------

  /** `minify` rewrites a literal to the decimal text of its entry's registry
      position. After the rows are loaded and a language is `use`d, that text,
      read back as the number it denotes, translates to the entry's translation,
      or to the number itself when the entry has none. This holds whenever the
      rows list every entry: outside strict mode, and in the strict mode of
      src/index.js, which rejects a registry holding an unused entry. */
  lemma {:induction false} MinifyIndexTranslates(t: Translator, s: seq<EntryState>, table: seq<(string, int)>,
                                                 strict: bool, policy: UnusedPolicy, j: nat, phrase: string)
    requires !strict || policy.Reject?
    requires DistinctKeys(table) && j < |table| && Rows(s, table, strict, policy).Ok? && phrase in Phrases(s)
    requires t.Valid() && t.data == Some(SnapshotOf(Minified(Rows(s, table, strict, policy).value)))
    requires table[j].0 in t.data.value.translations
    requires t.dictionary == Some(DictOf(None, t.data.value.translations[table[j].0]))
    ensures var k := IndexOfPhrase(Phrases(s), phrase);
      && 0 <= k < |s| && s[k].phrase == phrase
      && t.Translate(Num(IntValue(IntToString(k))), None)
           == Ok(if IsTranslated(s[k], table[j].0) then s[k].translations[table[j].0] else Num(k))
  {
    var k := IndexOfPhrase(Phrases(s), phrase);
    RowsShape(s, table, strict, policy);
    assert Selected(s, strict, policy) == Ok(s);
    TranslateMinified(t, s, table, strict, policy, j, k);
  }

  /** A registry whose first entry, `a`, is translated but no longer used in
      the code, and whose second, `b`, is used at line 1 of `f.js`. */
  function UnusedFirst(): (s: seq<EntryState>)
    ensures |s| == 2 && !IsUsed(s[0]) && IsUsed(s[1])
  {
    [EntryState("a", [], map["en" := Str("A")]), EntryState("b", ["f.js:1"], map["en" := Str("B")])]
  }

  /** The rows src/-entries/index.js lists for it in strict mode: `b`'s value only. */
  lemma UnusedFirstRows()
    ensures Rows(UnusedFirst(), [("en", 1)], true, Skip) == Ok([Row("en", 1, [Str("B")])])
  {
    var b := UnusedFirst()[1];
    UnusedFirstListed();
    assert KeysOf([("en", 1)]) == ["en"];
    assert Cells([b], "en") == [Str("B")];
    var rows := Rows(UnusedFirst(), [("en", 1)], true, Skip).value;
    assert rows[0] == RowOf([b], ("en", 1)) == Row("en", 1, [Str("B")]);
    assert rows == [rows[0]];
  }

  /** Its first pass over the listed entries succeeds: `b` is translated. */
  lemma UnusedFirstListed()
    ensures MinifiedEntries(UnusedFirst(), ["en"], true, Skip) == Ok([UnusedFirst()[1]])
  {
    UnusedFirstSelected();
    UnusedFirstJson();
  }

  /** `b` serialises in strict mode: it has its English string. */
  lemma UnusedFirstJson()
    ensures JsonAll([UnusedFirst()[1]], ["en"], true, false).Ok?
  {
    var b := UnusedFirst()[1];
    FieldsFailAtFirstMissing(b, ["en"]);
    assert Fields(b, ["en"], true).Ok?;
    JsonAllOkWhenEach([b], ["en"], true, false);
  }

  /** Strict mode of src/-entries/index.js lists only `b`, at position 0. */
  lemma UnusedFirstSelected()
    ensures Selected(UnusedFirst(), true, Skip) == Ok([UnusedFirst()[1]])
    ensures IndexOfPhrase(Phrases(UnusedFirst()), "b") == 1
    ensures WireIndex(UnusedFirst(), true, Skip, "b") == 0
  {
    var s := UnusedFirst();
    assert Used(s[..1]) == [] && Used(s) == [s[1]];
    assert Phrases(s) == ["a", "b"] && Phrases(Used(s)) == ["b"];
  }

  /** Loading that one row gives English the array `["B"]`, whose table maps
      index 0, and nothing else, to `"B"`. */
  lemma OneRowTable()
    ensures var snap := SnapshotOf(Minified([Row("en", 1, [Str("B")])]));
      "en" in snap.translations && DictOf(None, snap.translations["en"]) == map[Num(0) := Str("B")]
  {
    var rows := [Row("en", 1, [Str("B")])];
    assert rows[..0] == [];
    assert RowTranslations(rows) == map["en" := [Str("B")]];
    assert [Str("B")][..0] == [];
  }

  /** src/-entries/index.js in strict mode lists only the used entries in the
      rows (line 134) but `minify` still writes the registry position
      (line 100): `b` is written as 1, the rows hold one value, and
      `translate(1)` gives 1 back instead of `b`'s translation `"B"`. */
  lemma SkipIndexMisses(t: Translator)
    requires t.Valid() && t.data == Some(SnapshotOf(Minified([Row("en", 1, [Str("B")])])))
    requires t.dictionary == Some(map[Num(0) := Str("B")])
    ensures Rows(UnusedFirst(), [("en", 1)], true, Skip) == Ok([Row("en", 1, [Str("B")])])
    ensures "en" in t.data.value.translations && t.dictionary == Some(DictOf(None, t.data.value.translations["en"]))
    ensures IndexOfPhrase(Phrases(UnusedFirst()), "b") == 1 && UnusedFirst()[1].translations["en"] == Str("B")
    ensures WireIndex(UnusedFirst(), true, Skip, "b") == 0
    ensures IntToString(1) == "1" && t.Translate(Num(1), None) == Ok(Num(1))
  {
    UnusedFirstRows();
    UnusedFirstSelected();
    OneRowTable();
    assert Find(t.dictionary.value, Num(1)) == Undefined;
  }

  /** With the index taken among the listed entries instead, the round trip
      holds in every mode, the skipping strict mode included. */
  lemma {:induction false} WireIndexTranslates(t: Translator, s: seq<EntryState>, table: seq<(string, int)>,
                                               strict: bool, policy: UnusedPolicy, j: nat, phrase: string)
    requires DistinctKeys(table) && j < |table| && Rows(s, table, strict, policy).Ok?
    requires Selected(s, strict, policy).Ok? && phrase in Phrases(Selected(s, strict, policy).value)
    requires t.Valid() && t.data == Some(SnapshotOf(Minified(Rows(s, table, strict, policy).value)))
    requires table[j].0 in t.data.value.translations
    requires t.dictionary == Some(DictOf(None, t.data.value.translations[table[j].0]))
    ensures var sel := Selected(s, strict, policy).value; var k := WireIndex(s, strict, policy, phrase);
      && 0 <= k < |sel| && sel[k].phrase == phrase
      && t.Translate(Num(IntValue(IntToString(k))), None)
           == Ok(if IsTranslated(sel[k], table[j].0) then sel[k].translations[table[j].0] else Num(k))
  {
    TranslateMinified(t, s, table, strict, policy, j, WireIndex(s, strict, policy, phrase));
  }
}
