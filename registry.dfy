/** The classes `Entry` (src/index.js:24-95, src/-entry/index.js) and `Entries`
    (src/index.js:97-221, src/-entries/index.js). Every method is proved to change
    the registry exactly as the corresponding function of RegistryModel says, so
    the properties proved there hold of the objects. */
module Registry {
  import opened Js
  import opened Paths
  import opened LineBreaking
  import opened RegistryModel

  /** The values of the entries of `es`, in order. */
  function States(es: seq<Entry>): (r: seq<EntryState>)
    reads es
    ensures |r| == |es|
    ensures forall i {:trigger r[i]} :: 0 <= i < |es| ==> r[i] == es[i].State()
  {
    if es == [] then [] else States(es[..|es| - 1]) + [es[|es| - 1].State()]
  }

  /** `Array.prototype.indexOf` by object identity. */
  function Position(es: seq<Entry>, e: Entry): (r: int)
    ensures -1 <= r < |es|
    ensures r == -1 <==> e !in es
    ensures r >= 0 ==> es[r] == e && forall i :: 0 <= i < r ==> es[i] != e
  {
    if es == [] then -1
    else if es[0] == e then 0
    else
      var r := Position(es[1..], e);
      if r < 0 then -1 else r + 1
  }

  lemma WithoutSnoc(labels: seq<string>, i: nat, prefix: string)
    requires i < |labels|
    ensures Without(labels[..i + 1], prefix) == Without(labels[..i], prefix) + (if prefix <= labels[i] then [] else [labels[i]])
  {
    assert labels[..i + 1][..i] == labels[..i];
  }

  lemma WriteLangsSnoc(t: map<string, Value>, langs: seq<string>, i: nat, data: map<string, Value>)
    requires i < |langs|
    ensures WriteLangs(t, langs[..i + 1], data) == WriteLangs(t, langs[..i], data)[langs[i] := Get(data, langs[i])]
  {
    assert langs[..i + 1][..i] == langs[..i];
  }

  /** The shape of `resetSrc`'s loop after `i` labels: the kept ones come first,
      the unvisited ones follow, and the cursor `kept` sits between them. */
  ghost predicate ResetShape(labels: seq<string>, i: nat, prefix: string, src: seq<string>, kept: nat)
  {
    i <= |labels| && kept == |Without(labels[..i], prefix)| && src == Without(labels[..i], prefix) + labels[i..]
  }

  /** Deleting the label at the cursor, or stepping over it, moves the shape
      one label further. */
  lemma {:induction false} ResetStep(labels: seq<string>, i: nat, prefix: string, src: seq<string>, kept: nat)
    requires i < |labels| && ResetShape(labels, i, prefix, src, kept)
    ensures kept < |src| && src[kept] == labels[i]
    ensures prefix <= labels[i] ==> ResetShape(labels, i + 1, prefix, src[..kept] + src[kept + 1..], kept)
    ensures !(prefix <= labels[i]) ==> ResetShape(labels, i + 1, prefix, src, kept + 1)
  {
    var w := Without(labels[..i], prefix);
    WithoutSnoc(labels, i, prefix);
    assert labels[i..] == [labels[i]] + labels[i + 1..];
    assert src[..|w|] == w;
    assert src[|w| + 1..] == labels[i + 1..];
  }

  lemma AppendKeepsWellFormed(s: seq<EntryState>, phrase: string)
    requires WellFormed(s) && phrase !in Phrases(s)
    ensures WellFormed(s + [EntryState(phrase, [], map[])])
  {
    assert Phrases(s + [EntryState(phrase, [], map[])]) == Phrases(s) + [phrase];
  }

  lemma AddLabelKeepsWellFormed(s: seq<EntryState>, k: nat, tag: string)
    requires WellFormed(s) && k < |s|
    ensures WellFormed(s[k := s[k].(src := AddLabel(s[k].src, tag))])
  {
    assert Phrases(s[k := s[k].(src := AddLabel(s[k].src, tag))]) == Phrases(s);
  }

  /** `add` of an unknown phrase: append an entry, then record the usage at the end. */
  lemma AddNewCase(s: seq<EntryState>, phrase: string, usage: Option<string>)
    requires IndexOfPhrase(Phrases(s), phrase) < 0
    ensures var u := s + [EntryState(phrase, [], map[])];
      && AddedIndex(s, phrase) == |s|
      && RegistryModel.Add(s, phrase, usage) == if usage.Some? then u[|s| := u[|s|].(src := AddLabel(u[|s|].src, usage.value))] else u
  {
  }

  /** `add` of a known phrase: record the usage at its position. */
  lemma AddKnownCase(s: seq<EntryState>, phrase: string, usage: Option<string>, i: int)
    requires i >= 0 && i == IndexOfPhrase(Phrases(s), phrase)
    ensures && AddedIndex(s, phrase) == i
      && RegistryModel.Add(s, phrase, usage) == if usage.Some? then s[i := s[i].(src := AddLabel(s[i].src, usage.value))] else s
  {
  }

  /** A run of extractions from `s0` over the literals `args` has produced the
      registry `t` and the callbacks `calls`, and every literal's phrase is in `t`. */
  ghost predicate Walked(s0: seq<EntryState>, args: seq<Arg>, table: seq<Offset>, norm: string, record: bool,
                         t: seq<EntryState>, calls: seq<Call>)
  {
    && (forall j :: 0 <= j < |args| ==> args[j].value.Str?)
    && t == Apply(s0, Events(args, table, norm, record))
    && (forall j :: 0 <= j < |args| ==> args[j].value.str in Phrases(t))
    && calls == Calls(t, args)
  }

  lemma LoadSnoc(s: seq<EntryState>, langs: seq<string>, phrases: seq<(string, map<string, Value>)>, i: nat)
    requires i < |phrases|
    ensures RegistryModel.Load(s, langs, phrases[..i + 1]) ==
      LoadOne(RegistryModel.Load(s, langs, phrases[..i]), langs, phrases[i].0, phrases[i].1)
  {
    assert phrases[..i + 1][..i] == phrases[..i];
  }

  lemma MatchedArgsSnoc(nodes: seq<Node>, i: nat, names: seq<string>)
    requires i < |nodes|
    ensures MatchedArgs(nodes[..i + 1], names) ==
      match Matched(nodes[i], names) case Some(a) => MatchedArgs(nodes[..i], names) + [a] case None => MatchedArgs(nodes[..i], names)
  {
    assert nodes[..i + 1][..i] == nodes[..i];
  }

  lemma EventsSnoc(args: seq<Arg>, a: Arg, table: seq<Offset>, norm: string, record: bool)
    requires forall j :: 0 <= j < |args| ==> args[j].value.Str?
    requires a.value.Str?
    ensures Events(args + [a], table, norm, record) == Events(args, table, norm, record) + [EventOf(a, table, norm, record)]
  {
  }

  /** A phrase keeps its position when the list of phrases grows at the end. */
  lemma IndexOfExtended(ps: seq<string>, qs: seq<string>, p: string)
    requires ps <= qs && p in ps
    ensures IndexOfPhrase(qs, p) == IndexOfPhrase(ps, p)
  {
    var r := IndexOfPhrase(ps, p);
    assert qs[r] == p;
    assert forall i :: 0 <= i < r ==> qs[i] == ps[i];
  }

  /** `add` keeps the known phrases in place and makes its phrase known. */
  lemma {:induction false} AddGrows(t: seq<EntryState>, phrase: string, usage: Option<string>)
    requires WellFormed(t)
    ensures Phrases(t) <= Phrases(RegistryModel.Add(t, phrase, usage))
    ensures phrase in Phrases(RegistryModel.Add(t, phrase, usage))
  {
    var t' := RegistryModel.Add(t, phrase, usage);
    if phrase in Phrases(t) {
      AddKnown(t, phrase, usage);
    } else {
      AddAppends(t, phrase, usage);
      assert Phrases(t') == Phrases(t) + [phrase];
    }
  }

  lemma {:induction false} ApplySnoc(s0: seq<EntryState>, args: seq<Arg>, a: Arg, table: seq<Offset>, norm: string, record: bool)
    requires forall j :: 0 <= j < |args| ==> args[j].value.Str?
    requires a.value.Str?
    ensures var ev := EventOf(a, table, norm, record);
      Apply(s0, Events(args + [a], table, norm, record)) == RegistryModel.Add(Apply(s0, Events(args, table, norm, record)), ev.phrase, ev.usage)
  {
    var evs := Events(args, table, norm, record);
    EventsSnoc(args, a, table, norm, record);
    assert (evs + [EventOf(a, table, norm, record)])[..|evs|] == evs;
  }

  /** Earlier callbacks keep their indices when the phrase list only grows. */
  lemma {:induction false} CallsSnoc(t: seq<EntryState>, t': seq<EntryState>, args: seq<Arg>, a: Arg)
    requires forall j :: 0 <= j < |args| ==> args[j].value.Str?
    requires a.value.Str?
    requires Phrases(t) <= Phrases(t')
    requires forall j :: 0 <= j < |args| ==> args[j].value.str in Phrases(t)
    ensures Calls(t', args + [a]) == Calls(t, args) + [Call(IndexOfPhrase(Phrases(t'), a.value.str), a.start, a.end)]
  {
    forall j | 0 <= j < |args|
      ensures IndexOfPhrase(Phrases(t'), args[j].value.str) == IndexOfPhrase(Phrases(t), args[j].value.str)
    {
      IndexOfExtended(Phrases(t), Phrases(t'), args[j].value.str);
    }
  }

  /** One recognised call of a parse run: the registry, the phrases known and the
      callbacks reported so far all advance by that call. */
  lemma {:induction false} ExtractStep(s0: seq<EntryState>, args: seq<Arg>, a: Arg, table: seq<Offset>, norm: string, record: bool)
    requires forall j :: 0 <= j < |args| ==> args[j].value.Str?
    requires a.value.Str?
    requires WellFormed(Apply(s0, Events(args, table, norm, record)))
    requires forall j :: 0 <= j < |args| ==> args[j].value.str in Phrases(Apply(s0, Events(args, table, norm, record)))
    ensures var t := Apply(s0, Events(args, table, norm, record));
      var ev := EventOf(a, table, norm, record);
      var t' := RegistryModel.Add(t, ev.phrase, ev.usage);
      && t' == Apply(s0, Events(args + [a], table, norm, record))
      && (forall j :: 0 <= j < |args + [a]| ==> (args + [a])[j].value.str in Phrases(t'))
      && Calls(t', args + [a]) == Calls(t, args) + [Call(IndexOfPhrase(Phrases(t'), a.value.str), a.start, a.end)]
  {
    var t := Apply(s0, Events(args, table, norm, record));
    var ev := EventOf(a, table, norm, record);
    var t' := RegistryModel.Add(t, ev.phrase, ev.usage);
    ApplySnoc(s0, args, a, table, norm, record);
    AddGrows(t, ev.phrase, ev.usage);
    CallsSnoc(t, t', args, a);
    forall j | 0 <= j < |args + [a]| ensures (args + [a])[j].value.str in Phrases(t') {
      if j < |args| {
        assert args[j].value.str in Phrases(t);
      }
    }
  }

  lemma {:induction false} CheckUsageAt(s: seq<EntryState>, i: nat)
    requires i < |s| && !IsUsed(s[i]) && forall j :: 0 <= j < i ==> IsUsed(s[j])
    ensures RegistryModel.CheckUsage(s) == Err(Unused(s[i].phrase))
  {
    if i > 0 {
      CheckUsageAt(s[1..], i - 1);
    }
  }

  lemma {:induction false} JsonAllErrPrefix(list: seq<EntryState>, k: nat, langs: seq<string>, strict: bool, noSource: bool)
    requires k <= |list| && JsonAll(list[..k], langs, strict, noSource).Err?
    ensures JsonAll(list, langs, strict, noSource) == JsonAll(list[..k], langs, strict, noSource)
  {
    if k < |list| {
      assert list[..|list| - 1][..k] == list[..k];
      JsonAllErrPrefix(list[..|list| - 1], k, langs, strict, noSource);
    } else {
      assert list[..k] == list;
    }
  }

  lemma JsonAllSnoc(list: seq<EntryState>, k: nat, langs: seq<string>, strict: bool, noSource: bool)
    requires k < |list|
    ensures var prev := JsonAll(list[..k], langs, strict, noSource);
      var cur := EntryToJson(list[k], langs, strict, noSource);
      JsonAll(list[..k + 1], langs, strict, noSource) ==
        if prev.Err? then prev else if cur.Err? then Err(cur.error) else Ok(prev.value + [cur.value])
  {
    assert list[..k + 1][..k] == list[..k];
  }

  /** One step of serialising a list: a failing record ends the whole pass with
      its error, a successful one is appended. */
  lemma JsonAllStep(sel: seq<EntryState>, i: nat, langs: seq<string>, strict: bool, noSource: bool,
                    out: seq<EntryJson>, json: Result<EntryJson>)
    requires i < |sel| && JsonAll(sel[..i], langs, strict, noSource) == Ok(out)
    requires json == EntryToJson(sel[i], langs, strict, noSource)
    ensures json.Err? ==> JsonAll(sel, langs, strict, noSource) == Err(json.error)
    ensures json.Ok? ==> JsonAll(sel[..i + 1], langs, strict, noSource) == Ok(out + [json.value])
  {
    JsonAllSnoc(sel, i, langs, strict, noSource);
    if json.Err? {
      JsonAllErrPrefix(sel, i + 1, langs, strict, noSource);
    }
  }

  lemma {:induction false} ColumnOfErrPrefix(list: seq<EntryState>, k: nat, langs: seq<string>, strict: bool, lang: string)
    requires k <= |list| && ColumnOf(list[..k], langs, strict, lang).Err?
    ensures ColumnOf(list, langs, strict, lang) == ColumnOf(list[..k], langs, strict, lang)
  {
    if k < |list| {
      assert list[..|list| - 1][..k] == list[..k];
      ColumnOfErrPrefix(list[..|list| - 1], k, langs, strict, lang);
    } else {
      assert list[..k] == list;
    }
  }

  /** One step of a one-language pass: a failing record ends the pass with its
      error, a successful one contributes `translations[lang]`. */
  lemma ColumnStep(sel: seq<EntryState>, i: nat, langs: seq<string>, strict: bool, lang: string,
                   cells: seq<Value>, json: Result<EntryJson>)
    requires i < |sel| && ColumnOf(sel[..i], langs, strict, lang) == Ok(cells)
    requires json == EntryToJson(sel[i], langs, strict, false)
    ensures json.Err? ==> ColumnOf(sel, langs, strict, lang) == Err(json.error)
    ensures json.Ok? ==> ColumnOf(sel[..i + 1], langs, strict, lang) == Ok(cells + [ValueAt(json.value.translations, lang)])
  {
    assert sel[..i + 1][..i] == sel[..i];
    if json.Err? {
      ColumnOfErrPrefix(sel, i + 1, langs, strict, lang);
    }
  }

  /** One row of the minified form from the selection's one-language pass. */
  lemma RowStep(s: seq<EntryState>, table: seq<(string, int)>, strict: bool, policy: UnusedPolicy, li: nat,
                col: Result<seq<Value>>)
    requires li < |table| && Selected(s, strict, policy).Ok?
    requires col == ColumnOf(Selected(s, strict, policy).value, KeysOf(table), strict, table[li].0)
    ensures var p := MinifiedEntries(s, KeysOf(table), strict, policy);
      && (col.Ok? <==> p.Ok?)
      && (col.Err? ==> col.error == p.error)
      && (col.Ok? ==> Row(table[li].0, table[li].1, col.value) == RowOf(p.value, table[li]))
  {
    var sel := Selected(s, strict, policy).value;
    var all := JsonAll(sel, KeysOf(table), strict, false);
    assert MinifiedEntries(s, KeysOf(table), strict, policy) == if all.Err? then Err(all.error) else Ok(sel);
    assert KeysOf(table)[li] == table[li].0;
    ColumnOfSpec(sel, KeysOf(table), strict, table[li].0);
  }

  /** A successful pass gives every language the row of the selected entries. */
  lemma {:induction false} RowsAt(s: seq<EntryState>, table: seq<(string, int)>, strict: bool, policy: UnusedPolicy, li: nat)
    requires li < |table| && MinifiedEntries(s, KeysOf(table), strict, policy).Ok?
    ensures Rows(s, table, strict, policy).Ok?
    ensures Rows(s, table, strict, policy).value[li] == RowOf(MinifiedEntries(s, KeysOf(table), strict, policy).value, table[li])
  {
  }

  /** A failed pass makes `Rows` fail with the same error. */
  lemma {:induction false} RowsAbort(s: seq<EntryState>, table: seq<(string, int)>, strict: bool, policy: UnusedPolicy)
    requires table != [] && MinifiedEntries(s, KeysOf(table), strict, policy).Err?
    ensures Rows(s, table, strict, policy) == Err(MinifiedEntries(s, KeysOf(table), strict, policy).error)
  {
  }

  lemma StatesSnoc(es: seq<Entry>, e: Entry)
    ensures States(es + [e]) == States(es) + [e.State()]
  {
    assert (es + [e])[..|es|] == es;
  }

  lemma UsedSnoc(s: seq<EntryState>, i: nat)
    requires i < |s|
    ensures Used(s[..i + 1]) == Used(s[..i]) + if IsUsed(s[i]) then [s[i]] else []
  {
    assert s[..i + 1][..i] == s[..i];
  }

  /** The entries of `es` that have usage, in order. */
  function UsedEntries(es: seq<Entry>): seq<Entry>
    reads es
  {
    if es == [] then []
    else UsedEntries(es[..|es| - 1]) + if 0 < |es[|es| - 1].src| then [es[|es| - 1]] else []
  }

  /** The entries with usage have exactly the values `Used` keeps, and come from `es`. */
  lemma {:induction false} UsedEntriesStates(es: seq<Entry>)
    ensures States(UsedEntries(es)) == Used(States(es))
    ensures forall e :: e in UsedEntries(es) ==> e in es
  {
    if es != [] {
      var n := |es| - 1;
      var init := es[..n];
      UsedEntriesStates(init);
      assert States(init) == States(es)[..n];
      UsedSnoc(States(es), n);
      StatesSnoc(UsedEntries(init), es[n]);
      assert States(es)[..n + 1] == States(es);
    }
  }

  class Entry {
    const phrase: string
    /** The registry the entry was created by (`this.entries`). */
    const owner: Entries
    /** The usage labels, a Set kept in insertion order. */
    var src: seq<string>
    var translations: map<string, Value>

    constructor (phrase: string, owner: Entries)
      ensures this.phrase == phrase && this.owner == owner
      ensures src == [] && translations == map[]
    {
      this.phrase := phrase;
      this.owner := owner;
      src := [];
      translations := map[];
    }

    function State(): EntryState
      reads this
    {
      EntryState(phrase, src, translations)
    }

    /** The `langs` getter: the keys of the owner's language table. */
    function Langs(): seq<string>
      reads owner
    {
      KeysOf(owner.langs)
    }

    /** The `index` getter: the entry's position in its registry, or -1. */
    function Index(): (i: int)
      reads owner
      ensures -1 <= i < |owner.items|
      ensures i == -1 <==> this !in owner.items
      ensures i >= 0 ==> owner.items[i] == this
    {
      Position(owner.items, this)
    }

    /** `addSrc(src, line)`: add the label `${normalizeSrc(src)}:${line}`. */
    method AddSrc(path: string, line: int)
      modifies this
      ensures src == AddLabel(old(src), Label(Normalize(owner.paths, path), line))
      ensures translations == old(translations)
    {
      var tag := Label(Normalize(owner.paths, path), line);
      if tag !in src {
        src := src + [tag];
      }
    }

    /** `resetSrc(src)`: delete, while iterating the set, every label that starts
        with the normalised source. */
    method ResetSrc(path: string)
      modifies this
      ensures src == Without(old(src), Normalize(owner.paths, path))
      ensures translations == old(translations)
    {
      var prefix := Normalize(owner.paths, path);
      var labels := src;
      var i, kept := 0, 0;
      while i < |labels|
        modifies this`src
        invariant ResetShape(labels, i, prefix, src, kept)
      {
        ResetStep(labels, i, prefix, src, kept);
        if prefix <= labels[i] {
          src := src[..kept] + src[kept + 1..];
        } else {
          kept := kept + 1;
        }
        i := i + 1;
      }
      assert i == |labels| && labels[..i] == labels;
    }

    /** `setTranslations(translations)`: copy the value of every registry language. */
    method SetTranslations(data: map<string, Value>)
      modifies this
      ensures translations == WriteLangs(old(translations), Langs(), data)
      ensures src == old(src)
    {
      var langs := KeysOf(owner.langs);
      var i := 0;
      while i < |langs|
        invariant 0 <= i <= |langs|
        invariant translations == WriteLangs(old(translations), langs[..i], data)
        invariant src == old(src)
      {
        WriteLangsSnoc(old(translations), langs, i, data);
        translations := translations[langs[i] := Get(data, langs[i])];
        i := i + 1;
      }
      assert langs[..|langs|] == langs;
    }

    /** `toJSON({noSource})`: a key per registry language, or the error of the
        first untranslated one in strict mode. src/index.js always adds `'@'`,
        which is `noSource == false`. The entry is not changed. */
    method ToJson(noSource: bool) returns (r: Result<EntryJson>)
      ensures r == EntryToJson(State(), Langs(), owner.strictMode, noSource)
    {
      var langs := KeysOf(owner.langs);
      var out: seq<(string, Value)> := [];
      var i := 0;
      while i < |langs|
        invariant 0 <= i <= |langs|
        invariant owner.strictMode ==> forall j :: 0 <= j < i ==> IsTranslated(State(), langs[j])
        invariant |out| == i
        invariant forall j :: 0 <= j < i ==> out[j] == (langs[j], Cell(State(), langs[j]))
      {
        var v := Get(translations, langs[i]);
        if !v.Str? {
          if owner.strictMode {
            return Err(NotTranslated(phrase, langs[i]));
          }
          v := Null;
        }
        out := out + [(langs[i], v)];
        i := i + 1;
      }
      ghost var fields := Fields(State(), langs, owner.strictMode);
      assert fields.Ok? && fields.value == out;
      r := Ok(EntryJson(phrase, out, if noSource then None else Some(Sort(src))));
    }
  }

  class Entries {
    var items: seq<Entry>
    /** The language table, language to plural rule, in key order. */
    var langs: seq<(string, int)>
    const strictMode: bool
    /** `normalizeSrc`'s platform and working directory. */
    const paths: PathPolicy
    const functionNames: seq<string>

    /** Every entry belongs to this registry. */
    ghost predicate Owned()
      reads this`items, items
    {
      forall i :: 0 <= i < |items| ==> items[i].owner == this
    }

    /** Every entry belongs to this registry, phrases are unique and so are each
        entry's usage labels. */
    ghost predicate Valid()
      reads this`items, items
    {
      Owned() && WellFormed(State())
    }

    function State(): seq<EntryState>
      reads this`items, items
    {
      States(items)
    }

    /** `new Entries(options)`: an empty registry. */
    constructor (paths: PathPolicy, functionNames: seq<string>, langs: seq<(string, int)>, strictMode: bool)
      ensures Valid() && items == []
      ensures this.paths == paths && this.functionNames == functionNames
      ensures this.langs == langs && this.strictMode == strictMode
    {
      this.paths := paths;
      this.functionNames := functionNames;
      this.langs := langs;
      this.strictMode := strictMode;
      items := [];
    }

    /** `new Entries()`: the defaults `functionNames = ['translate', 'addPhrase']`,
        `langs = {en: 1}` and no strict mode. */
    constructor Default(paths: PathPolicy)
      ensures Valid() && items == []
      ensures this.paths == paths && functionNames == ["translate", "addPhrase"]
      ensures langs == [("en", 1)] && !strictMode
    {
      this.paths := paths;
      functionNames := ["translate", "addPhrase"];
      langs := [("en", 1)];
      strictMode := false;
      items := [];
    }

    /** `findIndex(phrase)`: the position of the entry for `phrase`, or -1. */
    method FindIndex(phrase: string) returns (r: int)
      ensures r == IndexOfPhrase(Phrases(State()), phrase)
      ensures r >= 0 ==> items[r].phrase == phrase
    {
      var i := 0;
      while i < |items|
        invariant 0 <= i <= |items|
        invariant forall j :: 0 <= j < i ==> items[j].phrase != phrase
      {
        if items[i].phrase == phrase {
          assert Phrases(State())[i] == phrase;
          return i;
        }
        i := i + 1;
      }
      return -1;
    }

    /** `find(phrase)`: the entry for `phrase`, or `undefined` (`this[-1]`). */
    method Find(phrase: string) returns (e: Option<Entry>)
      ensures e.None? <==> phrase !in Phrases(State())
      ensures e.Some? ==> e.value.phrase == phrase && e.value == items[IndexOfPhrase(Phrases(State()), phrase)]
    {
      var i := FindIndex(phrase);
      if i < 0 {
        e := None;
      } else {
        e := Some(items[i]);
      }
    }

    /** `this.push(new Entry(phrase, this))`. */
    method Push(phrase: string) returns (e: Entry)
      requires Valid() && phrase !in Phrases(State())
      modifies this`items
      ensures Valid() && fresh(e) && items == old(items) + [e] && e.phrase == phrase
      ensures State() == old(State()) + [EntryState(phrase, [], map[])]
      ensures langs == old(langs)
    {
      ghost var s := State();
      e := new Entry(phrase, this);
      items := items + [e];
      assert items[..|items| - 1] == old(items);
      assert States(items) == States(old(items)) + [e.State()];
      AppendKeepsWellFormed(s, phrase);
    }

    /** `found.addSrc(src, line)` for the entry at position `k`. */
    method AddSrcAt(k: nat, path: string, line: int)
      requires Valid() && k < |items|
      modifies items[k]
      ensures Valid() && items == old(items) && langs == old(langs)
      ensures State() == old(State())[k := old(State())[k].(src := AddLabel(old(State())[k].src, Label(Normalize(paths, path), line)))]
    {
      ghost var s := State();
      ghost var tag := Label(Normalize(paths, path), line);
      ghost var t := s[k := s[k].(src := AddLabel(s[k].src, tag))];
      items[k].AddSrc(path, line);
      forall j | 0 <= j < |items| ensures items[j].State() == t[j] {
        if j != k {
          assert Phrases(s)[j] != Phrases(s)[k];
        }
      }
      AddLabelKeepsWellFormed(s, k, tag);
    }

    /** `add` for a phrase the registry does not hold: append a new entry, then
        record the usage. */
    method AddNew(phrase: string, path: Option<string>, line: int) returns (found: Entry)
      requires Valid() && IndexOfPhrase(Phrases(State()), phrase) < 0
      modifies this`items
      ensures Valid() && langs == old(langs)
      ensures State() == RegistryModel.Add(old(State()), phrase, UsageLabel(paths, path, line))
      ensures items == old(items) + [found] && fresh(found)
      ensures found == items[AddedIndex(old(State()), phrase)] && found.phrase == phrase
    {
      ghost var s := State();
      found := Push(phrase);
      AddNewCase(s, phrase, UsageLabel(paths, path, line));
      if path.Some? && path.value != "" {
        AddSrcAt(|items| - 1, path.value, line);
      }
    }

    /** `add` for a phrase held at position `i`: record the usage on that entry. */
    method AddKnownAt(i: nat, phrase: string, path: Option<string>, line: int) returns (found: Entry)
      requires Valid() && i == IndexOfPhrase(Phrases(State()), phrase)
      modifies items[i]
      ensures Valid() && langs == old(langs) && items == old(items)
      ensures State() == RegistryModel.Add(old(State()), phrase, UsageLabel(paths, path, line))
      ensures found == items[AddedIndex(old(State()), phrase)] && found.phrase == phrase
    {
      found := items[i];
      AddKnownCase(State(), phrase, UsageLabel(paths, path, line), i);
      if path.Some? && path.value != "" {
        AddSrcAt(i, path.value, line);
      }
    }

    /** `add({phrase, src, line})`: find or append the entry for `phrase`, and
        record the usage when `src` is a non-empty string. */
    method Add(phrase: string, path: Option<string>, line: int) returns (found: Entry)
      requires Valid()
      modifies this`items, items
      ensures Valid() && langs == old(langs)
      ensures State() == RegistryModel.Add(old(State()), phrase, UsageLabel(paths, path, line))
      ensures items == old(items) || (items == old(items) + [found] && fresh(found))
      ensures found == items[AddedIndex(old(State()), phrase)] && found.phrase == phrase
    {
      var i := FindIndex(phrase);
      if i < 0 {
        found := AddNew(phrase, path, line);
      } else {
        found := AddKnownAt(i, phrase, path, line);
      }
    }

    /** The `index` of an entry of the registry is the position `findIndex`
        gives for its phrase, and the position its value has in the registry. */
    lemma EntryIndex(e: Entry)
      requires Valid() && e in items
      ensures e.Index() == IndexOfPhrase(Phrases(State()), e.phrase)
      ensures 0 <= e.Index() < |State()| && State()[e.Index()] == e.State()
    {
      var k := Position(items, e);
      UniqueIndex(Phrases(State()), e.phrase, k);
    }

    /** `resetSrc(src)`: every entry drops the labels of the source. */
    method ResetSrc(path: string)
      requires Valid()
      modifies items
      ensures Valid() && items == old(items)
      ensures State() == Reset(old(State()), Normalize(paths, path))
    {
      ghost var s := State();
      ghost var prefix := Normalize(paths, path);
      var i := 0;
      while i < |items|
        invariant 0 <= i <= |items|
        invariant forall j :: 0 <= j < |items| ==>
          items[j].State() == if j < i then s[j].(src := Without(s[j].src, prefix)) else s[j]
      {
        assert forall j :: 0 <= j < |items| && j != i ==> Phrases(s)[j] != Phrases(s)[i];
        items[i].ResetSrc(path);
        i := i + 1;
      }
      ResetRemovesExactly(s, prefix);
      assert State() == Reset(s, prefix);
    }

    /** The default extractor: a call to one of `functionNames` whose first
        argument is a string literal adds its phrase with the usage `src:line`,
        and hands the entry's `index` and the literal's offsets to the callback. */
    method Extract(node: Node, path: string, lineBreaks: LineBreaks) returns (call: Option<Call>)
      requires Valid() && lineBreaks.Valid()
      modifies this`items, items
      ensures Valid() && langs == old(langs)
      ensures forall k :: 0 <= k < |items| ==> items[k] in old(items) || fresh(items[k])
      ensures State() == match Matched(node, functionNames)
        case None => old(State())
        case Some(a) => RegistryModel.Add(old(State()), a.value.str, UsageLabel(paths, Some(path), lineBreaks.LineAt(a.start)))
      ensures call == match Matched(node, functionNames)
        case None => None
        case Some(a) => Some(Call(IndexOfPhrase(Phrases(State()), a.value.str), a.start, a.end))
    {
      var m := Matched(node, functionNames);
      if m.Some? {
        var a := m.value;
        var entry := Add(a.value.str, Some(path), lineBreaks.LineAt(a.start));
        EntryIndex(entry);
        call := Some(Call(entry.Index(), a.start, a.end));
      } else {
        call := None;
      }
    }

    /** `parse(code, src, fn)` over the nodes of the syntax-tree walk: reset the
        source's usage, then run the extractor on every node in order. */
    method Parse(code: string, nodes: seq<Node>, path: string) returns (calls: seq<Call>)
      requires Valid()
      modifies this`items, items
      ensures Valid() && langs == old(langs)
      ensures State() == RegistryModel.Parse(old(State()), paths, functionNames, code, nodes, path)
      ensures calls == Calls(State(), MatchedArgs(nodes, functionNames))
      ensures var args := MatchedArgs(nodes, functionNames);
        forall j :: 0 <= j < |args| ==> args[j].value.str in Phrases(State())
    {
      ResetSrc(path);
      var lineBreaks := new LineBreaks(code);
      calls := Walk(nodes, path, lineBreaks);
    }

    /** The walk of `parse`: the extractor on every node, in order. */
    method Walk(nodes: seq<Node>, path: string, lineBreaks: LineBreaks) returns (calls: seq<Call>)
      requires Valid() && lineBreaks.Valid()
      modifies this`items, items
      ensures Valid() && langs == old(langs)
      ensures Walked(old(State()), MatchedArgs(nodes, functionNames), lineBreaks.offsets, Normalize(paths, path), path != "", State(), calls)
    {
      ghost var s0 := State();
      ghost var args: seq<Arg> := [];
      calls := [];
      var i := 0;
      while i < |nodes|
        invariant 0 <= i <= |nodes|
        invariant Valid() && langs == old(langs)
        invariant forall k :: 0 <= k < |items| ==> items[k] in old(items) || fresh(items[k])
        invariant args == MatchedArgs(nodes[..i], functionNames)
        invariant Walked(s0, args, lineBreaks.offsets, Normalize(paths, path), path != "", State(), calls)
      {
        args, calls := ExtractInto(nodes, i, path, lineBreaks, s0, args, calls);
        i := i + 1;
      }
      assert nodes[..|nodes|] == nodes;
    }

    /** The extractor on one node of a parse run that started from `s0`: the
        registry, the recognised literals and the callbacks advance together. */
    method ExtractInto(nodes: seq<Node>, i: nat, path: string, lineBreaks: LineBreaks, ghost s0: seq<EntryState>,
                       ghost args: seq<Arg>, calls: seq<Call>) returns (ghost args': seq<Arg>, calls': seq<Call>)
      requires Valid() && lineBreaks.Valid() && i < |nodes|
      requires args == MatchedArgs(nodes[..i], functionNames)
      requires Walked(s0, args, lineBreaks.offsets, Normalize(paths, path), path != "", State(), calls)
      modifies this`items, items
      ensures Valid() && langs == old(langs)
      ensures forall k :: 0 <= k < |items| ==> items[k] in old(items) || fresh(items[k])
      ensures args' == MatchedArgs(nodes[..i + 1], functionNames)
      ensures Walked(s0, args', lineBreaks.offsets, Normalize(paths, path), path != "", State(), calls')
    {
      MatchedArgsSnoc(nodes, i, functionNames);
      var node := nodes[i];
      ghost var table := lineBreaks.offsets;
      ghost var norm := Normalize(paths, path);
      var m := Matched(node, functionNames);
      ghost var t := State();
      if m.Some? {
        ExtractStep(s0, args, m.value, table, norm, path != "");
        assert EventOf(m.value, table, norm, path != "")
          == Event(m.value.value.str, UsageLabel(paths, Some(path), lineBreaks.LineAt(m.value.start)));
      }
      var call := Extract(node, path, lineBreaks);
      if m.Some? {
        ghost var ev := EventOf(m.value, table, norm, path != "");
        assert State() == RegistryModel.Add(t, ev.phrase, ev.usage);
        calls' := calls + [call.value];
        args' := args + [m.value];
      } else {
        calls', args' := calls, args;
      }
    }

    /** `minify(code, src)`: the overwrites the callback makes, each literal
        replaced with the decimal position of its phrase's entry. */
    method Minify(code: string, nodes: seq<Node>, path: string) returns (edits: seq<(int, int, string)>)
      requires Valid()
      modifies this`items, items
      ensures Valid() && State() == RegistryModel.Parse(old(State()), paths, functionNames, code, nodes, path)
      ensures var args := MatchedArgs(nodes, functionNames);
        && |edits| == |args|
        && forall j :: 0 <= j < |args| ==>
             var k := IndexOfPhrase(Phrases(State()), args[j].value.str);
             && 0 <= k < |State()| && State()[k].phrase == args[j].value.str
             && edits[j] == (args[j].start, args[j].end, IntToString(k))
    {
      var calls := Parse(code, nodes, path);
      ghost var args := MatchedArgs(nodes, functionNames);
      ghost var s := State();
      edits := seq(|calls|, j requires 0 <= j < |calls| => (calls[j].start, calls[j].end, IntToString(calls[j].index)));
    }

    /** `entry.setTranslations(data)` for the entry at position `k`. */
    method SetTranslationsAt(e: Entry, ghost k: nat, data: map<string, Value>)
      requires Valid() && k < |items| && e == items[k]
      modifies e
      ensures Valid() && items == old(items) && langs == old(langs)
      ensures State() == old(State())[k := old(State())[k].(translations := WriteLangs(old(State())[k].translations, KeysOf(langs), data))]
    {
      ghost var s := State();
      ghost var t := s[k := s[k].(translations := WriteLangs(s[k].translations, KeysOf(langs), data))];
      e.SetTranslations(data);
      forall j | 0 <= j < |items| ensures items[j].State() == t[j] {
        if j != k {
          assert Phrases(s)[j] != Phrases(s)[k];
        }
      }
      assert Phrases(t) == Phrases(s);
    }

    /** `load({langs, phrases})`: replace the language table, then upsert every
        phrase of the data, in key order, and overwrite its translations. */
    method Load(newLangs: seq<(string, int)>, phrases: seq<(string, map<string, Value>)>)
      requires Valid()
      modifies this, items
      ensures Valid() && langs == newLangs
      ensures State() == RegistryModel.Load(old(State()), KeysOf(newLangs), phrases)
    {
      langs := newLangs;
      var i := 0;
      while i < |phrases|
        invariant 0 <= i <= |phrases|
        invariant Valid() && langs == newLangs
        invariant forall k :: 0 <= k < |items| ==> items[k] in old(items) || fresh(items[k])
        invariant State() == RegistryModel.Load(old(State()), KeysOf(newLangs), phrases[..i])
      {
        LoadNext(phrases, i, old(State()));
        i := i + 1;
      }
      assert phrases[..|phrases|] == phrases;
    }

    /** The loop step of `load`: the registry so far has taken the first `i`
        phrases; afterwards it has taken `i + 1`. */
    method LoadNext(phrases: seq<(string, map<string, Value>)>, i: nat, ghost s0: seq<EntryState>)
      requires i < |phrases| && Valid()
      requires State() == RegistryModel.Load(s0, KeysOf(langs), phrases[..i])
      modifies this`items, items
      ensures Valid() && langs == old(langs)
      ensures forall k :: 0 <= k < |items| ==> items[k] in old(items) || fresh(items[k])
      ensures State() == RegistryModel.Load(s0, KeysOf(langs), phrases[..i + 1])
    {
      LoadSnoc(s0, KeysOf(langs), phrases, i);
      LoadPhrase(phrases[i].0, phrases[i].1);
    }

    /** One phrase of `load`: `this.add({phrase}).setTranslations(data)`. */
    method LoadPhrase(phrase: string, data: map<string, Value>)
      requires Valid()
      modifies this`items, items
      ensures Valid() && langs == old(langs)
      ensures forall k :: 0 <= k < |items| ==> items[k] in old(items) || fresh(items[k])
      ensures State() == LoadOne(old(State()), KeysOf(langs), phrase, data)
    {
      ghost var k := AddedIndex(State(), phrase);
      var e := Add(phrase, None, 0);
      SetTranslationsAt(e, k, data);
    }

    /** `checkUsage()`: `EUNUSED` for the first entry without usage. */
    method CheckUsage() returns (r: Result<()>)
      ensures r == RegistryModel.CheckUsage(State())
    {
      var i := 0;
      while i < |items|
        invariant 0 <= i <= |items|
        invariant forall j :: 0 <= j < i ==> IsUsed(State()[j])
      {
        if !(0 < |items[i].src|) {
          CheckUsageAt(State(), i);
          return Err(Unused(items[i].phrase));
        }
        i := i + 1;
      }
      ghost var c := RegistryModel.CheckUsage(State());
      CheckUsageSpec(State());
      assert c.Ok? && c.value == ();
      return Ok(());
    }

    /** `usedPhrases` (src/-entries/index.js): the entries with usage, in order. */
    method UsedPhrases() returns (r: seq<Entry>)
      ensures States(r) == Used(State())
      ensures forall k :: 0 <= k < |r| ==> r[k] in items
    {
      r := [];
      var es := items;
      var i := 0;
      while i < |es|
        invariant 0 <= i <= |es|
        invariant r == UsedEntries(es[..i])
      {
        assert es[..i + 1][..i] == es[..i];
        if 0 < |es[i].src| {
          r := r + [es[i]];
        }
        i := i + 1;
      }
      assert es[..i] == es;
      UsedEntriesStates(es);
    }

    /** The entries a serialisation iterates: all of them, or in strict mode the
        registry after `checkUsage()` (src/index.js) or `usedPhrases`
        (src/-entries/index.js). */
    method Selection(policy: UnusedPolicy) returns (r: Result<seq<Entry>>)
      requires Owned()
      ensures var sel := Selected(State(), strictMode, policy);
        && (r.Ok? <==> sel.Ok?)
        && (r.Err? ==> r.error == sel.error)
        && (r.Ok? ==> States(r.value) == sel.value && forall k :: 0 <= k < |r.value| ==> r.value[k].owner == this)
    {
      if !strictMode {
        return Ok(items);
      }
      match policy
      case Reject =>
        var c := CheckUsage();
        if c.Err? {
          return Err(c.error);
        }
        return Ok(items);
      case Skip =>
        var used := UsedPhrases();
        return Ok(used);
    }

    /** The loop of `getPhrases`: `toJSON(options)` of each listed entry, in
        order, stopping at the first that throws. */
    method Serialize(list: seq<Entry>, noSource: bool) returns (r: Result<seq<EntryJson>>)
      requires forall k :: 0 <= k < |list| ==> list[k].owner == this
      ensures r == JsonAll(States(list), KeysOf(langs), strictMode, noSource)
    {
      ghost var sel := States(list);
      var out: seq<EntryJson> := [];
      var i := 0;
      while i < |list|
        invariant 0 <= i <= |list| && sel == States(list)
        invariant JsonAll(sel[..i], KeysOf(langs), strictMode, noSource) == Ok(out)
      {
        assert list[i].State() == sel[i];
        var json := list[i].ToJson(noSource);
        JsonAllStep(sel, i, KeysOf(langs), strictMode, noSource, out, json);
        if json.Err? {
          return Err(json.error);
        }
        out := out + [json.value];
        i := i + 1;
      }
      assert sel[..i] == sel;
      r := Ok(out);
    }

    /** `getPhrases(options)`: each selected entry's `toJSON(options)`, in order. */
    method GetPhrases(policy: UnusedPolicy, noSource: bool) returns (r: Result<seq<EntryJson>>)
      requires Owned()
      ensures r == PhrasesJson(State(), KeysOf(langs), strictMode, policy, noSource)
    {
      var selection := Selection(policy);
      if selection.Err? {
        return Err(selection.error);
      }
      r := Serialize(selection.value, noSource);
    }

    /** `toJSON(options)`: the language table and the phrases. */
    method ToJson(policy: UnusedPolicy, noSource: bool) returns (r: Result<RegistryJson>)
      requires Owned()
      ensures var p := PhrasesJson(State(), KeysOf(langs), strictMode, policy, noSource);
        && (r.Ok? <==> p.Ok?)
        && (r.Ok? ==> r.value == RegistryJson(langs, p.value))
        && (r.Err? ==> r.error == p.error)
    {
      var phrases := GetPhrases(policy, noSource);
      if phrases.Err? {
        return Err(phrases.error);
      }
      return Ok(RegistryJson(langs, phrases.value));
    }

    /** One row's values: `translations[lang]` of each listed entry's `toJSON`. */
    method Column(list: seq<Entry>, lang: string) returns (r: Result<seq<Value>>)
      requires forall k :: 0 <= k < |list| ==> list[k].owner == this
      ensures r == ColumnOf(States(list), KeysOf(langs), strictMode, lang)
    {
      ghost var sel := States(list);
      var cells: seq<Value> := [];
      var k := 0;
      while k < |list|
        invariant 0 <= k <= |list| && sel == States(list)
        invariant ColumnOf(sel[..k], KeysOf(langs), strictMode, lang) == Ok(cells)
      {
        assert list[k].State() == sel[k];
        var json := list[k].ToJson(false);
        ColumnStep(sel, k, KeysOf(langs), strictMode, lang, cells, json);
        if json.Err? {
          return Err(json.error);
        }
        cells := cells + [ValueAt(json.value.translations, lang)];
        k := k + 1;
      }
      assert sel[..k] == sel;
      r := Ok(cells);
    }

    /** One row of `toMinifiedJSON`: the language, its rule, and the values of
        the entries the current selection lists. */
    method RowFor(policy: UnusedPolicy, li: nat) returns (r: Result<Row>)
      requires Owned() && li < |langs|
      ensures var rows := Rows(State(), langs, strictMode, policy);
        && (r.Ok? <==> rows.Ok?)
        && (r.Err? ==> r.error == rows.error)
        && (r.Ok? ==> r.value == rows.value[li])
    {
      var list := Selection(policy);
      if list.Err? {
        RowsAbort(State(), langs, strictMode, policy);
        return Err(list.error);
      }
      var cells := Column(list.value, langs[li].0);
      RowStep(State(), langs, strictMode, policy, li, cells);
      if cells.Err? {
        RowsAbort(State(), langs, strictMode, policy);
        return Err(cells.error);
      }
      RowsAt(State(), langs, strictMode, policy, li);
      r := Ok(Row(langs[li].0, langs[li].1, cells.value));
    }

    /** `toMinifiedJSON(options)`: for each language, in key order,
        `[lang, langs[lang], t_0, ..., t_{n-1}]` over the selected entries. */
    method ToMinifiedJson(policy: UnusedPolicy) returns (r: Result<seq<Row>>)
      requires Owned()
      ensures r == Rows(State(), langs, strictMode, policy)
    {
      var table := langs;
      ghost var rows := Rows(State(), table, strictMode, policy);
      var result: seq<Row> := [];
      var li := 0;
      while li < |table|
        invariant 0 <= li <= |table| && |result| == li
        invariant li > 0 ==> rows.Ok?
        invariant forall j :: 0 <= j < li ==> result[j] == rows.value[j]
      {
        var row := RowFor(policy, li);
        if row.Err? {
          return Err(row.error);
        }
        result := result + [row.value];
        li := li + 1;
      }
      if table != [] {
        assert result == rows.value;
      }
      r := Ok(result);
    }
  }
}
