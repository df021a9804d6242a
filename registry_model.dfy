/** The phrase registry as a value: the ordered entries of `Entries`
    (src/index.js:97-221, src/-entries/index.js), each with its phrase, its usage
    labels and its translations. The classes in module Registry are proved to
    change their state exactly as the functions here say; the lemmas here state
    what those changes mean. */
module RegistryModel {
  import opened Js
  import opened Paths
  import opened LineBreaking

  /** One entry: its phrase, its usage labels `"<path>:<line>"` in insertion order
      (a JavaScript Set), and its translation per language. */
  datatype EntryState = EntryState(phrase: string, src: seq<string>, translations: map<string, Value>)

  function Phrases(s: seq<EntryState>): (ps: seq<string>)
    ensures |ps| == |s|
    ensures forall i :: 0 <= i < |s| ==> ps[i] == s[i].phrase
  {
    seq(|s|, i requires 0 <= i < |s| => s[i].phrase)
  }

  /** Phrases are unique and every usage set is a set. */
  predicate WellFormed(s: seq<EntryState>)
  {
    NoDup(Phrases(s)) && forall i :: 0 <= i < |s| ==> NoDup(s[i].src)
  }

  // ---------------------------------------------------------------------------
  // Lookup
  // ---------------------------------------------------------------------------

  /** `findIndex(phrase)`: the first position holding `phrase`, or -1. */
  function IndexOfPhrase(ps: seq<string>, phrase: string): (r: int)
    ensures -1 <= r < |ps|
    ensures r == -1 <==> phrase !in ps
    ensures r >= 0 ==> ps[r] == phrase && forall i :: 0 <= i < r ==> ps[i] != phrase
  {
    if ps == [] then -1
    else if ps[0] == phrase then 0
    else
      var r := IndexOfPhrase(ps[1..], phrase);
      if r < 0 then -1 else r + 1
  }

  /** With unique phrases, the position holding a phrase is the one `findIndex` finds. */
  lemma UniqueIndex(ps: seq<string>, phrase: string, i: int)
    requires NoDup(ps) && 0 <= i < |ps| && ps[i] == phrase
    ensures IndexOfPhrase(ps, phrase) == i
  {
  }

  // ---------------------------------------------------------------------------
  // Usage labels
  // ---------------------------------------------------------------------------

  /** The label `addSrc` stores: `${normalizeSrc(src)}:${line}`. */
  function Label(norm: string, line: int): (l: string)
    ensures norm <= l
  {
    norm + ":" + IntToString(line)
  }

  /** The label `add({phrase, src, line})` records: none unless `src` is a non-empty string. */
  function UsageLabel(policy: PathPolicy, src: Option<string>, line: int): Option<string>
  {
    if src.Some? && src.value != "" then Some(Label(Normalize(policy, src.value), line)) else None
  }

  /** `Set.prototype.add`: a label already present is not added again. */
  function AddLabel(src: seq<string>, tag: string): (r: seq<string>)
    ensures NoDup(src) ==> NoDup(r)
    ensures forall x :: x in r <==> x in src || x == tag
    ensures src <= r && |r| <= |src| + 1
  {
    if tag in src then src else src + [tag]
  }

  lemma NoDupInit<T>(s: seq<T>)
    requires NoDup(s) && s != []
    ensures NoDup(s[..|s| - 1]) && s[|s| - 1] !in s[..|s| - 1]
  {
  }

  /** The labels that survive `resetSrc`: those not starting with `prefix`, in order. */
  function Without(src: seq<string>, prefix: string): (r: seq<string>)
    ensures |r| <= |src|
  {
    if src == [] then []
    else
      var x := src[|src| - 1];
      var kept := Without(src[..|src| - 1], prefix);
      if prefix <= x then kept else kept + [x]
  }

  /** `resetSrc` keeps exactly the labels without the prefix, and no duplicate appears. */
  lemma {:induction false} WithoutKeeps(src: seq<string>, prefix: string)
    ensures forall x :: x in Without(src, prefix) <==> x in src && !(prefix <= x)
    ensures NoDup(src) ==> NoDup(Without(src, prefix))
  {
    if src != [] {
      var x := src[|src| - 1];
      var init := src[..|src| - 1];
      WithoutKeeps(init, prefix);
      assert forall y :: y in src <==> y in init || y == x;
      if NoDup(src) {
        NoDupInit(src);
      }
    }
  }

  lemma {:induction false} WithoutIdempotent(src: seq<string>, prefix: string)
    ensures Without(Without(src, prefix), prefix) == Without(src, prefix)
  {
    if src != [] {
      var x := src[|src| - 1];
      var kept := Without(src[..|src| - 1], prefix);
      WithoutIdempotent(src[..|src| - 1], prefix);
      if !(prefix <= x) {
        assert (kept + [x])[..|kept|] == kept;
      }
    }
  }

  // ---------------------------------------------------------------------------
  // add, resetSrc, setTranslations
  // ---------------------------------------------------------------------------

  /** The position `add(phrase)` returns the entry of. */
  function AddedIndex(s: seq<EntryState>, phrase: string): (k: nat)
    ensures k <= |s|
    ensures k == |s| <==> phrase !in Phrases(s)
    ensures k < |s| ==> s[k].phrase == phrase
  {
    var i := IndexOfPhrase(Phrases(s), phrase);
    if i < 0 then |s| else i
  }

  /** `add({phrase, src, line})`: find or append the entry, then record the usage label. */
  function Add(s: seq<EntryState>, phrase: string, usage: Option<string>): (r: seq<EntryState>)
    ensures |r| == if phrase in Phrases(s) then |s| else |s| + 1
  {
    var k := AddedIndex(s, phrase);
    var u := if k == |s| then s + [EntryState(phrase, [], map[])] else s;
    if usage.Some? then u[k := u[k].(src := AddLabel(u[k].src, usage.value))] else u
  }

  /** `add` of a known phrase changes only that entry's usage, which gains the label. */
  lemma AddKnown(s: seq<EntryState>, phrase: string, usage: Option<string>)
    requires WellFormed(s) && phrase in Phrases(s)
    ensures var r := Add(s, phrase, usage); var k := AddedIndex(s, phrase);
      && WellFormed(r)
      && Phrases(r) == Phrases(s)
      && (forall i :: 0 <= i < |s| && i != k ==> r[i] == s[i])
      && r[k].phrase == phrase && r[k].translations == s[k].translations
      && r[k].src == (if usage.Some? then AddLabel(s[k].src, usage.value) else s[k].src)
  {
    var r := Add(s, phrase, usage);
    assert Phrases(r) == Phrases(s);
  }

  /** `add` of a new phrase appends a fresh entry holding just the given usage. */
  lemma AddAppends(s: seq<EntryState>, phrase: string, usage: Option<string>)
    requires WellFormed(s) && phrase !in Phrases(s)
    ensures var r := Add(s, phrase, usage);
      && WellFormed(r)
      && r[..|s|] == s
      && r[|s|] == EntryState(phrase, if usage.Some? then [usage.value] else [], map[])
  {
    var r := Add(s, phrase, usage);
    assert Phrases(r) == Phrases(s) + [phrase];
  }

  /** `add` is idempotent. */
  lemma AddIdempotent(s: seq<EntryState>, phrase: string, usage: Option<string>)
    ensures Add(Add(s, phrase, usage), phrase, usage) == Add(s, phrase, usage)
  {
    var r := Add(s, phrase, usage);
    var k := AddedIndex(s, phrase);
    assert Phrases(r)[k] == phrase;
    var k2 := AddedIndex(r, phrase);
    assert k2 == k by {
      assert forall i :: 0 <= i < k ==> Phrases(r)[i] == Phrases(s)[i];
    }
  }

  /** `resetSrc(src)` on every entry: drop the labels that start with the prefix. */
  function Reset(s: seq<EntryState>, prefix: string): (r: seq<EntryState>)
    ensures |r| == |s|
    ensures forall i :: 0 <= i < |s| ==> r[i] == s[i].(src := Without(s[i].src, prefix))
  {
    seq(|s|, i requires 0 <= i < |s| => s[i].(src := Without(s[i].src, prefix)))
  }

  /** `resetSrc` removes exactly the labels starting with the prefix, keeps every
      entry with its phrase and translations, and keeps the registry well formed. */
  lemma ResetRemovesExactly(s: seq<EntryState>, prefix: string)
    requires WellFormed(s)
    ensures var r := Reset(s, prefix);
      && WellFormed(r)
      && Phrases(r) == Phrases(s)
      && (forall i :: 0 <= i < |s| ==> r[i].translations == s[i].translations)
      && (forall i, x :: 0 <= i < |s| ==> (x in r[i].src <==> x in s[i].src && !(prefix <= x)))
  {
    forall i | 0 <= i < |s| {
      WithoutKeeps(s[i].src, prefix);
    }
    assert Phrases(Reset(s, prefix)) == Phrases(s);
  }

  /** `setTranslations(data)`: every registry language is overwritten with the
      data's value, `undefined` when absent; other keys are kept. */
  function WriteLangs(t: map<string, Value>, langs: seq<string>, data: map<string, Value>): (r: map<string, Value>)
    ensures forall l :: l in r <==> l in t || l in langs
    ensures forall l :: l in langs ==> r[l] == Get(data, l)
    ensures forall l :: l in t && l !in langs ==> r[l] == t[l]
  {
    if langs == [] then t
    else
      var l := langs[|langs| - 1];
      assert forall x :: x in langs <==> x in langs[..|langs| - 1] || x == l;
      WriteLangs(t, langs[..|langs| - 1], data)[l := Get(data, l)]
  }

  // ---------------------------------------------------------------------------
  // load
  // ---------------------------------------------------------------------------

  /** One step of `load`: `this.add({phrase}).setTranslations(data)`. */
  function LoadOne(s: seq<EntryState>, langs: seq<string>, phrase: string, data: map<string, Value>): (r: seq<EntryState>)
    ensures |r| == if phrase in Phrases(s) then |s| else |s| + 1
  {
    var u := Add(s, phrase, None);
    var k := AddedIndex(s, phrase);
    u[k := u[k].(translations := WriteLangs(u[k].translations, langs, data))]
  }

  /** `load({langs, phrases})` over the registry's entries, phrases in key order. */
  function Load(s: seq<EntryState>, langs: seq<string>, phrases: seq<(string, map<string, Value>)>): (r: seq<EntryState>)
    ensures |s| <= |r|
  {
    if phrases == [] then s
    else
      var last := phrases[|phrases| - 1];
      LoadOne(Load(s, langs, phrases[..|phrases| - 1]), langs, last.0, last.1)
  }

  lemma LoadOneShape(s: seq<EntryState>, langs: seq<string>, phrase: string, data: map<string, Value>)
    requires WellFormed(s)
    ensures var r := LoadOne(s, langs, phrase, data);
      && WellFormed(r)
      && Phrases(r) == (if phrase in Phrases(s) then Phrases(s) else Phrases(s) + [phrase])
      && (forall i :: 0 <= i < |s| ==> r[i].src == s[i].src)
      && (forall i :: |s| <= i < |r| ==> r[i].src == [])
  {
    var r := LoadOne(s, langs, phrase, data);
    if phrase !in Phrases(s) {
      assert Phrases(r) == Phrases(s) + [phrase];
    } else {
      assert Phrases(r) == Phrases(s);
    }
  }

  lemma LoadOneTranslations(s: seq<EntryState>, langs: seq<string>, phrase: string, data: map<string, Value>)
    requires NoDup(Phrases(s))
    ensures var r := LoadOne(s, langs, phrase, data);
      && (forall i :: 0 <= i < |s| && s[i].phrase != phrase ==> r[i].translations == s[i].translations)
      && (forall i, l :: 0 <= i < |r| && r[i].phrase == phrase && l in langs ==> l in r[i].translations && r[i].translations[l] == Get(data, l))
  {
    var r := LoadOne(s, langs, phrase, data);
    var k := AddedIndex(s, phrase);
    if phrase in Phrases(s) {
      forall i | 0 <= i < |r| && r[i].phrase == phrase ensures i == k {
        UniqueIndex(Phrases(s), phrase, i);
      }
    }
  }

  /** `load` is a translation merge, not a usage merge: it keeps every existing
      entry in place with its usage, gives new entries no usage, and keeps
      phrases unique. */
  lemma {:induction false} LoadKeepsUsage(s: seq<EntryState>, langs: seq<string>, phrases: seq<(string, map<string, Value>)>)
    requires WellFormed(s)
    ensures var r := Load(s, langs, phrases);
      && WellFormed(r)
      && Phrases(s) <= Phrases(r)
      && (forall i :: 0 <= i < |s| ==> r[i].src == s[i].src)
      && (forall i :: |s| <= i < |r| ==> r[i].src == [])
  {
    if phrases != [] {
      var init := phrases[..|phrases| - 1];
      var last := phrases[|phrases| - 1];
      LoadKeepsUsage(s, langs, init);
      LoadOneShape(Load(s, langs, init), langs, last.0, last.1);
    }
  }

  /** The registry's phrases after `load` are the old ones and the loaded ones. */
  lemma {:induction false} LoadPhrases(s: seq<EntryState>, langs: seq<string>, phrases: seq<(string, map<string, Value>)>)
    requires WellFormed(s)
    ensures forall p :: p in Phrases(Load(s, langs, phrases)) <==> p in Phrases(s) || p in KeysOf(phrases)
  {
    if phrases != [] {
      var init := phrases[..|phrases| - 1];
      var last := phrases[|phrases| - 1];
      LoadPhrases(s, langs, init);
      LoadKeepsUsage(s, langs, init);
      LoadOneShape(Load(s, langs, init), langs, last.0, last.1);
      assert KeysOf(phrases) == KeysOf(init) + [last.0];
    }
  }

  /** `load` keeps the translations of every phrase it does not mention. */
  lemma {:induction false} LoadKeepsOthers(s: seq<EntryState>, langs: seq<string>, phrases: seq<(string, map<string, Value>)>)
    requires WellFormed(s)
    ensures var r := Load(s, langs, phrases);
      forall i :: 0 <= i < |s| && s[i].phrase !in KeysOf(phrases) ==> r[i].phrase == s[i].phrase && r[i].translations == s[i].translations
  {
    if phrases != [] {
      var init := phrases[..|phrases| - 1];
      var last := phrases[|phrases| - 1];
      LoadKeepsOthers(s, langs, init);
      LoadKeepsUsage(s, langs, init);
      var m := Load(s, langs, init);
      LoadOneShape(m, langs, last.0, last.1);
      LoadOneTranslations(m, langs, last.0, last.1);
      assert KeysOf(phrases) == KeysOf(init) + [last.0];
      var r := Load(s, langs, phrases);
      forall i | 0 <= i < |s| && s[i].phrase !in KeysOf(phrases)
        ensures r[i].phrase == s[i].phrase && r[i].translations == s[i].translations
      {
        assert Phrases(m)[i] == Phrases(s)[i];
        assert Phrases(r)[i] == Phrases(m)[i];
      }
    }
  }

  /** After `load`, every loaded phrase has an entry whose translation for each
      language of the new table is the loaded value (`undefined` when absent). */
  lemma {:induction false} LoadSetsTranslations(s: seq<EntryState>, langs: seq<string>, phrases: seq<(string, map<string, Value>)>)
    requires WellFormed(s) && DistinctKeys(phrases)
    ensures var r := Load(s, langs, phrases);
      forall j, i, l :: 0 <= j < |phrases| && 0 <= i < |r| && r[i].phrase == phrases[j].0 && l in langs ==>
        l in r[i].translations && r[i].translations[l] == Get(phrases[j].1, l)
  {
    if phrases != [] {
      var init := phrases[..|phrases| - 1];
      var last := phrases[|phrases| - 1];
      DistinctKeysInit(phrases);
      LoadSetsTranslations(s, langs, init);
      LoadKeepsUsage(s, langs, init);
      var m := Load(s, langs, init);
      LoadOneShape(m, langs, last.0, last.1);
      LoadOneTranslations(m, langs, last.0, last.1);
      var r := Load(s, langs, phrases);
      assert r == LoadOne(m, langs, last.0, last.1);
      forall j, i, l | 0 <= j < |phrases| && 0 <= i < |r| && r[i].phrase == phrases[j].0 && l in langs
        ensures l in r[i].translations && r[i].translations[l] == Get(phrases[j].1, l)
      {
        if j == |init| {
          assert phrases[j] == last;
        } else {
          assert phrases[j].0 != last.0 by {
            assert KeysOf(init)[j] == phrases[j].0;
          }
          assert i < |m|;
          assert m[i].phrase == r[i].phrase by {
            assert Phrases(r)[i] == Phrases(m)[i];
          }
          assert r[i].translations == m[i].translations;
          assert init[j] == phrases[j];
        }
      }
    }
  }

  // ---------------------------------------------------------------------------
  // Extraction (the default extractor) and parse
  // ---------------------------------------------------------------------------

  /** A first argument as the syntax tree presents it. */
  datatype Arg = Arg(kind: string, value: Value, start: int, end: int)

  /** A node of the syntax-tree walk: its type, the callee's name when it has one,
      and the call's arguments. */
  datatype Node = Node(kind: string, callee: Option<string>, args: seq<Arg>)

  /** The extractor's test: a call to a recognised function whose first argument
      is a string literal. */
  function Matched(node: Node, names: seq<string>): (r: Option<Arg>)
    ensures r.Some? ==> r.value.kind == "Literal" && r.value.value.Str?
  {
    if node.kind == "CallExpression" && node.callee.Some? && node.callee.value in names
      && |node.args| > 0 && node.args[0].kind == "Literal" && node.args[0].value.Str?
    then Some(node.args[0])
    else None
  }

  /** The string-literal first arguments of the recognised calls, in walk order. */
  function MatchedArgs(nodes: seq<Node>, names: seq<string>): (args: seq<Arg>)
    ensures forall j :: 0 <= j < |args| ==> args[j].value.Str?
  {
    if nodes == [] then []
    else
      var prev := MatchedArgs(nodes[..|nodes| - 1], names);
      match Matched(nodes[|nodes| - 1], names)
      case Some(a) => prev + [a]
      case None => prev
  }

  /** What one recognised call adds: a phrase and, when a source is named, a label. */
  datatype Event = Event(phrase: string, usage: Option<string>)

  function EventOf(a: Arg, table: seq<Offset>, norm: string, record: bool): Event
    requires a.value.Str?
  {
    Event(a.value.str, if record then Some(Label(norm, LineOf(table, a.start))) else None)
  }

  function Events(args: seq<Arg>, table: seq<Offset>, norm: string, record: bool): (ev: seq<Event>)
    requires forall j :: 0 <= j < |args| ==> args[j].value.Str?
    ensures |ev| == |args|
    ensures forall j :: 0 <= j < |args| ==> ev[j] == EventOf(args[j], table, norm, record)
  {
    seq(|args|, j requires 0 <= j < |args| => EventOf(args[j], table, norm, record))
  }

  /** The calls to `add` that the extractor makes, in order. */
  function Apply(s: seq<EntryState>, ev: seq<Event>): seq<EntryState>
  {
    if ev == [] then s
    else Add(Apply(s, ev[..|ev| - 1]), ev[|ev| - 1].phrase, ev[|ev| - 1].usage)
  }

  /** `parse(code, src)`: reset the source's labels, then extract. */
  function Parse(s: seq<EntryState>, policy: PathPolicy, names: seq<string>, code: string,
                 nodes: seq<Node>, src: string): seq<EntryState>
  {
    var norm := Normalize(policy, src);
    Apply(Reset(s, norm), Events(MatchedArgs(nodes, names), Table(code), norm, src != ""))
  }

  /** What the callback of `parse` receives for each recognised call:
      the entry's position and the literal's offsets. */
  datatype Call = Call(index: int, start: int, end: int)

  /** The callbacks of a run over `args`, given the registry it ends with
      (entries are only ever appended, so a position once given stays valid). */
  function Calls(s: seq<EntryState>, args: seq<Arg>): (cs: seq<Call>)
    requires forall j :: 0 <= j < |args| ==> args[j].value.Str?
    ensures |cs| == |args|
  {
    seq(|args|, j requires 0 <= j < |args| =>
      Call(IndexOfPhrase(Phrases(s), args[j].value.str), args[j].start, args[j].end))
  }

  // --- the effect of a run of extractions, entry by entry --------------------

  function EventPhrases(ev: seq<Event>): (ps: seq<string>)
    ensures |ps| == |ev| && forall j :: 0 <= j < |ev| ==> ps[j] == ev[j].phrase
  {
    seq(|ev|, j requires 0 <= j < |ev| => ev[j].phrase)
  }

  /** The phrases of `qs` not in `ps`, in order of first appearance. */
  function NewPhrases(ps: seq<string>, qs: seq<string>): (r: seq<string>)
    ensures NoDup(r)
    ensures forall x :: x in r ==> x !in ps && x in qs
    ensures forall x :: x in qs ==> x in ps || x in r
  {
    if qs == [] then []
    else
      var n := NewPhrases(ps, qs[..|qs| - 1]);
      var q := qs[|qs| - 1];
      assert forall x :: x in qs <==> x in qs[..|qs| - 1] || x == q;
      if q in ps || q in n then n else n + [q]
  }

  lemma NewPhrasesStep(ps: seq<string>, qs: seq<string>, q: string)
    ensures NewPhrases(ps, qs + [q]) ==
      if q in ps || q in NewPhrases(ps, qs) then NewPhrases(ps, qs) else NewPhrases(ps, qs) + [q]
  {
    assert (qs + [q])[..|qs|] == qs;
  }

  lemma NewPhrasesNone(ps: seq<string>, qs: seq<string>)
    requires forall x :: x in qs ==> x in ps
    ensures NewPhrases(ps, qs) == []
  {
  }

  lemma NoDupDisjointConcat(a: seq<string>, b: seq<string>)
    requires NoDup(a) && NoDup(b) && forall x :: x in b ==> x !in a
    ensures NoDup(a + b)
  {
    forall i, j | 0 <= i < j < |a + b| ensures (a + b)[i] != (a + b)[j] {
      if i < |a| <= j {
        assert (a + b)[j] in b;
      }
    }
  }

  /** The labels an entry with phrase `p` ends up with, starting from `src`. */
  function Labeled(src: seq<string>, ev: seq<Event>, p: string): seq<string>
  {
    if ev == [] then src
    else
      var prev := Labeled(src, ev[..|ev| - 1], p);
      var e := ev[|ev| - 1];
      if e.phrase == p && e.usage.Some? then AddLabel(prev, e.usage.value) else prev
  }

  lemma {:induction false} LabeledUntouched(src: seq<string>, ev: seq<Event>, p: string)
    requires p !in EventPhrases(ev)
    ensures Labeled(src, ev, p) == src
  {
    if ev != [] {
      assert EventPhrases(ev[..|ev| - 1]) == EventPhrases(ev)[..|ev| - 1];
      LabeledUntouched(src, ev[..|ev| - 1], p);
    }
  }

  /** Reset after labelling with labels under the prefix is reset alone. */
  lemma {:induction false} WithoutLabeled(src: seq<string>, ev: seq<Event>, p: string, prefix: string)
    requires forall j :: 0 <= j < |ev| && ev[j].usage.Some? ==> prefix <= ev[j].usage.value
    ensures Without(Labeled(src, ev, p), prefix) == Without(src, prefix)
  {
    if ev != [] {
      var init := ev[..|ev| - 1];
      WithoutLabeled(src, init, p, prefix);
      var prev := Labeled(src, init, p);
      var e := ev[|ev| - 1];
      if e.phrase == p && e.usage.Some? && e.usage.value !in prev {
        var r := prev + [e.usage.value];
        assert r[..|r| - 1] == prev;
      }
    }
  }

  /** The registry after a run of extractions, described entry by entry: the
      existing entries gain their labels, the new phrases follow in order of
      first appearance. */
  function Expected(t: seq<EntryState>, ev: seq<Event>): (r: seq<EntryState>)
    ensures Phrases(r) == Phrases(t) + NewPhrases(Phrases(t), EventPhrases(ev))
    ensures forall i :: 0 <= i < |t| ==> r[i] == t[i].(src := Labeled(t[i].src, ev, t[i].phrase))
    ensures forall i :: |t| <= i < |r| ==> r[i] == EntryState(r[i].phrase, Labeled([], ev, r[i].phrase), map[])
  {
    var ps := Phrases(t) + NewPhrases(Phrases(t), EventPhrases(ev));
    var r := seq(|ps|, i requires 0 <= i < |ps| =>
      if i < |t| then t[i].(src := Labeled(t[i].src, ev, t[i].phrase))
      else EntryState(ps[i], Labeled([], ev, ps[i]), map[]));
    assert Phrases(r) == ps;
    r
  }

  lemma ExpectedNoDup(t: seq<EntryState>, ev: seq<Event>)
    requires NoDup(Phrases(t))
    ensures NoDup(Phrases(Expected(t, ev)))
  {
    NoDupDisjointConcat(Phrases(t), NewPhrases(Phrases(t), EventPhrases(ev)));
  }

  /** `add` of a known phrase, position by position. */
  lemma AddKnownAt(s: seq<EntryState>, phrase: string, usage: Option<string>, i: int)
    requires phrase in Phrases(s) && 0 <= i < |s|
    ensures |Add(s, phrase, usage)| == |s|
    ensures Add(s, phrase, usage)[i] ==
      if s[i].phrase == phrase && i == AddedIndex(s, phrase) && usage.Some? then s[i].(src := AddLabel(s[i].src, usage.value))
      else s[i]
  {
  }

  /** `add` of a new phrase, position by position. */
  lemma AddNewAt(s: seq<EntryState>, phrase: string, usage: Option<string>, i: int)
    requires phrase !in Phrases(s) && 0 <= i <= |s|
    ensures |Add(s, phrase, usage)| == |s| + 1
    ensures Add(s, phrase, usage)[i] ==
      if i < |s| then s[i] else EntryState(phrase, if usage.Some? then AddLabel([], usage.value) else [], map[])
  {
  }

  /** One position of the registry after the event of a phrase already known. */
  lemma {:induction false} ExpectedKnownAt(t: seq<EntryState>, ev: seq<Event>, i: nat)
    requires NoDup(Phrases(t)) && ev != []
    requires ev[|ev| - 1].phrase in Phrases(Expected(t, ev[..|ev| - 1]))
    requires Phrases(Expected(t, ev)) == Phrases(Expected(t, ev[..|ev| - 1]))
    requires i < |Expected(t, ev)|
    ensures var x := Expected(t, ev[..|ev| - 1]); var e := ev[|ev| - 1];
      |Add(x, e.phrase, e.usage)| == |x| && Add(x, e.phrase, e.usage)[i] == Expected(t, ev)[i]
  {
    var init := ev[..|ev| - 1];
    var e := ev[|ev| - 1];
    var x := Expected(t, init);
    ExpectedNoDup(t, init);
    AddKnownAt(x, e.phrase, e.usage, i);
    if x[i].phrase == e.phrase {
      UniqueIndex(Phrases(x), e.phrase, i);
    }
  }

  lemma {:induction false} ExpectedStepKnown(t: seq<EntryState>, ev: seq<Event>)
    requires NoDup(Phrases(t)) && ev != []
    requires ev[|ev| - 1].phrase in Phrases(Expected(t, ev[..|ev| - 1]))
    ensures Add(Expected(t, ev[..|ev| - 1]), ev[|ev| - 1].phrase, ev[|ev| - 1].usage) == Expected(t, ev)
  {
    var init := ev[..|ev| - 1];
    var e := ev[|ev| - 1];
    assert EventPhrases(ev) == EventPhrases(init) + [e.phrase];
    NewPhrasesStep(Phrases(t), EventPhrases(init), e.phrase);
    var r := Expected(t, ev);
    var a := Add(Expected(t, init), e.phrase, e.usage);
    forall i | 0 <= i < |r| ensures |a| == |r| && a[i] == r[i] {
      ExpectedKnownAt(t, ev, i);
    }
  }

  /** One position of the registry after the event of a new phrase. */
  lemma {:induction false} ExpectedNewAt(t: seq<EntryState>, ev: seq<Event>, i: nat)
    requires NoDup(Phrases(t)) && ev != []
    requires ev[|ev| - 1].phrase !in Phrases(Expected(t, ev[..|ev| - 1]))
    requires Phrases(Expected(t, ev)) == Phrases(Expected(t, ev[..|ev| - 1])) + [ev[|ev| - 1].phrase]
    requires i < |Expected(t, ev)|
    ensures var x := Expected(t, ev[..|ev| - 1]); var e := ev[|ev| - 1];
      |Add(x, e.phrase, e.usage)| == |x| + 1 && Add(x, e.phrase, e.usage)[i] == Expected(t, ev)[i]
  {
    var init := ev[..|ev| - 1];
    var e := ev[|ev| - 1];
    var x := Expected(t, init);
    assert e.phrase !in EventPhrases(init);
    LabeledUntouched([], init, e.phrase);
    AddNewAt(x, e.phrase, e.usage, i);
    if i < |x| {
      assert Phrases(x)[i] != e.phrase;
    }
  }

  lemma {:induction false} ExpectedStepNew(t: seq<EntryState>, ev: seq<Event>)
    requires NoDup(Phrases(t)) && ev != []
    requires ev[|ev| - 1].phrase !in Phrases(Expected(t, ev[..|ev| - 1]))
    ensures Add(Expected(t, ev[..|ev| - 1]), ev[|ev| - 1].phrase, ev[|ev| - 1].usage) == Expected(t, ev)
  {
    var init := ev[..|ev| - 1];
    var e := ev[|ev| - 1];
    assert EventPhrases(ev) == EventPhrases(init) + [e.phrase];
    NewPhrasesStep(Phrases(t), EventPhrases(init), e.phrase);
    var r := Expected(t, ev);
    var a := Add(Expected(t, init), e.phrase, e.usage);
    forall i | 0 <= i < |r| ensures |a| == |r| && a[i] == r[i] {
      ExpectedNewAt(t, ev, i);
    }
  }

  /** A run of extractions appends the new phrases in order of first appearance
      and adds each call's label to its phrase's entry; nothing else changes. */
  lemma {:induction false} ApplyIsExpected(t: seq<EntryState>, ev: seq<Event>)
    requires NoDup(Phrases(t))
    ensures Apply(t, ev) == Expected(t, ev)
  {
    if ev == [] {
      NewPhrasesNone(Phrases(t), EventPhrases(ev));
      assert Expected(t, ev) == t;
    } else {
      ApplyIsExpected(t, ev[..|ev| - 1]);
      if ev[|ev| - 1].phrase in Phrases(Expected(t, ev[..|ev| - 1])) {
        ExpectedStepKnown(t, ev);
      } else {
        ExpectedStepNew(t, ev);
      }
    }
  }

  /** Re-running the same extraction after a reset that clears its own labels
      reproduces the same registry. */
  lemma {:induction false} RescanIdempotent(s: seq<EntryState>, prefix: string, ev: seq<Event>)
    requires NoDup(Phrases(s))
    requires forall j :: 0 <= j < |ev| && ev[j].usage.Some? ==> prefix <= ev[j].usage.value
    ensures Apply(Reset(Apply(Reset(s, prefix), ev), prefix), ev) == Apply(Reset(s, prefix), ev)
  {
    var t0 := Reset(s, prefix);
    assert Phrases(t0) == Phrases(s);
    ApplyIsExpected(t0, ev);
    ExpectedNoDup(t0, ev);
    var r1 := Expected(t0, ev);
    var u := Reset(r1, prefix);
    assert Phrases(u) == Phrases(r1);
    ApplyIsExpected(u, ev);
    NewPhrasesNone(Phrases(u), EventPhrases(ev));
    var r2 := Expected(u, ev);
    forall i | 0 <= i < |r1| ensures r2[i] == r1[i] {
      if i < |t0| {
        WithoutLabeled(t0[i].src, ev, t0[i].phrase, prefix);
        WithoutIdempotent(s[i].src, prefix);
      } else {
        WithoutLabeled([], ev, r1[i].phrase, prefix);
      }
    }
  }

  /** Parsing identical code for the same source twice gives the same registry as
      parsing it once: no duplicated and no stale usage labels. */
  lemma {:induction false} ParseTwiceIsParseOnce(s: seq<EntryState>, policy: PathPolicy, names: seq<string>, code: string,
                              nodes: seq<Node>, src: string)
    requires NoDup(Phrases(s))
    ensures var once := Parse(s, policy, names, code, nodes, src);
      Parse(once, policy, names, code, nodes, src) == once
  {
    var norm := Normalize(policy, src);
    var ev := Events(MatchedArgs(nodes, names), Table(code), norm, src != "");
    RescanIdempotent(s, norm, ev);
  }

  // ---------------------------------------------------------------------------
  // Serialisation
  // ---------------------------------------------------------------------------

  /** `entry.toJSON(options)[1]` as data: the per-language values, then `'@'`
      (the sorted usage labels) unless `noSource`. */
  datatype EntryJson = EntryJson(phrase: string, translations: seq<(string, Value)>, sources: Option<seq<string>>)

  /** The registry's `toJSON`: the language table and the phrase records. */
  datatype RegistryJson = RegistryJson(langs: seq<(string, int)>, phrases: seq<EntryJson>)

  predicate IsTranslated(e: EntryState, lang: string)
  {
    lang in e.translations && e.translations[lang].Str?
  }

  /** The value serialised for one language: the string, or `null`. */
  function Cell(e: EntryState, lang: string): (v: Value)
    ensures v.Str? || v.Null?
    ensures v.Str? <==> IsTranslated(e, lang)
    ensures v.Str? ==> v == e.translations[lang]
  {
    if IsTranslated(e, lang) then e.translations[lang] else Null
  }

  /** The position of the first language without a string translation, or the
      number of languages when there is none. */
  function FirstMissing(e: EntryState, langs: seq<string>): (k: nat)
    ensures k <= |langs|
    ensures forall i :: 0 <= i < k ==> IsTranslated(e, langs[i])
    ensures k < |langs| ==> !IsTranslated(e, langs[k])
  {
    if langs == [] then 0
    else
      var k := FirstMissing(e, langs[..|langs| - 1]);
      if k < |langs| - 1 then k
      else if !IsTranslated(e, langs[|langs| - 1]) then |langs| - 1
      else |langs|
  }

  /** The per-language part of `toJSON`: in strict mode it fails at the first
      untranslated language; otherwise each language maps to its string or `null`. */
  function Fields(e: EntryState, langs: seq<string>, strict: bool): (r: Result<seq<(string, Value)>>)
    ensures r.Ok? <==> !strict || FirstMissing(e, langs) == |langs|
  {
    var k := FirstMissing(e, langs);
    if strict && k < |langs| then Err(NotTranslated(e.phrase, langs[k]))
    else Ok(seq(|langs|, j requires 0 <= j < |langs| => (langs[j], Cell(e, langs[j]))))
  }

  /** A successful `toJSON` has one key per language, in table order, each
      holding the entry's cell. */
  lemma FieldsShape(e: EntryState, langs: seq<string>, strict: bool)
    requires Fields(e, langs, strict).Ok?
    ensures var f := Fields(e, langs, strict).value;
      KeysOf(f) == langs && forall j :: 0 <= j < |langs| ==> f[j].1 == Cell(e, langs[j])
  {
    var f := Fields(e, langs, strict).value;
    assert KeysOf(f) == langs;
  }

  /** Strict `toJSON` fails exactly when some language lacks a string
      translation, and names the first one. */
  lemma FieldsFailAtFirstMissing(e: EntryState, langs: seq<string>)
    ensures Fields(e, langs, true).Ok? <==> forall l :: l in langs ==> IsTranslated(e, l)
    ensures Fields(e, langs, true).Err? ==>
      exists j :: (0 <= j < |langs| && !IsTranslated(e, langs[j])
                   && (forall i :: 0 <= i < j ==> IsTranslated(e, langs[i]))
                   && Fields(e, langs, true).error == NotTranslated(e.phrase, langs[j]))
  {
    var k := FirstMissing(e, langs);
    if k == |langs| {
      forall l | l in langs ensures IsTranslated(e, l) {
        var i :| 0 <= i < |langs| && langs[i] == l;
      }
    }
  }

  /** `entry.toJSON({noSource})`. */
  function EntryToJson(e: EntryState, langs: seq<string>, strict: bool, noSource: bool): (r: Result<EntryJson>)
    ensures r.Ok? <==> Fields(e, langs, strict).Ok?
    ensures r.Err? ==> r.error == NotTranslated(e.phrase, langs[FirstMissing(e, langs)])
  {
    var f := Fields(e, langs, strict);
    if f.Err? then Err(f.error) else Ok(EntryJson(e.phrase, f.value, if noSource then None else Some(Sort(e.src))))
  }

  /** A record names its phrase and holds, per language in table order, the
      entry's cell. */
  lemma EntryShape(e: EntryState, langs: seq<string>, strict: bool, noSource: bool)
    requires EntryToJson(e, langs, strict, noSource).Ok?
    ensures var j := EntryToJson(e, langs, strict, noSource).value;
      && j.phrase == e.phrase && KeysOf(j.translations) == langs
      && forall k :: 0 <= k < |langs| ==> j.translations[k].1 == Cell(e, langs[k])
  {
    FieldsShape(e, langs, strict);
  }

  /** The `'@'` list is present unless `noSource`, sorted, and holds exactly the usage labels. */
  lemma EntrySources(e: EntryState, langs: seq<string>, strict: bool, noSource: bool)
    requires EntryToJson(e, langs, strict, noSource).Ok?
    ensures var j := EntryToJson(e, langs, strict, noSource).value;
      && (j.sources.None? <==> noSource)
      && (j.sources.Some? ==> Sorted(j.sources.value) && multiset(j.sources.value) == multiset(e.src))
  {
    SortSorted(e.src);
  }

  /** How strict mode treats an entry without usage: src/index.js rejects the
      registry (`checkUsage`), src/-entries/index.js skips the entry (`usedPhrases`). */
  datatype UnusedPolicy = Reject | Skip

  predicate IsUsed(e: EntryState) { e.src != [] }

  /** `usedPhrases`: the entries with usage, in registry order. */
  function Used(s: seq<EntryState>): (r: seq<EntryState>)
    ensures |r| <= |s|
    ensures forall i :: 0 <= i < |r| ==> IsUsed(r[i])
  {
    if s == [] then []
    else
      var prev := Used(s[..|s| - 1]);
      var e := s[|s| - 1];
      if IsUsed(e) then prev + [e] else prev
  }

  /** `usedPhrases` keeps exactly the entries with usage. */
  lemma {:induction false} UsedMembers(s: seq<EntryState>)
    ensures forall e :: e in Used(s) <==> e in s && IsUsed(e)
  {
    if s != [] {
      UsedMembers(s[..|s| - 1]);
      assert forall x :: x in s <==> x in s[..|s| - 1] || x == s[|s| - 1];
    }
  }

  /** `checkUsage()`: the first unused entry's phrase as an `EUNUSED` error. */
  function CheckUsage(s: seq<EntryState>): Result<()>
  {
    if s == [] then Ok(())
    else if !IsUsed(s[0]) then Err(Unused(s[0].phrase))
    else CheckUsage(s[1..])
  }

  /** `checkUsage()` passes exactly when every entry has usage, and otherwise
      names the first entry without. */
  lemma {:induction false} CheckUsageSpec(s: seq<EntryState>)
    ensures var r := CheckUsage(s);
      && (r.Ok? <==> forall i :: 0 <= i < |s| ==> IsUsed(s[i]))
      && (r.Err? ==> exists i :: 0 <= i < |s| && !IsUsed(s[i]) && r.error == Unused(s[i].phrase)
                               && forall j :: 0 <= j < i ==> IsUsed(s[j]))
  {
    if s != [] && IsUsed(s[0]) {
      var t := s[1..];
      CheckUsageSpec(t);
      assert forall i :: 0 < i < |s| ==> s[i] == t[i - 1];
      if CheckUsage(t).Err? {
        var i :| 0 <= i < |t| && !IsUsed(t[i]) && CheckUsage(t).error == Unused(t[i].phrase)
                 && forall j :: 0 <= j < i ==> IsUsed(t[j]);
        assert s[i + 1] == t[i];
      }
    }
  }

  /** The entries a serialisation iterates, or the strict-mode usage error. */
  function Selected(s: seq<EntryState>, strict: bool, policy: UnusedPolicy): Result<seq<EntryState>>
  {
    if !strict then Ok(s)
    else match policy
      case Reject => (var c := CheckUsage(s); if c.Err? then Err(c.error) else Ok(s))
      case Skip => Ok(Used(s))
  }

  /** `toJSON` of each entry in order, failing at the first error. */
  function JsonAll(list: seq<EntryState>, langs: seq<string>, strict: bool, noSource: bool): (r: Result<seq<EntryJson>>)
    ensures r.Ok? ==> |r.value| == |list|
    ensures r.Err? ==> r.error.NotTranslated?
  {
    if list == [] then Ok([])
    else
      var prev := JsonAll(list[..|list| - 1], langs, strict, noSource);
      var cur := EntryToJson(list[|list| - 1], langs, strict, noSource);
      if prev.Err? then prev
      else if cur.Err? then Err(cur.error)
      else Ok(prev.value + [cur.value])
  }

  lemma {:induction false} JsonAllOkWhenEach(list: seq<EntryState>, langs: seq<string>, strict: bool, noSource: bool)
    requires forall i :: 0 <= i < |list| ==> Fields(list[i], langs, strict).Ok?
    ensures JsonAll(list, langs, strict, noSource).Ok?
  {
    if list != [] {
      var init := list[..|list| - 1];
      assert forall i :: 0 <= i < |init| ==> init[i] == list[i];
      JsonAllOkWhenEach(init, langs, strict, noSource);
    }
  }

  lemma {:induction false} JsonAllErrAt(list: seq<EntryState>, langs: seq<string>, strict: bool, noSource: bool, i: nat)
    requires i < |list| && Fields(list[i], langs, strict).Err?
    ensures JsonAll(list, langs, strict, noSource).Err?
  {
    if i < |list| - 1 {
      var init := list[..|list| - 1];
      assert init[i] == list[i];
      JsonAllErrAt(init, langs, strict, noSource, i);
    }
  }

  /** The serialisation of a list succeeds exactly when each entry's does. */
  lemma JsonAllOk(list: seq<EntryState>, langs: seq<string>, strict: bool, noSource: bool)
    ensures JsonAll(list, langs, strict, noSource).Ok? <==> forall i :: 0 <= i < |list| ==> Fields(list[i], langs, strict).Ok?
  {
    if forall i :: 0 <= i < |list| ==> Fields(list[i], langs, strict).Ok? {
      JsonAllOkWhenEach(list, langs, strict, noSource);
    } else {
      var i :| 0 <= i < |list| && !Fields(list[i], langs, strict).Ok?;
      JsonAllErrAt(list, langs, strict, noSource, i);
    }
  }

  /** A successful serialisation lists each entry's record, in order. */
  lemma {:induction false} JsonAllAt(list: seq<EntryState>, langs: seq<string>, strict: bool, noSource: bool, i: nat)
    requires JsonAll(list, langs, strict, noSource).Ok? && i < |list|
    ensures EntryToJson(list[i], langs, strict, noSource) == Ok(JsonAll(list, langs, strict, noSource).value[i])
  {
    var n := |list| - 1;
    var init := list[..n];
    var prev := JsonAll(init, langs, strict, noSource);
    var cur := EntryToJson(list[n], langs, strict, noSource);
    assert prev.Ok? && cur.Ok?;
    assert JsonAll(list, langs, strict, noSource).value == prev.value + [cur.value];
    if i < n {
      JsonAllAt(init, langs, strict, noSource, i);
      assert init[i] == list[i];
    }
  }

  lemma JsonAllEach(list: seq<EntryState>, langs: seq<string>, strict: bool, noSource: bool)
    requires JsonAll(list, langs, strict, noSource).Ok?
    ensures forall i :: 0 <= i < |list| ==>
      EntryToJson(list[i], langs, strict, noSource).Ok?
      && JsonAll(list, langs, strict, noSource).value[i] == EntryToJson(list[i], langs, strict, noSource).value
  {
    forall i | 0 <= i < |list| ensures EntryToJson(list[i], langs, strict, noSource) == Ok(JsonAll(list, langs, strict, noSource).value[i]) {
      JsonAllAt(list, langs, strict, noSource, i);
    }
  }

  /** Whether and how serialisation fails does not depend on `noSource`. */
  lemma {:induction false} JsonAllNoSource(list: seq<EntryState>, langs: seq<string>, strict: bool, a: bool, b: bool)
    ensures JsonAll(list, langs, strict, a).Err? <==> JsonAll(list, langs, strict, b).Err?
    ensures JsonAll(list, langs, strict, a).Err? ==> JsonAll(list, langs, strict, a).error == JsonAll(list, langs, strict, b).error
  {
    if list != [] {
      JsonAllNoSource(list[..|list| - 1], langs, strict, a, b);
    }
  }

  /** `translations[lang]` of a record: the value, or `undefined` for a missing key. */
  function ValueAt(t: seq<(string, Value)>, lang: string): (v: Value)
    ensures lang !in KeysOf(t) ==> v == Undefined
  {
    match Lookup(t, lang)
    case Some(x) => x
    case None => Undefined
  }

  /** The mapping pass of `toMinifiedJSON` for one language: `toJSON` of each
      entry in order, failing at the first error, keeping `translations[lang]`. */
  function ColumnOf(list: seq<EntryState>, langs: seq<string>, strict: bool, lang: string): (r: Result<seq<Value>>)
    ensures r.Ok? ==> |r.value| == |list|
  {
    if list == [] then Ok([])
    else
      var prev := ColumnOf(list[..|list| - 1], langs, strict, lang);
      var cur := EntryToJson(list[|list| - 1], langs, strict, false);
      if prev.Err? then prev
      else if cur.Err? then Err(cur.error)
      else Ok(prev.value + [ValueAt(cur.value.translations, lang)])
  }

  /** The values of one language for a list of entries. */
  function Cells(list: seq<EntryState>, lang: string): (cells: seq<Value>)
    ensures |cells| == |list| && forall k :: 0 <= k < |list| ==> cells[k] == Cell(list[k], lang)
  {
    seq(|list|, k requires 0 <= k < |list| => Cell(list[k], lang))
  }

  /** A record's value for a language of its table is the entry's cell. */
  lemma LookupCell(t: seq<(string, Value)>, langs: seq<string>, e: EntryState, lang: string)
    requires KeysOf(t) == langs && lang in langs
    requires forall j :: 0 <= j < |langs| ==> t[j].1 == Cell(e, langs[j])
    ensures ValueAt(t, lang) == Cell(e, lang)
  {
    var r := Lookup(t, lang);
    var i :| 0 <= i < |t| && t[i] == (lang, r.value);
    assert KeysOf(t)[i] == lang;
  }

  /** A one-language pass fails exactly as the full serialisation does, and
      otherwise yields each entry's cell for that language. */
  lemma CellsSnoc(list: seq<EntryState>, lang: string)
    requires list != []
    ensures Cells(list, lang) == Cells(list[..|list| - 1], lang) + [Cell(list[|list| - 1], lang)]
  {
  }

  lemma {:induction false} ColumnOfSpec(list: seq<EntryState>, langs: seq<string>, strict: bool, lang: string)
    requires lang in langs
    ensures var c := ColumnOf(list, langs, strict, lang);
      var all := JsonAll(list, langs, strict, false);
      && (c.Err? <==> all.Err?)
      && (c.Err? ==> c.error == all.error)
      && (c.Ok? ==> c.value == Cells(list, lang))
  {
    if list != [] {
      var n := |list| - 1;
      var init := list[..n];
      ColumnOfSpec(init, langs, strict, lang);
      var prev := ColumnOf(init, langs, strict, lang);
      var all := JsonAll(init, langs, strict, false);
      var cur := EntryToJson(list[n], langs, strict, false);
      assert ColumnOf(list, langs, strict, lang) ==
        if prev.Err? then prev else if cur.Err? then Err(cur.error) else Ok(prev.value + [ValueAt(cur.value.translations, lang)]);
      assert JsonAll(list, langs, strict, false) ==
        if all.Err? then all else if cur.Err? then Err(cur.error) else Ok(all.value + [cur.value]);
      if prev.Ok? && cur.Ok? {
        LookupCell(cur.value.translations, langs, list[n], lang);
        CellsSnoc(list, lang);
      }
    }
  }

  /** `getPhrases(options)`: one JSON record per selected entry, in registry order. */
  function PhrasesJson(s: seq<EntryState>, langs: seq<string>, strict: bool, policy: UnusedPolicy, noSource: bool): Result<seq<EntryJson>>
  {
    var sel := Selected(s, strict, policy);
    if sel.Err? then Err(sel.error) else JsonAll(sel.value, langs, strict, noSource)
  }

  /** One row of `toMinifiedJSON`: `[lang, rule, t_0, ..., t_{n-1}]`. */
  datatype Row = Row(lang: string, rule: int, cells: seq<Value>)

  function RowOf(list: seq<EntryState>, lang: (string, int)): Row
  {
    Row(lang.0, lang.1, Cells(list, lang.0))
  }

  /** The entries a `toMinifiedJSON` pass lists, or the error of its first pass:
      the strict-mode usage error, or the first record that fails `toJSON`. */
  function MinifiedEntries(s: seq<EntryState>, langs: seq<string>, strict: bool, policy: UnusedPolicy): (r: Result<seq<EntryState>>)
  {
    var sel := Selected(s, strict, policy);
    if sel.Err? then sel
    else
      var all := JsonAll(sel.value, langs, strict, false);
      if all.Err? then Err(all.error) else sel
  }

  /** `toMinifiedJSON(options)`: no row and no check for an empty language table;
      otherwise the first language's pass fails as `getPhrases` does, and when it
      does not, every language gets a row holding each selected entry's value. */
  function Rows(s: seq<EntryState>, table: seq<(string, int)>, strict: bool, policy: UnusedPolicy): (r: Result<seq<Row>>)
    ensures r.Ok? ==> |r.value| == |table|
  {
    if table == [] then Ok([])
    else match MinifiedEntries(s, KeysOf(table), strict, policy)
      case Err(e) => Err(e)
      case Ok(sel) => Ok(seq(|table|, j requires 0 <= j < |table| => RowOf(sel, table[j])))
  }

  /** The index a literal should carry for the minified rows to give its
      translation back: its phrase's position among the entries the rows
      list, or -1 when the rows do not list it. */
  function WireIndex(s: seq<EntryState>, strict: bool, policy: UnusedPolicy, phrase: string): (k: int)
    ensures var sel := Selected(s, strict, policy);
      && (sel.Ok? && phrase in Phrases(sel.value) ==> 0 <= k < |sel.value| && sel.value[k].phrase == phrase)
      && (sel.Ok? && (!strict || policy.Reject?) ==> k == IndexOfPhrase(Phrases(s), phrase))
  {
    var sel := Selected(s, strict, policy);
    if sel.Err? then -1 else IndexOfPhrase(Phrases(sel.value), phrase)
  }

  // --- properties of the serialisations ---------------------------------------

  /** Outside strict mode serialisation never fails, and every record has a
      key per language whose value is the string translation or `null`. */
  lemma LenientNeverFails(s: seq<EntryState>, langs: seq<string>, policy: UnusedPolicy, noSource: bool)
    ensures var r := PhrasesJson(s, langs, false, policy, noSource);
      && r.Ok? && |r.value| == |s|
      && forall i :: 0 <= i < |s| ==>
           (r.value[i].phrase == s[i].phrase && KeysOf(r.value[i].translations) == langs
            && forall j :: 0 <= j < |langs| ==> r.value[i].translations[j].1 == Cell(s[i], langs[j]))
  {
    JsonAllOk(s, langs, false, noSource);
    JsonAllEach(s, langs, false, noSource);
  }

  /** In strict mode every serialised value is a string. */
  lemma StrictOnlyStrings(s: seq<EntryState>, langs: seq<string>, policy: UnusedPolicy, noSource: bool)
    requires PhrasesJson(s, langs, true, policy, noSource).Ok?
    ensures var r := PhrasesJson(s, langs, true, policy, noSource).value;
      forall i, j :: 0 <= i < |r| && 0 <= j < |r[i].translations| ==> r[i].translations[j].1.Str?
  {
    var sel := Selected(s, true, policy).value;
    JsonAllOk(sel, langs, true, noSource);
    JsonAllEach(sel, langs, true, noSource);
  }

  /** src/index.js in strict mode: `getPhrases` fails with `EUNUSED`, naming the
      first entry without usage, exactly when there is one. */
  lemma StrictRejectsUnused(s: seq<EntryState>, langs: seq<string>, noSource: bool)
    ensures var r := PhrasesJson(s, langs, true, Reject, noSource);
      && ((exists i :: 0 <= i < |s| && !IsUsed(s[i])) ==>
            exists i :: 0 <= i < |s| && !IsUsed(s[i]) && r == Err(Unused(s[i].phrase))
                        && forall j :: 0 <= j < i ==> IsUsed(s[j]))
      && ((forall i :: 0 <= i < |s| ==> IsUsed(s[i])) ==> r.Ok? || r.error.NotTranslated?)
  {
    CheckUsageSpec(s);
  }

  /** src/-entries/index.js in strict mode: unused entries are left out, never an
      error; the only failure is a used entry that is not translated. */
  lemma StrictSkipsUnused(s: seq<EntryState>, langs: seq<string>, noSource: bool)
    ensures var r := PhrasesJson(s, langs, true, Skip, noSource);
      && (r.Ok? ==> |r.value| == |Used(s)|
                    && forall i :: 0 <= i < |r.value| ==> (r.value[i].phrase == Used(s)[i].phrase && IsUsed(Used(s)[i])))
      && (r.Err? ==> r.error.NotTranslated?)
  {
    var u := Used(s);
    if JsonAll(u, langs, true, noSource).Ok? {
      JsonAllEach(u, langs, true, noSource);
    }
  }

  /** Each row of `toMinifiedJSON` is `[lang, rule, t_0, ..., t_{n-1}]` for the
      table's languages in order; `t_i` is the string translation of the i-th
      selected entry, or `null`, and in strict mode always the string. */
  lemma RowsShape(s: seq<EntryState>, table: seq<(string, int)>, strict: bool, policy: UnusedPolicy)
    requires Rows(s, table, strict, policy).Ok? && table != []
    ensures Selected(s, strict, policy).Ok?
    ensures var rows := Rows(s, table, strict, policy).value; var sel := Selected(s, strict, policy).value;
      forall j :: 0 <= j < |table| ==>
        rows[j].lang == table[j].0 && rows[j].rule == table[j].1 && |rows[j].cells| == |sel|
        && (forall i :: 0 <= i < |sel| ==> rows[j].cells[i] == Cell(sel[i], table[j].0))
        && (strict ==> forall i :: 0 <= i < |sel| ==> rows[j].cells[i].Str?)
  {
    var sel := Selected(s, strict, policy).value;
    JsonAllOk(sel, KeysOf(table), strict, false);
    if strict {
      forall i, j | 0 <= i < |sel| && 0 <= j < |table| ensures IsTranslated(sel[i], table[j].0) {
        assert Fields(sel[i], KeysOf(table), strict).Ok?;
        assert table[j].0 == KeysOf(table)[j];
      }
    }
  }

  /** Minified rows and `getPhrases` fail or succeed together (the minified form
      omits `'@'` but checks the same things), given a non-empty table. */
  lemma RowsFailLikePhrases(s: seq<EntryState>, table: seq<(string, int)>, strict: bool, policy: UnusedPolicy, noSource: bool)
    requires table != []
    ensures Rows(s, table, strict, policy).Err? <==> PhrasesJson(s, KeysOf(table), strict, policy, noSource).Err?
    ensures Rows(s, table, strict, policy).Err? ==>
      Rows(s, table, strict, policy).error == PhrasesJson(s, KeysOf(table), strict, policy, noSource).error
  {
    var sel := Selected(s, strict, policy);
    if sel.Ok? {
      JsonAllNoSource(sel.value, KeysOf(table), strict, false, noSource);
    }
  }
}
