# n-lingual in Dafny

A model of the core of n-lingual, a JavaScript library for translating string
literals, with proofs about it. The library does three things:

1. It collects the string literals passed to `translate(...)` and
   `addPhrase(...)` in source files into a phrase registry (`Entries`, a list of
   `Entry` objects). Each entry records its usage labels `path:line` and its
   translations per language.
2. It serialises that registry in one of two forms:
   - a keyed object `{langs, phrases}`;
   - positional "minified" rows `[lang, rule, t_0, ..., t_{n-1}]`, one value
     per listed entry. `minify` rewrites each literal in the code to the
     decimal position of its entry in the registry. That position is the
     entry's index in the rows whenever the rows list every entry. In the
     split revision's strict mode they do not (see "## Findings").
3. A `Translator` loads either form, switches to a language with `use(lang)`,
   and renders `translate(key, params)`. Rendering substitutes `{{ key }}`
   and `{{ key | form0, form1, ... }}` placeholders, and the plural form comes
   from one of 18 plural rules.

The single-file version `src/index.js` is the primary model. The split modules
(`src/-entry`, `src/-entries`, `src/-translator`, `src/-line-breaks`,
`src/plural-rules`) are a second revision. Where that revision behaves
differently, it gets its own member:
- `UnusedPolicy.Skip` models how strict mode filters through `usedPhrases`;
- `noSource` models the optional `'@'` list;
- the class `Translation.MapTranslator` models the `Map`-based translator.

Modules:

| file | module | what it holds |
|---|---|---|
| `js.dfy` | `Js` | JavaScript values and errors; plain objects as ordered key lists; `String(n)`; whitespace trimming; the default string sort |
| `line_breaks.dfy` | `LineBreaking` | the `LineBreaks` class (offset to line) |
| `paths.dfy` | `Paths` | `normalizeSrc`, with the operating system as a parameter |
| `plural_rules.dfy` | `PluralRules` | `isIn` and the 18 plural rules |
| `registry_model.dfy` | `RegistryModel` | the registry as a value; the functions that specify every registry operation, and the lemmas about them |
| `registry.dfy` | `Registry` | the `Entry` and `Entries` classes; every method is proved to change the registry exactly as its `RegistryModel` function says |
| `placeholders.dfy` | `Placeholders` | the placeholder regular expression and its replacement callback, as a scanner over the text |
| `translator.dfy` | `Translation` | `load`, `use` and `translate` of both translators; the round trips from the registry's two serialisations |

## Model

| member | source | states |
|---|---|---|
| Js.Lookup | src/index.js:335 | reading `obj[k]` finds a key exactly when it is present; with distinct keys it returns that key's value |
| Js.Put | src/index.js:311 | `obj[k] = v`: keys stay distinct; an existing key keeps its place and a new one goes last; `k` now reads `v` and every other key reads as before |
| Js.ToDisplay | src/index.js:360-366 | `String(v)`: a string substitutes as itself, `undefined` and `null` as their names, and a number as the decimal text that denotes it |
| Js.NatToString | src/index.js:180 | the decimal digits of a natural number, without a leading zero, denote that number |
| Js.IntToString | src/index.js:180 | `${entry.index}` is a decimal literal, starting with `-` exactly for a negative number, that denotes the number |
| Js.InsertSorted | src/index.js:91 | inserting into a sorted list keeps it sorted and adds exactly that element |
| Js.SortSorted | src/index.js:91 | `Array.from(src).sort()` is a sorted permutation of the usage labels |
| Js.LexTotal | src/-entry/index.js:71 | the default sort order compares any two strings |
| Js.LexTransitive | src/-entry/index.js:71 | the default sort order is transitive |
| LineBreaking.BreaksBefore | src/index.js:10-16 | the recorded offsets are increasing, and an offset is recorded exactly when a `\r\n`, a lone `\r` or a lone `\n` starts there |
| LineBreaking.FindAbove | src/index.js:18-20 | `findIndex` gives the first element above the offset, or -1 when there is none |
| LineBreaking.LineIsBreaksUpTo | src/index.js:18-20 | `lineAt(k)` is one plus the number of recorded offsets `<= k` |
| LineBreaking.CountMonotone | src/-line-breaks/index.js:11-13 | the number of breaks up to an offset never decreases as the offset grows |
| LineBreaking.NoBreaksInFlatText | src/-line-breaks/index.js:3-9 | a text without `\r` or `\n` records no break |
| LineBreaking.CrLfIsOneBreak | src/-line-breaks/index.js:5-7 | a `\r\n` pair is one break, at the `\r` |
| LineBreaking.LineBreaks.constructor | src/-line-breaks/index.js:3-9 | the table is the break offsets in order, then `Infinity` |
| LineBreaking.LineBreaks.LineAt | src/-line-breaks/index.js:11-13 | the line is 1 plus the number of breaks at or before the offset, between 1 and the number of breaks plus one |
| LineBreaking.LineBreaks.LineAtMonotone | src/index.js:18-20 | a later offset is never on an earlier line |
| LineBreaking.FlatTextIsOneLine | src/index.js:8-22 | in a text with no line break every offset is on line 1 |
| Paths.ToSlashes | src/index.js:52 | `split(sep).join('/')` replaces each separator with `/` and leaves every other character |
| Paths.SlashesOnly | src/-entry/index.js:30-32 | a normalised path holds no platform separator unless the separator is `/` |
| Paths.NormalizeIdempotent | src/-entry/index.js:30-32 | normalising a relative path twice is normalising it once |
| PluralRules.Rem | src/index.js:232 | `n % d` truncates toward zero: below `d` in size, equal to the remainder for `n >= 0`, and for negative `n` the negated remainder of `-n` (so `-13 % 10` is `-3`) |
| PluralRules.Classify | src/index.js:228-287 | every rule maps every integer to a form index below its number of forms |
| PluralRules.ClassifyNaN | src/plural-rules/index.js:6-87 | a missing count falls to the last form of every rule except rule 2, which gives form 0 |
| PluralRules.IsInInclusive | src/index.js:227 | `isIn` includes both ends |
| PluralRules.TwoFormRules | src/index.js:230-231 | rules 1, 2 and 17 are the two-form rules keyed on 1, on `n > 1` and on 0 (line 286) |
| PluralRules.Rule7Vectors | src/index.js:240-244 | rule 7 on 1, 2, 5, 11, 12, 21 and 22 |
| PluralRules.Rule12Vectors | src/index.js:252-255 | rule 12: 0, 1 and 2 have their own forms, 3-10 and 11-99 (mod 100) two more, and 100-102 the last |
| PluralRules.Rule15Vectors | src/index.js:264 | rule 15 compares `n` itself with 11, so 111 takes form 0 |
| PluralRules.Rule16Vectors | src/index.js:265-285 | rule 16 on 1, 21, 11, 71, 0 and multiples of a million |
| PluralRules.LastDigitsDecide | src/index.js:235-263 | for non-negative counts, rules 6, 7 and 10 depend only on `n % 100` and rule 14 only on `n % 10` |
| PluralRules.EveryFormOccurs | src/plural-rules/index.js:6-87 | every form of every rule is reached by some count |
| RegistryModel.IndexOfPhrase | src/index.js:143-145 | `findIndex` gives the first position of the phrase, or -1 exactly when it is absent |
| RegistryModel.UniqueIndex | src/-entries/index.js:49-51 | with unique phrases, a phrase's position is the one `findIndex` gives |
| RegistryModel.Label | src/index.js:55-57 | a usage label starts with the normalised path |
| RegistryModel.AddLabel | src/index.js:56 | `Set.add` adds the label once, keeps the earlier labels in order and keeps them distinct |
| RegistryModel.WithoutKeeps | src/index.js:59-66 | `resetSrc` keeps exactly the labels that do not start with the prefix, still distinct |
| RegistryModel.WithoutIdempotent | src/-entry/index.js:38-45 | resetting twice is resetting once |
| RegistryModel.AddedIndex | src/index.js:151-161 | `add` returns the entry at the phrase's old position, or at the end for a new phrase |
| RegistryModel.AddKnown | src/index.js:151-161 | `add` of a known phrase changes only that entry's labels, which gain the usage |
| RegistryModel.AddAppends | src/index.js:151-161 | `add` of a new phrase appends one entry holding just the given usage |
| RegistryModel.AddIdempotent | src/-entries/index.js:57-67 | `add` twice is `add` once |
| RegistryModel.ResetRemovesExactly | src/index.js:163-167 | `resetSrc` on the registry removes exactly the labels under the prefix and keeps phrases, translations and uniqueness |
| RegistryModel.WriteLangs | src/index.js:68-72 | `setTranslations` writes each registry language (a missing value becomes `undefined`) and keeps every other key |
| RegistryModel.LoadOneShape | src/index.js:189-191 | one phrase of `load` appends at most that phrase, records no usage and keeps phrases unique |
| RegistryModel.LoadOneTranslations | src/-entry/index.js:47-51 | one phrase of `load` overwrites that phrase's languages and no other entry's |
| RegistryModel.LoadKeepsUsage | src/index.js:187-192 | `load` keeps every entry in place with its usage and gives new entries none |
| RegistryModel.LoadPhrases | src/-entries/index.js:108-113 | after `load`, the phrases are the old ones plus the loaded ones |
| RegistryModel.LoadKeepsOthers | src/index.js:187-192 | `load` keeps the translations of every phrase it does not mention |
| RegistryModel.LoadSetsTranslations | src/index.js:187-192 | after `load`, each loaded phrase holds the loaded value for each language of the new table, `undefined` where the data has none |
| RegistryModel.Matched | src/index.js:111-123 | the extractor only takes a call whose first argument is a string literal |
| RegistryModel.Expected | src/index.js:169-176 | the registry after a run of extractions, entry by entry: old entries gain labels, new phrases follow in order of first appearance |
| RegistryModel.NewPhrases | src/index.js:151-161 | the new phrases of a run are distinct, unknown before, and cover every phrase of the run not known before |
| RegistryModel.ApplyIsExpected | src/index.js:173-175 | a run of `add` calls has exactly the effect `Expected` describes |
| RegistryModel.RescanIdempotent | src/index.js:169-176 | re-running the same extraction after a reset that clears its labels gives the same registry |
| RegistryModel.ParseTwiceIsParseOnce | src/-entries/index.js:75-95 | parsing the same code for the same source twice equals parsing it once: no stale and no duplicated labels |
| RegistryModel.Cell | src/index.js:76-89 | a serialised value is the string translation, or `null` exactly when there is none |
| RegistryModel.FirstMissing | src/index.js:76-79 | the first language without a string translation, if any |
| RegistryModel.Fields | src/index.js:74-90 | the per-language part of `toJSON` succeeds exactly outside strict mode or when every language is translated |
| RegistryModel.FieldsShape | src/-entry/index.js:55-69 | a successful `toJSON` has one key per language, in table order, holding the entry's cell |
| RegistryModel.FieldsFailAtFirstMissing | src/-entry/index.js:57-63 | strict `toJSON` fails exactly when some language lacks a string and names the first one with `ENOTTRANSLATED` |
| RegistryModel.EntryToJson | src/-entry/index.js:53-74 | `toJSON` fails exactly as its language part does, naming the first missing language |
| RegistryModel.EntryShape | src/-entry/index.js:53-74 | a record names its phrase and holds each language's cell in table order |
| RegistryModel.EntrySources | src/-entry/index.js:70-72 | `'@'` is present unless `noSource`, sorted, and holds exactly the usage labels |
| RegistryModel.Used | src/-entries/index.js:45-47 | `usedPhrases` lists only entries with usage |
| RegistryModel.UsedMembers | src/-entries/index.js:45-47 | `usedPhrases` keeps exactly the entries with usage |
| RegistryModel.CheckUsageSpec | src/index.js:134-141 | `checkUsage` passes exactly when every entry has usage and otherwise fails with `EUNUSED` for the first entry without |
| RegistryModel.JsonAll | src/index.js:194-201 | serialising a list gives one record per entry, or a not-translated error |
| RegistryModel.JsonAllOk | src/index.js:194-201 | serialising a list succeeds exactly when each entry does |
| RegistryModel.JsonAllAt | src/-entries/index.js:115-122 | a successful serialisation lists each entry's record in order |
| RegistryModel.JsonAllNoSource | src/-entries/index.js:115-122 | whether and how serialisation fails does not depend on `noSource` |
| RegistryModel.ColumnOfSpec | src/index.js:210-219 | one language's pass of `toMinifiedJSON` fails exactly as the full serialisation does, and otherwise yields each entry's cell |
| RegistryModel.Cells | src/index.js:213-216 | a row holds, for each listed entry, its cell for the row's language |
| RegistryModel.LenientNeverFails | src/index.js:194-208 | outside strict mode `getPhrases` never fails, and each record holds a string or `null` per language |
| RegistryModel.StrictOnlyStrings | src/index.js:78-83 | in strict mode every serialised value is a string |
| RegistryModel.StrictRejectsUnused | src/index.js:196 | src/index.js in strict mode fails with `EUNUSED` for the first unused entry, exactly when there is one |
| RegistryModel.StrictSkipsUnused | src/-entries/index.js:117 | the split revision in strict mode leaves unused entries out; its only error is a not-translated one |
| RegistryModel.RowsShape | src/index.js:210-219 | each row is `[lang, rule, t_0, ...]` for the table's languages in order; `t_i` is the i-th listed entry's cell, and a string in strict mode |
| RegistryModel.RowsFailLikePhrases | src/-entries/index.js:131-140 | for a non-empty table, the minified form and `getPhrases` fail together, with the same error |
| Registry.Position | src/index.js:47-49 | `indexOf` gives the first position of the object, or -1 exactly when it is absent |
| Registry.Entry.constructor | src/index.js:26-33 | a new entry has its phrase and owner, no usage and no translations |
| Registry.Entry.Index | src/-entry/index.js:26-28 | the `index` getter is the entry's position in its registry, or -1 |
| Registry.Entry.AddSrc | src/index.js:55-57 | `addSrc` adds the label `normalizeSrc(src):line` and changes nothing else |
| Registry.Entry.ResetSrc | src/-entry/index.js:38-45 | deleting while iterating the set removes exactly the labels under the normalised prefix |
| Registry.Entry.SetTranslations | src/-entry/index.js:47-51 | `setTranslations` writes as `WriteLangs` says and keeps the usage |
| Registry.Entry.ToJson | src/index.js:74-93 | `toJSON` returns the serialised record and changes nothing |
| Registry.Entries.constructor | src/index.js:99-132 | a new registry is empty with the given options |
| Registry.Entries.Default | src/index.js:105-110 | the defaults are the names `translate` and `addPhrase`, `{en: 1}` and no strict mode |
| Registry.Entries.FindIndex | src/index.js:143-145 | `findIndex` returns the first position of the phrase, or -1 |
| Registry.Entries.Find | src/index.js:147-149 | `find` returns the phrase's entry, or `undefined` exactly when the phrase is unknown |
| Registry.Entries.Push | src/index.js:153-154 | appending a new entry for an unknown phrase adds one entry with that phrase, no usage and no translations, and keeps phrases unique |
| Registry.Entries.Add | src/index.js:151-161 | `add` changes the registry as `RegistryModel.Add` says, only appends, and returns the phrase's entry |
| Registry.Entries.EntryIndex | src/-entries/index.js:49-55 | an entry's `index` is the position `findIndex` gives for its phrase |
| Registry.Entries.ResetSrc | src/index.js:163-167 | `resetSrc` on every entry changes the registry as `Reset` says |
| Registry.Entries.Extract | src/index.js:111-123 | the default extractor adds a recognised literal with the usage `src:line` and reports its entry's index and offsets |
| Registry.Entries.Parse | src/index.js:169-176 | `parse` resets the source, then extracts every node in walk order; afterwards every recognised literal's phrase is known |
| Registry.Entries.Minify | src/index.js:178-185 | `minify` overwrites each recognised literal with the decimal position of its phrase's entry in the registry |
| RegistryModel.WireIndex | src/-entries/index.js:131-137 | the index that gives a phrase's value back from the rows: its position among the listed entries, which is its registry position whenever every entry is listed |
| Translation.MinifyIndexTranslates | src/index.js:178-185 | outside strict mode and in the strict mode of `src/index.js`, the text `minify` writes reads back as the entry's position, and after loading the rows and `use(lang)` it translates to the entry's translation, or to the number when there is none |
| Translation.SkipIndexMisses | src/-entries/index.js:97-137 | with an unused entry first, strict `src/-entries` writes `b` as 1 but lists `b`'s value at 0, and `translate(1)` gives 1 back instead of `"B"` |
| Translation.WireIndexTranslates | src/-entries/index.js:131-137 | with the index taken among the listed entries, the translation comes back in every mode |
| Registry.Entries.LoadPhrase | src/index.js:190 | one phrase of `load` is `add({phrase})` then `setTranslations`, as `RegistryModel.LoadOne` says |
| Registry.Entries.Load | src/index.js:187-192 | `load` replaces the language table and upserts every phrase as `RegistryModel.Load` says |
| Registry.Entries.CheckUsage | src/index.js:134-141 | `checkUsage` returns what `RegistryModel.CheckUsage` specifies |
| Registry.Entries.UsedPhrases | src/-entries/index.js:45-47 | the `usedPhrases` getter lists the registry's entries with usage, in order |
| Registry.UsedEntriesStates | src/-entries/index.js:45-47 | the entries with usage hold exactly the values `usedPhrases` keeps, and all come from the registry |
| Translation.UsedNoDup | src/-entries/index.js:45-47 | `usedPhrases` of a registry with unique phrases has unique phrases |
| Registry.Entries.Selection | src/-entries/index.js:117 | the entries a serialisation iterates: all of them, or in strict mode after `checkUsage` or `usedPhrases` |
| Registry.Entries.Serialize | src/index.js:196-199 | `toJSON` of each listed entry in order, ending with the first error, is `JsonAll` |
| Registry.Entries.GetPhrases | src/index.js:194-201 | `getPhrases` is each selected entry's `toJSON`, in order, failing at the first error |
| Registry.Entries.ToJson | src/-entries/index.js:124-129 | `toJSON` is the language table and `getPhrases`, or its error |
| Registry.Entries.Column | src/index.js:213-216 | one row's values are `translations[lang]` of each listed entry's `toJSON` |
| Registry.Entries.RowFor | src/-entries/index.js:133-137 | one row of the minified form is the corresponding row of `Rows` |
| Registry.Entries.ToMinifiedJson | src/index.js:210-219 | `toMinifiedJSON` returns exactly `Rows` |
| Registry.RowsAt | src/index.js:212-217 | a successful pass gives every language the row of the selected entries |
| Placeholders.CaptureSpec | src/index.js:360 | the regular expression captures a group exactly when the braces hold a newline-free group surrounded only by spaces, and the capture is that group trimmed |
| Placeholders.SplitJoin | src/-translator/index.js:81-83 | forms joined with the separator split back into themselves when each is trimmed and free of the separator |
| Placeholders.SplitNone | src/index.js:363 | a text without the separator splits into one piece |
| Placeholders.Substitute | src/index.js:361-363 | the callback fails, always with a TypeError, exactly without `params` or on a plural placeholder when there is no plural function |
| Placeholders.PlaceholderAt | src/index.js:360 | a match at the head of the text consumes more than its four braces and no more than the text |
| Placeholders.CaptureAround | src/index.js:360 | a group without surrounding whitespace, line breaks or braces is captured as it is, whatever whitespace surrounds it |
| Placeholders.PlaceholderOf | src/index.js:360 | `{{w}}` at the head of the text matches with `w`'s capture and ends right after the closing braces |
| Placeholders.RenderAt | src/index.js:359-366 | text that starts with a placeholder renders as the callback's value followed by the rest rendered, or the callback's error |
| Placeholders.PluralSubstitute | src/index.js:361-363 | the callback on a plural text (a key, a bar, and forms separated by commas) gives the form the plural rule picks for `params[key]`, or `undefined` past the last form |
| Placeholders.Render | src/-translator/index.js:79-84 | the `replace` call fails only with a TypeError |
| Placeholders.RenderPlain | src/index.js:359-366 | a text without `{{` comes back unchanged |
| Placeholders.RenderPrefix | src/-translator/index.js:79-84 | text before the first `{` is copied unchanged |
| Placeholders.RenderTotal | src/index.js:359-366 | with `params` and a plural function, rendering never fails |
| Placeholders.RenderNeedsParams | src/-translator/index.js:79-84 | without `params`, rendering fails exactly when the text holds a placeholder |
| Placeholders.RenderParameter | src/index.js:362-363 | `{{ key }}` (with spaces around the key) becomes `String(params[key])`, followed by the rest rendered |
| Placeholders.RenderPlural | src/index.js:361-363 | a plural placeholder (a key, a bar, and forms separated by commas, between double braces) becomes the form the plural rule picks for `params[key]`, or `undefined` past the last form |
| Translation.RowLangs | src/index.js:308-314 | the array form yields a table with distinct keys |
| Translation.SnapshotOf | src/index.js:304-331 | after `load`, every language of the table has its array, and in the object form each array is as long as the phrase list |
| Translation.LoadRows | src/-translator/index.js:22-28 | the row loop assigns `langs` and `translations` row after row |
| Translation.AssignAll | src/index.js:319 | `Object.assign` onto an empty object |
| Translation.PushEach | src/index.js:324-326 | each language's array gains the phrase's value for it, `undefined` where there is none; other arrays are unchanged |
| Translation.PushPhrases | src/-translator/index.js:35-42 | the phrase list is the key order of `phrases`, and each language's array holds every phrase's value in that order |
| Translation.LoadKeyed | src/index.js:315-329 | the object form assigns the three fields as `SnapshotOf` says |
| Translation.Take | src/-translator/index.js:18-52 | `load` of either form leaves `SnapshotOf(entries)` |
| Translation.RuleOf | src/index.js:335 | a language has a plural function exactly when its table entry is a rule number below 18 |
| Translation.BuildDictionary | src/index.js:339-349 | `use` builds the dictionary that `DictOf` describes |
| Translation.DictIndexed | src/index.js:345-348 | without phrases the dictionary holds exactly the indices of the array, each with its value |
| Translation.DictKeyed | src/index.js:341-344 | with distinct phrases the dictionary holds exactly the phrases, each with the value at its position |
| Translation.Chosen | src/index.js:331 | the language `load` switches to is always one of the new table's languages, and there is none only for an empty table |
| Translation.Translator.constructor | src/index.js:291-302 | a translator built with entries has loaded them and uses their first language when it has a plural function |
| Translation.Translator.Use | src/index.js:334-353 | `use` is a no-op for a language without a plural function; otherwise it sets the language and rule and rebuilds the dictionary from that language's array; before any `load` it throws |
| Translation.Translator.Load | src/index.js:304-332 | `load` takes the snapshot, then switches to the current or first language exactly as `use` does |
| Translation.Translator.Translate | src/index.js:355-368 | a value that is not a string gives the key back; a string comes back verbatim without `params` and rendered with them (rendering then cannot fail); only a translator that never used a language fails |
| Translation.MapTranslator.constructor | src/-translator/index.js:5-16 | a new translator loads its entries but selects no language and holds an empty map |
| Translation.MapTranslator.Load | src/-translator/index.js:18-52 | `load` changes only the snapshot: the language and the map are untouched |
| Translation.MapTranslator.Use | src/-translator/index.js:54-72 | `use` sets the language first; without a plural function it throws `Invalid plural rule` and clears the rule but keeps the map; otherwise the map holds exactly the language's entries |
| Translation.MapTranslator.Translate | src/-translator/index.js:74-85 | only `undefined` gives the key back; any other value that is not a string throws; a string is the rendered text, or rendering's error |
| Translation.RowsLastWins | src/index.js:308-314 | the last row naming a language decides its array |
| Translation.RowLangsOfTable | src/index.js:308-314 | rows naming distinct languages load back into their own table |
| Translation.AssignDistinct | src/index.js:319 | `Object.assign` keeps a table with distinct keys as it is |
| Translation.KeyedColumns | src/-translator/index.js:29-43 | in the object form, position `i` of a language's array is the `i`-th phrase's value for it |
| Translation.MinifiedRoundTrip | src/index.js:210-219 | loading `toMinifiedJSON()` gives back the table, and index `i` of a language's dictionary is the `i`-th listed entry's serialised value |
| Translation.TranslateMinified | src/index.js:355-359 | after loading `toMinifiedJSON()` and `use(lang)`, `translate(i)` is the `i`-th entry's translation, or `i` when it has none |
| Translation.TranslateKeyed | src/index.js:315-359 | after loading an object with distinct phrases and `use(lang)`, `translate(phrase)` is its string for `lang`, or the phrase |
| Translation.KeyedRoundTrip | src/index.js:203-208 | loading `toJSON()` gives back the table and the listed phrases in order, and each array holds the serialised values |
| Translation.TranslateRegistry | src/index.js:355-359 | after loading `toJSON()` and `use(lang)`, `translate(phrase)` is the entry's translation, or the phrase when it has none |
| Translation.PositionalConsistency | src/index.js:203-219 | `translate(i)` for the `i`-th listed entry on the minified rows and `translate(phrase)` on the keyed object agree for a translated entry, whatever the parameters; for an untranslated one each returns its own key |
| Translation.TranslateVariants | src/-translator/index.js:74-85 | the two translators agree on strings rendered with `params` and on missing keys; they differ on values that are not strings, and without `params` the Map variant fails exactly when the string holds a placeholder |

## Left out

- Parsing JavaScript (acorn) and the syntax-tree walk are not modelled. `Entries.parse` takes the walk's nodes as a parameter (`RegistryModel.Node`).
- MagicString is not modelled. `minify` returns the list of overwrites instead of the rewritten code and its source map.
- `parseFile`, `loadJSON` and the other file I/O of the library are not modelled. Neither are the `console.log` diagnostics of non-strict `toJSON` (the `silent` option only controls logging).
- `path.isAbsolute`, `path.relative`, `path.sep` and `process.cwd()` are a parameter (`Paths.PathPolicy`).
- Custom `pluralFunctions` passed to a translator are not modelled; the translators always use the table of `PluralRules`.
- Four sites where the source's module wiring breaks are read as the evident intent, the plural table and the `Entry` class. At src/index.js:228 `exports const` is a syntax error. At src/index.js:291 the default `defaultPluralFunctions` is never defined. src/-translator/index.js:1 binds the module object `{pluralRules}`, so `pluralFunctions[n]` is undefined and every `use` would throw `Invalid plural rule`. src/-entries/index.js:4 binds the module object `{Entry}`, so `new Entry` at line 60 would throw.
- Strings are sequences of Unicode code points, while JavaScript strings are UTF-16 code units. For text outside the Basic Multilingual Plane, the default sort of the `'@'` labels (`Js.LexLe`) and the offsets `LineBreaks` works with can therefore differ from the source's.
- Plural functions take integer counts. A non-numeric argument is treated as NaN: this is exact for `undefined`, and a simplification for `null` and numeric strings, which JavaScript would coerce. Fractional counts are not modelled.
- A rule number that is not an integer in 0..17 means "no plural function". String rule values that JavaScript would coerce to an index (`"1"`) are not modelled.
- JavaScript's ordering of integer-like object keys before other keys is not modelled. Keys keep insertion order, which differs only for phrases or languages such as `"1"`.
- The `'@'` list of a `toJSON` record is not read back by `Translation.RecordOf`, because `Value` has no arrays. This differs only for a language named `@`.
- In the `load` of `src/index.js`, `this.lang in langs` with no current language tests the key `"undefined"`. The model treats "no current language" as absent from every table.
- Parameters are a map of plain values. Reading an inherited property such as `params.constructor` is not modelled.
- `Translator.load` calls `shift()` on the caller's rows and so empties their first two cells. The model reads the rows as values and leaves them unchanged.
- The `bind` of `translate` in both constructors only fixes `this` and is not modelled.
- Errors thrown inside a `Map`-variant `load` (a non-object `entries.phrases`) are not modelled: the inputs are well typed.
- Translation.RowsLastWins: states only that the last row of a language decides its array. That the last row also decides the language's rule follows from `Js.Put`'s contract and is not restated.

## Findings

| source | as written | input that shows it | evidently intended | confidence | as-written member | corrected member |
|---|---|---|---|---|---|---|
| src/-entries/index.js:100 | in strict mode `minify` writes `entry.index`, the registry position, while `toMinifiedJSON` (line 134) lists only `usedPhrases` | a registry `[a, b]` where `a` is translated but unused and `b` is used: `b` is written as `1`, the only row is `["en", 1, "B"]`, and `translate(1)` returns `1` | the written index is the entry's position among the listed entries, so that `translate` gives the translation back | high, not executed | Translation.SkipIndexMisses | Translation.WireIndexTranslates |
