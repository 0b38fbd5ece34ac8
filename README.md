# figma2xliff, modelled in Dafny

`figma2xliff.js` turns a Figma variables export into XLIFF 2.0
translation files. It works in four steps:

- It reads the document's `modes`, which map mode IDs to locale codes. From them it builds `localesIds` (locale code to mode ID) and the inverse `idToLocale`. The source mode is the mode of the locale `en`.
- It folds the document's `variables` into a `translations` object:
  - A variable whose name does not contain `(plural)` is a base record. It resets `translations[id]` to a fresh object. The id is derived from the name by `formatNameId`.
  - The fresh object receives the source mode's value under `source` and every other known locale's value under that locale. Values of unknown modes are dropped.
  - A variable whose name contains `(plural)` is a plural record. Its id is derived from the name with a trailing `(plural)` removed. It attaches a fresh `plural` map, filled the same way, to an entry that already exists under that id. Otherwise it is dropped.
- It writes one XLIFF document for every locale other than `en`. Each document is a fixed header, then one `<unit>` per entry in insertion order, then a fixed footer.
- Source and target texts are escaped with the five predefined XML entities. When the entry's plural map has a non-empty value for the target locale, both texts take the ICU form `{VAR_PLURAL, plural, =1 {…} other {…} }`.

The model has one module per concern:

| file | module | contents |
|---|---|---|
| `js_object.dfy` | `JsObject` | JavaScript objects as insertion-ordered association lists: property read, property assignment (a new key is appended, an existing one keeps its place), `Object.fromEntries` |
| `text.dfy` | `Text` | `split`, `join`, `trim` and `includes` on strings, with JavaScript's whitespace class |
| `name_id.dfy` | `NameId` | `formatNameId` |
| `locale_index.dfy` | `LocaleIndex` | `localesIds`, `idToLocale` and the choice of target locales |
| `xml_escape.dfy` | `XmlEscape` | `escapeXml`, and decoding of the five entities |
| `translation_model.dfy` | `TranslationModel` | the builder loop, as methods specified by a fold over records |
| `xliff.dfy` | `Xliff` | `generateXliff2`, and a reader for the documents it writes |
| `pipeline.dfy` | `Pipeline` | the script as a whole, minus its I/O |

The loops of the script are methods with loop invariants:
- the `localesIds` loop;
- the builder's `forEach` and its inner loops;
- the `xml +=` loop of `generateXliff2`;
- the loop over target locales.

Each method is proved equal to a function, and the properties are proved as lemmas about those functions.

Properties proved:
- `formatNameId`:
  - An id holds only ASCII letters, digits and `_`.
  - An id is the join of exactly one part per `/`, and no part starts with an upper-case letter.
  - The first segment is ignored, and a name without `/` gives the empty id.
  - Trimming the name does not change its id.
  - Camel-casing upper-cases exactly the lower-case letters that follow whitespace, once the remaining whitespace is removed.
  - Punctuation is removed character by character, and the characters that remain keep their order.
  - `Category/Section Title/Field Name` gives `sectionTitle_fieldName`, and `Cat/Hello, World!` gives `helloWorld`.
- `escapeXml`:
  - Its output holds no `<`, `>`, `"` or `'`.
  - Every `&` in its output starts one of the five entities.
  - Decoding the entities gives the input back.
- The index: `idToLocale` inverts `localesIds` when the modes are distinct.
- The builder:
  - Last write wins per slot.
  - Unknown modes change nothing.
  - Base and plural records change only their own entry.
  - Entries appear in the order of first definition.
  - An entry's content comes from the last base record with its id. Its `plural` map comes from the last plural record after that one, if there is one.
- The documents: a reader recovers from every generated document, in order, each entry's id and its unescaped source and target text. So there is exactly one unit per entry, whatever texts are missing.

Line 36 (`localesIds[value] = key`) treats the keys of `modes` as mode IDs and the values as locale codes; the model does the same.

A missing value interpolated into the ICU template (lines 131, 135) reads `undefined`, as in JavaScript, and `Xliff.Interp` writes it so.

The documents are specified by a reader, `Xliff.ParseDocument`. It is not part of the script. It cuts a document into its header, its units and its footer, and takes each unit apart at its fixed delimiters into the id, the source text and the target text, decoding the five entities. It is the yardstick `generateXliff2` is measured against: the lemmas `Xliff.ParseDocumentOf` and `Xliff.ParseTranslationsDocument` prove that it recovers every entry, in order.

## Model

| member | source | states |
|---|---|---|
| JsObject.Get | figma2xliff.js:53 | reading a property finds a value exactly when the key is present |
| JsObject.Put | figma2xliff.js:60-62 | after assignment the key holds the new value; every other key is unchanged; an existing key keeps its place; a new key is appended |
| JsObject.PutTwice | figma2xliff.js:50 | a second assignment to the same key (a repeated id) overwrites the first in the first one's place |
| JsObject.PutDistinct | figma2xliff.js:36 | assignment never creates a duplicate key |
| JsObject.FromEntries | figma2xliff.js:38-40 | `Object.fromEntries` yields an object without duplicate keys |
| JsObject.FromEntriesLast | figma2xliff.js:38-40 | after assigning entries in order, a key holds the value of its last entry, and is absent when no entry has it |
| JsObject.FromEntriesGet | figma2xliff.js:38-40 | a key holds `v` exactly when the last entry for that key is `(k, v)` |
| JsObject.GetDistinct | figma2xliff.js:36 | in an object without duplicate keys, reading a key finds exactly its entry |
| JsObject.FromEntriesDistinct | figma2xliff.js:38-40 | assigning entries whose keys are all different rebuilds them unchanged |
| Text.Split | figma2xliff.js:91 | `split` yields one more piece than there are separators, and no piece contains the separator |
| Text.JoinSplit | figma2xliff.js:91 | joining the pieces of a split with the same separator gives the string back |
| Text.JoinChars | figma2xliff.js:104 | a joined string holds only the separator and characters of the parts |
| Text.SplitAtFirst | figma2xliff.js:91 | the text before the first separator is the first piece, and the rest is split on its own |
| Text.SplitAppend | figma2xliff.js:91 | text without the separator, appended to a string, only extends its last piece |
| Text.Join | figma2xliff.js:104 | no contract of its own; `Text.JoinSplit` states that it undoes `split`, and `Text.JoinChars` that it adds only the separator |
| Text.Contains | figma2xliff.js:47 | no contract of its own; `Text.ContainsSuffix` states that a string contains each of its suffixes, and `TranslationModel.PluralNameSameId` that a name with `(plural)` appended is a plural record |
| Text.Trim | figma2xliff.js:95 | `trim()` leaves no whitespace at either end |
| Text.TrimEndAppend | figma2xliff.js:95 | trailing whitespace does not change the result of trimming |
| NameId.ToLower | figma2xliff.js:96 | lower-casing maps upper-case ASCII letters to lower-case ones and leaves other characters alone |
| NameId.StripPunctuation | figma2xliff.js:97 | the result holds exactly the word and whitespace characters of the input; order and multiplicity are stated by the next two rows |
| NameId.StripPunctuationChar | figma2xliff.js:97 | one character is kept exactly when it is a word or whitespace character, and removed otherwise |
| NameId.StripPunctuationConcat | figma2xliff.js:97 | the removal works piece by piece: stripping `a + b` is stripping `a` followed by stripping `b`, so kept characters stay in order |
| NameId.StripTwoPieces | figma2xliff.js:97 | a punctuation character after each of two pieces that contain none is dropped, and the pieces are joined unchanged |
| NameId.CamelCase | figma2xliff.js:98 | afterwards no whitespace stands before a lower-case letter; word and whitespace characters stay so |
| NameId.RemoveSpaces | figma2xliff.js:99 | keeps exactly the non-whitespace characters |
| NameId.CamelCaseUpperAfterSpace | figma2xliff.js:98-99 | camel-casing and then removing whitespace equals upper-casing every lower-case letter that follows whitespace (a reference defined position by position) and then removing whitespace |
| NameId.FormatSegmentTwoWords | figma2xliff.js:94-101 | a segment of two capitalised words separated by one space becomes the first word lower-cased followed by the second word capitalised |
| NameId.FormatNameIdExample | figma2xliff.js:90-107 | `Category/Section Title/Field Name` gives the id `sectionTitle_fieldName` |
| NameId.FormatSegmentJoin | figma2xliff.js:98-101 | a segment whose text after line 97 is two lower-case words separated by one space becomes the first word followed by the second word capitalised |
| NameId.FormatSegmentPunctuated | figma2xliff.js:94-101 | a segment of two capitalised words, each followed by a punctuation character, becomes the first word lower-cased followed by the second word capitalised, without the punctuation |
| NameId.HelloWorldExample | figma2xliff.js:94-101 | the segment `Hello, World!` becomes `helloWorld` |
| NameId.IdPartsTwo | figma2xliff.js:91-102 | a name with one `/` has the transformed piece after it as its only part |
| NameId.FormatNameIdPunctuatedExample | figma2xliff.js:90-107 | `Cat/Hello, World!` gives the id `helloWorld` |
| NameId.ToUpper | figma2xliff.js:98 | a lower-case letter becomes an upper-case one, and any other character is unchanged |
| NameId.LowerCase | figma2xliff.js:96 | every character is lower-cased in place and the length is unchanged |
| NameId.LowerFirst | figma2xliff.js:101 | the first character is lower-cased and the rest is unchanged |
| NameId.FormatSegment | figma2xliff.js:93-102 | a transformed segment holds only word characters and does not start with an upper-case letter |
| NameId.IdParts | figma2xliff.js:91-102 | there is one part per `/` in the name, each made of word characters and not starting with an upper-case letter |
| NameId.FormatNameId | figma2xliff.js:90-107 | the id holds only ASCII letters, digits and `_` |
| NameId.FirstSegmentIgnored | figma2xliff.js:91 | names that differ only before the first `/` have the same id |
| NameId.WithoutSlashEmpty | figma2xliff.js:91-104 | a name without `/` has the empty id |
| NameId.FormatNameIdTrim | figma2xliff.js:66 | trimming the whole name, as the plural branch does, does not change its id |
| LocaleIndex.LocalesIds | figma2xliff.js:34-37 | no contract of its own; `LocaleIndex.BuildLocalesIds` proves the loop builds it, and `LocaleIndex.LocalesIdsGet` states what it maps each locale to |
| LocaleIndex.IdToLocale | figma2xliff.js:38-40 | no contract of its own; `LocaleIndex.IdToLocaleInverse` states that it inverts `localesIds`, and `TranslationModel.IdToLocaleKey` that its values are locales of `localesIds` |
| LocaleIndex.Index.SourceMode | figma2xliff.js:59 | no contract of its own (`localesIds[sourceLocale]`, also line 74); `TranslationModel.DistributeSource` states that the value of that mode is stored under `source` |
| LocaleIndex.IndexOf | figma2xliff.js:34-40 | no contract of its own; `LocaleIndex.IndexOfOneToOne` states that for a one-to-one `modes` the two tables are `modes` swapped and `modes` itself |
| LocaleIndex.BuildLocalesIds | figma2xliff.js:34-37 | the loop builds `Object.fromEntries` of the swapped `modes` entries |
| LocaleIndex.LocalesIdsGet | figma2xliff.js:34-37 | `localesIds[l] == m` exactly when `(m, l)` is the last entry of `modes` with locale `l` |
| LocaleIndex.LocalesIdsFound | figma2xliff.js:34-37 | every locale-to-mode pair of `localesIds` comes from an entry of `modes` |
| LocaleIndex.IdToLocaleInverse | figma2xliff.js:38-40 | with distinct mode IDs, `idToLocale[m] == l` exactly when `localesIds[l] == m` |
| LocaleIndex.IndexOfOneToOne | figma2xliff.js:34-40 | when mode IDs and locales are distinct, `localesIds` is `modes` swapped and `idToLocale` is `modes` itself |
| LocaleIndex.TargetLocales | figma2xliff.js:84-85 | the target locales are exactly the keys of `localesIds` other than `en` |
| XmlEscape.ReplaceAll | figma2xliff.js:114-118 | a global replacement leaves no occurrence of the replaced character outside the replacement text |
| XmlEscape.EscapeText | figma2xliff.js:114-118 | the chain of replacements leaves no `<`, `>`, `"` or `'` |
| XmlEscape.EscapeTextConcat | figma2xliff.js:114-118 | the chain of replacements works piece by piece |
| XmlEscape.EscapeTextChar | figma2xliff.js:114-118 | on one character the chain produces its predefined entity, or the character itself |
| XmlEscape.EscapeTextIsPerChar | figma2xliff.js:114-118 | because `&` is replaced first, the chain equals replacing each character by its entity |
| XmlEscape.UnescapeEscapeChars | figma2xliff.js:114-118 | decoding the entities returns the original text |
| XmlEscape.AmpersandsBeginEntities | figma2xliff.js:114-118 | in escaped text every `&` begins one of the five entities |
| XmlEscape.OrEmpty | figma2xliff.js:111 | no contract of its own; `XmlEscape.UnescapeEscapeXml` states that a missing value reads back as the empty string |
| XmlEscape.EscapeXml | figma2xliff.js:109-119 | a missing value gives the empty string; the output has no `<`, `>`, `"` or `'` |
| XmlEscape.UnescapeEscapeXml | figma2xliff.js:109-119 | decoding the output of `escapeXml` gives back the value, and a missing one reads as empty |
| XmlEscape.EscapeXmlEntities | figma2xliff.js:109-119 | every `&` in the output of `escapeXml` begins a predefined entity |
| TranslationModel.IsPluralRecord | figma2xliff.js:47 | no contract of its own; `TranslationModel.PluralNameSameId` states that a name with `(plural)` appended is a plural record |
| TranslationModel.StripPluralSuffix | figma2xliff.js:66 | no contract of its own; `TranslationModel.PluralNameSameId` states that on `n + w1 + "(plural)" + w2` it removes the marker, the whitespace `w1` and `w2` around it, and any whitespace at the end of `n` |
| TranslationModel.PluralBaseName | figma2xliff.js:66 | no contract of its own; `TranslationModel.PluralNameSameId` states that the trimmed base name has the id of the name without the marker |
| TranslationModel.Slot | figma2xliff.js:53-63 | no contract of its own; `TranslationModel.DistributeGet` states that each slot gets the value of the last mode routed to it, `TranslationModel.DistributeIgnoresUnknown` that a mode without a slot contributes nothing, and `TranslationModel.DistributeSource` and `TranslationModel.DistributeLocale` which slot the source mode and a known locale get |
| TranslationModel.Distribute | figma2xliff.js:52-64 | no contract of its own; `TranslationModel.DistributeGet` states that each key holds the value of the last mode routed to it and no other key is filled, `TranslationModel.DistributeIgnoresUnknown` that unknown modes change nothing, and `TranslationModel.FillSlots` that the inner loops build it |
| TranslationModel.AssignLast | figma2xliff.js:59-63 | a slot holds the value of the last mode routed to it, and is absent when none is |
| TranslationModel.AssignGet | figma2xliff.js:59-63 | a slot holds `v` exactly when the last mode routed to it has value `v` |
| TranslationModel.AssignSkips | figma2xliff.js:61 | a value without a slot leaves the filled map unchanged, wherever it stands |
| TranslationModel.DistributeGet | figma2xliff.js:52-64 | the filled map holds `v` under `k` exactly when the last mode routed to `k` has value `v`; no key comes from elsewhere |
| TranslationModel.DistributeIgnoresUnknown | figma2xliff.js:59-63 | a mode that is neither the source mode nor a known, non-empty locale contributes nothing |
| TranslationModel.IdToLocaleKey | figma2xliff.js:38-40 | a locale read from `idToLocale` is a key of `localesIds` |
| TranslationModel.DistributeSource | figma2xliff.js:59-60 | with distinct modes, the source mode's value is stored under `source`, provided no locale is named `source` |
| TranslationModel.DistributeLocale | figma2xliff.js:61-62 | with distinct modes, a known locale's value is stored under that locale |
| TranslationModel.Classify | figma2xliff.js:47-66 | no contract of its own; `TranslationModel.AddVariable` states that the callback applies `Step` to it, `TranslationModel.PluralNameSameId` which id a plural name gets, and `TranslationModel.TranslationsOfKeys` that the ids of non-plural variables are exactly the keys |
| TranslationModel.Step | figma2xliff.js:46-82 | no contract of its own; `TranslationModel.StepSpec` states its effect on `translations` |
| TranslationModel.StepSpec | figma2xliff.js:46-82 | a base record replaces its entry with a fresh one; a plural record replaces only the `plural` map of an existing entry and changes nothing otherwise; no other entry changes; a new id is appended |
| TranslationModel.Build | figma2xliff.js:46-82 | no contract of its own (the `forEach` of line 46 as a fold of `Step` over the records); `TranslationModel.BuildHasKey` states which ids it holds, `TranslationModel.BuildKeysOrder` in which order, and `TranslationModel.BuildEntry` what each entry holds |
| TranslationModel.TranslationsOf | figma2xliff.js:45-82 | no contract of its own (the `translations` object the script builds); `TranslationModel.BuildTranslations` states that the loops build it, `TranslationModel.TranslationsOfKeys` which ids it holds, and `TranslationModel.BuildEntry` and `TranslationModel.BuildKeysOrder` the content and order of its entries |
| TranslationModel.BuildHasKey | figma2xliff.js:46-82 | there is an entry for `k` exactly when some base record has id `k` |
| TranslationModel.TranslationsOfKeys | figma2xliff.js:46-48 | the ids of `translations` are exactly the ids of the non-plural variables, and each holds only word characters |
| TranslationModel.BuildKeysOrder | figma2xliff.js:46-50 | ids appear in the order of their first base record, each once |
| TranslationModel.LastPluralSome | figma2xliff.js:65-80 | there is a last plural record for an id exactly when there is any |
| TranslationModel.BuildEntry | figma2xliff.js:46-82 | an entry comes from the last base record with its id, and its `plural` map from the last plural record after it |
| TranslationModel.PluralNameSameId | figma2xliff.js:66 | `n + w1 + "(plural)" + w2`, for whitespace `w1` and `w2`, is a plural record; removing the suffix leaves `n` without its trailing whitespace; and its id is the id of `n` |
| TranslationModel.DistributeSnoc | figma2xliff.js:52-63 | the filled map grows by one routed assignment per value, as the inner loops assign it |
| TranslationModel.FillSlots | figma2xliff.js:52-79 | the inner loops fill a fresh map equal to the routed assignments of `valuesByMode` |
| TranslationModel.AddBase | figma2xliff.js:48-64 | the entry under `id` becomes a fresh entry holding the routed values and no plural map |
| TranslationModel.AttachPlural | figma2xliff.js:68-79 | the entry under `id` keeps its fields and gets a fresh plural map holding the routed values |
| TranslationModel.AddVariable | figma2xliff.js:46-82 | the callback does to `translations` what processing the variable's record does |
| TranslationModel.BuildTranslations | figma2xliff.js:34-82 | the loops build the fold of the records of all variables |
| Xliff.Interp | figma2xliff.js:131 | no contract of its own (a value interpolated by `${…}`, also line 135); `Xliff.PluralMissingTargetUndefined` states that a missing value reads `undefined` |
| Xliff.PluralMissingTargetUndefined | figma2xliff.js:134-135 | with a non-empty plural value for the target locale and no singular one, the target text is the ICU message with `undefined` in its `=1` branch |
| Xliff.Icu | figma2xliff.js:131 | no contract of its own; the ICU template used by `Xliff.SourceText` and `Xliff.TargetText` |
| Xliff.HasPlural | figma2xliff.js:128 | no contract of its own; `Xliff.UnitWithoutPluralValue` states that without it the plural map plays no part |
| Xliff.SourceText | figma2xliff.js:130-132 | no contract of its own; `Xliff.UnitWithoutPluralValue` and `Xliff.ParseDocumentOf` state what the reader finds as the source |
| Xliff.TargetText | figma2xliff.js:134-136 | no contract of its own; `Xliff.MissingTargetEmpty` states that a missing target gives an empty element, and `Xliff.ParseDocumentOf` what the reader finds as the target |
| Xliff.Unit | figma2xliff.js:138-144 | no contract of its own; `Xliff.ParseEachUnit` states that each unit reads back as its entry's id and unescaped texts |
| Xliff.Document | figma2xliff.js:121-151 | no contract of its own; `Xliff.GenerateXliff2` proves the loop builds it, and `Xliff.ParseDocumentOf` that it reads back as every entry in order |
| Xliff.UnitWithoutPluralValue | figma2xliff.js:128-136 | without a non-empty plural value for the target locale, the unit is that of the entry with no plural map |
| Xliff.MissingTargetEmpty | figma2xliff.js:134-141 | without a plural value and a target value, the `target` element is empty |
| Xliff.GenerateXliff2 | figma2xliff.js:121-151 | the output is the header, then the units of all entries in order, then the footer |
| Xliff.ParseUnitOf | figma2xliff.js:138-144 | a unit whose id has no `"` and whose texts have no `<` reads back as its id and decoded texts |
| Xliff.ParseUnitsConcat | figma2xliff.js:127-145 | units written one after another read back in order |
| Xliff.ParseEachUnit | figma2xliff.js:127-145 | the unit of every entry reads back as the entry's id and unescaped texts |
| Xliff.ParseDocumentOf | figma2xliff.js:121-151 | a document whose ids have no `"` reads back as every entry's id, source and target in order, so there is one unit per entry |
| Xliff.ParseTranslationsDocument | figma2xliff.js:45-151 | every document built from `translations` reads back completely, with as many units as `translations` has entries |
| Pipeline.WriteTargets | figma2xliff.js:84-88 | one document per target locale, in the order of `localesIds` |
| Pipeline.Convert | figma2xliff.js:34-88 | documents are produced exactly for the locales other than `en`; each is the document of `translations` for its locale and reads back as one unit per entry |

## Left out

- Reading and parsing the input file, and its error path (lines 20-28): file I/O. The model starts from the parsed `modes` and `variables`.
- Command-line parsing with `minimist-lite` (lines 12-14): a foreign library, used only for file names.
- `saveXliffToFile` (lines 153-158): it builds the file name with `path.join`, writes the file and logs. `Pipeline.Convert` returns each document with its locale instead.
- The `xmlbuilder` import (line 3) is unused. `console.log`/`console.error` output is not modelled.
- The guard of lines 55-57 re-creates `translations[id]` when it is falsy. It never fires, because line 50 has just set it to an object, so the model omits it.
- The builder's inner loops assign into `translations[id]` (or its `plural` map) one property at a time. `TranslationModel.FillSlots` fills that map, then stores it. Nothing reads the map in between, so the final state is the same.
- Values are strings. The document's values can be other JSON types, and `escapeXml` converts them with `String(...)` (line 111). Only `null`/`undefined` (a missing value) is modelled, and it becomes the empty string.
- The default parameter `targetLocale = 'pt_br'` (line 121) is never used, because the script always passes a locale.
- Case mapping (lines 96, 98, 101) is modelled for ASCII letters only. Under `\w` and `[a-z]`, only ASCII letters survive line 97 anyway, except that `toLowerCase` of a non-ASCII capital could produce an ASCII letter. Such characters are not modelled.
- JavaScript orders integer-like keys (`"1"`, `"2"`) before other keys in `Object.entries`. The model keeps plain insertion order for every key.
- A locale named `plural` would share its property with the entry's `plural` map. A locale named `source` would share its property with `source`. The second case is modelled, because an entry's fields are one object. The first is not: the `plural` map is a separate field.
- An id equal to `__proto__` (from a name such as `a/__proto__`) would replace the object's prototype instead of adding an entry. The model treats it as a plain key.
- JsObject.Get: models reading an own property only. A key that names a member of `Object.prototype` (`constructor`, `toString`, ...) reads that inherited member in JavaScript. The reads `idToLocale[key]` (lines 53, 71), `entry.plural[targetLocale]` (line 128) and `entry[targetLocale]` (lines 135-136) would then find a function, which is truthy. The model reads such a key as absent.
- An id equal to `hasOwnProperty` (from a name such as `Cat/Has Own Property`) makes a later plural record crash: line 68 calls `translations.hasOwnProperty`, which is then the entry object, and throws a `TypeError`. The script aborts before line 84, so no file is written. The model has no crash: `TranslationModel.AddVariable` treats the id as a plain key, and `Pipeline.Convert` goes on to produce documents.
- XmlEscape.Unescape: decodes the five predefined entities and nothing else. What an XML parser does besides is not modelled: line-end normalization (`\r\n` and `\r` read as `\n`), whitespace normalization in attribute values, character references such as `&#10;`, and the rejection of C0 control characters that XML 1.0 forbids. `escapeXml` passes such controls through, so a value holding one gives a document that is not well-formed.
- The unit id is written without escaping (line 138). The reader relies on ids containing no `"`, which `TranslationModel.TranslationsOfKeys` proves for every id the script derives.
