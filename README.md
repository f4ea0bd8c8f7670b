# Bibliographic data model of Lab_2, in Dafny

This project models the in-memory core of the Lab_2 reference manager, a Qt
desktop application that keeps bibliographic references and a hierarchy of
"contexts" (folders). The model covers three parts:

- **`DataManager`**: two ordered lists (`references`, `contexts`) and two id
  counters. It offers:
  - add, update, delete and lookup for both lists, with the delete cascades;
  - a case-insensitive search;
  - child and path queries on the context hierarchy;
  - saving and loading the whole collection as a JSON object;
  - exporting citations and importing references from a JSON array.
- **`Reference`**: the record itself, the type name mapping, and JSON
  encoding with defaulted keys. It also has the three citation renderers:
  BibTeX, Harvard and DSTU. DSTU is the simplified layout the code writes,
  not the full Ukrainian standard the export dialog names.
- **`Context`**: the record, its defaults and its JSON encoding.

Modules and files:

- `options.dfy`, module `Options`, holds an option type.
- `text.dfy`, module `Text`, holds the string operations of Qt the core
  relies on:
  - `toLower`, `trimmed`, `split` and `join`;
  - `contains`;
  - decimal rendering of an int.
- `json.dfy`, module `Json`, models JSON values, objects and parsed documents
  as Qt's QJsonValue, QJsonObject and QJsonDocument give them. An absent key
  reads as undefined, and each conversion falls back to its default.
- `reference.dfy` (`References`) and `context.dfy` (`Contexts`) hold the two
  records and their JSON encodings. The JSON constructor and `toJson` of a
  reference are methods with the same loops as the source.
- `citation.dfy`, module `Citations`, holds the citation key and the three
  renderers, plus lemmas on their layout.
- `store.dfy`, module `DataStore`, states the state of `DataManager` as a
  value, with each operation as a function of the old state. Its lemmas
  state what the operations promise, and the invariants they keep.
- `manager.dfy`, module `Manager`, holds the class `DataManager`. It has the
  same fields and performs each operation in place, with the source's loops.
  Every method is proved to agree with its `DataStore` function. The Qt
  signals are a ghost event log.

File access is replaced by parameters:

- whether the file opens (`fileOpens`);
- for loading and importing, the parsed document the file holds.

A file whose text is not valid JSON is the null document.

Where the code and its description differ, the model follows the code:

- **The "unknown" key fallback is never taken.** Qt's `split` never returns
  an empty list, so a reference without authors gets a key made of the year
  alone (`Citations.KeyOfNoAuthors`).
- **Loading does not reject malformed input.** A null or array document
  still clears both lists and resets both counters to 1
  (`DataStore.LoadFallbacks`).
- **The JSON constructor does not use the clock.** It reads a missing
  `year` as 0, whereas the default constructor takes the current year
  (`References.DecodeDefaults`).
- **Deleting a context does not touch its children.** They keep a dangling
  parent id, and their path then ends at themselves
  (`DataStore.DeleteContextEffect`, `DataStore.PathOfChild`).

## Model

| member | source | states |
|---|---|---|
| Text.Lower | Lab_2/DataManager.cpp:67-72 | `toLower` on ASCII; what it means is stated by `Text.LowerCaseBlind` and `Text.LowerHasNoCapital` |
| Text.LowerCaseBlind | Lab_2/DataManager.cpp:67-72 | two texts lower-case to the same text if and only if they have the same length and agree character by character up to ASCII case |
| Text.LowerHasNoCapital | Lab_2/DataManager.cpp:67-72 | no ASCII capital letter is left after lower-casing |
| Text.LowerIdempotent | Lab_2/DataManager.cpp:67-72 | lower-casing twice is lower-casing once |
| Text.TrimStart | Lab_2/Reference.cpp:77 | `trimmed`, front half: a suffix of the text that does not start with white space; `Text.TrimStartDropsSpace` says only white space goes |
| Text.TrimStartDropsSpace | Lab_2/Reference.cpp:77 | every character cut off at the front is white space |
| Text.TrimEnd | Lab_2/Reference.cpp:77 | `trimmed`, back half: a prefix of the text that does not end with white space; `Text.TrimEndDropsSpace` says only white space goes |
| Text.TrimEndDropsSpace | Lab_2/Reference.cpp:77 | every character cut off at the end is white space |
| Text.Trim | Lab_2/Reference.cpp:77 | `trimmed`: the front half, then the back half; `Text.TrimIsSlice` gives its meaning |
| Text.TrimIsSlice | Lab_2/Reference.cpp:77 | the trimmed text is a slice of the text that neither starts nor ends with white space, and everything cut off on either side is white space |
| Text.Split | Lab_2/Reference.cpp:75-77 | `split` returns at least one part, and no part holds the separator |
| Text.JoinSplit | Lab_2/Reference.cpp:75-77 | joining the parts of a split with the separator gives the text back |
| Text.SplitAtFirst | Lab_2/Reference.cpp:75-77 | the first part of a split is the text before the first separator |
| Text.SplitNoSeparator | Lab_2/Reference.cpp:75-77 | a text without the separator splits into itself |
| Text.JoinSnoc | Lab_2/DataManager.cpp:157 | joining one more part adds one separator and that part at the end |
| Text.JoinLength | Lab_2/DataManager.cpp:157 | joining k parts inserts exactly k - 1 separators |
| Text.Join | Lab_2/DataManager.cpp:157 | `join`: the parts with the separator between each two; `Text.JoinSplit`, `Text.JoinSnoc` and `Text.JoinLength` give its meaning |
| Text.Contains | Lab_2/DataManager.cpp:70-72 | `contains`; `Text.ContainsIffOccurs` gives its meaning |
| Text.ContainsIffOccurs | Lab_2/DataManager.cpp:70-72 | `contains` holds exactly when the text occurs at some position |
| Text.NatToDecimal | Lab_2/Reference.cpp:78 | the decimal form of a number is non-empty, all digits, and has no leading zero |
| Text.DecimalRoundTrip | Lab_2/Reference.cpp:78 | reading back the decimal form of a number gives the number |
| Text.IntToDecimal | Lab_2/Reference.cpp:78 | an int as `arg` prints it: a minus sign for a negative value, then the digits of `Text.NatToDecimal` |
| Text.IntToDecimalInjective | Lab_2/Reference.cpp:78 | different ints, negative ones included, print as different texts |
| Json.IntsOfNumbers | Lab_2/Reference.cpp:17-25 | reading back a list of ints written as JSON numbers gives the list |
| Json.NumbersAt | Lab_2/Reference.cpp:38-48 | the k-th element of the written array is the k-th int |
| Json.Numbers | Lab_2/Reference.cpp:39-48 | the array the `append(int)` loops of `toJson` build, one number per int |
| Json.Ints | Lab_2/Reference.cpp:17-25 | the list the `append(toInt())` loops of the JSON constructor build, one int per element, 0 for a non-number |
| References.DefaultReference | Lab_2/Reference.cpp:4-5 | a new reference has id 0, type Book, the given current year and empty texts and lists |
| References.TypeToString | Lab_2/Reference.cpp:54-63 | the name of each of the five types; `References.TypeRoundTrip` gives its meaning |
| References.StringToType | Lab_2/Reference.cpp:65-71 | the type a name stands for, Book for any other string; `References.StringToTypeCases` gives its meaning |
| References.TypeRoundTrip | Lab_2/Reference.cpp:53-71 | `stringToType(typeToString(t)) == t` for all five types |
| References.StringToTypeCases | Lab_2/Reference.cpp:64-71 | a string maps to a type other than Book only if it is that type's name; it maps to Book exactly when it is none of the four other names |
| References.DecodeReference | Lab_2/Reference.cpp:7-26 | the record the JSON constructor builds; `References.RoundTrip` and `References.DecodeDefaults` give its meaning |
| References.EncodeReference | Lab_2/Reference.cpp:28-52 | the object `toJson` builds; `References.EncodeReferenceShape` and `References.RoundTrip` give its meaning |
| References.FromJson | Lab_2/Reference.cpp:7-26 | the JSON constructor, with its two loops, yields the record `DecodeReference` describes |
| References.ToJson | Lab_2/Reference.cpp:28-52 | `toJson`, with its two loops, yields the object `EncodeReference` describes |
| References.EncodeReferenceShape | Lab_2/Reference.cpp:28-52 | `toJson` writes exactly the ten keys, and the `contexts` and `related` arrays list `contextIds` and `relatedIds` in order |
| References.RoundTrip | Lab_2/Reference.cpp:7-52 | the JSON constructor applied to `toJson(r)` gives back `r`, field by field |
| References.DecodeDefaults | Lab_2/Reference.cpp:7-25 | missing keys read as 0, "", an empty list or Book; the empty object gives the default record with year 0 |
| Contexts.DefaultContext | Lab_2/Context.cpp:3 | a new context has id 0, an empty name and no parent (-1) |
| Contexts.DecodeContext | Lab_2/Context.cpp:5-9 | the context the JSON constructor builds; `Contexts.RoundTrip` and `Contexts.DecodeDefaults` give its meaning |
| Contexts.EncodeContext | Lab_2/Context.cpp:11-17 | the object `toJson` builds; `Contexts.EncodeContextShape` gives its meaning |
| Contexts.EncodeContextShape | Lab_2/Context.cpp:11-16 | `toJson` writes exactly `id`, `name` and `parentId` with the field values |
| Contexts.DecodeDefaults | Lab_2/Context.cpp:5-9 | a missing `id` reads as 0, a missing `name` as "" and a missing `parentId` as -1 |
| Contexts.RoundTrip | Lab_2/Context.cpp:5-16 | the JSON constructor applied to `toJson(c)` gives back `c` |
| Citations.FirstAuthorSurname | Lab_2/Reference.cpp:75-77 | the surname of the key; `Citations.SurnameIsOneWord`, `Citations.SurnameOfFirstAuthor` and `Citations.SurnameIsLastWord` give its meaning |
| Citations.CitationKey | Lab_2/Reference.cpp:74-78 | the key, surname then year; `Citations.KeyOfNoAuthors`, `Citations.KeyExample` and `Citations.KeyTellsYearsApart` give its meaning |
| Citations.SurnameIsOneWord | Lab_2/Reference.cpp:74-77 | the surname in the key holds no space, no comma and no upper-case letter |
| Citations.SurnameOfFirstAuthor | Lab_2/Reference.cpp:74-77 | only the text before the first comma decides the surname |
| Citations.SurnameIsLastWord | Lab_2/Reference.cpp:74-77 | for a single author "given family", the surname is the family name, lower-cased |
| Citations.KeyOfNoAuthors | Lab_2/Reference.cpp:74-78 | with no authors the key is the year alone: the "unknown" branch is never reached |
| Citations.KeyExample | Lab_2/Reference.cpp:74-78 | "Jane Doe, John Smith" of 2023 gets the key `doe2023` |
| Citations.KeyTellsYearsApart | Lab_2/Reference.cpp:78 | for the same authors, two keys are equal only when the years are |
| Citations.FormatBibTeX | Lab_2/Reference.cpp:73-89 | `formatBibTeX`; `Citations.BibTeXIsEntry` and `Citations.BibFieldsPresence` give its meaning |
| Citations.BibTeXText | Lab_2/Reference.cpp:80-88 | the appends of `formatBibTeX` from the entry type and the key on; `Citations.BibTeXTextIsEntry` gives its meaning |
| Citations.FormatHarvard | Lab_2/Reference.cpp:91-97 | `formatHarvard`; `Citations.HarvardIsSentences` gives its meaning |
| Citations.FormatDSTU | Lab_2/Reference.cpp:99-106 | `formatDSTU`; `Citations.DstuIsSentences` gives its meaning |
| Citations.BibTeXIsEntry | Lab_2/Reference.cpp:73-89 | the BibTeX text is `@type{key,` and then the field lines, separated by ",\n", each as `  name = {value}`, and then "\n}\n" |
| Citations.BibTeXTextIsEntry | Lab_2/Reference.cpp:80-86 | the text the appended `arg` lines build is the entry of the type, the key and the field list |
| Citations.BibFieldsPresence | Lab_2/Reference.cpp:80-86 | the fields are title, author and year, then publisher and url; each of publisher and url is present exactly when it is non-empty, and url comes last |
| Citations.HarvardIsSentences | Lab_2/Reference.cpp:91-97 | Harvard output is the sentences `authors (year) title`, the publisher if non-empty and `Available at: url` if non-empty, joined by ". ", with a final "." |
| Citations.DstuIsSentences | Lab_2/Reference.cpp:99-105 | DSTU output is `authors title[ / publisher], year`, then `URL: url` if non-empty, joined by ". ", with a final "." |
| DataStore.FirstIndex | Lab_2/DataManager.cpp:24-25 | the position found is the first one holding the id, and there is none exactly when the id is absent |
| DataStore.FirstIndexAt | Lab_2/DataManager.cpp:24-25 | a scan that stops at the first match finds that position |
| DataStore.LookupReference | Lab_2/DataManager.cpp:50-55 | a reference is found exactly when its id is stored; the one found is the first stored reference with that id |
| DataStore.LookupContext | Lab_2/DataManager.cpp:122-127 | a context is found exactly when its id is stored; the one found is the first stored context with that id |
| DataStore.RemoveAll | Lab_2/DataManager.cpp:40 | `QList::removeAll`; `DataStore.RemoveAllSpec`, `DataStore.RemoveAllCounts` and `DataStore.RemoveAllAppend` give its meaning |
| DataStore.RemoveAllSpec | Lab_2/DataManager.cpp:39-41 | `removeAll` drops every occurrence of the id and keeps every other value; a list without the id is unchanged |
| DataStore.RemoveAllCounts | Lab_2/DataManager.cpp:40 | every other id is kept exactly as many times as it occurs: the multiset of the result is that of the list with the id's count set to zero |
| DataStore.RemoveAllAppend | Lab_2/DataManager.cpp:112 | `removeAll` of a concatenation is the two results one after the other, so the kept ids stay in their order |
| DataStore.AddReference | Lab_2/DataManager.cpp:13-21 | `addReference` on the state; `DataStore.AddReferenceEffect`, `DataStore.AddKeepsNumbering` and `DataStore.AddReferenceKeepsLinks` give its meaning |
| DataStore.AddContext | Lab_2/DataManager.cpp:85-93 | `addContext` on the state; `DataStore.AddContextEffect`, `DataStore.AddKeepsNumbering` and `DataStore.AddContextKeepsLinks` give its meaning |
| DataStore.UpdateReference | Lab_2/DataManager.cpp:23-32 | `updateReference` on the state; `DataStore.UpdateReferenceEffect` gives its meaning |
| DataStore.UpdateContext | Lab_2/DataManager.cpp:95-104 | `updateContext` on the state; `DataStore.UpdateContextEffect` gives its meaning |
| DataStore.DeleteReference | Lab_2/DataManager.cpp:34-48 | `deleteReference` with its cascade; `DataStore.DeleteReferenceEffect` and `DataStore.DeleteReferenceKeepsLinks` give its meaning |
| DataStore.DeleteContext | Lab_2/DataManager.cpp:106-120 | `deleteContext` with its cascade; `DataStore.DeleteContextEffect` and `DataStore.DeleteContextKeepsLinks` give its meaning |
| DataStore.AddReferenceEffect | Lab_2/DataManager.cpp:13-21 | an added reference goes at the end; id 0 takes the counter, which then goes up by one; another id is kept and the counter stays; contexts are untouched, and a lookup of the new id finds the new entry |
| DataStore.AddContextEffect | Lab_2/DataManager.cpp:85-93 | the same for contexts and the context counter |
| DataStore.UpdateReferenceEffect | Lab_2/DataManager.cpp:23-32 | update replaces only the first reference with the id, and everything else stays; with no such id the whole state is unchanged |
| DataStore.UpdateContextEffect | Lab_2/DataManager.cpp:95-104 | the same for contexts |
| DataStore.DeleteReferenceEffect | Lab_2/DataManager.cpp:34-48 | deleting a present id removes that one entry and keeps the others in order; no remaining `relatedIds` holds the id; nothing else changes. An absent id changes nothing |
| DataStore.DeleteContextEffect | Lab_2/DataManager.cpp:106-120 | deleting a present id removes that one context; every other context keeps its `parentId`; every reference loses the id from `contextIds` and nothing else. An absent id changes nothing |
| DataStore.DeleteReferenceAt | Lab_2/DataManager.cpp:34-48 | when the first entry with the id sits at index i, deletion drops exactly that entry, shifts the later ones down by one and takes the id out of every remaining `relatedIds` |
| DataStore.DeleteContextAt | Lab_2/DataManager.cpp:106-120 | when the first context with the id sits at index i, deletion drops exactly that context and takes the id out of every reference's `contextIds`, changing nothing else in the references |
| DataStore.EmptyStoreInvariants | Lab_2/DataManager.cpp:8-11 | a new manager is well numbered and has no links to resolve |
| DataStore.EmptyStore | Lab_2/DataManager.cpp:8-11 | the constructor's state: no references, no contexts, both counters at 1 |
| DataStore.AddKeepsNumbering | Lab_2/DataManager.cpp:13-21 | adding with id 0 keeps ids unique and below the counters |
| DataStore.UpdateKeepsNumbering | Lab_2/DataManager.cpp:23-32 | updates keep ids unique and below the counters |
| DataStore.DeleteKeepsNumbering | Lab_2/DataManager.cpp:34-48 | deletes keep ids unique and below the counters |
| DataStore.AddReferenceKeepsLinks | Lab_2/DataManager.cpp:13-21 | adding a reference whose links resolve keeps every link resolving |
| DataStore.UpdateReferenceKeepsLinks | Lab_2/DataManager.cpp:23-32 | updating with a reference whose links resolve keeps every link resolving |
| DataStore.AddContextKeepsLinks | Lab_2/DataManager.cpp:85-93 | adding any context keeps every link resolving |
| DataStore.UpdateContextKeepsLinks | Lab_2/DataManager.cpp:95-104 | updating a context keeps every link resolving, since existing ids do not change |
| DataStore.DeleteReferenceKeepsLinks | Lab_2/DataManager.cpp:34-48 | the `relatedIds` cascade keeps every link resolving after a reference is deleted |
| DataStore.DeleteContextKeepsLinks | Lab_2/DataManager.cpp:106-120 | the `contextIds` cascade keeps every link resolving after a context is deleted |
| DataStore.Search | Lab_2/DataManager.cpp:65-83 | `searchReferences` on the list; `DataStore.SearchMembers`, `DataStore.SearchConcat` and `DataStore.SearchSingle` give its meaning |
| DataStore.MatchesQuery | Lab_2/DataManager.cpp:70-72 | the text test: an empty query, or the lower-cased query inside the lower-cased title or authors; `DataStore.SearchIgnoresCase` and `DataStore.SmithIsFound` are about it |
| DataStore.InContext | Lab_2/DataManager.cpp:74-75 | the context test: context -1, or the context among the reference's contextIds |
| DataStore.SearchMembers | Lab_2/DataManager.cpp:65-83 | a reference is in the result exactly when it is stored and passes both tests: the query (empty, or found case-insensitively in title or authors) and the context (-1, or listed) |
| DataStore.SearchConcat | Lab_2/DataManager.cpp:65-83 | the search filters each reference on its own and keeps the stored order |
| DataStore.SearchEverything | Lab_2/DataManager.cpp:65-83 | the empty query with context -1 returns every reference in order |
| DataStore.SearchIgnoresCase | Lab_2/DataManager.cpp:67-72 | queries that lower-case alike select the same references |
| DataStore.SmithIsFound | Lab_2/DataManager.cpp:67-72 | a reference by "John Smith" is found by the query "smith" |
| DataStore.Children | Lab_2/DataManager.cpp:137-145 | `getChildContexts` on the list; `DataStore.ChildrenMembers`, `DataStore.ChildrenConcat` and `DataStore.ChildrenSingle` give its meaning |
| DataStore.ChildrenMembers | Lab_2/DataManager.cpp:137-145 | a context is a child exactly when it is stored with that parent id |
| DataStore.ChildrenConcat | Lab_2/DataManager.cpp:137-145 | children are returned in stored order |
| DataStore.SearchSingle | Lab_2/DataManager.cpp:69-80 | one reference is returned once when it passes both tests and not at all otherwise, so with `DataStore.SearchConcat` the result is exactly the matching references in stored order |
| DataStore.ChildrenSingle | Lab_2/DataManager.cpp:139-143 | one context is returned once when its parent matches and not at all otherwise, so with `DataStore.ChildrenConcat` the result is exactly the children in stored order |
| DataStore.Walk | Lab_2/DataManager.cpp:149-155 | the contexts the path loop visits, leaf first, within a bound on the parent links followed; `DataStore.WalkStable` and `DataStore.PathFuelIrrelevant` are about it |
| DataStore.ContextPath | Lab_2/DataManager.cpp:147-158 | `getContextPath` for a walk bounded by a number of steps; `DataStore.PathOfRoot`, `DataStore.PathOfChild` and `DataStore.PathFuelIrrelevant` give its meaning |
| DataStore.WalkStable | Lab_2/DataManager.cpp:147-158 | once the walk up the parents ends, more steps change nothing |
| DataStore.PathFuelIrrelevant | Lab_2/DataManager.cpp:147-158 | every bound on the steps that lets the walk end gives the same path |
| DataStore.PathOfUnknown | Lab_2/DataManager.cpp:147-158 | an unknown id has the empty path |
| DataStore.PathOfRoot | Lab_2/DataManager.cpp:152-154 | the path of a top-level context is its own name |
| DataStore.PathOfChild | Lab_2/DataManager.cpp:150-157 | a context below a stored parent has the parent's path, " / ", then its name; below a missing parent, its name alone |
| DataStore.SelfParentNeverEnds | Lab_2/DataManager.cpp:151-155 | the walk from a context that is its own parent never ends |
| DataStore.PathLength | Lab_2/DataManager.cpp:147-158 | a path of k contexts is their names with k - 1 separators |
| DataStore.NestedPathExample | Lab_2/DataManager.cpp:147-158 | "NLP" under "AI" has the path "AI / NLP" |
| DataStore.Imported | Lab_2/DataManager.cpp:267-270 | an imported element has its id cleared before it is added |
| DataStore.AddImportedEffect | Lab_2/DataManager.cpp:267-271 | importing N elements appends N references in file order, numbered from the counter whatever ids the file held; the counter moves on by N and contexts are untouched |
| DataStore.AddImported | Lab_2/DataManager.cpp:267-271 | adding each imported element in turn; `DataStore.AddImportedEffect` gives its meaning |
| DataStore.AddAllEffect | Lab_2/DataManager.cpp:267-271 | adding N references with id 0 one after another appends them in order, numbered from the counter; the counter moves on by N and contexts are untouched |
| DataStore.AddAllKeepsNumbering | Lab_2/DataManager.cpp:267-271 | adding references with id 0 one after another keeps ids unique and below the counter |
| DataStore.Import | Lab_2/DataManager.cpp:262-273 | `importReferences` on a parsed document; `DataStore.ImportResult` and `DataStore.AddImportedEffect` give its meaning |
| DataStore.ImportResult | Lab_2/DataManager.cpp:262-273 | import succeeds exactly for an array document; anything else changes nothing |
| DataStore.ImportKeepsNumbering | Lab_2/DataManager.cpp:267-271 | import keeps ids unique and below the counter |
| DataStore.ExportText | Lab_2/DataManager.cpp:236-246 | the text `exportReferences` writes; `DataStore.ExportNumbering` and `DataStore.ExportUnknownFormat` give its meaning |
| DataStore.ConcatAppend | Lab_2/DataManager.cpp:235-246 | the text written for two runs of pieces is the two texts in order |
| DataStore.PiecesConcat | Lab_2/DataManager.cpp:235-246 | exporting two lists one after the other continues the numbering |
| DataStore.PiecesSnoc | Lab_2/DataManager.cpp:235-246 | one more reference adds its piece at the end |
| DataStore.ExportNumbering | Lab_2/DataManager.cpp:235-246 | the k-th reference contributes, after the pieces before it, "bibtex": the BibTeX text and "\n"; "harvard": the Harvard text and "\n\n"; "dstu": "k. ", the DSTU text and "\n\n" |
| DataStore.ExportUnknownFormat | Lab_2/DataManager.cpp:235-246 | any other format string writes nothing |
| DataStore.ExportPiece | Lab_2/DataManager.cpp:238-245 | the text written for one reference in each format, with the running number in front of a DSTU entry; `DataStore.ExportNumbering` and `DataStore.ExportUnknownFormat` are about it |
| DataStore.EncodeStore | Lab_2/DataManager.cpp:161-176 | the root object `saveToFile` builds; `DataStore.SaveLoadRoundTrip` gives its meaning |
| DataStore.DecodeStore | Lab_2/DataManager.cpp:199-216 | the state `loadFromFile` builds; `DataStore.SaveLoadRoundTrip` and `DataStore.LoadFallbacks` give its meaning |
| DataStore.ReferencesRoundTrip | Lab_2/DataManager.cpp:163-166 | reading back the saved reference array gives the list in order |
| DataStore.ContextsRoundTrip | Lab_2/DataManager.cpp:169-172 | reading back the saved context array gives the list in order |
| DataStore.SaveLoadRoundTrip | Lab_2/DataManager.cpp:160-220 | loading what was saved gives back both lists and both counters |
| DataStore.LoadFallbacks | Lab_2/DataManager.cpp:199-216 | a document that is not an object loads as an empty manager; a missing list loads as empty and a missing counter as 1 |
| Manager.DataManager.constructor | Lab_2/DataManager.cpp:8-11 | a new manager is empty, both counters are 1, and no signal has been emitted |
| Manager.DataManager.AddReference | Lab_2/DataManager.cpp:13-21 | the state becomes `DataStore.AddReference` of the old one; referenceAdded with the assigned id, then dataChanged |
| Manager.DataManager.UpdateReference | Lab_2/DataManager.cpp:23-32 | the state becomes `DataStore.UpdateReference` of the old one; referenceUpdated and dataChanged only when the id was found |
| Manager.DataManager.DeleteReference | Lab_2/DataManager.cpp:34-48 | the state becomes `DataStore.DeleteReference` of the old one, cascade included; referenceDeleted and dataChanged only when the id was found |
| Manager.DataManager.GetReference | Lab_2/DataManager.cpp:50-55 | the scan returns the first reference with the id, or none |
| Manager.DataManager.GetAllReferences | Lab_2/DataManager.cpp:57-63 | all references, in stored order |
| Manager.DataManager.SearchReferences | Lab_2/DataManager.cpp:65-83 | the loop returns `DataStore.Search` of the references |
| Manager.DataManager.AddContext | Lab_2/DataManager.cpp:85-93 | the state becomes `DataStore.AddContext` of the old one; contextAdded with the assigned id, then dataChanged |
| Manager.DataManager.UpdateContext | Lab_2/DataManager.cpp:95-104 | the state becomes `DataStore.UpdateContext` of the old one; contextUpdated and dataChanged only when the id was found |
| Manager.DataManager.DeleteContext | Lab_2/DataManager.cpp:106-120 | the state becomes `DataStore.DeleteContext` of the old one, cascade included; contextDeleted and dataChanged only when the id was found |
| Manager.DataManager.GetContext | Lab_2/DataManager.cpp:122-127 | the scan returns the first context with the id, or none |
| Manager.DataManager.GetAllContexts | Lab_2/DataManager.cpp:129-135 | all contexts, in stored order |
| Manager.DataManager.GetChildContexts | Lab_2/DataManager.cpp:137-145 | the loop returns `DataStore.Children` of the contexts |
| Manager.DataManager.GetContextPath | Lab_2/DataManager.cpp:147-158 | when the walk up the parents ends, the prepend loop returns `DataStore.ContextPath` |
| Manager.DataManager.SaveToFile | Lab_2/DataManager.cpp:160-188 | the root object written is `DataStore.EncodeStore` of the state; success is whether the file opens. The state is unchanged |
| Manager.DataManager.LoadFromFile | Lab_2/DataManager.cpp:190-220 | when the file opens, the state becomes `DataStore.DecodeStore` of the document and only dataChanged is emitted; otherwise nothing changes |
| Manager.LoadReferences | Lab_2/DataManager.cpp:205-208 | the references loop builds one reference per array element, in order, as the JSON constructor reads it |
| Manager.LoadContexts | Lab_2/DataManager.cpp:210-213 | the contexts loop builds one context per array element, in order |
| Manager.DataManager.ExportReferences | Lab_2/DataManager.cpp:222-250 | when the file opens, the text written is `DataStore.ExportText` of the format and the references; the running number counts only DSTU entries |
| Manager.DataManager.ImportReferences | Lab_2/DataManager.cpp:252-274 | success exactly when the file opens and holds an array; the state becomes `DataStore.AddImported` of the old one, with referenceAdded and dataChanged per element; on failure nothing changes |
| Manager.DataManager.GetNextReferenceId | Lab_2/DataManager.cpp:276-278 | the id the next add with id 0 will use |
| Manager.DataManager.GetNextContextId | Lab_2/DataManager.cpp:280-282 | the id the next add of a context with id 0 will use |

## Left out

- Manager.DataManager.GetContextPath: specified only for contexts whose walk up the parents ends. The source loops forever on a cycle of parent links, and `DataStore.SelfParentNeverEnds` shows one such cycle.
- Text.Lower: lower-cases ASCII letters only, where Qt's `toLower` follows Unicode. `Text.IsSpace` likewise knows only ASCII white space.
- Citations.FormatHarvard and Citations.CitationKey assume the authors text and the surname hold no `%N` place markers. Reference.cpp:92 and Reference.cpp:78 chain `arg` calls, and a chained call would substitute such a marker a second time. The other `arg` calls substitute in one pass, so `Citations.FormatDSTU` and the rest of `Citations.FormatBibTeX` are exact.
- The 32-bit width of `int` in ids, years and counters is not modelled. Counters do not wrap around.
- JSON numbers are whole numbers. Fractional or out-of-range numbers are not modelled; Qt's `toInt` returns its default for them (a `year` of 2023.7 reads as 0).
- Parsing and printing JSON text (`QJsonDocument::fromJson` and `toJson`) is not modelled. Documents are taken already parsed, and malformed text is the null document.
- File access is not modelled: opening, reading and writing files, and the UTF-8 text stream of the export. Whether the file opens, and what it holds, are parameters.
- References.DefaultReference takes the current year as a parameter, instead of reading the clock.
- Pointer identity is not modelled. Lookups and lists return values, not `Reference*` or `Context*` pointers, so aliasing through a returned pointer is out of scope.
- The Qt widgets and dialogs (`MainWindow`, `ReferenceDialog`, `ExportDialog`, `ContextDialog`), with their input checks, are not part of this model.
- `Project/main.cpp`, a chat program over a network class that is not shown, is not part of this model.
- The signals are a ghost log of events. Connected slots and Qt's event delivery are not modelled.
