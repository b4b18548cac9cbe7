# Open Day Dialogue editor: the project store, verified in Dafny

This is a Dafny model of the core of the Open Day Dialogue editor. The editor is an Electron
application for Open Day Dialogue projects. A project has a name, an author and an information
text. It holds:

- **scenes** and **definition groups**: two string-keyed objects. Each entry is
  `{ name, namespace, text }`, kept under its full name `namespace.name`. Both objects are
  enumerated in insertion order.
- **scripts**: an array of `{ name, text }`.

The main process keeps one such project in memory together with an unsaved-changes flag. Its
request handlers create, rename, delete, reorder and edit items. It also does three other jobs:

- it saves the project as JSON, turning each keyed object into an array of
  `{ key, name, namespace, text }` records so that the order survives;
- it loads a project back, checking the file's integrity;
- it exports the whole project as dialogue source text.

The model also covers two smaller pieces:

- the identifier check of the editor's language support;
- the earlier version of the main process, which keys, deletes and exports differently.

## Modules

| file | module | content |
|---|---|---|
| `OrderedMap.dfy` | `OrderedMap` | A JavaScript object as a table of distinct keys in insertion order plus a map. Assigning a new key appends it, assigning an existing key keeps its place, and `delete` removes it. `FromPairs` is the loop that assigns a sequence of pairs into `{}`. |
| `Text.dfy` | `Text` | The source's `String.prototype.replaceAll` (split, then join), carriage-return stripping, and the effect of `indentString(s, 4)` with and without `includeEmptyLines`. |
| `Language.dfy` | `Language` | `isStringValid`: the leftmost match of `[A-z_][A-z0-9._]*` is removed, then the keyword and `@` tests. |
| `Project.dfy` | `Project` | The project datatypes and each handler of `app/index.js` as a function from the old project to the new one, with lemmas. |
| `Export.dfy` | `Export` | `getAllCode` as a specification function and as the accumulating loops, with lemmas on its output. |
| `Persistence.dfy` | `Persistence` | Parsed JSON as a datatype whose fields may be absent; `verifyProjectIntegrity`, `getProjectJSON`, `makeProjectFromJSON`; the round trip. |
| `Store.dfy` | `Store` | The class `ProjectStore`, whose fields are the current project and the unsaved-changes flag, with one method per handler; the handlers' loops; lemmas on the dispatch by node type. |
| `LegacyStore.dfy` | `LegacyStore` | The class `LegacyProjectStore` for the earlier `index.js`, and lemmas on where it differs. |

Each handler that changes the project is a method of `ProjectStore` with `modifies this`. Its
`ensures` gives the new project as a function of the old one (`Value() == Edited(old(Value()),
...)`) and the new value of the flag. The properties the source promises are lemmas about those
functions. Loops become methods proved equal to their specification function: export, the
array-form conversion, rename, reorder, the text lookups and the key scan.

## Model

| member | source | states |
|---|---|---|
| `OrderedMap.Put` | app/index.js:207 | Assigning a key into an object keeps the keys distinct and in step with the entries. |
| `OrderedMap.RemoveKeepsOrder` | app/index.js:374 | `delete obj[k]` removes exactly `k`, keeps the other keys in their order with their values, and changes nothing when `k` is absent. |
| `OrderedMap.PutThenRemove` | app/index.js:207 | Deleting a key that was just assigned, when it was absent before, restores the object. |
| `OrderedMap.FromPairs` | app/index.js:121-126 | Assigning a sequence of pairs into `{}` gives a valid object whose keys are exactly the pairs' keys. |
| `OrderedMap.FromDistinctPairs` | app/index.js:121-126 | With distinct keys, the rebuilt object enumerates the keys in the order of the pairs, and each key holds its pair's value. |
| `OrderedMap.FromPairsLast` | app/index.js:121-126 | When a key repeats, the value of its last pair wins. |
| `OrderedMap.PairsRoundTrip` | app/index.js:90-94 | Enumerating an object into pairs and assigning them back into `{}` gives the same object. |
| `OrderedMap.RebuildReplacing` | app/index.js:282-293 | Rebuilding with one position given a new key, free or the same, puts that key at the same position with its new value, and keeps every other key and value. |
| `Text.SplitJoin` | app/index.js:535-537 | Splitting on a non-empty separator and joining with the same separator gives the string back. |
| `Text.ReplaceAllIdentity` | app/index.js:535-537 | `replaceAll(t, t)` leaves every string unchanged, the empty target included. |
| `Text.StripIsErase` | app/index.js:550 | `replaceAll("\r", "")` removes exactly the carriage returns: it equals the reference erasure. |
| `Text.DedentIndent` | app/index.js:550 | Indenting every line by four spaces is undone by removing four leading spaces from every line, so each line is indented exactly once and kept. |
| `Text.IndentModesAgree` | index.js:175 | Indentation with and without `includeEmptyLines` agrees on a text that has no blank line. |
| `Text.IndentNoCarriageReturn` | app/index.js:550 | Indentation adds no carriage return. |
| `Language.ValidIff` | app/static/language.js:2-14 | `isStringValid` holds exactly when the string is not a bare keyword and is empty, a lone `@`, one identifier, or `@` followed by one identifier. |
| `Language.RemovesAll` | app/static/language.js:3 | Removing the leftmost match leaves nothing exactly when the string is empty or a whole identifier. |
| `Language.RemovesAllButAt` | app/static/language.js:8 | For a string starting with `@`, only `@` is left exactly when it is `@` alone or `@` followed by an identifier. |
| `Language.BadFirstCharacterRejected` | app/static/language.js:13 | A first character that cannot start an identifier, such as a digit or `.`, is refused unless it is `@`. |
| `Language.InnerAtRejected` | app/static/language.js:3-13 | An `@` anywhere but at position 0 is refused. |
| `Language.EscapedKeywordsAccepted` | app/static/language.js:6-9 | Each of the six keywords is accepted with a leading `@`. |
| `Language.ExampleLeadingDigit` | app/static/language.js:3 | `"1abc"` leaves `"1"` and is refused. |
| `Language.ExampleInnerAt` | app/static/language.js:3 | `"a@b"` leaves `"@b"` and is refused. |
| `Language.ExampleKeywords` | app/static/language.js:6-13 | `if` is refused; `@if`, `@scene`, `@` and the empty string are accepted. |
| `Language.ExampleCharacters` | app/static/language.js:3 | Dots and underscores may follow the first character; `[`, `]`, `^` and the backquote count as letters; a leading `.` is refused. |
| `Project.FullNameParts` | app/index.js:192-194 | The full name ends with the name; it is the bare name exactly when the namespace is empty; otherwise it is the namespace, a dot and the name. |
| `Project.FullNameInjective` | app/index.js:192-194 | Parts without dots are recovered from their full name. |
| `Project.FullNameAmbiguous` | app/index.js:192-194 | Different namespace and name pairs can share one full name when the parts contain dots. |
| `Project.ItemExists` | app/index.js:140-152 | `doesItemExist` is true exactly when the key is a scene or a definition group. |
| `Project.NewItemAppends` | app/index.js:197-232 | The reply is 1 exactly when the key is taken in either collection, and the project is then unchanged. Otherwise exactly one entry is appended to its own collection with the default text, and nothing else changes. |
| `Project.NewItemThenDelete` | app/index.js:197-213 | Deleting the item just created gives back the project. |
| `Project.NewItemPreserves` | app/index.js:197-232 | Create keeps the two collections disjoint and every key equal to its entry's full name. |
| `Project.NewScript` | app/index.js:235-246 | A new script with the default text is appended, whatever its name, and nothing else changes. |
| `Project.UpdateInfo` | app/index.js:249-259 | Name, author and information are replaced; the collections are unchanged. |
| `Project.RenameAbsent` | app/index.js:264-295 | Renaming a key that is not present leaves the object unchanged. |
| `Project.RenameInPlace` | app/index.js:264-295 | With the new key free or the same, the entry keeps its position and text, takes the new name and namespace, the old key is gone, and every other key keeps its value and place. |
| `Project.RenameUndo` | app/index.js:296-327 | Renaming back with the old name and namespace undoes such a rename. |
| `Project.RenameCollision` | app/index.js:282-293 | Without a collision check, renaming onto another existing key drops the old key. The survivor is the renamed entry when the other key came first, and the other key's own entry when it came later. |
| `Project.RenamePreservesConsistency` | app/index.js:262-327 | A rename to the new full name keeps every key equal to its entry's full name. |
| `Project.RenameScriptsAll` | app/index.js:328-333 | Every script with the old name now has the new name and its own text, since the loop has no `break`, so none keeps the old name. Order and count stay, and scripts with other names are untouched. |
| `Project.RenameScriptsUndo` | app/index.js:328-333 | Renaming back undoes a script rename to a name no script had. |
| `Project.DeleteScriptSpec` | app/index.js:378-383 | Only the first script with the name is spliced out and the rest keep their order; with no match nothing changes. |
| `Project.NewScriptThenDelete` | app/index.js:378-383 | Deleting a script just created gives back the scripts when its name was unused. |
| `Project.FirstNamed` | app/index.js:507-511 | The position found is the first script with the name, or the length when there is none. |
| `Project.LastNamed` | app/index.js:492-495 | The position found is the last script with the name, or -1 when there is none. |
| `Project.ItemTextRoundTrip` | app/index.js:501-505 | Writing a scene or group text and reading it back gives the text; the keys and every other entry are unchanged. |
| `Project.ScriptTextRoundTrip` | app/index.js:485-515 | With unique script names, a written text reads back. With no match the write changes nothing and the read gives the placeholder. |
| `Project.ScriptTextDuplicates` | app/index.js:485-515 | With two scripts of one name, the write goes to the first and the read comes from the second. |
| `Project.ReorderSpec` | app/index.js:400-413 | The reordered object holds exactly the keys in the order, with their old values. Keys left out are dropped. A distinct order is the new enumeration order, and a permutation keeps every entry. |
| `Project.ReorderPreservesConsistency` | app/index.js:400-413 | Reordering keeps every key equal to its entry's full name. |
| `Project.ScriptsByName` | app/index.js:415-418 | The name map holds exactly the names that occur, each mapped to the last script of that name. |
| `Project.ReorderScriptsSpec` | app/index.js:414-424 | Position i receives the last script named `order[i]`. With unique names and an order that lists each once, the result holds the same scripts, each once. |
| `Project.ReorderScriptsDuplicates` | app/index.js:414-424 | With duplicate names, every position asking for the name receives the later script. |
| `Export.GetAllCode` | app/index.js:541-568 | The three accumulating loops produce exactly `AllCode`: every scene, then every group, each in stored order as a header line and its indented text, then every script's text. |
| `Export.AppendSections` | app/index.js:546-553 | One for-in loop appends each key's header and indented, carriage-return-free text, in key order. |
| `Export.AppendScriptLines` | app/index.js:563-565 | The `forEach` appends each script's carriage-return-free text and a newline. |
| `Export.NoCarriageReturn` | app/index.js:541-568 | After export, a carriage return can appear only inside a header, where a key holds one. It never comes from a text. |
| `Export.ExportNewScene` | app/index.js:197-213 | A new scene is exported after all older scenes with the default text, and the rest of the output stays. |
| `Export.SampleExport` | app/index.js:541-568 | Scene `a.b` with text `x\r\ny` and script `z` export as `scene a.b:\n    x\n    y\nz\n`. |
| `Export.ExportVersionsAgree` | index.js:167-191 | The earlier exporter gives the same text as the later one on every project whose texts have no blank line. |
| `Export.ExportVersionsDiffer` | index.js:175 | On an empty text the later exporter writes four spaces and the earlier one writes nothing. |
| `Persistence.SpecialIntegrity` | app/index.js:47-83 | The special-mode check as intended: the base fields are defined, the collections are truthy, `scripts` is an array, and every script has a non-empty name and a text. |
| `Persistence.StrictIntegrity` | app/index.js:52-72 | The strict check on a loaded project: `{}` fails. A built project passes when every scene, group and, as intended, script has a non-empty name. |
| `Persistence.ScriptCheckIneffective` | app/index.js:77-80 | As written, both modes accept a script without name or text, which the intended check refuses. |
| `Persistence.UnnamedScriptOpens` | app/index.js:77-80 | A file whose only script has neither name nor text loads and opens as written, and the intended loader and Open refuse it. |
| `Persistence.GetProjectJson` | app/index.js:86-106 | The push loops produce exactly the array form: records in key order and every field present. |
| `Persistence.MakeProjectFromJson` | app/index.js:109-137 | The conversion loops with the check as written produce exactly `MakeProject`. |
| `Persistence.ConvertItems` | app/index.js:120-126 | One conversion loop: `{}` on the first incomplete record, otherwise every record assigned in order. A string fails and another non-array gives an empty object. |
| `Persistence.ScriptsFrom` | app/index.js:111-136 | The scripts are kept as parsed: one per record, in order, with the record's name and text when they are present. |
| `Persistence.MakeProject` | app/index.js:109-137 | A built project is well-formed, passed the special check as written and keeps every script of the file. |
| `Persistence.MakeProjectIntended` | app/index.js:47-137 | With the intended check the loader refuses exactly the files that check refuses and otherwise agrees with `MakeProject`, so every built script has a name. |
| `Persistence.ArrayFormRoundTrip` | app/index.js:86-137 | Reading back the array form of any well-formed project gives it back: the same keys, order, entries, scripts and information. |
| `Persistence.ArrayFormRoundTripIntended` | app/index.js:77-137 | With the intended check the saved form reads back as itself exactly when every script has a name, and as `{}` otherwise. |
| `Persistence.SaveThenOpen` | app/index.js:653-672 | A saved project opens as itself when all its scenes and groups have names, and does not open otherwise. Its scripts do not matter. |
| `Persistence.SaveThenOpenIntended` | app/index.js:653-672 | With the intended checks a saved project opens as itself exactly when its scenes, groups and scripts all have names. |
| `Persistence.LoadFailures` | app/index.js:47-137 | `{}` comes from a parse error, a missing base field, a falsy collection, non-array `scripts`, string `scenes` or `definitionGroups`, or an incomplete scene or group record. Whatever loads as `{}` does not open. A non-array, non-string collection loads as empty. |
| `Persistence.DuplicateRecords` | app/index.js:125 | Two records with one key give one entry at the first position holding the last record. |
| `Persistence.OpenProject` | app/index.js:653-672 | An opened project is the loaded one: it is well-formed and passed the strict check as written. |
| `Persistence.OpenProjectIntended` | app/index.js:653-672 | With the intended checks every script of an opened project has a name, and the project is the one Open as written gives. |
| `Store.TextRoundTrip` | app/index.js:485-515 | A text written through the text handler reads back through the get handler. For an unknown node type the read gives the placeholder and the write changes nothing. |
| `Store.WithTextFrame` | app/index.js:501-515 | Writing a text changes neither the information, nor the keys and their order, nor the other collections. |
| `Store.EditUndo` | app/index.js:262-337 | Editing a node back to its old name and namespace undoes an edit to a free key or an unused script name. |
| `Store.CreateThenDelete` | app/index.js:197-232 | Deleting a scene or group right after creating it gives back the project. |
| `Store.FindKey` | app/index.js:140-152 | The two scans find the key exactly when it is a scene or a group. |
| `Store.ScanFor` | app/index.js:141-145 | One scan finds the key exactly when it is in the key list. |
| `Store.RebuildRenamed` | app/index.js:264-295 | The index loop and the rebuild loop produce exactly `RenameItems`. |
| `Store.LastIndex` | app/index.js:271-277 | The first edit loop records the last position of the old key, or -1. |
| `Store.RebuildOrdered` | app/index.js:400-406 | The reorder loop produces exactly `ReorderItems`. |
| `Store.RebuildScripts` | app/index.js:414-424 | The two script loops produce exactly `ReorderScripts`. |
| `Store.IndexByName` | app/index.js:415-418 | The name-map loop produces exactly `ScriptsByName`. |
| `Store.LastScriptText` | app/index.js:492-495 | The `forEach` gives the last matching script's text, or the placeholder. |
| `Store.WriteFirstScript` | app/index.js:507-512 | The for-in loop with `break` writes only the first matching script. |
| `Store.ProjectStore.constructor` | app/index.js:163-189 | A new project is blank and marked as changed. |
| `Store.ProjectStore.StartNew` | app/index.js:163-189 | A new request replaces the project by a blank one, marked as changed. |
| `Store.ProjectStore.ChangesMade` | app/index.js:36-39 | `changesMade` raises the flag whatever it was and leaves the project unchanged. |
| `Store.ProjectStore.AddItem` | app/index.js:197-232 | Scene and group create: the reply and the new project are as in `NewItem`. The flag is raised only when the item is created. |
| `Store.ProjectStore.AddScript` | app/index.js:235-246 | Script create appends the script and raises the flag. |
| `Store.ProjectStore.SetProjectInfo` | app/index.js:249-259 | Info update replaces the three fields and raises the flag. |
| `Store.ProjectStore.Edit` | app/index.js:262-337 | The edit handler gives `Edited` of the old project and always raises the flag. |
| `Store.ProjectStore.Delete` | app/index.js:366-388 | Nothing happens unless the dialog is answered with Yes. Then the item is deleted as in `Deleted` and the flag is raised. |
| `Store.ProjectStore.Reorder` | app/index.js:399-426 | Reorder gives `Reordered` of the old project and leaves the flag. |
| `Store.ProjectStore.GetItemText` | app/index.js:485-498 | The get handler returns `TextOf` of the project. |
| `Store.ProjectStore.SetItemText` | app/index.js:501-515 | The update handler gives `WithText` of the old project and leaves the flag. |
| `Store.ProjectStore.Save` | app/index.js:694-724 | Save writes the array form of the unchanged project and lowers the flag. |
| `Store.ProjectStore.Open` | app/index.js:653-672 | The project is replaced exactly when loading and the strict check, both as written, succeed. The flag is left as it was. |
| `LegacyStore.LegacyKeyAgrees` | index.js:45 | The earlier key `namespace + "." + name` matches the later full name exactly when the namespace is non-empty; with an empty namespace it is `"." + name`. |
| `LegacyStore.LegacyCreateReplaces` | index.js:44-56 | Without an existence check, a taken key keeps its position and gets a fresh entry with the default text, and a free key is appended. |
| `LegacyStore.LegacyCreateThenDelete` | index.js:85-88 | Deleting a scene or group just created under a free key gives back the project. |
| `LegacyStore.ScriptDeleteRemovesNothing` | index.js:89-90 | The deleted script key contains a dot, so it is never an array index, and the scripts are unchanged. |
| `LegacyStore.LegacyTextRoundTrip` | index.js:116-145 | A written text reads back for an existing scene or group and for a unique, present script name. |
| `LegacyStore.MarkChanged` | index.js:14-19 | `changesMade` always leaves the flag raised, and marks the title only when the flag was down. |
| `LegacyStore.MarkChangedIdempotent` | index.js:14-19 | A second `changesMade` in a row changes nothing. |
| `LegacyStore.LegacyProjectStore.constructor` | index.js:26-42 | A new project is blank and marked as changed. |
| `LegacyStore.LegacyProjectStore.StartNew` | index.js:26-42 | A new request replaces the project by a blank one, marked as changed. |
| `LegacyStore.LegacyProjectStore.ChangesMade` | index.js:14-19 | The method follows `MarkChanged` and leaves the project unchanged. |
| `LegacyStore.LegacyProjectStore.AddItem` | index.js:44-56 | Create assigns the key without a check and records no change. |
| `LegacyStore.LegacyProjectStore.AddScript` | index.js:58-63 | Script create appends and records no change. |
| `LegacyStore.LegacyProjectStore.SetProjectInfo` | index.js:65-72 | Info update replaces the three fields, leaves the collections and raises the flag. |
| `LegacyStore.LegacyProjectStore.Delete` | index.js:85-93 | Delete has no dialog. It deletes as in `LegacyDeleted` and raises the flag. |
| `LegacyStore.LegacyProjectStore.GetItemText` | index.js:116-129 | The get handler returns the earlier key's text, and for scripts the last match's text or the placeholder. |
| `LegacyStore.LegacyProjectStore.SetItemText` | index.js:131-145 | The update handler writes the earlier key's text, and for scripts only the first match's. It leaves the flag. |
| `LegacyStore.LegacyProjectStore.Save` | index.js:279-298 | Save writes the project as held in memory and lowers the flag. |
| `LegacyStore.LegacyProjectStore.Open` | index.js:255-262 | Opening replaces the project by the parsed one, with no check, and leaves the flag. |

## Left out

- Electron windows, menus, dialogs, the request transport and window titles are left out. Only the
  recorded state change of each handler is modelled. The Delete dialog's answer is a parameter,
  `confirmed`.
- The time before any project exists (`currentProject` undefined) is left out; each class's
  constructor is the first New Project request.
- File reading and writing, the file-name bookkeeping and the open and save dialogs are left out.
  Save returns the value that would be written.
- `JSON.parse` and `JSON.stringify` are library calls. Parsed JSON is a datatype, and a parse error
  is the input `Unparsable`.
- JSON values the datatype cannot express are left out: `null` elements inside the arrays, which
  throw, non-string scalars in the string fields, and objects with a `length` member in place of an
  array.
- Namespaces are strings. In app/index.js a `null` or missing namespace gives the same full name
  as `""` (app/index.js:192-194), but the entry keeps the namespace as given (app/index.js:206,
  225, 289, 321) and the save copies it (app/index.js:94, 102). Such a scene or group is saved
  without its namespace, or with `null`. The loader then returns `{}` for that record
  (app/index.js:123, 131), and the strict check would refuse it as well (app/index.js:59, 69),
  so the saved file never opens (app/index.js:657-667). A string namespace cannot show this,
  and it is not modelled. The earlier store in index.js builds the key as `namespace + "." + name` (index.js:45, 52, 86-90, 119, 133), so
  a missing namespace there gives the key `"undefined." + name`. Its editor sends no namespace
  for a script (static/editor.js:66-69). `LegacyStore.LegacyKey` takes a string namespace only,
  so such a key is not modelled. For script delete this changes nothing, because
  `LegacyStore.ScriptDeleteRemovesNothing` holds for every namespace string.
- JavaScript enumerates integer-like keys of an object first. Valid item names cannot look like
  integers, so plain insertion order is modelled.
- The `indent-string` library is modelled by its effect: four spaces before every line, or before
  every non-blank line. Its regular expression is not modelled.
- Store.ProjectStore.Reorder: requires every name in the order to be present. The source would
  store `undefined` at that key or position.
- Store.ProjectStore.Reorder: object identity is not modelled. The source's script branch looks
  each name up in an object filled from the old array, so the last script of that name wins, and
  every position whose order names it holds that same object. The model stores copies. After a
  reorder that repeats a name, a later `SetItemText` on that name changes every such position in
  the source but only the first one in the model. A later `GetItemText`, which reads the last
  match, and the export then differ from the source's.
- Persistence.MakeProject: a script record whose name or text is missing or `null` is loaded, as
  in the source, but that field reads as the empty string. The source keeps `undefined`, so
  a script without a text makes the export (app/index.js:563-565) throw where the model
  exports an empty line. A script here always has a string name and text.
- OrderedMap.Put, Project.NewItem: every key is an ordinary own key. In JavaScript an item whose full name is
  `__proto__` sets the object's prototype instead of adding a key. `for...in` and
  `hasOwnProperty` then do not see it, so it is never saved or exported, and a second create of
  it succeeds. An item named `hasOwnProperty` hides that method, so later `hasOwnProperty` calls
  on that collection throw. Neither is modelled.
- Store.ProjectStore.GetItemText: requires the scene or group key to exist, because the source
  throws a TypeError there. The same goes for `SetItemText` and the legacy text methods.
- LegacyStore.LegacyProjectStore.Open: takes the parsed project as a well-formed project. The
  earlier version checks nothing, so a file that parses to something else is not modelled.
- `async-get-project-info` only reads three fields and is not modelled. Export Code writes
  `getAllCode` to a file, which is `Export.GetAllCode` with `includeEmptyLines` true in the later
  version and false in the earlier one.
- Nothing in `app/static/editor.js`, `static/editor.js` or the Ace editor mode and theme files is
  part of this model.

## Findings

| source | as written | input that shows it | evidently intended | confidence | as-written member | corrected member |
|---|---|---|---|---|---|---|
| app/index.js:77-80 | `return false` for a script without a name or text is inside the `forEach` callback, so `verifyProjectIntegrity` never refuses a script | a project with `scripts: [{}]`, or a loaded project with a script named `""` | the check refuses a script whose name is missing or empty or whose text is missing | high; not executed | `Persistence.SpecialIntegrityAsWritten`, `Persistence.StrictIntegrityAsWritten`, used by `Persistence.MakeProject`, `Persistence.OpenProject` and the store, shown by `Persistence.ScriptCheckIneffective` and `Persistence.UnnamedScriptOpens` | `Persistence.SpecialIntegrity`, `Persistence.StrictIntegrity`, used by `Persistence.MakeProjectIntended` and `Persistence.OpenProjectIntended`, proved by `Persistence.ArrayFormRoundTripIntended` and `Persistence.SaveThenOpenIntended` |
