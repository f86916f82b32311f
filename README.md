# Dialogue controller: a verified model

This project models `DialogueController`, a Unity component that keeps NPC
dialogue in a comma-separated file and counts how often each line is shown.
The file has one row per line of dialogue:

    <NPC id>,<mood>,<text>[,<view count>]

The component works in three steps:

- **Loading** (`LoadFile`):
  - reads the file into a table of rows, split at `,`;
  - turns every row whose first cell is not blank into a `DialogueInfo` entry;
  - groups the entries by their `(NPC, mood)` key (`NPCID`) in file order;
  - lists the keys in the order they are first met.
- **Serving** (`GetDialogue`): picks one entry of a key's bucket, increments
  its view count in place, and returns `"<count>. <text>"`.
- **Saving** (`OnDestroy`):
  - visits every key in list order and every entry of its bucket;
  - writes the entry's count into cell 3 of the row it came from, growing a
    three-cell row to four cells;
  - joins every row with `,` and ends each with a newline.

The model keeps the component's own shape:
- `Controller.DialogueController` is a class whose fields are the key list,
  the dictionary and the table. The table is an `array` of rows.
- `Controller.DialogueInfo` is a class whose `views` field the request
  updates in place.
- Loading, serving and saving are methods with loops.
- Each method is proved against a value-level function:
  - loading builds exactly `Index.IndexRows` of its table;
  - a request is `Index.Bump`;
  - the patching loops compute `Persist.PatchAll` over the records in
    `Persist.Visit` order;
  - the serialisation is `Persist.Lines`.

The properties of those functions are lemmas in modules `Index`, `Persist`
and `Reload`:
- the grouping invariants;
- a request changes one count by one;
- saving patches only cell 3 of rows of origin;
- loading the saved file gives back the dictionary as it was when saved,
  counts included;
- saving right after loading only adds or normalises the count cell.

Modules:
- `Text`: the split at `,` and the join with `,`, with their round trips.
- `Decimal`: `int.Parse` and `int.ToString` on digit strings, with their
  round trips.
- `Types`: `Mood`, `NPCID`, the value `Record` of an entry, and the mood lookup.
- `Index`: loading and requests as values, and the invariants of the dictionary.
- `Persist`: patching and serialisation as values.
- `Reload`: what a later load reads from the saved file.
- `Controller`: the two classes and the imperative operations.

## Model

| member | source | states |
|---|---|---|
| Types.MoodOf | DialogueController.cs:79-94 | "Happy" gives Happy and "Sad" gives Sad, each exactly. Every other label, "Angry" and "" included, gives Angry. All three directions are stated as iff. |
| Text.Join | DialogueController.cs:179 | definition of `string.Join(",", row)`: the cells with ',' between each two; its round trips with `Split` are `Text.JoinSplit` and `Text.SplitJoin` |
| Text.Split | DialogueController.cs:36 | splitting at ',' gives at least one cell, and no cell holds a ',' |
| Text.SplitCount | DialogueController.cs:36 | a line with n commas splits into n + 1 cells (empty cells are kept) |
| Text.JoinSplit | DialogueController.cs:179 | joining the cells of a split line with ',' gives back the line |
| Text.SplitJoin | DialogueController.cs:179 | splitting the join of comma-free cells gives back the cells |
| Text.JoinAppend | DialogueController.cs:155-164 | appending one cell to a row appends ',' and that cell to the joined line |
| Decimal.ParseNat | DialogueController.cs:75 | definition of `int.Parse` on a digit string, most significant digit first; `Decimal.ParseNatToString` and `Decimal.NatToStringParse` tie it to `NatToString` |
| Decimal.NatToString | DialogueController.cs:162 | the count is written as canonical decimal: digits only, no leading zero |
| Decimal.ParseNatToString | DialogueController.cs:75 | reading back a written count gives the count |
| Decimal.NatToStringParse | DialogueController.cs:75 | rewriting a canonical digit string after reading it gives the same string |
| Decimal.CanonicalUnique | DialogueController.cs:162 | two canonical digit strings with the same value are equal |
| Index.WellFormedRow | DialogueController.cs:57-76 | definition of a row the loader reads without failing: a row with a non-blank cell 0 has at least three cells, a numeric cell 0 and, when present, a numeric cell 3; it is `LoadFile`'s precondition |
| Index.ParseRow | DialogueController.cs:57-100 | definition of one pass of the load loop: a blank cell 0 is skipped; otherwise key from cells 0 and 1, text from cell 2, count from cell 3 or 0 when absent, row of origin the row index; `Reload.ParseWithViews` and `Index.IndexRowsSound` state what it reads |
| Index.Add | DialogueController.cs:104-112 | definition of the grouping step: append to the key's bucket, or open the bucket and list the key; `Index.AddKeepsIndex` shows it keeps the load invariant |
| Index.IndexRows | DialogueController.cs:97-112 | every listed key has a bucket in the dictionary |
| Index.IndexRowsStep | DialogueController.cs:54-116 | reading one more row either skips it (blank cell 0) or adds its record to the index of the rows before it |
| Index.IndexRowsSound | DialogueController.cs:54-116 | Load result: the key list is duplicate-free and lists exactly the dictionary's keys, in first-seen order. Entry grouping: each entry sits under its own key (mood included), buckets are in row order, and distinct entries have distinct rows of origin. Rows of origin are in the table with a non-blank cell 0 and at least three cells. Each entry is what its row reads as (count from cell 3, or 0 when absent). Every non-blank row has its entry. |
| Index.IndexRowsConsistent | DialogueController.cs:54-116 | the loaded index satisfies the part of that invariant that requests and saving rely on |
| Index.AddKeepsIndex | DialogueController.cs:104-112 | adding the entry of a row below every indexed row keeps the index well built |
| Index.AddDistinctOrigins | DialogueController.cs:100-112 | adding an entry from a new row keeps rows of origin distinct across buckets |
| Index.AddFirstSeenOrder | DialogueController.cs:104-112 | a key listed when its bucket is opened keeps the key list in first-seen order |
| Index.ExtendTable | DialogueController.cs:54-116 | facts about the index of all rows but the last carry over to the whole table |
| Index.AddLoadedFrom | DialogueController.cs:100-110 | after adding the last row's entry, every entry is still what its row reads as |
| Index.Bump | DialogueController.cs:128-130 | definition of a request on the index: the chosen record's count plus one; `Index.BumpOnlyOne` and `Index.BumpKeepsIndex` state its effect |
| Index.BumpOnlyOne | DialogueController.cs:128-130 | a request raises the chosen entry's count by one and changes no other entry, key or bucket size |
| Index.BumpKeepsConsistent | DialogueController.cs:126-132 | a request keeps the index consistent with the table |
| Index.BumpKeepsIndex | DialogueController.cs:126-132 | a request keeps the whole load invariant, grouping and first-seen order included |
| Index.SameShapeKeys | DialogueController.cs:126-132 | indexes of the same shape agree on key list, grouping, first-seen order and rows of origin |
| Persist.WithViews | DialogueController.cs:152-169 | Patching one row: a three-cell row grows to four cells, and a longer row keeps its length. Cell 3 becomes the decimal count, and every other cell is kept. |
| Persist.PatchAll | DialogueController.cs:139-171 | patching keeps the number of rows and never shortens a row |
| Persist.PatchAllKeeps | DialogueController.cs:152-169 | patching changes no cell other than cell 3 |
| Persist.PatchAllStep | DialogueController.cs:144-170 | patching with one more entry patches that entry's row of the table patched so far |
| Persist.PatchAllNext | DialogueController.cs:147-169 | one entry's row write, applied to the table patched so far, gives the table patched with one more entry |
| Persist.PatchAllAt | DialogueController.cs:139-171 | when rows of origin are distinct, a row named by no entry is untouched and a row named by an entry holds that entry's count |
| Persist.PatchablePrefix | DialogueController.cs:139-171 | the entries of a prefix of the visit name rows that can be patched |
| Persist.SavedAt | DialogueController.cs:139-171 | after the patching loops, every entry's row of origin is that row with the entry's count in cell 3 |
| Persist.SavedUntouched | DialogueController.cs:139-171 | after the patching loops, a row that is no entry's row of origin is unchanged |
| Persist.PatchKeepsIndex | DialogueController.cs:139-171 | the patched table is still consistent with the index: rows of origin keep cell 0 and grow only |
| Persist.Visit | DialogueController.cs:139-147 | definition of the save's visit order: keys in list order, each bucket in file order; `Persist.VisitCovers`, `Persist.VisitFrom` and `Persist.VisitDistinct` state what it visits |
| Persist.VisitPrefix | DialogueController.cs:139-142 | visiting the first keys visits a prefix of the records |
| Persist.VisitSnoc | DialogueController.cs:139-144 | visiting one more key appends that key's bucket |
| Persist.VisitBucket | DialogueController.cs:139-144 | key i's bucket is visited right after the buckets of the keys before it |
| Persist.VisitFrom | DialogueController.cs:139-147 | every visited record comes from the bucket of a listed key |
| Persist.VisitCovers | DialogueController.cs:139-147 | every record of a listed key's bucket is visited |
| Persist.VisitDistinct | DialogueController.cs:139-149 | visiting a duplicate-free key list meets every row of origin at most once |
| Persist.VisitPatchable | DialogueController.cs:149-152 | every visited record names a row of the table with at least three cells |
| Persist.SplitLines | DialogueController.cs:29-37 | definition of the table read from the file: row i is line i split at ','; `Persist.SplitLinesJoin` is its round trip |
| Persist.Lines | DialogueController.cs:173-180 | definition of the saved text: each row joined with ',' and followed by a newline; `Reload.LinesJoinRows` and `Reload.SaveThenLoad` state what it holds |
| Persist.SplitLinesJoin | DialogueController.cs:29-37 | the table has one row per line of the file, and row i joins back to line i |
| Reload.BumpRecounted | DialogueController.cs:126-132 | after any number of requests, the dictionary is the loaded one with only counts changed |
| Reload.RecountedConsistent | DialogueController.cs:126-132 | a dictionary that differs from the loaded one only in counts is consistent with the table |
| Reload.RecountedEqual | DialogueController.cs:126-132 | two count-only variants of one dictionary that agree on every entry are equal |
| Reload.IndexRowsRecount | DialogueController.cs:54-116 | tables whose rows read the same up to the counts load to dictionaries that differ only in counts |
| Reload.ParseWithViews | DialogueController.cs:68-76 | a row with a count written into it reads as the same entry with that count |
| Reload.SavedOrigin | DialogueController.cs:139-171 | after saving, each entry's row of origin is readable and reads as that entry with its current count |
| Reload.SavedSkipped | DialogueController.cs:57-61 | saving leaves a row with a blank cell 0 unchanged |
| Reload.SavedRead | DialogueController.cs:139-171 | after saving, a non-blank row is readable and reads as before up to its count |
| Reload.SavedTable | DialogueController.cs:139-171 | after saving, each row reads as before up to its count, and skipped rows are still skipped |
| Reload.ReloadRestores | DialogueController.cs:136-171 | loading the saved table gives back the dictionary and key list as they were at save time, counts included |
| Reload.LinesJoinRows | DialogueController.cs:173-183 | the saved text is the joined rows, each followed by a newline |
| Reload.SplitJoinRows | DialogueController.cs:29-37 | reading back the joined lines of a table of comma-free cells gives that table |
| Reload.PatchAllCells | DialogueController.cs:162 | writing counts keeps every cell of the table free of ',' |
| Reload.SaveThenLoad | DialogueController.cs:136-183 | the text saved after any number of requests is made of lines that load back into the dictionary as it was at save time |
| Reload.SavedAfterLoad | DialogueController.cs:139-171 | saving right after loading leaves a skipped row as it was and writes the loaded count into every other row |
| Reload.SavedLine | DialogueController.cs:152-179 | From a loaded line, saving writes: the same line for a skipped row; the line plus ",0" for a three-cell row; the line with its count rewritten in canonical decimal otherwise. |
| Reload.SaveAfterLoad | DialogueController.cs:136-183 | Save right after load, line by line: skipped lines are unchanged, three-cell lines gain ",0", and count cells are rewritten in canonical decimal. A line whose count is already canonical is unchanged. |
| Controller.DialogueInfo.constructor | DialogueController.cs:196-203 | a new entry holds the given key, text, mood, count and row of origin |
| Controller.HoldsOfFields | DialogueController.cs:188-203 | entries whose fields hold given records, position by position, hold those records |
| Controller.SplitAll | DialogueController.cs:29-37 | the table is a fresh array with one row per line, and row i is line i split at ',' |
| Controller.ReadEntries | DialogueController.cs:54-116 | the loop builds fresh entries that hold exactly the records of `IndexRows` of the table, bucket by bucket, and lists the keys in first-seen order |
| Controller.PatchRow | DialogueController.cs:152-169 | the table changes only at the given row, which becomes that row with the count in cell 3 (grown to four cells when shorter) |
| Controller.PatchBucket | DialogueController.cs:144-170 | the inner loop leaves the table patched with the records visited so far plus this bucket's |
| Controller.PatchEntries | DialogueController.cs:139-171 | the nested loops leave the table patched with every record in visit order |
| Controller.DialogueController.constructor | DialogueController.cs:9-11 | a new controller has an empty key list, an empty dictionary and satisfies its invariant |
| Controller.DialogueController.LoadFile | DialogueController.cs:21-118 | the table is a fresh array holding the split lines. The new keys are appended to the key list. The dictionary is replaced by fresh entries holding `IndexRows` of the table unless no row was read. Loading into an empty controller establishes the invariant with the model equal to `IndexRows`. |
| Controller.DialogueController.GetDialogue | DialogueController.cs:126-132 | A missing key fails and changes nothing. Otherwise the chosen entry's count rises by one, the reply is the new count, ". " and the text, and the model becomes `Bump` of the old model. Key list, dictionary and table are unchanged, and the invariant is kept. |
| Controller.DialogueController.PatchViewCounts | DialogueController.cs:136-171 | the table becomes `PatchAll` of the old table over the records in visit order, and the invariant is kept |
| Controller.DialogueController.Serialize | DialogueController.cs:172-180 | the text built is `Lines` of the table: each row joined with ',' and followed by a newline |
| Controller.DialogueController.OnDestroy | DialogueController.cs:136-184 | saving patches the table as `PatchViewCounts` does and returns `Lines` of the patched table, keeping the invariant |

## Left out

- File access is not modelled: `Path.Combine`, `Application.persistentDataPath`, `File.ReadAllLines` and `File.WriteAllText`. `LoadFile` takes the file's lines, and `OnDestroy` returns the text it would write. The `path` field is dropped with them.
- How `File.ReadAllLines` recognises line ends is not modelled, and `AppendLine`'s platform newline is one fixed character, `'\n'`.
- The Unity lifecycle is not modelled: `MonoBehaviour`, `Start` calling `LoadFile("NPCDialogue")`, `OnDestroy` as an engine callback, and `[Serializable]`. The operations are plain methods the caller invokes in order.
- `UnityEngine.Random.Range(0, Count)` becomes the caller's `pick`, required to lie in the bucket's range.
- Controller.DialogueController.LoadFile: does not model .NET `int.Parse` in full (signs, whitespace, overflow, `FormatException`). Cells 0 and 3 must be non-empty decimal digit strings, so an empty count cell such as a trailing comma is excluded. A non-blank row with fewer than three cells (an index error in the source) is also excluded. All of this is `Index.WellFormedRow`, stated as the precondition.
- Controller.DialogueController.LoadFile: the invariant and the `IndexRows` model are established only when loading into an empty controller, which is how the source loads once from `Start`. A second load is still described field by field: the appended keys, and the dictionary replaced or kept.
- Controller.DialogueController.GetDialogue: does not model the 32-bit overflow of `views++`. Counts and NPC ids are unbounded naturals, so negative ids and negative counts do not arise.
- The unused `MoodsUsed` list built in `LoadFile` is left out.
- The inner `string[]` rows are sequence values in an array of rows, so aliasing between rows is not modelled. The grown row is still built in a fresh array by a copy loop, as in the source.
- `DialogueInfo`'s `ID`, `text`, `mood` and `LineOfOrigin` are constant fields, because no code in the file writes them after construction. Only `views` is a mutable field.
- `LoadFile` adds to `IDs` and assigns `AllDialogue` inside its loop. The model builds the new keys and the dictionary in the loop and assigns both fields once after it. This gives the same final state, since nothing reads those fields during the loop.
- The class invariant `Valid` keeps the part of the load invariant that requests and saving use: the key list, file order, distinct rows of origin, and origins in the table. Grouping and first-seen order are proved about the values, by `Index.IndexRowsSound` and `Index.BumpKeepsIndex`.
- The link from a whole session to the reload property is stated on values, not as a class invariant. A controller loaded from empty holds `IndexRows` of its table, and each request applies `Bump`, which `Reload.BumpRecounted` shows keeps it a recount. `Reload.SaveThenLoad` then applies to what `OnDestroy` returns.
