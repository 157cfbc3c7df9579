# CSV persistence engine for polymorphic objects

A Dafny model of `main.cpp`, a small engine that saves objects of several
classes to one CSV-like file and loads them back. It has four parts:

- `CSVLine` is a sparse record. It maps column names to cell values, ordered by
  name the way `std::map` orders its keys.
  - It writes a header line `"name";` for every key.
  - It writes a body line `"value";` for every column in a list the caller
    supplies.
  - It reads both kinds of line back by cutting at `;` with
    `getline(stream, item, ';')` and deleting every `"`.
- `Employee`, `Teacher`, `Programmer` and `FilmCharacterEmployee` each write a
  `ClassID` discriminator and their fields into a record, and read the fields
  back.
- `GetObject` is the factory. It maps a discriminator to a fresh default
  object of that class.
- `CSVStore` groups objects by discriminator.
  - Saving builds one shared header from the *first* object of each group,
    then writes every object as a row against that header. Groups are written
    in ascending discriminator order.
  - Loading decodes the header, turns each body line into an object, returns
    the objects and also adds each one back into the store.

Modules, one file each:

| file | module | contents |
|---|---|---|
| `wrappers.dfy` | `Wrappers` | `Option`, `Result` |
| `lex.dfy` | `Lex` | `std::string` ordering, a set's keys in ascending order, the smallest-key step of in-order map iteration |
| `csv_text.dfy` | `CsvText` | writing quoted cells; the pieces `getline` cuts a line into; quote removal; the text round trip |
| `csv_record.dfy` | `CsvRecord` | class `CsvLine` (the record, a `map` field its methods update) and its lemmas |
| `csv_objects.dfy` | `CsvObjects` | datatype `CsvObject` with one variant per class; `Serialize`/`Deserialize` as methods on a `CsvLine`; `GetObject` |
| `csv_store.dfy` | `CsvStorage` | class `CsvStore` (groups in a `map` field); the saved lines and the load as functions; the store's methods proved against them |
| `store_properties.dfy` | `StoreProperties` | header union, row order, per-group insertion order, row width, save-then-load round trip |
| `scenario.dfy` | `Scenario` | the driver's first save: two teachers and a programmer |

A file is a sequence of lines: the header line first, then one line per
object. `std::endl` becomes the boundary between two elements of the
sequence.

Behaviour the model follows from the code:

- `Add(name)` sets the column to `""` even when it already holds a value.
- `Get(name)` and `GetClassID()` go through `operator[]`: they insert an
  absent name with `""` and return `""` for it.
- Splitting with `getline` drops one trailing empty piece: `"a;b;"` gives
  `a`, `b`; `""` gives nothing; `";"` gives one empty piece.
- A body line with fewer cells than header columns leaves the remaining
  columns unset. When an object reads one of them back it gets `""`.
- A body line with more cells than columns indexes past the column vector
  (main.cpp:89). That is undefined behaviour in the code. The model raises
  `FieldCountMismatch` instead.
- An unknown discriminator makes `GetObject` fall off its end without
  returning a value (main.cpp:310-315). The caller then uses that value
  (main.cpp:183), which is also undefined behaviour. The model's `GetObject`
  returns `None`, and loading stops with `UnknownClassId(id)`.
- An empty file has an empty header, so it loads as no objects and no
  error.

## Model

| member | source | states |
|---|---|---|
| CsvRecord.CsvLine.constructor | main.cpp:12-15 | a new record holds no cells |
| CsvRecord.CsvLine.Get | main.cpp:17-19 | returns the stored value, or "" for an absent name; afterwards the name is present with that value and nothing else changed |
| CsvRecord.CsvLine.AddColumn | main.cpp:20-22 | the name is set to "", overwriting any value; nothing else changes |
| CsvRecord.CsvLine.Add | main.cpp:23-25 | the name is set to the value; nothing else changes |
| CsvRecord.CsvLine.GetClassID | main.cpp:26-28 | returns the `ClassID` cell or ""; `ClassID` is present afterwards |
| CsvRecord.CsvLine.GetColumns | main.cpp:29-40 | the loop over the map yields exactly the keys in ascending order |
| Lex.SortedKeysSpec | main.cpp:29-40 | the ascending key list is strictly sorted and holds exactly the set's members |
| Lex.SortedUnique | main.cpp:29-40 | two strictly sorted lists with the same members are equal, so the key order is unique |
| Lex.LessTransitive | main.cpp:15 | the `std::string` ordering used by the map is transitive |
| Lex.LessTotal | main.cpp:15 | any two distinct strings are ordered one way or the other |
| Lex.LeastKey | main.cpp:34 | picks, from a non-empty key set, the key that in-order iteration visits next: the smallest |
| Lex.VisitEnd | main.cpp:34-37 | keys visited smallest-first until none remain form the ascending key list |
| CsvRecord.CsvLine.SerializeHeader | main.cpp:41-52 | the text is `"name";` for every key, in ascending key order |
| CsvRecord.CsvLine.SerializeBody | main.cpp:53-63 | one `"value";` per listed column, in the caller's order, "" for an absent column; each listed column is present afterwards with its old value or "" |
| CsvRecord.CsvLine.DeserializeHeader | main.cpp:64-78 | the column names are the line's pieces with quotes removed, in file order, not re-sorted |
| CsvRecord.CsvLine.DeserializeBody | main.cpp:79-93 | the i-th piece goes to the i-th column; with fewer pieces the other columns are untouched; with more pieces than columns it reports failure after assigning every column |
| CsvRecord.AssignCellsAt | main.cpp:86-92 | with distinct columns, column i ends up holding value i |
| CsvRecord.AssignCellsOutside | main.cpp:86-92 | a column not in the list keeps its old value |
| CsvRecord.HeaderRoundTrip | main.cpp:41-78 | decoding a written header gives back the ascending key list, when names avoid `;`, `"` and line breaks |
| CsvRecord.BodyRoundTrip | main.cpp:53-93 | decoding a written body line into an empty record gives as many pieces as columns and restores every listed column's value, when values avoid `;`, `"` and line breaks |
| CsvText.Getline | main.cpp:71 | a call fails exactly when the stream is at the end of the line; otherwise it moves strictly forward and stays within the line |
| CsvText.Tokens | main.cpp:71 | the loop of `getline` calls yields no piece exactly for the empty line |
| CsvText.GetlineTokens | main.cpp:71 | one successful `getline` call yields the first piece of the rest of the line, and the position after it |
| CsvText.TokensRejoin | main.cpp:71 | no piece holds `;`, and re-joining the pieces with `;` after each gives the line with one `;` appended when it did not already end in `;` |
| CsvText.TokensExamples | main.cpp:71 | `a;b;` and `a;b` both give `a`, `b`; the empty line gives nothing; `;` gives one empty piece |
| CsvText.Unquote | main.cpp:72 | the result holds no `"` and is no longer than the input |
| CsvText.UnquoteUnchanged | main.cpp:87 | text without `"` is left as it is |
| CsvText.DecodeEncode | main.cpp:53-93 | splitting and unquoting a line of written cells gives back the cell values, when they avoid `;`, `"` and line breaks |
| CsvObjects.CsvObject.GetClassId | main.cpp:99 | every variant has a known discriminator, and "Employee", "Teacher", "Programmer" and "FilmCharacterEmployee" each belong to exactly one variant |
| CsvObjects.CsvObject.Serialize | main.cpp:100-297 | the record gains `ClassID` with the class's discriminator, the five employee fields and the variant's own field; every other cell is kept |
| CsvObjects.DeserializeEmployee | main.cpp:216-223 | the five employee fields read from the record, "" for absent ones; the five names are present afterwards |
| CsvObjects.CsvObject.Deserialize | main.cpp:103-302 | the object of this variant with every field read from the record, "" for absent ones; the read names are present afterwards |
| CsvObjects.CsvObject.Populate | main.cpp:216-302 | reading fields keeps the variant and its discriminator |
| CsvObjects.PopulateFields | main.cpp:207-302 | reading back the record an object wrote, into a default object of the same class, gives back that object |
| CsvObjects.PopulateAgrees | main.cpp:216-302 | reading fields depends only on the cells of the variant's own field names |
| CsvObjects.ReadColumnsWritten | main.cpp:207-302 | the names a variant reads are exactly those it writes, less `ClassID` |
| CsvObjects.ColumnsOfClass | main.cpp:207-297 | objects with the same discriminator write the same field names |
| CsvObjects.FieldNamesClean | main.cpp:101-296 | no field name contains `;`, `"` or a line break |
| CsvObjects.GetObject | main.cpp:310-315 | returns an object exactly for the four known discriminators: a default object with that discriminator whose every field, the variant's own included, is empty; otherwise nothing |
| CsvObjects.FactoryKnowsVariants | main.cpp:310-315 | the factory recognises every variant's own discriminator |
| CsvStorage.CsvStore.constructor | main.cpp:111-114 | a new store is empty and valid |
| CsvStorage.CsvStore.Add | main.cpp:116-118 | the object is appended to the group of its discriminator, a new group is created when absent, and the other groups are unchanged; a valid store stays valid |
| CsvStorage.AddTo | main.cpp:117 | the discriminator joins the keys; its group grows by one with the object last and the old group kept as a prefix; every other group is unchanged |
| CsvStorage.AddToValid | main.cpp:116-118 | adding keeps every group non-empty and holding only objects of its own discriminator, so `it->second[0]` is safe |
| StoreProperties.AddAllValid | main.cpp:116-118 | any sequence of additions keeps that invariant |
| CsvStorage.CsvStore.CollectHeader | main.cpp:122-140 | the first loop yields the header columns, the header line and every object in group order |
| CsvStorage.CsvStore.Serialize | main.cpp:119-158 | the lines written are the saved lines of the store: the header, then one row per object |
| CsvStorage.WriteRow | main.cpp:148-154 | a row is the object's written record encoded against the header columns |
| StoreProperties.HeaderMapNames | main.cpp:130-136 | a name is in the shared header record exactly when the first object of some visited group writes it |
| StoreProperties.HeaderColumnsNames | main.cpp:130-140 | the header columns are strictly sorted, and a name is there exactly when the first object of some group writes it |
| StoreProperties.HeaderCoversAll | main.cpp:130-155 | every field of every stored object has a header column |
| StoreProperties.FlattenMembers | main.cpp:135 | every collected object sits in the group of its own discriminator |
| StoreProperties.AllObjectsByClass | main.cpp:130-136 | the objects of one discriminator appear in the saved order exactly as in their group, in insertion order |
| StoreProperties.AllObjectsOrdered | main.cpp:130-136 | the discriminators of the saved objects never decrease |
| StoreProperties.SavedLinesShape | main.cpp:119-158 | a store of clean values saves one header plus one line per object; the header decodes to the columns; every row holds exactly one cell per column |
| StoreProperties.RowRoundTrip | main.cpp:145-185 | a row of an object with clean values, written against columns that cover its fields, decodes back to that object |
| CsvStorage.DecodeRow | main.cpp:175-183 | a line fails with `FieldCountMismatch` exactly when it has more pieces than columns, and with `UnknownClassId` exactly when it fits but its `ClassID` cell is not a known discriminator; otherwise the object is the factory's default object for that cell with every field read from the line's cells |
| CsvStorage.ReadRow | main.cpp:175-183 | the loop body's record, `GetClassID`, `GetObject` and `Deserialize` steps produce exactly the decoded row |
| CsvStorage.LoadRows | main.cpp:173-188 | at most one object per line, and no error exactly when every line gave an object |
| CsvStorage.LoadRowsSpec | main.cpp:173-188 | each object comes from its own line, in file order; an error is reported exactly when a line is left unread, and it is that line's error |
| StoreProperties.LoadRowsAll | main.cpp:173-188 | when every line decodes, the load returns exactly those objects and no error |
| CsvStorage.Load | main.cpp:159-191 | succeeds exactly when no line failed, with one object per body line; otherwise it reports the load's error |
| CsvStorage.CsvStore.Deserialize | main.cpp:159-191 | returns the load of the lines, and the store gains every object read, in file order, grouped by discriminator |
| StoreProperties.ReloadRestores | main.cpp:116-136 | adding the saved objects in order to an empty store rebuilds the store exactly |
| StoreProperties.SaveLoadRoundTrip | main.cpp:119-191 | for clean values, loading the saved lines gives back every object in saved order with no error, and a fresh store that loads them equals the store that was saved |
| Scenario.DriverHeaderColumns | main.cpp:321-355 | the driver's first file has `Address`, `ClassID`, `Company`, `Email`, `First name`, `Language`, `Last name`, `Subject` as its header |
| Scenario.DriverRows | main.cpp:321-355 | its rows are the programmer, then the two teachers in the order they were added |

## Left out

- File I/O: `ofstream` and `ifstream` become a sequence of lines, so no path, open failure or line-break handling is modelled.
- Console output: every `Print` method and all `cout` output.
- `main` is not modelled as a program. Its first save (main.cpp:321-355) is a scenario in `Scenario`; its reload, the added `FilmCharacterEmployee` and the second save are covered only by the general lemmas.
- Scenario: the concrete reload of the driver's file is not proved on its literal values. `StoreProperties.SaveLoadRoundTrip` covers it for any store of clean values.
- Memory: raw pointers, `new` without `delete` and the per-row `CSVLine` objects. Records are fresh `CsvLine` objects; stored objects are values.
- Virtual dispatch and inheritance become one datatype and a `match`.
- CsvObjects.CsvObject.Deserialize: it does not update a default instance's fields in place. It returns the populated value, and the store keeps values, not pointers, so aliasing between the result vector and the store is not modelled.
- Escaping: values holding `;`, `"` or a line break are not escaped by the code. The round-trip lemmas require clean values instead.
- Undefined behaviour: an extra cell (main.cpp:89) and an unknown discriminator (main.cpp:183) become the defined errors `FieldCountMismatch` and `UnknownClassId`.
- CsvStorage.CsvStore.Deserialize: stopping at the first failing line is a modelling choice, because the code has undefined behaviour there (main.cpp:89, 183). The objects read before that line have already been added to the store, and the error is returned in place of the objects.
- Byte strings: `std::string` holds bytes, while a Dafny `string` is a sequence of Unicode characters. For valid UTF-8, byte order and character order agree, so the ordering, the `;` split and the `"` removal match the code. Text that is not valid UTF-8 is not modelled.
