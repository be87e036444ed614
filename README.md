# spravochnik record grid, modelled in Dafny

spravochnik is a small desktop editor for two related record kinds:
departments, and the professors who belong to them. This project models its
editable record grid.

A `TableModel` holds the rows of one kind, as its persistence session returns
them. Through the model the user can:

- read a cell as raw data or as display text;
- edit a cell in place;
- add a row, or delete the rows addressed by a selection;
- commit every staged change, or revert all of them.

A sorting proxy orders the rows for the view. The department reference of a
professor is ordered by the department's name, and every other column by its
raw value. Each column gets an editor from a registry keyed by
`"table.column"`. The department editor keeps a map from department id to
position in its choice list. The budget editor reads a comma as the decimal
point.

Modules:

- `Values` (values.dfy): the Python value semantics the grid relies on.
  - `str()` of None, int, str, Decimal and date;
  - truthiness;
  - the `<` operator, with `None` where Python raises TypeError;
  - `int()` and `Decimal()` of text (unsigned plain notation for `Decimal`).
- `Schema` (schema.dfy): the two record kinds.
  - Their columns in declaration order, with types, defaults and the one
    foreign reference.
  - `obj[i]` and `obj[i] = v` as an explicit accessor table.
  - `Instance`, the object whose fields an assignment changes in place.
- `Store` (store.dfy): the persistence session as an abstract store.
  - It holds the durable rows with their committed values, the staged
    inserts (a sequence) and the staged deletes (a set).
  - `query(kind).all()` is the durable rows without the staged deletes,
    followed by the staged inserts.
  - Field edits change the shared instances themselves, as an identity map
    does.
- `Grid` (grid.dfy): `TableModel` as a class over a `Session`, its cell read
  rules, and `SortModel.lessThan`. The model keeps the invariant `table ==
  session.Live()`.
- `Editors` (editors.dfy): the editor registry, the department choice (a
  class that builds its id-to-position map in a loop), and the budget and
  rating text coercions.
- `Viewer` (viewer.dfy): the "Delete rows" button, which hands the view's
  selection to `delete_rows`. See "## Findings".

Things the code does that the model can only take as parameters:

- The database's department list is a parameter of the session, as (id,
  name) pairs in query order.
- The view's sort order is a parameter of the viewer's handler, as a
  permutation of the table rows.
- The identity the database assigns to a new row is `NextId` of the live
  rows: SQLite's largest rowid plus one.

Two behaviours of the code are worth stating directly:

- A department reference that names no department does not display at all.
  The lookup indexes `.all()[0][0]` (main.py:210-214), which raises
  IndexError when no department has that id. The model therefore requires
  the reference to resolve (`Grid.Displayable`) and invents no fallback. A
  falsy reference (None or 0) displays as "None".
- Commit does not reload the rows. `commit` (main.py:240-241) only calls
  `session.commit()`, so `Grid.TableModel.Commit` leaves `table` exactly as
  it was.

## Model

| member | source | states |
|---|---|---|
| Values.IntTextRoundTrip | main.py:79-80 | `int(str(i)) == i` for every int, so the spin box loads a stored rating as itself |
| Values.NatText | main.py:215 | `str(n)` of a natural number: at least one digit, all digits, and no leading zero except for 0 itself |
| Values.NatOfNatText | main.py:80 | the digits `str(n)` writes denote n again |
| Values.DecimalTextRoundTrip | main.py:158 | `Decimal()` is a left inverse of `str()` on plain-notation texts: `Decimal(str(d)) == d`, scale included, for every non-negative Decimal that `str()` writes without an exponent |
| Values.PyLess | main.py:178-179 | the result is None, standing for Python's TypeError, exactly when the two values are not both strings, both dates, or both numbers |
| Values.Str | main.py:215 | no contract of its own (body only): the text `str()` writes for a cell value, "None" for an unset cell; its round trips are stated by `Values.IntTextRoundTrip` and `Values.DecimalTextRoundTrip` |
| Values.Falsy | main.py:208 | no contract of its own (body only): Python truthiness of a cell value, false for None, 0, the empty string and a zero Decimal |
| Values.ParseInt | main.py:80 | a text that `int()` reads is not empty; it reads back every text `str()` writes for an int, as `Values.IntTextRoundTrip` states |
| Values.ParseDecimal | main.py:158 | a text that `Decimal()` reads gives a non-negative coefficient; it reads back every plain-notation text `str()` writes, as `Values.DecimalTextRoundTrip` states |
| Values.PyLessStrictOrder | main.py:176-179 | wherever `<` is defined it is irreflexive and transitive |
| Values.LexLessTotal | main.py:178 | of two different str values one is `<` the other |
| Schema.Columns | db_scheme.py:8-29 | each kind lists its columns in declaration order; the identity column `id` is at index 0, is the primary key and is the only one |
| Schema.ColumnNamesDistinct | db_scheme.py:8-29 | no two columns of a kind share a name |
| Schema.ForeignReferences | db_scheme.py:29 | the only foreign reference is professors column 4, `department_id`, and it refers to departments |
| Schema.Get | db_scheme.py:16-17 | `obj[i]` is the attribute named by the i-th declared column |
| Schema.Set | db_scheme.py:19-20 | after `obj[i] = v`, index i reads v, every other index reads what it read before, and the kind is unchanged |
| Schema.RecordExtensionality | db_scheme.py:16-17 | two records of one kind that agree at every index are equal |
| Schema.SetGetRoundTrip | db_scheme.py:32-36 | `obj[i] = v` then `obj[i]` gives v; writing back what `obj[i]` read changes nothing |
| Schema.NewRecord | db_scheme.py:8-29 | a new instance after its insert: the assigned id at index 0 and each column's declared default elsewhere: "" for name, description and fio, 0 for budget and social_rating, 2002-12-27 for birth_date, None for department_id |
| Schema.Instance.constructor | db_scheme.py:8-29 | a new instance holds the given field values |
| Schema.Instance.SetItem | db_scheme.py:35-36 | `obj[i] = v` changes that one instance in place, to `Set(old, i, v)` |
| Store.NextId | main.py:229-230 | the identity the reload gives a new row exceeds every integer id present, and is either 1 or one more than an id present |
| Store.Session.constructor | main.py:188-189 | a new session over the stored rows has those rows as durable, with their values committed, and nothing staged |
| Store.Session.Live | main.py:189 | no contract of its own (body only): what `query().all()` returns (main.py:189, 230, 237, 246), the durable rows without those staged for deletion, then the staged inserts |
| Store.Session.LiveMembers | main.py:189 | an instance is live exactly when it is durable and not staged for deletion, or staged for insertion |
| Store.Session.Add | main.py:229 | `session.add(x)` stages x: the live rows gain x at the end, and nothing durable changes |
| Store.Session.AddNew | main.py:229 | `session.add(self.entity_type())`: a fresh instance with the given values, appended to the live rows |
| Store.Session.Delete | main.py:236 | `session.delete(x)` removes x from the live rows; a staged insert just leaves the staged inserts; durable rows and committed values stay |
| Store.Session.Commit | main.py:241 | what was live becomes durable with the values the instances now hold, nothing stays staged, and the live rows are unchanged |
| Store.Session.Rollback | main.py:245-246 | every staged operation is discarded and every durable instance holds its committed values again; the live rows are the durable rows |
| Grid.LookupName | main.py:210-214 | the name the lookup returns belongs to the first department with that id |
| Grid.LookupNameUnique | main.py:210-214 | when department ids are distinct the lookup returns the name of the one department with that id |
| Grid.Display | main.py:206-215 | display text: professors column 4 shows "None" for a falsy value and otherwise a name whose department has that id; every other cell shows `str(value)` |
| Grid.DisplayReference | main.py:207-214 | a reference to department k shows department k's name |
| Grid.SortLess | main.py:176-179 | on professors column 4 the comparator compares display labels as str; everywhere else it is Python's `<` on the raw values |
| Grid.SortLessStrictOrder | main.py:176-179 | wherever the comparator is defined it is irreflexive and transitive |
| Grid.SortLessReferenceTotal | main.py:177-178 | on the department reference the comparator never fails, and of two different labels one sorts first |
| Grid.SortLessByLabel | main.py:177-178 | labels, not ids, decide: with departments 1 "Physics" and 2 "Algebra", id 2 sorts before id 1 and a missing reference ("None") sorts between them, although 1 < 2 |
| Grid.Addressed | main.py:235-236 | the rows the indices address: every addressed row and nothing else |
| Grid.DeletedOnce | main.py:233-238 | deleting removes one row per distinct addressed row, so a repeated index deletes its row once; at most as many rows as indices go |
| Grid.TableModel.constructor | main.py:185-189 | a new model over one kind: the table is the stored rows, and its session holds them as durable with nothing staged |
| Grid.TableModel.RowCount | main.py:199-200 | `rowCount` is the number of rows the session's query returns |
| Grid.TableModel.ColumnCount | main.py:202-203 | `columnCount` is the number of declared columns: 4 for departments, 5 for professors |
| Grid.TableModel.Data | main.py:205-218 | the raw role gives the stored value, the display role `Display` of it, any other role None |
| Grid.TableModel.SetData | main.py:223-225 | exactly cell (row, column) takes the value, every other cell and the row sequence are unchanged, and it returns True |
| Grid.TableModel.AddRow | main.py:227-231 | the table keeps its rows and gains one fresh row at the end, holding `NewRecord` with the next id; nothing durable changes |
| Grid.TableModel.DeleteRows | main.py:233-238 | the table is the old table without every addressed row, in order; a deleted staged insert leaves the staged inserts; nothing durable changes |
| Grid.TableModel.Commit | main.py:240-241 | everything live becomes durable with its current values, nothing stays staged, and the table is not reloaded or changed |
| Grid.TableModel.Revert | main.py:243-247 | the table is the durable rows again, each holding its committed values, and nothing stays staged |
| Grid.SortModel.constructor | main.py:261-262 | the proxy sorts over the given table model |
| Grid.SortModel.LessThan | main.py:176-179 | `lessThan` is Python's `<` on the display data for professors column 4 and on the raw data otherwise, and agrees with `SortLess` on the two cells' stored values |
| Editors.DepartmentNames | main.py:268-269 | `str(column)` for the department columns is "departments.id", "departments.name", "departments.description", "departments.budget" |
| Editors.ProfessorNames | main.py:268-269 | `str(column)` for the professor columns is "professors.id" through "professors.department_id" |
| Editors.IdentityHasNoEditor | main.py:268 | the identity column's name is not in the registry |
| Editors.RegistryCoversColumns | main.py:268-270 | a column's qualified name is in the registry if and only if it is not the identity, so the lookup never fails for the columns it is used on |
| Editors.RegistryNamesColumns | main.py:161-169 | every registered name is the qualified name of a non-identity column |
| Editors.RegistryEditors | main.py:161-169 | each of the seven non-identity columns is registered to its own delegate: fio, birth date, social rating and department for professors; name, description and budget for departments |
| Editors.QualifiedName | main.py:269 | no contract of its own (body only): `str(column)` is the table name, a dot and the column name; `Editors.ProfessorNames` and `Editors.DepartmentNames` state its values |
| Editors.EditorsFitColumns | main.py:161-169 | what a column's editor writes is a value of the column's declared type |
| Editors.Options | main.py:99-102 | the choice items: "None" with no data first, then each department's name with its id, in query order |
| Editors.IdToIdx | main.py:98-103 | the position map holds None at 0 and exactly the listed department ids, each at a position within the list |
| Editors.IdToIdxRoundTrip | main.py:106-110 | the item at the position the map gives a value carries that value as its data |
| Editors.IdToIdxPosition | main.py:101-103 | with distinct ids the k-th department (from 0) is at position k + 1 |
| Editors.OptionsAreReferences | main.py:101-102 | each item's data is None or a department's id, and the grid displays it as that item's label |
| Editors.DepartmentIdDelegate.constructor | main.py:87-88 | a new delegate has no positions yet |
| Editors.DepartmentIdDelegate.CreateEditor | main.py:90-104 | the loop builds exactly the `Options` items, with the first selected, and the `IdToIdx` map |
| Editors.DepartmentIdDelegate.SetEditorData | main.py:106-107 | selects the position of the raw value, and fails as the KeyError does exactly when the value has none |
| Editors.ChoiceRoundTrip | main.py:98-110 | a cell value has a position if and only if it is None or a listed id, and then confirming the choice unchanged writes that value back |
| Editors.ComboData | main.py:110 | no contract of its own (body only): `itemData(currentIndex())`, the data of the selected item; `Editors.ChoiceRoundTrip` states what it gives back |
| Editors.ReplaceComma | main.py:158 | every "," becomes ".", every other character stays, and no comma remains |
| Editors.ReplaceCommaNoComma | main.py:158 | text without a comma is left as it is |
| Editors.ReplaceSeparator | main.py:158 | digits, a comma and digits become the same digits around a point |
| Editors.ParseAtSeparator | main.py:158 | `Decimal` of digits, a point and digits is the number of all the digits, scaled by those after the point |
| Editors.CommaSeparator | main.py:158 | the budget editor reads a comma separator as a point: w "," f gives the same Decimal as w "." f |
| Editors.BudgetValueExample | main.py:158 | "100,10" reads as Decimal 100.10 (coefficient 10010, two places) |
| Editors.BudgetValue | main.py:158 | no contract of its own (body only): `Decimal(text.replace(",", "."))`; its meaning is stated by `Editors.CommaSeparator` and `Editors.BudgetRoundTrip` |
| Editors.BudgetRoundTrip | main.py:158 | the budget coercion is a left inverse of `str()` on plain-notation texts of a non-negative Decimal, whether the point is written as a point or as a comma: the text reads back as the same Decimal, scale included |
| Editors.RatingValue | main.py:80 | no contract of its own (body only): `int()` of the rating's display text; its meaning is stated by `Editors.RatingRoundTrip` |
| Editors.RatingRoundTrip | main.py:79-80 | a stored rating loads into the editor as itself; an unset rating, shown as "None", is rejected as `int()` rejects it |
| Viewer.SourceRows | main.py:261-263 | the table row behind each selected view row, through the proxy's order |
| Viewer.DeleteSelectedAsWritten | main.py:283-285 | the handler as written deletes the table rows at the view positions of the selection |
| Viewer.AsWrittenDeletesUnselected | main.py:283-285 | with two rows shown in reverse order, selecting the first row on screen (table row 20) deletes row 10 and keeps row 20 |
| Viewer.DeleteSelected | main.py:283-285 | the corrected handler deletes the table rows the selected view rows show |
| Viewer.DeleteSelectedExactly | main.py:283-285 | mapped through the order, every selected row is deleted and every unselected row stays |

## Left out

- Qt widgets, layout and navigation (`TableViewer`, `DatabaseViewer`, `MainWindow`, main.py:253-337): user interface only. The reset notifications (`beginResetModel` and `endResetModel`) are left out too.
- `headerData` and `flags` (main.py:191-197, 220-221): widget metadata.
- The editors' `createEditor` bodies other than the department choice, the `QCalendarWidget` and `QDate` string conversions, and the spin box settings: foreign widget behaviour. There are no Dafny members for the fio, name, description and birth-date delegates beyond the registry.
- `BudgetDelegate.setEditorData`'s `float(...)` (main.py:155): floating point.
- The budget editor's own round trip is not modelled. A stored budget goes through `float` into a `QDoubleSpinBox` with two decimals (main.py:150-155) and comes back as that widget's text, so 0 comes back as 0.00, 1.5 as 1.50, and 1.234 is rounded. `Editors.BudgetRoundTrip` and `Values.DecimalTextRoundTrip` are properties of the text coercion alone, on texts `str()` writes, and `Editors.CommaForm` is the comma rendering a locale may give the spin box text, not one the code itself performs.
- Values.PyLess: an exception raised inside `lessThan` (main.py:178-179) is modelled as the result None; what Qt's sort then does with it is not modelled, because it happens in foreign code.
- Values.ParseInt: reads only an optional minus sign followed by ASCII digits. Python's `int()` also accepts a plus sign, surrounding whitespace, underscores between digits and non-ASCII digits; those give None here, because no text `str()` writes for an int contains them.
- Editors.RatingRoundTrip: does not model `QSpinBox` clamping to its default range 0..99, because that is widget behaviour; the round trip is stated for the text `int()` reads.
- Values.ParseDecimal: models `Decimal()` only for unsigned plain notation (digits with at most one point). Signs, exponents, whitespace, underscores, non-ASCII digits, "NaN" and "Infinity" are not modelled, because the budget editor's spin box text never contains them.
- Values.DecimalTextRoundTrip: stated only for non-negative coefficients written in plain notation. Scientific output (an adjusted exponent below -6) is written by `DecimalText`, but it is not read back.
- Editors.BudgetRoundTrip: covers the same cases as `Values.DecimalTextRoundTrip`, because it is built on it.
- Store.NextId: does not model SQLite's choice of a random rowid once the largest rowid is taken, nor ids of rows deleted in the same flush. It gives 1 when no id is positive.
- Storage rounding of `Numeric(scale=2)` values on commit, and SQLite type affinity: the model stores values as given.
- Commit failure: the model's commit always succeeds. A constraint violation, which leaves everything staged, and storage I/O are not modelled.
- `close_session` and the engine and session construction (`create_engine`, `session_maker`): plumbing.
- The department list a session sees is constant for the session's lifetime. Departments added or deleted through another grid's session are not reflected.
- The `eval(name.capitalize()[:-1])` table-name lookup (main.py:316): reflection for navigation.
- The seeding script (db_scheme.py:39-58): I/O only.
- Qt's sort algorithm: `SortModel.LessThan` is the comparator it is given, and `Viewer` takes the resulting order as a parameter.
- `Grid.TableModel.Data` requires the referenced department to exist, as the `.all()[0][0]` lookup does. The IndexError path is this precondition, not a modelled result.

## Findings

| source | as written | input that shows it | evidently intended | confidence | as-written member | corrected member |
|---|---|---|---|---|---|---|
| main.py:283-285 with main.py:235-236 | "Delete rows" passes `self.view.selectedIndexes()`, which are indexes of the sorting proxy, to `delete_rows`. `delete_rows` reads `idx.row()` as a position in the unsorted `table` | table rows [10, 20] sorted so the view shows 20 first; selecting view row 0 (showing 20) deletes 10 and keeps 20 | map each selected index to its source row (`mapToSource`) before deleting, so exactly the rows selected on screen are deleted | not executed | Viewer.DeleteSelectedAsWritten, Viewer.AsWrittenDeletesUnselected | Viewer.DeleteSelected, Viewer.DeleteSelectedExactly |
