# Student-record list and its add/edit form

A Dafny model of the `Main` component of `src/App.jsx`, a small admin page that
keeps a list of students ("mahasiswa"). Each student has an id, a name ("nama")
and an age ("umur"). The page has a table with one numbered row per record and an
"Edit" and a "Hapus" (delete) button on each row. A "Tambah Nama" (add) button
opens a modal form. The form's "Simpan" (save) button adds or edits a record, and
its "Batal" (cancel) button closes the form.

- `Records` (records.dfy) holds the values. A record has an `Age`: the two
  initial records have numeric ages, and the form's inputs produce strings, so an
  age is `Num(n)` or `Text(s)`. `Option<int>` models `editId`, where `None` is
  `null`. `Truthy` is JavaScript truthiness of that value; the save dispatch and
  the form heading both test it.
- `MahasiswaList` (mahasiswa_list.dfy) holds the three list transforms as pure
  functions: `Tambah` (the array spread), `Edit` (the `map`) and `Hapus` (the
  `filter`). It also holds the numbered table rows and the lemmas about them.
- `MainComponent` (main_component.dfy) holds the class `Main`. Its five fields are
  the component's state variables. It has one method per event handler. The class
  invariant `Valid` says three things: every id is at least 1; a set `editId` is
  at least 1, so it is truthy and `Simpan` edits exactly when `editId` is set; and
  a hidden form holds an empty draft. Three scenario methods drive the class through short sessions.

Ids are not unique. The code assigns `length + 1`, so after a delete and an add
two records can share an id, and a delete then removes both. The model follows the code:
`IdCollision` and `ScenarioCollision` exhibit the clash. Uniqueness, and
"removes exactly one", are proved only where they hold: on a list whose ids are
unique (`HapusUniqueRemovesOne`), or one still numbered by position
(`HapusNumbered`).

## Model

| member | source | states |
|---|---|---|
| Records.Truthy | src/App.jsx:196 | `editId` counts as false exactly when it is `null` or `0`, as the `editId ? … : …` tests do |
| Records.ModalTitle | src/App.jsx:172 | the form heading reads "Edit Mahasiswa" exactly when `editId` is truthy, "Tambah Mahasiswa" otherwise |
| MahasiswaList.Initial | src/App.jsx:67-70 | the initial list has two records, with id = position + 1 and positive ids |
| MahasiswaList.Tambah | src/App.jsx:77-83 | add appends exactly one record; its id is the old length + 1, its name and age are the draft's; every earlier record is unchanged |
| MahasiswaList.Edit | src/App.jsx:87-91 | edit keeps the length, the order and every id; records whose id equals `editId` take the draft's name and age, all others are unchanged |
| MahasiswaList.Hapus | src/App.jsx:113 | delete shortens the list by exactly the number of records carrying the target id |
| MahasiswaList.HapusMembers | src/App.jsx:113 | a record is in the result of delete exactly when it was in the list and its id differs from the target |
| MahasiswaList.HapusConcat | src/App.jsx:113 | delete distributes over concatenation, so the remaining records keep their relative order |
| MahasiswaList.HapusAbsent | src/App.jsx:113 | delete leaves the list unchanged if and only if no record carries the id |
| MahasiswaList.HapusMultiset | src/App.jsx:113 | after delete every record with the id occurs 0 times and every other record as often as before |
| MahasiswaList.HapusIdempotent | src/App.jsx:113 | deleting the same id twice is the same as deleting it once |
| MahasiswaList.HapusOnly | src/App.jsx:113 | if no other record shares the id of `m`, deleting that id from `pre + [m] + post` gives `pre + post` |
| MahasiswaList.HapusUniqueRemovesOne | src/App.jsx:113 | with unique ids, deleting the id of the record at k gives the list without position k, one shorter |
| MahasiswaList.EditAbsent | src/App.jsx:87-91 | an `editId` that no record carries, `null` included, leaves the list unchanged |
| MahasiswaList.EditIdempotent | src/App.jsx:87-91 | saving the same edit draft twice gives the same list as saving it once |
| MahasiswaList.EditUnchangedDraft | src/App.jsx:87-91 | with unique ids, saving the draft copied from row k unchanged gives back the same list |
| MahasiswaList.TambahIdsPositive | src/App.jsx:77-83 | add keeps every id at least 1 |
| MahasiswaList.EditIdsPositive | src/App.jsx:87-91 | edit keeps every id at least 1 |
| MahasiswaList.HapusIdsPositive | src/App.jsx:113 | delete keeps every id at least 1 |
| MahasiswaList.NumberedPreserved | src/App.jsx:77-91 | add and edit keep id = position + 1, so without deletion ids equal position + 1 |
| MahasiswaList.NumberedUnique | src/App.jsx:79 | a list with id = position + 1 has unique ids |
| MahasiswaList.HapusNumbered | src/App.jsx:113 | on a list with id = position + 1, a delete of id in 1..length removes exactly position id - 1, and any other id removes nothing |
| MahasiswaList.TambahThenHapus | src/App.jsx:77-83 | deleting the id just added restores the list, if no earlier record had that id |
| MahasiswaList.IdCollision | src/App.jsx:67-83 | from the initial list, deleting id 1 and then adding gives two records with id 2, and deleting id 2 then removes both |
| MahasiswaList.Rows | src/App.jsx:139-143 | the table has one row per record; row k shows number k + 1 and the name and age of the record at k |
| MahasiswaList.RowsNumbering | src/App.jsx:139-143 | the displayed row numbers match the ids exactly when id = position + 1 |
| MahasiswaList.RowsAfterCollision | src/App.jsx:139-143 | after the collision the rows are still numbered 1 and 2, though both ids are 2 |
| MainComponent.Main.constructor | src/App.jsx:67-75 | the initial state has the two initial records, the form hidden, the draft empty, `editId` null, and the invariant holds |
| MainComponent.Main.ResetForm | src/App.jsx:95-100 | reset empties the name and age, clears `editId`, hides the form and leaves the list alone |
| MainComponent.Main.TambahMahasiswa | src/App.jsx:77-85 | the list becomes `Tambah` of the old list and the old draft, the form is reset, and the invariant is kept |
| MainComponent.Main.EditMahasiswa | src/App.jsx:87-93 | the list becomes `Edit` of the old list with the old `editId` and draft, the form is reset, and the invariant is kept |
| MainComponent.Main.ConfirmDelete | src/App.jsx:102-117 | a confirmed delete replaces the list by `Hapus` of it; an unconfirmed one changes nothing; the form is untouched |
| MainComponent.Main.OpenTambah | src/App.jsx:124 | the button only shows the form, yet from the hidden state the add form it opens is empty with `editId` null |
| MainComponent.Main.OpenEdit | src/App.jsx:147-152 | opening Edit on row k copies that record's id, name and age into the draft and shows the form |
| MainComponent.Main.SetNewNama | src/App.jsx:176 | typing sets the draft name and changes nothing else |
| MainComponent.Main.SetNewUmur | src/App.jsx:183 | typing sets the draft age to the input's string and changes nothing else |
| MainComponent.Main.Simpan | src/App.jsx:196 | save edits exactly when `editId` is set and adds otherwise; either way the form ends reset and hidden |
| MainComponent.TruthyIsPresent | src/App.jsx:172 | with ids at least 1, `editId` is truthy exactly when it is set, so the heading names the mode in use |
| MainComponent.ScenarioTambahEdit | src/App.jsx:77-93 | adding "Budi"/"19" through the form and renaming record 1 yields records 1 "Gendon Updated" (age 20 kept), 2, and 3 "Budi" |
| MainComponent.ScenarioDelete | src/App.jsx:102-117 | a confirmed delete of id 2 leaves only record 1; a cancelled one leaves both records |
| MainComponent.ScenarioCollision | src/App.jsx:77-117 | deleting id 1 and then adding "Budi" through the form leaves two records with id 2 |

## Left out

- `App`, `Sider`, `Header` and `Footer` (src/App.jsx:5-64, 208-214). They are layout, a sidebar open/closed toggle and an inert "Log Out" button, and none of them touches the record list.
- The SweetAlert2 confirmation dialog (src/App.jsx:103-111) is a foreign library. Only its answer is modelled, as the `isConfirmed` argument of `ConfirmDelete`. The success popup after a delete (line 114) is not modelled, because it changes no state.
- Asynchrony. The dialog answers later, and its callback filters the list captured when "Hapus" was clicked. The model applies the delete at once to the current list.
- React's batching of state updates. The setters in one handler all read the state as it was when the event fired. The model's methods also read the old state before writing, so the end state is the same.
- JSX rendering and CSS. The table is modelled only as its rows (`Rows`), and the form's rendering only as its heading (`ModalTitle`).
- The `type="number"` input's browser coercion. The model takes the input's value as an arbitrary string.
- Duplicate React `key`s after an id collision (line 140). React does not support duplicate keys. A row may then be shown twice or dropped, and the buttons of a leftover row act on the list of an earlier render. That can bring a deleted record back. The model assumes the table shows exactly the current list, one row per record.
- Clicks on the page behind the open form. The model puts no restriction on "Tambah Nama", "Edit" or "Hapus" while the form is open, so they are modelled as always available. The form's inputs and buttons exist only while it is shown, so their methods require `modalVisible`.
