/** Values held by the `Main` component of src/App.jsx: the student record and
    the pieces of the add/edit form. */
module Records {

  /** A value that may be absent; `None` stands for JavaScript's `null`. */
  datatype Option<+T> = None | Some(value: T)

  /** A student's age as the component holds it. The two initial records carry
      numbers; everything typed into the form is the input element's string value,
      and no conversion is ever made. */
  datatype Age = Num(n: int) | Text(s: string)

  /** The value the age field of the form starts with and is reset to (`''`). */
  const EmptyAge: Age := Text("")

  /** One student ("mahasiswa"): an id, a name ("nama") and an age ("umur"). */
  datatype Record = Record(id: int, nama: string, umur: Age)

  /** JavaScript truthiness of `editId`, which is `null` or a number:
      `null` and `0` are falsy, every other number is truthy. */
  function Truthy(editId: Option<int>): (b: bool)
    ensures !b <==> editId == None || editId == Some(0)
  {
    editId.Some? && editId.value != 0
  }

  /** The heading of the form: it names the edit mode exactly when `editId`
      is truthy. */
  function ModalTitle(editId: Option<int>): (t: string)
    ensures t == "Edit Mahasiswa" <==> Truthy(editId)
    ensures t == "Tambah Mahasiswa" <==> !Truthy(editId)
  {
    if Truthy(editId) then "Edit Mahasiswa" else "Tambah Mahasiswa"
  }
}
