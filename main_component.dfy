/** The `Main` component of src/App.jsx: the student list and the add/edit form
    as mutable state, with one method per event handler. The list itself is only
    ever replaced by a new list built by the transforms of MahasiswaList. */
module MainComponent {
  import opened Records
  import opened MahasiswaList

  class Main {
    /** The records shown in the table. */
    var mahasiswaList: seq<Record>
    /** Whether the add/edit form is shown. */
    var modalVisible: bool
    /** The draft name in the form. */
    var newNama: string
    /** The draft age in the form. */
    var newUmur: Age
    /** The id of the record being edited; `None` while adding. */
    var editId: Option<int>

    /** Whenever the form is hidden, the draft is empty and no record is being edited. */
    ghost predicate FormClosedIsEmpty()
      reads this
    {
      !modalVisible ==> newNama == "" && newUmur == EmptyAge && editId == None
    }

    /** The object invariant: ids are positive (so an `editId` taken from a row is
        truthy) and a hidden form holds an empty draft. */
    ghost predicate Valid()
      reads this
    {
      IdsPositive(mahasiswaList)
      && (editId.Some? ==> editId.value >= 1)
      && FormClosedIsEmpty()
    }

    /** The component's initial state: two records, the form hidden and empty. */
    constructor()
      ensures Valid()
      ensures mahasiswaList == Initial()
      ensures !modalVisible && newNama == "" && newUmur == EmptyAge && editId == None
    {
      mahasiswaList := Initial();
      modalVisible := false;
      newNama := "";
      newUmur := EmptyAge;
      editId := None;
    }

    /** Clears the draft and hides the form; used after saving and by "Batal". */
    method ResetForm()
      modifies this
      ensures mahasiswaList == old(mahasiswaList)
      ensures !modalVisible && newNama == "" && newUmur == EmptyAge && editId == None
      ensures Valid() <==> IdsPositive(mahasiswaList)
    {
      newNama := "";
      newUmur := EmptyAge;
      editId := None;
      modalVisible := false;
    }

    /** Save in add mode: appends the draft as a new record, then resets the form. */
    method TambahMahasiswa()
      requires Valid()
      modifies this
      ensures mahasiswaList == Tambah(old(mahasiswaList), old(newNama), old(newUmur))
      ensures !modalVisible && newNama == "" && newUmur == EmptyAge && editId == None
      ensures Valid()
    {
      TambahIdsPositive(mahasiswaList, newNama, newUmur);
      mahasiswaList := Tambah(mahasiswaList, newNama, newUmur);
      ResetForm();
    }

    /** Save in edit mode: writes the draft into the records whose id is `editId`,
        then resets the form. */
    method EditMahasiswa()
      requires Valid()
      modifies this
      ensures mahasiswaList == Edit(old(mahasiswaList), old(editId), old(newNama), old(newUmur))
      ensures !modalVisible && newNama == "" && newUmur == EmptyAge && editId == None
      ensures Valid()
    {
      EditIdsPositive(mahasiswaList, editId, newNama, newUmur);
      mahasiswaList := Edit(mahasiswaList, editId, newNama, newUmur);
      ResetForm();
    }

    /** "Hapus" on a row: once the dialog's answer `isConfirmed` is known, a
        confirmed delete removes every record with that id; otherwise nothing changes. */
    method ConfirmDelete(id: int, isConfirmed: bool)
      requires Valid()
      modifies this
      ensures mahasiswaList == if isConfirmed then Hapus(old(mahasiswaList), id) else old(mahasiswaList)
      ensures modalVisible == old(modalVisible) && newNama == old(newNama)
      ensures newUmur == old(newUmur) && editId == old(editId)
      ensures Valid()
    {
      if isConfirmed {
        HapusIdsPositive(mahasiswaList, id);
        mahasiswaList := Hapus(mahasiswaList, id);
      }
    }

    /** "Tambah Nama": only shows the form. Because a hidden form is always
        empty, opening it from the hidden state gives an empty add form. */
    method OpenTambah()
      requires Valid()
      modifies this
      ensures modalVisible
      ensures mahasiswaList == old(mahasiswaList) && newNama == old(newNama)
      ensures newUmur == old(newUmur) && editId == old(editId)
      ensures !old(modalVisible) ==> newNama == "" && newUmur == EmptyAge && editId == None
      ensures Valid()
    {
      modalVisible := true;
    }

    /** "Edit" on row `k`: copies that record's id, name and age into the draft
        and shows the form. */
    method OpenEdit(k: nat)
      requires Valid() && k < |mahasiswaList|
      modifies this
      ensures mahasiswaList == old(mahasiswaList) && modalVisible
      ensures editId == Some(mahasiswaList[k].id)
      ensures newNama == mahasiswaList[k].nama && newUmur == mahasiswaList[k].umur
      ensures Valid()
    {
      assert mahasiswaList[k] in mahasiswaList;
      editId := Some(mahasiswaList[k].id);
      newNama := mahasiswaList[k].nama;
      newUmur := mahasiswaList[k].umur;
      modalVisible := true;
    }

    /** Typing in the name field of the form. */
    method SetNewNama(value: string)
      requires Valid() && modalVisible
      modifies this
      ensures newNama == value
      ensures mahasiswaList == old(mahasiswaList) && modalVisible
      ensures newUmur == old(newUmur) && editId == old(editId)
      ensures Valid()
    {
      newNama := value;
    }

    /** Typing in the age field of the form: the input hands over a string. */
    method SetNewUmur(value: string)
      requires Valid() && modalVisible
      modifies this
      ensures newUmur == Text(value)
      ensures mahasiswaList == old(mahasiswaList) && modalVisible
      ensures newNama == old(newNama) && editId == old(editId)
      ensures Valid()
    {
      newUmur := Text(value);
    }

    /** "Simpan": dispatches on the truthiness of `editId`, which under the
        invariant is edit exactly when a record is being edited and add otherwise. */
    method Simpan()
      requires Valid() && modalVisible
      modifies this
      ensures mahasiswaList ==
                if old(editId).Some?
                then Edit(old(mahasiswaList), old(editId), old(newNama), old(newUmur))
                else Tambah(old(mahasiswaList), old(newNama), old(newUmur))
      ensures !modalVisible && newNama == "" && newUmur == EmptyAge && editId == None
      ensures Valid()
    {
      if Truthy(editId) {
        EditMahasiswa();
      } else {
        TambahMahasiswa();
      }
    }
  }

  /** Under the invariant's bound on `editId`, truthiness is presence, so the
      form's heading and the save dispatch both follow whether a record is being edited. */
  lemma TruthyIsPresent(editId: Option<int>)
    requires editId.Some? ==> editId.value >= 1
    ensures Truthy(editId) <==> editId.Some?
    ensures ModalTitle(editId) == (if editId.Some? then "Edit Mahasiswa" else "Tambah Mahasiswa")
  {
  }

  /** Adding "Budi" aged "19" and then renaming record 1 through the form. */
  method ScenarioTambahEdit() returns (list: seq<Record>)
    ensures list == [Record(1, "Gendon Updated", Num(20)), Record(2, "Gondrong Memet", Num(22)),
                     Record(3, "Budi", Text("19"))]
  {
    var m := new Main();
    m.OpenTambah();
    m.SetNewNama("Budi");
    m.SetNewUmur("19");
    m.Simpan();
    assert m.mahasiswaList == Initial() + [Record(3, "Budi", Text("19"))];
    m.OpenEdit(0);
    m.SetNewNama("Gendon Updated");
    m.Simpan();
    list := m.mahasiswaList;
  }

  /** Deleting id 2: a confirmed delete leaves only record 1, a cancelled one
      leaves the list as it was. */
  method ScenarioDelete(isConfirmed: bool) returns (list: seq<Record>)
    ensures isConfirmed ==> list == [Record(1, "Gendon", Num(20))]
    ensures !isConfirmed ==> list == Initial()
  {
    var m := new Main();
    m.ConfirmDelete(2, isConfirmed);
    list := m.mahasiswaList;
    if isConfirmed {
      HapusNumbered(Initial(), 2);
    }
  }

  /** Deleting id 1 and then adding a record through the form gives two records
      with id 2. */
  method ScenarioCollision() returns (list: seq<Record>)
    ensures list == [Record(2, "Gondrong Memet", Num(22)), Record(2, "Budi", Text("19"))]
    ensures !IdsUnique(list)
  {
    var m := new Main();
    m.ConfirmDelete(1, true);
    m.OpenTambah();
    m.SetNewNama("Budi");
    m.SetNewUmur("19");
    m.Simpan();
    IdCollision("Budi", Text("19"));
    list := m.mahasiswaList;
  }
}
