/** The three transforms of the student list in src/App.jsx (`Main`): add
    (array spread), edit (`map`) and delete (`filter`), the numbered table rows,
    and the facts about them: what each changes and what it leaves alone, how ids
    relate to positions, and where ids collide. */
module MahasiswaList {
  import opened Records

  /** The list the component starts with: two records, numbered by position. */
  function Initial(): (r: seq<Record>)
    ensures |r| == 2 && Numbered(r) && IdsPositive(r)
  {
    [Record(1, "Gendon", Num(20)), Record(2, "Gondrong Memet", Num(22))]
  }

  /** Every id is at least 1. */
  predicate IdsPositive(list: seq<Record>) {
    forall x :: x in list ==> x.id >= 1
  }

  /** The id of every record is its position plus one, as it is as long as
      nothing has been deleted. */
  predicate Numbered(list: seq<Record>) {
    forall k :: 0 <= k < |list| ==> list[k].id == k + 1
  }

  /** No two records share an id. */
  predicate IdsUnique(list: seq<Record>) {
    forall i, j :: 0 <= i < j < |list| ==> list[i].id != list[j].id
  }

  /** The number of records whose id is `id`. */
  function CountId(list: seq<Record>, id: int): nat {
    if list == [] then 0
    else (if list[0].id == id then 1 else 0) + CountId(list[1..], id)
  }

  // ---------------------------------------------------------------- add

  /** Add: the draft becomes a new record at the end, with id "length + 1". */
  function Tambah(list: seq<Record>, nama: string, umur: Age): (r: seq<Record>)
    ensures |r| == |list| + 1
    ensures r[..|list|] == list
    ensures r[|list|].id == |list| + 1 && r[|list|].nama == nama && r[|list|].umur == umur
  {
    list + [Record(|list| + 1, nama, umur)]
  }

  // ---------------------------------------------------------------- edit

  /** Edit: every record whose id equals `editId` takes the draft's name and age
      and keeps its id; every other record is left as it was. */
  function Edit(list: seq<Record>, editId: Option<int>, nama: string, umur: Age): (r: seq<Record>)
    ensures |r| == |list|
    ensures forall k :: 0 <= k < |list| ==> r[k].id == list[k].id
    ensures forall k :: 0 <= k < |list| && editId == Some(list[k].id) ==>
              r[k].nama == nama && r[k].umur == umur
    ensures forall k :: 0 <= k < |list| && editId != Some(list[k].id) ==> r[k] == list[k]
  {
    if list == [] then []
    else
      var m := list[0];
      [if editId == Some(m.id) then m.(nama := nama, umur := umur) else m]
        + Edit(list[1..], editId, nama, umur)
  }

  // ---------------------------------------------------------------- delete

  /** Delete: the list without the records whose id is `id`. */
  function Hapus(list: seq<Record>, id: int): (r: seq<Record>)
    ensures |r| + CountId(list, id) == |list|
  {
    if list == [] then []
    else if list[0].id != id then [list[0]] + Hapus(list[1..], id)
    else Hapus(list[1..], id)
  }

  // ---------------------------------------------------------------- table rows

  /** One row of the table: the displayed number, the name and the age. */
  datatype Row = Row(no: int, nama: string, umur: Age)

  /** The table body: row `k` shows the number `k + 1` and the record at `k`. */
  function Rows(list: seq<Record>): (r: seq<Row>)
    ensures |r| == |list|
    ensures forall k :: 0 <= k < |list| ==>
              r[k].no == k + 1 && r[k].nama == list[k].nama && r[k].umur == list[k].umur
  {
    seq(|list|, k requires 0 <= k < |list| => Row(k + 1, list[k].nama, list[k].umur))
  }

  // ---------------------------------------------------------------- delete: lemmas

  /** A record survives delete exactly when it was in the list and has another id. */
  lemma {:induction false} HapusMembers(list: seq<Record>, id: int)
    ensures forall x :: x in Hapus(list, id) <==> x in list && x.id != id
  {
    if list != [] {
      HapusMembers(list[1..], id);
      assert list == [list[0]] + list[1..];
    }
  }

  /** Deleting from a concatenation deletes from each part: the records that
      stay keep their relative order. */
  lemma {:induction false} HapusConcat(a: seq<Record>, b: seq<Record>, id: int)
    ensures Hapus(a + b, id) == Hapus(a, id) + Hapus(b, id)
  {
    if a == [] {
      assert a + b == b;
    } else {
      assert (a + b)[1..] == a[1..] + b;
      HapusConcat(a[1..], b, id);
    }
  }

  /** Deleting an id no record carries leaves the list as it is, and only then. */
  lemma {:induction false} HapusAbsent(list: seq<Record>, id: int)
    ensures Hapus(list, id) == list <==> forall x :: x in list ==> x.id != id
  {
    HapusMembers(list, id);
    if list != [] && forall x :: x in list ==> x.id != id {
      assert forall x :: x in list[1..] ==> x in list;
      HapusAbsent(list[1..], id);
      assert [list[0]] + list[1..] == list;
    }
  }

  /** Each record that stays is kept as many times as it occurred; records with
      the id are all gone. */
  lemma {:induction false} HapusMultiset(list: seq<Record>, id: int, x: Record)
    ensures multiset(Hapus(list, id))[x] == if x.id == id then 0 else multiset(list)[x]
  {
    if list != [] {
      var head, tail := list[0], list[1..];
      HapusMultiset(tail, id, x);
      assert multiset(list) == multiset([head]) + multiset(tail) by {
        assert list == [head] + tail;
      }
      if head.id != id {
        assert multiset(Hapus(list, id)) == multiset([head]) + multiset(Hapus(tail, id));
      }
    }
  }

  /** Deleting twice is deleting once. */
  lemma HapusIdempotent(list: seq<Record>, id: int)
    ensures Hapus(Hapus(list, id), id) == Hapus(list, id)
  {
    HapusAbsent(Hapus(list, id), id);
  }

  /** When ids are unique, no record before or after position `k` has the id
      of the record at `k`. */
  lemma UniqueAround(list: seq<Record>, k: nat)
    requires IdsUnique(list) && k < |list|
    ensures forall x :: x in list[..k] ==> x.id != list[k].id
    ensures forall x :: x in list[k + 1..] ==> x.id != list[k].id
  {
    forall x | x in list[..k] ensures x.id != list[k].id {
      var i :| 0 <= i < k && list[..k][i] == x;
      assert list[i] == x;
    }
    forall x | x in list[k + 1..] ensures x.id != list[k].id {
      var i :| 0 <= i < |list| - k - 1 && list[k + 1..][i] == x;
      assert list[k + 1 + i] == x;
    }
  }

  /** If no record around `m` has its id, deleting that id removes exactly `m`. */
  lemma HapusOnly(pre: seq<Record>, m: Record, post: seq<Record>)
    requires forall x :: x in pre ==> x.id != m.id
    requires forall x :: x in post ==> x.id != m.id
    ensures Hapus(pre + [m] + post, m.id) == pre + post
  {
    calc {
      Hapus(pre + [m] + post, m.id);
      { HapusConcat(pre + [m], post, m.id); }
      Hapus(pre + [m], m.id) + Hapus(post, m.id);
      { HapusConcat(pre, [m], m.id); }
      Hapus(pre, m.id) + Hapus([m], m.id) + Hapus(post, m.id);
      { HapusAbsent(pre, m.id); HapusAbsent(post, m.id);
        assert Hapus([m], m.id) == [] by { assert [m][1..] == []; } }
      pre + [] + post;
    }
    assert pre + [] + post == pre + post;
  }

  /** When ids are unique, deleting the id of the record at `k` removes exactly
      that record: the rest of the list, in order, with length one less. */
  lemma HapusUniqueRemovesOne(list: seq<Record>, k: nat)
    requires IdsUnique(list) && k < |list|
    ensures Hapus(list, list[k].id) == list[..k] + list[k + 1..]
    ensures |Hapus(list, list[k].id)| == |list| - 1
  {
    UniqueAround(list, k);
    assert list == list[..k] + [list[k]] + list[k + 1..];
    HapusOnly(list[..k], list[k], list[k + 1..]);
  }

  // ---------------------------------------------------------------- edit: lemmas

  /** Editing with an id no record carries (in particular a null `editId`)
      leaves the list as it is. */
  lemma EditAbsent(list: seq<Record>, editId: Option<int>, nama: string, umur: Age)
    requires forall x :: x in list ==> editId != Some(x.id)
    ensures Edit(list, editId, nama, umur) == list
  {
    var r := Edit(list, editId, nama, umur);
    forall k | 0 <= k < |list| ensures r[k] == list[k] {
      assert list[k] in list;
    }
  }

  /** Saving the same draft twice is saving it once. */
  lemma EditIdempotent(list: seq<Record>, editId: Option<int>, nama: string, umur: Age)
    ensures Edit(Edit(list, editId, nama, umur), editId, nama, umur) == Edit(list, editId, nama, umur)
  {
  }

  /** When ids are unique, saving the draft that opening Edit on row `k` copied
      (its id, name and age) without changing it gives back the same list. */
  lemma EditUnchangedDraft(list: seq<Record>, k: nat)
    requires IdsUnique(list) && k < |list|
    ensures Edit(list, Some(list[k].id), list[k].nama, list[k].umur) == list
  {
    var r := Edit(list, Some(list[k].id), list[k].nama, list[k].umur);
    forall j | 0 <= j < |list| ensures r[j] == list[j] {
      if j != k {
        assert list[j].id != list[k].id by {
          if j < k { assert list[j].id != list[k].id; } else { assert list[k].id != list[j].id; }
        }
      }
    }
  }

  // ---------------------------------------------------------------- ids

  /** Add keeps every id at least 1. */
  lemma TambahIdsPositive(list: seq<Record>, nama: string, umur: Age)
    requires IdsPositive(list)
    ensures IdsPositive(Tambah(list, nama, umur))
  {
    var t := Tambah(list, nama, umur);
    forall x | x in t ensures x.id >= 1 {
      var i :| 0 <= i < |t| && t[i] == x;
      if i < |list| { assert t[..|list|][i] == x; assert x in list; }
    }
  }

  /** Edit keeps every id at least 1. */
  lemma EditIdsPositive(list: seq<Record>, editId: Option<int>, nama: string, umur: Age)
    requires IdsPositive(list)
    ensures IdsPositive(Edit(list, editId, nama, umur))
  {
    var e := Edit(list, editId, nama, umur);
    forall x | x in e ensures x.id >= 1 {
      var i :| 0 <= i < |e| && e[i] == x;
      assert list[i] in list;
    }
  }

  /** Delete keeps every id at least 1. */
  lemma HapusIdsPositive(list: seq<Record>, id: int)
    requires IdsPositive(list)
    ensures IdsPositive(Hapus(list, id))
  {
    HapusMembers(list, id);
  }

  /** Add and edit keep the list numbered (ids equal to position plus one). */
  lemma NumberedPreserved(list: seq<Record>, editId: Option<int>, nama: string, umur: Age)
    requires Numbered(list)
    ensures Numbered(Tambah(list, nama, umur))
    ensures Numbered(Edit(list, editId, nama, umur))
  {
    var t := Tambah(list, nama, umur);
    forall k | 0 <= k < |t| ensures t[k].id == k + 1 {
      if k < |list| { assert t[..|list|][k] == list[k]; }
    }
  }

  /** A numbered list has unique ids. */
  lemma NumberedUnique(list: seq<Record>)
    requires Numbered(list)
    ensures IdsUnique(list)
  {
  }

  /** On a numbered list, a confirmed delete of an id in `1..|list|` removes
      exactly the record at position `id - 1`; any other id removes nothing. */
  lemma HapusNumbered(list: seq<Record>, id: int)
    requires Numbered(list)
    ensures 1 <= id <= |list| ==> Hapus(list, id) == list[..id - 1] + list[id..]
    ensures !(1 <= id <= |list|) ==> Hapus(list, id) == list
  {
    NumberedUnique(list);
    if 1 <= id <= |list| {
      HapusUniqueRemovesOne(list, id - 1);
    } else {
      forall x | x in list ensures x.id != id {
        var i :| 0 <= i < |list| && list[i] == x;
      }
      HapusAbsent(list, id);
    }
  }

  /** Deleting the id that was just added undoes the add, provided no earlier
      record already carried that id. */
  lemma TambahThenHapus(list: seq<Record>, nama: string, umur: Age)
    requires forall x :: x in list ==> x.id != |list| + 1
    ensures Hapus(Tambah(list, nama, umur), |list| + 1) == list
  {
    var id := |list| + 1;
    HapusConcat(list, [Record(id, nama, umur)], id);
    HapusAbsent(list, id);
    assert Hapus([Record(id, nama, umur)], id) == [];
  }

  /** Ids are not unique in general: from the initial list, deleting id 1 and
      then adding gives two records with id 2, and deleting id 2 then removes
      both of them. */
  lemma IdCollision(nama: string, umur: Age)
    ensures Tambah(Hapus(Initial(), 1), nama, umur)
              == [Record(2, "Gondrong Memet", Num(22)), Record(2, nama, umur)]
    ensures !IdsUnique(Tambah(Hapus(Initial(), 1), nama, umur))
    ensures Hapus(Tambah(Hapus(Initial(), 1), nama, umur), 2) == []
  {
    var init := Initial();
    assert init[1..][1..] == [];
    assert Hapus(init, 1) == [init[1]];
    var l := Tambah(Hapus(init, 1), nama, umur);
    assert l == [init[1], Record(2, nama, umur)];
    assert l[1..][1..] == [];
  }

  // ---------------------------------------------------------------- rows: lemmas

  /** The displayed row numbers agree with the ids exactly when the list is
      numbered; otherwise some row shows a number other than its record's id. */
  lemma RowsNumbering(list: seq<Record>)
    ensures (forall k :: 0 <= k < |list| ==> Rows(list)[k].no == list[k].id) <==> Numbered(list)
  {
  }

  /** After the collision above, the table is still numbered 1, 2 although both
      records have id 2. */
  lemma RowsAfterCollision(nama: string, umur: Age)
    ensures Rows(Tambah(Hapus(Initial(), 1), nama, umur))
              == [Row(1, "Gondrong Memet", Num(22)), Row(2, nama, umur)]
  {
    IdCollision(nama, umur);
  }
}
