/** The multi-select of the dashboard (app/dashboard/page.tsx lines 151-165):
    the new `selectedIds` that `toggleSelect` and `toggleSelectAll` compute from
    the old one, and the invariant they keep, that the selection lists ids of
    shown bookmarks, each once. */
module Selection {
  import opened Seqs
  import opened Records

  /** The filter `(item) => item !== id`. */
  function IsNot(id: Id): Id -> bool {
    (x: Id) => x != id
  }

  /** `toggleSelect(id)`: every occurrence of a selected `id` is dropped; an
      unselected `id` is appended; every other id keeps its membership. */
  function Toggled(sel: seq<Id>, id: Id): (r: seq<Id>)
    ensures id in sel ==> id !in r
    ensures id !in sel ==> r == sel + [id]
    ensures forall x :: x != id ==> (x in r <==> x in sel)
  {
    if id in sel then Filter(sel, IsNot(id)) else sel + [id]
  }

  /** `toggleSelectAll()`: the selection is cleared when it is as long as the
      list of bookmarks, and otherwise becomes the ids of the list, in order. */
  function AllToggled(sel: seq<Id>, bookmarks: seq<Row>): (r: seq<Id>)
    ensures |sel| == |bookmarks| ==> r == []
    ensures |sel| != |bookmarks| ==>
      |r| == |bookmarks| && forall i :: 0 <= i < |r| ==> r[i] == bookmarks[i].id
  {
    if |sel| == |bookmarks| then [] else Ids(bookmarks)
  }

  /** The selection invariant: only ids of shown bookmarks, none twice. */
  ghost predicate Within(sel: seq<Id>, bookmarks: seq<Row>) {
    NoDup(sel) && forall x :: x in sel ==> x in Ids(bookmarks)
  }

  /** Toggling the same id twice restores which ids are selected; when the id
      was not selected it restores the very same list. */
  lemma {:induction false} ToggleTwice(sel: seq<Id>, id: Id)
    ensures forall x :: x in Toggled(Toggled(sel, id), id) <==> x in sel
    ensures id !in sel ==> Toggled(Toggled(sel, id), id) == sel
  {
    if id !in sel {
      var keep := IsNot(id);
      FilterAppend(sel, [id], keep);
      FilterKeepsAll(sel, keep);
      assert Filter([id], keep) == [];
      assert Filter(sel + [id], keep) == sel + [];
    }
  }

  /** Toggling the id of a shown bookmark, as each row's checkbox does, keeps
      the selection invariant. */
  lemma {:induction false} ToggleKeepsWithin(sel: seq<Id>, bookmarks: seq<Row>, id: Id)
    requires Within(sel, bookmarks)
    requires id in Ids(bookmarks)
    ensures Within(Toggled(sel, id), bookmarks)
  {
    if id in sel {
      FilterNoDup(sel, IsNot(id));
    } else {
      var r := sel + [id];
      forall i, j | 0 <= i < j < |r| ensures r[i] != r[j] {
        if j == |sel| {
          assert r[i] == sel[i] && sel[i] in sel;
        } else {
          assert r[i] == sel[i] && r[j] == sel[j];
        }
      }
    }
  }

  /** Toggle-all always yields a selection that satisfies the invariant, even
      when the selection before it did not. */
  lemma {:induction false} ToggleAllKeepsWithin(sel: seq<Id>, bookmarks: seq<Row>)
    requires UniqueIds(bookmarks)
    ensures Within(AllToggled(sel, bookmarks), bookmarks)
  {
    ToggleAllResult(sel, bookmarks);
  }

  /** Toggle-all clears a selection of the same length as the list and
      otherwise selects every shown id, exactly once each. */
  lemma {:induction false} ToggleAllResult(sel: seq<Id>, bookmarks: seq<Row>)
    requires UniqueIds(bookmarks)
    ensures |sel| == |bookmarks| ==> AllToggled(sel, bookmarks) == []
    ensures |sel| != |bookmarks| ==>
      |AllToggled(sel, bookmarks)| == |bookmarks| && NoDup(AllToggled(sel, bookmarks)) &&
      forall x :: x in AllToggled(sel, bookmarks) <==> x in Ids(bookmarks)
  {
    UniqueIdsNoDup(bookmarks);
  }

  /** Under the invariant, comparing lengths (what toggle-all and the
      select-all checkbox do) tells exactly whether every shown id is selected. */
  lemma {:induction false} SameLengthIffAllSelected(sel: seq<Id>, bookmarks: seq<Row>)
    requires Within(sel, bookmarks)
    requires UniqueIds(bookmarks)
    ensures |sel| == |bookmarks| <==> forall x :: x in Ids(bookmarks) ==> x in sel
  {
    var ids := Ids(bookmarks);
    UniqueIdsNoDup(bookmarks);
    NoDupCard(sel);
    NoDupCard(ids);
    var chosen, shown := Elems(sel), Elems(ids);
    assert chosen <= shown;
    if |sel| == |bookmarks| {
      assert |shown - chosen| == |shown| - |chosen|;
      assert shown - chosen == {};
      forall x | x in ids ensures x in sel {
        assert x in shown;
      }
    }
    if forall x :: x in ids ==> x in sel {
      assert shown <= chosen;
      assert chosen == shown;
    }
  }
}
