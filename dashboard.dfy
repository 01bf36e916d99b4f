/** The dashboard component of app/dashboard/page.tsx as a state machine: its
    React state (the bookmark list, the selection, the single edit slot and the
    add form) becomes the fields of a class, and each event handler a method
    that updates them and, through the remote `Table`, the stored rows. Every
    remote request is one atomic step whose failure is a parameter. */
module DashboardPage {
  import opened Seqs
  import opened UrlFormat
  import opened Records
  import opened Selection

  datatype Option<T> = None | Some(value: T)

  class Dashboard {
    /** The remote table, shared with every other session. It has no access
        policy: a delete by id removes a row whatever its owner. */
    const db: Table
    /** The signed-in user, fixed once the session is established. */
    const user: Id

    var bookmarks: seq<Row>
    var selectedIds: seq<Id>
    var editingId: Option<Id>
    var editTitle: string
    var editUrl: string
    var title: string
    var url: string

    /** Only the user's own bookmarks are shown, ids are unique, and the
        selection lists shown ids, each once. */
    ghost predicate Valid()
      reads this, db
    {
      && db.Valid()
      && UniqueIds(bookmarks)
      && (forall b :: b in bookmarks ==> b.userId == user)
      && Within(selectedIds, bookmarks)
    }

    /** The edit slot: target id, working title, working url. */
    function Edit(): (Option<Id>, string, string)
      reads this
    {
      (editingId, editTitle, editUrl)
    }

    /** The guard of `updateBookmark` (line 111): an edit target that is not
        the empty string, and a title and a url that are not blank, that is,
        not made of spaces alone. */
    function CanCommit(): (ok: bool)
      reads this
      ensures ok <==>
        && editingId.Some? && editingId.value != ""
        && !AllSpace(editTitle) && !AllSpace(editUrl)
    {
      editingId.Some? && editingId.value != "" && Trim(editTitle) != "" && Trim(editUrl) != ""
    }

    /** The state of a freshly mounted dashboard for the signed-in `user`. */
    constructor (db: Table, user: Id)
      requires db.Valid()
      ensures Valid()
      ensures this.db == db && this.user == user
      ensures bookmarks == [] && selectedIds == []
      ensures Edit() == (None, "", "") && title == "" && url == ""
    {
      this.db := db;
      this.user := user;
      bookmarks := [];
      selectedIds := [];
      editingId := None;
      editTitle := "";
      editUrl := "";
      title := "";
      url := "";
    }

    /** `fetchBookmarks(userId)`: on success the list becomes exactly the rows
        owned by `userId`, newest first, and the selection is cleared; on
        failure nothing changes. */
    method FetchBookmarks(userId: Id, fail: bool)
      requires Valid()
      modifies this
      ensures fail ==> bookmarks == old(bookmarks) && selectedIds == old(selectedIds)
      ensures !fail ==> bookmarks == Query(db.rows, userId) && selectedIds == []
      ensures !fail ==>
        && NewestFirst(bookmarks)
        && (forall b :: b in bookmarks <==> b in db.rows && b.userId == userId)
      ensures Edit() == old(Edit()) && title == old(title) && url == old(url)
      ensures fail || userId == user ==> Valid()
    {
      if !fail {
        QueryKeepsUniqueIds(db.rows, userId);
        bookmarks := Query(db.rows, userId);
        selectedIds := [];
      }
    }

    /** The change-feed handler (line 45): any change to the table reloads the
        signed-in user's bookmarks. */
    method OnRemoteChange(fail: bool)
      requires Valid()
      modifies this
      ensures Valid()
      ensures fail ==> bookmarks == old(bookmarks) && selectedIds == old(selectedIds)
      ensures !fail ==> bookmarks == Query(db.rows, user) && selectedIds == []
      ensures Edit() == old(Edit()) && title == old(title) && url == old(url)
    {
      FetchBookmarks(user, fail);
    }

    /** `addBookmark()`: an empty title or url (checked before trimming) stops
        it; otherwise a row owned by the user with the normalised url is
        inserted, with the id `newId` and creation time `now` the table
        assigns, and the form is cleared only when the insert succeeds. The
        list itself waits for the change feed. */
    method AddBookmark(newId: Id, now: int, fail: bool)
      requires Valid()
      modifies this, db
      ensures Valid()
      ensures old(title) == "" || old(url) == "" ==> db.rows == old(db.rows)
      ensures var inserted := old(title) != "" && old(url) != "" && !fail && newId !in Ids(old(db.rows));
        && (inserted ==>
              db.rows == old(db.rows) + [Row(newId, old(title), NormalizeUrl(old(url)), user, now)]
              && title == "" && url == "")
        && (!inserted ==> db.rows == old(db.rows) && title == old(title) && url == old(url))
      ensures bookmarks == old(bookmarks) && selectedIds == old(selectedIds) && Edit() == old(Edit())
    {
      if title == "" || url == "" {
        return;
      }
      var ok := SaveNew(Row(newId, title, NormalizeUrl(url), user, now), fail);
    }

    /** The insert of `addBookmark` (lines 82-92) once the row is built: the
        row is stored unless the request fails, and only then is the add form
        cleared. */
    method SaveNew(row: Row, fail: bool) returns (ok: bool)
      requires Valid()
      modifies this, db
      ensures Valid()
      ensures ok <==> !fail && row.id !in Ids(old(db.rows))
      ensures db.rows == if ok then old(db.rows) + [row] else old(db.rows)
      ensures ok ==> title == "" && url == ""
      ensures !ok ==> title == old(title) && url == old(url)
      ensures bookmarks == old(bookmarks) && selectedIds == old(selectedIds) && Edit() == old(Edit())
    {
      ok := db.Insert(row, fail);
      if ok {
        title := "";
        url := "";
      }
    }

    /** `deleteBookmark(id)`: removes the row with that id, and is a no-op when
        there is none. No local state changes. */
    method DeleteBookmark(id: Id, fail: bool)
      requires Valid()
      modifies db
      ensures Valid()
      ensures db.rows == if fail then old(db.rows) else Filter(old(db.rows), IdIsNot(id))
      ensures forall r :: r in db.rows <==> r in old(db.rows) && (fail || r.id != id)
      ensures id !in Ids(old(db.rows)) ==> db.rows == old(db.rows)
    {
      if id !in Ids(db.rows) {
        forall r | r in db.rows ensures IdIsNot(id)(r) {
          var k :| 0 <= k < |db.rows| && db.rows[k] == r;
          assert Ids(db.rows)[k] == r.id;
        }
        FilterKeepsAll(db.rows, IdIsNot(id));
      }
      db.DeleteWhereId(id, fail);
    }

    /** `deleteSelected()`: nothing happens with an empty selection; otherwise
        one request deletes every selected id and the selection is cleared
        whatever the request's outcome. */
    method DeleteSelected(fail: bool)
      requires Valid()
      modifies this, db
      ensures Valid()
      ensures selectedIds == []
      ensures old(selectedIds) == [] || fail ==> db.rows == old(db.rows)
      ensures old(selectedIds) != [] && !fail ==> db.rows == Filter(old(db.rows), IdNotIn(old(selectedIds)))
      ensures forall r :: r in db.rows <==> r in old(db.rows) && (fail || r.id !in old(selectedIds))
      ensures bookmarks == old(bookmarks) && Edit() == old(Edit()) && title == old(title) && url == old(url)
    {
      if |selectedIds| == 0 {
        return;
      }
      db.DeleteWhereIdIn(selectedIds, fail);
      selectedIds := [];
    }

    /** `updateBookmark()`: when the guard fails nothing changes. Otherwise the
        update touches only rows with the edited id that the user owns, setting
        the trimmed title and the normalised url. A failed update keeps the edit
        slot for a retry; a successful one empties it and reloads. */
    method UpdateBookmark(fail: bool, fetchFail: bool)
      requires Valid()
      modifies this, db
      ensures Valid()
      ensures title == old(title) && url == old(url)
      ensures !old(CanCommit()) || fail ==>
        db.rows == old(db.rows) && Edit() == old(Edit()) &&
        bookmarks == old(bookmarks) && selectedIds == old(selectedIds)
      ensures old(CanCommit()) && !fail ==>
        && db.rows == Patched(old(db.rows), old(editingId).value, user, Trim(old(editTitle)), NormalizeUrl(old(editUrl)))
        && Edit() == (None, "", "")
        && (fetchFail ==> bookmarks == old(bookmarks) && selectedIds == old(selectedIds))
        && (!fetchFail ==> bookmarks == Query(db.rows, user) && selectedIds == [])
    {
      if !CanCommit() {
        return;
      }
      var ok := SaveEdit(Trim(editTitle), NormalizeUrl(editUrl), fail);
      if ok {
        FetchBookmarks(user, fetchFail);
      }
    }

    /** The write of `updateBookmark` (lines 125-144) once the cleaned-up
        title `t` and url `u` are known: the update scoped to the edit target
        and the user, then, only when it succeeds, the emptied edit slot. */
    method SaveEdit(t: string, u: string, fail: bool) returns (ok: bool)
      requires Valid() && editingId.Some?
      modifies this, db
      ensures Valid()
      ensures ok == !fail
      ensures bookmarks == old(bookmarks) && selectedIds == old(selectedIds)
      ensures title == old(title) && url == old(url)
      ensures fail ==> db.rows == old(db.rows) && Edit() == old(Edit())
      ensures !fail ==>
        && db.rows == Patched(old(db.rows), old(editingId).value, user, t, u)
        && Edit() == (None, "", "")
    {
      ok := db.UpdateWhere(editingId.value, user, t, u, fail);
      if ok {
        editingId, editTitle, editUrl := None, "", "";
      }
    }

    /** `toggleSelect(id)` (the checkbox of a row). It keeps the selection
        invariant when `id` is shown, as it always is when a row calls it. */
    method ToggleSelect(id: Id)
      requires Valid()
      modifies this
      ensures selectedIds == Toggled(old(selectedIds), id)
      ensures bookmarks == old(bookmarks) && Edit() == old(Edit()) && title == old(title) && url == old(url)
      ensures id in Ids(bookmarks) ==> Valid()
    {
      if id in Ids(bookmarks) {
        ToggleKeepsWithin(selectedIds, bookmarks, id);
      }
      selectedIds := Toggled(selectedIds, id);
    }

    /** `toggleSelectAll()`: clears a selection as long as the list, otherwise
        selects every shown id; the invariant is kept either way. */
    method ToggleSelectAll()
      requires Valid()
      modifies this
      ensures Valid()
      ensures selectedIds == AllToggled(old(selectedIds), bookmarks)
      ensures bookmarks == old(bookmarks) && Edit() == old(Edit()) && title == old(title) && url == old(url)
    {
      ToggleAllKeepsWithin(selectedIds, bookmarks);
      selectedIds := AllToggled(selectedIds, bookmarks);
    }

    /** The Edit button of a row (lines 289-293): the slot is seeded from the
        bookmark, replacing any edit in progress. */
    method BeginEdit(b: Row)
      requires Valid()
      modifies this
      ensures Valid()
      ensures Edit() == (Some(b.id), b.title, b.url)
      ensures bookmarks == old(bookmarks) && selectedIds == old(selectedIds)
      ensures title == old(title) && url == old(url)
    {
      editingId := Some(b.id);
      editTitle := b.title;
      editUrl := b.url;
    }

    /** The Cancel button (line 264): only the target is cleared; the working
        title and url stay as they were. */
    method CancelEdit()
      requires Valid()
      modifies this
      ensures Valid()
      ensures editingId == None && editTitle == old(editTitle) && editUrl == old(editUrl)
      ensures bookmarks == old(bookmarks) && selectedIds == old(selectedIds)
      ensures title == old(title) && url == old(url)
    {
      editingId := None;
    }
  }

  /** On an empty table, adding "Test" with url "example.com" and then
      reloading shows exactly one bookmark, with the url given a scheme. */
  method AddThenLoad() returns (shown: seq<Row>)
    ensures shown == [Row("b1", "Test", "https://example.com", "u1", 1)]
  {
    var db := new Table();
    var page := new Dashboard(db, "u1");
    page.title := "Test";
    page.url := "example.com";
    BareHostGainsScheme();
    page.AddBookmark("b1", 1, false);
    var row := Row("b1", "Test", "https://example.com", "u1", 1);
    assert db.rows == [row];
    assert Filter([row], OwnedBy("u1")) == [row];
    assert SortNewestFirst([row]) == [row];
    page.FetchBookmarks("u1", false);
    shown := page.bookmarks;
  }
}
