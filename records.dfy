/** The remote `bookmarks` table as the dashboard sees it: rows owned by a user
    and stamped with a creation time, the filtered and ordered read that
    `fetchBookmarks` issues (app/dashboard/page.tsx lines 59-63), and the
    insert, delete and update requests of the other handlers. Each request is
    one atomic step; whether it fails is a parameter. */
module Records {
  import opened Seqs

  /** Row ids and user ids are opaque strings. */
  type Id = string

  /** One row: its id, the two fields a user edits, the owner (`user_id`) and
      the creation time (`created_at`), of which only the order matters. */
  datatype Row = Row(id: Id, title: string, url: string, userId: Id, createdAt: int)

  function RowId(r: Row): Id { r.id }

  /** The ids of `rows`, position by position (`rows.map((b) => b.id)`). */
  function Ids(rows: seq<Row>): (ids: seq<Id>)
    ensures |ids| == |rows|
    ensures forall i :: 0 <= i < |rows| ==> ids[i] == rows[i].id
  {
    seq(|rows|, i requires 0 <= i < |rows| => rows[i].id)
  }

  /** No two rows share an id: the table's primary key. */
  ghost predicate UniqueIds(rows: seq<Row>) {
    DistinctBy(rows, RowId)
  }

  /** Rows with unique ids have an id list without repetitions. */
  lemma UniqueIdsNoDup(rows: seq<Row>)
    requires UniqueIds(rows)
    ensures NoDup(Ids(rows))
  {
    var ids := Ids(rows);
    forall i, j | 0 <= i < j < |ids| ensures ids[i] != ids[j] {
      assert RowId(rows[i]) != RowId(rows[j]);
    }
  }

  /** Ordered by `created_at`, newest first. */
  ghost predicate NewestFirst(rows: seq<Row>) {
    forall i, j :: 0 <= i < j < |rows| ==> rows[i].createdAt >= rows[j].createdAt
  }

  /** Where `x` goes among the newest-first `rows`: just before the first row
      that is not newer than it. */
  function Slot(x: Row, rows: seq<Row>): (k: nat)
    ensures k <= |rows|
    ensures forall i :: 0 <= i < k ==> rows[i].createdAt > x.createdAt
    ensures k < |rows| ==> rows[k].createdAt <= x.createdAt
  {
    if rows == [] || rows[0].createdAt <= x.createdAt then 0
    else 1 + Slot(x, rows[1..])
  }

  /** `rows` with `x` put in its newest-first place. */
  function InsertNewestFirst(x: Row, rows: seq<Row>): (r: seq<Row>)
    ensures |r| == |rows| + 1
    ensures multiset(r) == multiset(rows) + multiset{x}
    ensures NewestFirst(rows) ==> NewestFirst(r)
  {
    var k := Slot(x, rows);
    assert rows == rows[..k] + rows[k..];
    assert NewestFirst(rows) ==> NewestFirst(rows[..k] + [x] + rows[k..]) by {
      if NewestFirst(rows) {
        InsertKeepsOrder(x, rows, k);
      }
    }
    rows[..k] + [x] + rows[k..]
  }

  /** Putting `x` at the slot `k` that `Slot` picks keeps newest-first order. */
  lemma InsertKeepsOrder(x: Row, rows: seq<Row>, k: nat)
    requires NewestFirst(rows)
    requires k == Slot(x, rows)
    ensures NewestFirst(rows[..k] + [x] + rows[k..])
  {
    var front, back := rows[..k], rows[k..];
    NewestFirstSlice(rows, 0, k);
    NewestFirstSlice(rows, k, |rows|);
    assert front == rows[0..k] && back == rows[k..|rows|];
    JoinNewestFirst(front, [x]);
    forall p, q | 0 <= p < |front + [x]| && 0 <= q < |back|
      ensures (front + [x])[p].createdAt >= back[q].createdAt
    {
      assert back[q].createdAt <= x.createdAt by {
        assert back[q] == rows[k + q];
        assert rows[k].createdAt >= rows[k + q].createdAt;
      }
      if p < k {
        assert (front + [x])[p] == rows[p];
      }
    }
    JoinNewestFirst(front + [x], back);
  }

  /** A slice of a newest-first run is newest first. */
  lemma NewestFirstSlice(rows: seq<Row>, lo: nat, hi: nat)
    requires NewestFirst(rows) && lo <= hi <= |rows|
    ensures NewestFirst(rows[lo..hi])
  {
    var s := rows[lo..hi];
    forall i, j | 0 <= i < j < |s| ensures s[i].createdAt >= s[j].createdAt {
      assert s[i] == rows[lo + i] && s[j] == rows[lo + j];
    }
  }

  /** Two newest-first runs, the first no older than the second throughout,
      join into one newest-first run. */
  lemma JoinNewestFirst(a: seq<Row>, b: seq<Row>)
    requires NewestFirst(a) && NewestFirst(b)
    requires forall p, q :: 0 <= p < |a| && 0 <= q < |b| ==> a[p].createdAt >= b[q].createdAt
    ensures NewestFirst(a + b)
  {
    var r := a + b;
    forall i, j | 0 <= i < j < |r| ensures r[i].createdAt >= r[j].createdAt {
      if j < |a| {
        assert r[i] == a[i] && r[j] == a[j];
      } else if i < |a| {
        assert r[i] == a[i] && r[j] == b[j - |a|];
      } else {
        assert r[i] == b[i - |a|] && r[j] == b[j - |a|];
      }
    }
  }

  /** The rows of `rows`, reordered newest first. Rows with the same creation
      time keep their table order (the sort is stable); the database itself
      promises no order among them. */
  function SortNewestFirst(rows: seq<Row>): (r: seq<Row>)
    ensures |r| == |rows|
    ensures multiset(r) == multiset(rows)
    ensures NewestFirst(r)
  {
    if rows == [] then []
    else
      assert rows == [rows[0]] + rows[1..];
      InsertNewestFirst(rows[0], SortNewestFirst(rows[1..]))
  }

  /** Inserting a row whose id is new keeps ids unique. */
  lemma {:induction false} InsertKeepsUniqueIds(x: Row, rows: seq<Row>)
    requires UniqueIds(rows)
    requires forall y :: y in rows ==> y.id != x.id
    ensures UniqueIds(InsertNewestFirst(x, rows))
  {
    var k := Slot(x, rows);
    var r := InsertNewestFirst(x, rows);
    forall i, j | 0 <= i < j < |r| ensures RowId(r[i]) != RowId(r[j]) {
      var a := if i < k then rows[i] else if i == k then x else rows[i - 1];
      var b := if j < k then rows[j] else if j == k then x else rows[j - 1];
      assert r[i] == a && r[j] == b;
      if i != k && j != k {
        var ii := if i < k then i else i - 1;
        var jj := if j < k then j else j - 1;
        assert ii < jj && a == rows[ii] && b == rows[jj];
      }
    }
  }

  /** Sorting keeps ids unique. */
  lemma {:induction false} SortKeepsUniqueIds(rows: seq<Row>)
    requires UniqueIds(rows)
    ensures UniqueIds(SortNewestFirst(rows))
  {
    if rows != [] {
      var tail := rows[1..];
      DistinctByTail(rows, RowId);
      SortKeepsUniqueIds(tail);
      var sorted := SortNewestFirst(tail);
      forall y | y in sorted ensures y.id != rows[0].id {
        assert y in multiset(sorted);
        assert y in tail;
        assert RowId(y) != RowId(rows[0]);
      }
      InsertKeepsUniqueIds(rows[0], sorted);
    }
  }

  /** The filter `.eq("user_id", owner)`. */
  function OwnedBy(owner: Id): Row -> bool {
    (r: Row) => r.userId == owner
  }

  /** The filter `.eq("id", id)`, negated: the rows a delete by id keeps. */
  function IdIsNot(id: Id): Row -> bool {
    (r: Row) => r.id != id
  }

  /** The filter `.in("id", ids)`, negated: the rows a delete by ids keeps. */
  function IdNotIn(ids: seq<Id>): Row -> bool {
    (r: Row) => r.id !in ids
  }

  /** The read of `fetchBookmarks`: the rows owned by `owner`, newest first.
      Its result holds exactly those rows, each as often as the table does. */
  function Query(rows: seq<Row>, owner: Id): (r: seq<Row>)
    ensures NewestFirst(r)
    ensures multiset(r) == multiset(Filter(rows, OwnedBy(owner)))
    ensures forall x :: x in r <==> x in rows && x.userId == owner
  {
    var owned := Filter(rows, OwnedBy(owner));
    var r := SortNewestFirst(owned);
    forall x ensures x in r <==> x in rows && x.userId == owner {
      calc {
        x in r;
        x in multiset(r);
        x in multiset(owned);
        x in owned;
      }
    }
    r
  }

  /** The read returns rows with unique ids when the table has them. */
  lemma QueryKeepsUniqueIds(rows: seq<Row>, owner: Id)
    requires UniqueIds(rows)
    ensures UniqueIds(Query(rows, owner))
  {
    FilterDistinctBy(rows, OwnedBy(owner), RowId);
    SortKeepsUniqueIds(Filter(rows, OwnedBy(owner)));
  }

  /** Rows written for other users, wherever they sit in the table, do not
      change what `owner` reads, which is why the dashboard may reload on
      every change notification for the whole table. */
  lemma {:induction false} OtherOwnersInvisible(front: seq<Row>, extra: seq<Row>, back: seq<Row>, owner: Id)
    requires forall x :: x in extra ==> x.userId != owner
    ensures Query(front + extra + back, owner) == Query(front + back, owner)
  {
    var keep := OwnedBy(owner);
    FilterAppend(front + extra, back, keep);
    FilterAppend(front, extra, keep);
    FilterAppend(front, back, keep);
    FilterKeepsNone(extra, keep);
    assert Filter(front, keep) + [] == Filter(front, keep);
    assert Filter(front + extra + back, keep) == Filter(front + back, keep);
  }

  /** What `owner` reads depends on nothing but the rows `owner` owns. */
  lemma {:induction false} QueryOnlyOwnRows(rows: seq<Row>, owner: Id)
    ensures Query(rows, owner) == Query(Filter(rows, OwnedBy(owner)), owner)
  {
    var owned := Filter(rows, OwnedBy(owner));
    FilterKeepsAll(owned, OwnedBy(owner));
  }

  /** The update `.update({ title, url }).eq("id", id).eq("user_id", owner)`:
      only rows matching both filters change, and only in title and url. */
  function Patched(rows: seq<Row>, id: Id, owner: Id, title: string, url: string): (r: seq<Row>)
    ensures |r| == |rows|
    ensures forall i :: 0 <= i < |rows| ==>
      r[i].id == rows[i].id && r[i].userId == rows[i].userId && r[i].createdAt == rows[i].createdAt
    ensures forall i :: 0 <= i < |rows| && rows[i].userId != owner ==> r[i] == rows[i]
    ensures forall i :: 0 <= i < |rows| && rows[i].id != id ==> r[i] == rows[i]
    ensures forall i :: 0 <= i < |rows| && rows[i].id == id && rows[i].userId == owner ==>
      r[i].title == title && r[i].url == url
  {
    seq(|rows|, i requires 0 <= i < |rows| =>
      if rows[i].id == id && rows[i].userId == owner then rows[i].(title := title, url := url)
      else rows[i])
  }

  /** An update scoped to `owner` leaves the rows another user owns exactly as
      they were, in the same order. */
  lemma {:induction false} PatchedKeepsOthersRows(rows: seq<Row>, id: Id, owner: Id, other: Id, title: string, url: string)
    requires other != owner
    ensures Filter(Patched(rows, id, owner, title, url), OwnedBy(other)) == Filter(rows, OwnedBy(other))
  {
    if rows != [] {
      var p := Patched(rows, id, owner, title, url);
      assert p[1..] == Patched(rows[1..], id, owner, title, url);
      PatchedKeepsOthersRows(rows[1..], id, owner, other, title, url);
      assert OwnedBy(other)(p[0]) == OwnedBy(other)(rows[0]);
    }
  }

  /** However the edit target is chosen, even as the id of someone else's
      row, one user's update never changes what another user reads. */
  lemma UpdateInvisibleToOthers(rows: seq<Row>, id: Id, owner: Id, other: Id, title: string, url: string)
    requires other != owner
    ensures Query(Patched(rows, id, owner, title, url), other) == Query(rows, other)
  {
    PatchedKeepsOthersRows(rows, id, owner, other, title, url);
  }

  /** The remote table. Its invariant is the primary key. */
  class Table {
    var rows: seq<Row>

    ghost predicate Valid()
      reads this
    {
      UniqueIds(rows)
    }

    constructor ()
      ensures Valid() && rows == []
    {
      rows := [];
    }

    /** `insert([row])`: refused when the request fails or the id is taken. */
    method Insert(row: Row, fail: bool) returns (ok: bool)
      requires Valid()
      modifies this
      ensures Valid()
      ensures ok <==> !fail && row.id !in Ids(old(rows))
      ensures rows == if ok then old(rows) + [row] else old(rows)
    {
      ok := !fail && row.id !in Ids(rows);
      if ok {
        var r := rows + [row];
        forall i, j | 0 <= i < j < |r| ensures RowId(r[i]) != RowId(r[j]) {
          if j == |rows| {
            assert Ids(rows)[i] == r[i].id;
          } else {
            assert r[i] == rows[i] && r[j] == rows[j];
          }
        }
        rows := r;
      }
    }

    /** `delete().eq("id", id)`. */
    method DeleteWhereId(id: Id, fail: bool)
      requires Valid()
      modifies this
      ensures Valid()
      ensures rows == if fail then old(rows) else Filter(old(rows), IdIsNot(id))
    {
      if !fail {
        FilterDistinctBy(rows, IdIsNot(id), RowId);
        rows := Filter(rows, IdIsNot(id));
      }
    }

    /** `delete().in("id", ids)`: one request, applied whole or not at all. */
    method DeleteWhereIdIn(ids: seq<Id>, fail: bool)
      requires Valid()
      modifies this
      ensures Valid()
      ensures rows == if fail then old(rows) else Filter(old(rows), IdNotIn(ids))
    {
      if !fail {
        FilterDistinctBy(rows, IdNotIn(ids), RowId);
        rows := Filter(rows, IdNotIn(ids));
      }
    }

    /** `update({ title, url }).eq("id", id).eq("user_id", owner)`. A filter
        that matches no row is not an error. */
    method UpdateWhere(id: Id, owner: Id, title: string, url: string, fail: bool) returns (ok: bool)
      requires Valid()
      modifies this
      ensures Valid()
      ensures ok == !fail
      ensures rows == if ok then Patched(old(rows), id, owner, title, url) else old(rows)
    {
      ok := !fail;
      if ok {
        var r := Patched(rows, id, owner, title, url);
        forall i, j | 0 <= i < j < |r| ensures RowId(r[i]) != RowId(r[j]) {
          assert RowId(rows[i]) != RowId(rows[j]);
        }
        rows := r;
      }
    }
  }
}
