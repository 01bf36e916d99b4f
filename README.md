# Bookmark dashboard: a verified model of the collection controller

The bookmark manager's dashboard (`app/dashboard/page.tsx`) keeps the signed-in
user's bookmarks in React state. It writes through a remote `bookmarks` table
and reloads the whole list whenever the table reports a change. This project
models that component as a sequential state machine and proves what each
handler does to its state and to the table.

- `seqs.dfy` (module `Seqs`): an order-preserving `Filter`, used both for
  JavaScript's `Array.prototype.filter` and for the table's row filters. Also
  the "no repeated value / key" predicates and their lemmas.
- `url_format.dfy` (module `UrlFormat`): JavaScript's `String.prototype.trim`
  with the ECMAScript whitespace and line-terminator set, and the url
  normalisation done before an add or an update. The source writes this twice
  (lines 75-80 and 117-124); here it is `NormalizeUrl`, and its idempotence is
  proved.
- `records.dfy` (module `Records`): a table row (`id`, `title`, `url`,
  `user_id`, `created_at`), and the owner-filtered, newest-first read of
  `fetchBookmarks`. That read is an insertion sort proved sorted and a
  permutation. The module also has the scoped update and the deletes. Class
  `Table` is the remote table. Its invariant is the primary key.
- `selection.dfy` (module `Selection`): the new selection computed by
  `toggleSelect` and `toggleSelectAll`. Also the invariant "the selection lists
  shown ids, each once".
- `dashboard.dfy` (module `DashboardPage`): class `Dashboard`. Its fields are
  the component's state: `bookmarks`, `selectedIds`, the edit slot `editingId`
  / `editTitle` / `editUrl`, and the add form `title` / `url`. Each handler is
  a method.

Each remote request is one atomic step on the `Table` object. Whether it
fails is a `bool` parameter. The row id and the creation time that the
database assigns on insert are parameters too (`newId`, `now`). An insert
whose id is already taken fails, as a primary-key violation does. `created_at`
is a timestamp string in the source. Only its order matters, so it is an
`int` here.

Behaviours of the code worth noting:

- A reload clears the selection; it does not prune it.
- `addBookmark` checks the untrimmed title and url for emptiness. So a url of
  spaces passes and is stored as `https://` (`BlankUrlBecomesBareScheme`).
- `updateBookmark` also refuses an edit target that is the empty string,
  because JavaScript treats `""` as false.
- Cancel clears only `editingId`. The working title and url stay.
- A batch delete does not reload afterwards.
- The edit target need not stay in the list: a reload can remove it while an
  edit is open. So no invariant claims otherwise.

## Model

| member | source | states |
|---|---|---|
| `UrlFormat.TrimStart` | app/dashboard/page.tsx:75 | the result is a suffix of the input, everything cut is whitespace, and it does not start with whitespace |
| `UrlFormat.TrimEnd` | app/dashboard/page.tsx:75 | the result is a prefix of the input, everything cut is whitespace, and it does not end with whitespace |
| `UrlFormat.TrimIsInfix` | app/dashboard/page.tsx:117 | `trim()` removes spaces only at the ends: its result is a slice of the input with nothing but spaces before and after it |
| `UrlFormat.Trim` | app/dashboard/page.tsx:117 | `trim()` leaves no whitespace at either end, returns an already trimmed string unchanged, and is empty exactly when the input is all whitespace |
| `UrlFormat.NormalizeUrl` | app/dashboard/page.tsx:75-80 | the stored url always starts with `http://` or `https://` and is trimmed; a trimmed url that already has one of the two schemes passes through unchanged, any other gets `https://` in front |
| `UrlFormat.NormalizeUrlIdempotent` | app/dashboard/page.tsx:117-124 | normalising twice equals normalising once |
| `UrlFormat.BlankUrlBecomesBareScheme` | app/dashboard/page.tsx:73-80 | a whitespace-only url, which the untrimmed emptiness check lets through, is stored as `https://` |
| `UrlFormat.BareHostGainsScheme` | app/dashboard/page.tsx:78-80 | `example.com` becomes `https://example.com` |
| `UrlFormat.NoSchemeGainsHttps` | app/dashboard/page.tsx:78-80 | a trimmed url whose first character is not `h` cannot start with either scheme, so it gains `https://` |
| `UrlFormat.HttpUrlKept` | app/dashboard/page.tsx:78 | `http://x` is kept as it is |
| `Seqs.Filter` | app/dashboard/page.tsx:154 | `filter` keeps exactly the elements that satisfy the predicate and never lengthens the list |
| `Seqs.FilterCounts` | app/dashboard/page.tsx:154 | every occurrence of a kept element stays and no occurrence of a dropped one does |
| `Seqs.FilterAppend` | app/dashboard/page.tsx:154 | filtering a concatenation filters each part and joins them in order; with `Seqs.FilterSingleton` (one element stays exactly when it passes) this fixes the kept elements' original order |
| `Records.Ids` | app/dashboard/page.tsx:163 | `bookmarks.map((b) => b.id)`: one id per bookmark, position by position |
| `Records.SortNewestFirst` | app/dashboard/page.tsx:63 | `order("created_at", { ascending: false })` returns a permutation of its input, newest first |
| `Records.Query` | app/dashboard/page.tsx:59-63 | the read returns the rows owned by the user and no other row, each as often as the table holds it, newest first |
| `Records.QueryKeepsUniqueIds` | app/dashboard/page.tsx:59-63 | the read of a table with unique ids returns unique ids |
| `Records.OtherOwnersInvisible` | app/dashboard/page.tsx:42-45 | rows of other users, inserted anywhere in the table, never change what a user reads, although they also trigger the change feed |
| `Records.QueryOnlyOwnRows` | app/dashboard/page.tsx:59-63 | what a user reads depends only on the rows that user owns |
| `Records.Patched` | app/dashboard/page.tsx:126-133 | the update changes only rows whose id is the target and whose owner is the user; it sets their title and url, and no id, owner or creation time changes |
| `Records.PatchedKeepsOthersRows` | app/dashboard/page.tsx:126-133 | an update scoped to one user leaves every row of any other user as it was, in the same order |
| `Records.UpdateInvisibleToOthers` | app/dashboard/page.tsx:132-133 | whatever id the edit targets, even another user's row id, one user's update never changes what another user reads |
| `Records.Table.Insert` | app/dashboard/page.tsx:82-84 | the row is appended unless the request fails or its id is taken; the primary key is kept |
| `Records.Table.DeleteWhereId` | app/dashboard/page.tsx:98 | on success exactly the rows with other ids remain |
| `Records.Table.DeleteWhereIdIn` | app/dashboard/page.tsx:105 | on success exactly the rows whose id is not listed remain |
| `Records.Table.UpdateWhere` | app/dashboard/page.tsx:126-133 | on success the rows become the scoped update of the old rows; a filter that matches nothing is not an error |
| `Selection.Toggled` | app/dashboard/page.tsx:151-157 | a selected id is removed (every occurrence), an unselected one is appended, and every other id keeps its membership |
| `Selection.AllToggled` | app/dashboard/page.tsx:159-165 | `toggleSelectAll` empties a selection as long as the list, and otherwise selects the ids of the list position by position |
| `Selection.ToggleTwice` | app/dashboard/page.tsx:151-157 | toggling an id twice restores which ids are selected, and restores the exact list when the id was not selected |
| `Selection.ToggleKeepsWithin` | app/dashboard/page.tsx:273-277 | toggling the id of a shown row keeps the selection within the shown ids, without repeats |
| `Selection.ToggleAllResult` | app/dashboard/page.tsx:159-165 | toggle-all clears a selection as long as the list; otherwise it selects every shown id exactly once |
| `Selection.ToggleAllKeepsWithin` | app/dashboard/page.tsx:159-165 | toggle-all always yields a selection within the shown ids, without repeats |
| `Selection.SameLengthIffAllSelected` | app/dashboard/page.tsx:223 | under the selection invariant, "as long as the list" holds exactly when every shown id is selected, so the length comparison is a correct "all selected" test |
| `DashboardPage.Dashboard.constructor` | app/dashboard/page.tsx:14-22 | the initial state: empty list, empty selection, closed edit slot, empty form |
| `DashboardPage.Dashboard.FetchBookmarks` | app/dashboard/page.tsx:58-69 | on success the list becomes exactly the user's rows, newest first, replacing the old list, and the selection is emptied; on failure neither changes; the invariant holds after a reload for the signed-in user |
| `DashboardPage.Dashboard.OnRemoteChange` | app/dashboard/page.tsx:42-45 | a change notification performs a full reload for the signed-in user |
| `DashboardPage.Dashboard.AddBookmark` | app/dashboard/page.tsx:72-93 | an empty title or url inserts nothing; otherwise a row owned by the user with the normalised url is inserted, and the form is cleared only on success; list, selection and edit slot are unchanged |
| `DashboardPage.Dashboard.SaveNew` | app/dashboard/page.tsx:82-92 | the built row is stored unless the request fails or its id is taken, and the form is cleared exactly when it is stored |
| `DashboardPage.Dashboard.DeleteBookmark` | app/dashboard/page.tsx:97-99 | the rows with that id are deleted; an absent id is a no-op; no local state changes |
| `DashboardPage.Dashboard.DeleteSelected` | app/dashboard/page.tsx:102-107 | an empty selection changes nothing; otherwise every selected id is deleted in one request, and the selection is empty whatever the outcome |
| `DashboardPage.Dashboard.CanCommit` | app/dashboard/page.tsx:111 | the edit may be saved exactly when there is a target that is not `""` and neither the title nor the url consists of spaces alone |
| `DashboardPage.Dashboard.UpdateBookmark` | app/dashboard/page.tsx:110-148 | a missing target or a blank title or url changes nothing; otherwise only the user's row with the target id gets the trimmed title and normalised url; on success the edit slot is emptied and the list reloaded; on failure the slot is kept |
| `DashboardPage.Dashboard.SaveEdit` | app/dashboard/page.tsx:125-144 | the scoped update with the cleaned-up title and url; the edit slot is emptied exactly when the request succeeds, and the list and selection are untouched |
| `DashboardPage.Dashboard.ToggleSelect` | app/dashboard/page.tsx:151-157 | the selection becomes its toggle by the id; the invariant is kept for the id of a shown row |
| `DashboardPage.Dashboard.ToggleSelectAll` | app/dashboard/page.tsx:159-165 | the selection becomes its toggle-all against the list; the invariant is kept |
| `DashboardPage.Dashboard.BeginEdit` | app/dashboard/page.tsx:289-293 | the edit slot is seeded from the bookmark, replacing any open edit, and nothing else changes |
| `DashboardPage.Dashboard.CancelEdit` | app/dashboard/page.tsx:264 | only `editingId` is cleared; the working title and url stay |
| `DashboardPage.AddThenLoad` | app/dashboard/page.tsx:72-93 | on an empty table, adding `Test` / `example.com` and reloading shows exactly one bookmark, whose url is `https://example.com` |

## Left out

- The session start is not modelled: the `getUser` call, the redirect when nobody is signed in, and the `loading` flag (lines 22, 28-38, 172-178). A `Dashboard` is constructed for an established user; the first load is a call to `FetchBookmarks`.
- The realtime channel is modelled only as "a notification runs a reload" (`OnRemoteChange`). Subscribing and removing the channel on unmount (lines 40-54) is event plumbing.
- Logout (lines 167-170) is a library call plus a redirect.
- `app/page.tsx` holds only the Google sign-in redirect, a library call with no logic.
- The `onChange` handlers of the inputs (lines 201, 207, 249, 255) only store the typed text. The fields are public, and a caller assigns them directly.
- Alerts, `console.error` and rendering are not modelled.
- Asynchrony is not modelled. Each handler is one atomic step, and in-flight requests do not interleave with reloads.
- A batch delete is all-or-nothing. The database may apply it partially.
- Among rows with equal `created_at` the model keeps table order, because `SortNewestFirst` is a stable insertion sort. The reload's contracts inherit that order. The database may return such rows in any order.
- The table has no access policy. The source's deletes (lines 98 and 105) filter by id only and rely on the database's row-level policy, which is not part of this model. So in the model a delete by id removes a row whatever its owner, and a `Dashboard` can delete another user's row when given its id. Updates are scoped to the owner in the code itself (line 133), and the model keeps that.
- The database generates row ids and creation times. Here they are parameters.
