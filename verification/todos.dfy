/** The to-do records of `fastapizero/routers/todo.py` and the pure parts of
    its endpoints: the owner-scoped lookup shared by delete and patch, the
    filters, scan and pagination of the listing, and the field-by-field
    overwrite performed by a patch. */
module Todos {
  import opened Wrappers
  import opened Http

  /** A stored to-do row. `userId` is the owner's id; timestamps are not modelled. */
  datatype Todo = Todo(id: int, title: string, description: string, state: string, userId: int)

  /** The body of a create request: it carries no owner and no id. */
  datatype TodoSchema = TodoSchema(title: string, description: string, state: string)

  /** The body of a patch request: a field is `Some` exactly when the client sent it. */
  datatype TodoUpdate = TodoUpdate(title: Option<string>, description: Option<string>, state: Option<string>)

  /** The query parameters of a listing that restrict which rows are returned. */
  datatype Query = Query(title: Option<string>, description: Option<string>, state: Option<string>)

  /** The fields a patch may assign. */
  datatype Field = Title | Description | State

  /** One `setattr(db_todo, key, value)` of the patch loop. */
  datatype Assignment = Assignment(field: Field, value: string)

  const TaskNotFound := HttpException(NOT_FOUND, "Task not found!")
  const TaskDeleted := "Task deleted!"

  /** The invariant of the table: every row is stored under its own id, ids
      start at 1 (an autoincrement column) and lie below the next fresh id. */
  predicate WellFormed(rows: map<int, Todo>, nextId: int) {
    && 1 <= nextId
    && forall k :: k in rows ==> rows[k].id == k && 1 <= k < nextId
  }

  /** The rows owned by `user`: everything an endpoint called by `user` may see. */
  function OwnedBy(rows: map<int, Todo>, user: int): map<int, Todo> {
    map k | k in rows && rows[k].userId == user :: rows[k]
  }

  // ---------------------------------------------------------------------------
  // Owner-scoped lookup (`select(Todo).where(Todo.id == todo_id, Todo.user_id == user.id)`)

  /** The lookup finds a row exactly when the row exists and belongs to the
      caller, and then it yields the stored row. */
  function Lookup(rows: map<int, Todo>, todoId: int, user: int): (r: Option<Todo>)
    ensures r.Some? <==> todoId in OwnedBy(rows, user)
    ensures r.Some? ==> r.value == rows[todoId] && r.value.userId == user
  {
    if todoId in rows && rows[todoId].userId == user then Some(rows[todoId]) else None
  }

  /** Another user's row looks exactly like a missing one: removing it from
      the table does not change what the lookup answers. */
  lemma ForeignTodoLooksMissing(rows: map<int, Todo>, todoId: int, user: int)
    requires todoId in rows && rows[todoId].userId != user
    ensures Lookup(rows, todoId, user) == Lookup(rows - {todoId}, todoId, user) == None
  {
  }

  /** The lookup depends only on the caller's own rows. */
  lemma LookupSeesOnlyOwnRows(rows: map<int, Todo>, todoId: int, user: int)
    ensures Lookup(rows, todoId, user) == Lookup(OwnedBy(rows, user), todoId, user)
  {
  }

  // ---------------------------------------------------------------------------
  // Listing filters

  /** Python truthiness of an optional string parameter: `None` and `''` are false. */
  predicate Active(filter: Option<string>) {
    filter.Some? && filter.value != ""
  }

  /** `part` occurs in `s` as a contiguous substring (SQL `LIKE '%part%'`,
      case-sensitive): `s` splits as a prefix, then `part`, then a suffix. */
  predicate Contains(s: string, part: string): (c: bool)
    ensures c <==> exists pre, post :: s == pre + part + post
  {
    OccursIffSplit(s, part);
    exists i :: 0 <= i <= |s| - |part| && OccursAt(s, part, i)
  }

  predicate OccursAt(s: string, part: string, i: int) {
    0 <= i <= |s| - |part| && s[i..i + |part|] == part
  }

  /** The row satisfies every filter the query switches on: each active text
      filter occurs in its field, an active state filter equals the state. */
  predicate Matches(t: Todo, q: Query): (m: bool)
    ensures m <==>
      && (Active(q.title) ==> exists pre, post :: t.title == pre + q.title.value + post)
      && (Active(q.description) ==> exists pre, post :: t.description == pre + q.description.value + post)
      && (Active(q.state) ==> t.state == q.state.value)
  {
    && (Active(q.title) ==> Contains(t.title, q.title.value))
    && (Active(q.description) ==> Contains(t.description, q.description.value))
    && (Active(q.state) ==> t.state == q.state.value)
  }

  /** The WHERE clause of the listing: the caller's row, and it matches the query. */
  predicate Selects(t: Todo, user: int, q: Query) {
    t.userId == user && Matches(t, q)
  }

  const NoFilter := Query(None, None, None)

  function OnlyTitle(q: Query): Query { Query(q.title, None, None) }
  function OnlyDescription(q: Query): Query { Query(None, q.description, None) }
  function OnlyState(q: Query): Query { Query(None, None, q.state) }

  /** An absent or empty filter restricts nothing; each filter, once switched
      on, is exactly the substring or equality test of its own field. */
  lemma FilterSemantics(t: Todo, q: Query)
    ensures !Active(q.title) && !Active(q.description) && !Active(q.state) ==> Matches(t, q)
    ensures Matches(t, NoFilter)
    ensures Active(q.title) ==> (Matches(t, OnlyTitle(q)) <==> Contains(t.title, q.title.value))
    ensures Active(q.description) ==> (Matches(t, OnlyDescription(q)) <==> Contains(t.description, q.description.value))
    ensures Active(q.state) ==> (Matches(t, OnlyState(q)) <==> t.state == q.state.value)
  {
  }

  /** `part` occurs at some index of `s` exactly when some split of `s` puts
      `part` in the middle. */
  lemma OccursIffSplit(s: string, part: string)
    ensures (exists i :: 0 <= i <= |s| - |part| && OccursAt(s, part, i)) <==>
      exists pre, post :: s == pre + part + post
  {
    if exists i :: 0 <= i <= |s| - |part| && OccursAt(s, part, i) {
      var i :| 0 <= i <= |s| - |part| && OccursAt(s, part, i);
      assert s == s[..i] + part + s[i + |part|..];
    }
    if exists pre, post :: s == pre + part + post {
      var pre, post :| s == pre + part + post;
      assert OccursAt(s, part, |pre|);
    }
  }

  // ---------------------------------------------------------------------------
  // Scanning the table

  /** The rows with ids in [lo, hi) that the listing's WHERE clause selects,
      in ascending id order. */
  function Scan(rows: map<int, Todo>, user: int, q: Query, lo: int, hi: int): (r: seq<Todo>)
    requires forall k :: k in rows ==> rows[k].id == k
    decreases hi - lo
    ensures forall i :: 0 <= i < |r| ==>
      && r[i].id in rows && rows[r[i].id] == r[i]
      && lo <= r[i].id < hi
      && Selects(r[i], user, q)
    ensures forall k :: lo <= k < hi && k in rows && Selects(rows[k], user, q) ==> rows[k] in r
    ensures forall i, j :: 0 <= i < j < |r| ==> r[i].id < r[j].id
  {
    if hi <= lo then []
    else if lo in rows && Selects(rows[lo], user, q) then [rows[lo]] + Scan(rows, user, q, lo + 1, hi)
    else Scan(rows, user, q, lo + 1, hi)
  }

  /** Two tables that hold the same rows for `user` scan the same for `user`. */
  lemma {:induction false} ScanSeesOnlyOwnRows(rows1: map<int, Todo>, rows2: map<int, Todo>, user: int, q: Query, lo: int, hi: int)
    requires forall k :: k in rows1 ==> rows1[k].id == k
    requires forall k :: k in rows2 ==> rows2[k].id == k
    requires OwnedBy(rows1, user) == OwnedBy(rows2, user)
    decreases hi - lo
    ensures Scan(rows1, user, q, lo, hi) == Scan(rows2, user, q, lo, hi)
  {
    if lo < hi {
      ScanSeesOnlyOwnRows(rows1, rows2, user, q, lo + 1, hi);
      var o1, o2 := OwnedBy(rows1, user), OwnedBy(rows2, user);
      assert lo in rows1 && rows1[lo].userId == user <==> lo in o1;
      assert lo in rows2 && rows2[lo].userId == user <==> lo in o2;
      if lo in o1 {
        assert rows1[lo] == o1[lo] == o2[lo] == rows2[lo];
      }
    }
  }

  /** Widening the scanned range past every selected row adds nothing. */
  lemma {:induction false} ScanPastSelectedRows(rows: map<int, Todo>, user: int, q: Query, lo: int, hi: int, hi': int)
    requires forall k :: k in rows ==> rows[k].id == k
    requires hi <= hi'
    requires forall k :: k in rows && Selects(rows[k], user, q) ==> k < hi
    decreases hi' - lo
    ensures Scan(rows, user, q, lo, hi) == Scan(rows, user, q, lo, hi')
  {
    if lo < hi {
      ScanPastSelectedRows(rows, user, q, lo + 1, hi, hi');
    } else if lo < hi' {
      ScanPastSelectedRows(rows, user, q, lo + 1, hi, hi');
    }
  }

  // ---------------------------------------------------------------------------
  // Pagination (`query.offset(offset).limit(limit)`)

  function Min(a: int, b: int): int { if a <= b then a else b }

  /** Drop the first `offset` rows, then keep at most `limit`; `None` means no
      offset or no limit. */
  function Paginate<T>(s: seq<T>, offset: Option<nat>, limit: Option<nat>): (r: seq<T>)
    ensures var skip := offset.GetOr(0);
      && (skip >= |s| ==> r == [])
      && (skip < |s| && limit.None? ==> |r| == |s| - skip)
      && (skip < |s| && limit.Some? ==> |r| == Min(limit.value, |s| - skip))
      && forall i :: 0 <= i < |r| ==> skip + i < |s| && r[i] == s[skip + i]
  {
    var rest := s[Min(offset.GetOr(0), |s|)..];
    match limit
    case None => rest
    case Some(n) => if n < |rest| then rest[..n] else rest
  }

  // ---------------------------------------------------------------------------
  // The listing (`list_todos`)

  /** The caller's rows that pass the query, in id order, paginated. */
  function ListTodos(rows: map<int, Todo>, nextId: int, user: int, q: Query, offset: Option<nat>, limit: Option<nat>): (r: seq<Todo>)
    requires WellFormed(rows, nextId)
    ensures forall t :: t in r ==> t.id in rows && rows[t.id] == t && t.userId == user && Matches(t, q)
    ensures limit.Some? ==> |r| <= limit.value
    ensures offset.None? && limit.None? ==>
      forall k :: k in rows && Selects(rows[k], user, q) ==> rows[k] in r
    ensures forall i, j :: 0 <= i < j < |r| ==> r[i].id < r[j].id
  {
    var all := Scan(rows, user, q, 1, nextId);
    var r := Paginate(all, offset, limit);
    assert forall i, j :: 0 <= i < j < |r| ==> r[i] == all[offset.GetOr(0) + i] && r[j] == all[offset.GetOr(0) + j];
    r
  }

  /** The paginated listing is the window of the full filtered listing that
      starts `offset` rows in and holds at most `limit` rows. */
  lemma ListingIsWindow(rows: map<int, Todo>, nextId: int, user: int, q: Query, offset: Option<nat>, limit: Option<nat>)
    requires WellFormed(rows, nextId)
    ensures ListTodos(rows, nextId, user, q, offset, limit)
         == Paginate(ListTodos(rows, nextId, user, q, None, None), offset, limit)
  {
  }

  /** Without filters and pagination the listing is exactly the caller's rows. */
  lemma UnfilteredListingIsOwnRows(rows: map<int, Todo>, nextId: int, user: int, t: Todo)
    requires WellFormed(rows, nextId)
    ensures t in ListTodos(rows, nextId, user, NoFilter, None, None) <==>
      t.id in rows && rows[t.id] == t && t.userId == user
  {
    if t.id in rows && rows[t.id] == t && t.userId == user {
      assert Selects(rows[t.id], user, NoFilter);
    }
  }

  /** Filters combine as a conjunction: a row is listed under the full query
      exactly when it is listed under each of its filters alone. */
  lemma FiltersAreConjunctive(rows: map<int, Todo>, nextId: int, user: int, q: Query, t: Todo)
    requires WellFormed(rows, nextId)
    ensures t in ListTodos(rows, nextId, user, q, None, None) <==>
      && t in ListTodos(rows, nextId, user, OnlyTitle(q), None, None)
      && t in ListTodos(rows, nextId, user, OnlyDescription(q), None, None)
      && t in ListTodos(rows, nextId, user, OnlyState(q), None, None)
  {
    var all := ListTodos(rows, nextId, user, q, None, None);
    var ti := ListTodos(rows, nextId, user, OnlyTitle(q), None, None);
    var de := ListTodos(rows, nextId, user, OnlyDescription(q), None, None);
    var st := ListTodos(rows, nextId, user, OnlyState(q), None, None);
    if t in all {
      assert Selects(rows[t.id], user, OnlyTitle(q));
      assert Selects(rows[t.id], user, OnlyDescription(q));
      assert Selects(rows[t.id], user, OnlyState(q));
    }
    if t in ti && t in de && t in st {
      assert Selects(rows[t.id], user, q);
    }
  }

  /** The listing depends only on the caller's own rows: whatever other users
      change or delete is invisible to it (their creates: `OthersCreateIsInvisible`). */
  lemma ListingSeesOnlyOwnRows(rows1: map<int, Todo>, rows2: map<int, Todo>, nextId: int, user: int, q: Query, offset: Option<nat>, limit: Option<nat>)
    requires WellFormed(rows1, nextId) && WellFormed(rows2, nextId)
    requires OwnedBy(rows1, user) == OwnedBy(rows2, user)
    ensures ListTodos(rows1, nextId, user, q, offset, limit) == ListTodos(rows2, nextId, user, q, offset, limit)
  {
    ScanSeesOnlyOwnRows(rows1, rows2, user, q, 1, nextId);
  }

  /** A row created by one user, under the next fresh id, leaves every other
      user's listing unchanged. */
  lemma OthersCreateIsInvisible(rows: map<int, Todo>, nextId: int, created: Todo, user: int, q: Query, offset: Option<nat>, limit: Option<nat>)
    requires WellFormed(rows, nextId)
    requires created.id == nextId && created.userId != user
    ensures WellFormed(rows[nextId := created], nextId + 1)
    ensures ListTodos(rows[nextId := created], nextId + 1, user, q, offset, limit)
         == ListTodos(rows, nextId, user, q, offset, limit)
  {
    var rows' := rows[nextId := created];
    assert OwnedBy(rows', user) == OwnedBy(rows, user);
    ScanSeesOnlyOwnRows(rows', rows, user, q, 1, nextId + 1);
    ScanPastSelectedRows(rows, user, q, 1, nextId, nextId + 1);
  }

  // ---------------------------------------------------------------------------
  // Patching (`for key, value in todo.model_dump(exclude_unset=True).items(): setattr(...)`)

  /** The value the patch sends for a field, if any. */
  function Sent(p: TodoUpdate, f: Field): Option<string> {
    match f
    case Title => p.title
    case Description => p.description
    case State => p.state
  }

  /** The fields the client set, in declaration order, with their values:
      `model_dump(exclude_unset=True).items()`. */
  function SentFields(p: TodoUpdate): (r: seq<Assignment>)
    ensures forall i :: 0 <= i < |r| ==> Sent(p, r[i].field) == Some(r[i].value)
    ensures forall i, j :: 0 <= i < j < |r| ==> r[i].field != r[j].field
    ensures forall f :: Sent(p, f).Some? ==> Assignment(f, Sent(p, f).value) in r
  {
    (if p.title.Some? then [Assignment(Title, p.title.value)] else [])
    + (if p.description.Some? then [Assignment(Description, p.description.value)] else [])
    + (if p.state.Some? then [Assignment(State, p.state.value)] else [])
  }

  function Get(t: Todo, f: Field): string {
    match f
    case Title => t.title
    case Description => t.description
    case State => t.state
  }

  /** One `setattr`: overwrite a single field, keep the rest of the row. */
  function SetAttr(t: Todo, a: Assignment): (r: Todo)
    ensures Get(r, a.field) == a.value
    ensures forall f :: f != a.field ==> Get(r, f) == Get(t, f)
    ensures r.id == t.id && r.userId == t.userId
  {
    match a.field
    case Title => t.(title := a.value)
    case Description => t.(description := a.value)
    case State => t.(state := a.value)
  }

  /** The row after performing the assignments in order: each field holds
      its last assigned value, or its old value if it was never assigned; id
      and owner never change. */
  function Overwrite(t: Todo, items: seq<Assignment>): (r: Todo)
    decreases |items|
    ensures forall f :: Get(r, f) == LastWrite(items, f).GetOr(Get(t, f))
    ensures r.id == t.id && r.userId == t.userId
  {
    if items == [] then t else SetAttr(Overwrite(t, items[..|items| - 1]), items[|items| - 1])
  }

  /** The value of the last assignment to `f`, if any. */
  function LastWrite(items: seq<Assignment>, f: Field): Option<string>
    decreases |items|
  {
    if items == [] then None
    else if items[|items| - 1].field == f then Some(items[|items| - 1].value)
    else LastWrite(items[..|items| - 1], f)
  }

  /** The intended effect of a patch: every sent field takes the sent value;
      every other field, the id and the owner keep theirs. */
  function Patched(t: Todo, p: TodoUpdate): (r: Todo)
    ensures r.id == t.id && r.userId == t.userId
    ensures forall f :: Get(r, f) == Sent(p, f).GetOr(Get(t, f))
    ensures p == TodoUpdate(None, None, None) ==> r == t
  {
    Todo(t.id, p.title.GetOr(t.title), p.description.GetOr(t.description), p.state.GetOr(t.state), t.userId)
  }

  /** With distinct fields, the last write to a field is its only write. */
  lemma {:induction false} LastWriteOfDistinct(items: seq<Assignment>, f: Field)
    requires forall i, j :: 0 <= i < j < |items| ==> items[i].field != items[j].field
    decreases |items|
    ensures LastWrite(items, f).Some? <==> exists i :: 0 <= i < |items| && items[i].field == f
    ensures forall i :: 0 <= i < |items| && items[i].field == f ==> LastWrite(items, f) == Some(items[i].value)
  {
    if items != [] {
      var init := items[..|items| - 1];
      LastWriteOfDistinct(init, f);
      assert forall i :: 0 <= i < |init| ==> init[i] == items[i];
    }
  }

  /** The `setattr` loop over the sent fields computes exactly the patch. */
  lemma SetAttrLoopIsPatch(t: Todo, p: TodoUpdate)
    ensures Overwrite(t, SentFields(p)) == Patched(t, p)
  {
    var items := SentFields(p);
    var r := Overwrite(t, items);
    forall f: Field ensures Get(r, f) == Get(Patched(t, p), f) {
      LastWriteOfDistinct(items, f);
    }
    assert r.title == Get(r, Title) && r.description == Get(r, Description) && r.state == Get(r, State);
  }
}
