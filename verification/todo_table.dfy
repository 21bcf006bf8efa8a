/** The to-do table behind `fastapizero/routers/todo.py`: the database
    session's `todos` rows, keyed by id, and the autoincrement counter that
    hands out fresh ids. The create, delete and patch endpoints change it in
    place; the listing reads it through `Todos.ListTodos`. `user` is always
    the id of the authenticated caller. */
module TodoTables {
  import opened Wrappers
  import opened Http
  import opened Todos

  class TodoTable {
    var rows: map<int, Todo>
    var nextId: int

    ghost predicate Valid()
      reads this
    {
      WellFormed(rows, nextId)
    }

    /** An empty table whose first row will get id 1. */
    constructor ()
      ensures Valid()
      ensures rows == map[] && nextId == 1
    {
      rows := map[];
      nextId := 1;
    }

    /** `create_todo`: store a new row with the next fresh id, the sent title,
        description and state, owned by the caller. */
    method Create(todo: TodoSchema, user: int) returns (created: Todo)
      requires Valid()
      modifies this
      ensures Valid()
      ensures created.id == old(nextId) && created.id !in old(rows)
      ensures created.title == todo.title && created.description == todo.description && created.state == todo.state
      ensures created.userId == user
      ensures rows == old(rows)[created.id := created]
      ensures nextId == old(nextId) + 1
    {
      created := Todo(nextId, todo.title, todo.description, todo.state, user);
      rows := rows[nextId := created];
      nextId := nextId + 1;
    }

    /** `delete_todo`: remove the caller's row with that id, or fail with
        "Task not found!" and change nothing when the caller has no such row. */
    method Delete(todoId: int, user: int) returns (r: Result<string, HttpException>)
      requires Valid()
      modifies this
      ensures Valid() && nextId == old(nextId)
      ensures r.Ok? <==> todoId in old(rows) && old(rows)[todoId].userId == user
      ensures r.Err? ==> r.error == TaskNotFound && rows == old(rows)
      ensures r.Ok? ==> r.value == TaskDeleted && rows == old(rows) - {todoId}
      ensures forall k :: k in old(rows) && old(rows)[k].userId != user ==> k in rows && rows[k] == old(rows)[k]
    {
      var found := Lookup(rows, todoId, user);
      if found.None? {
        return Err(TaskNotFound);
      }
      rows := rows - {todoId};
      r := Ok(TaskDeleted);
    }

    /** `patch_todo`: on the caller's row with that id, assign each sent field
        in turn; fail with "Task not found!" and change nothing when the caller
        has no such row. */
    method Patch(todoId: int, user: int, todo: TodoUpdate) returns (r: Result<Todo, HttpException>)
      requires Valid()
      modifies this
      ensures Valid() && nextId == old(nextId)
      ensures r.Ok? <==> todoId in old(rows) && old(rows)[todoId].userId == user
      ensures r.Err? ==> r.error == TaskNotFound && rows == old(rows)
      ensures r.Ok? ==> r.value == Patched(old(rows)[todoId], todo) && rows == old(rows)[todoId := r.value]
      ensures forall k :: k in old(rows) && k != todoId ==> k in rows && rows[k] == old(rows)[k]
      ensures forall k :: k in old(rows) && old(rows)[k].userId != user ==> k in rows && rows[k] == old(rows)[k]
    {
      var found := Lookup(rows, todoId, user);
      if found.None? {
        return Err(TaskNotFound);
      }
      var patched := ApplyPatch(found.value, todo);
      rows := rows[todoId := patched];
      r := Ok(patched);
    }
  }

  /** The loop of `patch_todo`: `setattr` each sent field onto the stored row. */
  method ApplyPatch(t: Todo, todo: TodoUpdate) returns (current: Todo)
    ensures current == Patched(t, todo)
  {
    current := t;
    var items := SentFields(todo);
    var i := 0;
    while i < |items|
      invariant 0 <= i <= |items|
      invariant current == Overwrite(t, items[..i])
    {
      assert items[..i + 1][..i] == items[..i];
      current := SetAttr(current, items[i]);
      i := i + 1;
    }
    assert items[..i] == items;
    SetAttrLoopIsPatch(t, todo);
  }

  /** Creating a row and deleting it again as its owner restores the rows. */
  method CreateThenDelete(table: TodoTable, todo: TodoSchema, user: int)
    requires table.Valid()
    modifies table
    ensures table.Valid()
    ensures table.rows == old(table.rows) && table.nextId == old(table.nextId) + 1
  {
    var created := table.Create(todo, user);
    var r := table.Delete(created.id, user);
    assert r.Ok?;
  }

  /** Another user cannot delete or patch a row: both fail as if it were
      missing, and the table is unchanged. */
  method ForeignRowIsUntouchable(table: TodoTable, todoId: int, owner: int, other: int, todo: TodoUpdate)
    requires table.Valid()
    requires todoId in table.rows && table.rows[todoId].userId == owner && other != owner
    modifies table
    ensures table.rows == old(table.rows) && table.nextId == old(table.nextId)
  {
    var d := table.Delete(todoId, other);
    assert d == Err(TaskNotFound);
    var p := table.Patch(todoId, other, todo);
    assert p == Err(TaskNotFound);
  }
}
