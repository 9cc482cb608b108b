/**
 * The todo store: the rows of the `todos` table with the database's id
 * sequence and clock, and the five queries and writes the handlers use.
 */
module Crud {
  import opened Wrappers
  import opened Models
  import opened Schemas

  /** Why the database refused a commit. */
  datatype DbError =
    /** A title with a character other than a space beyond the `String(200)` width. */
    TitleTooLong

  /** The `ORDER BY created_at DESC` order: non-increasing creation time. */
  ghost predicate NewestFirst(s: seq<Todo>) {
    forall i, j :: 0 <= i < j < |s| ==> s[i].createdAt >= s[j].createdAt
  }

  /** Every row is stored under its own id. */
  ghost predicate KeyedById(m: map<int, Todo>) {
    forall k :: k in m ==> m[k].id == k
  }

  /** The rows stored under the keys `ks`. */
  ghost function RowsAt(m: map<int, Todo>, ks: set<int>): set<Todo>
    requires ks <= m.Keys
  {
    set k | k in ks :: m[k]
  }

  /** Places `t` in a newest-first list, before the first row that is not newer. */
  function InsertNewestFirst(t: Todo, s: seq<Todo>): (r: seq<Todo>)
    ensures multiset(r) == multiset(s) + multiset{t}
  {
    if s == [] || t.createdAt >= s[0].createdAt then [t] + s
    else
      assert s == [s[0]] + s[1..];
      [s[0]] + InsertNewestFirst(t, s[1..])
  }

  /** Inserting into a newest-first list keeps it newest first. */
  lemma {:induction false} InsertKeepsNewestFirst(t: Todo, s: seq<Todo>)
    requires NewestFirst(s)
    ensures NewestFirst(InsertNewestFirst(t, s))
  {
    if s != [] && t.createdAt < s[0].createdAt {
      var rest := InsertNewestFirst(t, s[1..]);
      InsertKeepsNewestFirst(t, s[1..]);
      forall x | x in rest ensures x.createdAt <= s[0].createdAt {
        assert x in multiset(rest);
        if x != t {
          assert x in multiset(s[1..]);
          MemberAt(x, s[1..]);
        }
      }
    }
  }

  /** Membership in a sequence names a position. */
  lemma MemberAt<T>(x: T, s: seq<T>)
    requires x in s
    ensures exists i :: 0 <= i < |s| && s[i] == x
  {
  }

  /** A non-empty set has a member. */
  lemma SomeMember(p: set<int>)
    requires p != {}
    ensures exists x :: x in p
  {
    if forall x :: x !in p {
      assert false;
    }
  }

  /** A value of a map is stored under some key. */
  lemma SomeKeyFor(m: map<int, Todo>, v: Todo)
    requires v in m.Values
    ensures exists k :: k in m && m[k] == v
  {
    if forall k :: k in m ==> m[k] != v {
      assert false;
    }
  }

  /** Adding one more key of a keyed map adds exactly its row. */
  lemma RowsAtAddKey(m: map<int, Todo>, ks: set<int>, k: int)
    requires KeyedById(m)
    requires ks <= m.Keys && k in m && k !in ks
    ensures multiset(RowsAt(m, ks + {k})) == multiset(RowsAt(m, ks)) + multiset{m[k]}
  {
  }

  /** Over all keys, the rows are the map's values. */
  lemma RowsAtAllKeys(m: map<int, Todo>)
    ensures RowsAt(m, m.Keys) == m.Values
  {
    forall v | v in m.Values ensures v in RowsAt(m, m.Keys) {
      SomeKeyFor(m, v);
    }
  }

  /** A newest-first list whose row `t` is strictly newer than all others starts with `t`. */
  lemma NewestRowListedFirst(r: seq<Todo>, t: Todo)
    requires NewestFirst(r) && t in r
    requires forall x :: x in r && x != t ==> x.createdAt < t.createdAt
    ensures r[0] == t
  {
  }

  /** The row after a partial update: each field whose update value is not `None` is overwritten. */
  function Merged(t: Todo, u: TodoUpdate): (r: Todo)
    ensures r.id == t.id && r.createdAt == t.createdAt
    ensures u.title.Some? ==> r.title == u.title.value
    ensures u.title.None? ==> r.title == t.title
    ensures u.description.Some? ==> r.description == u.description
    ensures u.description.None? ==> r.description == t.description
    ensures u.isCompleted.Some? ==> r.isCompleted == u.isCompleted.value
    ensures u.isCompleted.None? ==> r.isCompleted == t.isCompleted
  {
    t.(title := u.title.GetOr(t.title),
       description := if u.description.None? then t.description else u.description,
       isCompleted := u.isCompleted.GetOr(t.isCompleted))
  }

  /** The row after a series of partial updates, applied in order. */
  function MergedAll(t: Todo, us: seq<TodoUpdate>): Todo
    decreases |us|
  {
    if us == [] then t else MergedAll(Merged(t, us[0]), us[1..])
  }

  /** An update body with no fields changes nothing. */
  lemma EmptyUpdateChangesNothing(t: Todo)
    ensures Merged(t, TodoUpdate()) == t
  {
  }

  /** `TodoUpdate(is_completed=b)` changes only the completion status. */
  lemma CompletionOnlyUpdate(t: Todo, b: bool)
    ensures Merged(t, TodoUpdate(isCompleted := Some(b))) == t.(isCompleted := b)
  {
  }

  /** Falsy values are present values: `is_completed=False` and `description=""` are applied. */
  lemma FalsyValuesApplied(t: Todo)
    ensures Merged(t, TodoUpdate(description := Some(""), isCompleted := Some(false))).description == Some("")
    ensures !Merged(t, TodoUpdate(description := Some(""), isCompleted := Some(false))).isCompleted
  {
  }

  /** Repeating a PUT with the same body gives the same row as sending it once. */
  lemma MergeIdempotent(t: Todo, u: TodoUpdate)
    ensures Merged(Merged(t, u), u) == Merged(t, u)
  {
  }

  /**
   * However many updates are applied, the description is null at the end
   * exactly when it was null at the start and no update carried one:
   * no update can set a description back to null.
   */
  lemma {:induction false} DescriptionNullOnlyIfNeverSet(t: Todo, us: seq<TodoUpdate>)
    ensures MergedAll(t, us).description.None?
        <==> t.description.None? && forall i :: 0 <= i < |us| ==> us[i].description.None?
    decreases |us|
  {
    if us != [] {
      DescriptionNullOnlyIfNeverSet(Merged(t, us[0]), us[1..]);
      assert forall i :: 1 <= i < |us| ==> us[i] == us[1..][i - 1];
    }
  }

  /** No series of updates changes a row's id or creation time. */
  lemma {:induction false} KeyAndTimestampFixed(t: Todo, us: seq<TodoUpdate>)
    ensures MergedAll(t, us).id == t.id && MergedAll(t, us).createdAt == t.createdAt
    decreases |us|
  {
    if us != [] {
      KeyAndTimestampFixed(Merged(t, us[0]), us[1..]);
    }
  }

  class TodoStore {
    /** The table, by primary key. */
    var rows: map<int, Todo>
    /** The next value of the id sequence. */
    var nextId: int
    /** The database clock that stamps `created_at`; it ticks on every insert. */
    var clock: int

    /**
     * Ids are unique (the map key is the row's id), positive and drawn from
     * the sequence; titles fit their column; every row is older than the
     * clock, and no two rows share a creation time.
     */
    ghost predicate Valid()
      reads this
    {
      && nextId >= 1
      && (forall k :: k in rows ==>
           rows[k].id == k && ValidRow(rows[k]) && k < nextId && rows[k].createdAt < clock)
      && (forall j, k :: j in rows && k in rows && j != k ==> rows[j].createdAt != rows[k].createdAt)
    }

    /**
     * The primary key: a value is stored exactly when it is the row kept
     * under its own id, so no two stored rows share an id.
     */
    lemma StoredRowsKeyed()
      requires Valid()
      ensures forall t :: t in rows.Values <==> t.id in rows && rows[t.id] == t
    {
      forall t | t in rows.Values ensures t.id in rows && rows[t.id] == t {
        SomeKeyFor(rows, t);
      }
    }

    /** Every stored row has a positive id and a title its column holds. */
    lemma StoredRowsValid()
      requires Valid()
      ensures forall t :: t in rows.Values ==> ValidRow(t) && t.createdAt < clock
    {
      StoredRowsKeyed();
    }

    /** An empty table. */
    constructor ()
      ensures Valid() && rows == map[]
    {
      rows := map[];
      nextId := 1;
      clock := 0;
    }

    /** `get_todos`: every stored row exactly once, newest first. */
    method GetTodos() returns (r: seq<Todo>)
      requires Valid()
      ensures multiset(r) == multiset(rows.Values)
      ensures NewestFirst(r)
      ensures forall i :: 0 <= i < |r| ==> r[i].id in rows && rows[r[i].id] == r[i]
      ensures rows == map[] ==> r == []
    {
      r := [];
      var pending := rows.Keys;
      while pending != {}
        invariant pending <= rows.Keys
        invariant multiset(r) == multiset(RowsAt(rows, rows.Keys - pending))
        invariant NewestFirst(r)
        decreases pending
      {
        SomeMember(pending);
        var id :| id in pending;
        InsertKeepsNewestFirst(rows[id], r);
        RowsAtAddKey(rows, rows.Keys - pending, id);
        assert rows.Keys - (pending - {id}) == (rows.Keys - pending) + {id};
        r := InsertNewestFirst(rows[id], r);
        pending := pending - {id};
      }
      assert rows.Keys - pending == rows.Keys;
      RowsAtAllKeys(rows);
      forall i | 0 <= i < |r| ensures r[i].id in rows && rows[r[i].id] == r[i] {
        assert r[i] in multiset(rows.Values);
      }
    }

    /** `get_todo_by_id`: the row whose id is `id`, if there is one. */
    function GetTodoById(id: int): (r: Option<Todo>)
      reads this
      requires Valid()
      ensures r.Some? <==> exists t :: t in rows.Values && t.id == id
      ensures r.Some? ==> r.value in rows.Values && r.value.id == id
    {
      StoredRowsKeyed();
      if id in rows then Some(rows[id]) else None
    }

    /**
     * `create_todo`: inserts a row with the given title and description, not
     * completed, under a fresh id and a creation time newer than every stored
     * row. The column cuts excess trailing spaces off the title; any other
     * character beyond its width makes the commit fail and leaves the table
     * as it was.
     */
    method CreateTodo(todo: TodoCreate) returns (r: Result<Todo, DbError>)
      requires Valid()
      modifies this
      ensures Valid()
      ensures !TitleAccepted(todo.title) ==>
        r == Failure(TitleTooLong) && rows == old(rows)
        && nextId == old(nextId) && clock == old(clock)
      ensures TitleAccepted(todo.title) ==>
        && r.Success?
        && r.value.title == StoredTitle(todo.title)
        && r.value.description == todo.description
        && !r.value.isCompleted
        && r.value.id == old(nextId) && r.value.id !in old(rows)
        && r.value.createdAt == old(clock)
        && (forall t :: t in old(rows).Values ==> t.createdAt < r.value.createdAt)
        && rows == old(rows)[r.value.id := r.value]
        && nextId == old(nextId) + 1 && clock == old(clock) + 1
    {
      if !TitleAccepted(todo.title) {
        return Failure(TitleTooLong);
      }
      StoredRowsKeyed();
      var row := NewRow(nextId, StoredTitle(todo.title), todo.description, clock);
      rows := rows[row.id := row];
      nextId := nextId + 1;
      clock := clock + 1;
      r := Success(row);
    }

    /**
     * `update_todo`: on a stored id, overwrites each field whose update value
     * is not `None`, in place, and commits; other rows, the id and the
     * creation time stay as they were. An absent id gives `None` and no
     * change. The committed title loses excess trailing spaces; a commit the
     * title column refuses changes nothing.
     */
    method UpdateTodo(id: int, todo: TodoUpdate) returns (r: Result<Option<Todo>, DbError>)
      requires Valid()
      modifies this
      ensures Valid()
      ensures nextId == old(nextId) && clock == old(clock)
      ensures id !in old(rows) ==> r == Success(None) && rows == old(rows)
      ensures id in old(rows) && !TitleAccepted(Merged(old(rows)[id], todo).title) ==>
        r == Failure(TitleTooLong) && rows == old(rows)
      ensures id in old(rows) && TitleAccepted(Merged(old(rows)[id], todo).title) ==>
        r == Success(Some(Committed(Merged(old(rows)[id], todo))))
        && rows == old(rows)[id := Committed(Merged(old(rows)[id], todo))]
    {
      var found := GetTodoById(id);
      if found.None? {
        return Success(None);
      }
      var row := found.value;
      if todo.title.Some? {
        row := row.(title := todo.title.value);
      }
      if todo.description.Some? {
        row := row.(description := todo.description);
      }
      if todo.isCompleted.Some? {
        row := row.(isCompleted := todo.isCompleted.value);
      }
      if !TitleAccepted(row.title) {
        return Failure(TitleTooLong);
      }
      row := Committed(row);
      rows := rows[id := row];
      r := Success(Some(row));
    }

    /**
     * `delete_todo`: removes the row with id `id` and returns it as it was
     * before removal; an absent id gives `None` and no change.
     */
    method DeleteTodo(id: int) returns (r: Option<Todo>)
      requires Valid()
      modifies this
      ensures Valid()
      ensures nextId == old(nextId) && clock == old(clock)
      ensures id in old(rows) ==> r == Some(old(rows)[id]) && rows == old(rows) - {id}
      ensures id !in old(rows) ==> r == None && rows == old(rows)
      ensures GetTodoById(id) == None
    {
      var found := GetTodoById(id);
      if found.Some? {
        rows := rows - {id};
      }
      r := found;
    }
  }
}
