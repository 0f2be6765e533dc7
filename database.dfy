/**
 * The two SQLite tables of the schema and what the handlers' SQL statements do
 * to them. Tables are kept in rowid order; each AUTOINCREMENT table has its
 * `sqlite_sequence` entry, the largest id it has ever issued.
 */
module Database {
  import opened Wrappers

  /** A row of `users`: `email` is UNIQUE NOT NULL, `password` (a bcrypt hash) NOT NULL. */
  datatype UserRow = UserRow(id: nat, email: string, password: string)

  /**
   * A row of `tasks`: `title` is NOT NULL; `completed` defaults to 0 (false) and
   * is NULL (None) after an update that did not supply it; `user_id` is the owner.
   */
  datatype TaskRow = TaskRow(id: nat, title: string, completed: Option<bool>, userId: nat)

  /** The outcome of one SQL statement: an error passed to the callback, or its result. */
  datatype SqlResult<+T> = SqlError | SqlOk(value: T)

  // ---------------------------------------------------------------------------
  // Schema invariants

  predicate EmailTaken(users: seq<UserRow>, email: string) {
    exists u :: u in users && u.email == email
  }

  /** AUTOINCREMENT ids, at most the sequence value, in rowid order; UNIQUE emails. */
  predicate UsersValid(users: seq<UserRow>, lastId: nat) {
    && (forall i :: 0 <= i < |users| ==> 1 <= users[i].id <= lastId)
    && (forall i, j :: 0 <= i < j < |users| ==> users[i].id < users[j].id)
    && (forall i, j :: 0 <= i < j < |users| ==> users[i].email != users[j].email)
  }

  /** AUTOINCREMENT ids, at most the sequence value, in rowid order. */
  predicate TasksValid(tasks: seq<TaskRow>, lastId: nat) {
    && (forall i :: 0 <= i < |tasks| ==> 1 <= tasks[i].id <= lastId)
    && (forall i, j :: 0 <= i < j < |tasks| ==> tasks[i].id < tasks[j].id)
  }

  // ---------------------------------------------------------------------------
  // What the statements select and change

  /** `SELECT * FROM users WHERE email = ?` (at most one row, emails being unique); NULL matches nothing. */
  function UserByEmail(users: seq<UserRow>, email: Option<string>): (r: Option<UserRow>)
    ensures r.Some? ==> r.value in users && email == Some(r.value.email)
    ensures r.None? ==> email.None? || !EmailTaken(users, email.value)
  {
    if email.None? || users == [] then None
    else if users[0].email == email.value then Some(users[0])
    else UserByEmail(users[1..], email)
  }

  /** With unique emails, the row found is the only row with that email. */
  lemma {:induction false} UserByEmailUnique(users: seq<UserRow>, lastId: nat, u: UserRow)
    requires UsersValid(users, lastId) && u in users
    ensures UserByEmail(users, Some(u.email)) == Some(u)
  {
    var r := UserByEmail(users, Some(u.email));
    var i :| 0 <= i < |users| && users[i] == r.value;
    var j :| 0 <= j < |users| && users[j] == u;
    assert i == j;
  }

  /** `WHERE id = ? AND user_id = ?`: an id that is not an integer matches no row. */
  predicate Matches(t: TaskRow, id: Option<int>, owner: nat) {
    id == Some(t.id as int) && t.userId == owner
  }

  predicate AnyMatch(tasks: seq<TaskRow>, id: Option<int>, owner: nat) {
    exists t :: t in tasks && Matches(t, id, owner)
  }

  /** `SELECT * FROM tasks WHERE user_id = ?`. */
  function OwnedBy(tasks: seq<TaskRow>, owner: nat): (r: seq<TaskRow>)
    ensures forall t :: t in r <==> t in tasks && t.userId == owner
    ensures |r| <= |tasks|
  {
    if tasks == [] then []
    else if tasks[0].userId == owner then [tasks[0]] + OwnedBy(tasks[1..], owner)
    else OwnedBy(tasks[1..], owner)
  }

  /** `UPDATE tasks SET title = ?, completed = ? WHERE id = ? AND user_id = ?`. */
  function Updated(tasks: seq<TaskRow>, id: Option<int>, owner: nat, title: string, completed: Option<bool>): (r: seq<TaskRow>)
    ensures |r| == |tasks|
    ensures forall i :: 0 <= i < |tasks| && Matches(tasks[i], id, owner) ==>
              r[i] == tasks[i].(title := title, completed := completed)
    ensures forall i :: 0 <= i < |tasks| && !Matches(tasks[i], id, owner) ==> r[i] == tasks[i]
  {
    if tasks == [] then []
    else
      var t := tasks[0];
      var rest := Updated(tasks[1..], id, owner, title, completed);
      var r := [if Matches(t, id, owner) then t.(title := title, completed := completed) else t] + rest;
      assert forall i :: 0 < i < |tasks| ==> r[i] == rest[i - 1] && tasks[i] == tasks[1..][i - 1];
      r
  }

  /** `DELETE FROM tasks WHERE id = ? AND user_id = ?`. */
  function Deleted(tasks: seq<TaskRow>, id: Option<int>, owner: nat): (r: seq<TaskRow>)
    ensures |r| <= |tasks|
  {
    if tasks == [] then []
    else if Matches(tasks[0], id, owner) then Deleted(tasks[1..], id, owner)
    else [tasks[0]] + Deleted(tasks[1..], id, owner)
  }

  /** Deleting removes exactly the matching rows. */
  lemma {:induction false} DeletedMembers(tasks: seq<TaskRow>, id: Option<int>, owner: nat)
    ensures forall t :: t in Deleted(tasks, id, owner) <==> t in tasks && !Matches(t, id, owner)
    decreases |tasks|
  {
    if tasks != [] {
      DeletedMembers(tasks[1..], id, owner);
      assert tasks == [tasks[0]] + tasks[1..];
    }
  }

  /** Deleting keeps the surviving rows in their rowid order. */
  lemma {:induction false} DeletedDistributes(a: seq<TaskRow>, b: seq<TaskRow>, id: Option<int>, owner: nat)
    ensures Deleted(a + b, id, owner) == Deleted(a, id, owner) + Deleted(b, id, owner)
    decreases |a|
  {
    if a == [] {
      assert a + b == b;
    } else {
      var ab := a + b;
      assert ab[0] == a[0] && ab[1..] == a[1..] + b;
      DeletedDistributes(a[1..], b, id, owner);
      if Matches(a[0], id, owner) {
        assert Deleted(ab, id, owner) == Deleted(ab[1..], id, owner);
      } else {
        assert Deleted(ab, id, owner) == [a[0]] + Deleted(ab[1..], id, owner);
        assert Deleted(a, id, owner) == [a[0]] + Deleted(a[1..], id, owner);
        assert [a[0]] + (Deleted(a[1..], id, owner) + Deleted(b, id, owner))
            == ([a[0]] + Deleted(a[1..], id, owner)) + Deleted(b, id, owner);
      }
    }
  }

  /** An update or delete whose WHERE clause matches no row leaves the table as it was. */
  lemma {:induction false} NoMatchNoChange(tasks: seq<TaskRow>, id: Option<int>, owner: nat, title: string, completed: Option<bool>)
    requires !AnyMatch(tasks, id, owner)
    ensures Updated(tasks, id, owner, title, completed) == tasks
    ensures Deleted(tasks, id, owner) == tasks
    decreases |tasks|
  {
    if tasks != [] {
      assert tasks[0] in tasks;
      assert !AnyMatch(tasks[1..], id, owner) by {
        forall t | t in tasks[1..] ensures !Matches(t, id, owner) {
          assert t in tasks;
        }
      }
      NoMatchNoChange(tasks[1..], id, owner, title, completed);
    }
  }

  /** The DELETE removes at least one row exactly when some row matches (`this.changes > 0`). */
  lemma {:induction false} DeletedShrinks(tasks: seq<TaskRow>, id: Option<int>, owner: nat)
    ensures |Deleted(tasks, id, owner)| < |tasks| <==> AnyMatch(tasks, id, owner)
    decreases |tasks|
  {
    if tasks != [] {
      DeletedShrinks(tasks[1..], id, owner);
      assert tasks[0] in tasks;
      assert forall t :: t in tasks <==> t == tasks[0] || t in tasks[1..];
    }
  }

  /** A row below every id of a valid table can be put in front of it. */
  lemma PrependValid(t: TaskRow, rest: seq<TaskRow>, lastId: nat)
    requires TasksValid(rest, lastId) && 1 <= t.id <= lastId
    requires forall x :: x in rest ==> t.id < x.id
    ensures TasksValid([t] + rest, lastId)
  {
    var r := [t] + rest;
    forall i, j | 0 <= i < j < |r| ensures r[i].id < r[j].id {
      assert r[j] == rest[j - 1];
      if i == 0 {
        assert rest[j - 1] in rest;
      } else {
        assert r[i] == rest[i - 1];
      }
    }
  }

  /** Deleting rows keeps ids increasing and within the sequence value. */
  lemma {:induction false} DeletedValid(tasks: seq<TaskRow>, lastId: nat, id: Option<int>, owner: nat)
    requires TasksValid(tasks, lastId)
    ensures TasksValid(Deleted(tasks, id, owner), lastId)
    decreases |tasks|
  {
    if tasks != [] {
      var tail := tasks[1..];
      assert TasksValid(tail, lastId);
      DeletedValid(tail, lastId, id, owner);
      if !Matches(tasks[0], id, owner) {
        var rest := Deleted(tail, id, owner);
        DeletedMembers(tail, id, owner);
        forall x | x in rest ensures tasks[0].id < x.id {
          var k :| 0 <= k < |tail| && tail[k] == x;
          assert tasks[k + 1] == x;
        }
        PrependValid(tasks[0], rest, lastId);
      }
    }
  }

  // ---------------------------------------------------------------------------
  // The database handle

  class Db {
    /** Whether `CREATE TABLE` has run; statements on missing tables fail. */
    var hasTables: bool
    var users: seq<UserRow>
    var tasks: seq<TaskRow>
    /** The `sqlite_sequence` entries of `users` and `tasks`. */
    var lastUserId: nat
    var lastTaskId: nat

    ghost predicate Valid()
      reads this
    {
      && (!hasTables ==> users == [] && tasks == [] && lastUserId == 0 && lastTaskId == 0)
      && UsersValid(users, lastUserId)
      && TasksValid(tasks, lastTaskId)
    }

    /** A statement fails on an I/O error (`fault`) or when the tables do not exist yet. */
    predicate Fails(fault: bool)
      reads this
    {
      fault || !hasTables
    }

    /** `new sqlite3.Database(file)` on a new file, or `':memory:'`: no tables yet. */
    constructor Open()
      ensures Valid() && !hasTables
      ensures users == [] && tasks == [] && lastUserId == 0 && lastTaskId == 0
    {
      hasTables := false;
      users, tasks := [], [];
      lastUserId, lastTaskId := 0, 0;
    }

    /**
     * `CREATE TABLE IF NOT EXISTS` for both tables: afterwards the tables exist,
     * and tables that already existed keep all their rows and sequence values.
     */
    method CreateTables()
      requires Valid()
      modifies this
      ensures Valid() && hasTables
      ensures users == old(users) && tasks == old(tasks)
      ensures lastUserId == old(lastUserId) && lastTaskId == old(lastTaskId)
    {
      if !hasTables {
        users, tasks := [], [];
        lastUserId, lastTaskId := 0, 0;
        hasTables := true;
      }
    }

    /**
     * `INSERT INTO users (email, password) VALUES (?, ?)`: fails on a NULL email
     * (NOT NULL) or an email already present (UNIQUE) and then changes nothing;
     * otherwise appends one row whose id is one more than any id ever issued.
     */
    method InsertUser(email: Option<string>, password: string, fault: bool) returns (r: SqlResult<nat>)
      requires Valid()
      modifies this
      ensures Valid()
      ensures hasTables == old(hasTables) && tasks == old(tasks) && lastTaskId == old(lastTaskId)
      ensures old(Fails(fault)) || email.None? || EmailTaken(old(users), email.value) ==>
                r == SqlError && users == old(users) && lastUserId == old(lastUserId)
      ensures !(old(Fails(fault)) || email.None? || EmailTaken(old(users), email.value)) ==>
                && r == SqlOk(old(lastUserId) + 1)
                && users == old(users) + [UserRow(old(lastUserId) + 1, email.value, password)]
                && lastUserId == old(lastUserId) + 1
    {
      if Fails(fault) || email.None? || EmailTaken(users, email.value) {
        return SqlError;
      }
      var id := lastUserId + 1;
      users := users + [UserRow(id, email.value, password)];
      lastUserId := id;
      r := SqlOk(id);
    }

    /** `SELECT * FROM users WHERE email = ?`, through `db.get`. */
    method FindUserByEmail(email: Option<string>, fault: bool) returns (r: SqlResult<Option<UserRow>>)
      ensures Fails(fault) ==> r == SqlError
      ensures !Fails(fault) ==> r.SqlOk?
      ensures r.SqlOk? && r.value.Some? ==> r.value.value in users && email == Some(r.value.value.email)
      ensures r.SqlOk? && r.value.None? ==> email.None? || !EmailTaken(users, email.value)
    {
      if Fails(fault) {
        return SqlError;
      }
      r := SqlOk(UserByEmail(users, email));
    }

    /**
     * `INSERT INTO tasks (title, user_id) VALUES (?, ?)`: fails on a NULL title;
     * otherwise appends one row with `completed` at its default, false.
     */
    method InsertTask(title: Option<string>, owner: nat, fault: bool) returns (r: SqlResult<nat>)
      requires Valid()
      modifies this
      ensures Valid()
      ensures hasTables == old(hasTables) && users == old(users) && lastUserId == old(lastUserId)
      ensures old(Fails(fault)) || title.None? ==>
                r == SqlError && tasks == old(tasks) && lastTaskId == old(lastTaskId)
      ensures !(old(Fails(fault)) || title.None?) ==>
                && r == SqlOk(old(lastTaskId) + 1)
                && tasks == old(tasks) + [TaskRow(old(lastTaskId) + 1, title.value, Some(false), owner)]
                && lastTaskId == old(lastTaskId) + 1
    {
      if Fails(fault) || title.None? {
        return SqlError;
      }
      var id := lastTaskId + 1;
      tasks := tasks + [TaskRow(id, title.value, Some(false), owner)];
      lastTaskId := id;
      r := SqlOk(id);
    }

    /** `SELECT * FROM tasks WHERE user_id = ?`, through `db.all`; the row order is not promised. */
    method SelectTasksOwnedBy(owner: nat, fault: bool) returns (r: SqlResult<seq<TaskRow>>)
      ensures Fails(fault) <==> r == SqlError
      ensures r.SqlOk? ==> forall t :: t in r.value <==> t in tasks && t.userId == owner
      ensures r.SqlOk? ==> multiset(r.value) == multiset(OwnedBy(tasks, owner))
    {
      if Fails(fault) {
        return SqlError;
      }
      r := SqlOk(OwnedBy(tasks, owner));
    }

    /**
     * `UPDATE tasks SET title = ?, completed = ? WHERE id = ? AND user_id = ?`.
     * A NULL title violates NOT NULL only when some row is actually updated;
     * zero matched rows is not an error.
     */
    method UpdateTasks(id: Option<int>, owner: nat, title: Option<string>, completed: Option<bool>, fault: bool)
      returns (r: SqlResult<()>)
      requires Valid()
      modifies this
      ensures Valid()
      ensures hasTables == old(hasTables) && users == old(users)
      ensures lastUserId == old(lastUserId) && lastTaskId == old(lastTaskId)
      ensures r == SqlError <==> old(Fails(fault)) || (title.None? && AnyMatch(old(tasks), id, owner))
      ensures r == SqlError || title.None? ==> tasks == old(tasks)
      ensures r.SqlOk? && title.Some? ==> tasks == Updated(old(tasks), id, owner, title.value, completed)
    {
      if Fails(fault) || (title.None? && AnyMatch(tasks, id, owner)) {
        return SqlError;
      }
      if title.Some? {
        tasks := Updated(tasks, id, owner, title.value, completed);
      }
      r := SqlOk(());
    }

    /** `DELETE FROM tasks WHERE id = ? AND user_id = ?`; zero matched rows is not an error. */
    method DeleteTasks(id: Option<int>, owner: nat, fault: bool) returns (r: SqlResult<()>)
      requires Valid()
      modifies this
      ensures Valid()
      ensures hasTables == old(hasTables) && users == old(users)
      ensures lastUserId == old(lastUserId) && lastTaskId == old(lastTaskId)
      ensures r == SqlError <==> old(Fails(fault))
      ensures r == SqlError ==> tasks == old(tasks)
      ensures r.SqlOk? ==> tasks == Deleted(old(tasks), id, owner)
    {
      if Fails(fault) {
        return SqlError;
      }
      DeletedValid(tasks, lastTaskId, id, owner);
      tasks := Deleted(tasks, id, owner);
      r := SqlOk(());
    }
  }
}
