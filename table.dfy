/**
 * The `users` table as a value, the read-only queries the repository runs
 * against it, and the effect of each writing operation as a function from the
 * table before to the table after (with the reply the caller gets).
 *
 * The table's shape follows its DDL: `id` is an AUTO_INCREMENT primary key,
 * `email` is NOT NULL UNIQUE, `created_at` defaults to CURRENT_TIMESTAMP and
 * `updated_at` is refreshed on update. AUTO_INCREMENT is the counter `nextId`
 * and CURRENT_TIMESTAMP is the reading of a logical clock `clock`.
 */
module UserTable {
  import opened Errors

  /** One row of the `users` table. */
  datatype User = User(id: int, name: string, email: string, createdAt: int, updatedAt: int)

  /** The rows, keyed by `id`, with the AUTO_INCREMENT counter and the clock. */
  datatype Table = Table(rows: map<int, User>, nextId: int, clock: int)

  /** The table after an operation, and what the operation returned. */
  datatype Reply<R> = Reply(after: Table, result: R)

  /** A (name, email) pair to insert; the element type of the seed list. */
  datatype NewUser = NewUser(name: string, email: string)

  /** The users SeedUsers inserts into an empty table, in this order. */
  const InitialUsers: seq<NewUser> := [
    NewUser("John Doe", "john@example.com"),
    NewUser("Jane Smith", "jane@example.com"),
    NewUser("Alice Johnson", "alice@example.com")
  ]

  /** A freshly created table: no rows, AUTO_INCREMENT at 1. */
  const Empty: Table := Table(map[], 1, 0)

  /** Every row is stored under its own `id`. */
  ghost predicate KeyedById(rows: map<int, User>) {
    forall id :: id in rows ==> rows[id].id == id
  }

  /** The UNIQUE constraint on `email`: no two rows share an email. */
  ghost predicate UniqueEmails(rows: map<int, User>) {
    forall i, j :: i in rows && j in rows && rows[i].email == rows[j].email ==> i == j
  }

  /** What the database guarantees of the table at all times. */
  ghost predicate Valid(t: Table) {
    && 1 <= t.nextId
    && KeyedById(t.rows)
    && UniqueEmails(t.rows)
    && (forall id :: id in t.rows ==> 1 <= id < t.nextId)
    && (forall id :: id in t.rows ==> t.rows[id].createdAt <= t.rows[id].updatedAt <= t.clock)
  }

  /** The emails present in the table. */
  ghost function Emails(rows: map<int, User>): set<string> {
    set id | id in rows :: rows[id].email
  }

  // ---------------------------------------------------------------- queries

  /** `SELECT ... FROM users WHERE id = ?`: the row whose id column is `id`, or not found. */
  function GetUserByID(rows: map<int, User>, id: int): (r: Result<User>)
    requires KeyedById(rows)
    ensures r.Ok? <==> exists k :: k in rows && rows[k].id == id
    ensures r.Ok? <==> id in rows
    ensures r.Ok? ==> r.value in rows.Values && r.value.id == id
    ensures r.Err? ==> r.error == NotFound(id)
  {
    if id in rows then Ok(rows[id]) else Err(NotFound(id))
  }

  /** `SELECT COUNT(*) FROM users`. */
  function GetUsersCount(rows: map<int, User>): (n: nat)
    ensures n == 0 <==> rows == map[]
  {
    |rows|
  }

  /** `SELECT COUNT(*) FROM users WHERE email = ?` is positive. */
  function EmailExists(rows: map<int, User>, email: string): (b: bool)
    ensures b <==> exists id :: id in rows && rows[id].email == email
  {
    var matching := set id | id in rows && rows[id].email == email;
    assert forall id :: id in rows && rows[id].email == email ==> id in matching;
    assert (forall id :: id in rows ==> rows[id].email != email) ==> matching == {};
    |matching| > 0
  }

  /** `SELECT COUNT(*) FROM users WHERE email = ? AND id != ?` is positive. */
  function EmailExistsForOtherUser(rows: map<int, User>, email: string, userId: int): (b: bool)
    ensures b <==> exists id :: id in rows && id != userId && rows[id].email == email
  {
    var matching := set id | id in rows && rows[id].email == email && id != userId;
    assert forall id :: id in rows && id != userId && rows[id].email == email ==> id in matching;
    assert (forall id :: id in rows && id != userId ==> rows[id].email != email) ==> matching == {};
    |matching| > 0
  }

  // ------------------------------------------------------------ operations

  /**
   * CreateUser: probe for the email, then INSERT (name, email) with the next
   * AUTO_INCREMENT id and both timestamps at the current clock, then re-read
   * the row by that id.
   */
  function Create(t: Table, name: string, email: string): (res: Reply<Result<User>>)
    requires Valid(t)
    ensures Valid(res.after) && res.after.clock == t.clock
    ensures res.result.Err? <==> email in Emails(t.rows)
    ensures res.result.Err? ==> res == Reply(t, Err(Conflict(email)))
    ensures res.result.Ok? ==>
      var u := res.result.value;
      && u.id !in t.rows && 1 <= u.id == t.nextId
      && u.name == name && u.email == email
      && u.createdAt == u.updatedAt == t.clock
      && res.after.rows == t.rows[u.id := u]
      && res.after.nextId == t.nextId + 1
      && GetUserByID(res.after.rows, u.id) == res.result
  {
    if EmailExists(t.rows, email) then
      Reply(t, Err(Conflict(email)))
    else
      var id := t.nextId;
      var inserted := t.(rows := t.rows[id := User(id, name, email, t.clock, t.clock)], nextId := id + 1);
      Reply(inserted, GetUserByID(inserted.rows, id))
  }

  /**
   * UpdateUser: check that `id` exists, probe for the email among the other
   * rows, then UPDATE name, email and updated_at of that row, then re-read it.
   */
  function Update(t: Table, id: int, name: string, email: string): (res: Reply<Result<User>>)
    requires Valid(t)
    ensures Valid(res.after) && res.after.nextId == t.nextId && res.after.clock == t.clock
    ensures id !in t.rows ==> res == Reply(t, Err(NotFound(id)))
    ensures id in t.rows ==>
      (res.result.Err? <==> exists other :: other in t.rows && other != id && t.rows[other].email == email)
    ensures id in t.rows && res.result.Err? ==> res == Reply(t, Err(Conflict(email)))
    ensures res.result.Ok? ==>
      var u := res.result.value;
      && id in t.rows
      && u.id == id && u.createdAt == t.rows[id].createdAt
      && u.name == name && u.email == email && u.updatedAt == t.clock
      && res.after.rows == t.rows[id := u]
      && GetUserByID(res.after.rows, id) == res.result
  {
    match GetUserByID(t.rows, id)
    case Err(e) => Reply(t, Err(e))
    case Ok(_) =>
      if EmailExistsForOtherUser(t.rows, email, id) then
        Reply(t, Err(Conflict(email)))
      else
        var updated := t.(rows := t.rows[id := t.rows[id].(name := name, email := email, updatedAt := t.clock)]);
        Reply(updated, GetUserByID(updated.rows, id))
  }

  /**
   * DeleteUser: check that `id` exists, then DELETE that row, and report
   * not found also when the DELETE affected no row.
   */
  function Delete(t: Table, id: int): (res: Reply<Outcome>)
    requires Valid(t)
    ensures Valid(res.after) && res.after.nextId == t.nextId && res.after.clock == t.clock
    ensures res.result == Pass <==> id in t.rows
    ensures res.result.Fail? ==> res == Reply(t, Fail(NotFound(id)))
    ensures res.after.rows.Keys == t.rows.Keys - {id}
    ensures forall k :: k in res.after.rows ==> res.after.rows[k] == t.rows[k]
    ensures GetUserByID(res.after.rows, id) == Err(NotFound(id))
  {
    match GetUserByID(t.rows, id)
    case Err(e) => Reply(t, Fail(e))
    case Ok(_) =>
      var deleted := t.(rows := t.rows - {id});
      assert deleted.rows.Keys == t.rows.Keys - {id};
      var affected := |t.rows| - |deleted.rows|;
      if affected == 0 then Reply(deleted, Fail(NotFound(id))) else Reply(deleted, Pass)
  }

  /**
   * The loop of SeedUsers over a list of users: create each in turn and stop
   * at the first failure, wrapping it with the name of the user that failed.
   */
  function CreateEach(t: Table, batch: seq<NewUser>): (res: Reply<Outcome>)
    requires Valid(t)
    ensures Valid(res.after) && res.after.clock == t.clock
    ensures forall id :: id in t.rows ==> id in res.after.rows && res.after.rows[id] == t.rows[id]
    decreases |batch|
  {
    if batch == [] then
      Reply(t, Pass)
    else
      var c := Create(t, batch[0].name, batch[0].email);
      if c.result.Err? then Reply(c.after, Fail(SeedFailed(batch[0].name, c.result.error)))
      else CreateEach(c.after, batch[1..])
  }

  /** SeedUsers: insert the initial users, but only into an empty table. */
  function Seed(t: Table): (res: Reply<Outcome>)
    requires Valid(t)
    ensures Valid(res.after)
    ensures GetUsersCount(t.rows) > 0 ==> res == Reply(t, Pass)
  {
    if GetUsersCount(t.rows) > 0 then Reply(t, Pass) else CreateEach(t, InitialUsers)
  }

  // ---------------------------------------------------------------- listing

  /** The ids that occur in a list of users. */
  ghost function Ids(users: seq<User>): set<int> {
    set i | 0 <= i < |users| :: users[i].id
  }

  /**
   * `users` is a result of `SELECT ... FROM users ORDER BY created_at DESC`:
   * every row exactly once, newest first (rows with equal created_at in any order).
   */
  ghost predicate IsListing(rows: map<int, User>, users: seq<User>) {
    && (forall i :: 0 <= i < |users| ==> users[i].id in rows && rows[users[i].id] == users[i])
    && Ids(users) == rows.Keys
    && (forall i, j :: 0 <= i < j < |users| ==> users[i].id != users[j].id)
    && (forall i, j :: 0 <= i < j < |users| ==> users[j].createdAt <= users[i].createdAt)
  }

  // ------------------------------------------------------------- properties

  /**
   * The index of the first user of `batch` whose email is in `taken` or
   * belongs to an earlier user of the batch; |batch| when there is none.
   */
  ghost function FirstConflict(taken: set<string>, batch: seq<NewUser>): (k: nat)
    ensures k <= |batch|
    decreases |batch|
  {
    if batch == [] || batch[0].email in taken then 0
    else 1 + FirstConflict(taken + {batch[0].email}, batch[1..])
  }

  /** Inserting a row under a new id adds exactly its email. */
  lemma EmailsAfterInsert(rows: map<int, User>, id: int, u: User)
    requires id !in rows
    ensures Emails(rows[id := u]) == Emails(rows) + {u.email}
  {
    var grown := rows[id := u];
    forall e | e in Emails(grown) ensures e in Emails(rows) + {u.email} {
      var k :| k in grown && grown[k].email == e;
      if k != id {
        assert k in rows && rows[k].email == e;
      }
    }
    forall e | e in Emails(rows) ensures e in Emails(grown) {
      var k :| k in rows && rows[k].email == e;
      assert k in grown && grown[k].email == e;
    }
    assert id in grown && grown[id].email == u.email;
  }

  /**
   * Creating the users of a batch in turn stops at the first user whose
   * email is taken, reports that user by name, and inserts one row for each
   * user before it.
   */
  lemma {:induction false} CreateEachStopsAtFirstConflict(t: Table, batch: seq<NewUser>)
    requires Valid(t)
    ensures
      var res := CreateEach(t, batch);
      var k := FirstConflict(Emails(t.rows), batch);
      && res.result == (if k == |batch| then Pass else Fail(SeedFailed(batch[k].name, Conflict(batch[k].email))))
      && res.after.nextId == t.nextId + k
      && |res.after.rows| == |t.rows| + k
    decreases |batch|
  {
    if batch == [] {
      return;
    }
    var first := batch[0];
    var c := Create(t, first.name, first.email);
    if c.result.Err? {
      return;
    }
    var t1, u := c.after, c.result.value;
    assert t1.rows == t.rows[u.id := u] && t1.nextId == t.nextId + 1;
    EmailsAfterInsert(t.rows, u.id, u);
    CreateEachStopsAtFirstConflict(t1, batch[1..]);
    assert CreateEach(t, batch) == CreateEach(t1, batch[1..]);
    var k1 := FirstConflict(Emails(t1.rows), batch[1..]);
    assert FirstConflict(Emails(t.rows), batch) == 1 + k1;
    assert k1 < |batch| - 1 ==> batch[1..][k1] == batch[1 + k1];
  }

  /** `rows` holds the users of `batch[..k]` under the consecutive ids from `from`, created at `now`. */
  ghost predicate HoldsInOrder(rows: map<int, User>, from: int, batch: seq<NewUser>, k: nat, now: int)
    requires k <= |batch|
  {
    forall id :: from <= id < from + k ==>
      id in rows && rows[id] == User(id, batch[id - from].name, batch[id - from].email, now, now)
  }

  /** One inserted user followed by users held in order are users held in order. */
  lemma HoldsInOrderCons(rows: map<int, User>, from: int, batch: seq<NewUser>, k: nat, now: int)
    requires 0 < |batch| && k < |batch|
    requires from in rows && rows[from] == User(from, batch[0].name, batch[0].email, now, now)
    requires HoldsInOrder(rows, from + 1, batch[1..], k, now)
    ensures HoldsInOrder(rows, from, batch, k + 1, now)
  {
    forall id | from < id < from + 1 + k
      ensures id in rows && rows[id] == User(id, batch[id - from].name, batch[id - from].email, now, now)
    {
      assert batch[id - from] == batch[1..][id - (from + 1)];
    }
  }

  /**
   * Creating the users of a batch in turn stores the users before the first
   * conflict, in order, under consecutive fresh ids with both timestamps at
   * the current clock.
   */
  lemma {:induction false} CreateEachInsertsInOrder(t: Table, batch: seq<NewUser>)
    requires Valid(t)
    ensures HoldsInOrder(CreateEach(t, batch).after.rows, t.nextId, batch, FirstConflict(Emails(t.rows), batch), t.clock)
    decreases |batch|
  {
    if batch == [] {
      return;
    }
    var first := batch[0];
    var c := Create(t, first.name, first.email);
    if c.result.Err? {
      assert FirstConflict(Emails(t.rows), batch) == 0;
      return;
    }
    var t1, u := c.after, c.result.value;
    assert t1.rows == t.rows[u.id := u] && t1.nextId == t.nextId + 1;
    EmailsAfterInsert(t.rows, u.id, u);
    CreateEachInsertsInOrder(t1, batch[1..]);
    var rest := CreateEach(t1, batch[1..]);
    assert CreateEach(t, batch) == rest;
    var k1 := FirstConflict(Emails(t1.rows), batch[1..]);
    assert FirstConflict(Emails(t.rows), batch) == 1 + k1;
    assert u.id in t1.rows;
    HoldsInOrderCons(rest.after.rows, t.nextId, batch, k1, t.clock);
  }

  /** On an empty table SeedUsers inserts John Doe, Jane Smith and Alice Johnson, in that order. */
  lemma SeedOnEmpty(t: Table)
    requires Valid(t) && t.rows == map[]
    ensures
      var res := Seed(t);
      && res.result == Pass
      && |res.after.rows| == 3
      && (forall j :: 0 <= j < 3 ==>
            t.nextId + j in res.after.rows &&
            res.after.rows[t.nextId + j] ==
              User(t.nextId + j, InitialUsers[j].name, InitialUsers[j].email, t.clock, t.clock))
  {
    assert Emails(t.rows) == {};
    var john, jane, alice := InitialUsers[0].email, InitialUsers[1].email, InitialUsers[2].email;
    assert john[1] != jane[1];
    assert |alice| != |john| && |alice| != |jane|;
    assert FirstConflict({}, InitialUsers) == 3 by {
      assert InitialUsers[1..][1..] == [InitialUsers[2]];
      assert FirstConflict({john, jane}, [InitialUsers[2]]) == 1;
      assert FirstConflict({john}, InitialUsers[1..]) == 2;
    }
    CreateEachStopsAtFirstConflict(t, InitialUsers);
    CreateEachInsertsInOrder(t, InitialUsers);
  }

  /** Seeding twice is seeding once: the second run finds rows and changes nothing. */
  lemma SeedIdempotent(t: Table)
    requires Valid(t)
    ensures Seed(Seed(t).after) == Reply(Seed(t).after, Pass)
    ensures t.rows == map[] ==> |Seed(Seed(t).after).after.rows| == 3
  {
    if t.rows == map[] {
      SeedOnEmpty(t);
    }
  }

  /** Creating two users with the same email, one after the other, fails the second time with a conflict. */
  lemma CreateSameEmailTwice(t: Table, name1: string, name2: string, email: string)
    requires Valid(t)
    ensures
      var first := Create(t, name1, email);
      Create(first.after, name2, email) == Reply(first.after, Err(Conflict(email)))
  {
    var first := Create(t, name1, email);
    if first.result.Ok? {
      var u := first.result.value;
      assert u.id in first.after.rows && first.after.rows[u.id].email == email;
    }
  }

  /** A user may keep their own email: the conflict probe of an update skips the row itself. */
  lemma UpdateKeepsOwnEmail(t: Table, id: int, name: string)
    requires Valid(t) && id in t.rows
    ensures Update(t, id, name, t.rows[id].email).result.Ok?
  {
  }

  /**
   * The UNIQUE constraint makes `email` a key of the table: there are as
   * many distinct emails as rows.
   */
  lemma {:induction false} EmailIsKey(rows: map<int, User>)
    requires UniqueEmails(rows)
    ensures |Emails(rows)| == |rows|
    decreases |rows|
  {
    if rows == map[] {
      assert Emails(rows) == {};
    } else {
      assert (forall k :: k !in rows) ==> rows == map[];
      var id :| id in rows;
      var rest := rows - {id};
      assert rest.Keys == rows.Keys - {id};
      EmailIsKey(rest);
      assert rows == rest[id := rows[id]];
      EmailsAfterInsert(rest, id, rows[id]);
      assert rows[id].email !in Emails(rest);
    }
  }

  /**
   * The first rows of a listing have been read: `users` are the rows not in
   * `pending`, each once, newest first, and none is older than a pending row.
   */
  ghost predicate ListedSoFar(rows: map<int, User>, users: seq<User>, pending: set<int>) {
    && pending <= rows.Keys
    && (forall i :: 0 <= i < |users| ==> users[i].id in rows && rows[users[i].id] == users[i])
    && Ids(users) == rows.Keys - pending
    && (forall i, j :: 0 <= i < j < |users| ==> users[i].id != users[j].id)
    && (forall i, j :: 0 <= i < j < |users| ==> users[j].createdAt <= users[i].createdAt)
    && (forall i, id :: 0 <= i < |users| && id in pending ==> rows[id].createdAt <= users[i].createdAt)
  }

  /** Reading a newest pending row next keeps the rows read so far a listing prefix. */
  lemma ListedSoFarStep(rows: map<int, User>, users: seq<User>, pending: set<int>, id: int)
    requires KeyedById(rows) && ListedSoFar(rows, users, pending)
    requires id in pending && forall other :: other in pending ==> rows[other].createdAt <= rows[id].createdAt
    ensures ListedSoFar(rows, users + [rows[id]], pending - {id})
  {
    var grown := users + [rows[id]];
    IdsAppend(users, rows[id]);
    forall i, j | 0 <= i < j < |grown|
      ensures grown[i].id != grown[j].id
      ensures grown[j].createdAt <= grown[i].createdAt
    {
      if j == |users| {
        assert grown[i] == users[i];
        assert users[i].id in Ids(users);
      }
    }
  }

  /** Among a non-empty set of rows there is one no other row is newer than. */
  lemma {:induction false} NewestExists(rows: map<int, User>, pending: set<int>)
    requires pending != {} && pending <= rows.Keys
    ensures exists id :: id in pending && forall other :: other in pending ==> rows[other].createdAt <= rows[id].createdAt
    decreases pending
  {
    assert (forall id :: id !in pending) ==> pending == {};
    var x :| x in pending;
    var rest := pending - {x};
    if rest == {} {
      forall other | other in pending ensures other == x {
        assert other !in rest;
      }
    } else {
      NewestExists(rows, rest);
      var y :| y in rest && forall other :: other in rest ==> rows[other].createdAt <= rows[y].createdAt;
      if rows[x].createdAt <= rows[y].createdAt {
        assert forall other :: other in pending ==> rows[other].createdAt <= rows[y].createdAt;
      } else {
        assert forall other :: other in pending ==> rows[other].createdAt <= rows[x].createdAt;
      }
    }
  }

  /** Appending a user to a list adds exactly its id. */
  lemma IdsAppend(users: seq<User>, u: User)
    ensures Ids(users + [u]) == Ids(users) + {u.id}
  {
    var grown := users + [u];
    forall x | x in Ids(grown) ensures x in Ids(users) + {u.id} {
      var i :| 0 <= i < |grown| && grown[i].id == x;
      if i < |users| {
        assert users[i].id == x;
      }
    }
    forall x | x in Ids(users) ensures x in Ids(grown) {
      var i :| 0 <= i < |users| && users[i].id == x;
      assert grown[i].id == x;
    }
    assert grown[|users|].id == u.id;
  }

  /** A list of users with pairwise different ids names as many ids as it has elements. */
  lemma {:induction false} DistinctIdsCount(users: seq<User>)
    requires forall i, j :: 0 <= i < j < |users| ==> users[i].id != users[j].id
    ensures |Ids(users)| == |users|
  {
    if users != [] {
      var init, last := users[..|users| - 1], users[|users| - 1];
      DistinctIdsCount(init);
      assert users == init + [last];
      IdsAppend(init, last);
      assert last.id !in Ids(init);
    }
  }

  /** Listing all users returns as many users as the count query counts. */
  lemma ListingLength(rows: map<int, User>, users: seq<User>)
    requires IsListing(rows, users)
    ensures |users| == GetUsersCount(rows)
  {
    DistinctIdsCount(users);
    assert |rows.Keys| == |rows|;
  }
}
