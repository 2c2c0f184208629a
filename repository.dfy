/**
 * UserRepository: the object through which the service reads and writes the
 * `users` table. Its state is the table behind its database handle: the rows,
 * the AUTO_INCREMENT counter and the clock CURRENT_TIMESTAMP reads. Each
 * operation is proved to have exactly the effect of the matching function of
 * UserTable on that state.
 */
module Repository {
  import opened Errors
  import opened UserTable

  class UserRepository {
    /** The rows of `users`, keyed by `id`. */
    var rows: map<int, User>
    /** The id the next INSERT receives (AUTO_INCREMENT). */
    var nextId: int
    /** What CURRENT_TIMESTAMP reads now. */
    var clock: int

    /** The table behind the handle, as a value. */
    function State(): Table
      reads this
    {
      Table(rows, nextId, clock)
    }

    ghost predicate Valid()
      reads this
    {
      UserTable.Valid(State())
    }

    /** NewUserRepository: a repository over a database whose table holds `db`. */
    constructor (db: Table)
      requires UserTable.Valid(db)
      ensures Valid() && State() == db
    {
      rows, nextId, clock := db.rows, db.nextId, db.clock;
    }

    /** Time passes: CURRENT_TIMESTAMP moves on; the table is untouched. */
    method Tick()
      requires Valid()
      modifies this
      ensures Valid()
      ensures rows == old(rows) && nextId == old(nextId) && clock == old(clock) + 1
    {
      clock := clock + 1;
    }

    /**
     * GetAllUsers: read the result of `SELECT ... ORDER BY created_at DESC`
     * row by row and append each to the list. The cursor delivers, at each
     * step, a not yet delivered row with the greatest created_at.
     */
    method GetAllUsers() returns (users: seq<User>)
      requires Valid()
      ensures IsListing(rows, users)
      ensures |users| == GetUsersCount(rows)
    {
      users := [];
      var pending := rows.Keys;
      while pending != {}
        invariant ListedSoFar(rows, users, pending)
        decreases |pending|
      {
        NewestExists(rows, pending);
        var id :| id in pending && forall other :: other in pending ==> rows[other].createdAt <= rows[id].createdAt;
        ListedSoFarStep(rows, users, pending, id);
        users := users + [rows[id]];
        pending := pending - {id};
      }
      ListingLength(rows, users);
    }

    /**
     * CreateUser: refuse an email already present, otherwise INSERT the user
     * and return the row re-read under the id the INSERT assigned.
     */
    method CreateUser(name: string, email: string) returns (r: Result<User>)
      requires Valid()
      modifies this
      ensures Valid()
      ensures Reply(State(), r) == Create(old(State()), name, email)
    {
      if EmailExists(rows, email) {
        r := Err(Conflict(email));
        return;
      }
      var id := nextId;
      rows := rows[id := User(id, name, email, clock, clock)];
      nextId := nextId + 1;
      r := GetUserByID(rows, id);
    }

    /**
     * UpdateUser: report a missing id first, then an email held by another
     * user; otherwise UPDATE name, email and updated_at and return the row
     * re-read under its id.
     */
    method UpdateUser(id: int, name: string, email: string) returns (r: Result<User>)
      requires Valid()
      modifies this
      ensures Valid()
      ensures Reply(State(), r) == Update(old(State()), id, name, email)
    {
      var existing := GetUserByID(rows, id);
      if existing.Err? {
        r := Err(existing.error);
        return;
      }
      if EmailExistsForOtherUser(rows, email, id) {
        r := Err(Conflict(email));
        return;
      }
      rows := rows[id := rows[id].(name := name, email := email, updatedAt := clock)];
      r := GetUserByID(rows, id);
    }

    /**
     * DeleteUser: report a missing id, otherwise DELETE the row; a DELETE
     * that affected no row is reported as not found as well.
     */
    method DeleteUser(id: int) returns (r: Outcome)
      requires Valid()
      modifies this
      ensures Valid()
      ensures Reply(State(), r) == Delete(old(State()), id)
    {
      var existing := GetUserByID(rows, id);
      if existing.Err? {
        r := Fail(existing.error);
        return;
      }
      var before := |rows|;
      rows := rows - {id};
      assert rows.Keys == old(rows).Keys - {id};
      var affected := before - |rows|;
      if affected == 0 {
        r := Fail(NotFound(id));
      } else {
        r := Pass;
      }
    }

    /**
     * SeedUsers: when the table is empty, create the initial users one after
     * the other and stop at the first that fails.
     */
    method SeedUsers() returns (r: Outcome)
      requires Valid()
      modifies this
      ensures Valid()
      ensures Reply(State(), r) == Seed(old(State()))
      ensures old(rows) != map[] ==> r == Pass && rows == old(rows)
    {
      if GetUsersCount(rows) > 0 {
        r := Pass;
        return;
      }
      ghost var start := State();
      for i := 0 to |InitialUsers|
        invariant Valid()
        invariant CreateEach(State(), InitialUsers[i..]) == Seed(start)
      {
        var user := InitialUsers[i];
        var created := CreateUser(user.name, user.email);
        if created.Err? {
          r := Fail(SeedFailed(user.name, created.error));
          return;
        }
        assert InitialUsers[i..][1..] == InitialUsers[i + 1..];
      }
      r := Pass;
    }
  }

  /** The life of one user, as a caller of the repository sees it. */
  method UserLifecycle()
  {
    var repo := new UserRepository(Empty);
    var ann := repo.CreateUser("Ann", "ann@x.com");
    assert ann.Ok? && ann.value.id == 1;
    var bob := repo.CreateUser("Bob", "ann@x.com");
    assert bob == Err(Conflict("ann@x.com"));
    repo.Tick();
    var renamed := repo.UpdateUser(1, "Ann K.", "ann2@x.com");
    assert renamed.Ok? && renamed.value.createdAt < renamed.value.updatedAt;
    var removed := repo.DeleteUser(1);
    assert removed == Pass;
    assert GetUserByID(repo.rows, 1) == Err(NotFound(1));
  }
}
