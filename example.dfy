/**
 * Clients of the store: the walk-through of the repository's example script
 * and the save-then-reopen round trip.
 */
module LazyDbExample {
  import opened Wrappers
  import opened Json
  import opened Sequences
  import opened Db

  function User(name: string, age: int): Record {
    map["name" := Str(name), "age" := Num(age)]
  }

  /** `record["name"] == who`, false for a record without a name. */
  function NameIs(who: string): Record -> bool {
    (r: Record) => "name" in r && r["name"] == Str(who)
  }

  /** `record["age"] > limit`, false for a record without a numeric age. */
  function OlderThan(limit: int): Record -> bool {
    (r: Record) => "age" in r && r["age"].Num? && r["age"].n > limit
  }

  /** `record.update({"age": age})`, as a record that replaces the old one. */
  function SetAge(age: int): Record -> Record {
    (r: Record) => r["age" := Num(age)]
  }

  /** The "users" table after the script's two inserts. */
  const Users: seq<Record> := [User("Alice", 30), User("Bob", 25)]

  /**
   * The script's set-up: a store over a folder that may already hold tables
   * from an earlier run, a "users" table (reset if it was there), two inserts.
   */
  method CreateUsers(stored: Tables) returns (db: PotatoDB)
    ensures fresh(db)
    ensures db.tables == stored["users" := Users] && db.Mirrored()
  {
    db := new PotatoDB(stored);
    db.CreateTable("users");
    assert db.tables == stored["users" := []];
    var _ := db.Insert("users", User("Alice", 30));
    assert [] + [User("Alice", 30)] == [User("Alice", 30)];
    var _ := db.Insert("users", User("Bob", 25));
    assert [User("Alice", 30)] + [User("Bob", 25)] == Users;
  }

  /** Right after the inserts, a query that accepts every record returns both users, in order. */
  method AllUsers(db: PotatoDB) returns (found: Option<seq<Record>>)
    requires "users" in db.tables && db.tables["users"] == Users
    ensures found == Some(Users)
  {
    var s := Users;
    var any: Record -> bool := x => true;
    assert s[1..][1..] == [];
    assert Filter(s[1..], any) == s[1..];
    assert Filter(s, any) == [s[0]] + s[1..];
    found := db.Query("users", any);
    assert found == Some(Filter(s, any));
    assert [s[0]] + s[1..] == s;
  }

  /** Setting the age of every user named Alice to 35. */
  method RaiseAlice(db: PotatoDB)
    requires "users" in db.tables && db.tables["users"] == Users
    modifies db
    ensures "users" in db.tables && db.tables["users"] == [User("Alice", 35), User("Bob", 25)]
  {
    var _ := db.Update("users", NameIs("Alice"), SetAge(35));
    assert NameIs("Alice")(User("Alice", 30)) && !NameIs("Alice")(User("Bob", 25));
    assert SetAge(35)(User("Alice", 30)) == User("Alice", 35);
  }

  /** Deleting every user named Bob leaves Alice alone. */
  method DeleteBob(db: PotatoDB)
    requires "users" in db.tables && db.tables["users"] == [User("Alice", 35), User("Bob", 25)]
    modifies db
    ensures "users" in db.tables && db.tables["users"] == [User("Alice", 35)]
  {
    var _ := db.Delete("users", NameIs("Bob"));
    assert !NameIs("Bob")(User("Alice", 35)) && NameIs("Bob")(User("Bob", 25));
  }

  /** After the update, Alice alone is above 30. */
  method AliceAbove30(db: PotatoDB) returns (found: Option<seq<Record>>)
    requires "users" in db.tables && db.tables["users"] == [User("Alice", 35), User("Bob", 25)]
    ensures found == Some([User("Alice", 35)])
  {
    var s := [User("Alice", 35), User("Bob", 25)];
    assert OlderThan(30)(s[0]) && !OlderThan(30)(s[1]);
    assert s[1..][1..] == [];
    assert Filter(s[1..], OlderThan(30)) == [];
    assert Filter(s, OlderThan(30)) == [s[0]] + Filter(s[1..], OlderThan(30));
    found := db.Query("users", OlderThan(30));
    assert found == Some(Filter(s, OlderThan(30)));
    assert [s[0]] + [] == [s[0]];
  }

  /** A query that accepts every record returns the whole table. */
  method Everyone(db: PotatoDB) returns (found: Option<seq<Record>>)
    requires "users" in db.tables && db.tables["users"] == [User("Alice", 35)]
    ensures found == Some([User("Alice", 35)])
  {
    var s := [User("Alice", 35)];
    var any: Record -> bool := x => true;
    assert s[1..] == [] && any(s[0]);
    assert Filter(s, any) == [s[0]] + Filter(s[1..], any);
    found := db.Query("users", any);
    assert found == Some(Filter(s, any));
    assert [s[0]] + [] == [s[0]];
  }

  /**
   * The example script, over any initial folder: the first full query returns both users; after
   * raising Alice's age the query for users above 30 returns Alice alone,
   * and after deleting Bob the full query does too.
   */
  method UsersScenario(stored: Tables) returns (all: Option<seq<Record>>, over30: Option<seq<Record>>, remaining: Option<seq<Record>>)
    ensures all == Some([User("Alice", 30), User("Bob", 25)])
    ensures over30 == Some([User("Alice", 35)])
    ensures remaining == Some([User("Alice", 35)])
  {
    var db := CreateUsers(stored);
    all := AllUsers(db);
    RaiseAlice(db);
    over30 := AliceAbove30(db);
    DeleteBob(db);
    remaining := Everyone(db);
  }

  /** A table that is saved and then read back by a new store is unchanged. */
  method SaveThenReopen(db: PotatoDB, name: string) returns (reopened: PotatoDB)
    requires name in db.tables
    modifies db
    ensures fresh(reopened)
    ensures db.tables == old(db.tables)
    ensures name in reopened.tables && reopened.tables[name] == db.tables[name]
  {
    var _ := db.Save(Some(name));
    reopened := new PotatoDB(db.disk);
  }

  /** The operations on a table that is not registered: nothing changes and each signals it. */
  method MissingTableScenario(db: PotatoDB) returns (updated: bool, deleted: bool, saved: Outcome<DbError>)
    requires "ghost" !in db.tables
    modifies db
    ensures !updated && !deleted && saved == Fail(TableDoesNotExist("ghost"))
    ensures db.tables == old(db.tables) && db.disk == old(db.disk)
  {
    updated := db.Update("ghost", x => true, x => x);
    deleted := db.Delete("ghost", x => true);
    saved := db.Save(Some("ghost"));
  }
}
