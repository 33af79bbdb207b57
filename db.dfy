/**
 * The table manager: named tables of records, kept in memory and mirrored to
 * a folder of per-table files after every change.
 *
 * The folder is modelled as the map `disk` from table name to the records its
 * file holds; reading and writing a file becomes reading and assigning an
 * entry of that map.
 */
module Db {
  import opened Wrappers
  import opened Json
  import opened Sequences

  /** A collection of named tables, in memory or in the folder. */
  type Tables = map<string, seq<Record>>

  /** The error `save` and `load` raise for a table they cannot find. */
  datatype DbError = TableDoesNotExist(name: string)

  /**
   * Whether a `save` or `load` argument selects every table: Python treats a
   * missing name and every falsy name (the empty string) alike.
   */
  predicate NamesAll(name: Option<string>) {
    name.None? || name.value == ""
  }

  /**
   * The folder after the save that follows a change to table `name`: only
   * that table's file is rewritten, unless the name is falsy, in which case
   * every table in memory is written.
   */
  ghost function WriteBack(disk: Tables, tables: Tables, name: string): (r: Tables)
    requires name == "" || name in tables
    ensures forall k :: k in r <==> k in disk || (k in tables && (name == "" || k == name))
    ensures forall k :: k in tables && (name == "" || k == name) ==> r[k] == tables[k]
    ensures forall k :: k in disk && !(k in tables && (name == "" || k == name)) ==> r[k] == disk[k]
  {
    if name == "" then disk + tables else disk[name := tables[name]]
  }

  /**
   * Saving a second time with nothing changed in between leaves the folder
   * as the first save left it, whether one table or all were written.
   */
  lemma WriteBackIdempotent(disk: Tables, tables: Tables, name: string)
    requires name == "" || name in tables
    ensures WriteBack(WriteBack(disk, tables, name), tables, name) == WriteBack(disk, tables, name)
    ensures name in tables ==> name in WriteBack(disk, tables, name) && WriteBack(disk, tables, name)[name] == tables[name]
  {
  }

  /** The index of the last `.` in `s`, or -1 when there is none. */
  ghost function LastDot(s: string): (k: int)
    ensures -1 <= k < |s|
    ensures k >= 0 ==> s[k] == '.'
    ensures forall j :: k < j < |s| ==> s[j] != '.'
  {
    if s == [] then -1
    else if s[|s| - 1] == '.' then |s| - 1
    else LastDot(s[..|s| - 1])
  }

  /**
   * The root that `os.path.splitext` gives for a file name without a
   * directory part: everything before the last dot, unless only dots come
   * before it (leading dots do not start an extension).
   */
  ghost function SplitextRoot(file: string): string {
    var dot := LastDot(file);
    if dot >= 0 && exists i :: 0 <= i < dot && file[i] != '.' then file[..dot] else file
  }

  /**
   * The name under which `load()` registers the file that `save` writes for
   * table `name`: the name itself when it holds a character other than a
   * dot, and `name + ".json"` when it is empty or made only of dots.
   */
  lemma {:induction false} ReloadedName(name: string)
    ensures (exists i :: 0 <= i < |name| && name[i] != '.') ==> SplitextRoot(name + ".json") == name
    ensures (forall i :: 0 <= i < |name| ==> name[i] == '.') ==> SplitextRoot(name + ".json") == name + ".json"
  {
    var file := name + ".json";
    assert file[|name|] == '.';
    assert file[|name| + 1..] == "json";
    assert LastDot(file) == |name|;
    assert file[..|name|] == name;
    if exists i :: 0 <= i < |name| && name[i] != '.' {
      var i :| 0 <= i < |name| && name[i] != '.';
      assert file[i] != '.';
    }
  }

  /**
   * Two tables can come back from the folder under one name: table `""`
   * (file `.json`) and table `".json"` (file `.json.json`) are both
   * registered by `load()` as `".json"`, so which content survives depends
   * on the order in which the folder is listed.
   */
  lemma ReloadCollision()
    ensures SplitextRoot("" + ".json") == ".json"
    ensures SplitextRoot(".json" + ".json") == ".json"
    ensures "" + ".json" != ".json" + ".json"
  {
    ReloadedName("");
    ReloadedName(".json");
    assert ".json"[1] != '.';
  }

  class PotatoDB {
    /** The tables in memory. */
    var tables: Tables
    /** The tables as their files in the folder hold them. */
    var disk: Tables

    /** Memory and folder hold the same tables. */
    predicate Mirrored()
      reads this
    {
      tables == disk
    }

    /** Opens a store over a folder holding `stored` and loads every table in it. */
    constructor(stored: Tables)
      ensures disk == stored && tables == stored
      ensures Mirrored()
    {
      tables := map[];
      disk := stored;
      new;
      var _ := Load(None);
    }

    /** Registers `name` as an empty table, replacing any table of that name, and saves it. */
    method CreateTable(name: string)
      modifies this
      ensures tables == old(tables)[name := []]
      ensures disk == WriteBack(old(disk), tables, name)
      ensures name in disk && disk[name] == []
      ensures old(Mirrored()) ==> Mirrored()
    {
      tables := tables[name := []];
      var _ := Save(Some(name));
    }

    /**
     * Appends `data` to table `name`, creating the table when it is missing,
     * saves the table and hands `data` back.
     */
    method Insert(name: string, data: Record) returns (r: Record)
      modifies this
      ensures r == data
      ensures name in old(tables) ==> tables == old(tables)[name := old(tables)[name] + [data]]
      ensures name !in old(tables) ==> tables == old(tables)[name := [data]]
      ensures disk == WriteBack(old(disk), tables, name)
      ensures name in disk && disk[name] == tables[name]
      ensures old(Mirrored()) ==> Mirrored()
    {
      if name in tables {
        tables := tables[name := tables[name] + [data]];
      } else {
        tables := tables[name := [data]];
      }
      var _ := Save(Some(name));
      r := data;
    }

    /**
     * The records of table `name` that satisfy `pred`, in table order, or
     * `None` when no such table is registered.
     */
    function Query(name: string, pred: Record -> bool): (r: Option<seq<Record>>)
      reads this
      ensures r.None? <==> name !in tables
      ensures r.Some? ==> r.value == Filter(tables[name], pred)
      ensures r.Some? ==> IsSubsequence(r.value, tables[name]) && All(r.value, pred)
      ensures r.Some? ==> forall x :: x in tables[name] && pred(x) ==> x in r.value
      ensures r.Some? ==> forall q :: IsSubsequence(q, tables[name]) && All(q, pred) ==> IsSubsequence(q, r.value)
    {
      if name in tables then
        FilterIsSubsequence(tables[name], pred);
        FilterMembership(tables[name], pred);
        FilterMaximal(tables[name], pred);
        Some(Filter(tables[name], pred))
      else
        None
    }

    /**
     * Replaces, in table `name`, every record that satisfies `cond` with
     * `mutate` of it, then saves the table; `false`, and no change, when the
     * table is not registered.
     */
    method Update(name: string, cond: Record -> bool, mutate: Record -> Record) returns (found: bool)
      modifies this
      ensures found <==> name in old(tables)
      ensures !found ==> tables == old(tables) && disk == old(disk)
      ensures found ==> tables == old(tables)[name := Updated(old(tables)[name], cond, mutate)]
      ensures found ==> |tables[name]| == |old(tables)[name]|
      ensures found ==> forall i :: 0 <= i < |tables[name]| ==>
        tables[name][i] == if cond(old(tables)[name][i]) then mutate(old(tables)[name][i]) else old(tables)[name][i]
      ensures found ==> disk == WriteBack(old(disk), tables, name)
      ensures old(Mirrored()) ==> Mirrored()
    {
      if name !in tables {
        return false;
      }
      ghost var before := tables[name];
      var i := 0;
      while i < |tables[name]|
        invariant name in tables && |tables[name]| == |before|
        invariant 0 <= i <= |before|
        invariant tables == old(tables)[name := tables[name]]
        invariant disk == old(disk)
        invariant forall j :: 0 <= j < i ==>
          tables[name][j] == if cond(before[j]) then mutate(before[j]) else before[j]
        invariant forall j :: i <= j < |before| ==> tables[name][j] == before[j]
      {
        var record := tables[name][i];
        if cond(record) {
          tables := tables[name := tables[name][i := mutate(record)]];
        }
        i := i + 1;
      }
      forall j | 0 <= j < |before|
        ensures tables[name][j] == Updated(before, cond, mutate)[j]
      {
        UpdatedAt(before, cond, mutate, j);
      }
      assert tables[name] == Updated(before, cond, mutate);
      var _ := Save(Some(name));
      found := true;
    }

    /**
     * Drops from table `name` every record that satisfies `cond`, keeping
     * the order of the rest, then saves the table; `false`, and no change,
     * when the table is not registered.
     */
    method Delete(name: string, cond: Record -> bool) returns (found: bool)
      modifies this
      ensures found <==> name in old(tables)
      ensures !found ==> tables == old(tables) && disk == old(disk)
      ensures found ==> tables == old(tables)[name := Filter(old(tables)[name], Negate(cond))]
      ensures found ==> |tables[name]| == |old(tables)[name]| - |Filter(old(tables)[name], cond)|
      ensures found ==> forall x :: x in tables[name] ==> !cond(x)
      ensures found ==> forall x :: x in old(tables)[name] && !cond(x) ==> x in tables[name]
      ensures found ==> disk == WriteBack(old(disk), tables, name)
      ensures old(Mirrored()) ==> Mirrored()
    {
      if name !in tables {
        return false;
      }
      ghost var before := tables[name];
      tables := tables[name := Filter(tables[name], Negate(cond))];
      FilterComplementLength(before, cond);
      FilterMembership(before, Negate(cond));
      var _ := Save(Some(name));
      found := true;
    }

    /**
     * Writes table `name` to its file, or every table in memory when no
     * (or a falsy) name is given; fails, writing nothing, when a name is
     * given that is not registered.
     */
    method Save(name: Option<string>) returns (res: Outcome<DbError>)
      modifies this`disk
      ensures NamesAll(name) ==> res == Pass && disk == old(disk) + tables
      ensures !NamesAll(name) && name.value in tables ==>
        res == Pass && disk == old(disk)[name.value := tables[name.value]]
      ensures !NamesAll(name) && name.value !in tables ==>
        res == Fail(TableDoesNotExist(name.value)) && disk == old(disk)
      ensures old(Mirrored()) ==> Mirrored()
    {
      if !NamesAll(name) {
        if name.value in tables {
          disk := disk[name.value := tables[name.value]];
          return Pass;
        }
        return Fail(TableDoesNotExist(name.value));
      }
      var pending := tables.Keys;
      while pending != {}
        invariant pending <= tables.Keys
        invariant disk == old(disk) + map k | k in tables.Keys - pending :: tables[k]
        decreases pending
      {
        var k :| k in pending;
        disk := disk[k := tables[k]];
        pending := pending - {k};
      }
      res := Pass;
    }

    /**
     * Replaces table `name` with the content of its file, or, when no (or a
     * falsy) name is given, every table that has a file; tables with no file
     * are left as they are. Fails, changing nothing, when a name is given
     * that has no file.
     */
    method Load(name: Option<string>) returns (res: Outcome<DbError>)
      modifies this`tables
      ensures NamesAll(name) ==> res == Pass && tables == old(tables) + disk
      ensures !NamesAll(name) && name.value in disk ==>
        res == Pass && tables == old(tables)[name.value := disk[name.value]]
      ensures !NamesAll(name) && name.value !in disk ==>
        res == Fail(TableDoesNotExist(name.value)) && tables == old(tables)
      ensures old(Mirrored()) ==> Mirrored()
    {
      if !NamesAll(name) {
        if name.value in disk {
          tables := tables[name.value := disk[name.value]];
          return Pass;
        }
        return Fail(TableDoesNotExist(name.value));
      }
      var pending := disk.Keys;
      while pending != {}
        invariant pending <= disk.Keys
        invariant tables == old(tables) + map k | k in disk.Keys - pending :: disk[k]
        decreases pending
      {
        var k :| k in pending;
        tables := tables[k := disk[k]];
        pending := pending - {k};
      }
      res := Pass;
    }
  }
}
