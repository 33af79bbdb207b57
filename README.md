# PotatoDB table manager, modelled in Dafny

PotatoDB is a small embedded document store. A `PotatoDB` object keeps a
dictionary from table name to an ordered list of records (JSON objects). It
offers `create_table`, `insert`, `query`, `update` and `delete`. After every
change it writes the changed table to `<name>.json` in its folder through
`save`, and `load` reads tables back from that folder.

This project models that object as the Dafny class `Db.PotatoDB`:

- `tables: map<string, seq<Record>>` holds the tables in memory.
- `disk: map<string, seq<Record>>` stands for the folder. An entry is the
  content of one table's file. Saving a table assigns its entry; loading
  reads it.
- Records are JSON objects (`Json.Record`, a map from keys to `Json.Value`).
- Caller callbacks become Dafny function values. Conditions are
  `Record -> bool`. The update callback is `Record -> Record`, and its result
  replaces the record in its slot.
- The constructor takes the folder's initial content and loads every table
  from it, as `__init__` calls `load()`.

The record scans live in module `Sequences`:

- `Filter` serves `query` and `delete`. It is proved to keep exactly the
  matching records, in order: it is a subsequence of its input, and every
  order-preserving selection of matching records is a subsequence of it.
- `Updated` is the reference for `update`'s loop. It is proved slot by slot.

`Update` is a loop that rewrites the table in place, as the source does, and
is proved against `Updated`. `Save` and `Load` with no name loop over the
tables, as the source does.

The predicate `PotatoDB.Mirrored()` says memory and folder hold the same
tables. The constructor establishes it, and every operation preserves it.
This rests on the folder being keyed by table name. In the source that holds
only when a table name maps to a file of its own, directly in the folder,
that the operating system accepts; "## Left out" lists the names for which
it does not.

The code treats a falsy table name like a missing one in `save` and `load`
(`if table_name:`). So `save("")` and `load("")` act on every table. A change
to a table named `""` therefore rewrites every table's file. `Db.WriteBack`
states that. Such a table's own file, `.json`, is read back under another
name (`Db.ReloadedName`).

Module `LazyDbExample` replays the repository's example script
(`Examples/1. LazyDB Example.py`) step by step, the missing-table calls, and
a save followed by reopening the folder. In the table below, "Script line N"
refers to that script.

## Model

| member | source | states |
|---|---|---|
| `Db.PotatoDB.constructor` | db.py:6-9 | A store opened over a folder holds exactly the folder's tables, so memory and folder start mirrored. |
| `Db.PotatoDB.CreateTable` | db.py:11-14 | Table `name` becomes empty, replacing any earlier table. Its file then holds `[]`. Every other table is unchanged, and the mirror invariant is kept. |
| `Db.PotatoDB.Insert` | db.py:16-24 | The record is appended to an existing table, or becomes the sole record of a new one. The saved copy equals the new table, the record is handed back, and the mirror invariant is kept. |
| `Db.PotatoDB.Query` | db.py:26-32 | `None` exactly when the table is missing. Otherwise: the matching records in table order; every matching record is present; nothing else is present; every order-preserving selection of matching records is contained in the result. Reads only. |
| `Db.PotatoDB.Update` | db.py:34-43 | Missing table: returns false and changes nothing. Otherwise returns true. The length is unchanged. Slot `i` becomes `mutate(old[i])` when `cond(old[i])` holds and stays `old[i]` otherwise. The table is then saved. |
| `Db.PotatoDB.Delete` | db.py:45-52 | Missing table: returns false and changes nothing. Otherwise returns true. The table becomes the order-preserving filter by `not cond`. Its length is the old length minus the number of matches. No survivor matches, and every non-matching record survives. The table is then saved. |
| `Db.PotatoDB.Save` | db.py:61-75 | A missing or empty name writes every table (`disk` becomes `old(disk) + tables`). A registered name writes only that table. An unregistered name fails with `TableDoesNotExist` and writes nothing. Memory is unchanged. |
| `Db.PotatoDB.Load` | db.py:77-94 | A missing or empty name reloads every table that has a file and leaves memory-only tables alone (`tables` becomes `old(tables) + disk`). A name with a file replaces that table only. A name without a file fails with `TableDoesNotExist` and changes nothing. |
| `Db.NamesAll` | db.py:63 | The `if table_name:` test of `save` (and of `load`, db.py:80): no name and the empty name both select every table. |
| `Db.WriteBack` | db.py:61-75 | The folder after the save that ends every change (db.py:14, 23, 40, 49): the file of table `name` (of every table when the name is empty) holds the table as it is in memory, no other file changes, and no file is removed. |
| `Db.PotatoDB.Mirrored` | db.py:6-94 | The invariant that memory and folder hold the same tables; the constructor establishes it and each operation's contract says it is kept. |
| `Db.ReloadedName` | db.py:90-94 | The file `save` writes for table `name` (`<name>.json`, db.py:65, 73) is registered by `load()` under `name` again when the name holds a character other than a dot, and under `name + ".json"` when the name is empty or made only of dots. |
| `Db.LastDot` | db.py:92 | The `rfind('.')` inside `os.path.splitext`: the index of the last dot of the name, or -1; no dot follows it. |
| `Db.SplitextRoot` | db.py:92 | `os.path.splitext(file)[0]` for a file name without a directory part: everything before the last dot, unless only dots come before that dot, in which case the whole name. |
| `Db.ReloadCollision` | db.py:73-94 | Tables `""` and `".json"` are saved to two different files that `load()` both registers as `".json"`. |
| `Db.WriteBackIdempotent` | db.py:61-75 | Saving twice with no change in between gives the same folder as saving once, and the saved table's file equals the table. |
| `Sequences.Filter` | db.py:29 | Every record kept satisfies the predicate, and the result holds each record at most as often as the input does. |
| `Sequences.FilterKeepsMatches` | db.py:29 | Any input record that satisfies the predicate is in the result. |
| `Sequences.FilterMembership` | db.py:29 | A record is in the result if and only if it is in the input and satisfies the predicate. |
| `Sequences.FilterIsSubsequence` | db.py:29 | The result is a subsequence of the input, so the original relative order is kept. |
| `Sequences.SubsequenceOfFilter` | db.py:29 | Any order-preserving selection of the input whose records all match is a subsequence of the result. |
| `Sequences.FilterMaximal` | db.py:29 | The result is the greatest matching subsequence of the input: every matching subsequence of the input is a subsequence of it. |
| `Sequences.FilterAppend` | db.py:18-29 | Filtering a table after an append equals filtering the old table and then the appended record. |
| `Sequences.FilterPartition` | db.py:48 | The records `delete` keeps and the records it drops together form the old table, counted with multiplicity. |
| `Sequences.FilterComplementLength` | db.py:48 | After a delete, the table's length is the old length minus the number of records the condition matches. |
| `Sequences.FilterIdempotent` | db.py:48 | Deleting a second time with the same condition removes nothing more. |
| `Sequences.FilterNoneMatch` | db.py:48 | When no record matches, a delete keeps the whole table and a query returns nothing. |
| `Sequences.Updated` | db.py:37-39 | The update scan keeps the number of records. |
| `Sequences.UpdatedAt` | db.py:37-39 | Slot by slot, a matching record becomes its image under the mutator and any other record stays. |
| `Sequences.UpdatedAppend` | db.py:37-39 | The update scan over a concatenation is the concatenation of the scans. |
| `Sequences.UpdatedNoneMatch` | db.py:37-39 | An update whose condition matches nothing leaves the table as it was. |
| `LazyDbExample.CreateUsers` | db.py:6-24 | Script lines 4-11: over a folder holding any tables from an earlier run, creating "users" (which resets it) and inserting Alice (30) and Bob (25) leaves the other tables as they were and makes "users" exactly those two records, in that order, mirrored on disk. |
| `LazyDbExample.AllUsers` | db.py:26-32 | Script line 14: after the inserts, a query that accepts every record returns Alice (30) and Bob (25), in insertion order. |
| `LazyDbExample.RaiseAlice` | db.py:34-43 | Script line 18: updating records named Alice to age 35 gives Alice (35), then Bob (25). |
| `LazyDbExample.AliceAbove30` | db.py:26-32 | Script line 21: after the update, the query for ages above 30 returns Alice (35) alone. |
| `LazyDbExample.DeleteBob` | db.py:45-52 | Script line 27: deleting records named Bob leaves Alice (35) alone. |
| `LazyDbExample.Everyone` | db.py:26-32 | Script line 30: a query that accepts every record returns the whole table. |
| `LazyDbExample.UsersScenario` | db.py:4-52 | The whole script, over any initial folder: the first full query returns both users; the above-30 query after the update and the final full query both return Alice (35) alone. |
| `LazyDbExample.SaveThenReopen` | db.py:61-94 | A saved table, read back by a new store over the same folder, equals the table in memory. |
| `LazyDbExample.MissingTableScenario` | db.py:34-69 | On an unregistered table, `update` and `delete` return false, `save` fails with `TableDoesNotExist`, and nothing changes. |

## Left out

- Filesystem work is not modelled in `disk`. This covers creating the folder, testing for files, listing the folder, opening files, and naming a file `<name>.json`. The folder is the `disk` map keyed by table name. The naming of files and the `splitext` that turns a file name back into a table name are modelled only for the lemmas `Db.ReloadedName` and `Db.ReloadCollision`, not in `disk`.
- LazyDbExample.SaveThenReopen, `Db.PotatoDB.Load`, the `Db.PotatoDB` constructor, `Db.PotatoDB.Mirrored`, `Db.PotatoDB.CreateTable`, `Db.PotatoDB.Insert`, `Db.PotatoDB.Update` and `Db.PotatoDB.Delete` treat the trip from table name to file and back as exact, and the last four promise that the call returns normally with the mirror invariant kept. In the source this holds only when the name maps to a file of its own, directly in the folder, that the operating system accepts. It fails for these names, among others. (1) A table named `""` or made only of dots is written to `.json`, `..json`, …, and `os.path.splitext` keeps leading dots, so `load()` and a reopened store register it as `".json"`, `"..json"`, … and not under its own name (`Db.ReloadedName` proves this of the naming). Two tables can also collide: `""` and `".json"` (files `.json` and `.json.json`), or `"."` and `"..json"`, are reloaded under one name, and the folder listing order decides whose content survives (`Db.ReloadCollision`). (2) A name holding a path separator is written outside the folder or into a subdirectory: `os.path.join` drops the folder for an absolute name such as `"/tmp/t"`, and `"../t"` lands in the folder's parent. `open` raises when the target directory does not exist, and otherwise the non-recursive listing of `load()` does not read the file back. (3) A name holding a NUL character makes `open` raise `ValueError`, and a name whose `<name>.json` exceeds the file system's name length limit (255 bytes on common Linux file systems) makes it raise `OSError`. (4) On a case-insensitive file system, names such as `"Users"` and `"users"` share one file. Where `open` raises, it does so after `tables` has already changed (db.py:13, 19, 22, 48), so `create_table`, `insert`, `update` and `delete` end with an exception and memory and folder no longer agree. The model's `disk` is keyed by table name, and its writes always succeed, so it captures none of this.
- JSON encoding and decoding (`json.dump` with `indent=4`, `json.load`) are not modelled. The folder holds the records themselves, so a save followed by a load returns them unchanged. A malformed file, and the parse error it raises, have no counterpart.
- JSON numbers are modelled as integers. Floating point is not modelled.
- The `if self.folder` guard of `load` and its "Folder not set" error are left out. The constructor always sets a folder, so the error cannot be reached. `set_folder` is folded into the constructor; a later call of the public `set_folder` (db.py:54-59), which points the store at another folder and so replaces what `disk` stands for, is not modelled.
- `load` returns `True` for one table and `None` for all tables. The model returns `Pass` in both cases.
- Python object identity and aliasing are not modelled. This covers the same dict inserted twice, the caller's reference returned by `insert`, and query results that share record objects with the table. Records are values, and `update`'s callback returns a replacement record instead of mutating one through a reference.
- An exception raised by a caller's callback part-way through `update` or `delete` is not modelled. Partial or interrupted file writes are not modelled either. The source has no rollback or atomicity to specify.
- The example script's callbacks index `record["name"]` and `record["age"]` directly and would raise `KeyError` on a record without that key. The model's versions answer false instead. Every record in the script has both keys, so the outcome is the same.
- Concurrency is not modelled. The store is single-threaded and has no locking.
- `Save` and `Load` loop over the table names in an unspecified order; Python uses dictionary or directory-listing order. In the model the resulting state does not depend on the order, because `disk` is keyed by table name. In the source, `load()` can depend on the listing order when two files reload under one name (see the `LazyDbExample.SaveThenReopen` line above).
