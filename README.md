# litesql stores in Dafny

A model of the three SQLite-backed stores in `litesql.py`:

- **SQLCounter** keeps named integer counters in a `Counter` table. `incr` and `decr` are upserts that insert 1 or -1 for a new key, or add or subtract 1 for an existing one. `zero` upserts 0. `count` reads a key with no row as 0. `delete` raises `NotImplementedError`.
- **SQLDict** is a mutable mapping kept in a `Dict` table. It stores each value through an encoder and reads it back through a decoder. Writes insert or replace a row. Reading or deleting a key that has no row raises `KeyError`. It also keeps its own `Counter` table with the same upserts as SQLCounter (`incr`, `decr`, `count`, `resetcount`).
- **SQLQueue** is a work queue kept in a `Queue` table, where each row has SQLite's implicit rowid. `put` appends an unlocked row that is not done and returns its rowid. `pop` writes a random lock token into the unlocked row with the least rowid. It then raises `sqlite3.OperationalError`, because the script's final `SELECT` names a table that does not exist. `qsize` counts every row. `full` is always false. Opening a queue with a `maxsize` raises `NotImplementedError`.

Each table is a field of its class. The two counter tables and the `Dict` table are `map`s. The `Queue` table is a `seq` of rows in rowid order. Every method that writes a table states the new table as a function of the old one. The functions that state each SQL statement's effect are proved to have the properties the stores promise, and so are the lemmas about them.

Files:

- `wrappers.dfy`: `Option`, `Result` and `Outcome`, plus the `Error` type for `KeyError` and `NotImplementedError`.
- `counter_table.dfy`: the `Counter` upserts, shared by both classes that keep such a table.
- `sql_counter.dfy`: `SQLCounter`.
- `sql_dict.dfy`: the `Dict` table's operations, the round-trip lemmas and `SQLDict`.
- `sql_queue.dfy`: the `Queue` table's operations, the claim-order lemmas and `SQLQueue`.

The clock read by `strftime('%s','now')` is a `now` parameter of `Put`. The random token from `randomblob(16)` is a `token` parameter of `Pop`. That token must have the form `lower(hex(...))` produces, 32 lower-case hexadecimal digits. It must also differ from every lock already in the table, which is what a fresh 128-bit random value gives.

A queue of this kind is usually meant to do more than this code does. The model follows the code:

- `qsize` counts every row, including rows that are locked. A count of only the pending messages would leave locked rows out.
- `pop` selects a row and locks it in one `UPDATE` with a subquery. It sets only `locked`, never `lock_time`.
- Nothing sets `done`, so no row ever becomes done (`WellFormed` records this). A queue with completion would mark a message done once processed.
- There is no `complete`, no lease expiry that returns a claimed message to the queue, and no capacity check.

## Model

| member | source | states |
|---|---|---|
| CounterTable.Upsert | litesql.py:31 | the upserted key holds the seed if it had no row, or the step applied to its old value; every other key's row is unchanged |
| CounterTable.Incremented | litesql.py:28-34 | the key gets a row and its count (0 when absent) goes up by exactly one, so an absent key now holds 1; every other key is unchanged |
| CounterTable.Decremented | litesql.py:36-42 | the key gets a row and its count goes down by exactly one, so an absent key now holds -1; every other key is unchanged |
| CounterTable.Zeroed | litesql.py:51-57 | the key has a row holding 0 whether or not it existed before; every other key is unchanged |
| CounterTable.IncrThenDecr | litesql.py:28-49 | incr then decr restores the key's count; the table comes back the same if the key had a row, or with a new row holding 0 if it did not |
| CounterTable.DecrThenIncr | litesql.py:28-49 | decr then incr restores the key's count, with the same caveat about a key that had no row |
| CounterTable.ZeroForgets | litesql.py:51-57 | zeroing is idempotent, and a zero erases any incr or decr made just before it |
| CounterTable.UpdatesAreIndependent | litesql.py:28-57 | incr, decr and zero of one key never change the count of another key |
| LiteCounter.SQLCounter.constructor | litesql.py:16-20 | a new store over an empty database has an empty `Counter` table |
| LiteCounter.SQLCounter.Incr | litesql.py:28-34 | the table becomes the incremented table |
| LiteCounter.SQLCounter.Decr | litesql.py:36-42 | the table becomes the decremented table |
| LiteCounter.SQLCounter.Count | litesql.py:44-49 | returns the stored value, or 0 for a key with no row |
| LiteCounter.SQLCounter.Zero | litesql.py:51-57 | the table becomes the zeroed table |
| LiteCounter.SQLCounter.Delete | litesql.py:59-61 | always fails with NotImplemented and changes nothing |
| LiteDict.Stored | litesql.py:114-118 | insert-or-replace: the key holds the new encoded value and other keys are unchanged; the length is the same for an existing key and one more for a new one |
| LiteDict.Lookup | litesql.py:120-125 | succeeds exactly when the key has a row, with the decoded stored value; otherwise fails with KeyError for that key |
| LiteDict.Deleted | litesql.py:127-131 | fails with KeyError exactly when the key is absent; otherwise removes that key only, keeping the other values, and the length drops by one |
| LiteDict.SetThenGet | litesql.py:114-125 | after `d[k] = v`, `d[k]` returns `v` when the decoder undoes the encoder, and reads of other keys are unaffected |
| LiteDict.DeleteThenGet | litesql.py:120-131 | after deleting a present key, reading it raises KeyError and other keys read as before |
| LiteDict.SetThenDelete | litesql.py:114-131 | writing a new key and then deleting it gives back the original table |
| LiteDict.SQLDict.constructor | litesql.py:78-106 | a new store has empty `Dict` and `Counter` tables and keeps the given encoder and decoder, which must round-trip |
| LiteDict.SQLDict.SetItem | litesql.py:114-118 | the `Dict` table becomes the stored table with the encoded value, and a read of the key now returns the value written; the counters are unchanged |
| LiteDict.SQLDict.GetItem | litesql.py:120-125 | returns the decoded value for a present key, or KeyError for an absent one |
| LiteDict.SQLDict.DelItem | litesql.py:127-131 | an absent key gives KeyError and leaves the table unchanged; a present key is removed and the call succeeds |
| LiteDict.SQLDict.Len | litesql.py:133-134 | returns the number of keys in `Dict` |
| LiteDict.SQLDict.Incr | litesql.py:152-158 | the counters become the incremented counters; `Dict` is unchanged |
| LiteDict.SQLDict.Decr | litesql.py:160-166 | the counters become the decremented counters; `Dict` is unchanged |
| LiteDict.SQLDict.Count | litesql.py:168-174 | returns the stored counter, or 0 for a key with no row |
| LiteDict.SQLDict.ResetCount | litesql.py:176-182 | the counters become the zeroed counters; `Dict` is unchanged |
| LiteQueue.MaxRowid | litesql.py:220-223 | bounds every rowid from above and is one of them, or 0 for an empty table |
| LiteQueue.NextRowid | litesql.py:220-223 | the rowid SQLite assigns is larger than every rowid in the table, and is 1 for an empty table |
| LiteQueue.Appended | litesql.py:218-224 | `put` keeps every existing row and adds one row at the end: unlocked, not done, with the next rowid, the message and the time |
| LiteQueue.LeastUnlockedRowid | litesql.py:235-237 | is None exactly when every row is locked; otherwise it is the rowid of an unlocked row and no unlocked row has a smaller one |
| LiteQueue.Popped | litesql.py:233-237 | `pop` keeps the row count, and each row either stays as it was or only gains the token as its lock; if every row is locked it changes nothing |
| LiteQueue.LockedBeforeUnlocked | litesql.py:233-237 | in a table written by put and pop, every locked row comes before every unlocked one and has a smaller rowid |
| LiteQueue.PopLocksOldestUnlocked | litesql.py:233-237 | `pop` locks the oldest unlocked row with the token and leaves every other row unchanged, including its message and its done flag |
| LiteQueue.PopKeepsLockedRow | litesql.py:233-237 | a row that is already locked keeps its lock through a pop |
| LiteQueue.PutKeepsWellFormed | litesql.py:218-224 | put keeps rowids positive and increasing, unlocked rows at the end, and no row done |
| LiteQueue.PopKeepsWellFormed | litesql.py:226-243 | pop keeps the same shape |
| LiteQueue.PutKeepsLocksDistinct | litesql.py:218-224 | put adds no lock |
| LiteQueue.PopKeepsLocksDistinct | litesql.py:228-237 | pop with a fresh token keeps every lock a well-formed token and no token on two rows |
| LiteQueue.PopClaimsNextRow | litesql.py:233-237 | the row a pop locks is newer than every row already locked, and older than the rows any later pop can lock |
| LiteQueue.ClaimsIncrease | litesql.py:218-243 | in any sequence of puts and pops, the rows are locked in strictly increasing rowid order, so no row is claimed twice, and each is newer than every row locked before the sequence |
| LiteQueue.SizeCountsPuts | litesql.py:251-252 | after any sequence of puts and pops the row count has grown by exactly the number of puts |
| LiteQueue.SQLQueue.constructor | litesql.py:201-206 | a new queue over an empty database has no rows |
| LiteQueue.SQLQueue.Open | litesql.py:193-216 | with a maxsize, opening fails with NotImplemented; without one, it gives a fresh, empty, valid queue |
| LiteQueue.SQLQueue.Put | litesql.py:218-224 | the table becomes the appended table and the returned rowid is the new row's, larger than every rowid before it; the queue invariant is kept |
| LiteQueue.SQLQueue.Pop | litesql.py:226-243 | the table becomes the popped table and the queue invariant is kept; the call then fails with OperationalError "no such table: randhash" |
| LiteQueue.SQLQueue.QSize | litesql.py:251-252 | returns the number of rows, locked or not |
| LiteQueue.SQLQueue.Full | litesql.py:270-271 | always returns false |

## Left out

- Connections, `CREATE TABLE`, the PRAGMAs, `vacuum` and `close` of all three classes are storage set-up and I/O with nothing to state. Each store starts from an empty table, and reopening an existing database file is not modelled.
- Durability, transactions and several connections sharing one file are not modelled. The model is single-threaded. An SQLCounter and an SQLDict opened on the same file share one `Counter` table, and that sharing is not modelled either.
- The JSON encoder and decoder are opaque functions. The model only requires that the decoder undoes the encoder.
- `SQLDict.__iter__`, `__repr__` and `glob` are left out. `__iter__` calls an `itemgetter` that is never imported, `__repr__` only formats text, and `glob` sends the misspelled operator `GOLB` to SQLite.
- `SQLQueue.peek` is left out. Its query has no `ORDER BY`, so which row it returns is not determined.
- `SQLQueue.empty` is left out. It builds malformed SQL.
- LiteQueue.SQLQueue.Pop: `executescript` runs the script's statements one at a time with no enclosing transaction, so the `UPDATE` takes effect and is not undone by the rollback in `with self.conn`. Preparing the trailing `SELECT` then fails, because `randhash` is a common table expression of the `UPDATE` statement alone. So the call always raises `sqlite3.OperationalError` and never returns a message. The model returns that error after the table change. It does not model the Python exception object or the message text beyond SQLite's "no such table: randhash".
- `put`'s `timeout` argument is left out. The code ignores it.
- CounterTable.Incremented: counters are unbounded integers. SQLite stores `value` as a 64-bit integer, and `value + 1` at 9223372036854775807 overflows: SQLite computes the sum in floating point and stores a REAL, so `count` then returns a float and a later decrement does not restore the old count. This limit cannot be reached from an empty table in fewer than 2^63 calls.
- CounterTable.Decremented: the same switch to REAL happens for `value - 1` at -9223372036854775808, and is not modelled for the same reason.
- LiteQueue.SQLQueue.Put: does not model SQLite's fallback once the largest rowid reaches 9223372036854775807. From that point SQLite picks unused rowids at random, so a new rowid would no longer be larger than every other one.
- The `lock_time` and `out_time` columns are left out. Every row this code writes has them NULL.
