/**
 * SQLQueue: a work queue kept in a `Queue` table
 *   (message TEXT NOT NULL, locked TEXT, done INTEGER, in_time INTEGER NOT NULL, lock_time, out_time)
 * whose rows carry SQLite's implicit rowid. `put` appends a row; `pop` writes a random
 * lock token into the unlocked row with the least rowid and then raises.
 *
 * The table is a sequence of rows in rowid order (the order SQLite stores them in).
 * The `lock_time` and `out_time` columns are NULL in every row this code writes and
 * are not represented.
 */
module LiteQueue {
  import opened Wrappers
  import opened Errors

  /** One row of `Queue`: its rowid, its message, the lock token (NULL while unclaimed),
      the `done` flag and the insertion time. */
  datatype Row = Row(rowid: int, message: string, locked: Option<string>, done: bool, inTime: int)

  /** The text of `lower(hex(randomblob(16)))`: 32 lower-case hexadecimal digits. */
  predicate IsLockToken(s: string) {
    |s| == 32 && forall i :: 0 <= i < |s| ==> s[i] in "0123456789abcdef"
  }

  /** The shape of every table that only `put` and `pop` have written: rowids are positive
      and increase along the table, the unlocked rows form a suffix (every row after an
      unlocked one is unlocked), and no row is done, since nothing sets `done`. */
  ghost predicate WellFormed(rows: seq<Row>) {
    && (forall i :: 0 <= i < |rows| ==> rows[i].rowid >= 1 && !rows[i].done)
    && (forall i, j :: 0 <= i < j < |rows| ==> rows[i].rowid < rows[j].rowid)
    && (forall i, j :: 0 <= i < j < |rows| && rows[i].locked.None? ==> rows[j].locked.None?)
  }

  /** Every lock is a token of the right form, and no two rows hold the same one. */
  ghost predicate LocksDistinct(rows: seq<Row>) {
    && (forall i :: 0 <= i < |rows| && rows[i].locked.Some? ==> IsLockToken(rows[i].locked.value))
    && (forall i, j :: 0 <= i < j < |rows| && rows[i].locked.Some? ==> rows[i].locked != rows[j].locked)
  }

  /** The largest rowid in the table, or 0 when the table is empty. */
  function MaxRowid(rows: seq<Row>): (m: int)
    ensures forall i :: 0 <= i < |rows| ==> rows[i].rowid <= m
    ensures rows != [] ==> exists i :: 0 <= i < |rows| && rows[i].rowid == m
    ensures rows == [] ==> m == 0
  {
    if rows == [] then 0
    else if |rows| == 1 then rows[0].rowid
    else
      var m := MaxRowid(rows[1..]);
      assert forall i :: 1 <= i < |rows| ==> rows[i] == rows[1..][i - 1];
      if rows[0].rowid > m then rows[0].rowid else m
  }

  /** The rowid SQLite gives a row inserted without one into a table declared without
      AUTOINCREMENT: one more than the largest rowid present, so 1 for an empty table. */
  function NextRowid(rows: seq<Row>): (id: int)
    ensures forall i :: 0 <= i < |rows| ==> rows[i].rowid < id
    ensures rows == [] ==> id == 1
  {
    MaxRowid(rows) + 1
  }

  /** `INSERT INTO Queue VALUES (:message, NULL, 0, now, NULL, NULL)`. */
  function Appended(rows: seq<Row>, message: string, now: int): (r: seq<Row>)
    ensures |r| == |rows| + 1 && r[..|rows|] == rows
    ensures r[|rows|] == Row(NextRowid(rows), message, None, false, now)
  {
    rows + [Row(NextRowid(rows), message, None, false, now)]
  }

  /** `SELECT rowid FROM Queue WHERE locked IS NULL ORDER BY rowid LIMIT 1`: the least
      rowid among the unlocked rows, or None (SQL NULL) when every row is locked. */
  function LeastUnlockedRowid(rows: seq<Row>): (r: Option<int>)
    ensures r.None? <==> forall i :: 0 <= i < |rows| ==> rows[i].locked.Some?
    ensures r.Some? ==> exists i :: 0 <= i < |rows| && rows[i].locked.None? && rows[i].rowid == r.value
    ensures r.Some? ==> forall i :: 0 <= i < |rows| && rows[i].locked.None? ==> r.value <= rows[i].rowid
  {
    if rows == [] then None
    else
      var rest := LeastUnlockedRowid(rows[1..]);
      assert forall i :: 1 <= i < |rows| ==> rows[i] == rows[1..][i - 1];
      if rows[0].locked.Some? || (rest.Some? && rest.value < rows[0].rowid) then rest
      else Some(rows[0].rowid)
  }

  /** The `UPDATE Queue SET locked = token WHERE rowid = (least unlocked rowid)` of `pop`.
      It touches only the `locked` column, and only of an unlocked row; when every row is
      locked the subquery is NULL, no row matches and the table is unchanged. */
  function Popped(rows: seq<Row>, token: string): (r: seq<Row>)
    ensures |r| == |rows|
    ensures forall i :: 0 <= i < |rows| ==> r[i] == rows[i] || r[i] == rows[i].(locked := Some(token))
    ensures (forall i :: 0 <= i < |rows| ==> rows[i].locked.Some?) ==> r == rows
  {
    var target := LeastUnlockedRowid(rows);
    seq(|rows|, i requires 0 <= i < |rows| =>
      if target == Some(rows[i].rowid) then rows[i].(locked := Some(token)) else rows[i])
  }

  /** In a well-formed table every locked row comes before, and so has a smaller rowid
      than, every unlocked row. */
  lemma LockedBeforeUnlocked(rows: seq<Row>, k: int, u: int)
    requires WellFormed(rows)
    requires 0 <= k < |rows| && 0 <= u < |rows|
    requires rows[k].locked.Some? && rows[u].locked.None?
    ensures k < u && rows[k].rowid < rows[u].rowid
  {
  }

  /** `pop` locks exactly the oldest unlocked row, with the given token, and leaves every
      other row as it was. */
  lemma PopLocksOldestUnlocked(rows: seq<Row>, token: string, i: int)
    requires WellFormed(rows)
    requires 0 <= i < |rows| && rows[i].locked.None?
    requires forall j :: 0 <= j < |rows| && rows[j].locked.None? ==> rows[i].rowid <= rows[j].rowid
    ensures Popped(rows, token)[i] == rows[i].(locked := Some(token))
    ensures forall j :: 0 <= j < |rows| && j != i ==> Popped(rows, token)[j] == rows[j]
  {
    var target := LeastUnlockedRowid(rows);
    assert target == Some(rows[i].rowid);
    forall j | 0 <= j < |rows| && j != i
      ensures Popped(rows, token)[j] == rows[j]
    {
      if j < i {
        assert rows[j].rowid < rows[i].rowid;
      } else {
        assert rows[i].rowid < rows[j].rowid;
      }
    }
  }

  /** `pop` leaves a row that is already locked as it is (rowids being distinct). */
  lemma PopKeepsLockedRow(rows: seq<Row>, token: string, k: int)
    requires WellFormed(rows)
    requires 0 <= k < |rows| && rows[k].locked.Some?
    ensures Popped(rows, token)[k] == rows[k]
  {
  }

  /** `put` keeps the table well formed, and its new row's rowid exceeds every other. */
  lemma PutKeepsWellFormed(rows: seq<Row>, message: string, now: int)
    requires WellFormed(rows)
    ensures WellFormed(Appended(rows, message, now))
  {
  }

  /** `pop` keeps the table well formed: the row it locks is the first unlocked one. */
  lemma PopKeepsWellFormed(rows: seq<Row>, token: string)
    requires WellFormed(rows)
    ensures WellFormed(Popped(rows, token))
  {
    var r := Popped(rows, token);
    forall i, j | 0 <= i < j < |r| && r[i].locked.None?
      ensures r[j].locked.None?
    {
      assert rows[i].locked.None?;
    }
  }

  /** `put` and `pop` with a fresh token keep the locks distinct. */
  lemma PutKeepsLocksDistinct(rows: seq<Row>, message: string, now: int)
    requires LocksDistinct(rows)
    ensures LocksDistinct(Appended(rows, message, now))
  {
  }

  lemma PopKeepsLocksDistinct(rows: seq<Row>, token: string)
    requires WellFormed(rows) && LocksDistinct(rows)
    requires IsLockToken(token)
    requires forall i :: 0 <= i < |rows| ==> rows[i].locked != Some(token)
    ensures LocksDistinct(Popped(rows, token))
  {
  }

  /** One call on the queue, with what the caller supplies for the clock and the random token. */
  datatype Op = Put(message: string, now: int) | Pop(token: string)

  function Apply(rows: seq<Row>, op: Op): seq<Row> {
    match op
    case Put(message, now) => Appended(rows, message, now)
    case Pop(token) => Popped(rows, token)
  }

  /** The rowid that `op` locks, if it is a `pop` and some row is unlocked. */
  function Claimed(rows: seq<Row>, op: Op): Option<int> {
    if op.Pop? then LeastUnlockedRowid(rows) else None
  }

  /** The rowids locked, in order, by running `ops` from `rows`. */
  function Claims(rows: seq<Row>, ops: seq<Op>): seq<int>
    decreases |ops|
  {
    if ops == [] then []
    else
      (match Claimed(rows, ops[0]) case Some(id) => [id] case None => [])
      + Claims(Apply(rows, ops[0]), ops[1..])
  }

  ghost predicate StrictlyIncreasing(s: seq<int>) {
    forall i, j :: 0 <= i < j < |s| ==> s[i] < s[j]
  }

  /** Every locked row of `rows` has a rowid below `c`. */
  ghost predicate LockedBelow(rows: seq<Row>, c: int) {
    forall k :: 0 <= k < |rows| && rows[k].locked.Some? ==> rows[k].rowid < c
  }

  /** Neither call unlocks a row or moves one: a row locked before is locked after, at the same place. */
  lemma ApplyKeepsLocks(rows: seq<Row>, op: Op, c: int)
    requires WellFormed(rows)
    requires LockedBelow(Apply(rows, op), c)
    ensures LockedBelow(rows, c)
  {
    var next := Apply(rows, op);
    forall k | 0 <= k < |rows| && rows[k].locked.Some?
      ensures rows[k].rowid < c
    {
      if op.Pop? {
        PopKeepsLockedRow(rows, op.token, k);
      }
      assert next[k] == rows[k];
    }
  }

  lemma PrependKeepsIncreasing(id: int, rest: seq<int>)
    requires StrictlyIncreasing(rest)
    requires forall c :: c in rest ==> id < c
    ensures StrictlyIncreasing([id] + rest)
  {
    var s := [id] + rest;
    forall i, j | 0 <= i < j < |s| ensures s[i] < s[j] {
      assert s[j] == rest[j - 1] && rest[j - 1] in rest;
      if i > 0 {
        assert s[i] == rest[i - 1];
      }
    }
  }

  /** The row a `pop` locks has a rowid above every row locked before it, and below
      every rowid that is above all the rows locked after it. */
  lemma PopClaimsNextRow(rows: seq<Row>, token: string, id: int)
    requires WellFormed(rows)
    requires LeastUnlockedRowid(rows) == Some(id)
    ensures LockedBelow(rows, id)
    ensures forall c :: LockedBelow(Popped(rows, token), c) ==> id < c
  {
    var u :| 0 <= u < |rows| && rows[u].locked.None? && rows[u].rowid == id;
    forall k | 0 <= k < |rows| && rows[k].locked.Some? ensures rows[k].rowid < id {
      LockedBeforeUnlocked(rows, k, u);
    }
    assert Popped(rows, token)[u].locked.Some?;
  }

  /** Under any interleaving of `put`s and `pop`s, the rows are claimed in strictly
      increasing rowid order (so no row is claimed twice), and every claim is of a row
      newer than all the rows that were already locked. */
  lemma {:induction false} ClaimsIncrease(ops: seq<Op>, rows: seq<Row>)
    requires WellFormed(rows)
    ensures StrictlyIncreasing(Claims(rows, ops))
    ensures forall c :: c in Claims(rows, ops) ==> LockedBelow(rows, c)
  {
    if ops != [] {
      var op, next := ops[0], Apply(rows, ops[0]);
      if op.Put? {
        PutKeepsWellFormed(rows, op.message, op.now);
      } else {
        PopKeepsWellFormed(rows, op.token);
      }
      var rest := Claims(next, ops[1..]);
      ClaimsIncrease(ops[1..], next);
      forall c | c in rest ensures LockedBelow(rows, c) {
        ApplyKeepsLocks(rows, op, c);
      }
      var claimed := Claimed(rows, op);
      if claimed.Some? {
        PopClaimsNextRow(rows, op.token, claimed.value);
        assert Claims(rows, ops) == [claimed.value] + rest;
        PrependKeepsIncreasing(claimed.value, rest);
      } else {
        assert Claims(rows, ops) == rest;
      }
    }
  }

  /** The table after running `ops` from `rows`. */
  function Run(rows: seq<Row>, ops: seq<Op>): seq<Row>
    decreases |ops|
  {
    if ops == [] then rows else Run(Apply(rows, ops[0]), ops[1..])
  }

  /** The number of `put`s in `ops`. */
  function PutCount(ops: seq<Op>): nat
    decreases |ops|
  {
    if ops == [] then 0 else (if ops[0].Put? then 1 else 0) + PutCount(ops[1..])
  }

  /** `qsize` counts every row, locked or not: each `put` adds one and no `pop` removes one. */
  lemma {:induction false} SizeCountsPuts(ops: seq<Op>, rows: seq<Row>)
    ensures |Run(rows, ops)| == |rows| + PutCount(ops)
  {
    if ops != [] {
      SizeCountsPuts(ops[1..], Apply(rows, ops[0]));
    }
  }

  /** SQLite's message for the trailing `SELECT` of `pop`. */
  const RandhashMissing: string := "no such table: randhash"

  class SQLQueue {
    /** The rows of the `Queue` table, in rowid order. */
    var rows: seq<Row>

    ghost predicate Valid()
      reads this
    {
      WellFormed(rows) && LocksDistinct(rows)
    }

    /** A queue over a database file that has no `Queue` rows yet. */
    constructor ()
      ensures Valid() && rows == []
    {
      rows := [];
    }

    /** Opening a queue with a `maxsize` raises NotImplementedError; without one, the queue starts empty. */
    static method Open(maxsize: Option<int>) returns (r: Result<SQLQueue, Error>)
      ensures maxsize.Some? ==> r == Failure(NotImplemented)
      ensures maxsize.None? ==> r.Success? && fresh(r.value) && r.value.Valid() && r.value.rows == []
    {
      if maxsize.Some? {
        return Failure(NotImplemented);
      }
      var q := new SQLQueue();
      r := Success(q);
    }

    /** Append `message` as an unlocked, not-done row stamped `now`, and return its rowid,
        which is larger than every rowid already in the table. */
    method Put(message: string, now: int) returns (rid: int)
      requires Valid()
      modifies this
      ensures Valid()
      ensures rows == Appended(old(rows), message, now)
      ensures rid == rows[|rows| - 1].rowid
      ensures forall i :: 0 <= i < |old(rows)| ==> old(rows)[i].rowid < rid
    {
      PutKeepsWellFormed(rows, message, now);
      PutKeepsLocksDistinct(rows, message, now);
      rows := Appended(rows, message, now);
      rid := rows[|rows| - 1].rowid;
    }

    /** Lock the oldest unlocked row with `token`, which stands for the fresh random
        `lower(hex(randomblob(16)))`; a no-op when every row is locked.
        The script's statements run one at a time outside any transaction, so the
        `UPDATE` takes effect; the trailing `SELECT` then names `randhash`, which only
        the `UPDATE` statement defined, and the call raises OperationalError. */
    method Pop(token: string) returns (r: Outcome<Error>)
      requires Valid()
      requires IsLockToken(token)
      requires forall i :: 0 <= i < |rows| ==> rows[i].locked != Some(token)
      modifies this
      ensures Valid()
      ensures rows == Popped(old(rows), token)
      ensures r == Fail(OperationalError(RandhashMissing))
    {
      PopKeepsWellFormed(rows, token);
      PopKeepsLocksDistinct(rows, token);
      rows := Popped(rows, token);
      r := Fail(OperationalError(RandhashMissing));
    }

    /** `SELECT COUNT(*) FROM Queue`: every row, locked or not. */
    method QSize() returns (n: nat)
      ensures n == |rows|
    {
      n := |rows|;
    }

    /** The queue is never full. */
    method Full() returns (full: bool)
      ensures !full
    {
      full := false;
    }
  }

  /** Two messages put into an empty queue are claimed in the order they were put, and
      claiming changes neither the size nor the messages, although each `pop` raises. */
  method PutPopScenario(a: string, b: string, t1: string, t2: string)
    requires IsLockToken(t1) && IsLockToken(t2) && t1 != t2
  {
    var q := new SQLQueue();
    var ra := q.Put(a, 100);
    var rb := q.Put(b, 101);
    assert ra == 1 && rb == 2;
    var e1 := q.Pop(t1);
    assert e1.Fail?;
    assert q.rows[0] == Row(1, a, Some(t1), false, 100);
    assert q.rows[1] == Row(2, b, None, false, 101);
    var e2 := q.Pop(t2);
    assert q.rows[1] == Row(2, b, Some(t2), false, 101);
    var n := q.QSize();
    assert n == 2;
  }
}
