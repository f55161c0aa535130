/**
 * The `Counter` table (`key text PRIMARY KEY, value integer`) that both SQLCounter
 * and SQLDict keep. Every write to it is one SQLite upsert,
 *   INSERT INTO Counter VALUES (key, seed) ON CONFLICT(key) DO UPDATE SET value = step(value),
 * so the table is a map from key to integer, and a read of a key with no row gives 0.
 */
module CounterTable {

  type Table = map<string, int>

  /** `SELECT value FROM Counter WHERE key = ?`, where no row reads as 0. */
  function CountOf(t: Table, key: string): int {
    if key in t then t[key] else 0
  }

  /** `r` agrees with `t` on every key other than `key`, rows and values alike. */
  ghost predicate SameExcept(t: Table, r: Table, key: string) {
    forall k :: k != key ==> (k in r <==> k in t) && (k in t ==> r[k] == t[k])
  }

  /** The upsert: a new row holding `seed`, or the existing row's value passed through `step`. */
  function Upsert(t: Table, key: string, seed: int, step: int -> int): (r: Table)
    ensures key in r && r[key] == (if key in t then step(t[key]) else seed)
    ensures SameExcept(t, r, key)
  {
    t[key := if key in t then step(t[key]) else seed]
  }

  /** `VALUES (?, 1) ... SET value = value + 1`: the count of `key` goes up by one. */
  function Incremented(t: Table, key: string): (r: Table)
    ensures key in r && CountOf(r, key) == CountOf(t, key) + 1
    ensures SameExcept(t, r, key)
  {
    Upsert(t, key, 1, v => v + 1)
  }

  /** `VALUES (?, -1) ... SET value = value - 1`: the count of `key` goes down by one. */
  function Decremented(t: Table, key: string): (r: Table)
    ensures key in r && CountOf(r, key) == CountOf(t, key) - 1
    ensures SameExcept(t, r, key)
  {
    Upsert(t, key, -1, v => v - 1)
  }

  /** `VALUES (?, 0) ... SET value = 0`: `key` has a row holding 0 afterwards. */
  function Zeroed(t: Table, key: string): (r: Table)
    ensures key in r && r[key] == 0 && CountOf(r, key) == 0
    ensures SameExcept(t, r, key)
  {
    Upsert(t, key, 0, v => 0)
  }

  /** An increment followed by a decrement gives back the count, and the table too
      except that a key that had no row now has a row holding 0. */
  lemma IncrThenDecr(t: Table, key: string)
    ensures CountOf(Decremented(Incremented(t, key), key), key) == CountOf(t, key)
    ensures Decremented(Incremented(t, key), key) == t[key := CountOf(t, key)]
    ensures key in t ==> Decremented(Incremented(t, key), key) == t
  {
  }

  /** A decrement followed by an increment gives back the count in the same way. */
  lemma DecrThenIncr(t: Table, key: string)
    ensures CountOf(Incremented(Decremented(t, key), key), key) == CountOf(t, key)
    ensures Incremented(Decremented(t, key), key) == t[key := CountOf(t, key)]
  {
  }

  /** Zeroing twice is zeroing once, and whatever came before a zero is forgotten. */
  lemma ZeroForgets(t: Table, key: string)
    ensures Zeroed(Zeroed(t, key), key) == Zeroed(t, key)
    ensures Zeroed(Incremented(t, key), key) == Zeroed(t, key)
    ensures Zeroed(Decremented(t, key), key) == Zeroed(t, key)
  {
  }

  /** Counts of different keys do not interfere: an update of `key` is invisible to `other`. */
  lemma UpdatesAreIndependent(t: Table, key: string, other: string)
    requires key != other
    ensures CountOf(Incremented(t, key), other) == CountOf(t, other)
    ensures CountOf(Decremented(t, key), other) == CountOf(t, other)
    ensures CountOf(Zeroed(t, key), other) == CountOf(t, other)
  {
  }
}
