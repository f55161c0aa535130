/** SQLCounter: named integer counters kept in a `Counter` table. */
module LiteCounter {
  import opened Wrappers
  import opened Errors
  import opened CounterTable

  class SQLCounter {
    /** The rows of the `Counter` table, key to value. */
    var table: Table

    /** A store over a database file that has no `Counter` rows yet. */
    constructor ()
      ensures table == map[]
    {
      table := map[];
    }

    /** Add one to `key`'s counter, starting it at 1 when it has no row. */
    method Incr(key: string)
      modifies this
      ensures table == Incremented(old(table), key)
    {
      table := Incremented(table, key);
    }

    /** Subtract one from `key`'s counter, starting it at -1 when it has no row. */
    method Decr(key: string)
      modifies this
      ensures table == Decremented(old(table), key)
    {
      table := Decremented(table, key);
    }

    /** The stored value of `key`, or 0 when it has no row. */
    method Count(key: string) returns (n: int)
      ensures key in table ==> n == table[key]
      ensures key !in table ==> n == 0
    {
      n := CountOf(table, key);
    }

    /** Set `key`'s counter to 0, creating its row when missing. */
    method Zero(key: string)
      modifies this
      ensures table == Zeroed(old(table), key)
    {
      table := Zeroed(table, key);
    }

    /** Deleting a counter is not implemented: the call always raises and the table stays as it was. */
    method Delete(key: string) returns (r: Outcome<Error>)
      ensures r == Fail(NotImplemented)
    {
      r := Fail(NotImplemented);
    }
  }
}
