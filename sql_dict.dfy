/**
 * SQLDict: a mutable mapping from string keys to values, kept in a `Dict` table
 * (`key text PRIMARY KEY, value text`) that stores each value through the store's
 * encoder, plus a `Counter` table with the same upserts as SQLCounter.
 */
module LiteDict {
  import opened Wrappers
  import opened Errors
  import CounterTable

  /** The rows of the `Dict` table: key to encoded value. */
  type Rows = map<string, string>

  /** `decode` undoes `encode`, as the JSON encoder and decoder do for the values stored. */
  ghost predicate RoundTrips<V(!new)>(encode: V -> string, decode: string -> V) {
    forall v :: decode(encode(v)) == v
  }

  /** `INSERT OR REPLACE INTO Dict VALUES (key, encoded)`. */
  function Stored(t: Rows, key: string, encoded: string): (r: Rows)
    ensures r.Keys == t.Keys + {key} && r[key] == encoded
    ensures forall k :: k in t && k != key ==> r[k] == t[k]
    ensures |r| == if key in t then |t| else |t| + 1
  {
    var r := t[key := encoded];
    assert key !in t ==> r.Keys == t.Keys + {key} && key !in t.Keys;
    r
  }

  /** `SELECT value FROM Dict WHERE key = ?`, decoded; no row raises KeyError. */
  function Lookup<V>(t: Rows, decode: string -> V, key: string): (r: Result<V, Error>)
    ensures r.Success? <==> key in t
    ensures r.Failure? ==> r.error == KeyError(key)
    ensures r.Success? ==> r.value == decode(t[key])
  {
    if key in t then Success(decode(t[key])) else Failure(KeyError(key))
  }

  /** `del d[key]`: KeyError when there is no row, otherwise the table without that one row. */
  function Deleted(t: Rows, key: string): (r: Result<Rows, Error>)
    ensures r.Failure? <==> key !in t
    ensures r.Failure? ==> r.error == KeyError(key)
    ensures r.Success? ==> r.value.Keys == t.Keys - {key} && |r.value| == |t| - 1
    ensures r.Success? ==> forall k :: k in r.value ==> r.value[k] == t[k]
  {
    if key !in t then Failure(KeyError(key))
    else
      var r := t - {key};
      assert t.Keys == r.Keys + {key} && key !in r.Keys;
      Success(r)
  }

  /** `d[key] = v` then `d[key]` gives `v` back, and reads of other keys see no change. */
  lemma SetThenGet<V(!new)>(t: Rows, encode: V -> string, decode: string -> V, key: string, v: V, other: string)
    requires RoundTrips(encode, decode)
    requires other != key
    ensures Lookup(Stored(t, key, encode(v)), decode, key) == Success(v)
    ensures Lookup(Stored(t, key, encode(v)), decode, other) == Lookup(t, decode, other)
  {
  }

  /** After a successful `del d[key]`, reading `key` raises KeyError and other keys read as before. */
  lemma DeleteThenGet<V>(t: Rows, decode: string -> V, key: string, other: string)
    requires key in t && other != key
    ensures Deleted(t, key).Success?
    ensures Lookup(Deleted(t, key).value, decode, key) == Failure(KeyError(key))
    ensures Lookup(Deleted(t, key).value, decode, other) == Lookup(t, decode, other)
  {
  }

  /** Storing a key and then deleting it leaves the table as it was before, if the key was new. */
  lemma SetThenDelete(t: Rows, key: string, encoded: string)
    requires key !in t
    ensures Deleted(Stored(t, key, encoded), key) == Success(t)
  {
    var r := Deleted(Stored(t, key, encoded), key).value;
    assert r.Keys == t.Keys;
    assert forall k :: k in r ==> r[k] == t[k];
    assert r == t;
  }

  class SQLDict<V(!new)> {
    const encode: V -> string
    const decode: string -> V
    /** The rows of the `Dict` table. */
    var table: Rows
    /** The rows of this store's `Counter` table. */
    var counters: CounterTable.Table

    ghost predicate Valid()
      reads this
    {
      RoundTrips(encode, decode)
    }

    /** A store over a database file that has no rows yet, with the given value codec. */
    constructor (encode: V -> string, decode: string -> V)
      requires RoundTrips(encode, decode)
      ensures Valid() && this.encode == encode && this.decode == decode
      ensures table == map[] && counters == map[]
    {
      this.encode := encode;
      this.decode := decode;
      table := map[];
      counters := map[];
    }

    /** `d[key] = value`: insert or replace the key's row. */
    method SetItem(key: string, value: V)
      requires Valid()
      modifies this
      ensures Valid()
      ensures table == Stored(old(table), key, encode(value))
      ensures Lookup(table, decode, key) == Success(value)
      ensures counters == old(counters)
    {
      table := Stored(table, key, encode(value));
    }

    /** `d[key]`: the decoded stored value, or KeyError. */
    method GetItem(key: string) returns (r: Result<V, Error>)
      ensures key in table ==> r == Success(decode(table[key]))
      ensures key !in table ==> r == Failure(KeyError(key))
    {
      r := Lookup(table, decode, key);
    }

    /** `del d[key]`: a membership test, then the row's deletion. */
    method DelItem(key: string) returns (r: Outcome<Error>)
      modifies this
      ensures Deleted(old(table), key).Failure? ==>
                r == Fail(Deleted(old(table), key).error) && table == old(table)
      ensures Deleted(old(table), key).Success? ==>
                r == Pass && table == Deleted(old(table), key).value
      ensures counters == old(counters)
    {
      if key !in table {
        return Fail(KeyError(key));
      }
      table := Deleted(table, key).value;
      r := Pass;
    }

    /** `len(d)`: the number of rows in `Dict`. */
    method Len() returns (n: nat)
      ensures n == |table.Keys|
    {
      n := |table|;
    }

    /** Add one to counter `key`, starting it at 1 when it has no row. */
    method Incr(key: string)
      modifies this
      ensures counters == CounterTable.Incremented(old(counters), key)
      ensures table == old(table)
    {
      counters := CounterTable.Incremented(counters, key);
    }

    /** Subtract one from counter `key`, starting it at -1 when it has no row. */
    method Decr(key: string)
      modifies this
      ensures counters == CounterTable.Decremented(old(counters), key)
      ensures table == old(table)
    {
      counters := CounterTable.Decremented(counters, key);
    }

    /** The value of counter `key`, or 0 when it has no row. */
    method Count(key: string) returns (n: int)
      ensures key in counters ==> n == counters[key]
      ensures key !in counters ==> n == 0
    {
      n := CounterTable.CountOf(counters, key);
    }

    /** Set counter `key` to 0, creating its row when missing. */
    method ResetCount(key: string)
      modifies this
      ensures counters == CounterTable.Zeroed(old(counters), key)
      ensures table == old(table)
    {
      counters := CounterTable.Zeroed(counters, key);
    }
  }

  /** A write then a read of the same key gives the value back; replacing it keeps the
      length; deleting it makes the next read and delete raise KeyError. */
  method DictScenario(encode: int -> string, decode: string -> int)
    requires RoundTrips(encode, decode)
  {
    var d := new SQLDict(encode, decode);
    d.SetItem("a", 1);
    var r := d.GetItem("a");
    assert r == Success(1);
    d.SetItem("a", 2);
    var n := d.Len();
    assert n == 1;
    var gone := d.DelItem("a");
    assert gone == Pass;
    r := d.GetItem("a");
    assert r == Failure(KeyError("a"));
    gone := d.DelItem("a");
    assert gone == Fail(KeyError("a"));
  }
}
