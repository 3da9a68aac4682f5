/** The environment accessor `Env`. The process environment table is the
    map `table` of an `Env` object; `getenv`, `setenv` (with its overwrite
    flag set) and `unsetenv` become a read, an update and a removal of that
    map. The operations that enumerate the environment take the enumerated
    names as a parameter: in the source those are `Env.keys`, modelled by
    `EnvKeys.ParseKeys` applied to what the `env` command printed. */
module Environment {
  import opened EnvKeys

  datatype Option<T> = None | Some(value: T)

  /** The pairs of two sequences, by position, up to the shorter length
      (Swift's `zip`). */
  function Zip<A, B>(xs: seq<A>, ys: seq<B>): (r: seq<(A, B)>)
    ensures |r| == if |xs| <= |ys| then |xs| else |ys|
    ensures forall i :: 0 <= i < |r| ==> r[i] == (xs[i], ys[i])
    decreases |xs|
  {
    if |xs| == 0 || |ys| == 0 then [] else [(xs[0], ys[0])] + Zip(xs[1..], ys[1..])
  }

  class Env {
    /** The process environment: variable name to value. */
    var table: map<string, string>

    /** An accessor over the environment the process was started with. */
    constructor (inherited: map<string, string>)
      ensures table == inherited
    {
      table := inherited;
    }

    /** `Env.get`, and the subscript getter: the value of `key`, absent when
        the variable is not set. */
    function Get(key: string): (r: Option<string>)
      reads this
      ensures r.Some? <==> key in table
      ensures r.Some? ==> r.value == table[key]
    {
      if key in table then Some(table[key]) else None
    }

    /** `Env.isSet`: whether a lookup of `key` finds a value. */
    function IsSet(key: string): (b: bool)
      reads this
      ensures b <==> Get(key).Some?
    {
      key in table
    }

    /** `Env.set`: always overwrites, whatever the previous value was. */
    method Set(key: string, value: string)
      modifies this
      ensures table == old(table)[key := value]
      ensures Get(key) == Some(value) && IsSet(key)
      ensures forall k :: k != key ==> Get(k) == old(Get(k))
      ensures old(Get(key)) == Some(value) ==> table == old(table)
    {
      table := table[key := value];
    }

    /** `Env.unset`: removes the variable; nothing happens when it is not
        set, so a second call changes nothing. */
    method Unset(key: string)
      modifies this
      ensures table == old(table) - {key}
      ensures !IsSet(key) && Get(key) == None
      ensures forall k :: k != key ==> Get(k) == old(Get(k))
      ensures !old(IsSet(key)) ==> table == old(table)
    {
      table := table - {key};
    }

    /** The subscript setter: assigning a value sets it, assigning nothing
        leaves the environment as it was (it does not unset). */
    method SetSubscript(key: string, value: Option<string>)
      modifies this
      ensures value.None? ==> table == old(table)
      ensures value.Some? ==> table == old(table)[key := value.value]
    {
      if value.Some? {
        Set(key, value.value);
      }
    }

    /** Every enumerated name is set, so that `get($0)!` cannot fail. */
    predicate AllSet(keys: seq<string>)
      reads this
    {
      forall i :: 0 <= i < |keys| ==> keys[i] in table
    }

    /** `Env.values`: the value of each enumerated name, in order. */
    function Values(keys: seq<string>): (r: seq<string>)
      reads this
      requires AllSet(keys)
      ensures |r| == |keys|
      ensures forall i :: 0 <= i < |keys| ==> Get(keys[i]) == Some(r[i])
      decreases |keys|
    {
      if |keys| == 0 then [] else [Get(keys[0]).value] + Values(keys[1..])
    }

    /** `Env.hasValue`: whether some enumerated name has the value. */
    function HasValue(keys: seq<string>, value: string): (b: bool)
      reads this
      requires AllSet(keys)
      ensures b <==> exists i :: 0 <= i < |keys| && table[keys[i]] == value
    {
      var vs := Values(keys);
      assert forall i :: 0 <= i < |keys| ==> vs[i] == table[keys[i]];
      value in vs
    }

    /** `Env.each`: the arguments the callback receives, one call per
        enumerated name, in order. */
    function Each(keys: seq<string>): (calls: seq<(string, string)>)
      reads this
      requires AllSet(keys)
      ensures |calls| == |keys|
      ensures forall i :: 0 <= i < |keys| ==> calls[i] == (keys[i], table[keys[i]])
    {
      Zip(keys, Values(keys))
    }

    /** `Env.clear`: unsets each enumerated name in turn. */
    method Clear(keys: seq<string>)
      modifies this
      ensures table == old(table) - (set k | k in keys)
      ensures forall i :: 0 <= i < |keys| ==> !IsSet(keys[i])
      ensures forall k :: k !in keys ==> Get(k) == old(Get(k))
      ensures (forall k :: k in old(table) ==> k in keys) ==> table == map[]
    {
      var i := 0;
      while i < |keys|
        invariant 0 <= i <= |keys|
        invariant table == old(table) - (set k | k in keys[..i])
      {
        assert keys[..i + 1] == keys[..i] + [keys[i]];
        Unset(keys[i]);
        i := i + 1;
      }
      assert keys[..i] == keys;
    }
  }

  /** `entries` lists the table `m`: each listed entry is a variable of `m`
      with its value, and each variable of `m` is listed. */
  ghost predicate Enumerates(entries: seq<(string, string)>, m: map<string, string>)
  {
    && (forall i :: 0 <= i < |entries| ==> entries[i].0 in m && m[entries[i].0] == entries[i].1)
    && (forall k :: k in m ==> exists i :: 0 <= i < |entries| && entries[i].0 == k)
  }

  /** When the `env` output lists the table, the parsed names are exactly
      the table's variables, in the order they were printed. */
  lemma ParsedKeysOfTable(m: map<string, string>, entries: seq<(string, string)>)
    requires forall i :: 0 <= i < |entries| ==> Printable(entries[i])
    requires Enumerates(entries, m)
    ensures ParseKeys(Listing(entries)) == ListedNames(entries)
    ensures forall i :: 0 <= i < |entries| ==> ParseKeys(Listing(entries))[i] in m
    ensures forall k :: k in m <==> k in ParseKeys(Listing(entries))
  {
    ParseKeysOfListing(entries);
    var keys := ParseKeys(Listing(entries));
    forall k | k in m ensures k in keys {
      var i :| 0 <= i < |entries| && entries[i].0 == k;
      assert keys[i] == k;
    }
  }

  /** On a listing of the table, `values` gives the listed values in the
      order they were printed. */
  lemma ValuesOfTable(e: Env, entries: seq<(string, string)>)
    requires forall i :: 0 <= i < |entries| ==> Printable(entries[i])
    requires Enumerates(entries, e.table)
    ensures e.AllSet(ParseKeys(Listing(entries)))
    ensures e.Values(ParseKeys(Listing(entries))) == ListedValues(entries)
  {
    ParsedKeysOfTable(e.table, entries);
    var vs := e.Values(ParseKeys(Listing(entries)));
    assert |vs| == |ListedValues(entries)|;
    forall i | 0 <= i < |entries| ensures vs[i] == ListedValues(entries)[i] {
      assert e.Get(entries[i].0) == Some(vs[i]);
    }
  }

  /** On a listing of the table, `each` hands the callback exactly the
      listed entries, in the order printed, one call per listed entry. */
  lemma EachOfTable(e: Env, entries: seq<(string, string)>)
    requires forall i :: 0 <= i < |entries| ==> Printable(entries[i])
    requires Enumerates(entries, e.table)
    ensures e.AllSet(ParseKeys(Listing(entries)))
    ensures e.Each(ParseKeys(Listing(entries))) == entries
  {
    ParsedKeysOfTable(e.table, entries);
    var keys := ParseKeys(Listing(entries));
    var calls := e.Each(keys);
    assert |calls| == |entries|;
    forall i | 0 <= i < |entries| ensures calls[i] == entries[i] {
      assert keys[i] == entries[i].0;
    }
  }

  /** On a listing of the table, `hasValue` holds exactly for the values
      that some variable of the table has. */
  lemma HasValueOfTable(e: Env, entries: seq<(string, string)>, value: string)
    requires forall i :: 0 <= i < |entries| ==> Printable(entries[i])
    requires Enumerates(entries, e.table)
    ensures e.AllSet(ParseKeys(Listing(entries)))
    ensures e.HasValue(ParseKeys(Listing(entries)), value) <==> value in e.table.Values
  {
    ParsedKeysOfTable(e.table, entries);
    var keys := ParseKeys(Listing(entries));
    if value in e.table.Values {
      var k :| k in e.table && e.table[k] == value;
      var i :| 0 <= i < |entries| && entries[i].0 == k;
      assert keys[i] == k;
    }
  }

  /** The force-unwrap in `values` can fail: with one variable whose value
      holds "\nB=c", the listing yields the name `B`, which is not set. */
  lemma NewlineInValueBreaksValues(e: Env)
    requires e.table == map["FOO" := "a\nB=c"]
    ensures !e.AllSet(ParseKeys(Listing([("FOO", "a\nB=c")])))
  {
    NewlineInValueAddsName();
    assert ParseKeys(Listing([("FOO", "a\nB=c")]))[1] == "B";
  }
}
