/**
 * The two hash tables of 05-hash-table.py.
 *
 * Keys are strings, so `str(key)` is the key itself, and `ord(c)` is the
 * code of the character. A `KeyValue` object never changes after it is
 * made, so it is a value here. Python raises `ZeroDivisionError` when
 * `hash` takes the remainder by an empty bucket list; that outcome is
 * `DivisionByZero`.
 */
module HashTables {
  import opened Wrappers
  import opened PythonLists

  /** A `KeyValue` object. */
  datatype KeyValue<V> = KeyValue(key: string, value: V)

  /** What a call of the proper table comes to: a value, or the `ZeroDivisionError` it raises. */
  datatype Outcome<T> = Returned(value: T) | DivisionByZero

  /** The value of the first entry with the key, or `None` when no entry has it. */
  function Find<V>(entries: seq<KeyValue<V>>, key: string): (r: Option<V>)
    ensures r.None? <==> forall i :: 0 <= i < |entries| ==> entries[i].key != key
  {
    if entries == [] then None
    else if entries[0].key == key then Some(entries[0].value)
    else Find(entries[1..], key)
  }

  /** The earliest entry with the key is the one `Find` answers. */
  lemma {:induction false} FindEarliest<V>(entries: seq<KeyValue<V>>, key: string, i: nat)
    requires i < |entries| && entries[i].key == key
    requires forall j :: 0 <= j < i ==> entries[j].key != key
    ensures Find(entries, key) == Some(entries[i].value)
  {
    if i > 0 {
      FindEarliest(entries[1..], key, i - 1);
    }
  }

  /**
   * An entry appended at the end is found only when no earlier entry has
   * its key: the earliest `set` of a key wins.
   */
  lemma {:induction false} FindAppend<V>(entries: seq<KeyValue<V>>, kv: KeyValue<V>, key: string)
    ensures Find(entries + [kv], key)
         == if Find(entries, key).Some? then Find(entries, key)
            else if kv.key == key then Some(kv.value) else None
  {
    if entries != [] {
      assert (entries + [kv])[1..] == entries[1..] + [kv];
      FindAppend(entries[1..], kv, key);
    }
  }

  /** The entries of the occupied slots, in order. */
  function Present<V>(slots: seq<Option<KeyValue<V>>>): seq<KeyValue<V>>
  {
    if slots == [] then []
    else (if slots[0].Some? then [slots[0].value] else []) + Present(slots[1..])
  }

  /** Empty slots hold no entries. */
  lemma {:induction false} PresentNone<V>(slots: seq<Option<KeyValue<V>>>)
    requires forall i :: 0 <= i < |slots| ==> slots[i].None?
    ensures Present(slots) == []
  {
    if slots != [] {
      PresentNone(slots[1..]);
    }
  }

  /** Appending an occupied slot appends its entry. */
  lemma {:induction false} PresentAppend<V>(slots: seq<Option<KeyValue<V>>>, kv: KeyValue<V>)
    ensures Present(slots + [Some(kv)]) == Present(slots) + [kv]
  {
    if slots != [] {
      assert (slots + [Some(kv)])[1..] == slots[1..] + [Some(kv)];
      PresentAppend(slots[1..], kv);
    }
  }

  // ---------------------------------------------------------------------------
  // BadHashTable

  /**
   * `BadHashTable`: one list of slots, `size` empty ones first, every `set`
   * appended after them, `get` a scan from the front.
   */
  class BadHashTable<V> {
    var list: seq<Option<KeyValue<V>>>

    /** The entries set so far, earliest first. */
    ghost function Entries(): seq<KeyValue<V>>
      reads this
    {
      Present(list)
    }

    constructor (size: int := 20)
      ensures |list| == Repeats(size) && forall i :: 0 <= i < |list| ==> list[i].None?
      ensures Entries() == []
    {
      list := seq(Repeats(size), _ => None);
      new;
      PresentNone(list);
    }

    /** `set(key, value)`: one more entry at the end; nothing is overwritten. */
    method Set(key: string, value: V)
      modifies this
      ensures list == old(list) + [Some(KeyValue(key, value))]
      ensures Entries() == old(Entries()) + [KeyValue(key, value)]
    {
      PresentAppend(list, KeyValue(key, value));
      list := list + [Some(KeyValue(key, value))];
    }

    /** `get(key)`: the value of the earliest entry with the key, skipping empty slots. */
    method Get(key: string) returns (r: Option<V>)
      ensures r == Find(Entries(), key)
    {
      for i := 0 to |list|
        invariant Find(Present(list), key) == Find(Present(list[i..]), key)
      {
        var entry := list[i];
        assert list[i..][1..] == list[i + 1..];
        assert Present(list[i..]) == (if entry.Some? then [entry.value] else []) + Present(list[i + 1..]);
        if entry.Some? && entry.value.key == key {
          return Some(entry.value.value);
        }
        if entry.Some? {
          assert ([entry.value] + Present(list[i + 1..]))[1..] == Present(list[i + 1..]);
        } else {
          assert [] + Present(list[i + 1..]) == Present(list[i + 1..]);
        }
      }
      assert list[|list|..] == [];
      return None;
    }
  }

  // ---------------------------------------------------------------------------
  // HashTable

  /** The sum of the character codes of s: no smaller than the code of any of its characters. */
  function CharSum(s: string): (r: nat)
    ensures forall i :: 0 <= i < |s| ==> s[i] as nat <= r
  {
    if s == [] then 0 else CharSum(s[..|s| - 1]) + s[|s| - 1] as nat
  }

  /** A bucket: a Python list of entries, which `set` appends to in place. */
  class Bucket<V> {
    var entries: seq<KeyValue<V>>

    constructor ()
      ensures entries == []
    {
      entries := [];
    }
  }

  /**
   * `HashTable`. `[list()] * size` repeats one list object, so every slot
   * of `list` is the same bucket; `Valid` records that aliasing.
   */
  class HashTable<V> {
    var list: seq<Bucket<V>>

    ghost predicate Valid()
      reads this
    {
      forall i :: 0 <= i < |list| ==> list[i] == list[0]
    }

    constructor (size: int := 20)
      ensures Valid() && |list| == Repeats(size)
      ensures forall i :: 0 <= i < |list| ==> fresh(list[i]) && list[i].entries == []
    {
      var bucket := new Bucket();
      list := seq(Repeats(size), _ => bucket);
    }

    /**
     * `hash(key)`: the character sum of the key modulo the bucket count,
     * an index into `list`; `DivisionByZero` when there are no buckets.
     */
    method Hash(key: string) returns (r: Outcome<nat>)
      ensures r.DivisionByZero? <==> |list| == 0
      ensures r.Returned? ==> r.value < |list| && r.value == CharSum(key) % |list|
    {
      var total := 0;
      for i := 0 to |key|
        invariant total == CharSum(key[..i])
      {
        assert key[..i + 1][..i] == key[..i];
        total := total + key[i] as nat;
      }
      assert key[..|key|] == key;
      if |list| == 0 {
        return DivisionByZero;
      }
      return Returned(total % |list|);
    }

    /**
     * `set(key, value)`: the entry is appended to the bucket at the hash,
     * which is every bucket; nothing is overwritten and the bucket count
     * stays.
     */
    method Set(key: string, value: V) returns (r: Outcome<()>)
      requires Valid()
      modifies list
      ensures r.DivisionByZero? <==> |list| == 0
      ensures forall i :: 0 <= i < |list| ==> list[i].entries == old(list[0].entries) + [KeyValue(key, value)]
    {
      var index := Hash(key);
      if index.DivisionByZero? {
        return DivisionByZero;
      }
      var entry := KeyValue(key, value);
      list[index.value].entries := list[index.value].entries + [entry];
      return Returned(());
    }

    /** `get(key)`: the value of the earliest entry with the key in the bucket at the hash. */
    method Get(key: string) returns (r: Outcome<Option<V>>)
      requires Valid()
      ensures r.DivisionByZero? <==> |list| == 0
      ensures r.Returned? ==> r.value == Find(list[0].entries, key)
    {
      var index := Hash(key);
      if index.DivisionByZero? {
        return DivisionByZero;
      }
      var entries := list[index.value].entries;
      for i := 0 to |entries|
        invariant Find(entries, key) == Find(entries[i..], key)
      {
        assert entries[i..][1..] == entries[i + 1..];
        if entries[i].key == key {
          return Returned(Some(entries[i].value));
        }
      }
      assert entries[|entries|..] == [];
      return Returned(None);
    }
  }

  /** Setting one key twice in a table of 20 buckets: `get` answers the first value. */
  method EarliestSetWins() returns (r: Outcome<Option<int>>)
    ensures r == Returned(Some(1))
  {
    var table := new HashTable<int>(20);
    var first := table.Set("a", 1);
    var second := table.Set("a", 2);
    r := table.Get("a");
  }
}
