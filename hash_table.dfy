/**
 * The fixed-bucket hash table: an array of `capacity` slots, each empty or
 * holding one key/value pair, and a count of the pairs stored. The strict
 * insert places a pair in the bucket its key hashes to and refuses any bucket
 * that is already occupied. The chaining insert and the upserting insert are
 * empty and change nothing.
 */
module HashTables {
  import opened Digest

  datatype Option<+T> = None | Some(value: T)

  /** A stored entry. `next` would link a chain of entries; nothing sets it here. */
  datatype KeyValuePair<V> = KeyValuePair(key: string, value: V, next: Option<KeyValuePair<V>>)

  /** A freshly created entry, not linked to any other. */
  function NewPair<V>(key: string, value: V): (p: KeyValuePair<V>)
    ensures p.key == key && p.value == value && p.next == None
  {
    KeyValuePair(key, value, None)
  }

  /** What the strict insert reports: the pair was stored, or its bucket was taken. */
  datatype InsertOutcome = Inserted | CollisionError

  /** The bucket count of a table built without an explicit one. */
  const DefaultCapacity: nat := 4

  /** Number of occupied slots, counted from the last slot backwards. */
  function Occupied<T>(slots: seq<Option<T>>): (n: nat)
    ensures n <= |slots|
  {
    if slots == [] then 0
    else Occupied(slots[..|slots| - 1]) + (if slots[|slots| - 1].Some? then 1 else 0)
  }

  /** The indices of the occupied slots. */
  function OccupiedIndices<T>(slots: seq<Option<T>>): (s: set<nat>) {
    set i: nat | i < |slots| && slots[i].Some?
  }

  /** Occupied counts exactly the occupied indices. */
  lemma {:induction false} OccupiedCountsIndices<T>(slots: seq<Option<T>>)
    ensures Occupied(slots) == |OccupiedIndices(slots)|
  {
    if slots != [] {
      var n := |slots| - 1;
      var front := slots[..n];
      OccupiedCountsIndices(front);
      if slots[n].Some? {
        assert OccupiedIndices(slots) == OccupiedIndices(front) + {n};
      } else {
        assert OccupiedIndices(slots) == OccupiedIndices(front);
      }
    }
  }

  /** A sequence of empty slots has no occupied slot. */
  lemma {:induction false} OccupiedAllEmpty<T>(slots: seq<Option<T>>)
    requires forall i :: 0 <= i < |slots| ==> slots[i].None?
    ensures Occupied(slots) == 0
  {
    if slots != [] {
      OccupiedAllEmpty(slots[..|slots| - 1]);
    }
  }

  /** Filling one empty slot raises the number of occupied slots by exactly one. */
  lemma {:induction false} OccupiedFill<T>(slots: seq<Option<T>>, i: nat, x: T)
    requires i < |slots| && slots[i].None?
    ensures Occupied(slots[i := Some(x)]) == Occupied(slots) + 1
  {
    var n := |slots| - 1;
    var filled := slots[i := Some(x)];
    if i == n {
      assert filled[..n] == slots[..n];
    } else {
      assert filled[..n] == slots[..n][i := Some(x)];
      OccupiedFill(slots[..n], i, x);
    }
  }

  class HashTable<V> {
    /** The SHA-256 primitive the table hashes keys with. */
    const sha256: Sha256
    /** The number of buckets, fixed for the table's lifetime. */
    const capacity: nat
    /** The buckets. */
    const data: array<Option<KeyValuePair<V>>>
    /** The number of stored pairs. */
    var count: nat

    /**
     * The table invariant: one slot per bucket, `count` is the number of
     * occupied slots, and every stored pair is unlinked and sits in the
     * bucket its own key hashes to.
     */
    ghost predicate Valid()
      reads this, data
    {
      && capacity > 0
      && data.Length == capacity
      && count == Occupied(data[..])
      && forall i :: 0 <= i < data.Length && data[i].Some? ==>
           data[i].value.next == None && HashMod(sha256, data[i].value.key, capacity) == i
    }

    /** A table of `numBuckets` empty buckets holding no pair. */
    constructor (sha256: Sha256, numBuckets: nat := DefaultCapacity)
      requires numBuckets > 0
      ensures Valid() && fresh(data)
      ensures this.sha256 == sha256
      ensures count == 0 && capacity == numBuckets && data.Length == numBuckets
      ensures forall i :: 0 <= i < data.Length ==> data[i] == None
    {
      this.sha256 := sha256;
      count := 0;
      capacity := numBuckets;
      data := new Option<KeyValuePair<V>>[numBuckets](_ => None);
      new;
      OccupiedAllEmpty(data[..]);
    }

    /**
     * The strict insert. If the key's bucket is occupied, by a different key
     * or by the same one, it reports a collision and changes nothing;
     * otherwise it stores a new unlinked pair there and counts it. No other
     * slot changes.
     */
    method InsertNoCollisions(key: string, value: V) returns (outcome: InsertOutcome)
      requires Valid()
      modifies this, data
      ensures Valid()
      ensures outcome == CollisionError <==> old(data[HashMod(sha256, key, capacity)]).Some?
      ensures outcome == CollisionError ==> count == old(count) && data[..] == old(data[..])
      ensures outcome == Inserted ==>
                count == old(count) + 1 &&
                data[..] == old(data[..])[HashMod(sha256, key, capacity) := Some(NewPair(key, value))]
    {
      var index := HashMod(sha256, key, capacity);
      if data[index].Some? {
        outcome := CollisionError;
      } else {
        OccupiedFill(data[..], index, NewPair(key, value));
        data[index] := Some(NewPair(key, value));
        count := count + 1;
        outcome := Inserted;
      }
    }

    /** The chaining insert: its body is empty, so it changes nothing. */
    method InsertWithHashCollisions(key: string, value: V)
      requires Valid()
      ensures Valid() && count == old(count) && data[..] == old(data[..])
    {
    }

    /** The upserting insert: its body is empty, so it changes nothing. */
    method Insert(key: string, value: V)
      requires Valid()
      ensures Valid() && count == old(count) && data[..] == old(data[..])
    {
    }
  }

  /** In a valid table, no key is stored twice. */
  lemma KeysDistinct<V>(t: HashTable<V>, i: nat, j: nat)
    requires t.Valid()
    requires i < t.data.Length && j < t.data.Length && i != j
    requires t.data[i].Some? && t.data[j].Some?
    ensures t.data[i].value.key != t.data[j].value.key
  {
  }

  /**
   * Two strict inserts whose keys share a bucket that starts empty: the first
   * stores its pair, and the second always reports a collision and leaves the
   * count where the first left it, whether the keys are equal or not.
   */
  method SecondInsertIntoBucketFails<V>(t: HashTable<V>, key1: string, value1: V, key2: string, value2: V)
    returns (first: InsertOutcome, second: InsertOutcome)
    requires t.Valid()
    requires HashMod(t.sha256, key1, t.capacity) == HashMod(t.sha256, key2, t.capacity)
    requires t.data[HashMod(t.sha256, key1, t.capacity)].None?
    modifies t, t.data
    ensures t.Valid()
    ensures first == Inserted && second == CollisionError
    ensures t.count == old(t.count) + 1
    ensures t.data[..] == old(t.data[..])[HashMod(t.sha256, key1, t.capacity) := Some(NewPair(key1, value1))]
  {
    first := t.InsertNoCollisions(key1, value1);
    second := t.InsertNoCollisions(key2, value2);
  }

  /**
   * The demonstration run: a two-bucket table, with "key-1" hashing to bucket 0
   * and "key-2" to bucket 1, receives both pairs and ends with both stored.
   */
  method LocalTesting(sha256: Sha256) returns (t: HashTable<string>)
    requires HashMod(sha256, "key-1", 2) == 0 && HashMod(sha256, "key-2", 2) == 1
    ensures t.Valid()
    ensures t.count == 2 && t.capacity == 2 && t.data.Length == 2
    ensures t.data[0] == Some(KeyValuePair("key-1", "val-1", None))
    ensures t.data[1] == Some(KeyValuePair("key-2", "val-2", None))
  {
    t := new HashTable(sha256, 2);
    var outcomeA := t.InsertNoCollisions("key-1", "val-1");
    var outcomeB := t.InsertNoCollisions("key-2", "val-2");
  }
}
