# Fixed-bucket hash table

A model of the `HashTable` class in `hash-table.js`, together with its `KeyValuePair` entries.

- A table has a fixed number of buckets (`capacity`, 4 by default). It keeps an array `data` of that many slots and a `count` of the pairs it stores.
- A key's bucket comes from its SHA-256 hexadecimal digest. The first eight hex characters are read as a base-16 integer, the hash value. That value modulo `capacity` is the bucket.
- `insertNoCollisions` is the strict insert.
  - If the key's bucket is already occupied, it fails with a collision error. This holds whether the occupant has a different key or the same one.
  - Otherwise it stores a new, unlinked pair in that bucket and increments `count`.
- `insertWithHashCollisions` and `insert` have empty bodies. They are modelled as the no-ops they are.

Files:

- `digest.dfy`, module `Digest`: the hash value and the bucket index. These are pure functions.
  - The SHA-256 primitive is a parameter of type `Sha256`, a total function from keys to 64-character lowercase hex strings.
  - `ParseHex` reads a hex string. `ToHex` is its inverse. It exists only to state what `ParseHex` and `Hash` compute.
- `hash_table.dfy`, module `HashTables`:
  - `KeyValuePair` is a datatype with `key`, `value` and `next`. `NewPair` builds a pair whose `next` is `None`, as the JavaScript constructor does.
  - `HashTable` is a class.
    - `capacity`, `data` and the SHA-256 primitive are `const`, because the source never reassigns them. Only the slots of `data` and `count` change.
    - `Valid()` is the table invariant.
      - `data.Length == capacity > 0`.
      - `count` equals the number of occupied slots (`Occupied`).
      - Every stored pair is unlinked and sits in the bucket its own key hashes to.
  - The demonstration run at the end of the source becomes the method `LocalTesting`. It takes as its precondition the bucket layout that the run's expected output implies.

## Model

| member | source | states |
|---|---|---|
| `HashTables.NewPair` | hash-table.js:4-8 | Builds a pair holding the given key and value, with `next == None`. |
| `HashTables.HashTable.constructor` | hash-table.js:13-17 | The new table has `count == 0`, `capacity == numBuckets` (default 4) and `numBuckets` slots, every one empty. It satisfies the table invariant. |
| `Digest.ParseHex` | hash-table.js:22-23 | Reading a string of n hex digits in base 16 gives a value below 16^n. |
| `Digest.ToHex` | hash-table.js:22-23 | Writing a value in `width` hex digits gives exactly `width` lowercase hex digits. This is the inverse used to specify the parse. |
| `Digest.ParseToHex` | hash-table.js:22-23 | Write a value below 16^width in `width` hex digits, then parse it back: the result is the value. |
| `Digest.ToHexParse` | hash-table.js:22-23 | Parse a hex string, then write the result back at the string's length: the result is the string. So the parse loses nothing. |
| `Digest.DigitValue` | hash-table.js:23 | Each hex digit has a value 0..15, and `HexChar` maps that value back to the digit. |
| `Digest.Hash` | hash-table.js:19-24 | The hash value of a key is at most 2^32 - 1. Written as 8 hex digits, it is exactly the first 8 characters of the key's SHA-256 digest. It depends on nothing but the key. |
| `Digest.HashMod` | hash-table.js:26-28 | For a positive capacity, the bucket lies in `[0, capacity)`, so it is a valid index into `data`. A hash value below the capacity is its own bucket. |
| `Digest.HashModIsRemainder` | hash-table.js:27 | The hash value is a multiple of the capacity plus the bucket. Together with the bound, this makes the bucket the remainder of the hash value. |
| `HashTables.Occupied` | hash-table.js:14 | The number of occupied slots never exceeds the number of slots. |
| `HashTables.OccupiedCountsIndices` | hash-table.js:14 | `Occupied` equals the size of the set of indices whose slot holds a pair. |
| `HashTables.OccupiedAllEmpty` | hash-table.js:14-16 | An array of empty slots has no occupied slot, so the invariant `count == Occupied(data)` holds after construction. |
| `HashTables.OccupiedFill` | hash-table.js:39-40 | Filling one empty slot adds exactly one occupied slot. This is why `this.count++` keeps the invariant. |
| `HashTables.HashTable.InsertNoCollisions` | hash-table.js:30-44 | It fails exactly when the key's bucket was already occupied. On failure, `count` and every slot are unchanged. On success, the bucket holds a new pair with the given key and value and `next == None`. `count` rises by exactly 1, and no other slot changes. The invariant is kept either way. |
| `HashTables.HashTable.InsertWithHashCollisions` | hash-table.js:46-48 | The method is empty. The table and its invariant are unchanged. |
| `HashTables.HashTable.Insert` | hash-table.js:50-52 | The method is empty. The table and its invariant are unchanged. |
| `HashTables.KeysDistinct` | hash-table.js:34-39 | In a valid table, no two slots hold the same key. A pair only ever sits in its key's bucket, and a bucket holds at most one pair. |
| `HashTables.SecondInsertIntoBucketFails` | hash-table.js:34-35 | Take two strict inserts whose keys share a bucket, equal keys included, into a table where that bucket starts empty. The first one stores its pair and adds 1 to `count`. The second one always reports a collision and changes nothing, so afterwards the bucket holds the first pair, every other slot is as before, and `count` has risen by exactly 1. |
| `HashTables.LocalTesting` | hash-table.js:58-74 | Assume "key-1" hashes to bucket 0 and "key-2" to bucket 1 of a 2-bucket table. After inserting both pairs, `count == 2`, `capacity == 2` and `data.Length == 2`. Slot 0 holds ("key-1", "val-1") and slot 1 holds ("key-2", "val-2"). |

## Left out

- The SHA-256 computation (`js-sha256`) is a foreign cryptographic primitive. It is a parameter of type `Sha256` that returns 64 lowercase hex characters. Determinism is therefore inherent and needs no proof.
- Parts of `parseInt(first8, 16)` are not modelled: uppercase digits, stopping at a non-hex character, and the `NaN` result. The digest is always lowercase hex, so none of these paths can be reached.
- A capacity of zero or a negative capacity is excluded by `requires numBuckets > 0`. JavaScript would give `NaN` or an invalid array length.
- HashTables.HashTable.constructor: does not model the `RangeError` that `new Array(numBuckets)` throws when `numBuckets` is not an integer or is 2^32 or more. `numBuckets` is an unbounded `nat`, so the model accepts every positive size.
- JavaScript truthiness in `if(this.data[index])` becomes `Some`/`None`. Slots only ever hold `null` or a pair object.
- The error is not thrown. It becomes the outcome `CollisionError`, and the message text is not modelled.
- `KeyValuePair` objects become values. Object identity and aliasing of pairs are not modelled. Nothing in this source mutates a pair or shares one.
- `insertWithHashCollisions` and `insert` have empty bodies in hash-table.js (46-52), so neither chaining nor overwrite is modelled.
- The console output of the demonstration script and the `module.exports` line are left out, because they are I/O and module scaffolding.
