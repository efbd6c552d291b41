# gloom Bloom filters in Dafny

This project models the two hand-written Bloom filters of the gloom repository and proves their
key facts.

- **new.cpp** holds the complete filter. It is a plain record: a header string, a 16-bit
  version, an ordered table of hash functions and one byte per slot (`vector<uint8_t>`).
  - `hash_value` folds a 64-bit hash into a slot index.
  - `set_value` writes 1 into the slot of every hash function; `check_value` asks whether all
    of those slots are nonzero.
  - `dump` and `load` write and read a binary file: the header, a little-endian `u16` version
    (always 1), a `u16` hash-function count, an `int` slot count, then one byte per slot.
  - `build` inserts every dictionary line into a fresh filter with header "CCBF", the hashes
    FNV-0, FNV-1 and FNV-1a, and 2^20 slots, then dumps it.
- **main2.cpp** is an earlier class-based filter over a `vector<bool>` sized by its constructor.
  Its slot index keeps 23 bits. The file also has a `split(s, delimiter)` string utility.

Both files hash with the 64-bit FNV-0, FNV-1 and FNV-1a functions of the IETF Internet-Draft
draft-eastlake-fnv (section 2 and its "FNV Variations" subsection).

Modules:

- `Base` (base.dfy): byte strings (`byte` and `u16` are integer newtypes), `Option`/`Result`,
  marking slots of a sequence, and bitwise AND on naturals.
- `Fnv` (fnv.dfy): the three hash variants. Each is a data constructor of `HashFn`, specified
  as a left fold and computed by a loop.
- `Codec` (codec.dfy): the byte layout of `dump`/`load`, as pure `Encode`/`Decode`.
- `Bloom` (bloom.dfy): the new.cpp filter. Slot derivation and insertion/query are
  specification functions. The record is a class whose methods are proved against them.
  `build` is also here.
- `Split` (split.dfy): main2.cpp's `split` and the `find` it relies on.
- `Classic` (classic.dfy): the main2.cpp class over an `array<bool>`.

The index derivation follows the code. The two files fold the 64-bit hash differently.
main2.cpp:82 XORs the high half with the low half masked by `0xFFFFFFFF`, a full 32-bit fold.
new.cpp:30 masks the low half with `0xFFFF`, so only its low 16 bits take part. `Bloom.Fold`
models new.cpp as written, and `Bloom.FoldIgnoresBits16To31` states the consequence.
`Classic.Fold` models main2.cpp.

## Model

| member | source | states |
|---|---|---|
| `Fnv.FnvHash0` | new.cpp:71-78 | the loop returns FNV-0 of `s`: from 0, per byte multiply by the FNV prime mod 2^64, then XOR the byte (identical code at main2.cpp:56-63) |
| `Fnv.FnvHash1` | new.cpp:53-60 | the loop returns FNV-1 of `s`: the same fold from the offset basis 14695981039346656037 |
| `Fnv.FnvHash1a` | new.cpp:62-69 | the loop returns FNV-1a of `s`: from the offset basis, per byte XOR then multiply |
| `Fnv.Hash` | new.cpp:29 | a call through the hash-function table returns the selected variant's hash |
| `Fnv.EmptyString` | new.cpp:50-78 | the empty string hashes to 0 under FNV-0 and to the offset basis under FNV-1 and FNV-1a |
| `Fnv.MulXorFirst` | new.cpp:53-60 | the FNV-0/FNV-1 fold takes the bytes first to last: the first byte is stepped in before the rest |
| `Fnv.XorMulFirst` | new.cpp:62-69 | the FNV-1a fold takes the bytes first to last in the same way |
| `Fnv.MulXorAppend` | new.cpp:53-60 | FNV-0/FNV-1 are incremental: hashing `a + b` continues from the state after `a` |
| `Fnv.XorMulAppend` | new.cpp:62-69 | FNV-1a is incremental in the same way |
| `Base.BitAnd` | new.cpp:32 | the AND of two unsigned values is at most each of them |
| `Base.BitAndLowMask` | new.cpp:31-32 | AND with 2^k - 1 is the remainder modulo 2^k |
| `Bloom.FoldIgnoresBits16To31` | new.cpp:30 | the fold does not depend on bits 16 to 31 of the hash, because of the 0xFFFF mask |
| `Bloom.Fold` | new.cpp:30 | the top 16 bits of the 32-bit fold are the top 16 bits of the hash: the low half never reaches them |
| `Bloom.HashValue` | new.cpp:28-34 | the slot of hash function `fn` for `s` fits a `uint32_t` and lies below the size of any nonempty filter |
| `Bloom.Slot` | new.cpp:30-33 | the index `((h >> 32) ^ (h & 0xFFFF)) & (mem.size() - 1)` fits a `uint32_t` and lies below the size of any nonempty filter |
| `Bloom.SlotPowerOfTwo` | new.cpp:30-32 | for a power-of-two size up to 2^32 the index is the fold modulo the size |
| `Bloom.Insert` | new.cpp:36-40 | insertion keeps the length, puts 1 in every in-range slot a hash function picks for `s`, and changes a slot only to 1 and only where one is picked |
| `Bloom.ContainsSlots` | new.cpp:42-48 | the query is true exactly when every slot of the item's slot set is in range and nonzero |
| `Bloom.InsertThenContains` | new.cpp:36-48 | no false negatives: after inserting `s` the query for `s` is true |
| `Bloom.InsertKeepsContains` | new.cpp:36-48 | slots are never cleared: a query that was true stays true after any insertion |
| `Bloom.InsertIdempotent` | new.cpp:36-40 | inserting the same item twice equals inserting it once |
| `Bloom.InsertCommutes` | new.cpp:148-150 | the order in which two lines are inserted does not matter |
| `Bloom.InsertAll` | new.cpp:148-150 | inserting a sequence of lines keeps the number of slots |
| `Bloom.InsertAllContains` | new.cpp:148-150 | every line inserted by the loop of `build` is contained afterwards |
| `Bloom.BuiltFileContains` | new.cpp:137-175 | the file `build` writes decodes with header "CCBF" to the built slots, and every dictionary line is contained in them |
| `Bloom.BloomFilter.constructor` | new.cpp:21-26 | a filter record holds exactly the given header, hash functions, slots and version |
| `Bloom.BloomFilter.SetValue` | new.cpp:36-40 | the slots become the insertion of `s`; header, version and hash functions do not change |
| `Bloom.BloomFilter.CheckValue` | new.cpp:42-48 | the answer is true exactly when the slot of every hash function is nonzero; nothing changes |
| `Bloom.BloomFilter.Dump` | new.cpp:80-101 | when the destination opens, the bytes written are the header, version 1 whatever the record holds, the hash count as `uint16_t`, the slot count as `int`, then the slots; otherwise false and nothing is written |
| `Bloom.BloomFilter.Load` | new.cpp:103-136 | succeeds exactly when the file decodes. It then sets version and slots from the file, keeps header and hash functions, and drops the stored hash count. On failure nothing changes |
| `Bloom.Build` | new.cpp:137-158 | the file written is the encoding, under "CCBF", version 1 and 3 hash functions, of 2^20 zero slots with every line inserted; failure to open is reported |
| `Bloom.DumpThenLoad` | new.cpp:88-133 | dumping a filter with a four-byte header and fewer than 2^31 slots and loading the bytes restores the slots byte for byte and sets version 1 |
| `Codec.CString` | new.cpp:106-110 | the string `strcmp` sees is the longest NUL-free prefix of the buffer |
| `Codec.HeaderCheckExact` | new.cpp:106-113 | for a four-byte header without NUL bytes the header check is byte equality |
| `Codec.CountField` | new.cpp:90 | the slot count field is the size modulo 2^32 |
| `Codec.LE16RoundTrip` | new.cpp:93-94 | a `u16` field reads back as the value written |
| `Codec.LE32RoundTrip` | new.cpp:95 | the 32-bit count field reads back as the value written |
| `Codec.Encode` | new.cpp:88-98 | the dump is `header.length() + 8 + mem.size()` bytes long, starts with the header and ends with the slots |
| `Codec.Decode` | new.cpp:106-133 | a file of at least four bytes is rejected as invalid format exactly when its first four bytes fail the header check; an accepted file has fewer than 2^31 slots, which are the bytes after the 12-byte layout |
| `Codec.DecodeEncode` | new.cpp:88-133 | decoding an encoding with a four-byte header and fewer than 2^31 slots gives back version, hash count and slots, whatever bytes follow |
| `Codec.EncodeDecode` | new.cpp:88-133 | for a four-byte header without NUL bytes, an accepted file begins with the encoding of what was decoded |
| `Split.Find` | main2.cpp:26 | a position `find` returns is at or after the start position and leaves room for the delimiter |
| `Split.FindFirst` | main2.cpp:26 | `find` returns an occurrence of the delimiter with none between the start position and it, and returns none only when no occurrence starts at or after the start position |
| `Split.SplitFromJoin` | main2.cpp:20-33 | joining the pieces cut from a start position with the delimiter gives back the rest of `s` from that position |
| `Split.SplitFromFree` | main2.cpp:20-33 | no piece cut at the leftmost occurrences contains the delimiter |
| `Split.Split` | main2.cpp:20-33 | for a nonempty delimiter the pieces are exactly the cuts at the successive leftmost occurrences (`SplitFrom(s, delimiter, 0)`), so `split("aaa", "aa")` is `["", "a"]`; there is at least one piece, joining the pieces with the delimiter gives `s` back, and no piece contains the delimiter |
| `Split.EmptyDelimiterStalls` | main2.cpp:26-28 | an empty delimiter is found at the start position itself, so `pos_start` never advances |
| `Classic.Fold` | main2.cpp:82 | the top 9 bits of the 32-bit fold, which the 23-bit index drops, are bits 23 to 31 of the hash XOR bits 55 to 63 |
| `Classic.FoldLowBits` | main2.cpp:81-83 | the low 23 bits of the fold, which are all the index keeps, are bits 0 to 22 of the hash XOR bits 32 to 54 |
| `Classic.Slot` | main2.cpp:80-83 | the index `((h >> 32) ^ (h & 0xFFFFFFFF)) & 0x7FFFFF` is below 2^23 |
| `Classic.SlotIsLow23Bits` | main2.cpp:81-83 | the index is the 32-bit fold modulo 2^23 |
| `Classic.LargeArrayFits` | main2.cpp:72-76 | with `max_memory` at least 2^23 every index of every item is in range |
| `Classic.Insert` | main2.cpp:78-86 | setting keeps the length, and a flag is set afterwards exactly when it was set before or a hash function derives its index for `s` |
| `Classic.ContainsSlots` | main2.cpp:88-98 | the query is true exactly when every index of the item's index set is in range and set |
| `Classic.InsertThenContains` | main2.cpp:78-98 | no false negatives: after `set_value(s)` the query for `s` is true |
| `Classic.InsertKeepsContains` | main2.cpp:78-98 | flags are never cleared: a true query stays true after any `set_value` |
| `Classic.InsertIdempotent` | main2.cpp:78-86 | setting the same item twice equals setting it once |
| `Classic.BloomFilter.constructor` | main2.cpp:72-76 | the array has exactly `max_memory` flags, all false, and the hash functions are `fns` |
| `Classic.BloomFilter.SetBit` | main2.cpp:100 | sets one flag and changes no other |
| `Classic.BloomFilter.CheckBit` | main2.cpp:102 | returns the flag and changes nothing |
| `Classic.BloomFilter.SetValue` | main2.cpp:78-86 | the flags become the insertion of `s`: set at each hash function's index, all others unchanged |
| `Classic.BloomFilter.CheckValue` | main2.cpp:88-98 | the answer is true exactly when the flag at every hash function's index is set; no flag changes |

## Left out

- write.cpp is not part of this model: it is a standalone program that writes and reads back a small test file, and no filter uses it.
- `get_mem_usage` (new.cpp:15-19, main2.cpp:14-18) is left out: it is a `getrusage` system call.
- `main` in both files, `use` (new.cpp:160-181) with its printing, and the dictionary `map` of main2.cpp:105-131 are left out. They are command-line and console glue. What `use` relies on, loading a built file and querying it, is stated by `Bloom.BuiltFileContains`.
- The reading of `build`'s dictionary with `ifstream`/`getline` is left out. The lines are a parameter of `Bloom.Build`.
- Opening files is a parameter. `Dump` takes whether the destination opens. `Load` takes the file's content, or `None` when it cannot be opened; the model then reports failure, where the source compares an unfilled header buffer.
- Bloom.BloomFilter.Load: on a file shorter than four bytes it reports failure and changes nothing. The source reads what there is into the header buffer and compares a buffer whose remaining bytes were never filled.
- Bloom.BloomFilter.Load: on a file of 4 to 11 bytes whose header matches, it reports failure and changes nothing. The source succeeds there: a field read past the end of the file keeps its zero initial value or gets only its low bytes from the file. A slot count that stays 0 empties the slots through `resize(0)` and `load` returns true; a partly read nonzero count goes on as in the next line.
- Bloom.BloomFilter.Load: when the declared slot count runs past the end of the file, it reports failure and changes nothing. The source resizes to the declared count, stores indeterminate bytes (the uninitialised `byte_value`) in the slots past the end of the file, and returns true.
- Bloom.BloomFilter.Load: the "Invalid file format" message printed on a header mismatch (new.cpp:111) is not modelled. The method reports only failure; the reason is `Codec.Decode`'s error value.
- Bloom.BloomFilter.Load: a negative stored slot count is reported as a failure that changes nothing. In the source, `resize` throws and ends the program after `version` was already assigned.
- Hash functions are the data constructors `Fnv0`, `Fnv1`, `Fnv1a` rather than function pointers. Pointer identity is not modelled.
- Host byte order is taken as little-endian, as the native writes of `dump` imply.
- The version read by `load` is informational and is stored as read. The stored hash count is read and dropped, as in the source.
- Bloom.BloomFilter.SetValue and Bloom.BloomFilter.CheckValue require a nonempty slot array when there are hash functions. With no slots, `mem.size() - 1` wraps (modelled by `Bloom.Boundary`) and the source indexes out of bounds.
- Classic.BloomFilter.SetValue requires every index to be in range. Classic.BloomFilter.CheckValue requires every index it reaches before the first clear flag to be in range. The source indexes the `vector<bool>` unchecked; `Classic.LargeArrayFits` shows that 2^23 flags always suffice.
- Split.Split requires a nonempty delimiter, because the source loop does not terminate for an empty one (`Split.EmptyDelimiterStalls`).
- `max_memory_limit` of main2.cpp is stored by the constructor and never read again.
- The `vector<bool>` bit packing of main2.cpp is not modelled; the flags are an `array<bool>`.
