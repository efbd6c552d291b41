/**
 * The class-based Bloom filter of main2.cpp: a `vector<bool>` sized once by the constructor and
 * the same three FNV hash functions, with a slot index kept to the low 23 bits of the hash's
 * 32-bit fold whatever the size of the array.
 */
module Classic {
  import opened Base
  import opened Fnv

  /**
   * The 32-bit fold of a hash: its high 32 bits XOR its low 32 bits. Its top 9 bits, which the
   * index drops, are bits 23 to 31 of the hash XOR bits 55 to 63.
   */
  function Fold(h: bv64): (r: bv32)
    ensures (r as bv64) >> 23 == ((h >> 55) ^ (h >> 23)) & 0x1FF
  {
    ((h >> 32) ^ (h & 0xFFFF_FFFF)) as bv32
  }

  /** The low 23 bits of the fold, all the index keeps, mix bits 0 to 22 of the hash with bits 32 to 54. */
  lemma FoldLowBits(h: bv64)
    ensures (Fold(h) as bv64) & 0x7F_FFFF == ((h >> 32) ^ h) & 0x7F_FFFF
  {
  }

  /** The index `set_value` and `check_value` derive: the fold AND 0x7FFFFF, below 2^23. */
  function Slot(fn: HashFn, s: Bytes): (r: nat)
    ensures r < 0x80_0000
  {
    BitAnd(Fold(fn.Apply(s)) as int, 0x7F_FFFF)
  }

  /** The index is the fold modulo 2^23: the mask keeps its low 23 bits. */
  lemma SlotIsLow23Bits(fn: HashFn, s: Bytes)
    ensures Slot(fn, s) == (Fold(fn.Apply(s)) as int) % 0x80_0000
  {
    LowBitsMask(Fold(fn.Apply(s)) as int);
  }

  lemma LowBitsMask(x: nat)
    ensures BitAnd(x, 0x7F_FFFF) == x % 0x80_0000
  {
    Pow2Add(1, 1);
    Pow2Add(2, 1);
    Pow2Add(4, 3);
    Pow2Add(7, 7);
    Pow2Add(14, 7);
    Pow2Add(21, 2);
    assert Pow2(23) == 0x80_0000;
    BitAndLowMask(x, 23);
  }

  /** The indices the first `k` hash functions of `fns` derive for `s`. */
  function SlotSet(fns: seq<HashFn>, s: Bytes, k: nat): set<nat>
    requires k <= |fns|
  {
    set i | 0 <= i < k :: Slot(fns[i], s)
  }

  lemma SlotSetStep(fns: seq<HashFn>, s: Bytes, k: nat)
    requires k < |fns|
    ensures SlotSet(fns, s, k + 1) == SlotSet(fns, s, k) + {Slot(fns[k], s)}
  {
  }

  /**
   * The flags after `set_value(s)`: the length is kept, and a flag is set afterwards exactly when
   * it was set before or it is an index a hash function derives for `s`.
   */
  function Insert(fns: seq<HashFn>, bits: seq<bool>, s: Bytes): (r: seq<bool>)
    ensures |r| == |bits|
    ensures forall j :: 0 <= j < |bits| ==> (r[j] <==> bits[j] || j in SlotSet(fns, s, |fns|))
  {
    Mark(bits, SlotSet(fns, s, |fns|), true)
  }

  /** What `check_value(s)` answers: the flag at every index derived for `s` is set. */
  predicate Contains(fns: seq<HashFn>, bits: seq<bool>, s: Bytes)
  {
    forall i :: 0 <= i < |fns| ==> Slot(fns[i], s) < |bits| && bits[Slot(fns[i], s)]
  }

  /** An item is reported present exactly when every index of its index set is in range and set. */
  lemma ContainsSlots(fns: seq<HashFn>, bits: seq<bool>, s: Bytes)
    ensures Contains(fns, bits, s) <==> forall j :: j in SlotSet(fns, s, |fns|) ==> j < |bits| && bits[j]
  {
    var slots := SlotSet(fns, s, |fns|);
    if forall j :: j in slots ==> j < |bits| && bits[j] {
      forall i | 0 <= i < |fns|
        ensures Slot(fns[i], s) < |bits| && bits[Slot(fns[i], s)]
      {
        assert Slot(fns[i], s) in slots;
      }
    }
  }

  /** Every index derived for `s` lies inside an array of `size` flags. */
  predicate Fits(fns: seq<HashFn>, size: nat, s: Bytes)
  {
    forall i :: 0 <= i < |fns| ==> Slot(fns[i], s) < size
  }

  /** The first `k` indices derived for `s` are in range and their flags are set. */
  predicate SetBefore(fns: seq<HashFn>, bits: seq<bool>, s: Bytes, k: nat)
    requires k <= |fns|
  {
    forall i :: 0 <= i < k ==> Slot(fns[i], s) < |bits| && bits[Slot(fns[i], s)]
  }

  /**
   * Every index `check_value` reaches is in range: it reaches the index of hash function `i`
   * only when the flags of all earlier ones are set.
   */
  predicate ProbesFit(fns: seq<HashFn>, bits: seq<bool>, s: Bytes)
  {
    forall i :: 0 <= i < |fns| && SetBefore(fns, bits, s, i) ==> Slot(fns[i], s) < |bits|
  }

  /** With at least 2^23 flags every index is in range, for every item. */
  lemma LargeArrayFits(fns: seq<HashFn>, bits: seq<bool>, s: Bytes)
    requires |bits| >= 0x80_0000
    ensures Fits(fns, |bits|, s) && ProbesFit(fns, bits, s)
  {
  }

  /** No false negatives: right after inserting `s`, the array contains `s`. */
  lemma InsertThenContains(fns: seq<HashFn>, bits: seq<bool>, s: Bytes)
    requires Fits(fns, |bits|, s)
    ensures Contains(fns, Insert(fns, bits, s), s)
  {
    forall i | 0 <= i < |fns|
      ensures Insert(fns, bits, s)[Slot(fns[i], s)]
    {
      assert Slot(fns[i], s) in SlotSet(fns, s, |fns|);
    }
  }

  /** Flags are never cleared, so whatever the array contains it still contains after an insertion. */
  lemma InsertKeepsContains(fns: seq<HashFn>, bits: seq<bool>, s: Bytes, t: Bytes)
    requires Contains(fns, bits, t)
    ensures Contains(fns, Insert(fns, bits, s), t)
  {
  }

  /** Inserting the same item twice is inserting it once. */
  lemma InsertIdempotent(fns: seq<HashFn>, bits: seq<bool>, s: Bytes)
    ensures Insert(fns, Insert(fns, bits, s), s) == Insert(fns, bits, s)
  {
    var slots := SlotSet(fns, s, |fns|);
    MarkTwice(bits, slots, slots, true);
    assert slots + slots == slots;
  }

  /** The filter class of main2.cpp. Its fields are private and only the constructor assigns them. */
  class BloomFilter {
    const maxMemoryLimit: nat
    const hashFns: seq<HashFn>
    const mem: array<bool>

    /** `max_memory` flags, all false, and the given hash functions. */
    constructor (maxMemory: nat, fns: seq<HashFn>)
      ensures maxMemoryLimit == maxMemory && hashFns == fns
      ensures fresh(mem) && mem.Length == maxMemory
      ensures forall j :: 0 <= j < mem.Length ==> !mem[j]
    {
      maxMemoryLimit := maxMemory;
      hashFns := fns;
      mem := new bool[maxMemory](_ => false);
    }

    /** set_bit: set one flag; no other flag changes. */
    method SetBit(value: nat)
      requires value < mem.Length
      modifies mem
      ensures mem[..] == old(mem[..])[value := true]
    {
      mem[value] := true;
    }

    /** check_bit: the flag at `value`, without changing anything. */
    method CheckBit(value: nat) returns (b: bool)
      requires value < mem.Length
      ensures b == mem[value]
    {
      b := mem[value];
    }

    /** set_value: set the flag at the index of every hash function; no other flag changes. */
    method SetValue(s: Bytes)
      requires Fits(hashFns, mem.Length, s)
      modifies mem
      ensures mem[..] == Insert(hashFns, old(mem[..]), s)
    {
      for i := 0 to |hashFns|
        invariant mem[..] == Mark(old(mem[..]), SlotSet(hashFns, s, i), true)
      {
        var h := Hash(hashFns[i], s);
        var value := BitAnd(Fold(h) as int, 0x7F_FFFF);
        assert value == Slot(hashFns[i], s);
        SlotSetStep(hashFns, s, i);
        MarkOne(old(mem[..]), SlotSet(hashFns, s, i), value, true);
        SetBit(value);
      }
    }

    /** check_value: false at the first hash function whose flag is clear, true if there is none. */
    method CheckValue(s: Bytes) returns (r: bool)
      requires ProbesFit(hashFns, mem[..], s)
      ensures r == Contains(hashFns, mem[..], s)
    {
      for i := 0 to |hashFns|
        invariant SetBefore(hashFns, mem[..], s, i)
      {
        var h := Hash(hashFns[i], s);
        var value := BitAnd(Fold(h) as int, 0x7F_FFFF);
        assert value == Slot(hashFns[i], s);
        var bit := CheckBit(value);
        if !bit {
          return false;
        }
      }
      return true;
    }
  }
}
