/**
 * The byte-per-slot Bloom filter of new.cpp: a plain record of a header, a version tag, an
 * ordered table of hash functions and one byte per slot. `set_value` writes 1 into the slot each
 * hash function picks, `check_value` reports whether all of those slots are nonzero, `dump` and
 * `load` move the filter to and from the layout of module Codec, and `build` inserts every line
 * of a dictionary into a fresh filter with 2^20 slots and dumps it.
 */
module Bloom {
  import opened Base
  import opened Fnv
  import Codec

  /**
   * The 32-bit fold of a hash: its high 32 bits XOR its low 16 bits (the mask is 0xFFFF). The
   * top 16 bits of the fold are the top 16 bits of the hash, untouched by the low half.
   */
  function Fold(h: bv64): (r: bv32)
    ensures (r as bv64) >> 16 == h >> 48
  {
    ((h >> 32) ^ (h & 0xFFFF)) as bv32
  }

  /** Bits 16 to 31 of the hash never reach the fold. */
  lemma FoldIgnoresBits16To31(h: bv64)
    ensures Fold(h) == Fold(h & 0xFFFF_FFFF_0000_FFFF)
  {
  }

  /** `mem.size() - 1` in `size_t` arithmetic: it wraps to 2^64 - 1 when the filter has no slots. */
  function Boundary(size: nat): nat
  {
    (size - 1) % 0x1_0000_0000_0000_0000
  }

  /** A folded value `x` masked with the boundary of a filter of `size` slots, kept as a `uint32_t`. */
  function MaskSlot(x: nat, size: nat): (r: nat)
    ensures size > 0 ==> r < size
    ensures r < 0x1_0000_0000
  {
    var m := BitAnd(x, Boundary(size));
    assert m % 0x1_0000_0000 <= m;
    m % 0x1_0000_0000
  }

  /** The slot a hash `h` selects in a filter of `size` slots: the fold masked with the boundary. */
  function Slot(h: bv64, size: nat): (r: nat)
    ensures size > 0 ==> r < size
    ensures r < 0x1_0000_0000
  {
    MaskSlot(Fold(h) as int, size)
  }

  /** hash_value: the slot that hash function `fn` selects for `s`, kept as a `uint32_t`. */
  function HashValue(fn: HashFn, size: nat, s: Bytes): (r: nat)
    ensures size > 0 ==> r < size
    ensures r < 0x1_0000_0000
  {
    Slot(fn.Apply(s), size)
  }

  /** In a filter whose size is a power of two up to 2^32, the slot is the fold modulo the size. */
  lemma SlotPowerOfTwo(h: bv64, k: nat)
    requires Pow2(k) <= 0x1_0000_0000
    ensures Slot(h, Pow2(k)) == (Fold(h) as int) % Pow2(k)
  {
    MaskPowerOfTwo(Fold(h) as int, k);
  }

  lemma MaskPowerOfTwo(x: nat, k: nat)
    requires Pow2(k) <= 0x1_0000_0000
    ensures MaskSlot(x, Pow2(k)) == x % Pow2(k)
  {
    MaskSmallSize(x, Pow2(k));
    BitAndLowMask(x, k);
  }

  /** For 1 to 2^32 slots the boundary does not wrap and the mask already fits a `uint32_t`. */
  lemma MaskSmallSize(x: nat, size: nat)
    requires 0 < size <= 0x1_0000_0000
    ensures MaskSlot(x, size) == BitAnd(x, size - 1)
  {
    assert Boundary(size) == size - 1;
  }

  /** The slots the first `k` hash functions of `fns` pick for `s`. */
  function SlotSet(fns: seq<HashFn>, size: nat, s: Bytes, k: nat): set<nat>
    requires k <= |fns|
  {
    set i | 0 <= i < k :: HashValue(fns[i], size, s)
  }

  /**
   * The slots of `mem` after `set_value(s)`: the length is kept, every in-range slot a hash
   * function picks for `s` holds 1, and a slot changes only to 1 and only where it is picked.
   */
  function Insert(fns: seq<HashFn>, mem: Bytes, s: Bytes): (r: Bytes)
    ensures |r| == |mem|
    ensures forall i :: 0 <= i < |fns| && HashValue(fns[i], |mem|, s) < |mem| ==> r[HashValue(fns[i], |mem|, s)] == 1
    ensures forall j :: 0 <= j < |mem| && r[j] != mem[j] ==> r[j] == 1 && j in SlotSet(fns, |mem|, s, |fns|)
  {
    Mark(mem, SlotSet(fns, |mem|, s, |fns|), 1)
  }

  /** What `check_value(s)` answers: every slot a hash function picks for `s` is nonzero. */
  predicate Contains(fns: seq<HashFn>, mem: Bytes, s: Bytes)
  {
    forall i :: 0 <= i < |fns| ==> HashValue(fns[i], |mem|, s) < |mem| && mem[HashValue(fns[i], |mem|, s)] != 0
  }

  /** An item is reported present exactly when every slot of its slot set is in range and nonzero. */
  lemma ContainsSlots(fns: seq<HashFn>, mem: Bytes, s: Bytes)
    ensures Contains(fns, mem, s) <==> forall j :: j in SlotSet(fns, |mem|, s, |fns|) ==> j < |mem| && mem[j] != 0
  {
    var slots := SlotSet(fns, |mem|, s, |fns|);
    if forall j :: j in slots ==> j < |mem| && mem[j] != 0 {
      forall i | 0 <= i < |fns|
        ensures HashValue(fns[i], |mem|, s) < |mem| && mem[HashValue(fns[i], |mem|, s)] != 0
      {
        assert HashValue(fns[i], |mem|, s) in slots;
      }
    }
  }

  /** The slots after inserting every line of `lines`, first to last (the loop of `build`). */
  function InsertAll(fns: seq<HashFn>, mem: Bytes, lines: seq<Bytes>): (r: Bytes)
    ensures |r| == |mem|
  {
    if lines == [] then mem
    else Insert(fns, InsertAll(fns, mem, lines[..|lines| - 1]), lines[|lines| - 1])
  }

  lemma SlotSetStep(fns: seq<HashFn>, size: nat, s: Bytes, k: nat)
    requires k < |fns|
    ensures SlotSet(fns, size, s, k + 1) == SlotSet(fns, size, s, k) + {HashValue(fns[k], size, s)}
  {
  }

  /** No false negatives: right after inserting `s`, the filter contains `s`. */
  lemma InsertThenContains(fns: seq<HashFn>, mem: Bytes, s: Bytes)
    requires |mem| > 0
    ensures Contains(fns, Insert(fns, mem, s), s)
  {
    var m := Insert(fns, mem, s);
    forall i | 0 <= i < |fns|
      ensures HashValue(fns[i], |m|, s) < |m| && m[HashValue(fns[i], |m|, s)] != 0
    {
      assert HashValue(fns[i], |mem|, s) in SlotSet(fns, |mem|, s, |fns|);
    }
  }

  /** Slots are never cleared, so whatever the filter contains it still contains after an insertion. */
  lemma InsertKeepsContains(fns: seq<HashFn>, mem: Bytes, s: Bytes, t: Bytes)
    requires Contains(fns, mem, t)
    ensures Contains(fns, Insert(fns, mem, s), t)
  {
  }

  /** Inserting the same item twice is inserting it once. */
  lemma InsertIdempotent(fns: seq<HashFn>, mem: Bytes, s: Bytes)
    ensures Insert(fns, Insert(fns, mem, s), s) == Insert(fns, mem, s)
  {
    var slots := SlotSet(fns, |mem|, s, |fns|);
    MarkTwice(mem, slots, slots, 1 as byte);
    assert slots + slots == slots;
  }

  /** The order of two insertions does not matter. */
  lemma InsertCommutes(fns: seq<HashFn>, mem: Bytes, s: Bytes, t: Bytes)
    ensures Insert(fns, Insert(fns, mem, s), t) == Insert(fns, Insert(fns, mem, t), s)
  {
    var a := SlotSet(fns, |mem|, s, |fns|);
    var b := SlotSet(fns, |mem|, t, |fns|);
    MarkTwice(mem, a, b, 1 as byte);
    MarkTwice(mem, b, a, 1 as byte);
    assert a + b == b + a;
  }

  /** No false negatives for a whole dictionary: every inserted line is contained afterwards. */
  lemma {:induction false} InsertAllContains(fns: seq<HashFn>, mem: Bytes, lines: seq<Bytes>, w: Bytes)
    requires |mem| > 0 && w in lines
    ensures Contains(fns, InsertAll(fns, mem, lines), w)
    decreases |lines|
  {
    var init := lines[..|lines| - 1];
    var last := lines[|lines| - 1];
    var before := InsertAll(fns, mem, init);
    if w == last {
      InsertThenContains(fns, before, w);
    } else {
      assert w in init by {
        var k :| 0 <= k < |lines| && lines[k] == w;
        assert k < |lines| - 1 && init[k] == w;
      }
      InsertAllContains(fns, mem, init, w);
      InsertKeepsContains(fns, before, last, w);
    }
  }

  /** The header `build` and `use` give their filters: "CCBF". */
  const Magic: Bytes := [0x43, 0x43, 0x42, 0x46]

  /** The hash functions `build` and `use` give their filters, in this order. */
  const Family: seq<HashFn> := [Fnv0, Fnv1, Fnv1a]

  /** The number of slots `build` gives its filter: 1 << 20. */
  const BuildSize: nat := 0x10_0000

  /** The slots of the filter `build` makes from `lines`. */
  function Built(lines: seq<Bytes>): Bytes
  {
    InsertAll(Family, seq(BuildSize, _ => 0), lines)
  }

  /**
   * No false negatives through the file: loading what `build` wrote, with the same header and
   * hash functions, contains every dictionary line.
   */
  lemma BuiltFileContains(lines: seq<Bytes>, w: Bytes)
    requires w in lines
    ensures var r := Codec.Decode(Codec.Encode(Magic, Codec.Image(1, 3, Built(lines))), Magic);
            r.Ok? && r.value.slots == Built(lines) && Contains(Family, r.value.slots, w)
  {
    var file := Codec.Encode(Magic, Codec.Image(1, 3, Built(lines)));
    Codec.DecodeEncode(Magic, Codec.Image(1, 3, Built(lines)), []);
    assert file + [] == file;
    InsertAllContains(Family, seq(BuildSize, _ => 0), lines, w);
  }

  /** The filter record of new.cpp; its fields are public and updated in place. */
  class BloomFilter {
    var version: u16
    var header: Bytes
    var hashFns: seq<HashFn>
    var mem: Bytes

    /** A filter with the given fields, as `build` and `use` fill in a default-constructed one. */
    constructor (header: Bytes, hashFns: seq<HashFn>, mem: Bytes, version: u16)
      ensures this.header == header && this.hashFns == hashFns && this.mem == mem && this.version == version
    {
      this.header := header;
      this.hashFns := hashFns;
      this.mem := mem;
      this.version := version;
    }

    /** set_value: write 1 into the slot of every hash function; nothing else changes. */
    method SetValue(s: Bytes)
      requires |mem| > 0 || hashFns == []
      modifies this
      ensures mem == Insert(hashFns, old(mem), s)
      ensures version == old(version) && header == old(header) && hashFns == old(hashFns)
    {
      for i := 0 to |hashFns|
        invariant version == old(version) && header == old(header) && hashFns == old(hashFns)
        invariant mem == Mark(old(mem), SlotSet(hashFns, |old(mem)|, s, i), 1)
      {
        var h := Hash(hashFns[i], s);
        var slot := Slot(h, |mem|);
        SlotSetStep(hashFns, |old(mem)|, s, i);
        MarkOne(old(mem), SlotSet(hashFns, |old(mem)|, s, i), slot, 1);
        mem := mem[slot := 1];
      }
    }

    /** check_value: false at the first hash function whose slot is 0, true if there is none. */
    method CheckValue(s: Bytes) returns (r: bool)
      requires |mem| > 0 || hashFns == []
      ensures r == Contains(hashFns, mem, s)
    {
      for i := 0 to |hashFns|
        invariant forall k :: 0 <= k < i ==> mem[HashValue(hashFns[k], |mem|, s)] != 0
      {
        var h := Hash(hashFns[i], s);
        var slot := Slot(h, |mem|);
        if mem[slot] == 0 {
          return false;
        }
      }
      return true;
    }

    /**
     * dump: when the destination opens (`writable`), the bytes written are the header, version 1
     * whatever `version` holds, the hash-function count as a `uint16_t`, the slot count as an
     * `int`, then every slot; otherwise nothing is written and the answer is false.
     */
    method Dump(writable: bool) returns (ok: bool, file: Bytes)
      ensures ok == writable
      ensures ok ==> file == Codec.Encode(header, Codec.Image(1, (|hashFns| % 0x1_0000) as u16, mem))
      ensures !ok ==> file == []
    {
      if !writable {
        return false, [];
      }
      var version: u16 := 1;
      var hashFunctions := (|hashFns| % 0x1_0000) as u16;
      var filterBits := Codec.CountField(|mem|);
      file := header + Codec.LE16(version) + Codec.LE16(hashFunctions) + Codec.LE32(filterBits);
      ghost var start := file;
      for i := 0 to |mem|
        invariant file == start + mem[..i]
      {
        assert mem[..i + 1] == mem[..i] + [mem[i]];
        file := file + [mem[i]];
      }
      assert mem[..|mem|] == mem;
      ok := true;
    }

    /**
     * load: `file` is the content of the source, or None when it cannot be opened. When the
     * header check passes and the layout is complete, `version` and `mem` take the stored values
     * and the stored hash-function count is dropped; otherwise nothing changes.
     */
    method Load(file: Option<Bytes>) returns (ok: bool)
      modifies this
      ensures header == old(header) && hashFns == old(hashFns)
      ensures ok <==> file.Some? && Codec.Decode(file.value, header).Ok?
      ensures ok ==> version == Codec.Decode(file.value, header).value.version
      ensures ok ==> mem == Codec.Decode(file.value, header).value.slots
      ensures !ok ==> version == old(version) && mem == old(mem)
    {
      if file.None? || |file.value| < 4 {
        return false;
      }
      var bytes := file.value;
      if Codec.CString(bytes[..4]) != Codec.CString(header) {
        return false;
      }
      if |bytes| < 12 {
        return false;
      }
      var stored := Codec.ReadLE16(bytes[4..6]);
      var numHashFunctions := Codec.ReadLE16(bytes[6..8]);
      var numBits := Codec.ReadLE32(bytes[8..12]);
      if numBits >= 0x8000_0000 || |bytes| - 12 < numBits {
        return false;
      }
      version := stored;
      mem := if numBits <= |mem| then mem[..numBits] else mem + seq(numBits - |mem|, _ => 0);
      for i := 0 to numBits
        invariant |mem| == numBits
        invariant forall k :: 0 <= k < i ==> mem[k] == bytes[12 + k]
        invariant version == stored && header == old(header) && hashFns == old(hashFns)
      {
        mem := mem[i := bytes[12 + i]];
      }
      assert mem == bytes[12..12 + numBits];
      return true;
    }
  }

  /**
   * build: a filter with header "CCBF", the three FNV variants, 2^20 zero slots and version 1,
   * every line inserted in order, then dumped; `ok` is false when the destination does not open
   * (the program then exits with status 1).
   */
  method Build(lines: seq<Bytes>, writable: bool) returns (ok: bool, file: Bytes)
    ensures ok == writable
    ensures ok ==> file == Codec.Encode(Magic, Codec.Image(1, 3, Built(lines)))
  {
    var bf := new BloomFilter(Magic, Family, seq(BuildSize, _ => 0), 1);
    for i := 0 to |lines|
      invariant bf.header == Magic && bf.hashFns == Family
      invariant bf.mem == InsertAll(Family, seq(BuildSize, _ => 0), lines[..i])
    {
      assert lines[..i + 1][..i] == lines[..i];
      bf.SetValue(lines[i]);
    }
    assert lines[..|lines|] == lines;
    ok, file := bf.Dump(writable);
  }

  /**
   * Dumping one filter and loading the bytes into another with the same four-byte header
   * restores the slots byte for byte and sets the version to 1; the loading filter keeps its own
   * hash functions.
   */
  method DumpThenLoad(source: BloomFilter, target: BloomFilter) returns (ok: bool)
    requires |source.header| == 4 && |source.mem| < 0x8000_0000 && target.header == source.header
    modifies target
    ensures ok && target.mem == source.mem && target.version == 1
    ensures target.header == old(target.header) && target.hashFns == old(target.hashFns)
  {
    var written, file := source.Dump(true);
    Codec.DecodeEncode(source.header, Codec.Image(1, (|source.hashFns| % 0x1_0000) as u16, source.mem), []);
    assert file + [] == file;
    ok := target.Load(Some(file));
  }
}
