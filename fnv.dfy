/**
 * The FNV hash family over byte strings (Fowler/Noll/Vo, IETF Internet-Draft
 * draft-eastlake-fnv, section 2 and its "FNV Variations" subsection), 64-bit width.
 * Both filters use these three functions; the two source files hold identical copies.
 */
module Fnv {
  import opened Base

  /** The 64-bit FNV offset basis. */
  const OffsetBasis: bv64 := 14695981039346656037
  /** The 64-bit FNV prime. */
  const Prime: bv64 := 1099511628211

  /** The three hash functions a filter can hold, stored as data rather than code pointers. */
  datatype HashFn = Fnv0 | Fnv1 | Fnv1a
  {
    /** The 64-bit hash of `s` under this variant. */
    function Apply(s: Bytes): bv64
    {
      match this
      case Fnv0 => MulXor(0, s)
      case Fnv1 => MulXor(OffsetBasis, s)
      case Fnv1a => XorMul(OffsetBasis, s)
    }
  }

  /** One FNV-0/FNV-1 step: multiply by the prime modulo 2^64, then XOR in the byte. */
  function MulXorStep(h: bv64, b: byte): bv64
  {
    (h * Prime) ^ (b as bv64)
  }

  /** One FNV-1a step: XOR in the byte, then multiply by the prime modulo 2^64. */
  function XorMulStep(h: bv64, b: byte): bv64
  {
    (h ^ (b as bv64)) * Prime
  }

  /** Left fold of MulXorStep over `s`, starting from `h`: the last byte is processed last. */
  function MulXor(h: bv64, s: Bytes): bv64
  {
    if s == [] then h else MulXorStep(MulXor(h, s[..|s| - 1]), s[|s| - 1])
  }

  /** Left fold of XorMulStep over `s`, starting from `h`: the last byte is processed last. */
  function XorMul(h: bv64, s: Bytes): bv64
  {
    if s == [] then h else XorMulStep(XorMul(h, s[..|s| - 1]), s[|s| - 1])
  }

  /** The hashes of the empty string are their initial values. */
  lemma EmptyString()
    ensures Fnv0.Apply([]) == 0
    ensures Fnv1.Apply([]) == Fnv1a.Apply([]) == 14695981039346656037
  {
  }

  /** Hashing is incremental: hashing `a + b` is hashing `b` starting from the state after `a`. */
  lemma {:induction false} MulXorAppend(h: bv64, a: Bytes, b: Bytes)
    ensures MulXor(h, a + b) == MulXor(MulXor(h, a), b)
    decreases |b|
  {
    if b == [] {
      assert a + b == a;
    } else {
      var b' := b[..|b| - 1];
      assert (a + b)[..|a + b| - 1] == a + b';
      MulXorAppend(h, a, b');
    }
  }

  /** Same as MulXorAppend, for the XOR-then-multiply order. */
  lemma {:induction false} XorMulAppend(h: bv64, a: Bytes, b: Bytes)
    ensures XorMul(h, a + b) == XorMul(XorMul(h, a), b)
    decreases |b|
  {
    if b == [] {
      assert a + b == a;
    } else {
      var b' := b[..|b| - 1];
      assert (a + b)[..|a + b| - 1] == a + b';
      XorMulAppend(h, a, b');
    }
  }

  /** The fold takes the bytes first to last: the first byte is stepped in before the rest. */
  lemma {:induction false} MulXorFirst(h: bv64, s: Bytes)
    requires s != []
    ensures MulXor(h, s) == MulXor(MulXorStep(h, s[0]), s[1..])
    decreases |s|
  {
    var init, rest := s[..|s| - 1], s[1..];
    if |s| == 1 {
      assert init == [] && rest == [];
    } else {
      MulXorFirst(h, init);
      assert rest[..|rest| - 1] == init[1..] && init[0] == s[0];
    }
  }

  /** The fold takes the bytes first to last: the first byte is stepped in before the rest. */
  lemma {:induction false} XorMulFirst(h: bv64, s: Bytes)
    requires s != []
    ensures XorMul(h, s) == XorMul(XorMulStep(h, s[0]), s[1..])
    decreases |s|
  {
    var init, rest := s[..|s| - 1], s[1..];
    if |s| == 1 {
      assert init == [] && rest == [];
    } else {
      XorMulFirst(h, init);
      assert rest[..|rest| - 1] == init[1..] && init[0] == s[0];
    }
  }

  /** fnv_hash_0: the loop over the bytes with an accumulator starting at 0. */
  method FnvHash0(s: Bytes) returns (hash: bv64)
    ensures hash == Fnv0.Apply(s)
  {
    hash := 0;
    for i := 0 to |s|
      invariant hash == MulXor(0, s[..i])
    {
      assert s[..i + 1][..i] == s[..i];
      hash := MulXorStep(hash, s[i]);
    }
    assert s[..|s|] == s;
  }

  /** fnv_hash_1: as fnv_hash_0, starting at the offset basis. */
  method FnvHash1(s: Bytes) returns (hash: bv64)
    ensures hash == Fnv1.Apply(s)
  {
    hash := OffsetBasis;
    for i := 0 to |s|
      invariant hash == MulXor(OffsetBasis, s[..i])
    {
      assert s[..i + 1][..i] == s[..i];
      hash := MulXorStep(hash, s[i]);
    }
    assert s[..|s|] == s;
  }

  /** fnv_hash_1a: XOR before multiply, starting at the offset basis. */
  method FnvHash1a(s: Bytes) returns (hash: bv64)
    ensures hash == Fnv1a.Apply(s)
  {
    hash := OffsetBasis;
    for i := 0 to |s|
      invariant hash == XorMul(OffsetBasis, s[..i])
    {
      assert s[..i + 1][..i] == s[..i];
      hash := XorMulStep(hash, s[i]);
    }
    assert s[..|s|] == s;
  }

  /** A call through the filter's hash-function table. */
  method Hash(f: HashFn, s: Bytes) returns (hash: bv64)
    ensures hash == f.Apply(s)
  {
    match f
    case Fnv0 => hash := FnvHash0(s);
    case Fnv1 => hash := FnvHash1(s);
    case Fnv1a => hash := FnvHash1a(s);
  }
}
