/** Shared vocabulary: byte strings, an optional value, and marking slots of a sequence. */
module Base {

  /** An unsigned 8-bit value (`uint8_t`, and a `char` of a `std::string` read as one). */
  newtype byte = x: int | 0 <= x < 0x100

  /** An unsigned 16-bit value (`uint16_t`). */
  newtype u16 = x: int | 0 <= x < 0x1_0000

  /** A byte string. */
  type Bytes = seq<byte>

  datatype Option<+T> = None | Some(value: T)

  datatype Result<+T, +E> = Ok(value: T) | Err(error: E)

  /** `mem` with every in-range position of `slots` set to `v` and every other position kept. */
  function Mark<T>(mem: seq<T>, slots: set<nat>, v: T): seq<T>
  {
    seq(|mem|, j requires 0 <= j < |mem| => if j in slots then v else mem[j])
  }

  /** Marking is idempotent, and marking two slot sets in either order gives the same sequence. */
  lemma MarkTwice<T>(mem: seq<T>, a: set<nat>, b: set<nat>, v: T)
    ensures Mark(Mark(mem, a, v), b, v) == Mark(mem, a + b, v)
  {
  }

  /** Marking one more in-range slot is a single update of the marked sequence. */
  lemma MarkOne<T>(mem: seq<T>, slots: set<nat>, j: nat, v: T)
    requires j < |mem|
    ensures Mark(mem, slots, v)[j := v] == Mark(mem, slots + {j}, v)
  {
  }

  /** Bitwise AND of two unsigned values, on naturals. */
  function BitAnd(x: nat, y: nat): (r: nat)
    ensures r <= x && r <= y
  {
    if x == 0 || y == 0 then 0
    else 2 * BitAnd(x / 2, y / 2) + (if x % 2 == 1 && y % 2 == 1 then 1 else 0)
  }

  /** 2 to the power `k`. */
  function Pow2(k: nat): (r: nat)
    ensures r >= 1
  {
    if k == 0 then 1 else 2 * Pow2(k - 1)
  }

  /** Powers of two multiply by adding exponents. */
  lemma {:induction false} Pow2Add(a: nat, b: nat)
    ensures Pow2(a + b) == Pow2(a) * Pow2(b)
    decreases a
  {
    if a > 0 {
      Pow2Add(a - 1, b);
      assert Pow2(a + b) == 2 * Pow2(a - 1 + b);
    }
  }

  lemma MulPositive(n: int, d: int)
    requires n > 0 && d >= 1
    ensures n * d >= n
  {
    if d > 1 {
      MulPositive(n, d - 1);
      assert n * d == n * (d - 1) + n;
    }
  }

  lemma ModUnique(x: int, n: int, a: int, c: int)
    requires n > 0 && 0 <= c < n && x == n * a + c
    ensures x % n == c
  {
    var q, r := x / n, x % n;
    assert x == n * q + r;
    assert n * (q - a) == c - r;
    if q - a >= 1 {
      MulPositive(n, q - a);
    } else if a - q >= 1 {
      MulPositive(n, a - q);
    }
  }

  /** A quotient and remainder by 256 are determined by the value. */
  lemma DivMod256(x: int, q: int, r: int)
    requires 0 <= r < 0x100 && x == 0x100 * q + r
    ensures x / 0x100 == q && x % 0x100 == r
  {
    ModUnique(x, 0x100, q, r);
  }

  /** Halving `x` and reducing modulo `m`, then restoring the low bit, is `x` modulo `n = 2m`. */
  lemma HalveMod(x: nat, m: nat, n: nat)
    requires m >= 1 && n == 2 * m
    ensures 2 * ((x / 2) % m) + x % 2 == x % n
  {
    var q, r := x / 2, x % 2;
    var a, b := q / m, q % m;
    assert q == m * a + b;
    assert x == n * a + (2 * b + r);
    ModUnique(x, n, a, 2 * b + r);
  }

  /** AND with an odd mask `m = 2z + 1` keeps the lowest bit and ANDs the rest with `z`. */
  lemma BitAndOddMask(x: nat, z: nat, m: nat)
    requires x > 0 && m == 2 * z + 1
    ensures BitAnd(x, m) == 2 * BitAnd(x / 2, z) + x % 2
  {
    assert m / 2 == z && m % 2 == 1;
  }

  /** Masking with 2^k - 1 keeps the remainder modulo 2^k. */
  lemma {:induction false} BitAndLowMask(x: nat, k: nat)
    ensures BitAnd(x, Pow2(k) - 1) == x % Pow2(k)
    decreases k
  {
    if k == 0 {
      assert Pow2(k) - 1 == 0;
    } else if x == 0 {
      assert BitAnd(x, Pow2(k) - 1) == 0;
    } else {
      var p, n := Pow2(k - 1), Pow2(k);
      BitAndOddMask(x, p - 1, n - 1);
      BitAndLowMask(x / 2, k - 1);
      HalveMod(x, p, n);
    }
  }
}
