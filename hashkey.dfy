/**
 * 128-bit hash keys used to identify unique positions (`HashKey128b` in uniques.h).
 * A key is two independent 64-bit halves; every operation acts on each half separately.
 *
 * A 64-bit word is modelled as the set of the indices of its set bits, so `^` on words is the
 * symmetric difference and `&` is intersection.
 */
module HashKey {

  type BitIndex = i: int | 0 <= i < 64

  /** An unsigned 64-bit word, as the set of its one bits. */
  type Word64 = set<BitIndex>

  /** `a ^ b` on 64-bit words. */
  function WordXor(a: Word64, b: Word64): Word64
  {
    (a - b) + (b - a)
  }

  /** `lowPart` selects the hash-table bucket; `highPart` only takes part in comparisons. */
  datatype Key128 = Key128(low: Word64, high: Word64)

  /** The value of the default constructor `HashKey128b()`, also the empty-slot sentinel. */
  const Zero: Key128 := Key128({}, {})

  /** `operator^`; `a ^= b` stores `Xor(a, b)` back into `a`. */
  function Xor(a: Key128, b: Key128): Key128
  {
    Key128(WordXor(a.low, b.low), WordXor(a.high, b.high))
  }

  /** `operator==`: compares the high halves, then the low halves. */
  function Equal(a: Key128, b: Key128): (r: bool)
    ensures r <==> a == b
  {
    a.high == b.high && a.low == b.low
  }

  /** A bit of `Xor(a, b)` is set exactly where the two keys differ, in each half separately. */
  lemma XorBits(a: Key128, b: Key128, i: BitIndex)
    ensures i in Xor(a, b).low <==> (i in a.low) != (i in b.low)
    ensures i in Xor(a, b).high <==> (i in a.high) != (i in b.high)
  {
  }

  /** The default key (0, 0) is the identity of XOR. */
  lemma XorZero(a: Key128)
    ensures Xor(a, Zero) == a && Xor(Zero, a) == a
  {
  }

  /** XOR-ing the same key twice gives back the original key. */
  lemma XorCancel(a: Key128, b: Key128)
    ensures Xor(Xor(a, b), b) == a
    ensures Xor(b, b) == Zero
  {
  }

  /** XOR is commutative and associative, so a fold of keys does not depend on its order. */
  lemma XorCommutes(a: Key128, b: Key128)
    ensures Xor(a, b) == Xor(b, a)
  {
  }

  lemma XorAssociates(a: Key128, b: Key128, c: Key128)
    ensures Xor(Xor(a, b), c) == Xor(a, Xor(b, c))
    ensures Xor(Xor(a, b), c) == Xor(Xor(a, c), b)
  {
  }

  function Pow2(n: nat): (r: nat)
    ensures r >= 1
  {
    if n == 0 then 1 else 2 * Pow2(n - 1)
  }

  /** `1 << (a + b) == (1 << a) * (1 << b)`. */
  lemma {:induction false} Pow2Add(a: nat, b: nat)
    ensures Pow2(a + b) == Pow2(a) * Pow2(b)
  {
    if a > 0 {
      Pow2Add(a - 1, b);
    }
  }

  /** The unsigned value of the bits of `w` below bit `n`. */
  function ValueBelow(w: Word64, n: nat): nat
    requires n <= 64
  {
    if n == 0 then 0 else ValueBelow(w, n - 1) + (if n - 1 in w then Pow2(n - 1) else 0)
  }

  /** The word `(1 << bits) - 1`: the bits below `bits`. */
  function LowMask(bits: nat): (w: Word64)
    requires bits <= 64
    ensures forall i: BitIndex :: i in w <==> i < bits
  {
    if bits == 0 then {} else LowMask(bits - 1) + {bits - 1}
  }

  /** A word with no bit at or above `n` has a value below `2^n`, and bits above add nothing. */
  lemma {:induction false} ValueBound(w: Word64, n: nat, m: nat)
    requires n <= m <= 64
    requires forall i :: i in w ==> i < n
    ensures ValueBelow(w, m) == ValueBelow(w, n) < Pow2(n)
    decreases m
  {
    if m > n {
      ValueBound(w, n, m - 1);
    } else if n > 0 {
      ValueBelowLess(w, n);
    }
  }

  lemma {:induction false} ValueBelowLess(w: Word64, n: nat)
    requires n <= 64
    ensures ValueBelow(w, n) < Pow2(n)
  {
    if n > 0 {
      ValueBelowLess(w, n - 1);
    }
  }

  /** `lowPart & ((1 << bits) - 1)`: the bucket index a key selects in a table of `2^bits` slots. */
  function MaskedIndex(k: Key128, bits: nat): (b: nat)
    requires bits <= 64
    ensures b < Pow2(bits)
  {
    var w := k.low * LowMask(bits);
    ValueBound(w, bits, 64);
    ValueBelow(w, 64)
  }

  /**
   * The bucket is the key modulo the table size: masking the low word with
   * `(1 << bits) - 1` leaves its value modulo `2^bits`.
   */
  lemma MaskedModulo(k: Key128, bits: nat)
    requires bits <= 64
    ensures MaskedIndex(k, bits) == ValueBelow(k.low, 64) % Pow2(bits)
  {
    var w := k.low * LowMask(bits);
    var v, p, high := ValueBelow(k.low, bits), Pow2(bits), HighValue(k.low, bits, 64);
    assert MaskedIndex(k, bits) == v by {
      ValueBound(w, bits, 64);
      MaskedBelow(k.low, bits, bits);
    }
    assert ValueBelow(k.low, 64) % p == v by {
      ValueSplit(k.low, bits, 64);
      ValueBelowLess(k.low, bits);
      ModOfSum(v, p, high);
    }
  }

  /** Masking with the bits below `bits` keeps the value of the bits below `n <= bits`. */
  lemma {:induction false} MaskedBelow(w: Word64, bits: nat, n: nat)
    requires n <= bits <= 64
    ensures ValueBelow(w * LowMask(bits), n) == ValueBelow(w, n)
  {
    if n > 0 {
      MaskedBelow(w, bits, n - 1);
    }
  }

  /** The value of the bits of `w` from bit `n` up to bit `m`, taken from bit `n` on. */
  function HighValue(w: Word64, n: nat, m: nat): nat
    requires n <= m <= 64
    decreases m
  {
    if m == n then 0 else HighValue(w, n, m - 1) + (if m - 1 in w then Pow2(m - 1 - n) else 0)
  }

  /** The value below bit `m` is the value below bit `n` plus `2^n` times the bits in between. */
  lemma {:induction false} ValueSplit(w: Word64, n: nat, m: nat)
    requires n <= m <= 64
    ensures ValueBelow(w, m) == ValueBelow(w, n) + Pow2(n) * HighValue(w, n, m)
    decreases m
  {
    if m > n {
      ValueSplit(w, n, m - 1);
      var p, h := Pow2(n), HighValue(w, n, m - 1);
      if m - 1 in w {
        var r := Pow2(m - 1 - n);
        Pow2Add(n, m - 1 - n);
        assert n + (m - 1 - n) == m - 1;
        Distributes(p, h, r);
        assert ValueBelow(w, m) == ValueBelow(w, m - 1) + Pow2(m - 1);
        assert HighValue(w, n, m) == h + r;
      } else {
        assert HighValue(w, n, m) == h;
      }
    }
  }

  lemma Distributes(p: nat, h: nat, r: nat)
    ensures p * (h + r) == p * h + p * r
  {
  }

  /** `(a + p * q) % p == a` for `0 <= a < p`. */
  lemma ModOfSum(a: nat, p: nat, q: nat)
    requires a < p
    ensures (a + p * q) % p == a
  {
    var x := a + p * q;
    var d, r := x / p, x % p;
    assert x == p * d + r && 0 <= r < p;
    if d > q {
      MulAtLeast(p, d - q);
    } else if d < q {
      MulAtLeast(p, q - d);
    }
  }

  /** `p * n >= p` for `n >= 1`. */
  lemma {:induction false} MulAtLeast(p: nat, n: int)
    requires n >= 1
    ensures p * n >= p
  {
    if n > 1 {
      MulAtLeast(p, n - 1);
      assert p * n == p * (n - 1) + p;
    }
  }
}
