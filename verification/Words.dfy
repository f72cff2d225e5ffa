/** Machine words, and the single-bit masks that the bus bitmap and the pad samples are built from. */
module Words {

  type u64 = x: int | 0 <= x < 0x1_0000_0000_0000_0000

  type u32 = x: int | 0 <= x < 0x1_0000_0000

  const U64_MODULUS := 0x1_0000_0000_0000_0000
  const U32_MODULUS := 0x1_0000_0000

  function WrappingAdd(a: u64, b: u64): u64 {
    (a + b) % U64_MODULUS
  }

  function WrappingSub(a: u64, b: u64): u64 {
    (a - b) % U64_MODULUS
  }

  // What a 64-bit counter reads at instant `t` of a time that never wraps.
  function Counter(t: int): u64 {
    t % U64_MODULUS
  }

  lemma CounterAdds(a: int, b: int)
    ensures WrappingAdd(Counter(a), Counter(b)) == Counter(a + b)
    ensures WrappingSub(Counter(a), Counter(b)) == Counter(a - b)
  {
    var qa, qb := a / U64_MODULUS, b / U64_MODULUS;
    SameCounter(a + b, Counter(a) + Counter(b), qa + qb);
    SameCounter(a - b, Counter(a) - Counter(b), qa - qb);
  }

  lemma SameCounter(x: int, y: int, laps: int)
    requires x == y + laps * U64_MODULUS
    ensures Counter(x) == Counter(y)
  {
    var k := x / U64_MODULUS - y / U64_MODULUS - laps;
    assert k * U64_MODULUS == Counter(y) - Counter(x);
  }

  // `1 << i`, by doubling: the solver reasons about one doubling far better than about a symbolic shift.
  function Mask(i: nat): bv32
    requires i < 32
  {
    if i == 0 then 1 else Mask(i - 1) << 1
  }

  predicate HasMask(word: bv32, mask: bv32) {
    word & mask != 0
  }

  predicate Has(word: bv32, i: nat)
    requires i < 32
  {
    HasMask(word, Mask(i))
  }

  lemma {:induction false} MaskIsShift(i: nat)
    requires i < 32
    ensures Mask(i) == (1 as bv32) << i
  {
    if i > 0 { MaskIsShift(i - 1); }
  }

  lemma {:induction false} MaskNonZero(i: nat)
    requires i < 32
    ensures Mask(i) != 0
    decreases 32 - i
  {
    if i < 31 { MaskNonZero(i + 1); } else { MaskIsShift(31); }
  }

  lemma {:induction false} OrderedMasksApart(i: nat, j: nat)
    requires i < j < 32
    ensures Mask(i) & Mask(j) == 0 && Mask(j) & Mask(i) == 0
  {
    if i > 0 { OrderedMasksApart(i - 1, j - 1); }
  }

  lemma MasksApart(i: nat, j: nat)
    requires i < 32 && j < 32 && i != j
    ensures Mask(i) & Mask(j) == 0
  {
    if i < j { OrderedMasksApart(i, j); } else { OrderedMasksApart(j, i); }
  }

  lemma OrWithDisjoint(word: bv32, a: bv32, b: bv32)
    requires a & b == 0
    ensures HasMask(word | a, b) == HasMask(word, b)
  {
    assert (word | a) & b == word & b;
  }

  lemma OrWithSame(word: bv32, a: bv32)
    requires a != 0
    ensures HasMask(word | a, a)
  {
    assert (word | a) & a == a;
  }

  // `1 << i`, as the callers write it.
  method Shifted(i: nat) returns (mask: bv32)
    requires i < 32
    ensures mask == Mask(i)
  {
    MaskIsShift(i);
    mask := (1 as bv32) << i;
  }

  /** Setting bit `i` makes exactly bit `i` true and leaves the other thirty-one as they were. */
  lemma SetSame(word: bv32, i: nat)
    requires i < 32
    ensures Has(word | Mask(i), i)
  {
    MaskNonZero(i);
    OrWithSame(word, Mask(i));
  }

  lemma SetOther(word: bv32, i: nat, j: nat)
    requires i < 32 && j < 32 && i != j
    ensures HasMask(word | Mask(i), Mask(j)) == HasMask(word, Mask(j))
  {
    MasksApart(i, j);
    OrWithDisjoint(word, Mask(i), Mask(j));
  }

  lemma SetBit(word: bv32, i: nat, j: nat)
    requires i < 32 && j < 32
    ensures Has(word | Mask(i), j) <==> i == j || Has(word, j)
  {
    if i == j { SetSame(word, i); } else { SetOther(word, i, j); }
  }

  lemma NoBits(i: nat)
    requires i < 32
    ensures !Has(0, i)
  {
    assert 0 & Mask(i) == 0;
  }
}
