/** The fragment arithmetic of PrepareKey, on 64-bit signed integers. */
module Planner {
  const MIN_INT64: int := -0x8000_0000_0000_0000
  const MAX_INT64: int := 0x7FFF_FFFF_FFFF_FFFF

  type Int64 = x: int | MIN_INT64 <= x <= MAX_INT64

  /** A non-positive chunk size means 8 MiB. */
  function ChunkSizeOr(chunkSize: int): (c: nat)
    ensures c > 0
  {
    if chunkSize <= 0 then 8388608 else chunkSize
  }

  /** Two's-complement wrap-around. */
  function Wrap(x: int): (w: Int64)
    ensures MIN_INT64 <= x <= MAX_INT64 ==> w == x
  {
    (x + 0x8000_0000_0000_0000) % 0x1_0000_0000_0000_0000 - 0x8000_0000_0000_0000
  }

  /** Division that truncates toward zero. */
  function Quo(a: int, b: int): int
    requires b > 0
  {
    if a >= 0 then a / b else -(-a / b)
  }

  function Rem(a: int, b: int): int
    requires b > 0
  {
    a - b * Quo(a, b)
  }

  /** Wrapping moves by whole multiples of 2 to the 64th. */
  lemma WrapCongruent(x: int)
    ensures (x - Wrap(x)) % 0x1_0000_0000_0000_0000 == 0
  {
    var y := x + 0x8000_0000_0000_0000;
    assert x - Wrap(x) == y - y % 0x1_0000_0000_0000_0000;
    assert y == y / 0x1_0000_0000_0000_0000 * 0x1_0000_0000_0000_0000 + y % 0x1_0000_0000_0000_0000;
  }

  /** Truncating division: the remainder is smaller than the divisor and has the sign of the dividend. */
  lemma Truncates(a: int, b: int)
    requires b > 0
    ensures a == b * Quo(a, b) + Rem(a, b) && -b < Rem(a, b) < b
    ensures (a >= 0 ==> Rem(a, b) >= 0) && (a <= 0 ==> Rem(a, b) <= 0)
  {
    if a >= 0 {
      assert a == b * (a / b) + a % b;
    } else {
      assert -a == b * (-a / b) + -a % b;
      assert b * Quo(a, b) == -(b * (-a / b));
    }
  }

  /** numFragments; a negative count makes the allocation that follows panic. */
  function FragmentCount(totalSize: Int64, chunkSize: Int64): int
    requires chunkSize > 0
  {
    var q := Quo(Wrap(Wrap(totalSize + chunkSize) - 1), chunkSize);
    if q == 0 then 1 else q
  }

  function FragmentSize(totalSize: Int64, chunkSize: Int64, count: int, i: int): int
    requires chunkSize > 0
  {
    if i == count - 1 && Rem(totalSize, chunkSize) > 0 then Rem(totalSize, chunkSize) else chunkSize
  }

  /** Every fragment is a full chunk, but for the last of a positive size that is no multiple of the chunk size. */
  lemma SizeExact(totalSize: Int64, chunkSize: Int64, count: int, i: int)
    requires chunkSize > 0
    ensures FragmentSize(totalSize, chunkSize, count, i) ==
      if i == count - 1 && totalSize > 0 && totalSize % chunkSize > 0 then totalSize % chunkSize else chunkSize
  {
    Truncates(totalSize, chunkSize);
    if totalSize > 0 {
      RemOfNat(totalSize, chunkSize);
    }
  }

  /** The count for every size, whether or not rounding up overflows: one where the rounded-up size, wrapped to 64 bits,
      is less than a chunk either way, and otherwise the whole chunks in it, counted away from zero. */
  lemma CountExact(totalSize: Int64, chunkSize: Int64)
    requires chunkSize > 0
    ensures var rounded, count := Wrap(totalSize + chunkSize - 1), FragmentCount(totalSize, chunkSize);
      && (-chunkSize < rounded < chunkSize ==> count == 1)
      && (rounded >= chunkSize ==> count > 0 && chunkSize * count <= rounded < chunkSize * count + chunkSize)
      && (rounded <= -chunkSize ==> count < 0 && chunkSize * count - chunkSize < rounded <= chunkSize * count)
  {
    WrapTwice(totalSize, chunkSize);
    var rounded := Wrap(totalSize + chunkSize - 1);
    Truncates(rounded, chunkSize);
    QuoSign(rounded, chunkSize);
    QuoBeyond(rounded, chunkSize, 0);
  }

  /** The planned sizes, summed over the first n fragments. */
  function PlannedBytes(totalSize: Int64, chunkSize: Int64, count: int, n: nat): int
    requires chunkSize > 0
  {
    if n == 0 then 0
    else PlannedBytes(totalSize, chunkSize, count, n - 1) + FragmentSize(totalSize, chunkSize, count, n - 1)
  }

  lemma {:induction false} FullChunks(totalSize: Int64, chunkSize: Int64, count: int, n: nat)
    requires chunkSize > 0 && n < count
    ensures PlannedBytes(totalSize, chunkSize, count, n) == n * chunkSize
  {
    if n > 0 {
      FullChunks(totalSize, chunkSize, count, n - 1);
      assert n * chunkSize == (n - 1) * chunkSize + chunkSize;
    }
  }

  /** Rounding the size up to whole chunks stays within 64 bits. */
  predicate Fits(totalSize: int, chunkSize: int) {
    chunkSize > 0 && 0 <= totalSize && totalSize + chunkSize - 1 <= MAX_INT64
  }

  /** Without overflow the count is the ceiling of the quotient, and one for an empty value. */
  lemma CountIsCeiling(totalSize: Int64, chunkSize: Int64)
    requires Fits(totalSize, chunkSize)
    ensures FragmentCount(totalSize, chunkSize) == if totalSize == 0 then 1 else (totalSize - 1) / chunkSize + 1
  {
    WrapTwice(totalSize, chunkSize);
    if totalSize == 0 {
      SmallQuotient(chunkSize - 1, chunkSize);
    } else {
      AddOneChunk(totalSize - 1, chunkSize);
      assert (totalSize - 1) / chunkSize >= 0;
    }
  }

  lemma SmallQuotient(a: nat, b: nat)
    requires a < b
    ensures a / b == 0
  {
  }

  lemma AddOneChunk(a: nat, b: nat)
    requires b > 0
    ensures (a + b) / b == a / b + 1
  {
    QuotientUnique(a + b, b, a / b + 1, a % b);
  }

  lemma AtLeastFactor(b: int, d: int)
    requires b > 0 && d >= 1
    ensures b * d >= b
  {
    assert b * d == b * (d - 1) + b;
    assert b * (d - 1) >= 0;
  }

  lemma QuotientUnique(a: int, b: nat, q: int, r: nat)
    requires b > 0 && a == b * q + r && r < b
    ensures a / b == q && a % b == r
  {
    DivisionUnique(b, q, r, a / b, a % b);
  }

  lemma DivisionUnique(b: nat, q: int, r: int, q': int, r': int)
    requires b > 0 && b * q + r == b * q' + r' && 0 <= r < b && 0 <= r' < b
    ensures q == q' && r == r'
  {
    assert b * (q - q') == r' - r && b * (q' - q) == r - r';
    if q > q' {
      AtLeastFactor(b, q - q');
    } else if q < q' {
      AtLeastFactor(b, q' - q);
    }
  }

  /** The planned sizes add up to the value's size exactly when the value is not empty. */
  lemma PlanCoversIff(totalSize: Int64, chunkSize: Int64)
    requires Fits(totalSize, chunkSize)
    ensures var count := FragmentCount(totalSize, chunkSize);
      count > 0 && (PlannedBytes(totalSize, chunkSize, count, count) == totalSize <==> totalSize > 0)
  {
    CountIsCeiling(totalSize, chunkSize);
    var count := FragmentCount(totalSize, chunkSize);
    if totalSize > 0 {
      assert (totalSize - 1) / chunkSize >= 0;
    }
    FullChunks(totalSize, chunkSize, count, count - 1);
    LastChunk(totalSize, chunkSize);
  }

  lemma LastPiece(total: nat, c: nat)
    requires total > 0 && c > 0
    ensures var left := total - (total - 1) / c * c; 0 < left <= c && left == if total % c > 0 then total % c else c
  {
    var q, r := (total - 1) / c, (total - 1) % c;
    assert total == c * q + (r + 1);
    if r + 1 < c {
      QuotientUnique(total, c, q, r + 1);
    } else {
      assert total == c * (q + 1) + 0;
      QuotientUnique(total, c, q + 1, 0);
    }
  }

  lemma RemOfNat(a: nat, b: nat)
    requires b > 0
    ensures Rem(a, b) == a % b
  {
  }

  /** The last fragment holds what the full chunks before it leave over. */
  lemma LastChunk(totalSize: Int64, chunkSize: Int64)
    requires Fits(totalSize, chunkSize)
    ensures var count := FragmentCount(totalSize, chunkSize);
      count > 0
      && FragmentSize(totalSize, chunkSize, count, count - 1)
        == if totalSize == 0 then chunkSize else totalSize - (count - 1) * chunkSize
    ensures var count := FragmentCount(totalSize, chunkSize);
      totalSize > 0 ==> 0 < totalSize - (count - 1) * chunkSize <= chunkSize
  {
    CountIsCeiling(totalSize, chunkSize);
    RemOfNat(totalSize, chunkSize);
    if totalSize > 0 {
      LastPiece(totalSize, chunkSize);
    } else {
      SmallQuotient(0, chunkSize);
    }
  }

  /** The allocation of the plan goes through: its length is not negative and not beyond what can be allocated. */
  predicate Allocatable(count: int, longest: nat) {
    0 <= count <= longest
  }

  /** The plan panics exactly when the rounded-up size, wrapped to 64 bits, is minus a whole chunk or less, or more than
      the longest plan can hold. */
  lemma PlanPanicsIff(totalSize: Int64, chunkSize: Int64, longest: nat)
    requires chunkSize > 0 && longest > 0
    ensures var rounded := Wrap(totalSize + chunkSize - 1);
      !Allocatable(FragmentCount(totalSize, chunkSize), longest) <==>
        rounded <= -chunkSize || rounded >= chunkSize * (longest + 1)
  {
    WrapTwice(totalSize, chunkSize);
    QuoSign(Wrap(totalSize + chunkSize - 1), chunkSize);
    QuoBeyond(Wrap(totalSize + chunkSize - 1), chunkSize, longest);
  }

  /** Both ways to panic occur: a size near the lower end of 64 bits, and any size just beyond the longest plan. */
  lemma PlansThatPanic(longest: nat)
    requires 0 < longest < MAX_INT64
    ensures FragmentCount(MIN_INT64, 1) < 0
    ensures FragmentCount(longest + 1, 1) == longest + 1 && !Allocatable(FragmentCount(longest + 1, 1), longest)
  {
    CountIsCeiling(longest + 1, 1);
    assert MIN_INT64 + 1 - 1 == MIN_INT64;
  }

  /** Where a quotient lies, by its products alone. */
  lemma BeyondByProducts(w: int, c: nat, q: int, r: nat, n: nat)
    requires w == c * q + r && r < c
    ensures q > n <==> w >= c * (n + 1)
  {
    if q > n {
      ScaledOrder(c, n + 1, q);
    } else {
      ScaledOrder(c, q, n);
      assert c * (n + 1) == c * n + c;
    }
  }

  lemma ScaledOrder(c: nat, a: int, b: int)
    requires a <= b
    ensures c * a <= c * b
  {
    assert c * b - c * a == c * (b - a);
    assert c * (b - a) >= 0;
  }

  lemma NegativeQuo(w: int, c: nat)
    requires c > 0 && w < 0
    ensures Quo(w, c) <= 0
  {
    assert -w / c >= 0;
  }

  lemma QuotientBeyond(w: nat, c: nat, n: nat)
    requires c > 0
    ensures w / c > n <==> w >= c * (n + 1)
  {
    BeyondByProducts(w, c, w / c, w % c, n);
  }

  lemma NegativeBelow(w: int, c: nat, n: nat)
    requires c > 0 && w < 0
    ensures w < c * (n + 1)
  {
    ScaledOrder(c, 0, n + 1);
  }

  lemma QuoBeyond(w: int, c: nat, n: nat)
    requires c > 0
    ensures Quo(w, c) > n <==> w >= c * (n + 1)
  {
    if w < 0 {
      NegativeQuo(w, c);
      NegativeBelow(w, c, n);
    } else {
      QuotientBeyond(w, c, n);
    }
  }

  lemma ProductMonotone(a: nat, b: nat, c: nat)
    requires a <= b
    ensures a * c <= b * c
  {
    assert b * c == a * c + (b - a) * c;
    assert (b - a) * c >= 0;
  }

  lemma QuoSign(w: int, c: int)
    requires c > 0
    ensures Quo(w, c) < 0 <==> w <= -c
  {
    if w >= 0 {
      assert w / c >= 0;
    } else if w > -c {
      SmallQuotient(-w, c);
    } else {
      AtLeastOne(-w, c);
    }
  }

  lemma AtLeastOne(a: nat, b: nat)
    requires b > 0 && a >= b
    ensures a / b >= 1
  {
    AddOneChunk(a - b, b);
  }

  lemma WrapTwice(a: Int64, b: Int64)
    ensures Wrap(Wrap(a + b) - 1) == Wrap(a + b - 1)
  {
  }
}
