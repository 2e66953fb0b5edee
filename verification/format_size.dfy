/**
 Unit selection of format_size: the size is divided by 1024 until it drops
 below 1024, walking B, KB, MB, GB, TB, and falls through to PB. Only the
 unit and the scaled magnitude are modelled, not the two-decimal rendering.
 */
module SizeUnits {

  datatype SizeUnit = B | KB | MB | GB | TB | PB

  /** The units the loop walks through, in order; PB is the fall-through. */
  const LoopUnits: seq<SizeUnit> := [B, KB, MB, GB, TB]

  /** The unit's position: B is 0, PB is 5. */
  function Rank(u: SizeUnit): nat
  {
    match u
    case B => 0
    case KB => 1
    case MB => 2
    case GB => 3
    case TB => 4
    case PB => 5
  }

  /** 1024 to the power k. */
  function Pow1024(k: nat): (p: nat)
    ensures p >= 1
  {
    if k == 0 then 1 else 1024 * Pow1024(k - 1)
  }

  /**
   The unit a size gets, by thresholds: the first of B, KB, MB, GB, TB whose
   next power of 1024 the size stays below, and PB beyond all of them.
   */
  function UnitFor(n: int): SizeUnit
  {
    if n < 1024 then B
    else if n < 1024 * 1024 then KB
    else if n < 1024 * 1024 * 1024 then MB
    else if n < 1024 * 1024 * 1024 * 1024 then GB
    else if n < 1024 * 1024 * 1024 * 1024 * 1024 then TB
    else PB
  }

  /** Dividing by a positive power of 1024: the quotient stays below 1024 exactly when n stays below the next power. */
  lemma ScaledBelow(size: real, k: nat, n: int)
    requires size * (Pow1024(k) as real) == n as real
    ensures size < 1024.0 <==> n < Pow1024(k + 1)
  {
    var p := Pow1024(k) as real;
    assert Pow1024(k + 1) as real == 1024.0 * p;
    QuotientBelow(size, p, n as real);
  }

  /** For p > 0 and size * p == x: size < 1024 exactly when x < 1024 * p. */
  lemma QuotientBelow(size: real, p: real, x: real)
    requires p > 0.0 && size * p == x
    ensures size < 1024.0 <==> x < 1024.0 * p
  {
    var d := 1024.0 - size;
    assert d * p == 1024.0 * p - x;
    if d > 0.0 {
      PositiveProduct(d, p);
    } else if d < 0.0 {
      PositiveProduct(-d, p);
      assert (-d) * p == x - 1024.0 * p;
    }
  }

  lemma PositiveProduct(x: real, y: real)
    requires x > 0.0 && y > 0.0
    ensures x * y > 0.0
  {
  }

  lemma PowersUpToFive()
    ensures Pow1024(1) == 1024
    ensures Pow1024(2) == 1024 * 1024
    ensures Pow1024(3) == 1024 * 1024 * 1024
    ensures Pow1024(4) == 1024 * 1024 * 1024 * 1024
    ensures Pow1024(5) == 1024 * 1024 * 1024 * 1024 * 1024
  {
  }

  /** format_size's loop: the unit it picks and the magnitude it prints. */
  method FormatSize(sizeBytes: int) returns (magnitude: real, unit: SizeUnit)
    ensures unit == UnitFor(sizeBytes)
    ensures magnitude * (Pow1024(Rank(unit)) as real) == sizeBytes as real
  {
    var size: real := sizeBytes as real;
    var k := 0;
    while k < |LoopUnits|
      invariant 0 <= k <= |LoopUnits|
      invariant size * (Pow1024(k) as real) == sizeBytes as real
      invariant k > 0 ==> sizeBytes >= Pow1024(k)
    {
      ScaledBelow(size, k, sizeBytes);
      if size < 1024.0 {
        assert Rank(LoopUnits[k]) == k;
        if k > 0 {
          UnitBand(k, sizeBytes);
        }
        return size, LoopUnits[k];
      }
      var p := Pow1024(k) as real;
      assert (size / 1024.0) * (1024.0 * p) == size * p;
      size := size / 1024.0;
      k := k + 1;
    }
    PowersUpToFive();
    return size, PB;
  }

  /** Any size below 1024, negative ones included, is in bytes. */
  lemma BelowKibIsBytes(n: int)
    requires n < 1024
    ensures UnitFor(n) == B
  {
  }

  /** For k from 0 to 4, a size in [1024^k, 1024^(k+1)) gets the k-th unit of B, KB, MB, GB, TB. */
  lemma UnitBand(k: nat, n: int)
    requires k < |LoopUnits|
    requires Pow1024(k) <= n < Pow1024(k + 1)
    ensures UnitFor(n) == LoopUnits[k]
  {
    PowersUpToFive();
  }

  /** Sizes from 1024^5 on fall through the loop to PB. */
  lemma AtLeastPibIsPetabytes(n: int)
    requires n >= Pow1024(5)
    ensures UnitFor(n) == PB
  {
    PowersUpToFive();
  }

  /** A larger size never gets a smaller unit. */
  lemma UnitMonotone(a: int, b: int)
    requires a <= b
    ensures Rank(UnitFor(a)) <= Rank(UnitFor(b))
  {
  }
}
