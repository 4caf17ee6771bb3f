/**
 * The magnitude-category table of the entropy coder
 * (Table F.2, section F.1.2.2.1 of ITU-T T.81, limited to categories 1..10)
 * and the lookup `getCorrespondingSize` that scans it.
 */
module AmplitudeMap {

  /** 2 to the power n. */
  function Pow2(n: nat): (p: nat)
    ensures p >= 1
  {
    if n == 0 then 1 else 2 * Pow2(n - 1)
  }

  function Abs(v: int): nat {
    if v < 0 then -v else v
  }

  /** Category k holds the magnitudes in the closed range Table[k]. */
  const Table: map<int, (int, int)> :=
    map[1 := (1, 1), 2 := (2, 3), 3 := (4, 7), 4 := (8, 15), 5 := (16, 31),
        6 := (32, 63), 7 := (64, 127), 8 := (128, 255), 9 := (256, 511), 10 := (512, 1023)]

  /**
   * The order in which the table's HashMap visits its keys: small Integer keys hash to
   * themselves, so 1..10 are met in increasing order. Nothing below depends on it
   * (see LookupIgnoresOrder).
   */
  const IterationOrder: seq<int> := [1, 2, 3, 4, 5, 6, 7, 8, 9, 10]

  /** The test of the lookup's lambda: value lies in [lo, hi] or in [-hi, -lo]. */
  predicate InRange(value: int, range: (int, int)) {
    (value >= range.0 && value <= range.1) || (value >= -range.1 && value <= -range.0)
  }

  /** The forEach of the lookup: every key whose range holds value overwrites result. */
  function ForEachMatch(order: seq<int>, value: int, result: int): int
    requires forall i :: 0 <= i < |order| ==> order[i] in Table
  {
    if order == [] then result
    else ForEachMatch(order[1..], value, if InRange(value, Table[order[0]]) then order[0] else result)
  }

  /** Number of binary digits of n (0 for 0). */
  function BitLength(n: nat): nat {
    if n == 0 then 0 else 1 + BitLength(n / 2)
  }

  /**
   * Reference definition of the category: the k with 2^(k-1) <= |v| <= 2^k - 1,
   * and 0 for v == 0 and for magnitudes no range of the table covers.
   */
  function Category(v: int): nat {
    if Abs(v) <= 1023 then BitLength(Abs(v)) else 0
  }

  /** getCorrespondingSize: the table lookup, starting from the AtomicInteger's default 0. */
  function GetCorrespondingSize(value: int): (size: int)
    ensures size == Category(value)
    ensures 0 <= size <= 10
  {
    LookupIgnoresOrder(IterationOrder, value);
    CategoryAtMostTen(value);
    ForEachMatch(IterationOrder, value, 0)
  }

  lemma {:induction false} Pow2Monotone(a: nat, b: nat)
    requires a <= b
    ensures Pow2(a) <= Pow2(b)
    decreases b
  {
    if a < b {
      Pow2Monotone(a, b - 1);
    }
  }

  lemma {:induction false} BitLengthBounds(n: nat)
    requires n >= 1
    ensures BitLength(n) >= 1
    ensures Pow2(BitLength(n) - 1) <= n < Pow2(BitLength(n))
  {
    if n > 1 {
      BitLengthBounds(n / 2);
    }
  }

  /** The bit length is the k of the range [2^(k-1), 2^k - 1] that holds n. */
  lemma {:induction false} BitLengthIsRange(n: nat, k: nat)
    requires k >= 1
    ensures Pow2(k - 1) <= n <= Pow2(k) - 1 <==> BitLength(n) == k
  {
    if Pow2(k - 1) <= n <= Pow2(k) - 1 {
      BitLengthBounds(n);
      var b := BitLength(n);
      if b < k {
        Pow2Monotone(b, k - 1);
      } else if b > k {
        Pow2Monotone(k, b - 1);
      }
    } else if BitLength(n) == k {
      BitLengthBounds(n);
    }
  }

  lemma CategoryAtMostTen(v: int)
    ensures Category(v) <= 10
  {
    if 1 <= Abs(v) <= 1023 {
      BitLengthBounds(Abs(v));
      if BitLength(Abs(v)) > 10 {
        Pow2Monotone(10, BitLength(Abs(v)) - 1);
      }
    }
  }

  /** The table's ranges are exactly [2^(k-1), 2^k - 1]. */
  lemma TableIsPowersOfTwo(k: int)
    requires k in Table
    ensures 1 <= k <= 10 && Table[k] == (Pow2(k - 1), Pow2(k) - 1)
  {
  }

  /** Key k of the table matches value exactly when k is value's category. */
  lemma KeyMatchesCategory(k: int, value: int)
    requires k in Table
    ensures InRange(value, Table[k]) <==> Category(value) == k
  {
    TableIsPowersOfTwo(k);
    Pow2Monotone(k, 10);
    BitLengthIsRange(Abs(value), k);
  }

  /**
   * The lookup returns the category, whatever order the keys are visited in, provided
   * every key is visited: at most one range matches, so "last match wins" is "the match".
   */
  lemma {:induction false} ForEachMatchIsCategory(order: seq<int>, value: int, result: int)
    requires forall i :: 0 <= i < |order| ==> order[i] in Table
    ensures ForEachMatch(order, value, result)
         == if Category(value) in order then Category(value) else result
  {
    if order != [] {
      KeyMatchesCategory(order[0], value);
      ForEachMatchIsCategory(order[1..], value,
        if InRange(value, Table[order[0]]) then order[0] else result);
      assert order == [order[0]] + order[1..];
    }
  }

  /** The result does not depend on the HashMap's iteration order. */
  lemma LookupIgnoresOrder(order: seq<int>, value: int)
    requires forall i :: 0 <= i < |order| ==> order[i] in Table
    requires forall k :: k in Table ==> k in order
    ensures ForEachMatch(order, value, 0) == Category(value)
  {
    ForEachMatchIsCategory(order, value, 0);
    if Category(value) != 0 {
      CategoryAtMostTen(value);
      assert Category(value) in Table;
    } else {
      assert 0 !in Table;
    }
  }

  /** For k in 1..10, a magnitude in [2^(k-1), 2^k - 1] gets size k, and only such a magnitude. */
  lemma SizeOfRange(value: int, k: int)
    requires 1 <= k <= 10
    ensures Pow2(k - 1) <= Abs(value) <= Pow2(k) - 1 <==> GetCorrespondingSize(value) == k
  {
    Pow2Monotone(k, 10);
    BitLengthIsRange(Abs(value), k);
  }

  /** Size 0 means zero or a magnitude of 1024 and more: no range holds it. */
  lemma SizeZero(value: int)
    ensures GetCorrespondingSize(value) == 0 <==> value == 0 || Abs(value) >= 1024
  {
    if 1 <= Abs(value) <= 1023 {
      BitLengthBounds(Abs(value));
    }
  }

  /** The size of -v is the size of v. */
  lemma SizeSymmetric(value: int)
    ensures GetCorrespondingSize(-value) == GetCorrespondingSize(value)
  {
  }

  /** The ranges of two different keys share no value, so at most one key matches. */
  lemma RangesDisjoint(k1: int, k2: int, value: int)
    requires k1 in Table && k2 in Table && k1 != k2
    ensures !(InRange(value, Table[k1]) && InRange(value, Table[k2]))
  {
    KeyMatchesCategory(k1, value);
    KeyMatchesCategory(k2, value);
  }

  /** The boundary values of the category table. */
  lemma SizeBoundaries()
    ensures GetCorrespondingSize(0) == 0
    ensures GetCorrespondingSize(1) == 1 && GetCorrespondingSize(-1) == 1
    ensures GetCorrespondingSize(2) == 2 && GetCorrespondingSize(3) == 2
    ensures GetCorrespondingSize(4) == 3
    ensures GetCorrespondingSize(1023) == 10 && GetCorrespondingSize(-1023) == 10
    ensures GetCorrespondingSize(1024) == 0 && GetCorrespondingSize(-1024) == 0
  {
    SizeOfRange(1, 1);
    SizeOfRange(-1, 1);
    SizeOfRange(2, 2);
    SizeOfRange(3, 2);
    SizeOfRange(4, 3);
    SizeOfRange(1023, 10);
    SizeOfRange(-1023, 10);
  }
}
