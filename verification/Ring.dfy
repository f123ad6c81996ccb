/**
 Counting on a ring. Page numbers and block ids of an item store are both counters that
 advance by one and wrap; `Ring(j, m)` is where such a counter stands after `j` advances.
 The wrapped comparison by which a restarted device orders its pages is defined and
 proved here.
 */
module Rings {

  /** The position of a counter modulo `m` after `j` steps from 0. */
  function Ring(j: nat, m: nat): (r: nat)
    requires m > 0
    ensures r < m
  {
    if j == 0 then 0 else NextOnRing(Ring(j - 1, m), m)
  }

  function NextOnRing(r: nat, m: nat): nat
    requires m > 0
  {
    if r + 1 >= m then 0 else r + 1
  }

  lemma {:induction false} RingIsMod(j: nat, m: nat)
    requires m > 0
    ensures Ring(j, m) == j % m
  {
    if j > 0 {
      RingIsMod(j - 1, m);
      ModStep(j - 1, m);
    }
  }

  lemma ModStep(j: nat, m: nat)
    requires m > 0
    ensures (j + 1) % m == NextOnRing(j % m, m)
  {
    var q, r := j / m, j % m;
    assert j == m * q + r;
    if r + 1 < m {
      ModUnique(j + 1, m, q, r + 1);
    } else {
      assert j + 1 == m * (q + 1) + 0;
      ModUnique(j + 1, m, q + 1, 0);
    }
  }

  lemma ModUnique(a: int, m: int, q: int, r: int)
    requires m > 0 && 0 <= r < m && a == m * q + r
    ensures a % m == r
  {
    var d := q - a / m;
    assert m * d == m * q - m * (a / m);
    assert m * d == a % m - r;
    MulGrows(m, d);
  }

  lemma MulGrows(m: int, d: int)
    requires m > 0
    decreases if d < 0 then -d else d
    ensures d > 0 ==> m * d >= m
    ensures d < 0 ==> m * d <= -m
    ensures d == 0 ==> m * d == 0
  {
    if d > 1 {
      MulGrows(m, d - 1);
    } else if d < -1 {
      MulGrows(m, d + 1);
    }
  }

  /** Advancing by less than a full turn is an addition with at most one wrap. */
  lemma {:induction false} RingAdd(j: nat, d: nat, m: nat)
    requires m > 0 && d < m
    ensures Ring(j + d, m) == if Ring(j, m) + d < m then Ring(j, m) + d else Ring(j, m) + d - m
  {
    if d > 0 {
      RingAdd(j, d - 1, m);
      assert j + d - 1 == j + (d - 1);
    }
  }

  lemma {:induction false} RingPeriod(j: nat, m: nat)
    requires m > 0
    ensures Ring(j + m, m) == Ring(j, m)
  {
    RingAdd(j, m - 1, m);
    assert j + m - 1 == j + (m - 1);
  }

  /** Two different counts less than a full turn apart stand on different positions. */
  lemma RingDistinct(i: nat, j: nat, m: nat)
    requires m > 0 && i < j < i + m
    ensures Ring(i, m) != Ring(j, m)
  {
    RingAdd(i, j - i, m);
  }

  /** Below the first wrap the position is the count itself. */
  lemma {:induction false} RingSmall(j: nat, m: nat)
    requires j < m
    ensures Ring(j, m) == j
  {
    RingAdd(0, j, m);
  }

  lemma {:induction false} RingOfTurns(n: nat, turns: nat)
    requires n > 0
    ensures turns * n >= 0 && Ring(turns * n, n) == 0
  {
    if turns > 0 {
      RingOfTurns(n, turns - 1);
      RingPeriod((turns - 1) * n, n);
      assert turns * n == (turns - 1) * n + n;
    }
  }

  /** A ring of several turns is a refinement of the ring of one turn. */
  lemma {:induction false} RingInRing(j: nat, n: nat, turns: nat)
    requires n > 0 && turns * n > 0
    ensures Ring(Ring(j, turns * n), n) == Ring(j, n)
  {
    if j > 0 {
      RingInRing(j - 1, n, turns);
      RingOfTurns(n, turns);
    }
  }

  // ---- comparing wrapped block ids ----

  /** The test by which a scanned page replaces the newest page seen so far. */
  predicate IsNewerBlock(current: nat, newest: nat, pages: nat) {
    || (current > newest && current - newest < pages)
    || (current < newest && newest - current > pages)
  }

  /** The test by which a scanned page replaces the oldest page seen so far. */
  predicate IsOlderBlock(current: nat, oldest: nat, pages: nat) {
    || (current < oldest && oldest - current < pages)
    || (current > oldest && current - oldest > pages)
  }

  /** Within one turn of the pages the wrapped tests agree with the order in which pages were opened. */
  lemma BlockOrderIsAge(a: nat, b: nat, pages: nat, modulus: nat)
    requires pages > 0 && 2 * pages <= modulus
    requires a < b + pages && b < a + pages
    ensures IsNewerBlock(Ring(a, modulus), Ring(b, modulus), pages) <==> a > b
    ensures IsOlderBlock(Ring(a, modulus), Ring(b, modulus), pages) <==> a < b
  {
    if a >= b {
      RingAdd(b, a - b, modulus);
    } else {
      RingAdd(a, b - a, modulus);
    }
  }

  /** The wrapped tests order every two pages of one turn by age. */
  ghost predicate OrdersByAge(pages: nat, modulus: nat)
    requires modulus > 0
  {
    forall a: nat, b: nat | a < b + pages && b < a + pages ::
      IsNewerBlock(Ring(a, modulus), Ring(b, modulus), pages) <==> a > b
  }

  /** The modulus has to be at least twice the page count: one less and some pair is ordered
      the wrong way round, so a modulus that merely exceeds the page count is not enough. */
  lemma AgeOrderNeedsDoubleModulus(pages: nat, modulus: nat)
    requires pages >= 2 && modulus > pages
    ensures OrdersByAge(pages, modulus) <==> 2 * pages <= modulus
  {
    if 2 * pages <= modulus {
      forall a: nat, b: nat | a < b + pages && b < a + pages
        ensures IsNewerBlock(Ring(a, modulus), Ring(b, modulus), pages) <==> a > b
      {
        BlockOrderIsAge(a, b, pages, modulus);
      }
    } else {
      // the newer page has wrapped to block 0, the older one stands pages - 1 before the wrap
      var b, a := modulus - (pages - 1), modulus;
      RingSmall(b, modulus);
      RingPeriod(0, modulus);
      assert a < b + pages && b < a + pages && a > b;
      assert !IsNewerBlock(Ring(a, modulus), Ring(b, modulus), pages);
    }
  }
}
