/**
 The growth policy of lib/libkern-bsd/sbuf.c: sizes climb a ladder that doubles
 from SBUF_MINEXTENDSIZE up to one page and then goes on page by page.
 `ExtendSize` is sbuf_extendsize; it is proved to return the least rung that
 is large enough, and to fail exactly beyond the last rung an int can hold.

 PAGE_SIZE is a parameter, given by its shift.
 */
module SbufSize {
  import opened CTypes

  const MINEXTENDSIZE: nat := 16

  type PageShift = k: nat | 4 <= k <= 30 witness 14

  function Pow2(k: nat): (p: nat)
    ensures p >= 1
  {
    if k == 0 then 1 else 2 * Pow2(k - 1)
  }

  function PageSize(shift: PageShift): nat {
    Pow2(shift)
  }

  /** Rung number i of the ladder. */
  function Rung(shift: PageShift, i: nat): (n: nat)
    ensures n >= MINEXTENDSIZE
  {
    if i == 0 then MINEXTENDSIZE
    else
      var below := Rung(shift, i - 1);
      if below < PageSize(shift) then 2 * below else below + PageSize(shift)
  }

  /** The least rung from number i on that is at least target. */
  function CeilFrom(shift: PageShift, target: nat, i: nat): nat
    decreases target - Rung(shift, i)
  {
    if Rung(shift, i) >= target then Rung(shift, i)
    else
      assert Rung(shift, i + 1) > Rung(shift, i);
      CeilFrom(shift, target, i + 1)
  }

  function Ceil(shift: PageShift, target: nat): nat {
    CeilFrom(shift, target, 0)
  }

  /** The largest size an AUTOEXTEND sbuf can be given. */
  function MaxSize(shift: PageShift): int {
    INT_MAX + 1 - PageSize(shift)
  }

  // ----- the ladder -----

  lemma {:induction false} RungGrows(shift: PageShift, i: nat, j: nat)
    requires i < j
    ensures Rung(shift, i) < Rung(shift, j)
  {
    if i + 1 < j {
      RungGrows(shift, i, j - 1);
    }
  }

  lemma {:induction false} Pow2Grows(i: nat, j: nat)
    requires i < j
    ensures 2 * Pow2(i) <= Pow2(j)
  {
    if i + 1 < j {
      Pow2Grows(i, j - 1);
    }
  }

  /** Up to one page the rungs are the powers of two from 16. */
  lemma {:induction false} RungBelowPage(shift: PageShift, i: nat)
    requires 4 + i <= shift
    ensures Rung(shift, i) == Pow2(4 + i) <= PageSize(shift)
  {
    if i == 0 {
      assert Pow2(4) == 16 by {
        assert Pow2(1) == 2 && Pow2(2) == 4 && Pow2(3) == 8;
      }
    } else {
      RungBelowPage(shift, i - 1);
      Pow2Grows(4 + i - 1, shift);
    }
    if 4 + i < shift {
      Pow2Grows(4 + i, shift);
    }
  }

  /** m * p, spelled as repeated addition. */
  function Times(m: nat, p: nat): nat {
    if m == 0 then 0 else Times(m - 1, p) + p
  }

  lemma {:induction false} TimesIsProduct(m: nat, p: nat)
    ensures Times(m, p) == m * p
  {
    if m > 0 {
      TimesIsProduct(m - 1, p);
      assert m * p == (m - 1) * p + p;
    }
  }

  lemma {:induction false} TimesDouble(m: nat, p: nat)
    ensures Times(m, 2 * p) == 2 * Times(m, p) == Times(2 * m, p)
  {
    if m > 0 {
      TimesDouble(m - 1, p);
      assert Times(2 * m, p) == Times(2 * m - 1, p) + p;
    }
  }

  /** From one page on they are the multiples of the page. */
  lemma {:induction false} RungPages(shift: PageShift, m: nat)
    requires m >= 1
    ensures Rung(shift, shift - 5 + m) == Times(m, PageSize(shift)) >= PageSize(shift)
  {
    if m == 1 {
      RungBelowPage(shift, shift - 4);
      assert Times(1, PageSize(shift)) == Times(0, PageSize(shift)) + PageSize(shift);
    } else {
      RungPages(shift, m - 1);
    }
  }

  /** Ceil is the least rung that is at least target. */
  lemma {:induction false} CeilIsLeast(shift: PageShift, target: nat) returns (i: nat)
    ensures Ceil(shift, target) == Rung(shift, i) >= target
    ensures forall j: nat :: Rung(shift, j) >= target ==> j >= i && Rung(shift, j) >= Rung(shift, i)
  {
    i := CeilFromIsLeast(shift, target, 0);
    forall j: nat | Rung(shift, j) >= target ensures j >= i && Rung(shift, j) >= Rung(shift, i) {
      if j > i {
        RungGrows(shift, i, j);
      }
    }
  }

  lemma {:induction false} CeilFromIsLeast(shift: PageShift, target: nat, i: nat) returns (k: nat)
    requires forall j: nat :: j < i ==> Rung(shift, j) < target
    ensures CeilFrom(shift, target, i) == Rung(shift, k) >= target && k >= i
    ensures forall j: nat :: j < k ==> Rung(shift, j) < target
    decreases target - Rung(shift, i)
  {
    if Rung(shift, i) >= target {
      k := i;
    } else {
      k := CeilFromIsLeast(shift, target, i + 1);
    }
  }

  /** A target between two neighbouring rungs is rounded up to the upper one. */
  lemma {:induction false} CeilBetween(shift: PageShift, target: nat, i: nat)
    requires Rung(shift, i) >= target && (i == 0 || Rung(shift, i - 1) < target)
    ensures Ceil(shift, target) == Rung(shift, i)
  {
    var k := CeilIsLeast(shift, target);
    if k < i {
      if k < i - 1 {
        RungGrows(shift, k, i - 1);
      }
    }
  }

  lemma {:induction false} CeilMonotone(shift: PageShift, s: nat, t: nat)
    requires s <= t
    ensures Ceil(shift, s) <= Ceil(shift, t)
  {
    var i := CeilIsLeast(shift, s);
    var j := CeilIsLeast(shift, t);
  }

  /** Any demand between the one that was rounded up and the size it got needs no other size. */
  lemma {:induction false} CeilStable(shift: PageShift, s: nat, t: nat)
    requires s <= t <= Ceil(shift, s)
    ensures Ceil(shift, t) == Ceil(shift, s)
  {
    CeilMonotone(shift, s, t);
    var i := CeilIsLeast(shift, s);
    var j := CeilIsLeast(shift, t);
  }

  lemma {:induction false} CeilIdempotent(shift: PageShift, t: nat)
    ensures Ceil(shift, Ceil(shift, t)) == Ceil(shift, t)
  {
    var i := CeilIsLeast(shift, t);
    CeilStable(shift, t, Ceil(shift, t));
  }

  lemma {:induction false} Pow2OfInt()
    ensures Pow2(31) == INT_MAX + 1
  {
    assert Pow2(8) == 256;
    assert Pow2(16) == 65536;
    assert Pow2(24) == 16777216;
  }

  /** A higher power of two is a whole number of pages. */
  lemma {:induction false} WholePages(shift: PageShift, k: nat) returns (m: nat)
    requires shift <= k
    ensures Times(m, PageSize(shift)) == Pow2(k)
    ensures k > shift ==> m >= 2
  {
    if k == shift {
      m := 1;
      assert Times(1, PageSize(shift)) == Times(0, PageSize(shift)) + PageSize(shift);
    } else {
      var half := WholePages(shift, k - 1);
      m := 2 * half;
      TimesDouble(half, PageSize(shift));
    }
  }

  /** The largest size an int can hold is a rung, and the next rung is INT_MAX + 1. */
  lemma {:induction false} LastRung(shift: PageShift) returns (top: nat)
    ensures Rung(shift, top) == MaxSize(shift) >= PageSize(shift)
    ensures Rung(shift, top + 1) == INT_MAX + 1
  {
    var m := WholePages(shift, 31);
    Pow2OfInt();
    RungPages(shift, m);
    RungPages(shift, m - 1);
    top := shift - 6 + m;
  }

  /** MaxSize in the terms of the page size: PAGE_SIZE * (INT_MAX / PAGE_SIZE). */
  lemma {:induction false} MaxSizeInPages(shift: PageShift)
    ensures MaxSize(shift) == PageSize(shift) * (0x7fff_ffff / PageSize(shift))
  {
    var m := WholePages(shift, 31);
    Pow2OfInt();
    TimesIsProduct(m - 1, PageSize(shift));
    Quotient(INT_MAX, PageSize(shift), m - 1);
  }

  /** From one page on the rung number is the number of pages, up to a constant. */
  lemma {:induction false} RungInPages(shift: PageShift, j: nat)
    requires j >= shift - 4
    ensures Rung(shift, j) / PageSize(shift) == j - shift + 5
  {
    var m := j - shift + 5;
    RungPages(shift, m);
    TimesIsProduct(m, PageSize(shift));
    Quotient(Rung(shift, j), PageSize(shift), m);
  }

  /** A rung of at least one page has at least the number of the first such rung. */
  lemma {:induction false} RungOfPages(shift: PageShift, j: nat)
    requires Rung(shift, j) >= PageSize(shift)
    ensures j >= shift - 4
  {
    RungBelowPage(shift, shift - 4);
    if j < shift - 4 {
      RungGrows(shift, j, shift - 4);
    }
  }

  lemma {:induction false} Quotient(x: nat, p: nat, m: nat)
    requires p > 0 && m * p <= x < m * p + p
    ensures x / p == m
  {
    var q := x / p;
    assert x == q * p + x % p;
    assert (q + 1) * p == q * p + p && (m + 1) * p == m * p + p;
    if q < m {
      MulAtLeast(m, q + 1, p);
    } else if q > m {
      MulAtLeast(q, m + 1, p);
    }
  }

  lemma {:induction false} MulAtLeast(a: nat, b: nat, p: nat)
    requires a >= b
    ensures a * p >= b * p
  {
    assert a * p == b * p + (a - b) * p;
  }

  /** Rounding up stays within an int exactly up to MaxSize. */
  lemma {:induction false} CeilFits(shift: PageShift, target: nat)
    ensures Ceil(shift, target) <= INT_MAX <==> target <= MaxSize(shift)
    ensures Ceil(shift, target) <= INT_MAX ==> Ceil(shift, target) <= MaxSize(shift)
  {
    var top := LastRung(shift);
    var i := CeilIsLeast(shift, target);
    if target > MaxSize(shift) {
      if i < top {
        RungGrows(shift, i, top);
      } else if i > top + 1 {
        RungGrows(shift, top + 1, i);
      }
    }
  }

  // ----- the mask arithmetic -----

  /** x & ~m on non-negative integers, bit by bit. */
  function AndNot(x: nat, m: nat): nat {
    if x == 0 then 0
    else 2 * AndNot(x / 2, m / 2) + (if x % 2 == 1 && m % 2 == 0 then 1 else 0)
  }

  lemma {:induction false} AndNotZero(x: nat)
    ensures AndNot(x, 0) == x
  {
    if x > 0 {
      AndNotZero(x / 2);
    }
  }

  /** Clearing the low k bits rounds down to a multiple of 2^k. */
  lemma {:induction false} AndNotMask(x: nat, k: nat) returns (m: nat)
    ensures AndNot(x, Pow2(k) - 1) == Times(m, Pow2(k))
    ensures Times(m, Pow2(k)) <= x < Times(m, Pow2(k)) + Pow2(k)
  {
    if k == 0 {
      AndNotZero(x);
      TimesIsProduct(x, 1);
      m := x;
    } else if x == 0 {
      m := 0;
    } else {
      var mask := Pow2(k) - 1;
      assert mask / 2 == Pow2(k - 1) - 1 && mask % 2 == 1;
      m := AndNotMask(x / 2, k - 1);
      TimesDouble(m, Pow2(k - 1));
    }
  }

  /** The least multiple of the page that is at least target is the least rung. */
  lemma {:induction false} PageRung(shift: PageShift, m: nat, target: nat)
    requires m >= 1 && PageSize(shift) <= target
    requires Times(m, PageSize(shift)) - PageSize(shift) < target <= Times(m, PageSize(shift))
    ensures Ceil(shift, target) == Times(m, PageSize(shift))
  {
    RungPages(shift, m);
    var i: nat := shift - 5 + m;
    if m > 1 {
      RungPages(shift, m - 1);
    } else if i > 0 {
      RungGrows(shift, i - 1, i);
    }
    CeilBetween(shift, target, i);
  }

  /** `(target + PAGE_SIZE - 1) & ~PAGE_MASK` is the least multiple of the page that is at least target. */
  lemma {:induction false} MaskRoundsUp(shift: PageShift, target: nat)
    requires target >= PageSize(shift)
    ensures AndNot(target + PageSize(shift) - 1, PageSize(shift) - 1) == Ceil(shift, target)
  {
    var m := AndNotMask(target + PageSize(shift) - 1, shift);
    PageRung(shift, m, target);
  }

  /** sbuf_extendsize: the least rung that is at least target, or failure, leaving the size as it was. */
  method ExtendSize(shift: PageShift, target: nat) returns (error: int, size: nat)
    ensures error == 0 || error == -1
    ensures error == 0 <==> target <= MaxSize(shift)
    ensures size == if error == 0 then Ceil(shift, target) else target
  {
    size := target;
    CeilFits(shift, target);
    if target > INT_MAX {
      return -1, size;
    }
    var newSize;
    if target < PageSize(shift) {
      newSize := MINEXTENDSIZE;
      ghost var i: nat := 0;
      while newSize < target
        invariant newSize == Rung(shift, i)
        invariant i == 0 || Rung(shift, i - 1) < target
        decreases target - newSize
      {
        newSize := newSize * 2;
        i := i + 1;
      }
      CeilBetween(shift, target, i);
    } else {
      assert target + PageSize(shift) - 1 < SIZE_LIMIT by {
        var top := LastRung(shift);
      }
      MaskRoundsUp(shift, target);
      newSize := AndNot(target + PageSize(shift) - 1, PageSize(shift) - 1);
    }
    if newSize > INT_MAX {
      return -1, size;
    }
    return 0, newSize;
  }
}
