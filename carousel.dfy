/** The testimonials carousel (`initCarousel`): a row of testimonial items and a row
    of dots, each element carrying the `is-active` class or not, and the index of
    the item shown. `setActive(i)` marks exactly item `i` and dot `i`; `next` and
    `prev` move round the items. */
module Carousel {
  import opened JsText

  /** The index after `i`: `(index + 1) % items.length`. */
  function NextIndex(i: int, n: int): int
    requires n > 0
  {
    JsRem(i + 1, n)
  }

  /** The index before `i`: `(index - 1 + items.length) % items.length`. */
  function PrevIndex(i: int, n: int): int
    requires n > 0
  {
    JsRem(i - 1 + n, n)
  }

  /** The `is-active` flags after `setActive(i)` on `n` elements. */
  function Flags(n: nat, i: int): (r: seq<bool>)
    ensures |r| == n
  {
    seq(n, k => k == i)
  }

  /** Number of active elements. */
  function ActiveCount(s: seq<bool>): nat {
    if s == [] then 0 else ActiveCount(s[..|s| - 1]) + (if s[|s| - 1] then 1 else 0)
  }

  /** `next` goes one item on, and from the last to the first. */
  lemma NextIndexValue(i: int, n: int)
    requires 0 <= i < n
    ensures NextIndex(i, n) == if i == n - 1 then 0 else i + 1
  {
    if i == n - 1 {
      ModUnique(i + 1, n, 1, 0);
    } else {
      ModUnique(i + 1, n, 0, i + 1);
    }
  }

  /** `prev` goes one item back, and from the first to the last. */
  lemma PrevIndexValue(i: int, n: int)
    requires 0 <= i < n
    ensures PrevIndex(i, n) == if i == 0 then n - 1 else i - 1
  {
    if i == 0 {
      ModUnique(i - 1 + n, n, 0, n - 1);
    } else {
      ModUnique(i - 1 + n, n, 1, i - 1);
    }
  }

  /** From a shown item, `next` and `prev` stay on the items. */
  lemma StepsInRange(i: int, n: int)
    requires 0 <= i < n
    ensures 0 <= NextIndex(i, n) < n && 0 <= PrevIndex(i, n) < n
  {
    NextIndexValue(i, n);
    PrevIndexValue(i, n);
  }

  /** `prev` undoes `next`, and `next` undoes `prev`. */
  lemma PrevNext(i: int, n: int)
    requires 0 <= i < n
    ensures PrevIndex(NextIndex(i, n), n) == i
    ensures NextIndex(PrevIndex(i, n), n) == i
  {
    NextIndexValue(i, n);
    PrevIndexValue(i, n);
    PrevIndexValue(NextIndex(i, n), n);
    NextIndexValue(PrevIndex(i, n), n);
  }

  /** `k` presses of `next` (or `k` ticks of the auto-advance timer). */
  function NextTimes(i: int, n: int, k: nat): int
    requires n > 0
  {
    if k == 0 then i else NextIndex(NextTimes(i, n, k - 1), n)
  }

  lemma ModNext(a: int, n: int)
    requires a >= 0 && n > 0
    ensures (a % n + 1) % n == (a + 1) % n
  {
    var q, r := a / n, a % n;
    assert a == q * n + r;
    if r + 1 < n {
      ModUnique(a + 1, n, q, r + 1);
      ModUnique(r + 1, n, 0, r + 1);
    } else {
      assert a + 1 == (q + 1) * n + 0;
      ModUnique(a + 1, n, q + 1, 0);
      ModUnique(r + 1, n, 1, 0);
    }
  }

  /** One step forward from `a mod n` reaches `(a + 1) mod n`. */
  lemma NextStep(a: int, n: int, x: int)
    requires a >= 0 && n > 0 && x == a % n
    ensures NextIndex(x, n) == (a + 1) % n
  {
    ModNext(a, n);
  }

  /** After `k` steps forward the carousel shows item `(i + k) mod n`. */
  lemma {:induction false} NextTimesMod(i: int, n: int, k: nat)
    requires 0 <= i < n
    ensures NextTimes(i, n, k) == (i + k) % n
  {
    if k > 0 {
      NextTimesMod(i, n, k - 1);
      NextStep(i + k - 1, n, NextTimes(i, n, k - 1));
    } else {
      ModUnique(i, n, 0, i);
    }
  }

  /** `n` steps forward return to the item shown before. */
  lemma FullCycle(i: int, n: int)
    requires 0 <= i < n
    ensures NextTimes(i, n, n) == i
  {
    NextTimesMod(i, n, n);
    ModUnique(i + n, n, 1, i);
  }

  /** After `setActive(i)` exactly one element is active when `i` names one, and none
      otherwise. */
  lemma {:induction false} FlagsActiveCount(n: nat, i: int)
    ensures ActiveCount(Flags(n, i)) == if 0 <= i < n then 1 else 0
  {
    if n > 0 {
      FlagsActiveCount(n - 1, i);
      assert Flags(n, i)[..n - 1] == Flags(n - 1, i);
    }
  }

  class Carousel {
    /** The `is-active` class of each `.testimonial-item`. */
    const items: array<bool>
    /** The `is-active` class of each `.carousel-dot`. */
    const dots: array<bool>
    var index: int

    /** The two rows are distinct elements. */
    ghost predicate Valid()
      reads this
    {
      items != dots
    }

    /** `initCarousel`: the elements found in the page, then `setActive(0)`. */
    constructor(items: array<bool>, dots: array<bool>)
      requires items != dots
      modifies items, dots
      ensures this.items == items && this.dots == dots && Valid()
      ensures items[..] == Flags(items.Length, 0) && dots[..] == Flags(dots.Length, 0)
      ensures index == 0
    {
      this.items := items;
      this.dots := dots;
      new;
      SetActive(0);
    }

    /** `setActive(i)`: item `k` and dot `k` are active exactly when `k == i`. */
    method SetActive(i: int)
      requires Valid()
      modifies this, items, dots
      ensures items[..] == Flags(items.Length, i) && dots[..] == Flags(dots.Length, i)
      ensures index == i && Valid()
    {
      var k := 0;
      while k < items.Length
        invariant 0 <= k <= items.Length
        invariant forall j :: 0 <= j < k ==> items[j] == (j == i)
      {
        items[k] := k == i;
        k := k + 1;
      }
      k := 0;
      while k < dots.Length
        invariant 0 <= k <= dots.Length
        invariant forall j :: 0 <= j < k ==> dots[j] == (j == i)
        invariant forall j :: 0 <= j < items.Length ==> items[j] == (j == i)
      {
        dots[k] := k == i;
        k := k + 1;
      }
      index := i;
    }

    /** `next`: the following item, round to the first after the last. */
    method Next()
      requires Valid() && items.Length > 0 && 0 <= index
      modifies this, items, dots
      ensures index == NextIndex(old(index), items.Length) && 0 <= index < items.Length
      ensures items[..] == Flags(items.Length, index) && dots[..] == Flags(dots.Length, index)
      ensures Valid()
    {
      SetActive(NextIndex(index, items.Length));
    }

    /** `prev`: the preceding item, round to the last before the first. */
    method Prev()
      requires Valid() && items.Length > 0 && 0 <= index
      modifies this, items, dots
      ensures index == PrevIndex(old(index), items.Length) && 0 <= index < items.Length
      ensures items[..] == Flags(items.Length, index) && dots[..] == Flags(dots.Length, index)
      ensures Valid()
    {
      SetActive(PrevIndex(index, items.Length));
    }
  }
}
