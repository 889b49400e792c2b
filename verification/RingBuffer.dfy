/**
 The size of ring buffer maps: the kernel takes only power-of-two multiples of the page size, so a
 requested size is raised to the next one.
 */
module RingBuffer {
  import opened Instructions
  import opened LogRecord
  import opened Powers

  function DivCeil(n: U32, rhs: U32): U32
    requires rhs > 0
  {
    if n % rhs > 0 then n / rhs + 1 else n / rhs
  }

  /** The least power of two not below `n`; the source computes it on 32 bits. */
  function NextPower(n: nat, from: nat): (r: nat)
    requires IsPower(from) && 0 < from
    ensures IsPower(r) && n <= r && from <= r
    decreases n - from
  {
    if n <= from then from
    else
      Doubled(from);
      NextPower(n, 2 * from)
  }

  lemma Doubled(p: nat)
    requires IsPower(p)
    ensures IsPower(2 * p)
  {
  }

  lemma {:induction false} NextPowerLeast(n: nat, from: nat, p: nat)
    requires IsPower(from) && IsPower(p) && n <= p && from <= p
    ensures NextPower(n, from) <= p
    decreases n - from
  {
    if from < n {
      Doubled(from);
      if p < 2 * from {
        NoPowerBetween(from, p);
      }
      NextPowerLeast(n, 2 * from, p);
    }
  }

  /** 32-bit, wrapping like a release build. */
  function AdjustToPageSize(byteSize: U32, pageSize: U32): U32
    requires pageSize > 0
  {
    if byteSize == 0 then 0
    else WrapU32(pageSize * WrapU32(NextPower(DivCeil(byteSize, pageSize), 1)))
  }

  lemma {:induction false} PowersMultiply(a: nat, b: nat)
    requires IsPower(a) && IsPower(b)
    ensures IsPower(a * b)
    decreases a
  {
    if a > 1 {
      PowersMultiply(a / 2, b);
      HalfProduct(a, b);
      Doubled(a / 2 * b);
    } else {
      assert a * b == b;
    }
  }

  lemma HalfProduct(a: nat, b: nat)
    requires a % 2 == 0
    ensures a * b == 2 * (a / 2 * b)
  {
  }

  lemma {:induction false} PowersDivide(a: nat, b: nat)
    requires IsPower(a) && IsPower(b)
    ensures a <= b ==> b % a == 0 && IsPower(b / a)
    ensures b < a ==> a % b == 0
    decreases a + b
  {
    if a > 1 && b > 1 {
      PowersDivide(a / 2, b / 2);
      assert a == 2 * (a / 2) && b == 2 * (b / 2);
      HalvesDivide(a / 2, b / 2);
    }
  }

  lemma HalvesDivide(a: nat, b: nat)
    requires a > 0 && b > 0
    ensures (2 * b) / (2 * a) == b / a && (2 * b) % (2 * a) == 2 * (b % a)
    ensures (2 * a) % (2 * b) == 2 * (a % b)
  {
    DivModUnique(2 * b, 2 * a, b / a, 2 * (b % a));
    DivModUnique(2 * a, 2 * b, a / b, 2 * (a % b));
  }

  const LARGEST: nat := 0x8000_0000

  lemma LargestIsPower()
    ensures IsPower(LARGEST)
  {
    assert IsPower(16);
    PowersMultiply(16, 16);
    PowersMultiply(256, 256);
    PowersMultiply(65536, 256);
    assert IsPower(128);
    PowersMultiply(65536 * 256, 128);
  }

  /** Sizes up to 2^31 are a power-of-two number of pages away from 2^31. */
  lemma PagesBelowLargest(pageSize: U32)
    requires IsPower(pageSize) && pageSize <= LARGEST
    ensures IsPower(LARGEST / pageSize) && pageSize * (LARGEST / pageSize) == LARGEST
  {
    LargestIsPower();
    PowersDivide(pageSize, LARGEST);
  }

  lemma CeilBounds(n: U32, p: U32, m: nat)
    requires p > 0
    ensures n <= p * DivCeil(n, p)
    ensures m < DivCeil(n, p) ==> p * m < n
  {
    var d := n / p;
    assert n == p * d + n % p;
    if m < d {
      ScaledBelow(p, m, d);
    }
  }

  lemma ScaledBelow(p: nat, a: nat, b: nat)
    requires a <= b
    ensures p * a <= p * b
    ensures p > 0 && a < b ==> p * a < p * b
  {
  }

  /** The number of pages, as a power of two, without any wrapping. */
  function Pages(byteSize: U32, pageSize: U32): nat
    requires pageSize > 0
  {
    NextPower(DivCeil(byteSize, pageSize), 1)
  }

  /** The unwrapped size is enough, and the least power-of-two number of pages that is. */
  lemma PagesLeast(byteSize: U32, pageSize: U32, p: nat)
    requires pageSize > 0
    ensures IsPower(Pages(byteSize, pageSize)) && byteSize <= pageSize * Pages(byteSize, pageSize)
    ensures IsPower(p) && byteSize <= pageSize * p ==> Pages(byteSize, pageSize) <= p
  {
    hide NextPower;
    var pages := Pages(byteSize, pageSize);
    CeilBounds(byteSize, pageSize, p);
    ScaledBelow(pageSize, DivCeil(byteSize, pageSize), pages);
    if IsPower(p) && byteSize <= pageSize * p {
      NextPowerLeast(DivCeil(byteSize, pageSize), 1, p);
    }
  }

  /**
   For requests up to 2^31 the result is the least power-of-two multiple of the page size that is
   not below the request; it fits 32 bits, and adjusting it again changes nothing.
   */
  lemma AdjustedIsLeast(byteSize: U32, pageSize: U32)
    requires IsPower(pageSize) && pageSize <= LARGEST && 0 < byteSize <= LARGEST
    ensures
      var r := AdjustToPageSize(byteSize, pageSize);
      && byteSize <= r <= LARGEST
      && (exists k: nat :: IsPower(k) && r == pageSize * k)
      && (forall k: nat :: IsPower(k) && byteSize <= pageSize * k ==> r <= pageSize * k)
      && AdjustToPageSize(r, pageSize) == r
  {
    hide IsPower, NextPower, DivCeil;
    PowerPositive(pageSize);
    var pages := Pages(byteSize, pageSize);
    AdjustedSmall(byteSize, pageSize);
    var r := AdjustToPageSize(byteSize, pageSize);
    forall k: nat
      ensures IsPower(k) && byteSize <= pageSize * k ==> r <= pageSize * k
    {
      PagesLeast(byteSize, pageSize, k);
      if pages <= k { ScaledBelow(pageSize, pages, k); }
    }
    AdjustedSmall(r, pageSize);
    PagesLeast(r, pageSize, pages);
    var again := Pages(r, pageSize);
    ScaledBelow(pageSize, again, pages);
    assert AdjustToPageSize(r, pageSize) == pageSize * again;
  }

  lemma AdjustedSmall(byteSize: U32, pageSize: U32)
    requires IsPower(pageSize) && pageSize <= LARGEST && 0 < byteSize <= LARGEST
    ensures AdjustToPageSize(byteSize, pageSize) == pageSize * Pages(byteSize, pageSize)
    ensures IsPower(Pages(byteSize, pageSize)) && byteSize <= pageSize * Pages(byteSize, pageSize) <= LARGEST
  {
    hide IsPower, NextPower, DivCeil;
    PowerPositive(pageSize);
    var most, pages := LARGEST / pageSize, Pages(byteSize, pageSize);
    PagesBelowLargest(pageSize);
    PagesLeast(byteSize, pageSize, most);
    ScaledBelow(pageSize, pages, most);
    AtLeastItself(pageSize, pages);
  }

  lemma PagesBeyond(byteSize: U32, pageSize: U32)
    requires IsPower(pageSize) && pageSize <= LARGEST && LARGEST < byteSize
    ensures pageSize > 0 && pageSize * Pages(byteSize, pageSize) == 2 * LARGEST
  {
    hide IsPower, NextPower, DivCeil;
    PowerPositive(pageSize);
    var most, pages := LARGEST / pageSize, Pages(byteSize, pageSize);
    PagesBelowLargest(pageSize);
    Doubled(most);
    TwiceProduct(pageSize, most);
    PagesLeast(byteSize, pageSize, 2 * most);
    ScaledBelow(pageSize, pages, 2 * most);
    PowersMultiply(pageSize, pages);
    LargestIsPower();
    if pageSize * pages < 2 * LARGEST {
      NoPowerBetween(LARGEST, pageSize * pages);
    }
  }

  lemma TwiceProduct(a: nat, b: nat)
    ensures a * (2 * b) == 2 * (a * b)
  {
  }

  lemma WrappedProduct(a: nat, b: nat)
    requires a > 0 && a * b == 0x1_0000_0000
    ensures WrapU32(a * WrapU32(b)) == 0
  {
  }

  /** A request above 2^31 has no such size in 32 bits: the product wraps around to zero. */
  lemma TooLargeBecomesZero(byteSize: U32, pageSize: U32)
    requires IsPower(pageSize) && pageSize <= LARGEST && LARGEST < byteSize
    ensures pageSize > 0 && AdjustToPageSize(byteSize, pageSize) == 0
  {
    hide IsPower, NextPower, DivCeil;
    PagesBeyond(byteSize, pageSize);
    WrappedProduct(pageSize, Pages(byteSize, pageSize));
  }

  lemma PowerPositive(p: nat)
    requires IsPower(p)
    ensures p > 0
  {
  }

  lemma AtLeastItself(p: nat, a: nat)
    requires p > 0
    ensures a <= p * a
  {
  }

  // ---------- the override of max_entries ----------

  datatype MapType = PerfEventArray | Ring | OtherMap

  /** What replaces the map's `max_entries`, if anything; `cpus` is none when they cannot be counted. */
  function MaxEntriesOverride(t: MapType, user: Option<U32>, current: U32, cpus: Option<U32>, pageSize: U32)
    : Option<Option<U32>>
    requires pageSize > 0
  {
    var wanted := if user.Some? then user.value else current;
    match t
    case PerfEventArray => if wanted == 0 then (if cpus.None? then None else Some(cpus)) else Some(user)
    case Ring =>
      var adjusted := AdjustToPageSize(wanted, pageSize);
      Some(if adjusted != wanted then Some(adjusted) else user)
    case OtherMap => Some(user)
  }

  /** With or without a request of the user, a ring buffer gets the adjusted size. */
  lemma RingIsAdjusted(user: Option<U32>, current: U32, cpus: Option<U32>, pageSize: U32)
    requires pageSize > 0
    ensures
      var r := MaxEntriesOverride(Ring, user, current, cpus, pageSize);
      r.Some? &&
      (if r.value.Some? then r.value.value else current) ==
      AdjustToPageSize(if user.Some? then user.value else current, pageSize)
  {
  }
}
