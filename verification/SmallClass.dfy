/**
 include/small/small_class.h: the bit arithmetic between allocation sizes and size classes, on
 values that stay below 2^32.
 */
module SmallClass {

  /** granularity is 1 << ignoreBits, effective_size 1 << effectiveBits; shift is size_shift. */
  datatype Class = Class(ignoreBits: nat, effectiveBits: nat, shift: nat)

  /** a >> k, a << k and a & ((1 << k) - 1) */
  function Shr(a: nat, k: nat): nat { if k == 0 then a else Shr(a / 2, k - 1) }

  function Shl(a: nat, k: nat): nat { if k == 0 then a else 2 * Shl(a, k - 1) }

  function Low(a: nat, k: nat): nat { if k == 0 then 0 else 2 * Low(a / 2, k - 1) + a % 2 }

  /** n | 1 */
  function WithLowBit(n: nat): nat { if n % 2 == 0 then n + 1 else n }

  /** small_class_fls: the position of the most significant bit. */
  function Fls(n: nat): nat { if n < 2 then 0 else 1 + Fls(n / 2) }

  /** The size in granules, rounded up, less one; sizes up to the shift count as the least. */
  function Units(c: Class, size: nat): nat {
    Shr(if size > c.shift then size - (c.shift + 1) else 0, c.ignoreBits)
  }

  /** small_class_calc_offset_by_size, on a size in units. */
  function OffsetOf(eb: nat, u: nat): nat {
    if u < Shl(1, eb) then u else
      var log2 := Fls(Shr(u, eb));
      Shr(u, log2) + Shl(log2, eb)
  }

  /** The branchless variant. */
  function OffsetOfBranchless(eb: nat, u: nat): nat {
    var log2 := Fls(WithLowBit(Shr(u, eb)));
    Shr(u, log2) + Shl(log2, eb)
  }

  function CalcOffset(c: Class, size: nat): nat { OffsetOf(c.effectiveBits, Units(c, size)) }

  function CalcOffsetBranchless(c: Class, size: nat): nat { OffsetOfBranchless(c.effectiveBits, Units(c, size)) }

  /** The units below class k; small_class_calc_size_by_offset uses it for cls + 1. */
  function Width(eb: nat, k: nat): nat {
    var linear, log2 := Low(k, eb), Shr(k, eb);
    if log2 == 0 then linear else Shl(linear + Shl(1, eb), log2 - 1)
  }

  /** small_class_calc_size_by_offset */
  function CalcSize(c: Class, cls: nat): nat { c.shift + Shl(Width(c.effectiveBits, cls + 1), c.ignoreBits) }

  // ---------- shifts ----------

  lemma {:induction false} Less(a: nat, k: nat, q: nat)
    ensures Shr(a, k) < q <==> a < Shl(q, k)
  {
    if k > 0 { Less(a / 2, k - 1, q); }
  }

  lemma {:induction false} ShlAdd(x: nat, y: nat, k: nat)
    ensures Shl(x + y, k) == Shl(x, k) + Shl(y, k)
  {
    if k > 0 { ShlAdd(x, y, k - 1); }
  }

  lemma {:induction false} ShlPos(x: nat, k: nat)
    ensures Shl(x, k) >= x
  {
    if k > 0 { ShlPos(x, k - 1); }
  }

  lemma ShlGrows(x: nat, y: nat, k: nat)
    requires x <= y
    ensures Shl(x, k) <= Shl(y, k) && (x < y ==> Shl(x, k) < Shl(y, k))
  {
    ShlAdd(x, y - x, k);
    ShlPos(y - x, k);
  }

  lemma {:induction false} ShlTwice(x: nat, k: nat)
    ensures Shl(2 * x, k) == 2 * Shl(x, k)
  {
    if k > 0 { ShlTwice(x, k - 1); }
  }

  lemma {:induction false} ShlSwap(x: nat, i: nat, j: nat)
    ensures Shl(Shl(x, i), j) == Shl(Shl(x, j), i)
  {
    if i > 0 {
      ShlSwap(x, i - 1, j);
      ShlTwice(Shl(x, i - 1), j);
    }
  }

  lemma {:induction false} ShlTimes(x: nat, k: nat)
    ensures Shl(x, k) == Shl(1, k) * x
  {
    if k > 0 { ShlTimes(x, k - 1); }
  }

  lemma {:induction false} SplitBits(a: nat, k: nat)
    ensures a == Shl(Shr(a, k), k) + Low(a, k) && Low(a, k) < Shl(1, k)
  {
    if k > 0 { SplitBits(a / 2, k - 1); }
  }

  lemma {:induction false} JoinBits(q: nat, r: nat, k: nat)
    requires r < Shl(1, k)
    ensures Shr(Shl(q, k) + r, k) == q && Low(Shl(q, k) + r, k) == r
  {
    if k > 0 {
      JoinBits(q, r / 2, k - 1);
      assert (Shl(q, k) + r) / 2 == Shl(q, k - 1) + r / 2;
    }
  }

  lemma {:induction false} FlsIs(n: nat)
    requires n > 0
    ensures Shl(1, Fls(n)) <= n < Shl(1, Fls(n) + 1)
  {
    if n > 1 { FlsIs(n / 2); }
  }

  // ---------- class widths ----------

  /** Beyond the linear part: the leading bits m of u and the number l of bits below them. */
  lemma Leading(eb: nat, u: nat) returns (l: nat, m: nat)
    requires u >= Shl(1, eb)
    ensures l == Fls(Shr(u, eb)) && m == Shr(u, l) && Shl(1, eb) <= m < 2 * Shl(1, eb)
    ensures Shl(m, l) <= u < Shl(m + 1, l)
  {
    Less(u, eb, 1);
    l := Fls(Shr(u, eb));
    FlsIs(Shr(u, eb));
    m := Shr(u, l);
    Less(u, eb, Shl(1, l));
    Less(u, eb, Shl(1, l + 1));
    Less(u, l, Shl(1, eb));
    Less(u, l, Shl(1, eb + 1));
    ShlSwap(1, l, eb);
    ShlTwice(Shl(1, l), eb);
    ShlTwice(Shl(1, eb), l);
    Less(u, l, m);
    Less(u, l, m + 1);
  }

  lemma WidthAt(eb: nat, l: nat, r: nat)
    requires r <= Shl(1, eb)
    ensures Width(eb, Shl(l + 1, eb) + r) == Shl(Shl(1, eb) + r, l)
  {
    ShlPos(1, eb);
    if r < Shl(1, eb) {
      JoinBits(l + 1, r, eb);
    } else {
      ShlAdd(l + 1, 1, eb);
      JoinBits(l + 2, 0, eb);
      ShlTwice(Shl(1, eb), l);
    }
  }

  lemma WidthSmall(eb: nat, k: nat)
    requires k <= Shl(1, eb)
    ensures Width(eb, k) == k
  {
    ShlPos(1, eb);
    if k < Shl(1, eb) {
      ShlZero(eb);
      JoinBits(0, k, eb);
    } else {
      JoinBits(1, 0, eb);
    }
  }

  lemma {:induction false} ShlZero(k: nat)
    ensures Shl(0, k) == 0
  {
    if k > 0 { ShlZero(k - 1); }
  }

  lemma WidthStep(eb: nat, k: nat)
    ensures Width(eb, k) < Width(eb, k + 1)
  {
    hide Width;
    if k < Shl(1, eb) {
      WidthSmall(eb, k);
      WidthSmall(eb, k + 1);
    } else {
      SplitBits(k, eb);
      Less(k, eb, 1);
      var l, r := Shr(k, eb) - 1, Low(k, eb);
      WidthAt(eb, l, r);
      WidthAt(eb, l, r + 1);
      ShlGrows(Shl(1, eb) + r, Shl(1, eb) + r + 1, l);
    }
  }

  lemma {:induction false} WidthGrows(eb: nat, j: nat, k: nat)
    requires j < k
    ensures Width(eb, j) < Width(eb, k)
    decreases k
  {
    WidthStep(eb, k - 1);
    if j < k - 1 { WidthGrows(eb, j, k - 1); }
  }

  /** A size in units lies in its class: not below it and not above it. */
  lemma OffsetBounds(eb: nat, u: nat)
    ensures var k := OffsetOf(eb, u); Width(eb, k) <= u < Width(eb, k + 1)
  {
    hide Width;
    if u < Shl(1, eb) {
      WidthSmall(eb, u);
      WidthSmall(eb, u + 1);
    } else {
      var l, m := Leading(eb, u);
      var r := m - Shl(1, eb);
      ShlAdd(l, 1, eb);
      WidthAt(eb, l, r);
      WidthAt(eb, l, r + 1);
    }
  }

  // ---------- the size classes ----------

  /** Class sizes and class numbers form a Galois connection: a size fits class cls exactly when
      its own class is not higher. */
  lemma Galois(c: Class, size: nat, cls: nat)
    ensures CalcOffset(c, size) <= cls <==> size <= CalcSize(c, cls)
  {
    hide Width, OffsetOf;
    var eb, u := c.effectiveBits, Units(c, size);
    var k, w := OffsetOf(eb, u), Width(eb, cls + 1);
    OffsetBounds(eb, u);
    if cls + 1 < k { WidthGrows(eb, cls + 1, k); }
    if k < cls { WidthGrows(eb, k + 1, cls + 1); }
    assert k <= cls <==> u < w;
    Less(if size > c.shift then size - (c.shift + 1) else 0, c.ignoreBits, w);
    WidthGrows(eb, 0, cls + 1);
    ShlPos(w, c.ignoreBits);
  }

  /** The class found is the least whose size is enough. */
  lemma LeastClass(c: Class, size: nat)
    ensures size <= CalcSize(c, CalcOffset(c, size))
    ensures forall cls :: 0 <= cls < CalcOffset(c, size) ==> CalcSize(c, cls) < size
  {
    hide CalcOffset, CalcSize;
    Galois(c, size, CalcOffset(c, size));
    forall cls | 0 <= cls < CalcOffset(c, size) ensures CalcSize(c, cls) < size {
      Galois(c, size, cls);
    }
  }

  /** Class sizes increase. */
  lemma SizesIncrease(c: Class, i: nat, j: nat)
    requires i < j
    ensures CalcSize(c, i) < CalcSize(c, j)
  {
    hide Width;
    WidthGrows(c.effectiveBits, i + 1, j + 1);
    ShlGrows(Width(c.effectiveBits, i + 1), Width(c.effectiveBits, j + 1), c.ignoreBits);
  }

  lemma SizePositive(c: Class, cls: nat)
    ensures CalcSize(c, cls) > c.shift
  {
    WidthGrows(c.effectiveBits, 0, cls + 1);
    ShlPos(Width(c.effectiveBits, cls + 1), c.ignoreBits);
  }

  /** A class's size is of that class. */
  lemma RoundTrip(c: Class, cls: nat)
    ensures CalcOffset(c, CalcSize(c, cls)) == cls
  {
    hide CalcOffset, CalcSize;
    Galois(c, CalcSize(c, cls), cls);
    if cls > 0 {
      SizesIncrease(c, cls - 1, cls);
      Galois(c, CalcSize(c, cls), cls - 1);
    }
  }

  /** The two variants agree on every size. */
  lemma BranchlessSame(c: Class, size: nat)
    ensures CalcOffsetBranchless(c, size) == CalcOffset(c, size)
  {
    hide Shl;
    var eb, u := c.effectiveBits, Units(c, size);
    Less(u, eb, 1);
    assert WithLowBit(Shr(u, eb)) / 2 == Shr(u, eb) / 2;
    assert Fls(WithLowBit(Shr(u, eb))) == Fls(Shr(u, eb));
    ShlZero(eb);
  }

  /** In shifts: the class size times effective_size, against the size. */
  lemma GrowthShifted(c: Class, size: nat)
    requires Units(c, size) >= Shl(1, c.effectiveBits)
    ensures size > c.shift && CalcSize(c, CalcOffset(c, size)) >= c.shift
    ensures Shl(CalcSize(c, CalcOffset(c, size)) - c.shift, c.effectiveBits)
            <= Shl(size - c.shift - 1, c.effectiveBits) + (size - c.shift - 1)
  {
    hide Width, Shl, Shr;
    var eb, ib, u := c.effectiveBits, c.ignoreBits, Units(c, size);
    ShlPos(1, eb);
    Less(0, ib, 1);
    ShlPos(1, ib);
    assert size > c.shift;
    var s := size - c.shift - 1;
    var l, m := Leading(eb, u);
    ShlAdd(l, 1, eb);
    WidthAt(eb, l, m - Shl(1, eb) + 1);
    var x, y := Shl(Shl(m, l), ib), Shl(Shl(1, l), ib);
    ShlAdd(m, 1, l);
    ShlAdd(Shl(m, l), Shl(1, l), ib);
    assert CalcSize(c, CalcOffset(c, size)) - c.shift == x + y;
    Less(s, ib, u);
    ShlGrows(Shl(m, l), u, ib);
    ShlGrows(x, s, eb);
    ShlAdd(x, y, eb);
    ShlSwap(Shl(1, l), ib, eb);
    ShlSwap(1, l, eb);
    ShlGrows(Shl(1, eb), m, l);
    ShlGrows(Shl(Shl(1, eb), l), Shl(m, l), ib);
  }

  /** Beyond the linear part a class is larger than the size by at most one part in effective_size. */
  lemma GrowthBound(c: Class, size: nat)
    requires Units(c, size) >= Shl(1, c.effectiveBits)
    ensures var e := Shl(1, c.effectiveBits);
            size > c.shift && e * (CalcSize(c, CalcOffset(c, size)) - c.shift) <= (e + 1) * (size - c.shift - 1)
  {
    hide Shl, Units, CalcOffset, CalcSize;
    GrowthShifted(c, size);
    var s, e := size - c.shift - 1, Shl(1, c.effectiveBits);
    ShlTimes(CalcSize(c, CalcOffset(c, size)) - c.shift, c.effectiveBits);
    ShlTimes(s, c.effectiveBits);
    assert (e + 1) * s == e * s + s;
  }
}
