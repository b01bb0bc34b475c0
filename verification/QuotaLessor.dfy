/**
 include/small/quota_lessor.h: a lessor takes quota from its source in large pieces and leases it
 in small ones. The source is the quota of include/small/quota.h, used here by one thread at a time.
 */
module QuotaLessor {

  import opened Quota

  /** QUOTA_USE_MIN */
  const USE_MIN := UNIT * 1024

  /** A quota in units. */
  class Source {
    var total: nat
    var used: nat

    ghost predicate Valid()
      reads this
    {
      used <= total < WORD32
    }

    constructor (total: nat)
      requires total <= QUOTA_MAX
      ensures Valid() && used == 0 && this.total == Units(total)
    {
      this.total, used := Units(total), 0;
    }

    /** A use of this size adds up within 32 bits, or is refused for its size alone. */
    predicate NoWrap(size: nat)
      reads this
    {
      size > QUOTA_MAX || used + Units(size) < WORD32
    }

    /** quota_use: the bytes used, or -1. A size beyond QUOTA_MAX is refused; otherwise the 32-bit sum
        decides, which is the real sum unless it wraps; one that wraps is never refused. */
    method Use(size: nat) returns (r: int)
      requires Valid() && size > 0
      modifies this
      ensures Valid() && total == old(total)
      ensures r == -1 <==> size > QUOTA_MAX || NewUsed(old(used), Units(size)) > total
      ensures r == -1 ==> used == old(used)
      ensures r != -1 ==> used == NewUsed(old(used), Units(size)) && r == Units(size) * UNIT
      ensures old(NoWrap(size)) ==> (r == -1 <==> old(used) + Units(size) > total)
      ensures old(NoWrap(size)) && r != -1 ==> used == old(used) + Units(size)
      ensures !old(NoWrap(size)) ==> r != -1 && used == old(used) + Units(size) - WORD32
    {
      if size > QUOTA_MAX { return -1; }
      var units := Units(size);
      var now := NewUsed(used, units);
      if now > total { return -1; }
      used := now;
      r := units * UNIT;
    }

    /** The loop of quota_lease: requests of first bytes, half of that, and so on while they give what
        is required. */
    method Borrow(first: nat, required: nat) returns (r: int)
      requires Valid() && 0 < required <= first && (first == required || first == USE_MIN)
      modifies this
      ensures Valid() && total == old(total)
      ensures r == -1 <==> old(NoWrap(first)) && old(used) + Units(LeastTry(first, required)) > total
      ensures r == -1 ==> used == old(used)
      ensures r != -1 ==> required <= r < first + UNIT && r % UNIT == 0
      ensures r != -1 ==> exists use: nat ::
                required <= use <= first && r == Units(use) * UNIT && Tried(old(used), total, first, use)
      ensures old(used) + Units(first) <= total ==> r == Units(first) * UNIT
      ensures r != -1 ==> used == old(used) + r / UNIT - if old(NoWrap(first)) then 0 else WORD32
    {
      hide Units;
      var use := first;
      while use >= required
        invariant used == old(used) && total == old(total) && use <= first
        invariant 0 <= use && Tried(used, total, first, use) && (use < first ==> NoWrap(first))
        invariant use >= required ==> LeastTry(use, required) == LeastTry(first, required)
        invariant use < required ==> used + Units(LeastTry(first, required)) > total
        decreases use
      {
        MoreUnits(use, first);
        MoreUnits(LeastTry(use, required), use);
        Aligned(use);
        r := Use(use);
        if r >= 0 {
          Whole(0, Units(use));
          Fitted(old(used), total, first, use);
          return;
        }
        use := use / 2;
      }
      MoreUnits(LeastTry(first, required), first);
      return -1;
    }

    /** quota_release, and whether the size passes its assertion. */
    method Release(size: nat) returns (r: int, asserted: bool)
      requires Valid() && 0 < size && Units(size) <= used
      modifies this
      ensures Valid() && total == old(total) && used == old(used) - Units(size) && r == Units(size) * UNIT
      ensures asserted <==> size < QUOTA_MAX
    {
      asserted := size < QUOTA_MAX;
      used := used - Units(size);
      r := Units(size) * UNIT;
    }
  }

  class Lessor {
    const source: Source
    var used: nat
    var leased: nat

    /** What is leased is covered by whole units from the source, and not much more is kept. */
    ghost predicate Valid()
      reads this, source
    {
      && source.Valid() && leased <= used && used % UNIT == 0 && used / UNIT <= source.used
      && used - leased < 2 * USE_MIN
    }

    /** The units that others have from the source. */
    ghost function Others(): int
      reads this, source
    {
      source.used - used / UNIT
    }

    constructor (source: Source)
      requires source.Valid()
      ensures Valid() && used == leased == 0 && this.source == source && fresh(this)
    {
      this.source, used, leased := source, 0, 0;
    }

    /** What quota_lease asks the source for first. */
    function FirstTry(size: nat): nat
      reads this
      requires leased + size > used
    {
      var required := size + leased - used;
      if required > USE_MIN then required else USE_MIN
    }

    /** Bytes are missing, no request wraps, and the least one does not fit. */
    predicate Refused(size: nat)
      reads this, source
    {
      && leased + size > used && source.NoWrap(FirstTry(size))
      && source.used + Units(LeastTry(FirstTry(size), size + leased - used)) > source.total
    }

    /** quota_lease. It is refused exactly when the least of its requests is too much for the source, and
        that one is less than twice what is missing. The books stay right exactly when the first request
        does not wrap: one that wraps is let through, and 2^32 units are lost from the source. */
    method Lease(size: nat) returns (r: int)
      requires Valid()
      modifies this, source
      ensures Valid() <==> old(leased + size <= used || source.NoWrap(FirstTry(size)))
      ensures Others() == if Valid() then old(Others()) else old(Others()) - WORD32
      ensures source.Valid() && source.total == old(source.total)
      ensures r == if old(Refused(size)) then -1 else size
      ensures r == size ==> leased == old(leased) + size && used >= old(used)
      ensures old(leased) + size > old(used) ==>
                var required := old(leased) + size - old(used);
                var most := if required > USE_MIN then required else USE_MIN;
                old(source.used) + Units(most) <= source.total ==> used == old(used) + Units(most) * UNIT
      ensures r == -1 ==> used == old(used) && leased == old(leased) && source.used == old(source.used)
      ensures r == -1 ==> size + leased > used && source.total - source.used < Units(2 * (size + leased - used))
      ensures old(leased) + size <= old(used) ==> r == size && used == old(used) && source.used == old(source.used)
    {
      hide Units, LeastTry, Tried;
      if leased + size <= used {
        leased := leased + size;
        return size;
      }
      var required := size + leased - used;
      MoreUnits(LeastTry(FirstTry(size), required), 2 * required);
      var got := source.Borrow(FirstTry(size), required);
      if got < 0 { return -1; }
      Whole(used, got / UNIT);
      used := used + got;
      leased := leased + size;
      r := size;
    }

    /** quota_end_lease */
    method EndLease(size: nat) returns (r: nat, asserted: bool)
      requires Valid() && size <= leased
      modifies this, source
      ensures Valid() && source.total == old(source.total) && Others() == old(Others())
      ensures r == size && asserted && leased == old(leased) - size
      ensures old(used - leased) + size < 2 * USE_MIN ==> used == old(used)
      ensures old(used - leased) + size >= 2 * USE_MIN ==> USE_MIN < used - leased <= USE_MIN + UNIT
    {
      hide Units;
      leased, asserted := leased - size, true;
      var available := used - leased;
      if available >= 2 * USE_MIN {
        var release := available - USE_MIN - UNIT;
        Aligned(release);
        LessUnits(release, used);
        var got;
        got, asserted := source.Release(release);
        Whole(used - got, Units(release));
        used := used - got;
      }
      r := size;
    }

    /** quota_lessor_destroy: all that was taken goes back. The assertion in quota_release holds exactly
        when that is less than QUOTA_MAX. */
    method Destroy() returns (asserted: bool)
      requires Valid()
      modifies this, source
      ensures Valid() && used == 0 && leased == 0 && source.used == old(Others()) && source.total == old(source.total)
      ensures asserted <==> old(used) < QUOTA_MAX
    {
      if used == 0 { return true; }
      Whole(0, used / UNIT);
      var got;
      got, asserted := source.Release(used);
      used, leased := 0, 0;
    }
  }

  /** A lessor that took all of the greatest quota cannot be destroyed without tripping the assertion. */
  method AssertionAtDestroy() returns (r: int, asserted: bool)
    ensures r == QUOTA_MAX && !asserted
  {
    var source := new Source(QUOTA_MAX);
    var lessor := new Lessor(source);
    r := lessor.Lease(QUOTA_MAX);
    asserted := lessor.Destroy();
  }

  /** The request is the first one, or the one before it, of twice as much, did not fit. */
  predicate Tried(used: nat, total: nat, first: nat, use: nat) {
    || use == first || (2 * use <= first && used + Units(2 * use) > total)
    || (2 * use + 1 <= first && used + Units(2 * use + 1) > total)
  }

  /** The last of the halved requests that still gives what is required. */
  function LeastTry(use: nat, required: nat): (r: nat)
    requires 0 < required <= use
    ensures required <= r <= use && r / 2 < required
  {
    if use / 2 >= required then LeastTry(use / 2, required) else use
  }

  /** If the first request fits, it is the one. */
  lemma Fitted(used: nat, total: nat, first: nat, use: nat)
    requires Tried(used, total, first, use) && use <= first
    ensures used + Units(first) <= total ==> use == first
  {
    hide Units;
    if use != first {
      if 2 * use <= first { MoreUnits(2 * use, first); }
      if 2 * use + 1 <= first { MoreUnits(2 * use + 1, first); }
    }
  }

  lemma MoreUnits(a: nat, b: nat)
    requires a <= b
    ensures Units(a) <= Units(b)
  {
  }

  lemma Aligned(size: nat)
    ensures size <= Units(size) * UNIT < size + UNIT
  {
  }

  lemma Whole(a: nat, n: nat)
    requires a % UNIT == 0
    ensures (a + n * UNIT) % UNIT == 0 && (a + n * UNIT) / UNIT == a / UNIT + n
    ensures Units(a) == a / UNIT
  {
  }

  lemma LessUnits(a: nat, b: nat)
    requires a <= b && b % UNIT == 0
    ensures Units(a) <= b / UNIT
  {
  }
}
