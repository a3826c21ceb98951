/** From boot to any later allocation. */
module KernelProtection {
  import opened MachineWords
  import opened Bits
  import opened PageAccounting
  import opened PageMarking
  import opened RunSearch
  import opened PageRuns
  import opened BootMap
  import opened BootState

  /** A byte of the kernel image, the bitmap, the page structs or the zone structs is handed
      out in a run only if its page was cleaned before, or by an allocation that has the page
      in reach and finds it away from page 1 of a word. */
  lemma KernelIsNotHandedOut(m: Memory, entries: seq<E820>, endBrk: nat, events: seq<Event>, b: nat, x: nat)
    requires Bootable(entries, endBrk) && Booted(m, entries, endBrk)
    requires Consistent(m, 64 * Words(|m.pages|)) && LegalRun(m, events) && b < |events|
    requires PAGE_OFFSET <= x <= FinalLayout(entries, endBrk).end
    requires HandsOutAt(m, events, b, (x - PAGE_OFFSET) / PAGE_2M)
    ensures var page := (x - PAGE_OFFSET) / PAGE_2M;
      || CleanedBetween(events, 0, b, page)
      || (Reached(m, 64 * Words(|m.pages|), events[b], page) && !InStepAt(m, events, b))
  {
    var page := (x - PAGE_OFFSET) / PAGE_2M;
    KernelLiesInReservedPages(entries, endBrk, x);
    ReservedHaveBits(entries, endBrk, page);
    assert m.used[page];
    HeldUntilCleaned(m, 64 * Words(|m.pages|), events, 0, b, page);
  }

  lemma ReservedHaveBits(entries: seq<E820>, endBrk: nat, page: nat)
    requires Bootable(entries, endBrk) && page <= LastReserved(entries, endBrk)
    ensures page < 64 * Words(PageCount(entries))
  {
    BootableHasPages(entries, endBrk);
    BitsLenCovers(PageCount(entries));
    if page != 0 {
      CoveredIsBelowTop(entries, page);
    }
  }

  // ----- the first request after boot

  /** A zone ends below every later entry of the map. */
  lemma {:induction false} ZonesEndBelow(entries: seq<E820>, count: nat, z: nat, c: nat)
    requires WellFormed(entries) && count <= c < |entries| && z < ZoneCount(entries, count)
    ensures ZonesOf(entries, count)[z].startAddr < ZonesOf(entries, count)[z].endAddr
    ensures ZonesOf(entries, count)[z].endAddr <= FirstPage(entries[c]) * PAGE_2M
  {
    if z < ZoneCount(entries, count - 1) {
      ZonesEndBelow(entries, count - 1, z, c);
    } else {
      EndsBelow(entries, count - 1, c);
    }
  }

  lemma EndsBelow(entries: seq<E820>, a: nat, c: nat)
    requires WellFormed(entries) && a < c < |entries|
    ensures EndOf(entries[a]) <= FirstPage(entries[c])
  {
    assert entries[a].addr + entries[a].len <= entries[c].addr;
  }

  /** The first zone lies below all others. */
  lemma {:induction false} FirstZoneIsLowest(entries: seq<E820>, count: nat, z: nat)
    requires WellFormed(entries) && count <= |entries| && z < ZoneCount(entries, count)
    ensures ZonesOf(entries, count)[0].startAddr < ZonesOf(entries, count)[0].endAddr
    ensures z != 0 ==> ZonesOf(entries, count)[0].endAddr <= ZonesOf(entries, count)[z].startAddr
  {
    var before := ZoneCount(entries, count - 1);
    if z < before {
      FirstZoneIsLowest(entries, count - 1, z);
    } else if before > 0 {
      ZonesEndBelow(entries, count - 1, 0, count - 1);
    }
  }

  /** The kernel lies in pages 1 and up, so some zone starts at page 0 or 1, and it is the
      first. */
  lemma FirstZoneStart(m: Memory, entries: seq<E820>, endBrk: nat)
    requires Bootable(entries, endBrk) && Booted(m, entries, endBrk) && LastReserved(entries, endBrk) >= 1
    ensures |m.zones| >= 1 && StartPage(m.zones[0]) <= 1 && StartPage(m.zones[0]) <= EndPage(m.zones[0])
  {
    var zones := ZonesOf(entries, |entries|);
    assert Covered(entries, |entries|, 1);
    CoveredIsBelowTop(entries, 1);
    var z := m.pages[1].zone.value;
    assert Owned(m, 1) && InZone(m.zones[z], 1);
    assert SameExtent(m.zones[z], zones[z]) && SameExtent(m.zones[0], zones[0]);
    FirstZoneIsLowest(entries, |entries|, z);
  }

  /** The first one-page request from zone 0 after boot finds the page above the kernel. It is
      given that page if the zone starts at page 1, and the kernel's last page, where the page
      and zone structs end, exactly if it starts at page 0. */
  lemma FirstRequestTakesKernelPageIff(m: Memory, entries: seq<E820>, endBrk: nat, hi: nat, flags: Word)
    requires Bootable(entries, endBrk) && Booted(m, entries, endBrk) && Searchable(m) && flags != ZERO
    requires 1 <= LastReserved(entries, endBrk) < 62
    requires Covered(entries, |entries|, LastReserved(entries, endBrk) + 1)
    requires |m.zones| >= 1 && Enough(m.zones[0], 1)
    ensures var event, last := Alloc(0, hi, 1, flags), LastReserved(entries, endBrk);
      && Legal(m, event)
      && (HandsOut(m, event, last) <==> StartPage(m.zones[0]) == 0)
      && (HandsOut(m, event, last + 1) <==> StartPage(m.zones[0]) == 1)
  {
    FirstZoneStart(m, entries, endBrk);
    BitsAroundKernelEnd(m, entries, endBrk);
    FirstRequestAt(m, hi, LastReserved(entries, endBrk), flags);
  }

  /** Every page up to the last reserved one is taken, and the page above it is free. */
  lemma BitsAroundKernelEnd(m: Memory, entries: seq<E820>, endBrk: nat)
    requires Bootable(entries, endBrk) && Booted(m, entries, endBrk)
    requires 1 <= LastReserved(entries, endBrk) && Covered(entries, |entries|, LastReserved(entries, endBrk) + 1)
    ensures var last := LastReserved(entries, endBrk);
      && last + 1 < |m.used| && !m.used[last + 1] && (forall p :: 0 <= p <= last ==> m.used[p])
      && Owned(m, last) && Owned(m, last + 1)
  {
    var last := LastReserved(entries, endBrk);
    BitsLenCovers(|m.pages|);
    assert Covered(entries, |entries|, last);
    CoveredIsBelowTop(entries, last);
    CoveredIsBelowTop(entries, last + 1);
  }

  lemma FirstRequestAt(m: Memory, hi: nat, last: nat, flags: Word)
    requires Searchable(m) && flags != ZERO && 1 <= last < 62
    requires |m.zones| >= 1 && Enough(m.zones[0], 1)
    requires StartPage(m.zones[0]) <= 1 && StartPage(m.zones[0]) <= EndPage(m.zones[0])
    requires last + 1 < |m.used| && !m.used[last + 1] && (forall p :: 0 <= p <= last ==> m.used[p])
    requires Owned(m, last) && Owned(m, last + 1)
    ensures var event := Alloc(0, hi, 1, flags);
      && Legal(m, event)
      && (HandsOut(m, event, last) <==> StartPage(m.zones[0]) == 0)
      && (HandsOut(m, event, last + 1) <==> StartPage(m.zones[0]) == 1)
  {
    var start := StartPage(m.zones[0]);
    FirstClearBitIsFirstHit(m, hi, last + 1);
    FirstHitIsUnique(m, 0, hi, 1, 0, start, last + 1);
    OwnedPrefixIs(m, Block(start, last + 1), 1, 1);
  }

  // ----- all runs after boot

  /** In no run is a page up to `last` handed out before it has been cleaned. */
  ghost predicate HeldUpTo(m: Memory, last: int) {
    forall events: seq<Event>, b: nat, x: nat {:trigger HandsOutAt(m, events, b, x)} ::
      LegalRun(m, events) && x <= last && HandsOutAt(m, events, b, x) ==> CleanedBetween(events, 0, b, x)
  }

  /** Taken pages below page 63 are held over all runs, if every zone starts at page 1 or above
      them, however long it is. */
  lemma HeldByLayout(m: Memory, cap: nat, last: int)
    requires Consistent(m, cap) && last < 63
    requires last < |m.used| && forall p :: 0 <= p <= last ==> m.used[p]
    requires forall z :: 0 <= z < |m.zones| ==> StartPage(m.zones[z]) == 1 || StartPage(m.zones[z]) > last
    ensures HeldUpTo(m, last)
  {
    forall events: seq<Event>, b: nat, x: nat | LegalRun(m, events) && x <= last && HandsOutAt(m, events, b, x)
      ensures CleanedBetween(events, 0, b, x)
    {
      PageIsHeld(m, cap, events, b, x);
    }
  }

  lemma PageIsHeld(m: Memory, cap: nat, events: seq<Event>, b: nat, x: nat)
    requires Consistent(m, cap) && x < 63 && x < |m.used| && m.used[x]
    requires forall z :: 0 <= z < |m.zones| ==> StartPage(m.zones[z]) == 1 || StartPage(m.zones[z]) > x
    requires LegalRun(m, events) && HandsOutAt(m, events, b, x)
    ensures CleanedBetween(events, 0, b, x)
  {
    assert x / 64 == 0 && x % 64 == x;
    LowPageIsNotReached(m, cap, events[b], x);
    HeldUntilCleaned(m, cap, events, 0, b, x);
  }

  lemma LaterZonesStartAbove(m: Memory, entries: seq<E820>, endBrk: nat)
    requires Bootable(entries, endBrk) && Booted(m, entries, endBrk) && |m.zones| >= 1
    ensures forall z :: 0 < z < |m.zones| ==> EndPage(m.zones[0]) <= StartPage(m.zones[z])
  {
    var zones := ZonesOf(entries, |entries|);
    forall z | 0 < z < |m.zones|
      ensures EndPage(m.zones[0]) <= StartPage(m.zones[z])
    {
      assert SameExtent(m.zones[z], zones[z]) && SameExtent(m.zones[0], zones[0]);
      FirstZoneIsLowest(entries, |entries|, z);
    }
  }

  /** So the kernel is, if it ends in a zone that starts at page 1. */
  lemma KernelIsHeld(m: Memory, entries: seq<E820>, endBrk: nat)
    requires Bootable(entries, endBrk) && Booted(m, entries, endBrk) && Consistent(m, 64 * Words(|m.pages|))
    requires LastReserved(entries, endBrk) < 63
    requires |m.zones| >= 1 && StartPage(m.zones[0]) == 1 && EndPage(m.zones[0]) > LastReserved(entries, endBrk)
    ensures HeldUpTo(m, LastReserved(entries, endBrk))
  {
    LastReservedIsPage(entries, endBrk);
    ReservedHaveBits(entries, endBrk, LastReserved(entries, endBrk));
    LaterZonesStartAbove(m, entries, endBrk);
    HeldByLayout(m, 64 * Words(|m.pages|), LastReserved(entries, endBrk));
  }

  /** For a kernel that ends in the first zone and below its page 62, with the page above it
      free: no run hands out a kernel page that has not been cleaned, if and only if that zone
      starts at page 1. The zones may be of any length. */
  lemma KernelIsHeldIff(m: Memory, entries: seq<E820>, endBrk: nat)
    requires Bootable(entries, endBrk) && Booted(m, entries, endBrk) && Searchable(m)
    requires Consistent(m, 64 * Words(|m.pages|))
    requires 1 <= LastReserved(entries, endBrk) < 62
    requires Covered(entries, |entries|, LastReserved(entries, endBrk) + 1)
    requires |m.zones| >= 1 && Enough(m.zones[0], 1) && EndPage(m.zones[0]) > LastReserved(entries, endBrk)
    ensures HeldUpTo(m, LastReserved(entries, endBrk)) <==> StartPage(m.zones[0]) == 1
  {
    FirstZoneStart(m, entries, endBrk);
    if StartPage(m.zones[0]) == 1 {
      KernelIsHeld(m, entries, endBrk);
    } else {
      KernelFlagsAreNotZero();
      FirstRequestTakesKernelPageIff(m, entries, endBrk, 0, KernelFlags());
      NotHeld(m, Alloc(0, 0, 1, KernelFlags()), LastReserved(entries, endBrk), LastReserved(entries, endBrk));
    }
  }

  lemma NotHeld(m: Memory, event: Event, last: int, x: nat)
    requires Legal(m, event) && HandsOut(m, event, x) && x <= last
    ensures !HeldUpTo(m, last)
  {
    assert LegalRun(m, [event]);
    assert HandsOutAt(m, [event], 0, x);
    assert !CleanedBetween([event], 0, 0, x);
  }
}
