/** What the zone loop of init_memory has built after each entry of the map. */
module BootState {
  import opened Bits
  import opened Wrappers
  import opened PageAccounting
  import opened BootMap
  import PageMarking

  function NewZone(entry: E820): Zone
    requires Usable(entry)
  {
    var len := EndOf(entry) - FirstPage(entry);
    Zone(FirstPage(entry) * PAGE_2M, EndOf(entry) * PAGE_2M, len, 0, len, 0)
  }

  function FreePage(n: nat, z: nat): Page { Page(Some(z), n * PAGE_2M, ZERO, 0) }

  const NO_PAGE: Page := Page(None, 0, ZERO, 0)

  /** Pages first .. first + count given to zone z, their bits flipped. */
  ghost predicate Freed(m: Memory, m': Memory, first: nat, count: nat, z: nat) {
    && |m'.used| == |m.used| && |m'.pages| == |m.pages|
    && (forall b :: 0 <= b < |m.used| ==> m'.used[b] == (m.used[b] != (first <= b < first + count)))
    && (forall n :: 0 <= n < |m.pages| ==>
          m'.pages[n] == if first <= n < first + count then FreePage(n, z) else m.pages[n])
  }

  ghost predicate ZoneAdded(m: Memory, m': Memory, entry: E820)
    requires Usable(entry)
  {
    && Freed(m, m', FirstPage(entry), EndOf(entry) - FirstPage(entry), |m.zones|)
    && m'.zones == m.zones + [NewZone(entry)]
  }

  /** The zone structs made of the first `count` entries. */
  function ZonesOf(entries: seq<E820>, count: nat): (zones: seq<Zone>)
    requires count <= |entries|
    ensures |zones| == ZoneCount(entries, count)
    ensures forall z :: 0 <= z < |zones| ==> zones[z].using == 0 && zones[z].links == 0
    ensures forall z :: 0 <= z < |zones| ==> zones[z].free == zones[z].pageLen
    ensures WellFormed(entries) ==> forall z :: 0 <= z < |zones| ==> zones[z].endAddr / PAGE_2M <= PageCount(entries)
  {
    if count == 0 then []
    else if Usable(entries[count - 1]) then ZonesOf(entries, count - 1) + [NewZone(entries[count - 1])]
    else ZonesOf(entries, count - 1)
  }

  predicate InZone(zone: Zone, n: nat) {
    zone.startAddr <= n * PAGE_2M < zone.endAddr
  }

  /** After the first `count` entries: a bit is clear, and its page belongs to the zone it
      lies in, with its own address, exactly for the pages wholly inside one of them. */
  ghost predicate Built(m: Memory, entries: seq<E820>, count: nat)
    requires count <= |entries|
  {
    && m.zones == ZonesOf(entries, count)
    && (forall b :: 0 <= b < |m.used| && b < 64 * Words(|m.pages|) ==> (m.used[b] <==> !Covered(entries, count, b)))
    && (forall n :: 0 <= n < |m.pages| ==>
          if Covered(entries, count, n) then
            && m.pages[n].zone.Some? && m.pages[n].zone.value < |m.zones|
            && m.pages[n] == FreePage(n, m.pages[n].zone.value)
            && InZone(m.zones[m.pages[n].zone.value], n)
          else m.pages[n] == NO_PAGE)
  }

  lemma CoveredNext(entries: seq<E820>, count: nat, n: nat)
    requires count < |entries|
    ensures Covered(entries, count + 1, n) <==> Covered(entries, count, n) || Inside(entries[count], n)
  {}

  lemma BuiltSkip(m: Memory, entries: seq<E820>, count: nat)
    requires count < |entries| && Built(m, entries, count) && !Usable(entries[count])
    ensures Built(m, entries, count + 1)
  {
    forall n: nat
      ensures Covered(entries, count + 1, n) <==> Covered(entries, count, n)
    {
      CoveredNext(entries, count, n);
      InsideIff(entries[count], n);
    }
  }

  lemma BuiltNext(m: Memory, m': Memory, entries: seq<E820>, count: nat)
    requires WellFormed(entries) && count < |entries| && |m.pages| == PageCount(entries)
    requires Built(m, entries, count) && Usable(entries[count])
    requires ZoneAdded(m, m', entries[count])
    ensures Built(m', entries, count + 1)
  {
    var entry := entries[count];
    EntriesEndBelowTop(entries, count);
    forall n: nat
      ensures Covered(entries, count + 1, n) <==> Covered(entries, count, n) || Inside(entry, n)
      ensures Inside(entry, n) ==> !Covered(entries, count, n)
      ensures Inside(entry, n) <==> FirstPage(entry) <= n < EndOf(entry)
    {
      CoveredNext(entries, count, n);
      InsideIff(entry, n);
      if Inside(entry, n) { CoveredOnce(entries, count, n); }
    }
  }

  // ----- after the zone loop

  /** page 0's struct is given to zone 0, wherever page 0 lies. */
  function WithPageZero(m: Memory): Memory
    requires |m.pages| > 0
  {
    m.(pages := m.pages[0 := FreePage(0, 0)])
  }

  lemma {:induction false} NothingTallied(pages: seq<Page>, z: nat, what: Tallied)
    requires forall n :: 0 <= n < |pages| ==> pages[n].attribute == ZERO && pages[n].refCnt == 0
    ensures Tally(pages, z, what) == 0
  {
    if pages != [] {
      NothingTallied(pages[..|pages| - 1], z, what);
    }
  }

  lemma {:induction false} BuiltIsConsistent(m: Memory, entries: seq<E820>)
    requires |entries| >= 1 && Built(m, entries, |entries|)
    requires |m.pages| == PageCount(entries) >= 1 && ZoneCount(entries, |entries|) >= 1
    requires 64 * Words(|m.pages|) <= |m.used|
    requires forall n :: 0 <= n && Covered(entries, |entries|, n) ==> n < |m.pages|
    ensures Consistent(WithPageZero(m), 64 * Words(|m.pages|))
  {
    var m' := WithPageZero(m);
    BitsLenCovers(|m.pages|);
    forall z | 0 <= z < |m'.zones|
      ensures ZoneOk(m', z)
    {
      NothingTallied(m'.pages, z, InUse);
      NothingTallied(m'.pages, z, Links);
    }
    forall n | 0 <= n < |m'.pages|
      ensures PageOk(m', n)
    {
      assert n != 0 ==> m'.pages[n] == m.pages[n];
    }
    forall b | 0 <= b < 64 * Words(|m.pages|) && !m'.used[b]
      ensures Owned(m', b)
    {
      assert Covered(entries, |entries|, b);
    }
  }

  lemma CoveredIsBelowTop(entries: seq<E820>, n: nat)
    requires WellFormed(entries) && Covered(entries, |entries|, n)
    ensures n < PageCount(entries)
  {}

  /** Pages 0 .. last, which the kernel reserves, are owned and unused. */
  lemma ReservedAreUnused(m: Memory, entries: seq<E820>, endBrk: nat)
    requires Bootable(entries, endBrk) && Built(m, entries, |entries|)
    requires |m.pages| == PageCount(entries) >= 1 && 64 * Words(|m.pages|) <= |m.used|
    ensures PageMarking.AllUnused(WithPageZero(m), 0, LastReserved(entries, endBrk) + 1)
  {
    var m' := WithPageZero(m);
    BitsLenCovers(|m.pages|);
    forall p | 0 <= p < LastReserved(entries, endBrk) + 1
      ensures Owned(m', p) && p < |m'.used| && m'.pages[p] == FreePage(p, m'.pages[p].zone.value)
    {
      if p != 0 {
        assert Covered(entries, |entries|, p);
        CoveredIsBelowTop(entries, p);
      }
    }
  }

  // ----- after the reservation loop

  /** PG_PTable_Maped | PG_Kernel_Init | PG_Active | PG_Kernel */
  function KernelFlags(): Word { Or(Or(One(0), One(1)), Or(One(4), One(7))) }

  lemma KernelFlagsAreNotZero()
    ensures KernelFlags() != ZERO
  {
    assert KernelFlags()[0];
  }

  /** The state init_memory leaves: a bit is clear exactly for the pages that lie wholly
      inside some RAM entry of the map and above the last reserved page; the reserved pages
      have one link and the kernel's flags, and no other page is in use. */
  ghost predicate Booted(m: Memory, entries: seq<E820>, endBrk: nat)
    requires |entries| >= 1
  {
    var last := LastReserved(entries, endBrk);
    && |m.pages| == PageCount(entries) && 64 * Words(|m.pages|) <= |m.used|
    && |m.zones| == ZoneCount(entries, |entries|)
    && (forall z :: 0 <= z < |m.zones| ==> PageMarking.SameExtent(m.zones[z], ZonesOf(entries, |entries|)[z]))
    && (forall b :: 0 <= b < 64 * Words(|m.pages|) ==> (!m.used[b] <==> b > last && Covered(entries, |entries|, b)))
    && InUseUpTo(m, last)
    && OwnersAreSet(m, entries)
  }

  /** The pages up to `last` have one link and the kernel's flags, and no other page is in use. */
  ghost predicate InUseUpTo(m: Memory, last: int) {
    forall n :: 0 <= n < |m.pages| ==>
      && m.pages[n].attribute == (if n <= last then KernelFlags() else ZERO)
      && m.pages[n].refCnt == (if n <= last then 1 else 0)
  }

  /** Page 0 and the pages inside a RAM entry have an owner, their zone but for page 0, and
      their address; no other page has. */
  ghost predicate OwnersAreSet(m: Memory, entries: seq<E820>) {
    && (forall n :: 0 <= n < |m.pages| && (n == 0 || Covered(entries, |entries|, n)) ==>
          Owned(m, n) && m.pages[n].phyAddr == n * PAGE_2M && (n != 0 ==> InZone(m.zones[m.pages[n].zone.value], n)))
    && (forall n :: 1 <= n < |m.pages| && !Covered(entries, |entries|, n) ==> m.pages[n].zone == None)
  }

  /** After boot the bitmap says exactly which pages are in use. */
  lemma BootedIsExact(m: Memory, entries: seq<E820>, endBrk: nat)
    requires Bootable(entries, endBrk) && Booted(m, entries, endBrk)
    ensures PageMarking.Exact(m)
  {
    KernelFlagsAreNotZero();
    BitsLenCovers(|m.pages|);
    LastReservedIsPage(entries, endBrk);
    forall p | Owned(m, p) && p < |m.used|
      ensures m.used[p] <==> m.pages[p].attribute != ZERO
    {
      assert p == 0 || Covered(entries, |entries|, p);
    }
  }

  /** The reserved pages have attribute 0x93, bits 0, 1, 4 and 7, and one link. */
  lemma ReservedAttribute(m: Memory, entries: seq<E820>, endBrk: nat, n: nat, b: nat)
    requires Bootable(entries, endBrk) && Booted(m, entries, endBrk)
    requires n <= LastReserved(entries, endBrk) && n < |m.pages| && b < 64
    ensures m.pages[n].refCnt == 1 && (m.pages[n].attribute[b] <==> b in {0, 1, 4, 7})
  {
    assert m.pages[n].attribute == KernelFlags();
  }

  lemma LastReservedIsPage(entries: seq<E820>, endBrk: nat)
    requires Bootable(entries, endBrk)
    ensures LastReserved(entries, endBrk) >= 0
  {}

  lemma ReservationCompletesBoot(m: Memory, entries: seq<E820>, endBrk: nat)
    requires Bootable(entries, endBrk) && Built(m, entries, |entries|)
    requires |m.pages| == PageCount(entries) >= 1 && 64 * Words(|m.pages|) <= |m.used|
    ensures var last := LastReserved(entries, endBrk);
      && last >= 0
      && PageMarking.AllOwned(WithPageZero(m), 0, last + 1)
      && var m' := PageMarking.InitAll(WithPageZero(m), 0, last + 1, KernelFlags());
         Booted(m', entries, endBrk) && Consistent(m', 64 * Words(|m.pages|))
  {
    var last := LastReserved(entries, endBrk);
    LastReservedIsPage(entries, endBrk);
    ReservedAreUnused(m, entries, endBrk);
    PageMarking.UnusedPagesComeFresh(WithPageZero(m), 0, last + 1, KernelFlags());
    ReservedIsBooted(m, entries, endBrk);
    ReservedIsConsistent(m, entries, endBrk);
  }

  lemma ReservedIsConsistent(m: Memory, entries: seq<E820>, endBrk: nat)
    requires Bootable(entries, endBrk) && Built(m, entries, |entries|)
    requires |m.pages| == PageCount(entries) >= 1 && 64 * Words(|m.pages|) <= |m.used|
    requires LastReserved(entries, endBrk) >= 0
    requires PageMarking.AllOwned(WithPageZero(m), 0, LastReserved(entries, endBrk) + 1)
    ensures Consistent(PageMarking.InitAll(WithPageZero(m), 0, LastReserved(entries, endBrk) + 1, KernelFlags()),
                       64 * Words(|m.pages|))
  {
    forall n | 0 <= n && Covered(entries, |entries|, n)
      ensures n < |m.pages|
    {
      CoveredIsBelowTop(entries, n);
    }
    BuiltIsConsistent(m, entries);
    KernelFlagsAreNotZero();
    PageMarking.InitAllKeeps(WithPageZero(m), 64 * Words(|m.pages|), 0, LastReserved(entries, endBrk) + 1,
                             KernelFlags());
  }

  lemma ReservedIsBooted(m: Memory, entries: seq<E820>, endBrk: nat)
    requires Bootable(entries, endBrk) && Built(m, entries, |entries|)
    requires |m.pages| == PageCount(entries) >= 1 && 64 * Words(|m.pages|) <= |m.used|
    requires LastReserved(entries, endBrk) >= 0
    requires PageMarking.AllOwned(WithPageZero(m), 0, LastReserved(entries, endBrk) + 1)
    requires var last := LastReserved(entries, endBrk);
      var m' := PageMarking.InitAll(WithPageZero(m), 0, last + 1, KernelFlags());
      PageMarking.Fresh(WithPageZero(m), m', 0, last + 1, KernelFlags())
    ensures Booted(PageMarking.InitAll(WithPageZero(m), 0, LastReserved(entries, endBrk) + 1, KernelFlags()),
                   entries, endBrk)
  {
    var last := LastReserved(entries, endBrk);
    var m' := PageMarking.InitAll(WithPageZero(m), 0, last + 1, KernelFlags());
    forall z | 0 <= z < |m'.zones|
      ensures PageMarking.SameExtent(m'.zones[z], m.zones[z])
    {
      PageMarking.MarkingKeepsExtents(WithPageZero(m), 0, last + 1, KernelFlags(), z);
    }
    BuiltIsBooted(m, m', entries, endBrk);
  }

  /** A bootable map has a zone, and so at least one page. */
  lemma BootableHasPages(entries: seq<E820>, endBrk: nat)
    requires Bootable(entries, endBrk)
    ensures PageCount(entries) >= 1
  {
    ZoneNeedsPages(entries, |entries|);
  }

  lemma {:induction false} ZoneNeedsPages(entries: seq<E820>, count: nat)
    requires WellFormed(entries) && count <= |entries| && ZoneCount(entries, count) >= 1
    ensures PageCount(entries) >= 1
  {
    if Usable(entries[count - 1]) {
      EntriesEndBelowTop(entries, count - 1);
    } else {
      ZoneNeedsPages(entries, count - 1);
    }
  }

  lemma {:induction false} BuiltIsBooted(m: Memory, m': Memory, entries: seq<E820>, endBrk: nat)
    requires Bootable(entries, endBrk) && Built(m, entries, |entries|)
    requires |m.pages| == PageCount(entries) >= 1 && 64 * Words(|m.pages|) <= |m.used|
    requires LastReserved(entries, endBrk) >= 0
    requires PageMarking.Fresh(WithPageZero(m), m', 0, LastReserved(entries, endBrk) + 1, KernelFlags())
    requires |m'.zones| == |m.zones|
    requires forall z :: 0 <= z < |m'.zones| ==> PageMarking.SameExtent(m'.zones[z], m.zones[z])
    ensures Booted(m', entries, endBrk)
  {
    BitsLenCovers(|m.pages|);
    UnusedBefore(m, entries);
    OwnersStay(m, m', entries, LastReserved(entries, endBrk) + 1);
  }

  lemma UnusedBefore(m: Memory, entries: seq<E820>)
    requires |entries| >= 1 && Built(m, entries, |entries|) && |m.pages| >= 1
    ensures forall n :: 0 <= n < |m.pages| ==>
      WithPageZero(m).pages[n].attribute == ZERO && WithPageZero(m).pages[n].refCnt == 0
  {}

  lemma {:induction false} OwnersStay(m: Memory, m': Memory, entries: seq<E820>, number: nat)
    requires |entries| >= 1 && Built(m, entries, |entries|) && |m.pages| >= 1 && |m.zones| >= 1
    requires |m.pages| <= 64 * Words(|m.pages|) <= |m.used|
    requires PageMarking.Fresh(WithPageZero(m), m', 0, number, KernelFlags())
    requires |m'.zones| == |m.zones|
    requires forall z :: 0 <= z < |m'.zones| ==> PageMarking.SameExtent(m'.zones[z], m.zones[z])
    ensures OwnersAreSet(m', entries)
  {
    var m1 := WithPageZero(m);
    forall n | 0 <= n < |m.pages|
      ensures n == 0 ==> m1.pages[n] == FreePage(0, 0)
      ensures n != 0 ==> m1.pages[n] == m.pages[n]
      ensures m'.pages[n].zone == m1.pages[n].zone && m'.pages[n].phyAddr == m1.pages[n].phyAddr
    {}
  }
}
