/** Two machines with RAM up to 256 MiB, from address 0 and from 1 MiB, after boot. */
module BootExample {
  import opened MachineWords
  import opened Bits
  import opened PageAccounting
  import opened PageMarking
  import opened RunSearch
  import opened PageRuns
  import opened BootMap
  import opened BootState
  import KernelProtection

  const ONE_MIB: nat := 0x10_0000

  /** RAM from address 0, or from 1 MiB, where the first whole page is page 1. */
  function RamEntry(high: bool): E820 {
    if high then E820(ONE_MIB, 128 * PAGE_2M - ONE_MIB, RAM) else E820(0, 128 * PAGE_2M, RAM)
  }

  function Map(high: bool): seq<E820> { [RamEntry(high)] }

  function First(high: bool): nat { if high then 1 else 0 }

  /** The kernel image ends 4 MiB above its base. */
  const END_BRK: nat := PAGE_OFFSET + 2 * PAGE_2M

  lemma CoveredIff(high: bool, n: nat)
    ensures Covered(Map(high), 1, n) <==> First(high) <= n < 128
  {
    InsideIff(Map(high)[0], n);
    if First(high) <= n < 128 {
      assert Inside(Map(high)[0], n);
    }
  }

  lemma MapLayout(high: bool)
    ensures Usable(RamEntry(high)) && FirstPage(RamEntry(high)) == First(high) && EndOf(RamEntry(high)) == 128
    ensures PageCount(Map(high)) == 128 && Words(128) == 2 && ZoneCount(Map(high), 1) == 1
    ensures FinalLayout(Map(high), END_BRK).end == END_BRK + 0x3150
    ensures LastReserved(Map(high), END_BRK) == 2
  {
    assert ZoneCount(Map(high), 0) == 0;
    assert Align4K(END_BRK) == END_BRK;
    assert Align4K(END_BRK + 16) == END_BRK + 0x1000;
    assert Align4K(END_BRK + 0x1000 + 5120) == END_BRK + 0x3000;
  }

  /** Both meet everything that is asked of a map. */
  lemma MapIsBootable(high: bool)
    ensures Bootable(Map(high), END_BRK)
  {
    MapLayout(high);
    forall n | 1 <= n <= LastReserved(Map(high), END_BRK)
      ensures Covered(Map(high), |Map(high)|, n)
    {
      CoveredIff(high, n);
    }
  }

  /** What the zone loop makes of the map. */
  function ZonesBuilt(high: bool): Memory
    requires Usable(RamEntry(high))
  {
    Memory(seq(256, b => !(First(high) <= b < 128)),
           seq(128, n requires 0 <= n < 128 => if n < First(high) then NO_PAGE else FreePage(n, 0)),
           [NewZone(RamEntry(high))])
  }

  lemma ZonesAreBuilt(high: bool)
    requires Usable(RamEntry(high))
    ensures Built(ZonesBuilt(high), Map(high), 1)
  {
    MapLayout(high);
    assert ZonesOf(Map(high), 0) == [];
    forall n: nat
      ensures Covered(Map(high), 1, n) <==> First(high) <= n < 128
    {
      CoveredIff(high, n);
    }
  }

  /** What init_memory leaves. */
  lemma BootedExample(high: bool) returns (m: Memory)
    ensures Bootable(Map(high), END_BRK) && Booted(m, Map(high), END_BRK) && Consistent(m, 128)
    ensures |m.used| == 256 && |m.zones| == 1 && Usable(RamEntry(high))
    ensures SameExtent(m.zones[0], NewZone(RamEntry(high))) && 124 <= m.zones[0].free <= 128
  {
    MapLayout(high);
    MapIsBootable(high);
    ZonesAreBuilt(high);
    m := Reserved(high, ZonesBuilt(high));
  }

  lemma Reserved(high: bool, built: Memory) returns (m: Memory)
    requires Bootable(Map(high), END_BRK) && Usable(RamEntry(high)) && LastReserved(Map(high), END_BRK) == 2
    requires PageCount(Map(high)) == 128 && Words(128) == 2
    requires Built(built, Map(high), |Map(high)|) && |built.pages| == 128 && |built.used| == 256
    requires built.zones == [NewZone(RamEntry(high))] && 127 <= NewZone(RamEntry(high)).free <= 128
    ensures Booted(m, Map(high), END_BRK) && Consistent(m, 128)
    ensures |m.used| == 256 && |m.zones| == 1
    ensures SameExtent(m.zones[0], NewZone(RamEntry(high))) && 124 <= m.zones[0].free <= 128
  {
    ReservationCompletesBoot(built, Map(high), END_BRK);
    m := InitAll(WithPageZero(built), 0, 3, KernelFlags());
    MarkingKeepsExtents(WithPageZero(built), 0, 3, KernelFlags(), 0);
  }

  lemma ZoneExample(high: bool, m: Memory)
    requires |m.used| == 256 && |m.zones| == 1 && 124 <= m.zones[0].free <= 128
    requires Usable(RamEntry(high)) && SameExtent(m.zones[0], NewZone(RamEntry(high)))
    requires FirstPage(RamEntry(high)) == First(high) && EndOf(RamEntry(high)) == 128
    ensures Searchable(m) && Enough(m.zones[0], 1)
    ensures StartPage(m.zones[0]) == First(high) && EndPage(m.zones[0]) == 128
  {}

  /** With RAM from address 0, init_memory leaves a state in which the kernel's last page, page
      2, is the page that the first one-page request is given. */
  lemma FirstRequestExample(flags: Word)
    requires flags != ZERO
    ensures Bootable(Map(false), END_BRK) && LastReserved(Map(false), END_BRK) == 2
    ensures exists m ::
      && Booted(m, Map(false), END_BRK) && Consistent(m, 128)
      && Legal(m, Alloc(0, 0, 1, flags)) && HandsOut(m, Alloc(0, 0, 1, flags), 2)
  {
    MapLayout(false);
    var m := BootedExample(false);
    ZoneExample(false, m);
    CoveredIff(false, 3);
    KernelProtection.FirstRequestTakesKernelPageIff(m, Map(false), END_BRK, 0, flags);
  }

  /** With RAM from 1 MiB, in a zone of two words, it leaves one from which no run hands out a
      kernel page that has not been cleaned. */
  lemma KernelIsHeldExample()
    ensures Bootable(Map(true), END_BRK) && LastReserved(Map(true), END_BRK) == 2
    ensures exists m ::
      && Booted(m, Map(true), END_BRK) && Consistent(m, 128)
      && |m.zones| == 1 && !OneWord(m.zones[0]) && KernelProtection.HeldUpTo(m, 2)
  {
    MapLayout(true);
    var m := BootedExample(true);
    ZoneExample(true, m);
    KernelProtection.KernelIsHeld(m, Map(true), END_BRK);
  }
}
