/** The E820 map the boot loader leaves behind, and where init_memory puts the bitmap, the
    page structs and the zone structs. */
module BootMap {
  import opened MachineWords
  import opened PageAccounting

  const RAM: int := 1
  const ACPI_NVS: int := 4
  const MAX_ENTRIES: nat := 32

  datatype E820 = E820(addr: nat, len: nat, kind: int)

  /** Entries 1 to a of the map in memory are valid: a kind from 1 to 4, and not empty. */
  predicate ValidUpTo(raw: seq<E820>, a: int)
    requires a < |raw|
  {
    forall b :: 1 <= b <= a ==> 1 <= raw[b].kind <= 4 && raw[b].len != 0
  }

  /** The copy loop takes the first entry as it is, and each further one as long as all up to
      it are valid, up to 32. */
  method CopyMap(raw: seq<E820>) returns (map0: seq<E820>)
    requires |raw| > 32
    ensures 1 <= |map0| <= 32 && map0 == raw[..|map0|]
    ensures forall a :: 1 <= a < 32 ==> (a < |map0| <==> ValidUpTo(raw, a))
  {
    map0 := [];
    var i := 0;
    while i < MAX_ENTRIES
      invariant 0 <= i <= MAX_ENTRIES && |map0| == i && map0 == raw[..i]
      invariant i < MAX_ENTRIES ==> ValidUpTo(raw, i)
      invariant ValidUpTo(raw, i - 1)
    {
      map0 := map0 + [raw[i]];
      if raw[i + 1].kind > ACPI_NVS || raw[i + 1].len == 0 || raw[i + 1].kind < RAM {
        break;
      }
      i := i + 1;
    }
  }

  // ----- pages inside an entry

  /** The first whole page at or above the start of the entry. */
  function FirstPage(entry: E820): nat { (entry.addr + PAGE_2M - 1) / PAGE_2M }

  /** The page the end of the entry lies in. */
  function EndOf(entry: E820): nat { (entry.addr + entry.len) / PAGE_2M }

  predicate Usable(entry: E820) { entry.kind == RAM && FirstPage(entry) < EndOf(entry) }

  /** Page n lies wholly inside the entry, which is RAM. */
  predicate Inside(entry: E820, n: nat) {
    entry.kind == RAM && entry.addr <= n * PAGE_2M && (n + 1) * PAGE_2M <= entry.addr + entry.len
  }

  lemma InsideIff(entry: E820, n: nat)
    ensures Inside(entry, n) <==> Usable(entry) && FirstPage(entry) <= n < EndOf(entry)
  {}

  /** Page n lies wholly inside one of the first `count` entries. */
  ghost predicate Covered(entries: seq<E820>, count: nat, n: nat)
    requires count <= |entries|
  {
    exists a :: 0 <= a < count && Inside(entries[a], n)
  }

  /** Sorted, disjoint, and below the top of the 64-bit address space by a page. */
  predicate WellFormed(entries: seq<E820>) {
    && |entries| >= 1
    && (forall a, b :: 0 <= a < b < |entries| ==> entries[a].addr + entries[a].len <= entries[b].addr)
    && Top(entries) + PAGE_2M <= 0x1_0000_0000_0000_0000
  }

  /** totel_mem: the end of the last entry. */
  function Top(entries: seq<E820>): nat
    requires |entries| >= 1
  {
    entries[|entries| - 1].addr + entries[|entries| - 1].len
  }

  function PageCount(entries: seq<E820>): nat
    requires |entries| >= 1
  {
    Top(entries) / PAGE_2M
  }

  lemma EntriesEndBelowTop(entries: seq<E820>, a: nat)
    requires WellFormed(entries) && a < |entries|
    ensures EndOf(entries[a]) <= PageCount(entries)
  {}

  /** No page is covered twice. */
  lemma CoveredOnce(entries: seq<E820>, a: nat, n: nat)
    requires WellFormed(entries) && a < |entries| && Inside(entries[a], n)
    ensures !Covered(entries, a, n)
  {}

  // ----- where the metadata goes

  const SIZE_OF_PAGE: nat := 40
  const SIZE_OF_ZONE: nat := 80

  function Align4K(x: int): int { (x + 0xfff) / 0x1000 * 0x1000 }

  function Align8(x: int): int { x / 8 * 8 }

  /** In bytes, with the mask of line 264 read as a division by 8. */
  function BitsLen(n: nat): nat { Align8((n + 63) / 8) }

  function Words(n: nat): nat { BitsLen(n) / 8 }

  /** Addresses of bits_map, pages_struct, zones_struct and end_of_struct. */
  datatype Layout = Layout(bits: int, pages: int, zones: int, end: int)

  function LayoutOf(endBrk: nat, n: nat, zoneCount: nat): Layout {
    var bits := Align4K(endBrk);
    var pages := Align4K(bits + BitsLen(n));
    var zones := Align4K(pages + Align8(n * SIZE_OF_PAGE + 7));
    Layout(bits, pages, zones, Align8(zones + zoneCount * Align8(SIZE_OF_ZONE + 7) + 256))
  }

  /** The bitmap has a bit for every page, and no word too many. */
  lemma BitsLenCovers(n: nat)
    ensures BitsLen(n) == 8 * Words(n)
    ensures n <= 64 * Words(n) < n + 64
  {}

  /** The three areas are 4 KiB aligned, follow the kernel image and each other without
      overlap, and end below end_of_struct. */
  lemma LayoutIsOrdered(endBrk: nat, n: nat, zoneCount: nat)
    ensures var l := LayoutOf(endBrk, n, zoneCount);
      && l.bits % 0x1000 == 0 && l.pages % 0x1000 == 0 && l.zones % 0x1000 == 0
      && endBrk <= l.bits
      && l.bits + BitsLen(n) <= l.pages
      && l.pages + n * SIZE_OF_PAGE <= l.zones
      && l.zones + zoneCount * SIZE_OF_ZONE <= l.end
  {
    PagesFollowBits(endBrk, n, zoneCount);
    ZonesFollowPages(endBrk, n, zoneCount);
    EndFollowsZones(endBrk, n, zoneCount);
  }

  lemma PagesFollowBits(endBrk: nat, n: nat, zoneCount: nat)
    ensures var l := LayoutOf(endBrk, n, zoneCount);
      && l.bits % 0x1000 == 0 && l.pages % 0x1000 == 0
      && endBrk <= l.bits && l.bits + BitsLen(n) <= l.pages
  {
    Aligned4K(endBrk);
    Aligned4K(Align4K(endBrk) + BitsLen(n));
  }

  lemma ZonesFollowPages(endBrk: nat, n: nat, zoneCount: nat)
    ensures var l := LayoutOf(endBrk, n, zoneCount);
      l.zones % 0x1000 == 0 && l.pages + n * SIZE_OF_PAGE <= l.zones
  {
    Aligned8(n * SIZE_OF_PAGE + 7);
    Aligned4K(LayoutOf(endBrk, n, zoneCount).pages + Align8(n * SIZE_OF_PAGE + 7));
  }

  lemma EndFollowsZones(endBrk: nat, n: nat, zoneCount: nat)
    ensures var l := LayoutOf(endBrk, n, zoneCount); l.zones + zoneCount * SIZE_OF_ZONE <= l.end
  {
    Aligned8(LayoutOf(endBrk, n, zoneCount).zones + zoneCount * Align8(SIZE_OF_ZONE + 7) + 256);
  }

  lemma Aligned4K(x: int)
    ensures Align4K(x) % 0x1000 == 0 && x <= Align4K(x) < x + 0x1000
  {}

  lemma Aligned8(x: int)
    ensures x - 8 < Align8(x) <= x
  {}

  /** How many zones the first `count` entries make. */
  function ZoneCount(entries: seq<E820>, count: nat): nat
    requires count <= |entries|
  {
    if count == 0 then 0
    else ZoneCount(entries, count - 1) + if Usable(entries[count - 1]) then 1 else 0
  }

  function FinalLayout(entries: seq<E820>, endBrk: nat): Layout
    requires |entries| >= 1
  {
    LayoutOf(endBrk, PageCount(entries), ZoneCount(entries, |entries|))
  }

  /** i: the last page init_memory reserves for the kernel. */
  function LastReserved(entries: seq<E820>, endBrk: nat): int
    requires |entries| >= 1
  {
    (FinalLayout(entries, endBrk).end - PAGE_OFFSET) / PAGE_2M
  }

  /** What the kernel relies on: a well-formed map with a usable entry, and RAM under all
      that it reserves; page 0 alone may lie elsewhere. */
  ghost predicate Bootable(entries: seq<E820>, endBrk: nat) {
    && WellFormed(entries)
    && ZoneCount(entries, |entries|) >= 1
    && PAGE_OFFSET <= endBrk
    && FinalLayout(entries, endBrk).end < 0x1_0000_0000_0000_0000
    && forall n :: 1 <= n <= LastReserved(entries, endBrk) ==> Covered(entries, |entries|, n)
  }

  /** Every byte from the kernel's link base to end_of_struct, and so the kernel image, the
      bitmap, the page structs and the zone structs, lies in a reserved page. */
  lemma KernelLiesInReservedPages(entries: seq<E820>, endBrk: nat, x: nat)
    requires Bootable(entries, endBrk)
    requires PAGE_OFFSET <= x <= FinalLayout(entries, endBrk).end
    ensures 0 <= (x - PAGE_OFFSET) / PAGE_2M <= LastReserved(entries, endBrk)
  {}

  lemma {:induction false} ZoneCountBound(entries: seq<E820>, count: nat)
    requires count <= |entries|
    ensures ZoneCount(entries, count) <= count
  {
    if count != 0 {
      ZoneCountBound(entries, count - 1);
    }
  }
}
