/** From the map in memory to the pages that the first requests are given. */
module BootRequests {
  import opened Bits
  import opened Wrappers
  import opened PageAccounting
  import opened PageMarking
  import opened RunSearch
  import opened BootMap
  import opened BootState
  import opened PageAllocator
  import KernelProtection

  // ----- from the map in memory

  /** The 2 MiB of page n lie inside the entry, which is RAM. */
  predicate RamPage(entry: E820, n: nat) {
    entry.kind == 1 && entry.addr <= 0x20_0000 * n && 0x20_0000 * n + 0x20_0000 <= entry.addr + entry.len
  }

  /** Page n lies inside a RAM entry in front of the first invalid one. */
  ghost predicate RawRam(raw: seq<E820>, n: nat)
    requires |raw| > 32
  {
    exists a :: 0 <= a < 32 && ValidUpTo(raw, a) && RamPage(raw[a], n)
  }

  /** The copy loop takes `count` entries. */
  ghost predicate Takes(raw: seq<E820>, count: nat)
    requires |raw| > 32
  {
    1 <= count <= 32 && ValidUpTo(raw, count - 1) && (count < 32 ==> !ValidUpTo(raw, count))
  }

  ghost predicate BootsFrom(raw: seq<E820>, endBrk: nat) {
    |raw| > 32 && forall n: nat :: Takes(raw, n) ==> Bootable(raw[..n], endBrk)
  }

  lemma ValidBelow(raw: seq<E820>, a: nat, b: nat)
    requires a <= b < |raw| && ValidUpTo(raw, b)
    ensures ValidUpTo(raw, a)
  {}

  /** The copied map covers exactly that RAM. */
  lemma CopiedRam(raw: seq<E820>, count: nat, n: nat)
    requires |raw| > 32 && Takes(raw, count)
    ensures Covered(raw[..count], count, n) <==> RawRam(raw, n)
  {
    var entries := raw[..count];
    if a :| 0 <= a < count && Inside(entries[a], n) {
      ValidBelow(raw, a, count - 1);
      assert RamPage(raw[a], n);
    }
    if a :| 0 <= a < 32 && ValidUpTo(raw, a) && RamPage(raw[a], n) {
      if a >= count {
        ValidBelow(raw, count, a);
      }
      assert Inside(entries[a], n);
    }
  }

  // ----- the zones that a selector stands for

  /** A map entry at 4 GiB makes a zone there. */
  lemma {:induction false} ZoneAtFourGiB(entries: seq<E820>, count: nat, a: nat)
    requires a < count <= |entries|
    requires entries[a].kind == 1 && entries[a].addr == 0x1_0000_0000 && entries[a].len >= 0x20_0000
    ensures exists z :: 0 <= z < ZoneCount(entries, count) && ZonesOf(entries, count)[z].startAddr == 0x1_0000_0000
  {
    if a < count - 1 {
      ZoneAtFourGiB(entries, count - 1, a);
      var z :| 0 <= z < ZoneCount(entries, count - 1)
        && ZonesOf(entries, count - 1)[z].startAddr == 0x1_0000_0000;
      assert ZonesOf(entries, count)[z] == ZonesOf(entries, count - 1)[z];
    } else {
      assert ZonesOf(entries, count)[ZoneCount(entries, count) - 1] == NewZone(entries[a]);
    }
  }

  /** There is RAM from 4 GiB on, by a page at least. */
  ghost predicate RamAtFourGiB(entries: seq<E820>) {
    exists a :: 0 <= a < |entries|
      && entries[a].kind == 1 && entries[a].addr == 0x1_0000_0000 && entries[a].len >= 0x20_0000
  }

  lemma FourGiBZone(m: Memory, entries: seq<E820>, endBrk: nat)
    requires Bootable(entries, endBrk) && Booted(m, entries, endBrk) && RamAtFourGiB(entries)
    ensures exists z :: 0 <= z < |m.zones| && m.zones[z].startAddr == 0x1_0000_0000
  {
    var a :| 0 <= a < |entries|
      && entries[a].kind == 1 && entries[a].addr == 0x1_0000_0000 && entries[a].len >= 0x20_0000;
    ZoneAtFourGiB(entries, |entries|, a);
    var z :| 0 <= z < ZoneCount(entries, |entries|)
      && ZonesOf(entries, |entries|)[z].startAddr == 0x1_0000_0000;
    assert SameExtent(m.zones[z], ZonesOf(entries, |entries|)[z]);
  }

  /** init_memory as the kernel calls it. A bit of the bitmap is clear exactly for the pages
      inside a RAM entry in front of the first invalid one and above the kernel. */
  method BootFromMap(raw: seq<E820>, endBrk: nat) returns (a: Allocator, ghost count: nat)
    requires BootsFrom(raw, endBrk)
    ensures fresh(a) && fresh(a.bitsMap) && fresh(a.pages) && fresh(a.zones)
    ensures Takes(raw, count) && Bootable(raw[..count], endBrk) && a.Ready()
    ensures Booted(a.State(), raw[..count], endBrk)
    ensures Consistent(a.State(), 64 * Words(PageCount(raw[..count])))
    ensures forall b :: 0 <= b < 64 * Words(PageCount(raw[..count])) ==>
      (!a.State().used[b] <==> b > LastReserved(raw[..count], endBrk) && RawRam(raw, b))
    ensures a.gZoneDma == 0 && a.gZoneNormal == 0 && a.gZoneUnmapped < |a.State().zones|
    ensures RamAtFourGiB(raw[..count]) ==> a.State().zones[a.gZoneUnmapped].startAddr == 0x1_0000_0000
  {
    var entries := CopyMap(raw);
    count := |entries|;
    assert Takes(raw, count);
    a := new Allocator.InitMemory(entries, endBrk);
    forall b: nat
      ensures Covered(entries, |entries|, b) <==> RawRam(raw, b)
    {
      CopiedRam(raw, count, b);
    }
    if RamAtFourGiB(entries) {
      FourGiBZone(a.State(), entries, endBrk);
    }
  }

  /** The request finds nothing exactly if zones lo to hi have no hit. */
  lemma NullIff(m: Memory, lo: nat, hi: int, number: nat, flags: Word, m': Memory, r: Outcome)
    requires number <= 64 && Searchable(m) && Serves(m, lo, hi, number, flags, m', r)
    ensures r == NoRun <==> NoHit(m, lo, hi, number)
  {
    SearchFindsIff(m, lo, hi, number);
  }

  /** Boot and one request: the selectors 1 and 2 stand for zone 0, and 4 for the zones from 4
      GiB on, if there are any. `m` is the state between the two. */
  method BootAndRequest(raw: seq<E820>, endBrk: nat, zoneSelect: int, number: nat, flags: Word)
      returns (r: Outcome, ghost count: nat, ghost m: Memory, ghost m': Memory, ghost lo: nat, ghost hi: int)
    requires BootsFrom(raw, endBrk) && number <= 64
    ensures Takes(raw, count) && Booted(m, raw[..count], endBrk) && Searchable(m)
    ensures Serves(m, lo, hi, number, flags, m', r) && (r == NoRun <==> NoHit(m, lo, hi, number))
    ensures zoneSelect == 1 || zoneSelect == 2 ==> lo == 0 && hi == 0
    ensures zoneSelect == 4 ==> hi == |m.zones| - 1
    ensures zoneSelect == 4 && RamAtFourGiB(raw[..count]) ==>
      lo < |m.zones| && m.zones[lo].startAddr == 0x1_0000_0000
  {
    var a;
    a, count := BootFromMap(raw, endBrk);
    m := a.State();
    r, lo, hi := a.AllocPages(zoneSelect, number, flags);
    m' := a.State();
    NullIff(m, lo, hi, number, flags, m', r);
  }

  // ----- the first request above 4 GiB

  ghost predicate AllCovered(entries: seq<E820>, first: nat, number: nat) {
    forall n :: first <= n < first + number ==> Covered(entries, |entries|, n)
  }

  /** The zone at 4 GiB starts at page 2048, so its first hit is at bit 0 of a word, and the
      block starts a page before the zone. The first request to it gets page 2047 if there is
      RAM there, and otherwise runs into the page struct of no page. */
  lemma UnmappedRequestStraysIff(m: Memory, entries: seq<E820>, endBrk: nat, z: nat, hi: int, number: nat)
    requires Bootable(entries, endBrk) && Booted(m, entries, endBrk) && Searchable(m)
    requires LastReserved(entries, endBrk) < 2047 && 1 <= number <= 64
    requires z < |m.zones| && z <= hi && m.zones[z].startAddr == 0x1_0000_0000 && Enough(m.zones[z], number)
    requires AllCovered(entries, 2048, number) && AllCovered(entries, 2112, number)
    ensures var r := OutcomeOf(m, z, hi, number);
      r == if Covered(entries, |entries|, 2047) then Found(2047) else Stray(2047)
  {
    ZoneReaches(m, entries, endBrk, z);
    FirstBitsAreClear(m, entries, endBrk, number);
    assert Hit(m, number, z, 2048, 0);
    FirstHitIsUnique(m, z, hi, number, z, 2048, 0);
    OwnedAround(m, entries, endBrk, number);
    OwnedPrefixIs(m, 2047, number, if Covered(entries, |entries|, 2047) then number else 0);
  }

  lemma FirstBitsAreClear(m: Memory, entries: seq<E820>, endBrk: nat, number: nat)
    requires Bootable(entries, endBrk) && Booted(m, entries, endBrk)
    requires LastReserved(entries, endBrk) < 2047 && 1 <= number <= 64 && |m.used| >= 2176
    requires AllCovered(entries, 2048, number) && AllCovered(entries, 2112, number)
    ensures Clear(m.used, 32, 0, number)
  {
    forall t | 0 <= t < number
      ensures !Taken(m.used, 32, 0, t)
    {
      FreeAboveKernel(m, entries, endBrk, 2048 + t);
      FreeAboveKernel(m, entries, endBrk, 2112 + t);
    }
  }

  lemma FreeAboveKernel(m: Memory, entries: seq<E820>, endBrk: nat, n: nat)
    requires Bootable(entries, endBrk) && Booted(m, entries, endBrk)
    requires Covered(entries, |entries|, n) && n > LastReserved(entries, endBrk)
    ensures n < |m.used| && !m.used[n]
  {
    BitsLenCovers(|m.pages|);
    CoveredIsBelowTop(entries, n);
  }

  lemma ZoneReaches(m: Memory, entries: seq<E820>, endBrk: nat, z: nat)
    requires Bootable(entries, endBrk) && Booted(m, entries, endBrk)
    requires z < |m.zones| && m.zones[z].startAddr == 0x1_0000_0000
    ensures StartPage(m.zones[z]) == 2048 <= EndPage(m.zones[z])
  {
    assert SameExtent(m.zones[z], ZonesOf(entries, |entries|)[z]);
    KernelProtection.FirstZoneIsLowest(entries, |entries|, z);
    ZoneIsNotEmpty(entries, |entries|, z);
  }

  lemma {:induction false} ZoneIsNotEmpty(entries: seq<E820>, count: nat, z: nat)
    requires count <= |entries| && z < ZoneCount(entries, count)
    ensures ZonesOf(entries, count)[z].startAddr < ZonesOf(entries, count)[z].endAddr
  {
    if z < ZoneCount(entries, count - 1) {
      ZoneIsNotEmpty(entries, count - 1, z);
    }
  }

  lemma OwnedAround(m: Memory, entries: seq<E820>, endBrk: nat, number: nat)
    requires Bootable(entries, endBrk) && Booted(m, entries, endBrk) && 1 <= number <= 64
    requires AllCovered(entries, 2048, number)
    ensures Owned(m, 2047) <==> Covered(entries, |entries|, 2047)
    ensures Covered(entries, |entries|, 2047) ==> AllOwned(m, 2047, number)
  {
    assert Covered(entries, |entries|, 2048);
    CoveredIsBelowTop(entries, 2048);
    forall p | 2047 <= p < 2047 + number && Covered(entries, |entries|, 2047)
      ensures Owned(m, p)
    {
      assert Covered(entries, |entries|, p);
      CoveredIsBelowTop(entries, p);
    }
  }
}
