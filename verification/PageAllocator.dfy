/** The allocator as the kernel runs it: bitmap words, page structs and zone structs in
    arrays that are updated in place. */
module PageAllocator {
  import opened MachineWords
  import opened Bits
  import opened Wrappers
  import opened PageAccounting
  import opened PageMarking
  import opened RunSearch
  import opened BootMap
  import opened BootState

  const ZONE_DMA: int := 1
  const ZONE_NORMAL: int := 2
  const ZONE_UNMAPPED: int := 4
  const FOUR_GIB: nat := 0x1_0000_0000

  /** What alloc_pages does with a run: it hands out pages_struct + page, or it finds no
      run, or it calls page_init on a page struct that is outside the array or belongs to
      no zone (where the C program would follow a wild pointer). */
  datatype Outcome = Found(page: int) | NoRun | Stray(page: int)

  ghost function OutcomeOf(m: Memory, lo: nat, hi: int, number: nat): Outcome
    requires number <= 64 && Searchable(m)
  {
    match Search(m, lo, hi, number)
    case None => NoRun
    case Some(spot) =>
      var first := Block(spot.j, spot.k);
      var done := OwnedPrefix(m, first, number);
      if done == number then Found(first) else Stray(first + done)
  }

  /** NULL means that every position of every zone with enough pages fails. */
  lemma NothingFound(m: Memory, lo: nat, hi: int, number: nat, flags: Word)
    requires number <= 64 && Searchable(m) && NoHit(m, lo, hi, number)
    ensures Allocated(m, lo, hi, number, flags) == m && OutcomeOf(m, lo, hi, number) == NoRun
  {}

  lemma AllocatedAt(m: Memory, lo: nat, hi: int, number: nat, spot: Spot, flags: Word)
    requires number <= 64 && Searchable(m) && FirstHit(m, lo, hi, number, spot.zone, spot.j, spot.k)
    ensures var first, done := Block(spot.j, spot.k), OwnedPrefix(m, Block(spot.j, spot.k), number);
      && Allocated(m, lo, hi, number, flags) == InitAll(m, first, done, flags)
      && OutcomeOf(m, lo, hi, number) == (if done == number then Found(first) else Stray(first + done))
      && Searchable(InitAll(m, first, done, flags))
  {
    FirstHitIsUnique(m, lo, hi, number, spot.zone, spot.j, spot.k);
    MarkingKeepsSearch(m, Block(spot.j, spot.k), OwnedPrefix(m, Block(spot.j, spot.k), number), flags);
  }

  /** The request takes the first hit over zones lo to hi. */
  ghost predicate Serves(m: Memory, lo: nat, hi: int, number: nat, flags: Word, m': Memory, r: Outcome)
    requires number <= 64 && Searchable(m)
  {
    m' == Allocated(m, lo, hi, number, flags) && r == OutcomeOf(m, lo, hi, number)
  }

  class Allocator {
    var bitsMap: array<Word>
    var pages: array<Page>
    var zones: array<Zone>
    var zonesSize: nat
    var gZoneDma: nat
    var gZoneNormal: nat
    var gZoneUnmapped: nat
    ghost var used: seq<bool>

    ghost predicate Valid()
      reads this, bitsMap
    {
      && Reads(bitsMap[..], used)
      && zonesSize <= zones.Length
    }

    ghost function State(): Memory
      reads this, pages, zones
      requires zonesSize <= zones.Length
    {
      Memory(used, pages[..], zones[..zonesSize])
    }

    /** bits_map[n >> 6] := w, where w differs from it in bit n % 64 alone */
    method PutWord(n: nat, w: Word)
      requires Valid() && n < |used|
      requires forall c :: 0 <= c < 64 && c != n % 64 ==> w[c] == bitsMap[n / 64][c]
      modifies this`used, bitsMap
      ensures Valid() && State() == old(State()).(used := old(used)[n := w[n % 64]])
    {
      UpdateBit(bitsMap[..], used, n, w, w[n % 64]);
      bitsMap[n / 64] := w;
      used := used[n := w[n % 64]];
    }

    /** bits_map[n >> 6] |= 1UL << n % 64 */
    method SetBit(n: nat)
      requires Valid() && n < |used|
      modifies this`used, bitsMap
      ensures Valid() && State() == old(State()).(used := old(used)[n := true])
    {
      PutWord(n, Or(bitsMap[n / 64], One(n % 64)));
    }

    /** bits_map[n >> 6] &= ~(1UL << n % 64) */
    method ClearBit(n: nat)
      requires Valid() && n < |used|
      modifies this`used, bitsMap
      ensures Valid() && State() == old(State()).(used := old(used)[n := false])
    {
      PutWord(n, And(bitsMap[n / 64], Not(One(n % 64))));
    }

    /** bits_map[n >> 6] ^= 1UL << n % 64 */
    method FlipBit(n: nat)
      requires Valid() && n < |used|
      modifies this`used, bitsMap
      ensures Valid() && State() == old(State()).(used := old(used)[n := !old(used)[n]])
    {
      PutWord(n, Xor(bitsMap[n / 64], One(n % 64)));
      assert BitAt(old(bitsMap[..]), n) == old(used)[n];
    }

    method PutPage(p: nat, page: Page)
      requires Valid() && p < pages.Length
      modifies pages
      ensures Valid() && State() == old(State()).(pages := old(State()).pages[p := page])
    {
      pages[p] := page;
    }

    method PutZone(z: nat, zone: Zone)
      requires Valid() && z < zonesSize
      modifies zones
      ensures Valid() && State() == old(State()).(zones := old(State()).zones[z := zone])
    {
      zones[z] := zone;
    }

    method PageInit(p: nat, flags: Word)
      requires Valid() && Owned(State(), p)
      modifies this`used, bitsMap, pages, zones
      ensures Valid() && State() == PageAccounting.PageInit(old(State()), p, flags)
    {
      var page := pages[p];
      var n, z := page.phyAddr / PAGE_2M, page.zone.value;
      var zone := zones[z];
      ghost var m := State();
      assert page == m.pages[p] && zone == m.zones[z];
      if page.attribute == ZERO {
        SetBit(n);
        PutPage(p, page.(attribute := flags, refCnt := page.refCnt + 1));
        PutZone(z, zone.(using := zone.using + 1, free := zone.free - 1, links := zone.links + 1));
      } else if Shared(page.attribute) || Shared(flags) {
        PutPage(p, page.(attribute := Or(page.attribute, flags), refCnt := page.refCnt + 1));
        PutZone(z, zone.(links := zone.links + 1));
      } else {
        SetBit(n);
        PutPage(p, page.(attribute := Or(page.attribute, flags)));
      }
    }

    method PageClean(p: nat)
      requires Valid() && Owned(State(), p)
      modifies this`used, bitsMap, pages, zones
      ensures Valid() && State() == PageAccounting.PageClean(old(State()), p)
    {
      var page := pages[p];
      var n, z := page.phyAddr / PAGE_2M, page.zone.value;
      var zone := zones[z];
      ghost var m := State();
      assert page == m.pages[p] && zone == m.zones[z];
      if page.attribute == ZERO {
        PutPage(p, page.(attribute := ZERO));
        assert m.pages[p := page] == m.pages;
      } else if Shared(page.attribute) {
        page, zone := page.(refCnt := page.refCnt - 1), zone.(links := zone.links - 1);
        if page.refCnt == 0 {
          page, zone := page.(attribute := ZERO), zone.(using := zone.using - 1, free := zone.free + 1);
        }
        PutPage(p, page);
        PutZone(z, zone);
        assert State() == Memory(m.used, m.pages[p := page], m.zones[z := zone]);
      } else {
        ClearBit(n);
        PutPage(p, page.(attribute := ZERO, refCnt := 0));
        PutZone(z, zone.(using := zone.using - 1, free := zone.free + 1, links := zone.links - 1));
      }
    }

    /** The loop over k at one j. */
    method ScanWord(j: nat, number: nat) returns (k: Option<nat>)
      requires Valid() && 64 * (j / 64) + 128 <= |used| && number <= 64
      ensures k.Some? ==>
        && j % 64 <= k.value < 64 - j % 64
        && Clear(used, j / 64, k.value, number)
        && forall k' :: j % 64 <= k' < k.value ==> !Clear(used, j / 64, k', number)
      ensures k.None? ==> forall k' :: j % 64 <= k' < 64 - j % 64 ==> !Clear(used, j / 64, k', number)
    {
      var w := j / 64;
      var shift := j % 64;
      var b := shift;
      while b < 64 - shift
        invariant shift <= b
        invariant forall k' :: shift <= k' < b && k' < 64 - shift ==> !Clear(used, w, k', number)
      {
        TestIsClear(bitsMap[..], used, w, b, number);
        if And(Funnel(bitsMap[w], bitsMap[w + 1], b), Mask(number)) == ZERO {
          return Some(b);
        }
        b := b + 1;
      }
      return None;
    }

    /** The loop over j in zone i, which has enough free pages. */
    method ScanZone(i: nat, number: nat) returns (spot: Option<Spot>)
      requires Valid() && Searchable(State()) && number <= 64
      requires i < zonesSize && Enough(zones[i], number)
      ensures spot.Some? ==>
        && spot.value.zone == i
        && Hit(State(), number, i, spot.value.j, spot.value.k)
        && forall j', k' :: Earlier(i, j', k', i, spot.value.j, spot.value.k) ==> !Hit(State(), number, i, j', k')
      ensures spot.None? ==> forall j', k' :: !Hit(State(), number, i, j', k')
    {
      var start, end := StartPage(zones[i]), EndPage(zones[i]);
      var tmp := 64 - start % 64;
      var j := start;
      while j <= end
        invariant j == start || (j % 64 == 0 && start < j)
        invariant forall j', k' :: j' < j ==> !Hit(State(), number, i, j', k')
      {
        var k := ScanWord(j, number);
        if k.Some? {
          return Some(Spot(i, j, k.value));
        }
        var step := if j % 64 != 0 then tmp else 64;
        forall j', k' | j' < j + step
          ensures !Hit(State(), number, i, j', k')
        {
          NoPositionBetween(start, j, j');
        }
        j := j + step;
      }
      return None;
    }

    /** zone_start and zone_end; an unknown selector is reported and zone 0 is searched. */
    method SelectZones(zoneSelect: int) returns (zoneStart: nat, zoneEnd: int)
      ensures zoneSelect == 1 ==> zoneStart == 0 && zoneEnd == gZoneDma
      ensures zoneSelect == 2 ==> zoneStart == gZoneDma && zoneEnd == gZoneNormal
      ensures zoneSelect == 4 ==> zoneStart == gZoneUnmapped && zoneEnd == zonesSize - 1
      ensures zoneSelect !in {1, 2, 4} ==> zoneStart == 0 && zoneEnd == 0
    {
      zoneStart, zoneEnd := 0, 0;
      if zoneSelect == ZONE_DMA {
        zoneEnd := gZoneDma;
      } else if zoneSelect == ZONE_NORMAL {
        zoneStart, zoneEnd := gZoneDma, gZoneNormal;
      } else if zoneSelect == ZONE_UNMAPPED {
        zoneStart, zoneEnd := gZoneUnmapped, zonesSize - 1;
      }
    }

    ghost predicate Ready()
      reads this, bitsMap, pages, zones
    {
      && Valid()
      && Searchable(State())
      && gZoneDma < zonesSize && gZoneNormal < zonesSize
    }

    /** The loop over i. */
    method FindRun(zoneStart: nat, zoneEnd: int, number: nat) returns (spot: Option<Spot>)
      requires Ready() && number <= 64 && zoneEnd < zonesSize
      ensures spot.Some? ==>
        FirstHit(State(), zoneStart, zoneEnd, number, spot.value.zone, spot.value.j, spot.value.k)
      ensures spot.None? ==> NoHit(State(), zoneStart, zoneEnd, number)
    {
      var i := zoneStart;
      while i <= zoneEnd
        invariant zoneStart <= i
        invariant forall i', j', k' :: zoneStart <= i' < i ==> !Hit(State(), number, i', j', k')
      {
        if Enough(zones[i], number) {
          spot := ScanZone(i, number);
          if spot.Some? {
            return;
          }
        }
        i := i + 1;
      }
      return None;
    }

    /** The marking loop; it stops short at a page struct that is not owned. */
    method InitPages(page: int, number: nat, pageFlags: Word) returns (done: nat)
      requires Valid()
      modifies this`used, bitsMap, pages, zones
      ensures Valid() && done == OwnedPrefix(old(State()), page, number)
      ensures State() == InitAll(old(State()), page, done, pageFlags)
    {
      ghost var m := State();
      done := 0;
      while done < number
        invariant done <= number && Valid()
        invariant AllOwned(m, page, done)
        invariant State() == InitAll(m, page, done, pageFlags)
      {
        var x := page + done;
        OneMorePage(m, State(), page, done, pageFlags);
        if !(0 <= x < pages.Length && pages[x].zone.Some? && pages[x].zone.value < zonesSize
             && pages[x].phyAddr / PAGE_2M < 64 * bitsMap.Length) {
          OwnedPrefixIs(m, page, number, done);
          return;
        }
        PageInit(x, pageFlags);
        done := done + 1;
      }
      OwnedPrefixIs(m, page, number, done);
    }

    /** alloc_pages makes the step of PageRuns over the zones of its selector, lo to hi: NULL
        exactly if the search finds nothing, and otherwise the block at the first hit, as far as
        its pages are owned. */
    method AllocPages(zoneSelect: int, number: nat, pageFlags: Word) returns (r: Outcome, ghost lo: nat, ghost hi: int)
      requires Ready() && number <= 64
      modifies this`used, bitsMap, pages, zones
      ensures Ready() && Serves(old(State()), lo, hi, number, pageFlags, State(), r)
      ensures zoneSelect == 1 ==> lo == 0 && hi == gZoneDma
      ensures zoneSelect == 2 ==> lo == gZoneDma && hi == gZoneNormal
      ensures zoneSelect == 4 ==> lo == gZoneUnmapped && hi == zonesSize - 1
      ensures zoneSelect !in {1, 2, 4} ==> lo == 0 && hi == 0
    {
      var zoneStart, zoneEnd := SelectZones(zoneSelect);
      r := AllocFrom(zoneStart, zoneEnd, number, pageFlags);
      lo, hi := zoneStart, zoneEnd;
    }

    /** The search and the marking loop. */
    method AllocFrom(zoneStart: nat, zoneEnd: int, number: nat, pageFlags: Word) returns (r: Outcome)
      requires Ready() && number <= 64 && zoneEnd < zonesSize
      modifies this`used, bitsMap, pages, zones
      ensures Ready() && Serves(old(State()), zoneStart, zoneEnd, number, pageFlags, State(), r)
    {
      ghost var m := State();
      var spot := FindRun(zoneStart, zoneEnd, number);
      if spot.None? {
        NothingFound(m, zoneStart, zoneEnd, number, pageFlags);
        return NoRun;
      }
      AllocatedAt(m, zoneStart, zoneEnd, number, spot.value, pageFlags);
      var page := spot.value.j + spot.value.k - 1;
      assert page == Block(spot.value.j, spot.value.k);
      var done := InitPages(page, number, pageFlags);
      assert State() == Allocated(m, zoneStart, zoneEnd, number, pageFlags);
      r := if done == number then Found(page) else Stray(page + done);
    }

    // ----- init_memory

    /** One turn of the zone loop for a usable entry: the zone struct, its page structs, and
        one flip of each page's bit. */
    method AddZone(entry: E820)
      requires Valid() && Usable(entry) && EndOf(entry) <= pages.Length <= |used|
      requires zonesSize < zones.Length
      modifies this`used, this`zonesSize, bitsMap, pages, zones
      ensures Valid() && zonesSize == old(zonesSize) + 1
      ensures ZoneAdded(old(State()), State(), entry)
    {
      var start, end := FirstPage(entry), EndOf(entry);
      ghost var m := State();
      var z := zonesSize;
      zones[z] := Zone(start * PAGE_2M, end * PAGE_2M, end - start, 0, end - start, 0);
      zonesSize := zonesSize + 1;
      assert State().zones == m.zones + [NewZone(entry)];
      var j := 0;
      while j < end - start
        invariant 0 <= j <= end - start && Valid() && zonesSize == z + 1
        invariant Freed(m, State(), start, j, z)
        invariant State().zones == m.zones + [NewZone(entry)]
      {
        var p := start + j;
        ghost var before := State();
        PutPage(p, Page(Some(z), p * PAGE_2M, ZERO, 0));
        FlipBit(p);
        FreedStep(m, before, State(), start, j, z);
        j := j + 1;
      }
    }

    /** The bitmap set to ones, the page structs to zero, and room for the zones. The two
        words after the bitmap hold whatever memory held. */
    method ClearStructs(entries: seq<E820>)
      requires WellFormed(entries)
      modifies this
      ensures Valid() && fresh(bitsMap) && fresh(pages) && fresh(zones)
      ensures zonesSize == 0 && zones.Length == |entries|
      ensures |used| == 64 * Words(PageCount(entries)) + 128 && pages.Length == PageCount(entries)
      ensures Built(State(), entries, 0)
      ensures gZoneDma == old(gZoneDma) && gZoneNormal == old(gZoneNormal) && gZoneUnmapped == old(gZoneUnmapped)
    {
      var n := PageCount(entries);
      bitsMap := new Word[Words(n) + 2];
      forall w | 0 <= w < Words(n) {
        bitsMap[w] := ONES;
      }
      pages := new Page[n](_ => NO_PAGE);
      zones := new Zone[|entries|];
      zonesSize := 0;
      ghost var words := bitsMap[..];
      used := seq(64 * |words|, b requires 0 <= b < 64 * |words| => BitAt(words, b));
    }

    /** The loop over the map. */
    method BuildZones(entries: seq<E820>)
      requires WellFormed(entries)
      requires Valid() && Built(State(), entries, 0)
      requires zones.Length == |entries| && pages.Length == PageCount(entries)
      requires |used| == 64 * Words(PageCount(entries)) + 128
      modifies this`used, this`zonesSize, bitsMap, pages, zones
      ensures Valid() && Built(State(), entries, |entries|)
      ensures |used| == old(|used|)
    {
      var i := 0;
      while i < |entries|
        invariant 0 <= i <= |entries| && Valid() && |used| == old(|used|)
        invariant Built(State(), entries, i)
      {
        i := BuildZone(entries, i);
      }
    }

    method BuildZone(entries: seq<E820>, i: nat) returns (next: nat)
      requires WellFormed(entries) && i < |entries|
      requires Valid() && Built(State(), entries, i)
      requires zones.Length == |entries| && pages.Length == PageCount(entries)
      requires |used| == 64 * Words(PageCount(entries)) + 128
      modifies this`used, this`zonesSize, bitsMap, pages, zones
      ensures Valid() && Built(State(), entries, i + 1) && next == i + 1
      ensures |used| == old(|used|)
    {
      ghost var before := State();
      if Usable(entries[i]) {
        ZoneCountBound(entries, i);
        BitsLenCovers(PageCount(entries));
        EntriesEndBelowTop(entries, i);
        AddZone(entries[i]);
        BuiltNext(before, State(), entries, i);
      } else {
        BuiltSkip(before, entries, i);
      }
      next := i + 1;
    }

    /** The search for the zone that starts at 4 GiB. */
    method FindUnmappedZone()
      requires Valid() && gZoneUnmapped < zonesSize
      modifies this`gZoneUnmapped
      ensures gZoneUnmapped < zonesSize
      ensures (exists z :: 0 <= z < zonesSize && zones[z].startAddr == FOUR_GIB)
          ==> zones[gZoneUnmapped].startAddr == FOUR_GIB
    {
      var i := 0;
      while i < zonesSize
        invariant 0 <= i <= zonesSize && gZoneUnmapped < zonesSize
        invariant (exists z :: 0 <= z < i && zones[z].startAddr == FOUR_GIB)
              ==> zones[gZoneUnmapped].startAddr == FOUR_GIB
      {
        if zones[i].startAddr == FOUR_GIB {
          gZoneUnmapped := i;
        }
        i := i + 1;
      }
    }

    /** Page 0's struct, and page_init on every page up to the end of the metadata. */
    method Reserve(entries: seq<E820>, endBrk: nat)
      requires |entries| >= 1 && LastReserved(entries, endBrk) >= 0
      requires Valid() && pages.Length == PageCount(entries) >= 1 && zonesSize == ZoneCount(entries, |entries|)
      requires AllOwned(WithPageZero(State()), 0, LastReserved(entries, endBrk) + 1)
      modifies this`used, bitsMap, pages, zones
      ensures Valid()
      ensures State() == InitAll(WithPageZero(old(State())), 0, LastReserved(entries, endBrk) + 1, KernelFlags())
    {
      ghost var m := State();
      PutPage(0, FreePage(0, 0));
      assert State() == WithPageZero(m);
      var layout := LayoutOf(endBrk, pages.Length, zonesSize);
      var last := (layout.end - PAGE_OFFSET) / PAGE_2M;
      OwnedPrefixIs(WithPageZero(m), 0, last + 1, last + 1);
      var done := InitPages(0, last + 1, KernelFlags());
    }

    method FinishBoot(entries: seq<E820>, endBrk: nat)
      requires Bootable(entries, endBrk)
      requires Valid() && Built(State(), entries, |entries|)
      requires pages.Length == PageCount(entries) && 64 * Words(PageCount(entries)) <= |used|
      modifies this`used, bitsMap, pages, zones
      ensures Valid() && |used| == old(|used|)
      ensures Booted(State(), entries, endBrk)
      ensures Consistent(State(), 64 * Words(PageCount(entries)))
    {
      ghost var m := State();
      BootableHasPages(entries, endBrk);
      ReservationCompletesBoot(m, entries, endBrk);
      Reserve(entries, endBrk);
      assert |State().used| == |WithPageZero(m).used|;
    }

    /** init_memory, from the copied E820 map and the end of the kernel image. */
    constructor InitMemory(entries: seq<E820>, endBrk: nat)
      requires Bootable(entries, endBrk)
      ensures fresh(bitsMap) && fresh(pages) && fresh(zones)
      ensures Ready() && gZoneDma == 0 && gZoneNormal == 0 && gZoneUnmapped < zonesSize
      ensures (exists z :: 0 <= z < |State().zones| && State().zones[z].startAddr == 0x1_0000_0000)
          ==> State().zones[gZoneUnmapped].startAddr == 0x1_0000_0000
      ensures Booted(State(), entries, endBrk) && |State().used| == 64 * Words(PageCount(entries)) + 128
      ensures Consistent(State(), 64 * Words(PageCount(entries)))
    {
      gZoneDma, gZoneNormal, gZoneUnmapped := 0, 0, 0;
      new;
      ClearStructs(entries);
      BuildZones(entries);
      assert |State().zones| == ZoneCount(entries, |entries|);
      FindUnmappedZone();
      FinishBoot(entries, endBrk);
      BootedIsSearchable(State(), entries, endBrk);
    }
  }

  lemma FreedStep(m: Memory, m1: Memory, m2: Memory, first: nat, count: nat, z: nat)
    requires Freed(m, m1, first, count, z)
    requires first + count < |m.pages| <= |m.used|
    requires m2.pages == m1.pages[first + count := FreePage(first + count, z)]
    requires m2.used == m1.used[first + count := !m1.used[first + count]]
    ensures Freed(m, m2, first, count + 1, z)
  {}

  lemma BootedIsSearchable(m: Memory, entries: seq<E820>, endBrk: nat)
    requires Bootable(entries, endBrk) && Booted(m, entries, endBrk)
    requires |m.used| == 64 * Words(PageCount(entries)) + 128
    ensures Searchable(m)
  {
    BitsLenCovers(PageCount(entries));
    forall i | 0 <= i < |m.zones|
      ensures EndPage(m.zones[i]) <= PageCount(entries)
    {
      assert SameExtent(m.zones[i], ZonesOf(entries, |entries|)[i]);
    }
  }

  lemma OneMorePage(m: Memory, m': Memory, page: int, done: nat, flags: Word)
    requires AllOwned(m, page, done) && m' == InitAll(m, page, done, flags)
    ensures Owned(m', page + done) <==> Owned(m, page + done)
    ensures Owned(m, page + done) ==> AllOwned(m, page, done + 1)
    ensures Owned(m, page + done) ==>
      PageAccounting.PageInit(m', page + done, flags) == InitAll(m, page, done + 1, flags)
  {}

  /** After start the next position is the next multiple of 64, and so on. */
  lemma NoPositionBetween(start: nat, j: nat, j': nat)
    requires j == start || (j % 64 == 0 && start < j)
    ensures j < j' < j + (if j % 64 != 0 then 64 - start % 64 else 64) ==> j' % 64 != 0
    ensures var step := if j % 64 != 0 then 64 - start % 64 else 64; (j + step) % 64 == 0
  {}
}
