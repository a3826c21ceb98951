/** Reference counts, attributes, zone counters and the bitmap of the physical page
    allocator, and what page_init and page_clean keep true between them. */
module PageAccounting {
  import opened Bits
  import opened Wrappers

  /** 1 << PAGE_2M_SHIFT */
  const PAGE_2M: nat := 0x20_0000

  /** PG_Referenced or PG_K_Share_To_U is among the flags. */
  predicate Shared(flags: Word) {
    And(flags, One(2)) != ZERO || And(flags, One(8)) != ZERO
  }

  datatype Page = Page(zone: Option<nat>, phyAddr: nat, attribute: Word, refCnt: int)

  /** page_free_cnt can fall below zero (RunSearch.EnoughIff); the field holds its residue. */
  datatype Zone = Zone(startAddr: nat, endAddr: nat, pageLen: nat, using: int, free: int, links: int)

  /** The bitmap bit by bit, the page structs and the zone structs. */
  datatype Memory = Memory(used: seq<bool>, pages: seq<Page>, zones: seq<Zone>)

  predicate Owned(m: Memory, p: int) {
    && 0 <= p < |m.pages|
    && m.pages[p].zone.Some?
    && m.pages[p].zone.value < |m.zones|
    && m.pages[p].phyAddr / PAGE_2M < |m.used|
  }

  function PageInit(m: Memory, p: nat, flags: Word): Memory
    requires Owned(m, p)
  {
    var page := m.pages[p];
    var bit := page.phyAddr / PAGE_2M;
    var z := page.zone.value;
    var zone := m.zones[z];
    if page.attribute == ZERO then
      Memory(m.used[bit := true],
             m.pages[p := page.(attribute := flags, refCnt := page.refCnt + 1)],
             m.zones[z := zone.(using := zone.using + 1, free := zone.free - 1, links := zone.links + 1)])
    else if Shared(page.attribute) || Shared(flags) then
      Memory(m.used,
             m.pages[p := page.(attribute := Or(page.attribute, flags), refCnt := page.refCnt + 1)],
             m.zones[z := zone.(links := zone.links + 1)])
    else
      Memory(m.used[bit := true],
             m.pages[p := page.(attribute := Or(page.attribute, flags))],
             m.zones)
  }

  function PageClean(m: Memory, p: nat): Memory
    requires Owned(m, p)
  {
    var page := m.pages[p];
    var bit := page.phyAddr / PAGE_2M;
    var z := page.zone.value;
    var zone := m.zones[z];
    if page.attribute == ZERO then
      m
    else if Shared(page.attribute) && page.refCnt - 1 != 0 then
      Memory(m.used,
             m.pages[p := page.(refCnt := page.refCnt - 1)],
             m.zones[z := zone.(links := zone.links - 1)])
    else
      Memory(if Shared(page.attribute) then m.used else m.used[bit := false],
             m.pages[p := page.(attribute := ZERO, refCnt := 0)],
             m.zones[z := zone.(using := zone.using - 1, free := zone.free + 1, links := zone.links - 1)])
  }

  // ----- the three views agree

  datatype Tallied = InUse | Links

  function Share(page: Page, z: nat, what: Tallied): int {
    if page.zone != Some(z) then 0
    else match what
         case InUse => if page.attribute == ZERO then 0 else 1
         case Links => page.refCnt
  }

  /** Over the pages whose zone_struct is zone z: how many are in use, or the sum of their ref_cnt. */
  function Tally(pages: seq<Page>, z: nat, what: Tallied): int {
    if pages == [] then 0
    else Tally(pages[..|pages| - 1], z, what) + Share(pages[|pages| - 1], z, what)
  }

  lemma {:induction false} TallyUpdate(pages: seq<Page>, p: nat, page: Page, z: nat, what: Tallied)
    requires p < |pages|
    ensures Tally(pages[p := page], z, what)
         == Tally(pages, z, what) - Share(pages[p], z, what) + Share(page, z, what)
  {
    var n := |pages| - 1;
    var pages' := pages[p := page];
    if p == n {
      assert pages'[..n] == pages[..n];
    } else {
      assert pages'[..n] == pages[..n][p := page];
      TallyUpdate(pages[..n], p, page, z, what);
    }
  }

  ghost predicate PageOk(m: Memory, p: nat)
    requires p < |m.pages| <= |m.used|
  {
    var page := m.pages[p];
    && (page.zone.Some? ==> page.zone.value < |m.zones| && page.phyAddr == p * PAGE_2M)
    && (page.attribute == ZERO <==> page.refCnt == 0)
    && page.refCnt >= 0
    && (page.refCnt >= 2 ==> Shared(page.attribute))
    && (page.attribute != ZERO ==> page.zone.Some? && m.used[p])
  }

  ghost predicate ZoneOk(m: Memory, z: nat)
    requires z < |m.zones|
  {
    var zone := m.zones[z];
    && zone.using == Tally(m.pages, z, InUse)
    && zone.links == Tally(m.pages, z, Links)
    && zone.using + zone.free == zone.pageLen
  }

  /** `cap` is the number of real bits of the bitmap: what follows it is not bitmap. */
  ghost predicate Consistent(m: Memory, cap: nat) {
    && |m.pages| <= cap <= |m.used|
    && (forall p :: 0 <= p < |m.pages| ==> PageOk(m, p))
    && (forall z :: 0 <= z < |m.zones| ==> ZoneOk(m, z))
    && (forall b :: 0 <= b < cap && !m.used[b] ==> Owned(m, b))
  }

  lemma OrIsNotZero(v: Word, w: Word)
    requires v != ZERO
    ensures Or(v, w) != ZERO
  {}

  lemma OrIsShared(v: Word, w: Word)
    ensures Shared(Or(v, w)) <==> Shared(v) || Shared(w)
  {}

  /** Replacing page p (same owner) and its zone keeps every zone's counters in step. */
  lemma ZonesStayOk(m: Memory, m': Memory, p: nat)
    requires Owned(m, p) && |m'.pages| == |m.pages| && |m'.zones| == |m.zones|
    requires forall z :: 0 <= z < |m.zones| ==> ZoneOk(m, z)
    requires m'.pages == m.pages[p := m'.pages[p]] && m'.pages[p].zone == m.pages[p].zone
    requires forall z :: 0 <= z < |m.zones| && z != m.pages[p].zone.value ==> m'.zones[z] == m.zones[z]
    requires var z := m.pages[p].zone.value;
      && m'.zones[z].pageLen == m.zones[z].pageLen
      && m'.zones[z].using - m.zones[z].using == Share(m'.pages[p], z, InUse) - Share(m.pages[p], z, InUse)
      && m'.zones[z].links - m.zones[z].links == Share(m'.pages[p], z, Links) - Share(m.pages[p], z, Links)
      && m'.zones[z].using + m'.zones[z].free == m.zones[z].using + m.zones[z].free
    ensures forall z :: 0 <= z < |m'.zones| ==> ZoneOk(m', z)
  {
    forall z | 0 <= z < |m'.zones|
      ensures ZoneOk(m', z)
    {
      TallyUpdate(m.pages, p, m'.pages[p], z, InUse);
      TallyUpdate(m.pages, p, m'.pages[p], z, Links);
      assert ZoneOk(m, z);
    }
  }

  lemma PageInitKeeps(m: Memory, cap: nat, p: nat, flags: Word)
    requires Consistent(m, cap) && Owned(m, p)
    requires flags != ZERO || m.pages[p].attribute != ZERO
    ensures Consistent(PageInit(m, p, flags), cap)
  {
    var m' := PageInit(m, p, flags);
    assert PageOk(m, p);
    if m.pages[p].attribute != ZERO {
      OrIsNotZero(m.pages[p].attribute, flags);
    }
    OrIsShared(m.pages[p].attribute, flags);
    ZonesStayOk(m, m', p);
    forall q | 0 <= q < |m'.pages|
      ensures PageOk(m', q)
    {
      assert PageOk(m, q);
    }
    forall b | 0 <= b < cap && !m'.used[b]
      ensures Owned(m', b)
    {
      assert Owned(m, b);
    }
  }

  lemma PageCleanKeeps(m: Memory, cap: nat, p: nat)
    requires Consistent(m, cap) && Owned(m, p)
    ensures Consistent(PageClean(m, p), cap)
  {
    var m' := PageClean(m, p);
    assert PageOk(m, p);
    ZonesStayOk(m, m', p);
    forall q | 0 <= q < |m'.pages|
      ensures PageOk(m', q)
    {
      assert PageOk(m, q);
    }
    forall b | 0 <= b < cap && !m'.used[b]
      ensures Owned(m', b)
    {
      assert b != p ==> Owned(m, b);
    }
  }
}
