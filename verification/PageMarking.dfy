/** The marking loop of alloc_pages, and what one call of page_init or page_clean leaves alone. */
module PageMarking {
  import opened Bits
  import opened PageAccounting

  /** The accounting stands or falls with the flags: initialising an unused page with no
      flags leaves attribute 0 beside ref_cnt 1. */
  lemma PageInitKeepsIff(m: Memory, cap: nat, p: nat, flags: Word)
    requires Consistent(m, cap) && Owned(m, p)
    ensures Consistent(PageInit(m, p, flags), cap) <==> flags != ZERO || m.pages[p].attribute != ZERO
  {
    if flags != ZERO || m.pages[p].attribute != ZERO {
      PageInitKeeps(m, cap, p, flags);
    } else {
      assert PageOk(m, p);
      assert !PageOk(PageInit(m, p, flags), p);
    }
  }

  /** page_clean takes exactly one link off a page in use, and takes the page out of use
      exactly when that was its only link. */
  lemma CleanSubtractsOneLink(m: Memory, cap: nat, p: nat)
    requires Consistent(m, cap) && Owned(m, p) && m.pages[p].attribute != ZERO
    ensures var m' := PageClean(m, p);
      && m'.pages[p].refCnt == m.pages[p].refCnt - 1
      && (m'.pages[p].attribute == ZERO <==> m.pages[p].refCnt == 1)
  {
    assert PageOk(m, p);
  }

  // ----- what one operation leaves alone

  lemma OperationsAreLocal(m: Memory, cap: nat, p: nat, flags: Word, q: nat)
    requires Consistent(m, cap) && Owned(m, p) && q != p
    ensures q < |m.used| ==> PageInit(m, p, flags).used[q] == m.used[q] == PageClean(m, p).used[q]
    ensures q < |m.pages| ==> PageInit(m, p, flags).pages[q] == m.pages[q] == PageClean(m, p).pages[q]
    ensures q < |m.zones| && m.pages[p].zone.value != q
        ==> PageInit(m, p, flags).zones[q] == m.zones[q] == PageClean(m, p).zones[q]
  {
    assert PageOk(m, p);
  }

  // ----- links, by the bits of the flags

  /** page_init of a page in use adds a link if and only if bit 2 or bit 8 is set in its
      attribute or in the flags. */
  lemma LinkIsAddedIff(m: Memory, p: nat, flags: Word)
    requires Owned(m, p) && m.pages[p].attribute != ZERO
    ensures var attribute := m.pages[p].attribute;
      PageInit(m, p, flags).pages[p].refCnt
      == m.pages[p].refCnt + if attribute[2] || attribute[8] || flags[2] || flags[8] then 1 else 0
  {
    SharedIff(m.pages[p].attribute);
    SharedIff(flags);
  }

  lemma SharedIff(flags: Word)
    ensures Shared(flags) <==> flags[2] || flags[8]
  {
    assert And(flags, One(2))[2] == flags[2] && And(flags, One(8))[8] == flags[8];
    assert !flags[2] ==> And(flags, One(2)) == ZERO;
    assert !flags[8] ==> And(flags, One(8)) == ZERO;
  }

  /** With neither bit in the flags, page_clean gives back the state before the free page was
      allocated: bitmap, page structs and zone counters. */
  lemma CleanUndoesInit(m: Memory, cap: nat, p: nat, flags: Word)
    requires Consistent(m, cap) && Owned(m, p) && !m.used[p]
    requires flags != ZERO && !flags[2] && !flags[8]
    ensures var m' := PageInit(m, p, flags); Owned(m', p) && PageClean(m', p) == m
  {
    SharedIff(flags);
    assert PageOk(m, p);
    var m' := PageInit(m, p, flags);
    assert PageClean(m', p).pages == m.pages && PageClean(m', p).zones == m.zones;
  }

  /** n calls of page_init */
  function Inits(m: Memory, p: nat, flags: Word, n: nat): (m': Memory)
    requires Owned(m, p)
    ensures Owned(m', p)
    decreases n
  {
    if n == 0 then m else PageInit(Inits(m, p, flags, n - 1), p, flags)
  }

  /** n calls of page_clean */
  function Cleans(m: Memory, p: nat, n: nat): (m': Memory)
    requires Owned(m, p)
    ensures Owned(m', p)
    decreases n
  {
    if n == 0 then m else Cleans(PageClean(m, p), p, n - 1)
  }

  /** An unused page p of m with n links and these flags. */
  function WithLinks(m: Memory, p: nat, flags: Word, n: nat): Memory
    requires Owned(m, p) && p < |m.used|
  {
    var page, z := m.pages[p], m.pages[p].zone.value;
    var zone := m.zones[z];
    Memory(m.used[p := true],
           m.pages[p := page.(attribute := if n == 0 then ZERO else flags, refCnt := n)],
           m.zones[z := if n == 0 then zone
                        else zone.(using := zone.using + 1, free := zone.free - 1, links := zone.links + n)])
  }

  lemma {:induction false} InitsLink(m: Memory, cap: nat, p: nat, flags: Word, n: nat)
    requires Consistent(m, cap) && Owned(m, p) && m.pages[p].attribute == ZERO
    requires flags[2] || flags[8]
    ensures n != 0 ==> Inits(m, p, flags, n) == WithLinks(m, p, flags, n)
  {
    assert PageOk(m, p);
    SharedIff(flags);
    ZeroIsNotShared();
    assert Or(flags, flags) == flags;
    if n != 0 {
      InitsLink(m, cap, p, flags, n - 1);
    }
  }

  lemma CleanUnlinks(m: Memory, cap: nat, p: nat, flags: Word, n: nat)
    requires Consistent(m, cap) && Owned(m, p) && m.pages[p].attribute == ZERO
    requires (flags[2] || flags[8]) && n != 0
    ensures Owned(WithLinks(m, p, flags, n), p)
    ensures PageClean(WithLinks(m, p, flags, n), p) == WithLinks(m, p, flags, n - 1)
  {
    assert PageOk(m, p);
    SharedIff(flags);
    ZeroIsNotShared();
  }

  lemma {:induction false} CleansUnlink(m: Memory, cap: nat, p: nat, flags: Word, n: nat)
    requires Consistent(m, cap) && Owned(m, p) && m.pages[p].attribute == ZERO
    requires flags[2] || flags[8]
    ensures Owned(WithLinks(m, p, flags, n), p)
    ensures Cleans(WithLinks(m, p, flags, n), p, n) == WithLinks(m, p, flags, 0)
  {
    assert PageOk(m, p);
    if n != 0 {
      CleanUnlinks(m, cap, p, flags, n);
      CleansUnlink(m, cap, p, flags, n - 1);
    }
  }

  /** With bit 2 or bit 8 in the flags, n calls of page_init on an unused page give it n links,
      and as many calls of page_clean give back the state before them but for the page's bit,
      which stays set. */
  lemma SharedPageKeepsBit(m: Memory, cap: nat, p: nat, flags: Word, n: nat)
    requires Consistent(m, cap) && Owned(m, p) && m.pages[p].attribute == ZERO
    requires (flags[2] || flags[8]) && n >= 1
    ensures Inits(m, p, flags, n).pages[p].refCnt == n
    ensures Cleans(Inits(m, p, flags, n), p, n) == m.(used := m.used[p := true])
  {
    assert PageOk(m, p);
    InitsLink(m, cap, p, flags, n);
    CleansUnlink(m, cap, p, flags, n);
    assert WithLinks(m, p, flags, 0) == m.(used := m.used[p := true]);
  }

  // ----- does a clear bit mean an unused page, and a set bit a used one?

  /** The bitmap says exactly which owned pages are in use. */
  ghost predicate Exact(m: Memory) {
    forall p :: Owned(m, p) && p < |m.used| ==> (m.used[p] <==> m.pages[p].attribute != ZERO)
  }

  /** Dropping the last link of a shared page leaves its bit set. */
  predicate DropsSharedPage(m: Memory, p: nat)
    requires Owned(m, p)
  {
    Shared(m.pages[p].attribute) && m.pages[p].refCnt == 1
  }

  lemma InitKeepsExact(m: Memory, cap: nat, p: nat, flags: Word)
    requires Consistent(m, cap) && Owned(m, p) && Exact(m)
    requires flags != ZERO || m.pages[p].attribute != ZERO
    ensures Exact(PageInit(m, p, flags))
  {
    var m' := PageInit(m, p, flags);
    assert PageOk(m, p);
    if m.pages[p].attribute != ZERO {
      OrIsNotZero(m.pages[p].attribute, flags);
    }
    forall q | Owned(m', q) && q < |m'.used|
      ensures m'.used[q] <==> m'.pages[q].attribute != ZERO
    {
      assert PageOk(m, q);
      assert Owned(m, q);
    }
  }

  lemma CleanKeepsExactIff(m: Memory, cap: nat, p: nat)
    requires Consistent(m, cap) && Owned(m, p) && Exact(m)
    ensures Exact(PageClean(m, p)) <==> !DropsSharedPage(m, p)
  {
    var m' := PageClean(m, p);
    assert PageOk(m, p);
    assert m.used[p] <==> m.pages[p].attribute != ZERO;
    ZeroIsNotShared();
    forall q | Owned(m', q) && q < |m'.used| && q != p
      ensures m'.used[q] <==> m'.pages[q].attribute != ZERO
    {
      assert PageOk(m, q);
      assert Owned(m, q);
    }
    assert Owned(m', p);
  }

  lemma ZeroIsNotShared()
    ensures !Shared(ZERO)
  {}

  ghost predicate AllOwned(m: Memory, first: int, number: nat) {
    forall p :: first <= p < first + number ==> Owned(m, p)
  }

  // ----- the marking loop

  /** page_init on `number` pages from `first` on, in turn. */
  ghost function InitAll(m: Memory, first: int, number: nat, flags: Word): Memory
    requires AllOwned(m, first, number)
    ensures var m' := InitAll(m, first, number, flags);
      && |m'.used| == |m.used| && |m'.pages| == |m.pages| && |m'.zones| == |m.zones|
      && forall p :: Owned(m', p) <==> Owned(m, p)
    decreases number
  {
    if number == 0 then m
    else
      assert Owned(m, first + number - 1);
      PageInit(InitAll(m, first, number - 1, flags), first + number - 1, flags)
  }

  /** `number` owned pages from `first` on whose bits are clear. */
  ghost predicate AllFree(m: Memory, first: nat, number: nat) {
    forall p :: first <= p < first + number ==> Owned(m, p) && p < |m.used| && !m.used[p]
  }

  /** How many of the pages the marking loop reaches: it comes to a page struct that is not
      owned after that many. */
  ghost function OwnedPrefix(m: Memory, first: int, number: nat): (d: nat)
    ensures d <= number && AllOwned(m, first, d)
    ensures d < number ==> !Owned(m, first + d)
  {
    if number == 0 then 0
    else
      var d := OwnedPrefix(m, first, number - 1);
      if d == number - 1 && Owned(m, first + d) then number else d
  }

  lemma OwnedPrefixIs(m: Memory, first: int, number: nat, done: nat)
    requires done <= number && AllOwned(m, first, done)
    requires done < number ==> !Owned(m, first + done)
    ensures OwnedPrefix(m, first, number) == done
  {}

  lemma {:induction false} InitAllKeeps(m: Memory, cap: nat, first: int, number: nat, flags: Word)
    requires Consistent(m, cap) && flags != ZERO
    requires AllOwned(m, first, number)
    ensures Consistent(InitAll(m, first, number, flags), cap)
    decreases number
  {
    if number != 0 {
      InitAllKeeps(m, cap, first, number - 1, flags);
      assert Owned(m, first + number - 1);
      PageInitKeeps(InitAll(m, first, number - 1, flags), cap, first + number - 1, flags);
    }
  }

  /** `m'` is `m` with `number` pages from `first` on taken out of clear bits: they have
      one link and exactly the given flags, and nothing else has moved, in the bitmap or
      in the page structs. */
  ghost predicate Fresh(m: Memory, m': Memory, first: nat, number: nat, flags: Word) {
    && |m'.used| == |m.used| && |m'.pages| == |m.pages|
    && (forall b :: 0 <= b < |m.used| ==> (m'.used[b] <==> m.used[b] || first <= b < first + number))
    && (forall p {:trigger m'.pages[p]} :: 0 <= p < |m.pages| ==>
          m'.pages[p] == if first <= p < first + number
                         then m.pages[p].(attribute := flags, refCnt := 1)
                         else m.pages[p])
  }

  lemma FreshStep(m: Memory, m': Memory, first: nat, number: nat, flags: Word)
    requires Fresh(m, m', first, number, flags)
    requires Owned(m, first + number) && Owned(m', first + number) && first + number < |m.used|
    requires m.pages[first + number].phyAddr == (first + number) * PAGE_2M
    requires m.pages[first + number].attribute == ZERO && m.pages[first + number].refCnt == 0
    ensures Fresh(m, PageInit(m', first + number, flags), first, number + 1, flags)
  {}

  /** Pages with no attribute, whatever their bits say. */
  ghost predicate AllUnused(m: Memory, first: nat, number: nat) {
    forall p :: first <= p < first + number ==>
      && Owned(m, p) && p < |m.used| && m.pages[p].phyAddr == p * PAGE_2M
      && m.pages[p].attribute == ZERO && m.pages[p].refCnt == 0
  }

  lemma {:induction false} UnusedPagesComeFresh(m: Memory, first: nat, number: nat, flags: Word)
    requires AllUnused(m, first, number)
    ensures AllOwned(m, first, number)
    ensures Fresh(m, InitAll(m, first, number, flags), first, number, flags)
    decreases number
  {
    assert AllOwned(m, first, number);
    if number != 0 {
      UnusedPagesComeFresh(m, first, number - 1, flags);
      assert Owned(m, first + number - 1);
      FreshStep(m, InitAll(m, first, number - 1, flags), first, number - 1, flags);
    }
  }

  lemma FreeIsUnused(m: Memory, cap: nat, first: nat, number: nat)
    requires Consistent(m, cap) && AllFree(m, first, number)
    ensures AllUnused(m, first, number)
  {
    forall p | first <= p < first + number
      ensures Owned(m, p) && p < |m.used| && m.pages[p].phyAddr == p * PAGE_2M
      ensures m.pages[p].attribute == ZERO && m.pages[p].refCnt == 0
    {
      assert Owned(m, p) && !m.used[p];
      assert PageOk(m, p);
    }
  }

  lemma FreePagesComeFresh(m: Memory, cap: nat, first: nat, number: nat, flags: Word)
    requires Consistent(m, cap) && AllFree(m, first, number)
    ensures Fresh(m, InitAll(m, first, number, flags), first, number, flags)
  {
    FreeIsUnused(m, cap, first, number);
    UnusedPagesComeFresh(m, first, number, flags);
  }

  /** Whatever their state was, the marked pages have their bits set and are in use; no
      other bit and no other page struct has changed. */
  ghost predicate Marked(m: Memory, m': Memory, first: int, number: nat) {
    && |m'.used| == |m.used| && |m'.pages| == |m.pages|
    && (forall b :: 0 <= b < |m.used| ==> (m'.used[b] <==> m.used[b] || first <= b < first + number))
    && (forall p :: 0 <= p < |m.pages| ==>
          if first <= p < first + number then m'.pages[p].attribute != ZERO && m'.pages[p].refCnt >= 1
          else m'.pages[p] == m.pages[p])
  }

  lemma {:induction false} MarkingMarks(m: Memory, cap: nat, first: int, number: nat, flags: Word)
    requires Consistent(m, cap) && flags != ZERO && AllOwned(m, first, number)
    ensures Marked(m, InitAll(m, first, number, flags), first, number)
    decreases number
  {
    if number != 0 {
      MarkingMarks(m, cap, first, number - 1, flags);
      InitAllKeeps(m, cap, first, number - 1, flags);
      MarkOne(m, InitAll(m, first, number - 1, flags), cap, first, number - 1, flags);
    }
  }

  lemma MarkOne(m: Memory, m': Memory, cap: nat, first: int, number: nat, flags: Word)
    requires Consistent(m', cap) && flags != ZERO
    requires Marked(m, m', first, number) && Owned(m', first + number)
    ensures Marked(m, PageInit(m', first + number, flags), first, number + 1)
  {
    var p := first + number;
    assert PageOk(m', p);
    if m'.pages[p].attribute != ZERO {
      OrIsNotZero(m'.pages[p].attribute, flags);
    }
  }

  lemma ExactStep(m: Memory, cap: nat, p: int, flags: Word)
    requires Consistent(m, cap) && Exact(m) && flags != ZERO && Owned(m, p)
    ensures Consistent(PageInit(m, p, flags), cap) && Exact(PageInit(m, p, flags))
  {
    PageInitKeeps(m, cap, p, flags);
    InitKeepsExact(m, cap, p, flags);
  }

  lemma {:induction false} MarkingKeepsExact(m: Memory, cap: nat, first: int, number: nat, flags: Word)
    requires Consistent(m, cap) && Exact(m) && flags != ZERO && AllOwned(m, first, number)
    ensures Consistent(InitAll(m, first, number, flags), cap) && Exact(InitAll(m, first, number, flags))
    decreases number
  {
    if number != 0 {
      MarkingKeepsExact(m, cap, first, number - 1, flags);
      ExactStep(InitAll(m, first, number - 1, flags), cap, first + number - 1, flags);
    }
  }

  predicate SameExtent(zone: Zone, zone': Zone) {
    zone.startAddr == zone'.startAddr && zone.endAddr == zone'.endAddr && zone.pageLen == zone'.pageLen
  }

  /** Zones keep their place, and lose at most as many free pages as are marked. */
  lemma {:induction false} MarkingKeepsExtents(m: Memory, first: int, number: nat, flags: Word, z: nat)
    requires AllOwned(m, first, number) && z < |m.zones|
    ensures var zone, zone' := m.zones[z], InitAll(m, first, number, flags).zones[z];
      SameExtent(zone', zone) && zone.free - number <= zone'.free <= zone.free
    decreases number
  {
    if number != 0 {
      MarkingKeepsExtents(m, first, number - 1, flags, z);
    }
  }
}
