/** A zone of four pages from address 0, and what alloc_pages makes of it. */
module AllocatorExamples {
  import opened Bits
  import opened Wrappers
  import opened PageAccounting
  import opened PageMarking
  import opened RunSearch
  import opened PageRuns

  /** Pages 0 and 1 are in use with one link each, pages 2 and 3 are free. */
  function ExamplePages(flags0: Word, flags1: Word): seq<Page> {
    [Page(Some(0), 0, flags0, 1), Page(Some(0), PAGE_2M, flags1, 1),
     Page(Some(0), 2 * PAGE_2M, ZERO, 0), Page(Some(0), 3 * PAGE_2M, ZERO, 0)]
  }

  function Example(flags0: Word, flags1: Word): Memory {
    Memory(seq(192, n => n != 2 && n != 3), ExamplePages(flags0, flags1), [Zone(0, 4 * PAGE_2M, 4, 2, 2, 2)])
  }

  lemma ExampleTally(ps: seq<Page>, what: Tallied)
    requires |ps| == 4
    ensures Tally(ps, 0, what)
         == Share(ps[0], 0, what) + Share(ps[1], 0, what) + Share(ps[2], 0, what) + Share(ps[3], 0, what)
  {
    assert ps[..3][..2] == ps[..2] && ps[..2][..1] == ps[..1] && ps[..1][..0] == [];
    assert Tally(ps[..1], 0, what) == Share(ps[0], 0, what);
    assert Tally(ps[..2], 0, what) == Tally(ps[..1], 0, what) + Share(ps[1], 0, what);
    assert Tally(ps[..3], 0, what) == Tally(ps[..2], 0, what) + Share(ps[2], 0, what);
  }

  lemma ExampleIsConsistent(flags0: Word, flags1: Word)
    requires flags0 != ZERO && flags1 != ZERO
    ensures Consistent(Example(flags0, flags1), 64) && Searchable(Example(flags0, flags1))
    ensures Exact(Example(flags0, flags1))
  {
    var m := Example(flags0, flags1);
    ExampleTally(m.pages, InUse);
    ExampleTally(m.pages, Links);
  }

  /** A one-page request finds page 2 and takes page 1, whatever page 1 is. */
  lemma ExampleTakesPageOne(m: Memory, flags: Word)
    requires |m.used| == 192 && (forall n :: 0 <= n < 192 ==> m.used[n] == (n != 2 && n != 3))
    requires |m.zones| == 1 && m.zones[0].startAddr == 0 && m.zones[0].endAddr == 4 * PAGE_2M
    requires Enough(m.zones[0], 1) && Owned(m, 1) && flags != ZERO
    ensures Searchable(m) && FirstHit(m, 0, 0, 1, 0, 0, 2) && Block(0, 2) == 1
    ensures Legal(m, Alloc(0, 0, 1, flags)) && HandsOut(m, Alloc(0, 0, 1, flags), 1)
    ensures Apply(m, Alloc(0, 0, 1, flags)) == PageInit(m, 1, flags)
  {
    assert Hit(m, 1, 0, 0, 2) by {
      assert !Taken(m.used, 0, 2, 0);
    }
    forall i': nat, j': nat, k': nat | Earlier(i', j', k', 0, 0, 2)
      ensures !Hit(m, 1, i', j', k')
    {
      if Hit(m, 1, i', j', k') {
        assert j' == 0 && k' < 2 && Taken(m.used, 0, k', 0);
      }
    }
    FirstHitIsUnique(m, 0, 0, 1, 0, 0, 2);
    OwnedPrefixIs(m, 1, 1, 1);
    assert InitAll(m, 1, 0, flags) == m;
  }

  /** Page 1, in use and not shared, is handed out a second time. It keeps its single link,
      and page 2, which was found, stays as it was. */
  lemma ExampleTakesUsedPage(flags: Word)
    requires flags != ZERO && !Shared(flags)
    ensures var m, event := Example(flags, flags), Alloc(0, 0, 1, flags);
      && Consistent(m, 64) && Legal(m, event) && HandsOut(m, event, 1)
      && m.pages[1].attribute != ZERO
      && Apply(m, event).pages == m.pages && Apply(m, event).used == m.used
  {
    var m := Example(flags, flags);
    ExampleIsConsistent(flags, flags);
    ExampleTakesPageOne(m, flags);
    assert Or(flags, flags) == flags;
    assert m.used[1];
  }

  /** If page 1 is shared, dropping its only link leaves its bit set: the bitmap no longer
      says which pages are in use. */
  lemma ExampleLosesExactness(flags: Word, shared: Word)
    requires flags != ZERO && Shared(shared)
    ensures var m := Example(flags, shared);
      && Consistent(m, 64) && Exact(m) && DropsSharedPage(m, 1)
      && !Exact(PageClean(m, 1)) && Leaked(PageClean(m, 1), 1)
  {
    ZeroIsNotShared();
    ExampleIsConsistent(flags, shared);
    CleanKeepsExactIff(Example(flags, shared), 64, 1);
    DroppedPageLeaks(Example(flags, shared), 64, 1);
  }

  /** And the page leaked that way is handed out all the same: a leaked page may come back by
      a hit away from page 1 of a word. */
  lemma ExampleHandsOutLeakedPage(flags: Word, shared: Word)
    requires flags != ZERO && Shared(shared)
    ensures var m, event := Example(flags, shared), Alloc(0, 0, 1, flags);
      && Consistent(m, 64) && DropsSharedPage(m, 1) && Leaked(PageClean(m, 1), 1)
      && Legal(PageClean(m, 1), event) && HandsOut(PageClean(m, 1), event, 1)
      && var page := Apply(PageClean(m, 1), event).pages[1];
         page.attribute == flags && page.refCnt == 1
  {
    ExampleLosesExactness(flags, shared);
    ExampleTakesPageOne(PageClean(Example(flags, shared), 1), flags);
  }
}
