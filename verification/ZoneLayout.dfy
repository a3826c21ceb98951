/** The exact conditions on the map of zones and pages under which alloc_pages hands out clear
    pages, over all the states that are consistent with the map. */
module ZoneLayout {
  import opened Bits
  import opened Wrappers
  import opened PageAccounting
  import opened PageMarking
  import opened RunSearch
  import opened PageRuns

  /** The state between the zone loop and the reservation, and any state with that map in
      which all pages have been cleaned. */
  ghost predicate Unused(m: Memory) {
    forall p :: 0 <= p < |m.pages| ==> m.pages[p].attribute == ZERO
  }

  /** A state with the map of m. */
  ghost predicate StateOf(m: Memory, cap: nat, m': Memory) {
    SamePlaces(m, m') && Consistent(m', cap)
  }

  /** m with the bits of one test clear, and no others. */
  function OnlyTested(m: Memory, w: nat, k: nat, number: nat): Memory {
    m.(used := OnlyTestedClear(|m.used|, w, k, number))
  }

  lemma OnlyTestedIsState(m: Memory, cap: nat, w: nat, k: nat, number: nat)
    requires Consistent(m, cap) && Unused(m) && Testable(m, cap, w, k, number)
    ensures StateOf(m, cap, OnlyTested(m, w, k, number))
  {
    var m' := OnlyTested(m, w, k, number);
    forall p | 0 <= p < |m'.pages|
      ensures PageOk(m', p)
    {
      assert PageOk(m, p);
    }
    forall z | 0 <= z < |m'.zones|
      ensures ZoneOk(m', z)
    {
      assert ZoneOk(m, z);
    }
    forall b | 0 <= b < cap && !m'.used[b]
      ensures Owned(m', b)
    {
      assert Tested(w, k, number, b);
      assert Owned(m, b);
    }
  }

  lemma OnlyTestedIsFirst(m: Memory, zone: Zone, number: nat, j: nat, k: nat)
    requires 64 * (EndPage(zone) / 64) + 128 <= |m.used| && 1 <= number <= 64 && Position(zone, j, k)
    ensures FirstInZone(zone, OnlyTested(m, j / 64, k, number).used, number, j, k)
  {
    var size := |m.used|;
    OnlyThereClear(size, j / 64, k, number, j / 64, k);
    forall j': nat, k': nat | Position(zone, j', k') && Earlier(0, j', k', 0, j, k)
      ensures !Clear(OnlyTestedClear(size, j / 64, k, number), j' / 64, k', number)
    {
      PositionsInOrder(zone, j', k', j, k);
      OnlyThereClear(size, j / 64, k, number, j' / 64, k');
    }
  }

  // ----- blocks

  /** Zone z is first served at (j, k), and the block there is not clear. */
  ghost predicate ServesTakenAt(m: Memory, z: nat, number: nat, j: nat, k: nat) {
    && z < |m.zones| && number <= 64 && Searchable(m)
    && FirstInZone(m.zones[z], m.used, number, j, k) && !BlockIsClear(m.used, j, k, number)
  }

  /** For a zone of any length: in every state with the map of m the first hit is a clear
      block, if and only if all positions at which there can be a hit are page 1 of a word. */
  lemma MapServesClearIff(m: Memory, cap: nat, z: nat, number: nat)
    requires Consistent(m, cap) && Unused(m) && Searchable(m) && z < |m.zones| && 1 <= number <= 64
    ensures (forall m', j, k :: StateOf(m, cap, m') ==> !ServesTakenAt(m', z, number, j, k))
        <==> InStepLayout(m, cap, m.zones[z], number)
  {
    if InStepLayout(m, cap, m.zones[z], number) {
      forall m', j, k | StateOf(m, cap, m')
        ensures !ServesTakenAt(m', z, number, j, k)
      {
        InStepServesClear(m, cap, m', z, number, j, k);
      }
    } else {
      var j: nat, k: nat :| Position(m.zones[z], j, k) && Testable(m, cap, j / 64, k, number) && j % 64 != 1;
      OnlyTestedIsState(m, cap, j / 64, k, number);
      OnlyTestedIsFirst(m, m.zones[z], number, j, k);
      BlockLeavesTestedBits(|m.used|, j, k, number);
      assert ServesTakenAt(OnlyTested(m, j / 64, k, number), z, number, j, k);
    }
  }

  lemma InStepServesClear(m: Memory, cap: nat, m': Memory, z: nat, number: nat, j: nat, k: nat)
    requires z < |m.zones| && InStepLayout(m, cap, m.zones[z], number) && StateOf(m, cap, m')
    ensures !ServesTakenAt(m', z, number, j, k)
  {
    if ServesTakenAt(m', z, number, j, k) {
      ClearIsTestable(m', cap, j / 64, k, number);
      forall b: nat | b < cap && Tested(j / 64, k, number, b)
        ensures Owned(m, b)
      {
        assert Owned(m', b);
      }
      assert SameExtent(m.zones[z], m'.zones[z]);
      assert Position(m.zones[z], j, k) && Testable(m, cap, j / 64, k, number);
      TestedBlockIsClear(m'.used, j, k, number);
      assert false;
    }
  }

  // ----- single pages

  /** The call hands out page x although its bit is set. */
  ghost predicate TakesTaken(m: Memory, event: Event, x: nat) {
    Legal(m, event) && HandsOut(m, event, x) && x < |m.used| && m.used[x]
  }

  /** A request to a zone takes page x from a holder in some state with the map of m, if and
      only if it has x in reach. */
  lemma ReachedIff(m: Memory, cap: nat, z: nat, number: nat, x: nat, flags: Word)
    requires Consistent(m, cap) && Unused(m) && Searchable(m) && z < |m.zones|
    requires 1 <= number <= 64 && flags != ZERO && Enough(m.zones[z], number)
    ensures (exists m' :: StateOf(m, cap, m') && TakesTaken(m', Alloc(z, z, number, flags), x))
        <==> Reached(m, cap, Alloc(z, z, number, flags), x)
  {
    var event := Alloc(z, z, number, flags);
    if Reached(m, cap, event, x) {
      var j: nat, k: nat :| Reaches(m, cap, m.zones[z], number, j, k, x);
      OnlyTestedIsState(m, cap, j / 64, k, number);
      ReachedIsTaken(m, cap, z, number, j, k, x, flags);
    }
    forall m' | StateOf(m, cap, m') && TakesTaken(m', event, x)
      ensures Reached(m, cap, event, x)
    {
      if Reached(m', cap, event, x) {
        SameReach(m, m', cap, event, x);
      } else {
        OutOfReachTakesClear(m', cap, event, x);
        assert false;
      }
    }
  }

  lemma ReachedIsTaken(m: Memory, cap: nat, z: nat, number: nat, j: nat, k: nat, x: nat, flags: Word)
    requires Consistent(m, cap) && Searchable(m) && z < |m.zones|
    requires 1 <= number <= 64 && flags != ZERO && Enough(m.zones[z], number)
    requires Reaches(m, cap, m.zones[z], number, j, k, x)
    ensures TakesTaken(OnlyTested(m, j / 64, k, number), Alloc(z, z, number, flags), x)
  {
    var m' := OnlyTested(m, j / 64, k, number);
    OnlyTestedIsFirst(m, m.zones[z], number, j, k);
    assert Searchable(m');
    FirstInZoneIsFirstHit(m', z, number, j, k);
    FirstHitIsUnique(m', z, z, number, z, j, k);
    OwnedPrefixReaches(m, m', Block(j, k), number, x);
  }

  lemma OwnedPrefixReaches(m: Memory, m': Memory, first: int, number: nat, x: nat)
    requires forall p: int :: Owned(m, p) ==> Owned(m', p)
    requires first <= x < first + number && AllOwned(m, first, x - first + 1)
    ensures x < first + OwnedPrefix(m', first, number) && Owned(m, x)
  {
    assert Owned(m, x);
    assert OwnedPrefix(m', first, number) < number ==> !Owned(m', first + OwnedPrefix(m', first, number));
  }

  lemma FirstInZoneIsFirstHit(m: Memory, z: nat, number: nat, j: nat, k: nat)
    requires Searchable(m) && z < |m.zones| && number <= 64 && Enough(m.zones[z], number)
    requires FirstInZone(m.zones[z], m.used, number, j, k)
    ensures FirstHit(m, z, z, number, z, j, k)
  {
    forall i': nat, j': nat, k': nat | z <= i' && Earlier(i', j', k', z, j, k)
      ensures !Hit(m, number, i', j', k')
    {
      if Position(m.zones[z], j', k') {
        assert !Clear(m.used, j' / 64, k', number);
      }
    }
  }
}
