/** Whole runs of page_init, page_clean and alloc_pages. */
module PageRuns {
  import opened Bits
  import opened Wrappers
  import opened PageAccounting
  import opened PageMarking
  import opened RunSearch

  /** One call. alloc_pages searches zones lo to hi. */
  datatype Event =
    | Init(page: nat, flags: Word)
    | Clean(page: nat)
    | Alloc(lo: nat, hi: int, number: nat, flags: Word)

  ghost predicate Legal(m: Memory, event: Event) {
    match event
    case Init(p, flags) => Owned(m, p) && flags != ZERO
    case Clean(p) => Owned(m, p)
    case Alloc(_, _, number, flags) => flags != ZERO && number <= 64 && Searchable(m)
  }

  ghost function Apply(m: Memory, event: Event): Memory
    requires Legal(m, event)
  {
    match event
    case Init(p, flags) => PageInit(m, p, flags)
    case Clean(p) => PageClean(m, p)
    case Alloc(lo, hi, number, flags) => Allocated(m, lo, hi, number, flags)
  }

  ghost predicate LegalRun(m: Memory, events: seq<Event>)
    decreases |events|
  {
    events == [] || (Legal(m, events[0]) && LegalRun(Apply(m, events[0]), events[1..]))
  }

  /** The state before event n. */
  ghost function At(m: Memory, events: seq<Event>, n: nat): Memory
    requires LegalRun(m, events) && n <= |events|
    ensures n < |events| ==> Legal(At(m, events, n), events[n])
    decreases n
  {
    if n == 0 then m
    else
      assert n < |events| ==> events[1..][n - 1] == events[n];
      At(Apply(m, events[0]), events[1..], n - 1)
  }

  ghost function After(m: Memory, events: seq<Event>): Memory
    requires LegalRun(m, events)
  {
    At(m, events, |events|)
  }

  lemma {:induction false} AtNext(m: Memory, events: seq<Event>, n: nat)
    requires LegalRun(m, events) && n < |events|
    ensures At(m, events, n + 1) == Apply(At(m, events, n), events[n])
    decreases n
  {
    if n != 0 {
      AtNext(Apply(m, events[0]), events[1..], n - 1);
      assert events[1..][n - 1] == events[n];
    }
  }

  /** The event is an allocation that gives page x to its caller. */
  ghost predicate HandsOut(m: Memory, event: Event, x: nat)
    requires Legal(m, event)
  {
    event.Alloc?
    && match Search(m, event.lo, event.hi, event.number)
       case None => false
       case Some(spot) =>
         var first := Block(spot.j, spot.k);
         first <= x < first + OwnedPrefix(m, first, event.number)
  }

  /** What an allocation finds, it finds at page 1 of a word. */
  ghost predicate InStep(m: Memory, event: Event)
    requires Legal(m, event)
  {
    event.Alloc? ==>
      match Search(m, event.lo, event.hi, event.number)
      case None => true
      case Some(spot) => spot.j % 64 == 1
  }

  /** Some zone the allocation searches has a position at which it would hand out page x
      without having tested it. This is about the map of zones and pages alone. */
  ghost predicate Reached(m: Memory, cap: nat, event: Event, x: nat) {
    event.Alloc?
    && exists z, j, k :: event.lo <= z <= event.hi && z < |m.zones|
         && Reaches(m, cap, m.zones[z], event.number, j, k, x)
  }

  ghost predicate HandsOutAt(m: Memory, events: seq<Event>, n: nat, x: nat)
    requires LegalRun(m, events)
  {
    n < |events| && HandsOut(At(m, events, n), events[n], x)
  }

  ghost predicate InStepAt(m: Memory, events: seq<Event>, n: nat)
    requires LegalRun(m, events)
  {
    n < |events| ==> InStep(At(m, events, n), events[n])
  }

  ghost predicate BitSetAt(m: Memory, events: seq<Event>, n: nat, x: nat)
    requires LegalRun(m, events) && n <= |events|
  {
    x < |At(m, events, n).used| && At(m, events, n).used[x]
  }

  ghost predicate LeakedAt(m: Memory, events: seq<Event>, n: nat, x: nat)
    requires LegalRun(m, events) && n <= |events|
  {
    Leaked(At(m, events, n), x)
  }

  // ----- what every event keeps

  lemma ApplyKeeps(m: Memory, cap: nat, event: Event)
    requires Consistent(m, cap) && Legal(m, event)
    ensures Consistent(Apply(m, event), cap)
  {
    match event
    case Init(p, flags) => PageInitKeeps(m, cap, p, flags);
    case Clean(p) => PageCleanKeeps(m, cap, p);
    case Alloc(lo, hi, number, flags) =>
      var spot := Search(m, lo, hi, number);
      if spot.Some? {
        var first := Block(spot.value.j, spot.value.k);
        InitAllKeeps(m, cap, first, OwnedPrefix(m, first, number), flags);
      }
  }

  /** In every reachable state the counters of each zone are the tallies of its pages,
      using + free is the zone's size, and a page in use has its bit set. */
  lemma {:induction false} RunKeepsAccounts(m: Memory, cap: nat, events: seq<Event>, n: nat)
    requires Consistent(m, cap) && LegalRun(m, events) && n <= |events|
    ensures Consistent(At(m, events, n), cap)
    decreases n
  {
    if n != 0 {
      ApplyKeeps(m, cap, events[0]);
      RunKeepsAccounts(Apply(m, events[0]), cap, events[1..], n - 1);
    }
  }

  /** The bitmap, the page structs and the zones keep their places. */
  ghost predicate SamePlaces(m: Memory, m': Memory) {
    && |m'.used| == |m.used| && |m'.pages| == |m.pages| && |m'.zones| == |m.zones|
    && (forall z :: 0 <= z < |m.zones| ==> SameExtent(m.zones[z], m'.zones[z]))
    && (forall p: int :: Owned(m', p) <==> Owned(m, p))
  }

  lemma ApplyKeepsPlaces(m: Memory, event: Event)
    requires Legal(m, event)
    ensures SamePlaces(m, Apply(m, event))
  {
    if event.Alloc? {
      var spot := Search(m, event.lo, event.hi, event.number);
      if spot.Some? {
        var first := Block(spot.value.j, spot.value.k);
        var number := OwnedPrefix(m, first, event.number);
        forall z | 0 <= z < |m.zones|
          ensures SameExtent(m.zones[z], InitAll(m, first, number, event.flags).zones[z])
        {
          MarkingKeepsExtents(m, first, number, event.flags, z);
        }
      }
    }
  }

  lemma {:induction false} RunKeepsPlaces(m: Memory, events: seq<Event>, n: nat)
    requires LegalRun(m, events) && n <= |events|
    ensures SamePlaces(m, At(m, events, n))
    decreases n
  {
    if n != 0 {
      var m1 := Apply(m, events[0]);
      ApplyKeepsPlaces(m, events[0]);
      RunKeepsPlaces(m1, events[1..], n - 1);
      assert forall z :: 0 <= z < |m.zones| ==> SameExtent(m.zones[z], m1.zones[z]);
    }
  }

  /** So what is in reach never changes. */
  lemma SameReach(m: Memory, m': Memory, cap: nat, event: Event, x: nat)
    requires SamePlaces(m, m') && Reached(m', cap, event, x)
    ensures Reached(m, cap, event, x)
  {
    var z, j, k :| event.lo <= z <= event.hi && z < |m'.zones|
      && Reaches(m', cap, m'.zones[z], event.number, j, k, x);
    SameReaches(m, m', cap, m.zones[z], m'.zones[z], event.number, j, k, x);
  }

  lemma SameReaches(m: Memory, m': Memory, cap: nat, zone: Zone, zone': Zone, number: nat, j: nat, k: nat, x: nat)
    requires SamePlaces(m, m') && SameExtent(zone, zone') && Reaches(m', cap, zone', number, j, k, x)
    ensures Reaches(m, cap, zone, number, j, k, x)
  {
    forall b: nat | b < cap && Tested(j / 64, k, number, b)
      ensures Owned(m, b)
    {
      assert Owned(m', b);
    }
  }

  // ----- does the bitmap say which pages are in use?

  /** No page_clean of the run drops the last link of a shared page. */
  ghost predicate DropsNone(m: Memory, events: seq<Event>)
    requires LegalRun(m, events)
    decreases |events|
  {
    events == []
    || ((events[0].Clean? ==> !DropsSharedPage(m, events[0].page)) && DropsNone(Apply(m, events[0]), events[1..]))
  }

  lemma ApplyKeepsExact(m: Memory, cap: nat, event: Event)
    requires Consistent(m, cap) && Exact(m) && Legal(m, event)
    requires event.Clean? ==> !DropsSharedPage(m, event.page)
    ensures Exact(Apply(m, event))
  {
    match event
    case Init(p, flags) => InitKeepsExact(m, cap, p, flags);
    case Clean(p) => CleanKeepsExactIff(m, cap, p);
    case Alloc(lo, hi, number, flags) =>
      var spot := Search(m, lo, hi, number);
      if spot.Some? {
        var first := Block(spot.value.j, spot.value.k);
        MarkingKeepsExact(m, cap, first, OwnedPrefix(m, first, number), flags);
      }
  }

  /** As long as a run drops no shared page, the bitmap says exactly which pages are in use. */
  lemma {:induction false} RunKeepsExact(m: Memory, cap: nat, events: seq<Event>)
    requires Consistent(m, cap) && Exact(m) && LegalRun(m, events) && DropsNone(m, events)
    ensures Exact(After(m, events))
    decreases |events|
  {
    if events != [] {
      ApplyKeepsExact(m, cap, events[0]);
      ApplyKeeps(m, cap, events[0]);
      RunKeepsExact(Apply(m, events[0]), cap, events[1..]);
    }
  }

  // ----- handing out pages

  /** At page 1 of a word alloc_pages takes pages whose bits are clear. */
  lemma InStepTakesClear(m: Memory, cap: nat, event: Event, x: nat)
    requires Consistent(m, cap) && Legal(m, event)
    requires HandsOut(m, event, x) && InStep(m, event)
    ensures x < |m.used| && !m.used[x]
  {
    var spot := Search(m, event.lo, event.hi, event.number).value;
    assert Hit(m, event.number, spot.zone, spot.j, spot.k);
    assert Block(spot.j, spot.k) == RunStart(spot.j, spot.k);
    ClearRunBit(m.used, spot.j / 64, spot.k, event.number, x);
  }

  /** So it does wherever the page is out of reach. */
  lemma OutOfReachTakesClear(m: Memory, cap: nat, event: Event, x: nat)
    requires Consistent(m, cap) && Legal(m, event)
    requires HandsOut(m, event, x) && !Reached(m, cap, event, x)
    ensures x < |m.used| && !m.used[x]
  {
    var spot := Search(m, event.lo, event.hi, event.number).value;
    assert Hit(m, event.number, spot.zone, spot.j, spot.k);
    ClearIsTestable(m, cap, spot.j / 64, spot.k, event.number);
    PrefixIsOwned(m, Block(spot.j, spot.k), event.number, x);
    assert !Reaches(m, cap, m.zones[spot.zone], event.number, spot.j, spot.k, x);
    ClearTestedBit(m.used, spot.j / 64, spot.k, event.number, x);
  }

  lemma PrefixIsOwned(m: Memory, first: int, number: nat, x: nat)
    requires first <= x < first + OwnedPrefix(m, first, number)
    ensures AllOwned(m, first, x - first + 1)
  {}

  /** Whatever alloc_pages hands out is in use afterwards, and its bit is set. */
  lemma HandedOutIsInUse(m: Memory, cap: nat, event: Event, x: nat)
    requires Consistent(m, cap) && Legal(m, event) && HandsOut(m, event, x)
    ensures Owned(m, x) && x < |Apply(m, event).used| && Apply(m, event).used[x]
    ensures x < |Apply(m, event).pages| && Apply(m, event).pages[x].attribute != ZERO
  {
    var spot := Search(m, event.lo, event.hi, event.number).value;
    var first := Block(spot.j, spot.k);
    var number := OwnedPrefix(m, first, event.number);
    MarkingMarks(m, cap, first, number, event.flags);
    assert Owned(m, x);
    assert PageOk(m, x);
  }

  lemma OnlyCleanClearsABit(m: Memory, cap: nat, event: Event, x: nat)
    requires Consistent(m, cap) && Legal(m, event) && x < |m.used| && m.used[x]
    requires event != Clean(x)
    ensures |Apply(m, event).used| == |m.used| && Apply(m, event).used[x]
  {
    match event
    case Init(p, _) => assert PageOk(m, p);
    case Clean(p) => assert PageOk(m, p);
    case Alloc(lo, hi, number, flags) =>
      var spot := Search(m, lo, hi, number);
      if spot.Some? {
        var first := Block(spot.value.j, spot.value.k);
        MarkingMarks(m, cap, first, OwnedPrefix(m, first, number), flags);
      }
  }

  /** One of the events a .. b - 1 cleans page x. */
  ghost predicate CleanedBetween(events: seq<Event>, a: nat, b: nat, x: nat) {
    exists c :: a <= c < b && c < |events| && events[c] == Clean(x)
  }

  lemma {:induction false} BitStaysSet(m: Memory, cap: nat, events: seq<Event>, a: nat, b: nat, x: nat)
    requires Consistent(m, cap) && LegalRun(m, events) && a <= b <= |events|
    requires BitSetAt(m, events, a, x)
    requires !CleanedBetween(events, a, b, x)
    ensures BitSetAt(m, events, b, x)
    decreases b
  {
    if a < b {
      BitStaysSet(m, cap, events, a, b - 1, x);
      RunKeepsAccounts(m, cap, events, b - 1);
      AtNext(m, events, b - 1);
      OnlyCleanClearsABit(At(m, events, b - 1), cap, events[b - 1], x);
    }
  }

  /** A page whose bit is set is handed out only after it has been cleaned, or by an
      allocation that has it in reach, and then by a hit away from page 1 of a word. Whether
      it has it in reach can be read off the map of zones and pages before the run. */
  lemma HeldUntilCleaned(m: Memory, cap: nat, events: seq<Event>, a: nat, b: nat, x: nat)
    requires Consistent(m, cap) && LegalRun(m, events) && a <= b < |events|
    requires BitSetAt(m, events, a, x)
    requires HandsOutAt(m, events, b, x)
    ensures CleanedBetween(events, a, b, x) || (Reached(m, cap, events[b], x) && !InStepAt(m, events, b))
  {
    if !CleanedBetween(events, a, b, x) {
      BitStaysSet(m, cap, events, a, b, x);
      RunKeepsAccounts(m, cap, events, b);
      TakenIsReached(m, cap, events, b, x);
    }
  }

  lemma TakenIsReached(m: Memory, cap: nat, events: seq<Event>, b: nat, x: nat)
    requires LegalRun(m, events) && b < |events| && Consistent(At(m, events, b), cap)
    requires BitSetAt(m, events, b, x) && HandsOutAt(m, events, b, x)
    ensures Reached(m, cap, events[b], x) && !InStepAt(m, events, b)
  {
    var m' := At(m, events, b);
    if !Reached(m', cap, events[b], x) {
      OutOfReachTakesClear(m', cap, events[b], x);
      assert false;
    }
    RunKeepsPlaces(m, events, b);
    SameReach(m, m', cap, events[b], x);
    if InStepAt(m, events, b) {
      InStepTakesClear(m', cap, events[b], x);
      assert false;
    }
  }

  /** No double allocation: if a page is handed out twice, it has been cleaned in between, or
      the second allocation has it in reach and found it away from page 1 of a word. */
  lemma NoDoubleAllocation(m: Memory, cap: nat, events: seq<Event>, a: nat, b: nat, x: nat)
    requires Consistent(m, cap) && LegalRun(m, events) && a < b < |events|
    requires HandsOutAt(m, events, a, x) && HandsOutAt(m, events, b, x)
    ensures CleanedBetween(events, a + 1, b, x) || (Reached(m, cap, events[b], x) && !InStepAt(m, events, b))
  {
    BitSetByHandingOut(m, cap, events, a, x);
    HeldUntilCleaned(m, cap, events, a + 1, b, x);
  }

  lemma BitSetByHandingOut(m: Memory, cap: nat, events: seq<Event>, a: nat, x: nat)
    requires Consistent(m, cap) && LegalRun(m, events) && a < |events|
    requires HandsOutAt(m, events, a, x)
    ensures BitSetAt(m, events, a + 1, x)
  {
    RunKeepsAccounts(m, cap, events, a);
    AtNext(m, events, a);
    HandedOutIsInUse(At(m, events, a), cap, events[a], x);
  }

  // ----- under a layout of the zones

  /** In the zones the run's allocations search, hits are at page 1 of a word only. */
  ghost predicate Tidy(m: Memory, cap: nat, events: seq<Event>) {
    forall e, z :: 0 <= e < |events| && events[e].Alloc? && events[e].lo <= z <= events[e].hi && z < |m.zones|
      ==> InStepLayout(m, cap, m.zones[z], events[e].number)
  }

  /** Then no page at all is in reach. */
  lemma TidyReachesNothing(m: Memory, cap: nat, events: seq<Event>, e: nat, x: nat)
    requires Tidy(m, cap, events) && e < |events|
    ensures !Reached(m, cap, events[e], x)
  {}

  /** A page is out of reach if every zone starts at page 1 of the page's word or above the
      page; the last page of a word never is sure to be. */
  lemma LowPageIsNotReached(m: Memory, cap: nat, event: Event, x: nat)
    requires x % 64 != 63
    requires forall z :: 0 <= z < |m.zones| ==>
      StartPage(m.zones[z]) == x / 64 * 64 + 1 || StartPage(m.zones[z]) > x
    ensures !Reached(m, cap, event, x)
  {
    if event.Alloc? {
      forall z, j: nat, k: nat | event.lo <= z <= event.hi && z < |m.zones|
        ensures !Reaches(m, cap, m.zones[z], event.number, j, k, x)
      {
        LowPageIsOutOfReach(m, cap, m.zones[z], event.number, j, k, x);
      }
    }
  }

  // ----- the same page twice

  /** The call, made twice in a row, hands out page x both times. */
  ghost predicate HandsOutTwice(m: Memory, event: Event, x: nat) {
    && Legal(m, event) && HandsOut(m, event, x)
    && Legal(Apply(m, event), event) && HandsOut(Apply(m, event), event, x)
  }

  /** A request away from page 1 of a word whose block misses the tested bits, made twice in
      a row, is given the same pages both times. */
  lemma RepeatedRequest(m: Memory, cap: nat, lo: nat, hi: int, number: nat, spot: Spot, flags: Word)
    requires Consistent(m, cap) && Searchable(m) && 1 <= number <= 64 && flags != ZERO
    requires FirstHit(m, lo, hi, number, spot.zone, spot.j, spot.k) && AllOwned(m, Block(spot.j, spot.k), number)
    requires forall z :: lo <= z < spot.zone ==> Enough(m.zones[z], number)
    requires Enough(m.zones[spot.zone], 2 * number)
    requires number <= (if spot.j % 64 == 0 then 1 else spot.j % 64 - 1)
    ensures forall x: nat :: Block(spot.j, spot.k) <= x < Block(spot.j, spot.k) + number ==>
      HandsOutTwice(m, Alloc(lo, hi, number, flags), x)
  {
    var event := Alloc(lo, hi, number, flags);
    var first := Block(spot.j, spot.k);
    FirstHitIsUnique(m, lo, hi, number, spot.zone, spot.j, spot.k);
    OwnedPrefixIs(m, first, number, number);
    var m' := Apply(m, event);
    assert m' == InitAll(m, first, number, flags);
    SameBlockAgainIff(m, cap, lo, hi, number, spot.zone, spot.j, spot.k, flags);
    FirstHitIsUnique(m', lo, hi, number, spot.zone, spot.j, spot.k);
    OwnedPrefixIs(m', first, number, number);
  }

  /** A zone from page 1 of a word, once the pages it can be served from that word are taken:
      whatever page a one-page request is then given, the next one is given as well. */
  lemma LargeZoneRepeats(m: Memory, cap: nat, z: nat, flags: Word, x: nat)
    requires Consistent(m, cap) && Searchable(m) && z < |m.zones| && flags != ZERO
    requires StartPage(m.zones[z]) % 64 == 1 && Enough(m.zones[z], 2)
    requires forall p :: StartPage(m.zones[z]) <= p < StartPage(m.zones[z]) + 62 ==> p < |m.used| && m.used[p]
    requires HandsOut(m, Alloc(z, z, 1, flags), x)
    ensures StartPage(m.zones[z]) + 62 <= x && HandsOutTwice(m, Alloc(z, z, 1, flags), x)
  {
    var spot := Search(m, z, z, 1).value;
    assert !Taken(m.used, spot.j / 64, spot.k, 0);
    assert spot.j != StartPage(m.zones[z]);
    RepeatedRequest(m, cap, z, z, 1, spot, flags);
  }

  // ----- the leak

  ghost predicate Leaked(m: Memory, x: nat) {
    Owned(m, x) && x < |m.used| && m.used[x] && m.pages[x].attribute == ZERO
  }

  /** A leaked page stays leaked through a call if and only if the call is no page_init of it
      and does not hand it out. */
  lemma LeakStepIff(m: Memory, cap: nat, event: Event, x: nat)
    requires Consistent(m, cap) && Legal(m, event) && Leaked(m, x)
    ensures Leaked(Apply(m, event), x) <==> !(event.Init? && event.page == x) && !HandsOut(m, event, x)
  {
    match event
    case Init(p, _) => assert PageOk(m, p);
    case Clean(p) => assert PageOk(m, p);
    case Alloc(lo, hi, number, flags) =>
      var spot := Search(m, lo, hi, number);
      if spot.Some? {
        var first := Block(spot.value.j, spot.value.k);
        var prefix := OwnedPrefix(m, first, number);
        MarkingMarks(m, cap, first, prefix, flags);
        assert forall p: int :: Owned(Apply(m, event), p) <==> Owned(m, p);
      }
  }

  ghost predicate NeverHandedOut(m: Memory, events: seq<Event>, x: nat)
    requires LegalRun(m, events)
  {
    forall e :: 0 <= e < |events| ==> !HandsOutAt(m, events, e, x)
  }

  ghost predicate AlwaysLeaked(m: Memory, events: seq<Event>, x: nat)
    requires LegalRun(m, events)
  {
    forall n :: 0 <= n <= |events| ==> LeakedAt(m, events, n, x)
  }

  /** Over a run of alloc_pages and page_clean calls a leaked page stays leaked if and only if
      no allocation has it in its block. */
  lemma LeakLastsIff(m: Memory, cap: nat, x: nat, events: seq<Event>)
    requires Consistent(m, cap) && LegalRun(m, events) && Leaked(m, x)
    requires forall e :: 0 <= e < |events| ==> !events[e].Init?
    ensures AlwaysLeaked(m, events, x) <==> NeverHandedOut(m, events, x)
  {
    if NeverHandedOut(m, events, x) {
      forall n | 0 <= n <= |events|
        ensures LeakedAt(m, events, n, x)
      {
        LeakedUntil(m, cap, x, events, n);
      }
    } else {
      var e: nat :| e < |events| && HandsOutAt(m, events, e, x);
      RunKeepsAccounts(m, cap, events, e);
      AtNext(m, events, e);
      HandedOutIsInUse(At(m, events, e), cap, events[e], x);
      assert !LeakedAt(m, events, e + 1, x);
    }
  }

  lemma LeakedNext(m: Memory, cap: nat, x: nat, events: seq<Event>, n: nat)
    requires Consistent(m, cap) && LegalRun(m, events) && n < |events| && !events[n].Init?
    requires LeakedAt(m, events, n, x) && !HandsOutAt(m, events, n, x)
    ensures LeakedAt(m, events, n + 1, x)
  {
    RunKeepsAccounts(m, cap, events, n);
    AtNext(m, events, n);
    LeakStepIff(At(m, events, n), cap, events[n], x);
  }

  lemma {:induction false} LeakedUntil(m: Memory, cap: nat, x: nat, events: seq<Event>, n: nat)
    requires Consistent(m, cap) && LegalRun(m, events) && Leaked(m, x)
    requires forall e :: 0 <= e < |events| ==> !events[e].Init?
    requires NeverHandedOut(m, events, x) && n <= |events|
    ensures LeakedAt(m, events, n, x)
  {
    if n != 0 {
      LeakedUntil(m, cap, x, events, n - 1);
      LeakedNext(m, cap, x, events, n - 1);
    }
  }

  /** page_init has no caller besides alloc_pages and init_memory. So a shared page whose last
      link is dropped is lost for good if no allocation has it in reach. */
  lemma DroppedPageIsLost(m: Memory, cap: nat, p: nat, events: seq<Event>)
    requires Consistent(m, cap) && Owned(m, p) && DropsSharedPage(m, p)
    requires LegalRun(PageClean(m, p), events)
    requires forall e :: 0 <= e < |events| ==> !events[e].Init? && !Reached(PageClean(m, p), cap, events[e], p)
    ensures NeverHandedOut(PageClean(m, p), events, p) && AlwaysLeaked(PageClean(m, p), events, p)
  {
    var m' := PageClean(m, p);
    DroppedPageLeaks(m, cap, p);
    PageCleanKeeps(m, cap, p);
    forall e | 0 <= e < |events|
      ensures !HandsOutAt(m', events, e, p)
    {
      StaysLost(m', cap, p, events, e);
    }
    LeakLastsIff(m', cap, p, events);
  }

  lemma DroppedPageLeaks(m: Memory, cap: nat, p: nat)
    requires Consistent(m, cap) && Owned(m, p) && DropsSharedPage(m, p)
    ensures Leaked(PageClean(m, p), p)
  {
    ZeroIsNotShared();
    assert PageOk(m, p);
  }

  lemma LeakedIsNotHandedOut(m: Memory, cap: nat, x: nat, events: seq<Event>, n: nat)
    requires Consistent(m, cap) && LegalRun(m, events)
    requires n < |events| && LeakedAt(m, events, n, x) && !Reached(m, cap, events[n], x)
    ensures !HandsOutAt(m, events, n, x)
  {
    RunKeepsAccounts(m, cap, events, n);
    if HandsOutAt(m, events, n, x) {
      TakenIsReached(m, cap, events, n, x);
      assert false;
    }
  }

  lemma {:induction false} StaysLost(m: Memory, cap: nat, x: nat, events: seq<Event>, n: nat)
    requires Consistent(m, cap) && LegalRun(m, events) && Leaked(m, x)
    requires forall e :: 0 <= e < |events| ==> !events[e].Init? && !Reached(m, cap, events[e], x)
    requires n < |events|
    ensures LeakedAt(m, events, n, x) && !HandsOutAt(m, events, n, x)
  {
    if n != 0 {
      StaysLost(m, cap, x, events, n - 1);
      LeakedNext(m, cap, x, events, n - 1);
    }
    LeakedIsNotHandedOut(m, cap, x, events, n);
  }
}
