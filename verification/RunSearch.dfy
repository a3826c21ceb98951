/** Where alloc_pages looks for a run of clear bits, which pages it hands out for the run
    it finds, and when these are the same pages. */
module RunSearch {
  import opened MachineWords
  import opened Bits
  import opened Wrappers
  import opened PageAccounting
  import opened PageMarking

  function StartPage(zone: Zone): nat { zone.startAddr / PAGE_2M }

  function EndPage(zone: Zone): nat { zone.endAddr / PAGE_2M }

  /** The pairs (j, k) the two inner loops visit: j is the zone's start page or a later
      64-aligned page up to and including the end page, and k skips j % 64 bits at both
      ends of the word. */
  predicate Position(zone: Zone, j: nat, k: nat) {
    && (j == StartPage(zone) || (j % 64 == 0 && StartPage(zone) < j))
    && j <= EndPage(zone)
    && j % 64 <= k < 64 - j % 64
  }

  /** What bit t of the funnel reads in the bitmap, at bit k of word w. */
  predicate Taken(used: seq<bool>, w: nat, k: nat, t: nat)
    requires 64 * w + 128 <= |used| && k < 64 && t < 64
  {
    if k == 0 then used[64 * w + t] || used[64 * w + 64 + t]
    else used[64 * w + k + t]
  }

  /** The outcome of the funnel-shift test at bit k of word w. */
  ghost predicate Clear(used: seq<bool>, w: nat, k: nat, number: nat)
    requires 64 * w + 128 <= |used| && k < 64 && number <= 64
  {
    forall t :: 0 <= t < number ==> !Taken(used, w, k, t)
  }

  lemma TestIsClear(words: seq<Word>, used: seq<bool>, w: nat, k: nat, number: nat)
    requires Reads(words, used)
    requires 64 * w + 128 <= |used| && k < 64 && number <= 64
    ensures And(Funnel(words[w], words[w + 1], k), Mask(number)) == ZERO <==> Clear(used, w, k, number)
  {
    var p, q := words[w], words[w + 1];
    FunnelTest(p, q, k, number);
    if Clear(used, w, k, number) {
      forall t | 0 <= t < number
        ensures !FunnelBit(p, q, k, t)
      {
        BitsInWords(words, used, w, k, t);
        assert !Taken(used, w, k, t);
      }
    } else {
      var t :| 0 <= t < number && Taken(used, w, k, t);
      BitsInWords(words, used, w, k, t);
      assert FunnelBit(p, q, k, t);
    }
  }

  lemma BitsInWords(words: seq<Word>, used: seq<bool>, w: nat, k: nat, t: nat)
    requires Reads(words, used) && w + 1 < |words| && k < 64 && t < 64
    ensures words[w][t] == used[64 * w + t] && words[w + 1][t] == used[64 * w + 64 + t]
    ensures used[64 * w + k + t] == if k + t < 64 then words[w][k + t] else words[w + 1][k + t - 64]
  {}

  // ----- which zones are searched


  /** page_free_cnt >= number, compared as unsigned 64-bit integers */
  predicate Enough(zone: Zone, number: nat) {
    number <= zone.free % TWO_64
  }

  /** A zone passes the free-count test exactly when it has that many pages left or has
      more pages in use than it has pages: page 0 is charged to zone 0 even when it lies
      outside it, and the count then wraps. */
  lemma EnoughIff(m: Memory, cap: nat, z: nat, number: nat)
    requires Consistent(m, cap) && z < |m.zones| && |m.pages| + 64 < TWO_64 && m.zones[z].pageLen < TWO_64
    requires number <= 64
    ensures Enough(m.zones[z], number)
        <==> m.zones[z].using + number <= m.zones[z].pageLen || m.zones[z].using > m.zones[z].pageLen
  {
    assert ZoneOk(m, z);
    TallyBound(m.pages, z);
  }

  lemma {:induction false} TallyBound(pages: seq<Page>, z: nat)
    ensures 0 <= Tally(pages, z, InUse) <= |pages|
  {
    if pages != [] {
      TallyBound(pages[..|pages| - 1], z);
    }
  }

  /** Positions in the order the loops visit them. */
  predicate Earlier(i: nat, j: nat, k: nat, i': nat, j': nat, k': nat) {
    i < i' || (i == i' && (j < j' || (j == j' && k < k')))
  }

  /** The bitmap reaches two words past the last page of every zone. */
  ghost predicate Searchable(m: Memory) {
    forall i :: 0 <= i < |m.zones| ==> 64 * (EndPage(m.zones[i]) / 64) + 128 <= |m.used|
  }

  ghost predicate Hit(m: Memory, number: nat, i: nat, j: nat, k: nat)
    requires number <= 64 && Searchable(m)
  {
    && i < |m.zones|
    && Enough(m.zones[i], number)
    && Position(m.zones[i], j, k)
    && Clear(m.used, j / 64, k, number)
  }

  ghost predicate FirstHit(m: Memory, lo: nat, hi: int, number: nat, i: nat, j: nat, k: nat)
    requires number <= 64 && Searchable(m)
  {
    && lo <= i <= hi
    && Hit(m, number, i, j, k)
    && forall i', j', k' :: lo <= i' && Earlier(i', j', k', i, j, k) ==> !Hit(m, number, i', j', k')
  }

  ghost predicate NoHit(m: Memory, lo: nat, hi: int, number: nat)
    requires number <= 64 && Searchable(m)
  {
    forall i, j, k :: lo <= i <= hi ==> !Hit(m, number, i, j, k)
  }

  /** Where the loops find a run: a zone and the loop position in it. */
  datatype Spot = Spot(zone: nat, j: nat, k: nat)

  /** The first hit over zones lo to hi, if there is one. */
  ghost function Search(m: Memory, lo: nat, hi: int, number: nat): (spot: Option<Spot>)
    requires number <= 64 && Searchable(m)
    ensures spot.Some? ==> FirstHit(m, lo, hi, number, spot.value.zone, spot.value.j, spot.value.k)
  {
    if exists i, j, k :: FirstHit(m, lo, hi, number, i, j, k) then
      var i, j, k :| FirstHit(m, lo, hi, number, i, j, k);
      Some(Spot(i, j, k))
    else None
  }

  lemma FirstHitIsUnique(m: Memory, lo: nat, hi: int, number: nat, i: nat, j: nat, k: nat)
    requires number <= 64 && Searchable(m) && FirstHit(m, lo, hi, number, i, j, k)
    ensures Search(m, lo, hi, number) == Some(Spot(i, j, k))
  {
    var spot := Search(m, lo, hi, number).value;
    assert !Earlier(spot.zone, spot.j, spot.k, i, j, k);
    assert !Earlier(i, j, k, spot.zone, spot.j, spot.k);
  }

  /** Among the hits there is a first one. */
  lemma {:induction false} FirstHitExists(m: Memory, lo: nat, hi: int, number: nat, i: nat, j: nat, k: nat)
    requires number <= 64 && Searchable(m) && lo <= i <= hi && Hit(m, number, i, j, k)
    ensures Search(m, lo, hi, number).Some?
    decreases i, j, k
  {
    if i', j', k' :| lo <= i' && Earlier(i', j', k', i, j, k) && Hit(m, number, i', j', k') {
      FirstHitExists(m, lo, hi, number, i', j', k');
    } else {
      assert FirstHit(m, lo, hi, number, i, j, k);
    }
  }

  /** The search finds something exactly if some position of the zones hits. */
  lemma SearchFindsIff(m: Memory, lo: nat, hi: int, number: nat)
    requires number <= 64 && Searchable(m)
    ensures Search(m, lo, hi, number) == None <==> NoHit(m, lo, hi, number)
  {
    if i, j, k :| lo <= i <= hi && Hit(m, number, i, j, k) {
      FirstHitExists(m, lo, hi, number, i, j, k);
    }
  }

  // ----- the pages handed out

  /** The first page of the run that was tested at (j, k): j - shift + k. */
  function RunStart(j: nat, k: nat): nat { 64 * (j / 64) + k }

  /** The first page handed out for it: page = j + k - 1. */
  function Block(j: nat, k: nat): int { j + k - 1 }

  lemma ClearRunBit(used: seq<bool>, w: nat, k: nat, number: nat, p: nat)
    requires 64 * w + 128 <= |used| && k < 64 && number <= 64
    requires Clear(used, w, k, number) && 64 * w + k <= p < 64 * w + k + number
    ensures !used[p]
  {
    assert !Taken(used, w, k, p - 64 * w - k);
  }

  /** The state alloc_pages leaves: nothing changes if nothing is found, and otherwise the
      block at the first hit is marked, up to a page struct that is not owned. */
  ghost function Allocated(m: Memory, lo: nat, hi: int, number: nat, flags: Word): Memory
    requires number <= 64 && Searchable(m)
  {
    match Search(m, lo, hi, number)
    case None => m
    case Some(spot) =>
      var first := Block(spot.j, spot.k);
      InitAll(m, first, OwnedPrefix(m, first, number), flags)
  }

  lemma ClearBitIsOwned(m: Memory, cap: nat, b: nat)
    requires Consistent(m, cap) && b < cap && !m.used[b]
    ensures Owned(m, b)
  {}

  /** The tested run is free, so handing out RunStart(j, k) would always be right. */
  lemma TestedRunIsFree(m: Memory, cap: nat, number: nat, i: nat, j: nat, k: nat)
    requires Consistent(m, cap) && Searchable(m) && number <= 64
    requires Hit(m, number, i, j, k) && RunStart(j, k) + number <= cap
    ensures AllFree(m, RunStart(j, k), number)
  {
    forall p | RunStart(j, k) <= p < RunStart(j, k) + number
      ensures Owned(m, p) && p < |m.used| && !m.used[p]
    {
      ClearRunBit(m.used, j / 64, k, number, p);
      ClearBitIsOwned(m, cap, p);
    }
  }

  /** At page 1 of a word the code hands out the tested run, and only there. Then the pages
      are free, come back with one link and the given flags, and nothing else moves. */
  lemma FirstWindowIsFresh(m: Memory, cap: nat, number: nat, i: nat, j: nat, k: nat, flags: Word)
    requires Consistent(m, cap) && Searchable(m) && number <= 64
    requires Hit(m, number, i, j, k) && RunStart(j, k) + number <= cap
    ensures Block(j, k) == RunStart(j, k) <==> j % 64 == 1
    ensures j % 64 == 1 ==>
      && AllFree(m, Block(j, k), number)
      && Fresh(m, InitAll(m, Block(j, k), number, flags), Block(j, k), number, flags)
  {
    TestedRunIsFree(m, cap, number, i, j, k);
    if j % 64 == 1 {
      FreePagesComeFresh(m, cap, Block(j, k), number, flags);
    }
  }

  // ----- exactly when does a hit mean that the block is clear?

  predicate IsClear(used: seq<bool>, p: int) { 0 <= p < |used| && !used[p] }

  ghost predicate BlockIsClear(used: seq<bool>, j: nat, k: nat, number: nat) {
    forall p :: Block(j, k) <= p < Block(j, k) + number ==> IsClear(used, p)
  }

  /** A bit that the test at bit k of word w looks at. */
  predicate Tested(w: nat, k: nat, number: nat, b: nat) {
    64 * w + k <= b < 64 * w + k + number || (k == 0 && 64 * w + 64 <= b < 64 * w + 64 + number)
  }

  /** The bitmap in which only these bits are clear. */
  function OnlyTestedClear(size: nat, w: nat, k: nat, number: nat): seq<bool> {
    seq(size, b requires 0 <= b < size => !Tested(w, k, number, b))
  }

  /** It is clear at (w, k), and at no earlier place. */
  lemma OnlyThereClear(size: nat, w: nat, k: nat, number: nat, w': nat, k': nat)
    requires 64 * w + 128 <= size && k < 64 && k' < 64 && 1 <= number <= 64
    requires w' < w || (w' == w && k' <= k)
    ensures Clear(OnlyTestedClear(size, w, k, number), w', k', number) <==> w' == w && k' == k
  {
    var used := OnlyTestedClear(size, w, k, number);
    if w' == w && k' == k {
      assert used == OnlyTestedClear(size, w, k, number);
      forall t | 0 <= t < number
        ensures !Taken(used, w', k', t)
      {
        assert used[64 * w + k + t] == !Tested(w, k, number, 64 * w + k + t);
        assert k == 0 ==> used[64 * w + 64 + t] == !Tested(w, k, number, 64 * w + 64 + t);
      }
    } else {
      var b := 64 * w' + k';
      assert used[b] == !Tested(w, k, number, b);
      assert Taken(used, w', k', 0);
    }
  }

  /** Away from page 1 of a word the block has a page that was not tested. */
  lemma BlockLeavesTestedBits(size: nat, j: nat, k: nat, number: nat)
    requires 64 * (j / 64) + 128 <= size && j % 64 <= k < 64 - j % 64 && 1 <= number <= 64
    requires j % 64 != 1
    ensures !BlockIsClear(OnlyTestedClear(size, j / 64, k, number), j, k, number)
  {
    var used := OnlyTestedClear(size, j / 64, k, number);
    var p := if j % 64 == 0 then Block(j, k) else Block(j, k) + number - 1;
    assert Block(j, k) == 64 * (j / 64) + j % 64 + k - 1;
    assert 0 <= p < size ==> !Tested(j / 64, k, number, p);
    assert !IsClear(used, p);
  }

  lemma TestedBlockIsClear(used: seq<bool>, j: nat, k: nat, number: nat)
    requires 64 * (j / 64) + 128 <= |used| && k < 64 && number <= 64 && j % 64 == 1
    requires Clear(used, j / 64, k, number)
    ensures BlockIsClear(used, j, k, number)
  {
    forall p | Block(j, k) <= p < Block(j, k) + number
      ensures IsClear(used, p)
    {
      ClearRunBit(used, j / 64, k, number, p);
    }
  }

  /** A hit at (j, k) is a clear block in every bitmap if and only if j is page 1 of its word. */
  lemma PositionServesClearIff(size: nat, j: nat, k: nat, number: nat)
    requires 64 * (j / 64) + 128 <= size && j % 64 <= k < 64 - j % 64 && 1 <= number <= 64
    ensures (forall used {:trigger Clear(used, j / 64, k, number)} ::
               |used| == size && Clear(used, j / 64, k, number) ==> BlockIsClear(used, j, k, number))
        <==> j % 64 == 1
  {
    if j % 64 == 1 {
      forall used | |used| == size && Clear(used, j / 64, k, number)
        ensures BlockIsClear(used, j, k, number)
      {
        TestedBlockIsClear(used, j, k, number);
      }
    } else {
      OnlyThereClear(size, j / 64, k, number, j / 64, k);
      BlockLeavesTestedBits(size, j, k, number);
    }
  }

  /** The zone ends in the word it starts in, and starts at page 1 of it, or so late in it
      that it is not searched at all. */
  predicate OneWord(zone: Zone) {
    StartPage(zone) <= EndPage(zone) ==>
      && EndPage(zone) / 64 == StartPage(zone) / 64
      && (StartPage(zone) % 64 == 1 || StartPage(zone) % 64 >= 32)
  }

  /** Exactly then every position of the zone is page 1 of a word. */
  lemma OneWordIff(zone: Zone)
    ensures OneWord(zone) <==> forall j, k :: Position(zone, j, k) ==> j % 64 == 1
  {
    var start, end := StartPage(zone), EndPage(zone);
    if !OneWord(zone) {
      if end / 64 != start / 64 {
        assert Position(zone, 64 * (end / 64), 0);
      } else {
        assert Position(zone, start, start % 64);
      }
    }
  }

  /** The position at which the zone is first served from this bitmap. */
  ghost predicate FirstInZone(zone: Zone, used: seq<bool>, number: nat, j: nat, k: nat)
    requires 64 * (EndPage(zone) / 64) + 128 <= |used| && number <= 64
  {
    && Position(zone, j, k)
    && Clear(used, j / 64, k, number)
    && forall j': nat, k': nat :: Position(zone, j', k') && Earlier(0, j', k', 0, j, k) ==>
         !Clear(used, j' / 64, k', number)
  }

  /** Whatever the bitmap, the zone hands out clear blocks only. */
  ghost predicate ServesClear(zone: Zone, size: nat, number: nat)
    requires 64 * (EndPage(zone) / 64) + 128 <= size && number <= 64
  {
    forall used: seq<bool>, j: nat, k: nat {:trigger FirstInZone(zone, used, number, j, k)} ::
      |used| == size && FirstInZone(zone, used, number, j, k) ==> BlockIsClear(used, j, k, number)
  }

  /** The layouts that are served right are exactly those: from every other one some bitmap
      makes the search hand out a page whose bit is set. */
  lemma ServesClearIff(zone: Zone, size: nat, number: nat)
    requires 64 * (EndPage(zone) / 64) + 128 <= size && 1 <= number <= 64
    ensures ServesClear(zone, size, number) <==> OneWord(zone)
  {
    OneWordIff(zone);
    if OneWord(zone) {
      forall used: seq<bool>, j: nat, k: nat | |used| == size && FirstInZone(zone, used, number, j, k)
        ensures BlockIsClear(used, j, k, number)
      {
        TestedBlockIsClear(used, j, k, number);
      }
    } else {
      var j, k :| Position(zone, j, k) && j % 64 != 1;
      ServesTaken(zone, size, number, j, k);
    }
  }

  lemma ServesTaken(zone: Zone, size: nat, number: nat, j: nat, k: nat)
    requires 64 * (EndPage(zone) / 64) + 128 <= size && 1 <= number <= 64
    requires Position(zone, j, k) && j % 64 != 1
    ensures !ServesClear(zone, size, number)
  {
    var used := OnlyTestedClear(size, j / 64, k, number);
    OnlyThereClear(size, j / 64, k, number, j / 64, k);
    forall j': nat, k': nat | Position(zone, j', k') && Earlier(0, j', k', 0, j, k)
      ensures !Clear(used, j' / 64, k', number)
    {
      PositionsInOrder(zone, j', k', j, k);
      OnlyThereClear(size, j / 64, k, number, j' / 64, k');
    }
    assert FirstInZone(zone, used, number, j, k);
    BlockLeavesTestedBits(size, j, k, number);
  }

  /** Two positions with different j lie in different words. */
  lemma PositionsInOrder(zone: Zone, j': nat, k': nat, j: nat, k: nat)
    requires Position(zone, j', k') && Position(zone, j, k)
    requires Earlier(0, j', k', 0, j, k)
    ensures j' / 64 < j / 64 || (j' / 64 == j / 64 && k' < k)
  {}

  // ----- positions at which a consistent state can have a hit

  lemma ClearTestedBit(used: seq<bool>, w: nat, k: nat, number: nat, b: nat)
    requires 64 * w + 128 <= |used| && k < 64 && number <= 64
    requires Clear(used, w, k, number) && Tested(w, k, number, b)
    ensures !used[b]
  {
    assert !Taken(used, w, k, if b < 64 * w + k + number then b - 64 * w - k else b - 64 * w - 64);
  }

  /** Every bit the test looks at stands for a page, as far as the bitmap goes: a bit that
      stands for none is always set. */
  ghost predicate Testable(m: Memory, cap: nat, w: nat, k: nat, number: nat) {
    forall b: nat :: b < cap && Tested(w, k, number, b) ==> Owned(m, b)
  }

  lemma ClearIsTestable(m: Memory, cap: nat, w: nat, k: nat, number: nat)
    requires Consistent(m, cap) && 64 * w + 128 <= |m.used| && k < 64 && number <= 64
    requires Clear(m.used, w, k, number)
    ensures Testable(m, cap, w, k, number)
  {
    forall b: nat | b < cap && Tested(w, k, number, b)
      ensures Owned(m, b)
    {
      ClearTestedBit(m.used, w, k, number, b);
    }
  }

  /** Every position of the zone at which there can be a hit is page 1 of a word. */
  ghost predicate InStepLayout(m: Memory, cap: nat, zone: Zone, number: nat) {
    forall j: nat, k: nat :: Position(zone, j, k) && Testable(m, cap, j / 64, k, number) ==> j % 64 == 1
  }

  /** It is so for a zone in one word, wherever the pages are. */
  lemma OneWordIsInStep(m: Memory, cap: nat, zone: Zone, number: nat)
    requires OneWord(zone)
    ensures InStepLayout(m, cap, zone, number)
  {
    OneWordIff(zone);
  }

  /** And for a zone that fills its word from page 1 on, if no page of the next word exists. */
  lemma FullWordIsInStep(m: Memory, cap: nat, zone: Zone, number: nat)
    requires StartPage(zone) % 64 == 1 && EndPage(zone) == StartPage(zone) + 63 && 1 <= number <= 64
    requires EndPage(zone) + 64 <= cap && forall b :: EndPage(zone) <= b < EndPage(zone) + 64 ==> !Owned(m, b)
    ensures InStepLayout(m, cap, zone, number)
  {
    forall j: nat, k: nat | Position(zone, j, k) && j % 64 != 1
      ensures !Testable(m, cap, j / 64, k, number)
    {
      assert Tested(j / 64, k, number, j + k);
      assert !Owned(m, j + k);
    }
  }

  // ----- zones whose hits are at page 1 of a word

  /** No run that starts in the bitmap leaves it, as long as its last bit stands for no page. */
  lemma RunStaysInBitmap(m: Memory, cap: nat, w: nat, k: nat, number: nat)
    requires Consistent(m, cap) && 64 * w + 128 <= |m.used| && number <= 64
    requires |m.pages| < cap && cap % 64 == 0 && 64 * w < cap && 0 < k < 64
    requires Clear(m.used, w, k, number)
    ensures 64 * w + k + number <= cap
  {
    if 64 * w + k + number > cap {
      ClearRunBit(m.used, w, k, number, cap - 1);
      assert false;
    }
  }

  /** If all the zones searched are such, whatever is found is free and comes fresh. Only
      where every bit of the bitmap stands for a page must the request fit behind the zones. */
  lemma InStepZonesAreFresh(m: Memory, cap: nat, lo: nat, hi: int, number: nat, i: nat, j: nat, k: nat, flags: Word)
    requires Consistent(m, cap) && Searchable(m) && number <= 64 && cap % 64 == 0
    requires forall z :: lo <= z <= hi && z < |m.zones| ==>
      InStepLayout(m, cap, m.zones[z], number) && StartPage(m.zones[z]) < cap
    requires |m.pages| < cap
      || forall z :: lo <= z <= hi && z < |m.zones| ==> StartPage(m.zones[z]) + 61 + number <= cap
    requires FirstHit(m, lo, hi, number, i, j, k)
    ensures j % 64 == 1 && AllFree(m, Block(j, k), number)
    ensures Fresh(m, InitAll(m, Block(j, k), number, flags), Block(j, k), number, flags)
  {
    ClearIsTestable(m, cap, j / 64, k, number);
    assert InStepLayout(m, cap, m.zones[i], number) && Position(m.zones[i], j, k);
    assert j == StartPage(m.zones[i]);
    if |m.pages| < cap {
      RunStaysInBitmap(m, cap, j / 64, k, number);
    }
    FirstWindowIsFresh(m, cap, number, i, j, k, flags);
  }

  // ----- which pages an allocation can reach without having tested them

  /** A hit at (j, k) hands out page x, which is not among the tested ones. */
  ghost predicate Reaches(m: Memory, cap: nat, zone: Zone, number: nat, j: nat, k: nat, x: nat) {
    && Position(zone, j, k) && Testable(m, cap, j / 64, k, number)
    && Block(j, k) <= x < Block(j, k) + number && !Tested(j / 64, k, number, x)
    && AllOwned(m, Block(j, k), x - Block(j, k) + 1)
  }

  /** At page 1 of a word the block is the tested run. */
  lemma ReachesOutOfStep(m: Memory, cap: nat, zone: Zone, number: nat, j: nat, k: nat, x: nat)
    requires Reaches(m, cap, zone, number, j, k, x)
    ensures j % 64 != 1
  {}

  /** No zone that starts at page 1 of the word of x, or above x, has it in reach, unless x is
      the last page of its word; the zone may be of any length. */
  lemma LowPageIsOutOfReach(m: Memory, cap: nat, zone: Zone, number: nat, j: nat, k: nat, x: nat)
    requires x % 64 != 63 && (StartPage(zone) == x / 64 * 64 + 1 || StartPage(zone) > x)
    ensures !Reaches(m, cap, zone, number, j, k, x)
  {
    if Position(zone, j, k) && j % 64 == 0 {
      assert j >= x / 64 * 64 + 64;
    }
  }

  // ----- 64-aligned windows

  /** There the block is the run moved down by a page: it is clear exactly if the page before
      the run is. */
  lemma AlignedBlockIsClearIff(used: seq<bool>, j: nat, k: nat, number: nat)
    requires 64 * (j / 64) + 128 <= |used| && k < 64 && 1 <= number <= 64
    requires j % 64 == 0 && Clear(used, j / 64, k, number)
    ensures BlockIsClear(used, j, k, number) <==> Block(j, k) >= 0 && !used[Block(j, k)]
  {
    forall p | Block(j, k) < p < Block(j, k) + number
      ensures IsClear(used, p)
    {
      ClearRunBit(used, j / 64, k, number, p);
    }
    assert IsClear(used, Block(j, k)) ==> BlockIsClear(used, j, k, number);
  }

  /** And that page is taken at a first hit if the search passed the position one bit before:
      for k >= 2, and for k == 0 if the word before is searched up to its last bit. */
  lemma AlignedWindowTakesUsedPage(m: Memory, lo: nat, hi: int, number: nat, i: nat, j: nat, k: nat)
    requires Searchable(m) && 1 <= number <= 64
    requires FirstHit(m, lo, hi, number, i, j, k) && j % 64 == 0
    requires k >= 2 || (k == 0 && j >= 64 && Position(m.zones[i], j - 64, 63))
    ensures 0 <= Block(j, k) < |m.used| && m.used[Block(j, k)]
  {
    if k >= 2 {
      NextBitClear(m.used, j / 64, k - 1, j / 64, k, number);
      assert Earlier(i, j, k - 1, i, j, k);
      assert !Hit(m, number, i, j, k - 1);
    } else {
      NextBitClear(m.used, j / 64 - 1, 63, j / 64, 0, number);
      assert Earlier(i, j - 64, 63, i, j, k);
      assert !Hit(m, number, i, j - 64, 63);
    }
  }

  /** A test that fails one bit before one that succeeds fails at its first bit. */
  lemma NextBitClear(used: seq<bool>, w': nat, k': nat, w: nat, k: nat, number: nat)
    requires 64 * w' + 128 <= |used| && 64 * w + 128 <= |used| && k < 64 && 0 < k' < 64 && number <= 64
    requires 64 * w' + k' + 1 == 64 * w + k && Clear(used, w, k, number)
    ensures !Clear(used, w', k', number) ==> used[64 * w' + k']
  {
    forall t | 0 < t < number
      ensures !Taken(used, w', k', t)
    {
      assert !Taken(used, w, k, t - 1);
    }
  }

  // ----- the same request twice

  lemma MarkingKeepsSearch(m: Memory, first: int, number: nat, flags: Word)
    requires Searchable(m) && AllOwned(m, first, number)
    ensures Searchable(InitAll(m, first, number, flags))
  {
    forall i | 0 <= i < |m.zones|
      ensures EndPage(InitAll(m, first, number, flags).zones[i]) == EndPage(m.zones[i])
    {
      MarkingKeepsExtents(m, first, number, flags, i);
    }
  }

  lemma StillEnough(zone: Zone, zone': Zone, number: nat)
    requires zone.free - number <= zone'.free <= zone.free && Enough(zone, 2 * number)
    ensures Enough(zone', number) && Enough(zone, number)
  {
    assert zone'.free % TWO_64 == zone.free % TWO_64 - (zone.free - zone'.free);
  }

  lemma StillClearIff(m: Memory, m': Memory, j: nat, k: nat, number: nat)
    requires 64 * (j / 64) + 128 <= |m.used| && j % 64 <= k < 64 - j % 64 && 1 <= number <= 64
    requires Clear(m.used, j / 64, k, number) && Marked(m, m', Block(j, k), number)
    ensures Clear(m'.used, j / 64, k, number) <==> number <= (if j % 64 == 0 then 1 else j % 64 - 1)
  {
    if number <= (if j % 64 == 0 then 1 else j % 64 - 1) {
      forall t | 0 <= t < number
        ensures !Taken(m'.used, j / 64, k, t)
      {
        assert !Taken(m.used, j / 64, k, t);
      }
    } else {
      var t := if j % 64 <= 1 then 0 else j % 64 - 1;
      assert m'.used[64 * (j / 64) + k + t];
      assert Taken(m'.used, j / 64, k, t);
    }
  }

  lemma NoNewHit(m: Memory, m': Memory, first: int, number: nat, i: nat, j: nat, k: nat)
    requires number <= 64 && Searchable(m) && Searchable(m') && Marked(m, m', first, number)
    requires i < |m.zones| == |m'.zones| && SameExtent(m.zones[i], m'.zones[i]) && Enough(m.zones[i], number)
    requires !Hit(m, number, i, j, k)
    ensures !Hit(m', number, i, j, k)
  {
    if Position(m.zones[i], j, k) {
      var t :| 0 <= t < number && Taken(m.used, j / 64, k, t);
      assert Taken(m'.used, j / 64, k, t);
    }
  }

  ghost predicate ZonesShrink(m: Memory, m': Memory, number: nat) {
    && |m'.zones| == |m.zones|
    && forall z :: 0 <= z < |m.zones| ==>
         && SameExtent(m.zones[z], m'.zones[z])
         && m.zones[z].free - number <= m'.zones[z].free <= m.zones[z].free
  }

  lemma MarkingShrinksZones(m: Memory, first: int, number: nat, flags: Word)
    requires AllOwned(m, first, number)
    ensures ZonesShrink(m, InitAll(m, first, number, flags), number)
  {
    var m' := InitAll(m, first, number, flags);
    forall z | 0 <= z < |m.zones|
      ensures SameExtent(m.zones[z], m'.zones[z])
      ensures m.zones[z].free - number <= m'.zones[z].free <= m.zones[z].free
    {
      MarkingKeepsExtents(m, first, number, flags, z);
    }
  }

  lemma SameHitIff(m: Memory, m': Memory, lo: nat, hi: int, number: nat, i: nat, j: nat, k: nat)
    requires 1 <= number <= 64 && Searchable(m) && Searchable(m')
    requires Marked(m, m', Block(j, k), number) && ZonesShrink(m, m', number)
    requires FirstHit(m, lo, hi, number, i, j, k)
    requires forall z :: lo <= z < i ==> Enough(m.zones[z], number)
    requires Enough(m.zones[i], 2 * number)
    ensures FirstHit(m', lo, hi, number, i, j, k) <==> number <= (if j % 64 == 0 then 1 else j % 64 - 1)
  {
    StillEnough(m.zones[i], m'.zones[i], number);
    StillClearIff(m, m', j, k, number);
    forall i': nat, j': nat, k': nat | lo <= i' && Earlier(i', j', k', i, j, k)
      ensures !Hit(m', number, i', j', k')
    {
      assert !Hit(m, number, i', j', k');
      assert Enough(m.zones[i'], number);
      NoNewHit(m, m', Block(j, k), number, i', j', k');
    }
  }

  /** If all zones up to the hit have pages to spare, the same request made again finds the
      same run, and is given the very same pages, if and only if the block lies clear of the
      bits that were tested. For one page that is every hit away from page 1 of a word. */
  lemma SameBlockAgainIff(m: Memory, cap: nat, lo: nat, hi: int, number: nat, i: nat, j: nat, k: nat, flags: Word)
    requires Consistent(m, cap) && Searchable(m) && 1 <= number <= 64 && flags != ZERO
    requires FirstHit(m, lo, hi, number, i, j, k) && AllOwned(m, Block(j, k), number)
    requires forall z :: lo <= z < i ==> Enough(m.zones[z], number)
    requires Enough(m.zones[i], 2 * number)
    ensures Searchable(InitAll(m, Block(j, k), number, flags))
    ensures FirstHit(InitAll(m, Block(j, k), number, flags), lo, hi, number, i, j, k)
        <==> number <= (if j % 64 == 0 then 1 else j % 64 - 1)
  {
    MarkingKeepsSearch(m, Block(j, k), number, flags);
    MarkingMarks(m, cap, Block(j, k), number, flags);
    MarkingShrinksZones(m, Block(j, k), number, flags);
    SameHitIff(m, InitAll(m, Block(j, k), number, flags), lo, hi, number, i, j, k);
  }

  /** If the lowest clear bit lies in the first word, a one-page request to a zone that starts
      at page 0 or 1 finds it. */
  lemma FirstClearBitIsFirstHit(m: Memory, hi: nat, b: nat)
    requires Searchable(m) && |m.zones| >= 1 && Enough(m.zones[0], 1)
    requires StartPage(m.zones[0]) <= 1 && StartPage(m.zones[0]) <= EndPage(m.zones[0])
    requires 1 <= b < 63 && |m.used| >= 128 && !m.used[b]
    requires forall p :: 0 <= p < b ==> m.used[p]
    ensures FirstHit(m, 0, hi, 1, 0, StartPage(m.zones[0]), b)
  {
    var start := StartPage(m.zones[0]);
    assert Hit(m, 1, 0, start, b) by {
      assert !Taken(m.used, 0, b, 0);
    }
    forall i': nat, j': nat, k': nat | Earlier(i', j', k', 0, start, b)
      ensures !Hit(m, 1, i', j', k')
    {
      if Position(m.zones[0], j', k') {
        assert j' == start && Taken(m.used, 0, k', 0);
      }
    }
  }

  /** A zone's first word is examined at all exactly when its start page lies in the lower
      half of the word. */
  lemma FirstWordExaminedIff(zone: Zone)
    requires StartPage(zone) <= EndPage(zone)
    ensures (exists k :: Position(zone, StartPage(zone), k)) <==> StartPage(zone) % 64 < 32
  {
    if StartPage(zone) % 64 < 32 {
      assert Position(zone, StartPage(zone), StartPage(zone) % 64);
    }
  }
}
