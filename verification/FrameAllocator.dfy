/** The rust kernel's frame allocator: each call walks the boot loader's map again and takes
    the frame after the one before. */
module FrameAllocator {
  import opened Wrappers

  const FRAME: nat := 0x1000

  /** A region of the map, from one frame number up to another. */
  datatype Region = Region(first: nat, end: nat, usable: bool)

  /** (start..end).step_by(0x1000) */
  function Stepped(start: nat, end: nat): seq<nat>
    decreases end - start
  {
    if start >= end then [] else [start] + Stepped(start + FRAME, end)
  }

  /** PhysFrame::containing_address */
  function Containing(addr: nat): nat { addr / FRAME }

  function FramesOf(addrs: seq<nat>): (frames: seq<nat>)
    ensures |frames| == |addrs| && forall i :: 0 <= i < |addrs| ==> frames[i] == Containing(addrs[i])
  {
    seq(|addrs|, i requires 0 <= i < |addrs| => Containing(addrs[i]))
  }

  /** usable_frames: filter, flat_map and map over the regions. */
  function UsableFrames(regions: seq<Region>): seq<nat> {
    if regions == [] then []
    else
      var r := regions[0];
      (if r.usable then FramesOf(Stepped(r.first * FRAME, r.end * FRAME)) else []) + UsableFrames(regions[1..])
  }

  class BootInfoFrameAllocator {
    const memMap: seq<Region>
    var next: nat

    constructor (memMap: seq<Region>)
      ensures this.memMap == memMap && next == 0
    {
      this.memMap, next := memMap, 0;
    }

    /** The iterator's nth(next): the frames are produced one by one and counted off. */
    method Nth(n: nat) returns (frame: Option<nat>)
      ensures frame == Taken(memMap, n)
    {
      var left, i := n, 0;
      while i < |memMap|
        invariant 0 <= i <= |memMap|
        invariant Taken(memMap, n) == Taken(memMap[i..], left)
      {
        assert memMap[i..][1..] == memMap[i + 1..];
        if memMap[i].usable {
          var addr, end := memMap[i].first * FRAME, memMap[i].end * FRAME;
          while addr < end
            invariant Taken(memMap, n) == Pick(FramesOf(Stepped(addr, end)) + UsableFrames(memMap[i + 1..]), left)
            decreases end - addr
          {
            NextStep(addr, end, UsableFrames(memMap[i + 1..]));
            if left == 0 {
              return Some(Containing(addr));
            }
            addr, left := addr + FRAME, left - 1;
          }
          assert FramesOf(Stepped(addr, end)) + UsableFrames(memMap[i + 1..]) == UsableFrames(memMap[i + 1..]);
        } else {
          assert [] + UsableFrames(memMap[i + 1..]) == UsableFrames(memMap[i + 1..]);
        }
        i := i + 1;
      }
      assert memMap[i..] == [];
      return None;
    }

    /** The n-th call returns the n-th usable frame, and nothing from the first call on that
        finds none. */
    method AllocateFrame() returns (frame: Option<nat>)
      modifies this
      ensures frame == Taken(memMap, old(next)) && next == old(next) + 1
    {
      frame := Nth(next);
      next := next + 1;
    }
  }

  function Pick(frames: seq<nat>, n: nat): Option<nat> {
    if n < |frames| then Some(frames[n]) else None
  }

  /** What call number n returns. */
  function Taken(regions: seq<Region>, n: nat): Option<nat> { Pick(UsableFrames(regions), n) }

  lemma NextStep(addr: nat, end: nat, rest: seq<nat>)
    requires addr < end
    ensures FramesOf(Stepped(addr, end)) + rest == [Containing(addr)] + (FramesOf(Stepped(addr + FRAME, end)) + rest)
  {}

  // ----- what the calls return between them

  predicate Contains(r: Region, f: nat) { r.usable && r.first <= f < r.end }

  lemma {:induction false} SteppedFrames(first: nat, end: nat)
    ensures |Stepped(first * FRAME, end * FRAME)| == if first < end then end - first else 0
    ensures forall i :: 0 <= i < |Stepped(first * FRAME, end * FRAME)| ==>
      Stepped(first * FRAME, end * FRAME)[i] == (first + i) * FRAME
    decreases end - first
  {
    if first < end {
      var s, tail := Stepped(first * FRAME, end * FRAME), Stepped((first + 1) * FRAME, end * FRAME);
      SteppedFrames(first + 1, end);
      assert s == [first * FRAME] + tail;
      forall i | 0 <= i < |s|
        ensures s[i] == (first + i) * FRAME
      {
        assert i > 0 ==> s[i] == tail[i - 1];
      }
    }
  }

  function RegionFrames(r: Region): seq<nat> {
    if r.usable then FramesOf(Stepped(r.first * FRAME, r.end * FRAME)) else []
  }

  lemma RegionFramesAre(r: Region, f: nat)
    ensures f in RegionFrames(r) <==> Contains(r, f)
    ensures forall i, j :: 0 <= i < j < |RegionFrames(r)| ==> RegionFrames(r)[i] != RegionFrames(r)[j]
  {
    if r.usable {
      var frames := RegionFrames(r);
      SteppedFrames(r.first, r.end);
      forall i | 0 <= i < |frames|
        ensures frames[i] == r.first + i
      {}
      if Contains(r, f) {
        assert frames[f - r.first] == f;
      }
    }
  }

  /** Exactly the frames of usable regions are ever returned. */
  lemma ReturnedIffUsable(regions: seq<Region>, f: nat)
    ensures (exists n :: Taken(regions, n) == Some(f)) <==> (exists i :: 0 <= i < |regions| && Contains(regions[i], f))
  {
    FramesIffUsable(regions, f);
    var frames := UsableFrames(regions);
    if f in frames {
      var n :| 0 <= n < |frames| && frames[n] == f;
      assert Taken(regions, n) == Some(f);
    }
  }

  lemma {:induction false} FramesIffUsable(regions: seq<Region>, f: nat)
    ensures f in UsableFrames(regions) <==> exists i :: 0 <= i < |regions| && Contains(regions[i], f)
  {
    if regions != [] {
      RegionFramesAre(regions[0], f);
      FramesIffUsable(regions[1..], f);
      if i :| 0 <= i < |regions[1..]| && Contains(regions[1..][i], f) {
        assert Contains(regions[i + 1], f);
      }
      if i :| 0 <= i < |regions| && Contains(regions[i], f) {
        assert i > 0 ==> Contains(regions[1..][i - 1], f);
      }
    }
  }

  /** The frames of a region come in order, and those of a region before those of the next. */
  lemma {:induction false} RegionsInOrder(before: seq<Region>, after: seq<Region>)
    ensures UsableFrames(before + after) == UsableFrames(before) + UsableFrames(after)
  {
    if before == [] {
      assert before + after == after;
    } else {
      assert (before + after)[1..] == before[1..] + after;
      RegionsInOrder(before[1..], after);
      assert RegionFrames(before[0]) + (UsableFrames(before[1..]) + UsableFrames(after))
          == RegionFrames(before[0]) + UsableFrames(before[1..]) + UsableFrames(after);
    }
  }

  lemma FirstRegion(regions: seq<Region>, k: nat)
    requires regions != [] && regions[0].usable && regions[0].first + k < regions[0].end
    ensures k < |UsableFrames(regions)| && UsableFrames(regions)[k] == regions[0].first + k
  {
    SteppedFrames(regions[0].first, regions[0].end);
    assert RegionFrames(regions[0])[k] == regions[0].first + k;
  }

  /** Frame k of region i is returned when the frames of all regions before it have been. */
  lemma FrameOfRegion(regions: seq<Region>, i: nat, k: nat)
    requires i < |regions| && regions[i].usable && regions[i].first + k < regions[i].end
    ensures Taken(regions, |UsableFrames(regions[..i])| + k) == Some(regions[i].first + k)
  {
    assert regions == regions[..i] + regions[i..];
    RegionsInOrder(regions[..i], regions[i..]);
    FirstRegion(regions[i..], k);
  }

  ghost predicate DisjointRegions(regions: seq<Region>) {
    forall i, j, f :: 0 <= i < j < |regions| ==> !(Contains(regions[i], f) && Contains(regions[j], f))
  }

  ghost predicate NeverTwice(frames: seq<nat>) {
    forall i, j :: 0 <= i < j < |frames| ==> frames[i] != frames[j]
  }

  /** No frame is returned twice exactly if no two usable regions share one. */
  lemma {:induction false} NeverTwiceIff(regions: seq<Region>)
    ensures NeverTwice(UsableFrames(regions)) <==> DisjointRegions(regions)
  {
    if regions != [] {
      var r, rest := regions[0], regions[1..];
      var head, tail := RegionFrames(r), UsableFrames(rest);
      RegionFramesAre(r, 0);
      NeverTwiceIff(rest);
      SharedIff(r, rest);
      AppendNeverTwice(head, tail);
      if DisjointRegions(regions) {
        forall i, j, f | 0 <= i < j < |rest|
          ensures !(Contains(rest[i], f) && Contains(rest[j], f))
        {
          assert rest[i] == regions[i + 1] && rest[j] == regions[j + 1];
        }
        forall j, f | 0 <= j < |rest|
          ensures !(Contains(r, f) && Contains(rest[j], f))
        {
          assert rest[j] == regions[j + 1];
        }
      } else {
        var i, j, f :| 0 <= i < j < |regions| && Contains(regions[i], f) && Contains(regions[j], f);
        assert Contains(rest[j - 1], f);
        if i > 0 {
          assert Contains(rest[i - 1], f);
        }
      }
    }
  }

  lemma SharedIff(r: Region, rest: seq<Region>)
    ensures (exists f :: f in RegionFrames(r) && f in UsableFrames(rest))
        <==> (exists j, f :: 0 <= j < |rest| && Contains(r, f) && Contains(rest[j], f))
  {
    if f :| f in RegionFrames(r) && f in UsableFrames(rest) {
      RegionFramesAre(r, f);
      FramesIffUsable(rest, f);
    }
    if j, f :| 0 <= j < |rest| && Contains(r, f) && Contains(rest[j], f) {
      RegionFramesAre(r, f);
      FramesIffUsable(rest, f);
    }
  }

  lemma SharedComesTwice(s: seq<nat>, t: seq<nat>, f: nat)
    requires f in s && f in t
    ensures !NeverTwice(s + t)
  {
    var i :| 0 <= i < |s| && s[i] == f;
    var j :| 0 <= j < |t| && t[j] == f;
    assert (s + t)[i] == (s + t)[|s| + j];
  }

  lemma AppendNeverTwice(s: seq<nat>, t: seq<nat>)
    requires NeverTwice(s)
    ensures NeverTwice(s + t) <==> NeverTwice(t) && !(exists f :: f in s && f in t)
  {
    if NeverTwice(s + t) {
      forall i, j | 0 <= i < j < |t|
        ensures t[i] != t[j]
      {
        assert (s + t)[|s| + i] == t[i] && (s + t)[|s| + j] == t[j];
      }
      if f :| f in s && f in t {
        SharedComesTwice(s, t, f);
      }
    } else {
      var i, j :| 0 <= i < j < |s + t| && (s + t)[i] == (s + t)[j];
      var f := (s + t)[i];
      assert j >= |s|;
      assert f == t[j - |s|];
      if i < |s| {
        assert f == s[i];
        assert f in s && f in t;
      } else {
        assert t[i - |s|] == t[j - |s|];
      }
    }
  }

  /** Once a call finds nothing, so do all later ones. */
  lemma NothingStaysNothing(regions: seq<Region>, m: nat, n: nat)
    requires m <= n && Taken(regions, m) == None
    ensures Taken(regions, n) == None
  {}
}
