/** The 4-level page walk, the tables the two kernels boot with, and the software walk of
    the rust kernel. Section 4.5 of the Intel SDM Volume 3A describes the walk. */
module PageTables {
  import opened MachineWords
  import opened Division
  import opened Wrappers

  const SIZE_4K: nat := 0x1000
  const SIZE_2M: nat := 0x20_0000
  const SIZE_1G: nat := 0x4000_0000
  const SIZE_512G: nat := 0x80_0000_0000
  const TWO_47: nat := 0x8000_0000_0000

  /** Physical memory by the address of its 8-byte words. */
  type Memory = nat -> nat

  predicate Canonical(v: nat) { v < TWO_47 || TWO_64 - TWO_47 <= v < TWO_64 }

  /** Bits 63 to 47 are all equal. */
  lemma CanonicalIff(v: nat)
    ensures Canonical(v) <==> v / 0x8000_0000_0000 == 0 || v / 0x8000_0000_0000 == 0x1_ffff
  {}

  function P4(v: nat): nat { v / SIZE_512G % 512 }
  function P3(v: nat): nat { v / SIZE_1G % 512 }
  function P2(v: nat): nat { v / SIZE_2M % 512 }
  function P1(v: nat): nat { v / SIZE_4K % 512 }

  predicate Present(entry: nat) { entry % 2 == 1 }

  /** Bit 7: a large page in the two middle levels. */
  predicate Huge(entry: nat) { entry / 128 % 2 == 1 }

  /** The physical address in bits 51 to 12. */
  function Frame(entry: nat): nat { entry / SIZE_4K % 0x100_0000_0000 * SIZE_4K }

  /** The start of the large page of that size the entry names. */
  function LargeFrame(entry: nat, size: nat): nat
    requires size > 0
  {
    Frame(entry) / size * size
  }

  function EntryAt(mem: Memory, table: nat, index: nat): nat { mem(table + 8 * index) }

  function Index(v: nat, level: nat): nat {
    if level == 0 then P4(v) else if level == 1 then P3(v) else if level == 2 then P2(v) else P1(v)
  }

  /** The processor's walk from a table on; level 4 is the frame itself. A large page ends
      it early; bit 7 is reserved in the first level and means no large page in the last. */
  function WalkFrom(mem: Memory, table: nat, v: nat, level: nat): Option<nat>
    decreases 4 - level
  {
    if level >= 4 then Some(table + v % SIZE_4K)
    else
      var e := EntryAt(mem, table, Index(v, level));
      if !Present(e) then None
      else if Huge(e) && level == 0 then None
      else if Huge(e) && level == 1 then Some(LargeFrame(e, SIZE_1G) + v % SIZE_1G)
      else if Huge(e) && level == 2 then Some(LargeFrame(e, SIZE_2M) + v % SIZE_2M)
      else WalkFrom(mem, Frame(e), v, level + 1)
  }

  /** What the processor makes of a canonical address. */
  function Walk(mem: Memory, cr3: nat, v: nat): Option<nat> { WalkFrom(mem, cr3, v, 0) }

  // ----- entries and pages by their numbers

  /** An entry for the 4 KiB frame at `frame`: flags in bits 11 to 0, and bits 63 to 52, among
      them the no-execute bit, in `high`. */
  function MakeEntry(frame: nat, flags: nat, high: nat): nat { frame + flags + 0x10_0000_0000_0000 * high }

  predicate GoodFrame(frame: nat) { frame % 0x1000 == 0 && frame < 0x10_0000_0000_0000 }

  /** Flags of an entry that is present, bit 0, and no large page, bit 7. */
  predicate LinkFlags(flags: nat) { flags < 0x1000 && flags % 2 == 1 && flags / 128 % 2 == 0 }

  lemma EntryFacts(frame: nat, flags: nat, high: nat)
    requires GoodFrame(frame) && flags < 0x1000
    ensures var e := MakeEntry(frame, flags, high);
      && Frame(e) == frame && (Present(e) <==> flags % 2 == 1) && (Huge(e) <==> flags / 128 % 2 == 1)
  {
    var e, q := MakeEntry(frame, flags, high), frame / 0x1000;
    Divides(e, 0x1000, q + 0x100_0000_0000 * high, flags);
    Divides(q + 0x100_0000_0000 * high, 0x100_0000_0000, high, q);
    Divides(e, 2, 0x800 * q + 0x8_0000_0000_0000 * high + flags / 2, flags % 2);
    var u := 32 * q + 0x2000_0000_0000 * high + flags / 128;
    Divides(e, 128, u, flags % 128);
    Divides(u, 2, 16 * q + 0x1000_0000_0000 * high + flags / 256, flags / 128 % 2);
  }

  /** Four linked entries, picked by bits 47 to 39, 38 to 30, 29 to 21 and 20 to 12 of the
      address, map its 4 KiB page, whatever bits 63 to 52 of the entries are. */
  lemma MapsPage(mem: Memory, frames: seq<nat>, flags: seq<nat>, high: seq<nat>, v: nat)
    requires |frames| == 5 && |flags| == |high| == 4
    requires forall i :: 0 <= i < 4 ==> GoodFrame(frames[i + 1]) && LinkFlags(flags[i])
    requires mem(frames[0] + 8 * (v / 0x80_0000_0000 % 512)) == MakeEntry(frames[1], flags[0], high[0])
    requires mem(frames[1] + 8 * (v / 0x4000_0000 % 512)) == MakeEntry(frames[2], flags[1], high[1])
    requires mem(frames[2] + 8 * (v / 0x20_0000 % 512)) == MakeEntry(frames[3], flags[2], high[2])
    requires mem(frames[3] + 8 * (v / 0x1000 % 512)) == MakeEntry(frames[4], flags[3], high[3])
    ensures Walk(mem, frames[0], v) == Some(frames[4] + v % 0x1000)
  {
    WalksOn(mem, frames[0], v, 0, frames[1], flags[0], high[0]);
    WalksOn(mem, frames[1], v, 1, frames[2], flags[1], high[1]);
    WalksOn(mem, frames[2], v, 2, frames[3], flags[2], high[2]);
    WalksOn(mem, frames[3], v, 3, frames[4], flags[3], high[3]);
  }

  lemma WalksOn(mem: Memory, table: nat, v: nat, level: nat, frame: nat, flags: nat, high: nat)
    requires level < 4 && GoodFrame(frame) && LinkFlags(flags)
    requires EntryAt(mem, table, Index(v, level)) == MakeEntry(frame, flags, high)
    ensures WalkFrom(mem, table, v, level) == WalkFrom(mem, frame, v, level + 1)
  {
    EntryFacts(frame, flags, high);
  }

  // ----- the boot tables of the rust kernel

  /** Three tables in different pages below 4 GiB. */
  predicate Placed(p4: nat, p3: nat, p2: nat) {
    && p4 % SIZE_4K == 0 && p3 % SIZE_4K == 0 && p2 % SIZE_4K == 0
    && p4 != p3 && p4 != p2 && p3 != p2
    && p4 < 0x1_0000_0000 && p3 < 0x1_0000_0000 && p2 < 0x1_0000_0000
  }

  ghost predicate Zeroed(mem: Memory, table: nat) {
    forall i {:trigger EntryAt(mem, table, i)} :: 0 <= i < 512 ==> EntryAt(mem, table, i) == 0
  }

  ghost predicate FirstEntryOnly(mem: Memory, table: nat, entry: nat) {
    forall i {:trigger EntryAt(mem, table, i)} :: 0 <= i < 512 ==> EntryAt(mem, table, i) == if i == 0 then entry else 0
  }

  /** The tables of set_up_page_tables. */
  ghost predicate IdentityTables(mem: Memory, p4: nat, p3: nat, p2: nat) {
    && FirstEntryOnly(mem, p4, p3 + 3) && FirstEntryOnly(mem, p3, p2 + 3)
    && forall i {:trigger EntryAt(mem, p2, i)} :: 0 <= i < 512 ==> EntryAt(mem, p2, i) == SIZE_2M * i + 0x83
  }

  class BootMemory {
    var mem: Memory

    /** A store of the 8 bytes of an entry. */
    method Write(table: nat, index: nat, value: nat)
      requires table % SIZE_4K == 0 && index < 512
      modifies this
      ensures forall t: nat, i: nat {:trigger EntryAt(mem, t, i)} :: t % SIZE_4K == 0 && i < 512 ==>
        EntryAt(mem, t, i) == if t == table && i == index then value else EntryAt(old(mem), t, i)
    {
      var before, a := mem, table + 8 * index;
      mem := x => if x == a then value else before(x);
      forall t: nat, i: nat | t % SIZE_4K == 0 && i < 512
        ensures EntryAt(mem, t, i) == if t == table && i == index then value else EntryAt(before, t, i)
      {
        TablesAreApart(t, table);
      }
    }

    /** mov [table + index * 8], eax: only the lower 4 bytes of the entry are stored. */
    method WriteLow(table: nat, index: nat, eax: nat)
      requires table % SIZE_4K == 0 && index < 512 && eax < TWO_32
      modifies this
      ensures forall t: nat, i: nat {:trigger EntryAt(mem, t, i)} :: t % SIZE_4K == 0 && i < 512 ==>
        EntryAt(mem, t, i) == if t == table && i == index then LowStored(EntryAt(old(mem), t, i), eax)
                              else EntryAt(old(mem), t, i)
    {
      Write(table, index, LowStored(EntryAt(mem, table, index), eax));
    }

    /** set_up_page_tables, over tables in zeroed memory: the upper halves of the entries are
        never written. The flags are or-ed into aligned addresses, which is adding them. */
    method SetUpPageTables(p4: nat, p3: nat, p2: nat)
      requires Placed(p4, p3, p2)
      requires Zeroed(mem, p4) && Zeroed(mem, p3) && Zeroed(mem, p2)
      modifies this
      ensures IdentityTables(mem, p4, p3, p2)
    {
      WriteLow(p4, 0, p3 + 3);
      WriteLow(p3, 0, p2 + 3);
      var ecx := 0;
      while ecx != 512
        invariant 0 <= ecx <= 512
        invariant FirstEntryOnly(mem, p4, p3 + 3) && FirstEntryOnly(mem, p3, p2 + 3)
        invariant forall i {:trigger EntryAt(mem, p2, i)} :: 0 <= i < 512 ==>
          EntryAt(mem, p2, i) == if i < ecx then SIZE_2M * i + 0x83 else 0
        decreases 512 - ecx
      {
        var eax := SIZE_2M * ecx + 0x83;
        WriteLow(p2, ecx, eax);
        ecx := ecx + 1;
      }
    }
  }

  /** An entry whose lower half is replaced. */
  function LowStored(entry: nat, eax: nat): nat { entry / TWO_32 * TWO_32 + eax }

  /** Tables in different pages share no entry. */
  lemma TablesAreApart(p: nat, q: nat)
    requires p % SIZE_4K == 0 && q % SIZE_4K == 0
    ensures p == q || p + SIZE_4K <= q || q + SIZE_4K <= p
  {}

  lemma TableEntry(p: nat)
    requires p % SIZE_4K == 0 && p < 0x1_0000_0000
    ensures Present(p + 3) && !Huge(p + 3) && Frame(p + 3) == p
  {
    var q := p / SIZE_4K;
    Divides(p + 3, 2, SIZE_4K / 2 * q + 1, 1);
    Divides(p + 3, 128, 32 * q, 3);
    Divides(32 * q, 2, 16 * q, 0);
    Divides(p + 3, SIZE_4K, q, 3);
    Divides(q, 0x100_0000_0000, 0, q);
  }

  /** A large page below 512 GiB: present, writable and large. */
  lemma LargeEntry(i: nat)
    requires i < 0x4_0000
    ensures var e := SIZE_2M * i + 0x83; Present(e) && Huge(e) && LargeFrame(e, SIZE_2M) == SIZE_2M * i
  {
    var e := SIZE_2M * i + 0x83;
    Divides(e, 2, SIZE_2M / 2 * i + 0x41, 1);
    Divides(e, 128, 0x4000 * i + 1, 3);
    Divides(0x4000 * i + 1, 2, 0x2000 * i, 1);
    Divides(e, SIZE_4K, 512 * i, 0x83);
    Divides(512 * i, 0x100_0000_0000, 0, 512 * i);
    Divides(SIZE_2M * i, SIZE_2M, i, 0);
  }

  /** The boot tables map the first GiB to itself and no other canonical address. */
  lemma IdentityMapsFirstGiB(mem: Memory, p4: nat, p3: nat, p2: nat, v: nat)
    requires Placed(p4, p3, p2) && IdentityTables(mem, p4, p3, p2) && Canonical(v)
    ensures Walk(mem, p4, v) == if v < SIZE_1G then Some(v) else None
  {
    TableEntry(p3);
    TableEntry(p2);
    LargeEntry(P2(v));
    assert EntryAt(mem, p4, P4(v)) == if P4(v) == 0 then p3 + 3 else 0;
    assert EntryAt(mem, p3, P3(v)) == if P3(v) == 0 then p2 + 3 else 0;
    assert EntryAt(mem, p2, P2(v)) == SIZE_2M * P2(v) + 0x83;
    LowAddress(v);
    if v < SIZE_1G {
      assert Walk(mem, p4, v) == WalkFrom(mem, p3, v, 1) == WalkFrom(mem, p2, v, 2);
    } else if P4(v) == 0 {
      assert Walk(mem, p4, v) == WalkFrom(mem, p3, v, 1) == None;
    }
  }

  /** The canonical addresses below 1 GiB are those with both upper indices 0. */
  lemma LowAddress(v: nat)
    requires Canonical(v)
    ensures v < SIZE_1G <==> P4(v) == 0 && P3(v) == 0
    ensures v < SIZE_1G ==> SIZE_2M * P2(v) + v % SIZE_2M == v
  {}

  // ----- the static tables of the cOS kernel

  /** __PML4E, __PDPTE and __PDE, behind the kernel's load address 0x100000 */
  const PML4: nat := 0x10_1000
  const PDPT: nat := 0x10_2000
  const PD: nat := 0x10_3000

  /** The 13 large pages: 10 MiB from 0, and 16 MiB of frame buffer. */
  function PdEntry(i: nat): nat {
    if i < 5 then SIZE_2M * i + 0x83 else if i < 13 then 0xe000_0000 + SIZE_2M * (i - 5) + 0x83 else 0
  }

  /** `low` says whether entry 0 of __PML4E is still there. */
  ghost predicate StaticTables(mem: Memory, low: bool) {
    && (forall i {:trigger EntryAt(mem, PML4, i)} :: 0 <= i < 512 ==>
          EntryAt(mem, PML4, i) == if (i == 0 && low) || i == 256 then 0x10_2007 else 0)
    && (forall i {:trigger EntryAt(mem, PDPT, i)} :: 0 <= i < 512 ==>
          EntryAt(mem, PDPT, i) == if i == 0 then 0x10_3003 else 0)
    && (forall i {:trigger EntryAt(mem, PD, i)} :: 0 <= i < 512 ==> EntryAt(mem, PD, i) == PdEntry(i))
  }

  /** init_memory's loop over the first ten entries of the top-level table. */
  method ClearLowEntries(m: BootMemory)
    requires StaticTables(m.mem, true)
    modifies m
    ensures StaticTables(m.mem, false)
  {
    ghost var before := m.mem;
    var i := 0;
    while i < 10
      invariant 0 <= i <= 10
      invariant forall t: nat, k: nat {:trigger EntryAt(m.mem, t, k)} :: t % SIZE_4K == 0 && k < 512 ==>
        EntryAt(m.mem, t, k) == if t == PML4 && k < i then 0 else EntryAt(before, t, k)
    {
      m.Write(PML4, i, 0);
      i := i + 1;
    }
  }

  /** What the static tables map: the address less PAGE_OFFSET, if that is below 10 MiB. */
  function StaticMap(v: nat, low: bool): Option<nat> {
    var a: int := if v >= PAGE_OFFSET then v - PAGE_OFFSET else v;
    if v < PAGE_OFFSET && !low then None
    else if a < 5 * SIZE_2M then Some(a)
    else if a < 13 * SIZE_2M then Some(0xe000_0000 + (a - 5 * SIZE_2M))
    else None
  }

  /** The tables agree with Virt_To_Phy on the kernel's half, before and after the low
      entries are cleared, and map nothing besides the frame buffer. */
  lemma StaticTablesMapExactly(mem: Memory, v: nat, low: bool)
    requires StaticTables(mem, low) && Canonical(v)
    ensures Walk(mem, PML4, v) == StaticMap(v, low)
  {
    assert EntryAt(mem, PML4, P4(v)) == if (P4(v) == 0 && low) || P4(v) == 256 then 0x10_2007 else 0;
    assert EntryAt(mem, PDPT, P3(v)) == if P3(v) == 0 then 0x10_3003 else 0;
    assert EntryAt(mem, PD, P2(v)) == PdEntry(P2(v));
    PdEntryFacts(P2(v));
    HalfAddress(v);
    StaticEntryFacts();
    if (P4(v) == 0 && low) || P4(v) == 256 {
      assert Walk(mem, PML4, v) == WalkFrom(mem, PDPT, v, 1);
      if P3(v) == 0 {
        assert WalkFrom(mem, PDPT, v, 1) == WalkFrom(mem, PD, v, 2);
      }
    }
  }

  lemma StaticEntryFacts()
    ensures Present(0x10_2007) && !Huge(0x10_2007) && Frame(0x10_2007) == PDPT
    ensures Present(0x10_3003) && !Huge(0x10_3003) && Frame(0x10_3003) == PD
  {}

  lemma PdEntryFacts(i: nat)
    requires i < 512
    ensures Present(PdEntry(i)) <==> i < 13
    ensures i < 13 ==> Huge(PdEntry(i))
    ensures i < 13 ==>
      LargeFrame(PdEntry(i), SIZE_2M) == if i < 5 then SIZE_2M * i else 0xe000_0000 + SIZE_2M * (i - 5)
  {
    if i < 13 {
      LargeEntry(if i < 5 then i else 0x700 + i - 5);
    }
  }

  lemma HalfAddress(v: nat)
    requires Canonical(v)
    ensures var a: int := if v >= PAGE_OFFSET then v - PAGE_OFFSET else v;
      && (P4(v) == 0 && P3(v) == 0 <==> v < SIZE_1G)
      && (P4(v) == 256 && P3(v) == 0 <==> PAGE_OFFSET <= v < PAGE_OFFSET + SIZE_1G)
      && (a < SIZE_1G ==> a == SIZE_2M * P2(v) + v % SIZE_2M)
  {}

  // ----- translate_addr_inner

  /** A frame, nothing mapped, or the panic on a huge page. */
  datatype Translation = Found(phys: nat) | NotMapped | HugePanic

  /** From this table on, the first entry that is absent or has bit 7 set is present. */
  predicate MeetsHuge(mem: Memory, table: nat, v: nat, level: nat)
    decreases 4 - level
  {
    level < 4
    && var e := EntryAt(mem, table, Index(v, level));
       Present(e) && (Huge(e) || MeetsHuge(mem, Frame(e), v, level + 1))
  }

  /** Level by level; entry.frame() is the error for an absent entry, the error for one with
      bit 7 set, or its frame. A frame it finds is the processor's; where it finds nothing
      there is nothing; and it panics exactly if it meets bit 7. */
  method TranslateAddr(mem: Memory, cr3: nat, v: nat) returns (r: Translation)
    ensures r.Found? ==> Walk(mem, cr3, v) == Some(r.phys)
    ensures r.NotMapped? ==> Walk(mem, cr3, v) == None
    ensures r.HugePanic? <==> MeetsHuge(mem, cr3, v, 0)
  {
    var frame: nat := cr3;
    for level := 0 to 4
      invariant Walk(mem, cr3, v) == WalkFrom(mem, frame, v, level)
      invariant MeetsHuge(mem, cr3, v, 0) == MeetsHuge(mem, frame, v, level)
    {
      var entry := EntryAt(mem, frame, Index(v, level));
      if !Present(entry) {
        return NotMapped;
      } else if Huge(entry) {
        return HugePanic;
      }
      frame := Frame(entry);
    }
    return Found(frame + v % SIZE_4K);
  }
}
