/**
 * Address and entry arithmetic shared by both page-table versions (mp3 and
 * mp4): the split of a 32-bit virtual address into a directory index, a
 * table index and an offset, and the 32-bit entry format (frame address in
 * the top 20 bits, present in bit 0, writable in bit 1).
 *
 * Words are bounded integers; each shift, mask and OR of the source is
 * written out as the division, remainder or sum it computes on a 32-bit
 * unsigned word, with the truncation of a left shift made explicit.
 */
module Paging {
  import opened Common

  const PAGE_SIZE: nat := 4096
  /** Entries in a page directory and in a page table. */
  const ENTRIES: nat := 1024
  /** Bytes mapped by one directory entry: 4 MiB. */
  const DIR_SPAN: nat := 0x40_0000
  /** Frames addressable with 32-bit physical addresses. */
  const MAX_FRAME: nat := 0x10_0000
  /** Supervisor, writable, not present: the entry both versions store for an unmapped slot. */
  const NOT_PRESENT: u32 := 2

  /** The directory index of a virtual address: a >> 22. */
  function DirIndex(a: u32): (d: nat)
    ensures d < ENTRIES
  {
    a / DIR_SPAN
  }

  /** The table index of a virtual address as handle_fault extracts it: (a >> 12) & 1023. */
  function TableIndex(a: u32): (t: nat)
    ensures t < ENTRIES
  {
    (a / PAGE_SIZE) % ENTRIES
  }

  /** The table index as free_page extracts it: (a << 10) >> 22, the shift truncated to 32 bits. */
  function FreePageIndex(a: u32): nat
  {
    Wrap32(a * ENTRIES) / DIR_SPAN
  }

  /** The two indices and the page offset put the address back together. */
  lemma AddressSplit(a: u32)
    ensures a == DirIndex(a) * DIR_SPAN + TableIndex(a) * PAGE_SIZE + a % PAGE_SIZE
  {
    var p := a / PAGE_SIZE;
    assert a == p * PAGE_SIZE + a % PAGE_SIZE;
    assert p == (p / ENTRIES) * ENTRIES + p % ENTRIES;
    assert p / ENTRIES == a / DIR_SPAN;
  }

  /**
   * The two extractions agree: truncating the left shift to 32 bits drops
   * the directory bits, leaving bits 12 to 21 on top.
   */
  lemma FreePageIndexAgrees(a: u32)
    ensures FreePageIndex(a) == TableIndex(a)
  {
    var q := a / DIR_SPAN;
    var r := a % DIR_SPAN;
    assert a == q * DIR_SPAN + r;
    assert a * ENTRIES == q * TWO_32 + r * ENTRIES;
    assert 0 <= r * ENTRIES < TWO_32;
    assert Wrap32(a * ENTRIES) == r * ENTRIES by {
      assert (r * ENTRIES - a * ENTRIES) == -q * TWO_32;
    }
    assert r * ENTRIES / DIR_SPAN == r / PAGE_SIZE;
    assert a / PAGE_SIZE == q * ENTRIES + r / PAGE_SIZE;
  }

  /** The physical address of frame f: f * PAGE_SIZE, which fits in 32 bits. */
  function FrameAddress(f: nat): (addr: u32)
    requires f < MAX_FRAME
    ensures addr % PAGE_SIZE == 0 && addr / PAGE_SIZE == f
  {
    f * PAGE_SIZE
  }

  /** x | 3 on a 32-bit word: both low bits set, the rest kept. */
  function Or3(x: u32): (y: u32)
    ensures y / 4 == x / 4 && y % 4 == 3
  {
    x - x % 4 + 3
  }

  /** A present, writable entry mapping frame f: the frame's address OR 3. */
  function MapEntry(f: nat): u32
    requires f < MAX_FRAME
  {
    Or3(FrameAddress(f))
  }

  /** Bit 0 of an entry. */
  predicate Present(e: u32) {
    e % 2 == 1
  }

  /**
   * The frame an entry refers to: the entry divided by PAGE_SIZE (mp4's
   * free_page), the same as its low 12 bits cleared (mp3's fault handler),
   * divided by PAGE_SIZE.
   */
  function EntryFrame(e: u32): (f: nat)
    ensures f < MAX_FRAME && f * PAGE_SIZE == e - e % PAGE_SIZE
  {
    e / PAGE_SIZE
  }

  /**
   * A mapping entry is present, refers back to its frame and is the frame's
   * address plus 3; an unmapped entry is not present.
   */
  lemma MapEntryDecodes(f: nat)
    requires f < MAX_FRAME
    ensures Present(MapEntry(f)) && EntryFrame(MapEntry(f)) == f
    ensures MapEntry(f) == f * PAGE_SIZE + 3
    ensures !Present(NOT_PRESENT)
  {
    assert MapEntry(f) == f * PAGE_SIZE + 3;
  }

  /** A page table of unmapped entries. */
  function Unmapped(): (t: seq<u32>)
    ensures |t| == ENTRIES && forall i :: 0 <= i < ENTRIES ==> t[i] == NOT_PRESENT
  {
    seq(ENTRIES, _ => NOT_PRESENT)
  }

  /** The identity map of the first 4 MiB: entry i maps frame i. */
  function Identity(): (t: seq<u32>)
    ensures |t| == ENTRIES && forall i :: 0 <= i < ENTRIES ==> t[i] == MapEntry(i)
  {
    seq(ENTRIES, i requires 0 <= i < ENTRIES => MapEntry(i))
  }

  /**
   * The identity-mapping loop of both constructors: an address that steps by
   * PAGE_SIZE, OR 3, stored in entries 0..1023 of the first table.
   */
  method FillIdentity() returns (t: seq<u32>)
    ensures t == Identity()
  {
    var address: u32 := 0;
    t := [];
    var i := 0;
    while i < ENTRIES
      invariant 0 <= i <= ENTRIES && address == i * PAGE_SIZE
      invariant |t| == i && forall j :: 0 <= j < i ==> t[j] == MapEntry(j)
    {
      t := t + [Or3(address)];
      address := Wrap32(address + PAGE_SIZE);
      i := i + 1;
    }
  }

  /** The loop that fills a fresh page table: entries 0..1023 all unmapped. */
  method FillNotPresent() returns (t: seq<u32>)
    ensures t == Unmapped()
  {
    t := [];
    var i := 0;
    while i < ENTRIES
      invariant 0 <= i <= ENTRIES
      invariant |t| == i && forall j :: 0 <= j < i ==> t[j] == NOT_PRESENT
    {
      t := t + [NOT_PRESENT];
      i := i + 1;
    }
  }
}
