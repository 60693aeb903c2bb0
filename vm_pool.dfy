/**
 * The virtual-memory region allocator of mp4 (vm_pool.C). A pool covers the
 * 32-bit address range [baseAddress, baseAddress + size); its first page holds
 * an array of (base, size) regions, of which the first regionNumber are live.
 * Allocation rounds the request up to whole pages and places it right after
 * the first live region followed by a large enough gap (or after the last
 * one); release finds a region by its exact base, reports the pages to unmap
 * and closes the hole by shifting the later regions down.
 */
module VmPool {
  import opened Common

  const PAGE_SIZE: nat := 4096
  /** The region array fills one page: 4096 bytes of 8-byte (base, size) pairs. */
  const MAX_REGIONS: nat := 512

  datatype Region = Region(base: u32, size: u32)

  /** First address past a region, in 32-bit arithmetic. */
  function End(r: Region): u32 {
    Wrap32(r.base + r.size)
  }

  /**
   * allocate's rounding: the page count rounded up, times PAGE_SIZE in 32-bit
   * arithmetic. It is the least multiple of a page not below the request,
   * except for requests within a page of 2^32, whose rounding wraps to 0.
   */
  function RoundedSize(req: u32): (r: u32)
    ensures req <= TWO_32 - PAGE_SIZE ==> r % PAGE_SIZE == 0 && req <= r < req + PAGE_SIZE
    ensures req > TWO_32 - PAGE_SIZE ==> r == 0
  {
    var frames := req / PAGE_SIZE + (if req % PAGE_SIZE != 0 then 1 else 0);
    Wrap32(frames * PAGE_SIZE)
  }

  /** The free space between region i-1 and region i, as the unsigned subtraction computes it. */
  function Gap(regs: seq<Region>, i: nat): u32
    requires 1 <= i < |regs|
  {
    Wrap32(regs[i].base - End(regs[i - 1]))
  }

  /**
   * The slot allocate inserts at: the first i >= from whose gap to region i-1
   * exceeds the rounded size, or count when there is none.
   */
  function FirstGap(regs: seq<Region>, count: nat, rounded: u32, from: nat): (num: nat)
    requires 1 <= from <= count <= |regs|
    decreases count - from
    ensures from <= num <= count
    ensures num < count ==> Gap(regs, num) > rounded
    ensures forall i :: from <= i < num ==> Gap(regs, i) <= rounded
  {
    if from == count then count
    else if Gap(regs, from) > rounded then from
    else FirstGap(regs, count, rounded, from + 1)
  }

  /**
   * The array after inserting r at slot num of the count live regions: the
   * regions num..count-1 move up one slot, the slots past count are untouched.
   */
  ghost function Inserted(s: seq<Region>, count: nat, num: nat, r: Region): (t: seq<Region>)
    requires num <= count < |s|
    ensures |t| == |s|
    ensures forall j :: 0 <= j < |s| ==>
      t[j] == (if j < num then s[j] else if j == num then r else if j <= count then s[j - 1] else s[j])
  {
    seq(|s|, j requires 0 <= j < |s| =>
      if j < num then s[j] else if j == num then r else if j <= count then s[j - 1] else s[j])
  }

  /**
   * The array after release removes slot k of the count live regions: the
   * later live regions move down one slot; slot count-1 keeps its old value.
   */
  ghost function Removed(s: seq<Region>, count: nat, k: nat): (t: seq<Region>)
    requires k < count <= |s|
    ensures |t| == |s|
    ensures forall j :: 0 <= j < |s| ==> t[j] == (if k <= j < count - 1 then s[j + 1] else s[j])
  {
    seq(|s|, j requires 0 <= j < |s| => if k <= j < count - 1 then s[j + 1] else s[j])
  }

  /** The new array, region count and returned address of one allocate call. */
  datatype Outcome = Outcome(regions: seq<Region>, count: nat, addr: u32)

  /**
   * allocate as written. The only failure test compares the pool's end with
   * the end of the region stored in slot count, which is past the live
   * regions, rather than with the end of the region being placed.
   */
  ghost function AllocateSpec(s: seq<Region>, count: nat, base: u32, size: u32, req: u32): Outcome
    requires count < |s|
  {
    var rounded := RoundedSize(req);
    if count == 0 then
      var r := Region(Wrap32(base + PAGE_SIZE), rounded);
      Outcome(s[0 := r], 1, r.base)
    else
      var num := FirstGap(s, count, rounded, 1);
      if num == count && Wrap32(base + size) < End(s[count]) then
        Outcome(s, count, 0)
      else
        var r := Region(End(s[num - 1]), rounded);
        Outcome(Inserted(s, count, num, r), count + 1, r.base)
  }

  /**
   * What allocate does to the live regions: on an empty pool the one region
   * starts a page above the base; otherwise, unless the stale-slot test
   * refuses (returning 0 and changing nothing), the page-rounded region is
   * inserted at the first fitting gap, starting where its predecessor ends,
   * and the other live regions keep their order.
   */
  lemma AllocateLive(s: seq<Region>, count: nat, base: u32, size: u32, req: u32)
    requires count < |s|
    ensures var o := AllocateSpec(s, count, base, size, req); var rounded := RoundedSize(req);
      if count == 0 then
        o.count == 1 && o.addr == Wrap32(base + PAGE_SIZE) && o.regions[..1] == [Region(o.addr, rounded)]
      else
        var num := FirstGap(s, count, rounded, 1);
        if num == count && Wrap32(base + size) < End(s[count]) then
          o == Outcome(s, count, 0)
        else
          o.count == count + 1 && o.addr == End(s[num - 1])
          && o.regions[..count + 1] == s[..num] + [Region(o.addr, rounded)] + s[num..count]
  {
    var o := AllocateSpec(s, count, base, size, req);
    var rounded := RoundedSize(req);
    if count > 0 {
      var num := FirstGap(s, count, rounded, 1);
      var r := Region(End(s[num - 1]), rounded);
      if !(num == count && Wrap32(base + size) < End(s[count])) {
        var t := Inserted(s, count, num, r);
        assert t[..count + 1] == s[..num] + [r] + s[num..count];
      }
    }
  }

  /** The first live region whose base is exactly a. */
  function FindBase(live: seq<Region>, a: u32): (k: Option<nat>)
    ensures k.Some? ==> k.value < |live| && live[k.value].base == a
    ensures forall j :: 0 <= j < |live| && (k.None? || j < k.value) ==> live[j].base != a
  {
    if |live| == 0 then None
    else if live[0].base == a then Some(0)
    else match FindBase(live[1..], a)
      case None => None
      case Some(k) => Some(k + 1)
  }

  /** The addresses release hands to free_page: one per whole page of the region. */
  function PageAddresses(r: Region): (ps: seq<u32>)
    ensures |ps| == r.size / PAGE_SIZE
    ensures forall i :: 0 <= i < |ps| ==> ps[i] == Wrap32(r.base + i * PAGE_SIZE)
  {
    seq(r.size / PAGE_SIZE, i requires 0 <= i < r.size / PAGE_SIZE => Wrap32(r.base + i * PAGE_SIZE))
  }

  /**
   * The first n slots hold regions in increasing address order, none wrapping
   * past 2^32, each ending at or before the next one starts.
   */
  ghost predicate Sorted(s: seq<Region>, n: nat)
    requires n <= |s|
  {
    && (forall i :: 0 <= i < n ==> s[i].base + s[i].size < TWO_32)
    && (forall i :: 1 <= i < n ==> s[i - 1].base + s[i - 1].size <= s[i].base)
  }

  /** Sorted regions are pairwise disjoint: every region ends before any later one begins. */
  lemma {:induction false} SortedDisjoint(s: seq<Region>, n: nat, i: nat, j: nat)
    requires n <= |s| && Sorted(s, n) && i < j < n
    ensures s[i].base + s[i].size <= s[j].base
    decreases j - i
  {
    if i + 1 < j {
      SortedDisjoint(s, n, i + 1, j);
    }
  }

  /**
   * Inserting at the first fitting gap keeps sorted, non-overlapping regions
   * sorted and non-overlapping, provided a region appended after the last one
   * does not run past 2^32.
   */
  lemma InsertKeepsSorted(s: seq<Region>, count: nat, rounded: u32)
    requires 1 <= count < |s| && Sorted(s, count)
    requires var num := FirstGap(s, count, rounded, 1);
      num < count || s[count - 1].base + s[count - 1].size + rounded < TWO_32
    ensures var num := FirstGap(s, count, rounded, 1);
      Sorted(Inserted(s, count, num, Region(End(s[num - 1]), rounded)), count + 1)
  {
    var num := FirstGap(s, count, rounded, 1);
    var prev := s[num - 1];
    var r := Region(End(prev), rounded);
    assert r.base == prev.base + prev.size;
    if num < count {
      assert prev.base + prev.size <= s[num].base;
      assert Gap(s, num) == s[num].base - r.base;
    }
    InsertAtKeepsSorted(s, count, num, r);
  }

  /** The slot-level step of InsertKeepsSorted: a region that fits between its neighbours. */
  lemma InsertAtKeepsSorted(s: seq<Region>, count: nat, num: nat, r: Region)
    requires 1 <= num <= count < |s| && Sorted(s, count)
    requires r.base == s[num - 1].base + s[num - 1].size && r.base + r.size < TWO_32
    requires num < count ==> r.base + r.size <= s[num].base
    ensures Sorted(Inserted(s, count, num, r), count + 1)
  {
    var t := Inserted(s, count, num, r);
    forall i | 0 <= i < count + 1
      ensures t[i].base + t[i].size < TWO_32
    {
      if i > num {
        assert t[i] == s[i - 1];
      }
    }
    forall i | 1 <= i < count + 1
      ensures t[i - 1].base + t[i - 1].size <= t[i].base
    {
      if i < num {
        assert t[i - 1] == s[i - 1] && t[i] == s[i];
      } else if i == num + 1 {
        assert t[i - 1] == r && t[i] == s[num];
      } else if i > num + 1 {
        assert t[i - 1] == s[i - 2] && t[i] == s[i - 1];
      }
    }
  }

  /**
   * Compaction keeps the remaining live regions sorted and in their old
   * order: dropping slot k from sorted regions leaves them sorted.
   */
  lemma RemoveKeepsSorted(s: seq<Region>, count: nat, k: nat)
    requires k < count <= |s| && Sorted(s, count)
    ensures Removed(s, count, k)[..count - 1] == s[..k] + s[k + 1..count]
    ensures Sorted(Removed(s, count, k), count - 1)
  {
    var t := Removed(s, count, k);
    assert t[..count - 1] == s[..k] + s[k + 1..count];
    forall i | 0 <= i < count - 1
      ensures t[i].base + t[i].size < TWO_32
    {
      if i >= k {
        assert t[i] == s[i + 1];
      }
    }
    forall i | 1 <= i < count - 1
      ensures t[i - 1].base + t[i - 1].size <= t[i].base
    {
      if i == k {
        SortedDisjoint(s, count, k - 1, k + 1);
      } else if i > k {
        assert t[i - 1] == s[i] && t[i] == s[i + 1];
      }
    }
  }

  /**
   * The failure test looks at the wrong slot: a pool of four pages whose one
   * region already reaches the pool's end, with a zero region in the stale
   * slot, accepts a one-page request and places it past the pool's end.
   */
  lemma AllocateCanLeavePool()
    ensures var base: u32 := 0x10_0000; var size: u32 := 0x4000;
      var s := [Region(0x10_1000, 0x3000), Region(0, 0)];
      var o := AllocateSpec(s, 1, base, size, 0x1000);
      o.count == 2 && o.addr == base + size && o.regions[1] == Region(0x10_4000, 0x1000)
      && o.addr + o.regions[1].size > base + size
  {
    var s := [Region(0x10_1000, 0x3000), Region(0, 0)];
    assert FirstGap(s, 1, 0x1000, 1) == 1;
  }

  class VMPool {
    const baseAddress: u32
    const size: u32
    /** The region array the pool keeps in its own first page. */
    const regions: array<Region>
    var regionNumber: nat

    ghost predicate Valid()
      reads this
    {
      regions.Length == MAX_REGIONS && regionNumber <= MAX_REGIONS
    }

    /** The live regions. */
    ghost function Live(): seq<Region>
      reads this, regions
      requires Valid()
    {
      regions[..regionNumber]
    }

    /**
     * The constructor: no live regions. The array lives in the pool's first
     * page, so it starts with whatever that memory held (memory).
     */
    constructor (base: u32, sz: u32, memory: seq<Region>)
      requires |memory| == MAX_REGIONS
      ensures Valid() && baseAddress == base && size == sz
      ensures regionNumber == 0 && regions[..] == memory && fresh(regions)
    {
      baseAddress := base;
      size := sz;
      regions := new Region[MAX_REGIONS](i requires 0 <= i < MAX_REGIONS => memory[i]);
      regionNumber := 0;
    }

    /** The gap scan of allocate, which only reads the array. */
    method FindGap(rounded: u32) returns (num: nat)
      requires Valid() && 1 <= regionNumber < MAX_REGIONS
      ensures num == FirstGap(regions[..], regionNumber, rounded, 1)
    {
      num := 1;
      while num < regionNumber
        invariant 1 <= num <= regionNumber
        invariant forall i :: 1 <= i < num ==> Gap(regions[..], i) <= rounded
      {
        if Wrap32(regions[num].base - End(regions[num - 1])) > rounded {
          assert Gap(regions[..], num) > rounded;
          return;
        }
        num := num + 1;
      }
    }

    /**
     * allocate: the whole new array, count and returned address are those of
     * AllocateSpec on the old array. The source writes slot regionNumber, so
     * there must be one.
     */
    method Allocate(req: u32) returns (addr: u32)
      requires Valid() && regionNumber < MAX_REGIONS
      modifies this`regionNumber, regions
      ensures Valid()
      ensures var o := AllocateSpec(old(regions[..]), old(regionNumber), baseAddress, size, req);
        regions[..] == o.regions && regionNumber == o.count && addr == o.addr
    {
      ghost var s := regions[..];
      var frames := req / PAGE_SIZE;
      if req % PAGE_SIZE != 0 {
        frames := frames + 1;
      }
      var rounded := Wrap32(frames * PAGE_SIZE);
      assert rounded == RoundedSize(req);
      ghost var o := AllocateSpec(s, regionNumber, baseAddress, size, req);
      var num := regionNumber;
      if regionNumber == 0 {
        regions[0] := Region(Wrap32(baseAddress + PAGE_SIZE), rounded);
        assert regions[..] == o.regions;
      } else {
        num := FindGap(rounded);
        if num == regionNumber {
          if Wrap32(baseAddress + size) < End(regions[num]) {
            return 0;
          }
        }
        Place(num, rounded);
        assert regions[..] == o.regions;
      }
      regionNumber := regionNumber + 1;
      addr := regions[num].base;
    }

    /**
     * The placing step of allocate: shift the live regions from slot num up
     * (none when num is regionNumber) and write the new region, which starts
     * where region num-1 ends, into slot num.
     */
    method Place(num: nat, rounded: u32)
      requires Valid() && 1 <= num <= regionNumber < MAX_REGIONS
      modifies regions
      ensures var s := old(regions[..]);
        regions[..] == Inserted(s, regionNumber, num, Region(End(s[num - 1]), rounded))
    {
      ghost var s := regions[..];
      if num != regionNumber {
        ShiftUp(num);
      }
      var r := Region(End(regions[num - 1]), rounded);
      assert r == Region(End(s[num - 1]), rounded);
      regions[num] := r;
      assert forall j :: 0 <= j < regions.Length ==> regions[j] == Inserted(s, regionNumber, num, r)[j];
    }

    /** The insertion shift of allocate: slots num..regionNumber-1 move up one slot. */
    method ShiftUp(num: nat)
      requires Valid() && num <= regionNumber < MAX_REGIONS
      modifies regions
      ensures forall j :: 0 <= j < regions.Length ==>
        regions[j] == (if num < j <= regionNumber then old(regions[j - 1]) else old(regions[j]))
    {
      ghost var s := regions[..];
      var i := regionNumber;
      while i > num
        invariant num <= i <= regionNumber
        invariant forall j :: i < j <= regionNumber ==> regions[j] == s[j - 1]
        invariant forall j :: 0 <= j < regions.Length && !(i < j <= regionNumber) ==> regions[j] == s[j]
      {
        regions[i] := regions[i - 1];
        i := i - 1;
      }
    }

    /** The compaction of release: slots k+1..regionNumber-1 move down one slot. */
    method ShiftDown(k: nat)
      requires Valid() && k < regionNumber
      modifies regions
      ensures regions[..] == Removed(old(regions[..]), regionNumber, k)
    {
      ghost var s := regions[..];
      var i := k;
      while i < regionNumber - 1
        invariant k <= i <= regionNumber - 1
        invariant forall j :: k <= j < i ==> regions[j] == s[j + 1]
        invariant forall j :: 0 <= j < regions.Length && !(k <= j < i) ==> regions[j] == s[j]
      {
        regions[i] := regions[i + 1];
        i := i + 1;
      }
      assert forall j :: 0 <= j < regions.Length ==> regions[j] == Removed(s, regionNumber, k)[j];
    }

    /** The search of release, which only reads the array. */
    method FindRegion(a: u32) returns (k: Option<nat>)
      requires Valid()
      ensures k == FindBase(Live(), a)
    {
      var i := 0;
      while i < regionNumber
        invariant 0 <= i <= regionNumber
        invariant forall j :: 0 <= j < i ==> regions[j].base != a
      {
        if regions[i].base == a {
          FindBaseFirst(Live(), a, i);
          return Some(i);
        }
        i := i + 1;
      }
      FindBaseNone(Live(), a);
      return None;
    }

    /**
     * release: with no live region based at a, nothing changes and no page is
     * freed. Otherwise the region's pages, in order, are the addresses handed
     * to free_page (returned here), and the region leaves the array by
     * compaction.
     */
    method Release(a: u32) returns (freed: seq<u32>)
      requires Valid()
      modifies this`regionNumber, regions
      ensures Valid()
      ensures var s := old(regions[..]); var c := old(regionNumber); var k := FindBase(s[..c], a);
        if k.None? then
          freed == [] && regions[..] == s && regionNumber == c
        else
          freed == PageAddresses(s[k.value]) && regions[..] == Removed(s, c, k.value) && regionNumber == c - 1
    {
      ghost var s := regions[..];
      var found := FindRegion(a);
      if found.None? {
        return [];
      }
      var num := found.value;
      var r := regions[num];
      freed := [];
      var i := 0;
      while i < r.size / PAGE_SIZE
        invariant 0 <= i <= r.size / PAGE_SIZE
        invariant freed == PageAddresses(r)[..i]
      {
        freed := freed + [Wrap32(r.base + i * PAGE_SIZE)];
        i := i + 1;
      }
      ShiftDown(num);
      regionNumber := regionNumber - 1;
    }

    /**
     * is_legitimate: the address lies in [baseAddress, baseAddress + size),
     * the end computed in 32 bits; a pool whose end wraps admits nothing.
     */
    function IsLegitimate(a: u32): (ok: bool)
      ensures baseAddress + size < TWO_32 ==> (ok <==> baseAddress <= a < baseAddress + size)
      ensures baseAddress + size >= TWO_32 ==> !ok
    {
      a >= baseAddress && a < Wrap32(baseAddress + size)
    }
  }

  lemma FindBaseFirst(live: seq<Region>, a: u32, i: nat)
    requires i < |live| && live[i].base == a
    requires forall j :: 0 <= j < i ==> live[j].base != a
    ensures FindBase(live, a) == Some(i)
  {
  }

  lemma FindBaseNone(live: seq<Region>, a: u32)
    requires forall j :: 0 <= j < |live| ==> live[j].base != a
    ensures FindBase(live, a) == None
  {
  }
}
