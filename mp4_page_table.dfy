/**
 * The two-level page table of mp4 (mp4 page_table.C). As in mp3, physical
 * memory holding paging structures is a map from frame number to 1024
 * entries. New in mp4: every frame comes from the process pool; directory
 * entry 1023 maps the directory itself, so the handler reaches the directory
 * and the tables through that recursive window, which in this model is the
 * table the directory entry names; a fault first walks the registered
 * virtual-memory pools; and free_page unmaps a page and returns its frame.
 *
 * The class statics are one PagingState object; the static list of
 * registered VMPools is a sequence in registration order, and the frame
 * pools reachable through the static release_frames are a PoolRegistry.
 */
module Mp4PageTable {
  import opened Common
  import opened Paging
  import FramePool
  import VmPool

  /** The directory slot that maps the directory itself. */
  const SELF_SLOT: nat := 1023

  /**
   * The directory the constructor builds: entry 0 maps the first table,
   * entries 1..1022 are unmapped, entry 1023 maps the directory's own frame.
   */
  function InitialDirectory(tableFrame: nat, dirFrame: nat): (dir: seq<u32>)
    requires tableFrame < MAX_FRAME && dirFrame < MAX_FRAME
    ensures |dir| == ENTRIES && dir[0] == MapEntry(tableFrame) && dir[SELF_SLOT] == MapEntry(dirFrame)
    ensures forall d :: 1 <= d < SELF_SLOT ==> dir[d] == NOT_PRESENT
  {
    seq(ENTRIES, d requires 0 <= d < ENTRIES => InitialSlot(d, tableFrame, dirFrame))
  }

  function InitialSlot(d: nat, tableFrame: nat, dirFrame: nat): u32
    requires tableFrame < MAX_FRAME && dirFrame < MAX_FRAME
  {
    if d == 0 then MapEntry(tableFrame) else if d == SELF_SLOT then MapEntry(dirFrame) else NOT_PRESENT
  }

  /** The directory loop of the constructor. */
  method FillDirectory(tableFrame: nat, dirFrame: nat) returns (dir: seq<u32>)
    requires tableFrame < MAX_FRAME && dirFrame < MAX_FRAME
    ensures dir == InitialDirectory(tableFrame, dirFrame)
  {
    var e := FrameAddress(tableFrame);
    dir := [Or3(e)];
    var i := 1;
    while i < ENTRIES
      invariant 1 <= i <= ENTRIES && |dir| == i && dir[0] == MapEntry(tableFrame)
      invariant forall j :: 1 <= j < i && j != SELF_SLOT ==> dir[j] == NOT_PRESENT
      invariant i == ENTRIES ==> dir[SELF_SLOT] == MapEntry(dirFrame)
    {
      if i == SELF_SLOT {
        dir := dir + [Or3(FrameAddress(dirFrame))];
      } else {
        dir := dir + [NOT_PRESENT];
      }
      i := i + 1;
    }
  }

  /** The two frames the constructor fills: every present directory entry below the self-map slot names the table. */
  lemma InitialTablesWellFormed(tableFrame: nat, dirFrame: nat)
    requires tableFrame < MAX_FRAME && dirFrame < MAX_FRAME && tableFrame != dirFrame
    ensures var m := map[dirFrame := InitialDirectory(tableFrame, dirFrame), tableFrame := Identity()];
      && dirFrame in m
      && (forall f :: f in m ==> |m[f]| == ENTRIES)
      && (forall d :: 0 <= d < SELF_SLOT && Present(m[dirFrame][d]) ==>
           EntryFrame(m[dirFrame][d]) in m && EntryFrame(m[dirFrame][d]) != dirFrame)
  {
    var dir := InitialDirectory(tableFrame, dirFrame);
    MapEntryDecodes(tableFrame);
    assert forall d :: 1 <= d < SELF_SLOT ==> !Present(dir[d]);
  }

  /** The first registered pool, in registration order, that admits address a. */
  function FirstLegitimate(pools: seq<VmPool.VMPool>, a: u32): (k: Option<nat>)
    ensures k.Some? ==> k.value < |pools| && pools[k.value].IsLegitimate(a)
    ensures forall j :: 0 <= j < |pools| && (k.None? || j < k.value) ==> !pools[j].IsLegitimate(a)
  {
    if |pools| == 0 then None
    else if pools[0].IsLegitimate(a) then Some(0)
    else match FirstLegitimate(pools[1..], a)
      case None => None
      case Some(k) => Some(k + 1)
  }

  /** The static members of PageTable. */
  class PagingState {
    const kernelPool: FramePool.ContFramePool
    const processPool: FramePool.ContFramePool
    const sharedSize: u32
    var current: PageTable?
    var pagingEnabled: bool
    /** The registered virtual-memory pools, head first. */
    var vmPools: seq<VmPool.VMPool>
    /** The frame pools the static release_frames routes through. */
    const registry: FramePool.PoolRegistry

    /** Two distinct registered pools, each ready for get_frames. */
    ghost predicate Valid()
      reads registry, kernelPool.bitmap, processPool.bitmap
    {
      && registry.Valid() && kernelPool in registry.pools && processPool in registry.pools
      && kernelPool != processPool && kernelPool.bitmap != processPool.bitmap
      && kernelPool.Ready() && processPool.Ready()
    }

    /**
     * init_paging: record the pools and the shared size. No table is loaded,
     * paging is off and no VMPool is registered.
     */
    constructor InitPaging(kernel: FramePool.ContFramePool, process: FramePool.ContFramePool, shared: u32,
                           pools: FramePool.PoolRegistry)
      ensures kernelPool == kernel && processPool == process && sharedSize == shared && registry == pools
      ensures current == null && !pagingEnabled && vmPools == []
    {
      kernelPool := kernel;
      processPool := process;
      sharedSize := shared;
      registry := pools;
      current := null;
      pagingEnabled := false;
      vmPools := [];
    }

    /** enable_paging: the paging flag is set (the control-register write is not modelled). */
    method EnablePaging()
      modifies this`pagingEnabled
      ensures pagingEnabled
    {
      pagingEnabled := true;
    }

    /** register_pool: the pool joins the tail of the list; the earlier pools keep their order. */
    method RegisterPool(pool: VmPool.VMPool)
      modifies this`vmPools
      ensures vmPools == old(vmPools) + [pool]
    {
      vmPools := vmPools + [pool];
    }

    /**
     * The VMPool constructor, which registers the new pool with the page
     * table: an empty pool over [base, base + sz), appended to the list.
     */
    method NewVMPool(base: u32, sz: u32, memory: seq<VmPool.Region>) returns (pool: VmPool.VMPool)
      requires |memory| == VmPool.MAX_REGIONS
      modifies this`vmPools
      ensures fresh(pool) && pool.Valid() && pool.baseAddress == base && pool.size == sz && pool.regionNumber == 0
      ensures vmPools == old(vmPools) + [pool]
    {
      pool := new VmPool.VMPool(base, sz, memory);
      RegisterPool(pool);
    }

    /**
     * The legitimacy walk of handle_fault. It stops at the first pool that
     * admits the address; the position |vmPools| stands for NULL. It never
     * ends with is_valid false and a pool in hand.
     */
    method CheckLegitimate(addr: u32) returns (isValid: bool, cur: nat)
      ensures cur <= |vmPools|
      ensures isValid <==> FirstLegitimate(vmPools, addr).Some?
      ensures isValid ==> FirstLegitimate(vmPools, addr) == Some(cur)
      ensures !isValid ==> cur == |vmPools|
    {
      cur := 0;
      isValid := false;
      while cur < |vmPools|
        invariant cur <= |vmPools|
        invariant forall j :: 0 <= j < cur ==> !vmPools[j].IsLegitimate(addr)
      {
        if vmPools[cur].IsLegitimate(addr) {
          isValid := true;
          LegitimateAt(vmPools, addr, cur);
          return;
        }
        cur := cur + 1;
      }
      NoneLegitimate(vmPools, addr);
    }

    /**
     * handle_fault on the current table, for an address below the top
     * 4 MiB. The registered pools are walked but the fault is served
     * whatever they say. A directory miss takes one process-pool frame,
     * points the directory entry at it, present and writable, and makes it
     * a table of unmapped entries, so the faulting entry stays unmapped. A
     * directory hit maps exactly the faulting entry of the table the
     * directory entry names to one process-pool frame. Either way the frame
     * is the one get_frames(1) claims from the process pool, whose counter
     * falls by one. The kernel pool is never touched.
     */
    method HandleFault(addr: u32)
      requires Valid() && current != null && current.Valid() && DirIndex(addr) != SELF_SLOT
      modifies current`memory, processPool`nFreeFrames, processPool.bitmap
      ensures Valid() && current.Valid() && processPool.TookFrames(1)
      ensures kernelPool.States() == old(kernelPool.States()) && kernelPool.nFreeFrames == old(kernelPool.nFreeFrames)
      ensures var pt := current; var d := DirIndex(addr); var dir := old(pt.Directory());
        var f := old(processPool.GetFramesResult(1));
        if !Present(dir[d]) then
          pt.memory == old(pt.memory)[pt.dirFrame := dir[d := MapEntry(f)]][f := Unmapped()]
        else
          var t := EntryFrame(dir[d]);
          var row: seq<u32> := old(pt.memory[t])[TableIndex(addr) := MapEntry(f)];
          pt.memory == old(pt.memory)[t := row]
    {
      var pt := current;
      var d := DirIndex(addr);
      var p := TableIndex(addr);
      var isValid, cur := CheckLegitimate(addr);
      if !isValid && cur < |vmPools| {
        assert false;
      }
      if !Present(pt.memory[pt.dirFrame][d]) {
        ServeMiss(pt, d);
      } else {
        ServeHit(pt, d, p);
      }
    }

    /**
     * handle_fault with the legitimacy check working: once a pool is
     * registered, a fault on an address that no registered pool admits is
     * refused and changes nothing; any other fault is served as above.
     */
    method HandleFaultChecked(addr: u32) returns (served: bool)
      requires Valid() && current != null && current.Valid() && DirIndex(addr) != SELF_SLOT
      modifies current`memory, processPool`nFreeFrames, processPool.bitmap
      ensures Valid() && current.Valid()
      ensures served <==> vmPools == [] || FirstLegitimate(vmPools, addr).Some?
      ensures kernelPool.States() == old(kernelPool.States()) && kernelPool.nFreeFrames == old(kernelPool.nFreeFrames)
      ensures !served ==>
        current.memory == old(current.memory)
        && processPool.States() == old(processPool.States()) && processPool.nFreeFrames == old(processPool.nFreeFrames)
      ensures served ==> processPool.TookFrames(1)
      ensures served ==>
        var pt := current; var d := DirIndex(addr); var dir := old(pt.Directory());
        var f := old(processPool.GetFramesResult(1));
        if !Present(dir[d]) then
          pt.memory == old(pt.memory)[pt.dirFrame := dir[d := MapEntry(f)]][f := Unmapped()]
        else
          var t := EntryFrame(dir[d]);
          var row: seq<u32> := old(pt.memory[t])[TableIndex(addr) := MapEntry(f)];
          pt.memory == old(pt.memory)[t := row]
    {
      var isValid, cur := CheckLegitimate(addr);
      if !isValid && |vmPools| > 0 {
        served := false;
        return;
      }
      served := true;
      HandleFault(addr);
    }

    /**
     * From the old state to the new one, two get_frames(1) calls on the
     * process pool took first and then second: both were free and are now
     * taken, first is the first fit and second the next fit once first is
     * claimed, no other frame of the pool changed, and the counter fell by
     * two and is still exact.
     */
    twostate predicate TookTwo(first: nat, second: nat)
      reads registry, kernelPool.bitmap, processPool, processPool.bitmap
    {
      && Valid() && first < MAX_FRAME && second < MAX_FRAME && first != second
      && processPool.TookTwoFrames(first, second)
    }

    /** The two get_frames(1) calls of the constructor, on the process pool. */
    method TakeTwoFrames() returns (first: nat, second: nat)
      requires Valid() && processPool.CounterExact() && processPool.nFreeFrames >= 2
      modifies processPool`nFreeFrames, processPool.bitmap
      ensures TookTwo(first, second)
    {
      first, second := processPool.GetTwoFrames();
    }

    /** The miss branch of handle_fault: a process-pool frame becomes the table of entry d. */
    method ServeMiss(pt: PageTable, d: nat)
      requires pt.Valid() && d < SELF_SLOT && processPool.Ready()
      modifies pt`memory, processPool`nFreeFrames, processPool.bitmap
      ensures pt.Valid() && processPool.TookFrames(1)
      ensures var f := old(processPool.GetFramesResult(1));
        pt.memory == old(pt.memory)[pt.dirFrame := old(pt.Directory())[d := MapEntry(f)]][f := Unmapped()]
    {
      var f := processPool.GetFrames(1);
      pt.InstallTable(d, f);
    }

    /** The hit branch of handle_fault: entry p of the table of entry d maps a process-pool frame. */
    method ServeHit(pt: PageTable, d: nat, p: nat)
      requires pt.Valid() && d < SELF_SLOT && p < ENTRIES && Present(pt.Directory()[d]) && processPool.Ready()
      modifies pt`memory, processPool`nFreeFrames, processPool.bitmap
      ensures pt.Valid() && processPool.TookFrames(1)
      ensures var t := EntryFrame(old(pt.Directory())[d]);
        var row: seq<u32> := old(pt.memory[t])[p := MapEntry(old(processPool.GetFramesResult(1)))];
        pt.memory == old(pt.memory)[t := row]
    {
      var f := processPool.GetFrames(1);
      pt.MapPage(d, p, f);
    }

    /**
     * The static release_frames: the first registered pool owning frame f
     * releases the run f heads; every other pool keeps its state, and both
     * the kernel and the process pool stay ready.
     */
    method ReleaseFrames(f: nat)
      requires Valid() && FramePool.Owner(registry.Extents(), f).Some?
      modifies registry.pools, set q | q in registry.pools :: q.bitmap
      ensures Valid() && registry.pools == old(registry.pools) && FramePool.FramesReleased(registry.pools, f)
    {
      ghost var k :| 0 <= k < |registry.pools| && registry.pools[k] == kernelPool;
      ghost var r :| 0 <= r < |registry.pools| && registry.pools[r] == processPool;
      registry.ReleaseFrames(f);
      assert registry.pools[k].Ready() && registry.pools[r].Ready();
    }

    /**
     * Two faults on one address of a 4 MiB region with no table leave the
     * page mapped. The process pool must not hand out the directory's own
     * frame, which holds whenever that frame is allocated from it. The
     * address must be one a registered pool admits, or no pool is
     * registered yet.
     */
    method FaultTwice(addr: u32)
      requires Valid() && current != null && current.Valid() && DirIndex(addr) != SELF_SLOT
      requires vmPools == [] || FirstLegitimate(vmPools, addr).Some?
      requires !Present(current.Directory()[DirIndex(addr)])
      requires processPool.GetFramesResult(1) != current.dirFrame
      modifies current`memory, processPool`nFreeFrames, processPool.bitmap
      ensures Valid() && current.Valid() && current.Maps(addr)
    {
      var pt := current;
      ghost var d, p := DirIndex(addr), TableIndex(addr);
      ghost var tf := processPool.GetFramesResult(1);
      var served := HandleFaultChecked(addr);
      MapEntryDecodes(tf);
      assert pt.memory[pt.dirFrame][d] == MapEntry(tf) && pt.memory[tf] == Unmapped();
      ghost var pf := processPool.GetFramesResult(1);
      served := HandleFaultChecked(addr);
      MapEntryDecodes(pf);
      assert pt.memory[pt.dirFrame][d] == MapEntry(tf) && pt.memory[tf][p] == MapEntry(pf);
    }
  }

  /** From the old state to the new one, no pool changed a frame's state or its free count. */
  twostate predicate FramesUnchanged(pools: seq<FramePool.ContFramePool>)
    reads set q | q in pools, set q | q in pools :: q.bitmap
  {
    forall j :: 0 <= j < |pools| ==>
      pools[j].States() == old(pools[j].States()) && pools[j].nFreeFrames == old(pools[j].nFreeFrames)
  }

  lemma LegitimateAt(pools: seq<VmPool.VMPool>, a: u32, i: nat)
    requires i < |pools| && pools[i].IsLegitimate(a)
    requires forall j :: 0 <= j < i ==> !pools[j].IsLegitimate(a)
    ensures FirstLegitimate(pools, a) == Some(i)
  {
  }

  lemma NoneLegitimate(pools: seq<VmPool.VMPool>, a: u32)
    requires forall j :: 0 <= j < |pools| ==> !pools[j].IsLegitimate(a)
    ensures FirstLegitimate(pools, a) == None
  {
  }

  class PageTable {
    /** The frame holding the directory. */
    const dirFrame: nat
    /** The frames holding the directory and the page tables, by frame number. */
    var memory: map<nat, seq<u32>>

    /**
     * The directory frame is held; every held frame has 1024 entries; every
     * present directory entry below the self-map slot names a held frame
     * other than the directory's.
     */
    ghost predicate Valid()
      reads this
    {
      && dirFrame < MAX_FRAME && dirFrame in memory
      && (forall f :: f in memory ==> |memory[f]| == ENTRIES)
      && (forall d :: 0 <= d < SELF_SLOT && Present(memory[dirFrame][d]) ==>
           EntryFrame(memory[dirFrame][d]) in memory && EntryFrame(memory[dirFrame][d]) != dirFrame)
    }

    ghost function Directory(): (dir: seq<u32>)
      reads this
      requires Valid()
      ensures |dir| == ENTRIES
    {
      memory[dirFrame]
    }

    /** The address's directory entry and its table entry are both present. */
    ghost predicate Maps(addr: u32)
      reads this
      requires Valid() && DirIndex(addr) != SELF_SLOT
    {
      var e := Directory()[DirIndex(addr)];
      Present(e) && Present(memory[EntryFrame(e)][TableIndex(addr)])
    }

    /**
     * The constructor takes the directory frame and then the first table's
     * frame from the process pool (so it must have two free frames),
     * identity-maps the first 4 MiB through that table, points directory
     * entry 0 at it, leaves entries 1..1022 unmapped and maps the directory
     * in entry 1023. Paging is off.
     */
    constructor (ps: PagingState)
      requires ps.Valid() && ps.processPool.CounterExact() && ps.processPool.nFreeFrames >= 2
      modifies ps`pagingEnabled, ps.processPool`nFreeFrames, ps.processPool.bitmap
      ensures Valid() && !ps.pagingEnabled
      ensures var t := EntryFrame(Directory()[0]);
        ps.TookTwo(dirFrame, t) && memory == map[dirFrame := InitialDirectory(t, dirFrame), t := Identity()]
    {
      var df, tf := ps.TakeTwoFrames();
      var first := FillIdentity();
      var dir := FillDirectory(tf, df);
      dirFrame := df;
      memory := map[df := dir, tf := first];
      InitialTablesWellFormed(tf, df);
      MapEntryDecodes(tf);
      new;
      assert ps.TookTwo(df, tf);
      ps.pagingEnabled := false;
    }

    /**
     * The miss branch of handle_fault: directory entry d maps frame f,
     * present and writable, then frame f, reached through the recursive
     * window, is filled with unmapped entries.
     */
    method InstallTable(d: nat, f: nat)
      requires Valid() && d < SELF_SLOT && f < MAX_FRAME
      modifies this`memory
      ensures Valid()
      ensures memory == old(memory)[dirFrame := old(Directory())[d := MapEntry(f)]][f := Unmapped()]
    {
      var e := FrameAddress(f);
      e := Or3(e);
      memory := memory[dirFrame := memory[dirFrame][d := e]];
      var table := FillNotPresent();
      memory := memory[f := table];
      MapEntryDecodes(f);
    }

    /** The hit branch of handle_fault: entry p of the table that directory entry d names maps frame f. */
    method MapPage(d: nat, p: nat, f: nat)
      requires Valid() && d < SELF_SLOT && p < ENTRIES && f < MAX_FRAME && Present(Directory()[d])
      modifies this`memory
      ensures Valid()
      ensures var t := EntryFrame(old(Directory())[d]); var row: seq<u32> := old(memory[t])[p := MapEntry(f)];
        memory == old(memory)[t := row]
    {
      var t := EntryFrame(memory[dirFrame][d]);
      var e := FrameAddress(f);
      e := Or3(e);
      memory := memory[t := memory[t][p := e]];
      MapEntryDecodes(f);
    }

    /** load: this becomes the current table (the CR3 write is not modelled). */
    method Load(ps: PagingState)
      modifies ps`current
      ensures ps.current == this
    {
      ps.current := this;
    }

    /**
     * free_page on the current table, through the recursive window, for a
     * page below the top 4 MiB whose directory entry is present. A present
     * table entry has its frame released through release_frames, becomes
     * unmapped, and this table is loaded. A not-present entry changes
     * nothing.
     */
    method FreePage(ps: PagingState, page: u32)
      requires ps.Valid() && ps.current != null && ps.current.Valid()
      requires DirIndex(page) != SELF_SLOT && Present(ps.current.Directory()[DirIndex(page)])
      requires var cur := ps.current; var e := cur.memory[EntryFrame(cur.Directory()[DirIndex(page)])][TableIndex(page)];
        Present(e) ==> FramePool.Owner(ps.registry.Extents(), EntryFrame(e)).Some?
      modifies ps`current, ps.current`memory
      modifies ps.registry.pools, set q | q in ps.registry.pools :: q.bitmap
      ensures ps.Valid() && old(ps.current).Valid()
      ensures var cur := old(ps.current); var t := EntryFrame(old(cur.Directory())[DirIndex(page)]);
        var p := TableIndex(page); var e := old(cur.memory[t][p]);
        if !Present(e) then
          ps.current == cur && cur.memory == old(cur.memory) && ps.registry.pools == old(ps.registry.pools) && FramesUnchanged(ps.registry.pools)
        else
          var row: seq<u32> := old(cur.memory[t])[p := NOT_PRESENT];
          ps.current == this && cur.memory == old(cur.memory)[t := row] && ps.registry.pools == old(ps.registry.pools) && FramePool.FramesReleased(ps.registry.pools, EntryFrame(e))
    {
      var cur := ps.current;
      var d := DirIndex(page);
      var p := FreePageIndex(page);
      FreePageIndexAgrees(page);
      var t := EntryFrame(cur.memory[cur.dirFrame][d]);
      if Present(cur.memory[t][p]) {
        ReleaseEntry(ps, cur, t, p);
      }
    }

    /**
     * The present case of free_page: the frame entry p of table t names is
     * released, the entry becomes unmapped and this table is loaded.
     */
    method ReleaseEntry(ps: PagingState, cur: PageTable, t: nat, p: nat)
      requires ps.Valid() && cur.Valid() && t in cur.memory && t != cur.dirFrame && p < ENTRIES
      requires var e := cur.memory[t][p]; Present(e) && FramePool.Owner(ps.registry.Extents(), EntryFrame(e)).Some?
      modifies ps`current, cur`memory
      modifies ps.registry.pools, set q | q in ps.registry.pools :: q.bitmap
      ensures ps.Valid() && cur.Valid() && ps.current == this
      ensures var row: seq<u32> := old(cur.memory[t])[p := NOT_PRESENT];
        cur.memory == old(cur.memory)[t := row] && ps.registry.pools == old(ps.registry.pools) && FramePool.FramesReleased(ps.registry.pools, EntryFrame(old(cur.memory[t][p])))
    {
      ps.ReleaseFrames(cur.memory[t][p] / PAGE_SIZE);
      ClearAndLoad(ps, cur, t, p);
    }

    /** The last two steps of free_page: the entry becomes unmapped and this table is loaded. */
    method ClearAndLoad(ps: PagingState, cur: PageTable, t: nat, p: nat)
      requires cur.Valid() && t in cur.memory && t != cur.dirFrame && p < ENTRIES
      modifies ps`current, cur`memory
      ensures cur.Valid() && ps.current == this
      ensures var row: seq<u32> := old(cur.memory[t])[p := NOT_PRESENT]; cur.memory == old(cur.memory)[t := row]
    {
      cur.ClearEntry(t, p);
      Load(ps);
    }

    /** Entry p of the table held in frame t, which is not the directory, becomes unmapped. */
    method ClearEntry(t: nat, p: nat)
      requires Valid() && t in memory && t != dirFrame && p < ENTRIES
      modifies this`memory
      ensures Valid()
      ensures var row: seq<u32> := old(memory[t])[p := NOT_PRESENT]; memory == old(memory)[t := row]
    {
      var row: seq<u32> := memory[t][p := NOT_PRESENT];
      memory := memory[t := row];
    }
  }
}
