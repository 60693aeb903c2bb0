/**
 * The two-level page table of mp3 (mp3 page_table.C). The physical memory
 * that holds paging structures is a map from frame number to 1024 entries:
 * the directory is the entry list at dirFrame, and each present directory
 * entry names the frame of a page table. Two entries naming the same frame
 * share one table, as they share memory. The class statics (the two frame
 * pools, the shared size, the current table and the paging flag) are one
 * PagingState object.
 *
 * A fault on an address whose directory entry is not present installs a
 * fresh, all-unmapped table taken from the kernel pool and leaves the
 * faulting entry unmapped; a fault on a present directory entry maps the
 * faulting entry to a fresh process-pool frame. No address is rejected.
 */
module Mp3PageTable {
  import opened Common
  import opened Paging
  import FramePool

  /** The directory the constructor builds: entry 0 maps the first table, the rest are unmapped. */
  function InitialDirectory(tableFrame: nat): (dir: seq<u32>)
    requires tableFrame < MAX_FRAME
    ensures |dir| == ENTRIES && dir[0] == MapEntry(tableFrame)
    ensures forall d :: 1 <= d < ENTRIES ==> dir[d] == NOT_PRESENT
  {
    seq(ENTRIES, d requires 0 <= d < ENTRIES => if d == 0 then MapEntry(tableFrame) else NOT_PRESENT)
  }

  /** The directory loop of the constructor. */
  method FillDirectory(tableFrame: nat) returns (dir: seq<u32>)
    requires tableFrame < MAX_FRAME
    ensures dir == InitialDirectory(tableFrame)
  {
    var e := FrameAddress(tableFrame);
    dir := [Or3(e)];
    var i := 1;
    while i < ENTRIES
      invariant 1 <= i <= ENTRIES && |dir| == i && dir[0] == MapEntry(tableFrame)
      invariant forall j :: 1 <= j < i ==> dir[j] == NOT_PRESENT
    {
      dir := dir + [NOT_PRESENT];
      i := i + 1;
    }
  }

  /** The two frames the constructor fills: every present directory entry names the table. */
  lemma InitialTablesWellFormed(tableFrame: nat, dirFrame: nat)
    requires tableFrame < MAX_FRAME && dirFrame < MAX_FRAME && tableFrame != dirFrame
    ensures var m := map[dirFrame := InitialDirectory(tableFrame), tableFrame := Identity()];
      && dirFrame in m
      && (forall f :: f in m ==> |m[f]| == ENTRIES)
      && (forall d :: 0 <= d < ENTRIES && Present(m[dirFrame][d]) ==>
           EntryFrame(m[dirFrame][d]) in m && EntryFrame(m[dirFrame][d]) != dirFrame)
  {
    var dir := InitialDirectory(tableFrame);
    MapEntryDecodes(tableFrame);
    assert forall d :: 1 <= d < ENTRIES ==> !Present(dir[d]);
  }

  /** The static members of PageTable. */
  class PagingState {
    const kernelPool: FramePool.ContFramePool
    const processPool: FramePool.ContFramePool
    const sharedSize: u32
    var current: PageTable?
    var pagingEnabled: bool

    /** Two distinct pools, each ready for get_frames. */
    ghost predicate Valid()
      reads kernelPool.bitmap, processPool.bitmap
    {
      && kernelPool != processPool && kernelPool.bitmap != processPool.bitmap
      && kernelPool.Ready() && processPool.Ready()
    }

    /**
     * From the old state to the new one, two get_frames(1) calls on the
     * kernel pool took first and then second: both were free and are now
     * taken, first is the first fit and second the next fit once first is
     * claimed, no other frame of the pool changed, and the counter fell by
     * two and is still exact.
     */
    twostate predicate TookTwo(first: nat, second: nat)
      reads kernelPool, kernelPool.bitmap, processPool.bitmap
    {
      && Valid() && first < MAX_FRAME && second < MAX_FRAME && first != second
      && kernelPool.TookTwoFrames(first, second)
    }

    /** The two get_frames(1) calls of the constructor, on the kernel pool. */
    method TakeTwoFrames() returns (first: nat, second: nat)
      requires Valid() && kernelPool.CounterExact() && kernelPool.nFreeFrames >= 2
      modifies kernelPool`nFreeFrames, kernelPool.bitmap
      ensures TookTwo(first, second)
    {
      first, second := kernelPool.GetTwoFrames();
    }

    /** init_paging: record the pools and the shared size; no table is loaded and paging is off. */
    constructor InitPaging(kernel: FramePool.ContFramePool, process: FramePool.ContFramePool, shared: u32)
      ensures kernelPool == kernel && processPool == process && sharedSize == shared
      ensures current == null && !pagingEnabled
    {
      kernelPool := kernel;
      processPool := process;
      sharedSize := shared;
      current := null;
      pagingEnabled := false;
    }

    /** enable_paging: the paging flag is set (the control-register write is not modelled). */
    method EnablePaging()
      modifies this`pagingEnabled
      ensures pagingEnabled
    {
      pagingEnabled := true;
    }

    /**
     * handle_fault on the current table. A directory miss takes one
     * kernel-pool frame (whatever get_frames(1) returns, claimed there with
     * the counter one lower), points the directory entry at it, present and
     * writable, and makes it a table of unmapped entries, so the faulting
     * entry stays unmapped; the process pool is untouched. A directory hit
     * maps exactly the faulting entry of the table the directory entry
     * names to one frame get_frames(1) claims from the process pool; the
     * kernel pool is untouched.
     */
    method HandleFault(addr: u32)
      requires Valid() && current != null && current.Valid()
      modifies current`memory
      modifies kernelPool`nFreeFrames, kernelPool.bitmap, processPool`nFreeFrames, processPool.bitmap
      ensures Valid() && current.Valid()
      ensures var pt := current; var d := DirIndex(addr); var dir := old(pt.Directory());
        if !Present(dir[d]) then
          var f := old(kernelPool.GetFramesResult(1));
          && pt.memory == old(pt.memory)[pt.dirFrame := dir[d := MapEntry(f)]][f := Unmapped()]
          && kernelPool.TookFrames(1)
          && processPool.States() == old(processPool.States()) && processPool.nFreeFrames == old(processPool.nFreeFrames)
        else
          var t := EntryFrame(dir[d]);
          var row: seq<u32> := old(pt.memory[t])[TableIndex(addr) := MapEntry(old(processPool.GetFramesResult(1)))];
          && pt.memory == old(pt.memory)[t := row]
          && processPool.TookFrames(1)
          && kernelPool.States() == old(kernelPool.States()) && kernelPool.nFreeFrames == old(kernelPool.nFreeFrames)
    {
      var pt := current;
      var d := DirIndex(addr);
      var p := TableIndex(addr);
      if !Present(pt.memory[pt.dirFrame][d]) {
        var f := kernelPool.GetFrames(1);
        pt.InstallTable(d, f);
      } else {
        var f := processPool.GetFrames(1);
        pt.MapPage(d, p, f);
      }
    }

    /**
     * Two faults on one address of a 4 MiB region with no table leave the
     * page mapped: the first installs the table, the second maps the page.
     * The kernel pool must not hand out the directory's own frame, which
     * holds whenever that frame is allocated from it.
     */
    method FaultTwice(addr: u32)
      requires Valid() && current != null && current.Valid()
      requires !Present(current.Directory()[DirIndex(addr)])
      requires kernelPool.GetFramesResult(1) != current.dirFrame
      modifies current`memory
      modifies kernelPool`nFreeFrames, kernelPool.bitmap, processPool`nFreeFrames, processPool.bitmap
      ensures Valid() && current.Valid() && current.Maps(addr)
    {
      var pt := current;
      ghost var d, p := DirIndex(addr), TableIndex(addr);
      ghost var kf := kernelPool.GetFramesResult(1);
      HandleFault(addr);
      MapEntryDecodes(kf);
      assert pt.memory[pt.dirFrame][d] == MapEntry(kf) && pt.memory[kf] == Unmapped();
      ghost var pf := processPool.GetFramesResult(1);
      HandleFault(addr);
      MapEntryDecodes(pf);
      assert pt.memory[pt.dirFrame][d] == MapEntry(kf) && pt.memory[kf][p] == MapEntry(pf);
    }
  }

  class PageTable {
    /** The frame holding the directory. */
    const dirFrame: nat
    /** The frames holding the directory and the page tables, by frame number. */
    var memory: map<nat, seq<u32>>

    /**
     * The directory frame is held; every held frame has 1024 entries; every
     * present directory entry names a held frame other than the directory's.
     */
    ghost predicate Valid()
      reads this
    {
      && dirFrame < MAX_FRAME && dirFrame in memory
      && (forall f :: f in memory ==> |memory[f]| == ENTRIES)
      && (forall d :: 0 <= d < ENTRIES && Present(memory[dirFrame][d]) ==>
           EntryFrame(memory[dirFrame][d]) in memory && EntryFrame(memory[dirFrame][d]) != dirFrame)
    }

    ghost function Directory(): (dir: seq<u32>)
      reads this
      requires Valid()
      ensures |dir| == ENTRIES
    {
      memory[dirFrame]
    }

    /** The address's directory entry and its table entry are both present. */
    ghost predicate Maps(addr: u32)
      reads this
      requires Valid()
    {
      var e := Directory()[DirIndex(addr)];
      Present(e) && Present(memory[EntryFrame(e)][TableIndex(addr)])
    }

    /**
     * The constructor takes the directory frame and then the first table's
     * frame from the kernel pool (so the pool must have two free frames),
     * identity-maps the first 4 MiB through that table, points directory
     * entry 0 at it and leaves entries 1..1023 unmapped. Paging is off.
     */
    constructor (ps: PagingState)
      requires ps.Valid() && ps.kernelPool.CounterExact() && ps.kernelPool.nFreeFrames >= 2
      modifies ps`pagingEnabled, ps.kernelPool`nFreeFrames, ps.kernelPool.bitmap
      ensures Valid() && !ps.pagingEnabled
      ensures var t := EntryFrame(Directory()[0]);
        ps.TookTwo(dirFrame, t) && memory == map[dirFrame := InitialDirectory(t), t := Identity()]
    {
      var df, tf := ps.TakeTwoFrames();
      var first := FillIdentity();
      var dir := FillDirectory(tf);
      dirFrame := df;
      memory := map[df := dir, tf := first];
      InitialTablesWellFormed(tf, df);
      MapEntryDecodes(tf);
      new;
      assert ps.TookTwo(df, tf);
      ps.pagingEnabled := false;
    }

    /**
     * The miss branch of handle_fault: directory entry d maps frame f,
     * present and writable, then frame f is filled with unmapped entries.
     */
    method InstallTable(d: nat, f: nat)
      requires Valid() && d < ENTRIES && f < MAX_FRAME
      modifies this`memory
      ensures Valid()
      ensures memory == old(memory)[dirFrame := old(Directory())[d := MapEntry(f)]][f := Unmapped()]
    {
      var e := FrameAddress(f);
      e := Or3(e);
      memory := memory[dirFrame := memory[dirFrame][d := e]];
      var table := FillNotPresent();
      memory := memory[f := table];
      MapEntryDecodes(f);
    }

    /** The hit branch of handle_fault: entry p of the table that directory entry d names maps frame f. */
    method MapPage(d: nat, p: nat, f: nat)
      requires Valid() && d < ENTRIES && p < ENTRIES && f < MAX_FRAME && Present(Directory()[d])
      modifies this`memory
      ensures Valid()
      ensures var t := EntryFrame(old(Directory())[d]); var row: seq<u32> := old(memory[t])[p := MapEntry(f)];
        memory == old(memory)[t := row]
    {
      var t := EntryFrame(memory[dirFrame][d]);
      var e := FrameAddress(f);
      e := Or3(e);
      memory := memory[t := memory[t][p := e]];
      MapEntryDecodes(f);
    }

    /** load: this becomes the current table (the CR3 write is not modelled). */
    method Load(ps: PagingState)
      modifies ps`current
      ensures ps.current == this
    {
      ps.current := this;
    }
  }
}
