/**
 * The inode table and free-block map of mp7 (mp7 file_system.C). The disk
 * is a sequence of 512-byte blocks; block 0 holds the inode list and
 * block 1 the free map, one byte per block (0 free, 1 used), so the map
 * covers the first 512 blocks. A file is an inode (id, owning file system,
 * index block, size) whose index block lists the file's data blocks up to
 * the first 0 byte. An inode with id 0 is empty.
 */
module FileSystem {
  import opened Common

  const BLOCK_SIZE: nat := 512

  type byte = x: int | 0 <= x < 256

  /** One inode. `owned` stands for the fs pointer being this file system rather than NULL. */
  datatype Inode = Inode(id: int, owned: bool, blockId: nat, size: nat)

  /** An all-zero block. */
  function Zeros(): (b: seq<byte>)
    ensures |b| == BLOCK_SIZE && forall i :: 0 <= i < BLOCK_SIZE ==> b[i] == 0
  {
    seq(BLOCK_SIZE, _ => 0)
  }

  /** The lowest-indexed inode with the given id. */
  function FindInode(ins: seq<Inode>, id: int): (k: Option<nat>)
    ensures k.Some? ==> k.value < |ins| && ins[k.value].id == id
    ensures forall j :: 0 <= j < |ins| && (k.None? || j < k.value) ==> ins[j].id != id
  {
    if |ins| == 0 then None
    else if ins[0].id == id then Some(0)
    else match FindInode(ins[1..], id)
      case None => None
      case Some(k) => Some(k + 1)
  }

  /** The lowest-numbered free block of a free map. */
  function FirstFree(fb: seq<byte>): (k: Option<nat>)
    ensures k.Some? ==> k.value < |fb| && fb[k.value] == 0
    ensures forall j :: 0 <= j < |fb| && (k.None? || j < k.value) ==> fb[j] != 0
  {
    if |fb| == 0 then None
    else if fb[0] == 0 then Some(0)
    else match FirstFree(fb[1..])
      case None => None
      case Some(k) => Some(k + 1)
  }

  /** What GetFreeBlock returns on a free map: the first free block, or 0 when there is none. */
  function FreeBlockResult(fb: seq<byte>): (b: nat)
    ensures b < |fb| || (b == 0 && FirstFree(fb).None?)
  {
    match FirstFree(fb)
      case None => 0
      case Some(k) => k
  }

  /** The data blocks an index block lists: its bytes before the first 0. */
  function Listed(index: seq<byte>): (xs: seq<byte>)
    ensures |xs| <= |index| && xs == index[..|xs|]
    ensures forall i :: 0 <= i < |xs| ==> xs[i] != 0
    ensures |xs| < |index| ==> index[|xs|] == 0
  {
    if |index| == 0 || index[0] == 0 then []
    else [index[0]] + Listed(index[1..])
  }

  /** A free map with every block in xs marked free. */
  function Cleared(fb: seq<byte>, xs: seq<byte>): (t: seq<byte>)
    ensures |t| == |fb|
    ensures forall k :: 0 <= k < |fb| ==> t[k] == if k in xs then 0 else fb[k]
  {
    seq(|fb|, k requires 0 <= k < |fb| => ClearedSlot(fb, xs, k))
  }

  function ClearedSlot(fb: seq<byte>, xs: seq<byte>, k: nat): byte
    requires k < |fb|
  {
    if k in xs then 0 else fb[k]
  }

  /** The free map Mount builds from the stored one: blocks 0 and 1 marked used. */
  function MountedFreeMap(stored: seq<byte>): (fb: seq<byte>)
    requires |stored| == BLOCK_SIZE
    ensures |fb| == BLOCK_SIZE && fb[0] == 1 && fb[1] == 1
    ensures forall k :: 2 <= k < BLOCK_SIZE ==> fb[k] == stored[k]
  {
    stored[0 := 1][1 := 1]
  }

  /** The disk, as the file system sees it: blocks of BLOCK_SIZE bytes. */
  class SimpleDisk {
    var blocks: seq<seq<byte>>

    ghost predicate Valid()
      reads this
    {
      |blocks| >= 2 && forall i :: 0 <= i < |blocks| ==> |blocks[i]| == BLOCK_SIZE
    }
  }

  /**
   * Format: an all-zero block is written to block 0 (the inode list) and
   * block 1 (the free map). The size argument is not used.
   */
  method Format(disk: SimpleDisk, size: nat) returns (ok: bool)
    requires disk.Valid()
    modifies disk
    ensures disk.Valid() && ok
    ensures disk.blocks == old(disk.blocks)[0 := Zeros()][1 := Zeros()]
  {
    var empty := Zeros();
    disk.blocks := disk.blocks[0 := empty];
    disk.blocks := disk.blocks[1 := empty];
    ok := true;
  }

  class FileSystem {
    /** The number of inodes, a constant of the (unseen) header. */
    const maxInodes: nat
    var disk: SimpleDisk?
    var inodes: array?<Inode>
    var freeBlocks: array?<byte>

    /**
     * Mounted: the disk has every block the free map covers, the inode
     * table has maxInodes entries whose index blocks are covered by the
     * free map, and the free map has one byte per block.
     */
    ghost predicate Valid()
      reads this, disk, inodes
    {
      && disk != null && inodes != null && freeBlocks != null
      && disk.Valid() && |disk.blocks| >= BLOCK_SIZE
      && inodes.Length == maxInodes && freeBlocks.Length == BLOCK_SIZE
      && (inodes as object) != (freeBlocks as object)
      && forall i :: 0 <= i < inodes.Length ==> inodes[i].blockId < BLOCK_SIZE
    }

    /** The constructor: nothing is mounted. */
    constructor (n: nat)
      ensures maxInodes == n && disk == null && inodes == null && freeBlocks == null
    {
      maxInodes := n;
      disk := null;
      inodes := null;
      freeBlocks := null;
    }

    /**
     * Mount: the inode table is the list stored in block 0 (decoded by the
     * caller), the free map is block 1 with blocks 0 and 1 marked used.
     */
    method Mount(d: SimpleDisk, stored: seq<Inode>) returns (ok: bool)
      requires d.Valid() && |d.blocks| >= BLOCK_SIZE && |stored| == maxInodes
      requires forall i :: 0 <= i < |stored| ==> stored[i].blockId < BLOCK_SIZE
      modifies this
      ensures Valid() && ok && disk == d && fresh(inodes) && fresh(freeBlocks)
      ensures inodes[..] == stored && freeBlocks[..] == MountedFreeMap(d.blocks[1])
    {
      disk := d;
      inodes := new Inode[maxInodes](i requires 0 <= i < maxInodes => stored[i]);
      var map1 := d.blocks[1];
      freeBlocks := new byte[BLOCK_SIZE](i requires 0 <= i < BLOCK_SIZE => map1[i]);
      freeBlocks[0] := 1;
      freeBlocks[1] := 1;
      ok := true;
    }

    /** LookupFile: the lowest-indexed inode with the id, or none; nothing changes. */
    method LookupFile(id: int) returns (k: Option<nat>)
      requires Valid()
      ensures k == FindInode(inodes[..], id)
    {
      var i := 0;
      while i < inodes.Length
        invariant i <= inodes.Length
        invariant forall j :: 0 <= j < i ==> inodes[j].id != id
      {
        if id == inodes[i].id {
          FindInodeAt(inodes[..], id, i);
          return Some(i);
        }
        i := i + 1;
      }
      FindInodeAt(inodes[..], id, inodes.Length);
      return None;
    }

    /**
     * GetFreeBlock: the lowest free block is marked used, zeroed on disk and
     * returned; with no free block nothing changes and 0 is returned.
     */
    method GetFreeBlock() returns (b: nat)
      requires Valid()
      modifies disk, freeBlocks
      ensures Valid() && b == FreeBlockResult(old(freeBlocks[..])) && b < BLOCK_SIZE
      ensures if FirstFree(old(freeBlocks[..])).None? then
          freeBlocks[..] == old(freeBlocks[..]) && disk.blocks == old(disk.blocks)
        else
          freeBlocks[..] == old(freeBlocks[..])[b := 1] && disk.blocks == old(disk.blocks)[b := Zeros()]
    {
      var i := 0;
      while i < BLOCK_SIZE
        invariant i <= BLOCK_SIZE
        invariant forall j :: 0 <= j < i ==> freeBlocks[j] != 0
      {
        if freeBlocks[i] == 0 {
          FirstFreeAt(freeBlocks[..], i);
          var empty := Zeros();
          disk.blocks := disk.blocks[i := empty];
          freeBlocks[i] := 1;
          return i;
        }
        i := i + 1;
      }
      FirstFreeAt(freeBlocks[..], BLOCK_SIZE);
      return 0;
    }

    /**
     * CreateFile: with the id already present, or no empty inode, nothing
     * changes and the result is false (so id 0 always fails). Otherwise the
     * lowest empty inode gets the id, this file system, the block
     * GetFreeBlock returns and size 0, and that block is marked used.
     */
    method CreateFile(id: int) returns (ok: bool)
      requires Valid()
      modifies inodes, freeBlocks, disk
      ensures Valid() && (id == 0 ==> !ok)
      ensures var ins := old(inodes[..]); var fb := old(freeBlocks[..]);
        if FindInode(ins, id).Some? || FindInode(ins, 0).None? then
          !ok && inodes[..] == ins && freeBlocks[..] == fb && disk.blocks == old(disk.blocks)
        else
          var k := FindInode(ins, 0).value; var b := FreeBlockResult(fb);
          && ok && inodes[..] == ins[k := Inode(id, true, b, 0)] && freeBlocks[..] == fb[b := 1]
          && disk.blocks == if FirstFree(fb).Some? then old(disk.blocks)[b := Zeros()] else old(disk.blocks)
    {
      var found := LookupFile(id);
      if found.Some? {
        return false;
      }
      var i := 0;
      while i < inodes.Length
        invariant i <= inodes.Length
        invariant forall j :: 0 <= j < i ==> inodes[j].id != 0
      {
        if inodes[i].id == 0 {
          FindInodeAt(inodes[..], 0, i);
          inodes[i] := inodes[i].(id := id, owned := true);
          var b := GetFreeBlock();
          inodes[i] := inodes[i].(blockId := b, size := 0);
          freeBlocks[b] := 1;
          return true;
        }
        i := i + 1;
      }
      FindInodeAt(inodes[..], 0, inodes.Length);
      return false;
    }

    /**
     * DeleteFile: with the id absent nothing changes and the result is
     * false. Otherwise, for the lowest inode with the id, every block its
     * index block lists and the index block itself are marked free, and the
     * inode's id, owner and index block are cleared; its size is kept.
     */
    method DeleteFile(id: int) returns (ok: bool)
      requires Valid()
      modifies inodes, freeBlocks
      ensures Valid() && disk.blocks == old(disk.blocks)
      ensures var ins := old(inodes[..]); var fb := old(freeBlocks[..]);
        if FindInode(ins, id).None? then
          !ok && inodes[..] == ins && freeBlocks[..] == fb
        else
          var k := FindInode(ins, id).value; var ino := ins[k];
          && ok && inodes[..] == ins[k := Inode(0, false, 0, ino.size)]
          && freeBlocks[..] == Cleared(fb, Listed(disk.blocks[ino.blockId]))[ino.blockId := 0]
    {
      var i := 0;
      while i < inodes.Length
        invariant i <= inodes.Length
        invariant forall j :: 0 <= j < i ==> inodes[j].id != id
      {
        if id == inodes[i].id {
          FindInodeAt(inodes[..], id, i);
          FreeListed(inodes[i].blockId);
          freeBlocks[inodes[i].blockId] := 0;
          inodes[i] := inodes[i].(id := 0, owned := false, blockId := 0);
          return true;
        }
        i := i + 1;
      }
      FindInodeAt(inodes[..], id, inodes.Length);
      return false;
    }

    /** The inner loop of DeleteFile: the blocks index block b lists, up to its first 0, are marked free. */
    method FreeListed(b: nat)
      requires Valid() && b < BLOCK_SIZE
      modifies freeBlocks
      ensures Valid()
      ensures freeBlocks[..] == Cleared(old(freeBlocks[..]), Listed(disk.blocks[b]))
    {
      var content := disk.blocks[b];
      ghost var fb := freeBlocks[..];
      ghost var xs := Listed(content);
      var j := 0;
      while j < BLOCK_SIZE && content[j] != 0
        invariant j <= |xs| && xs[..j] == content[..j]
        invariant freeBlocks[..] == Cleared(fb, content[..j])
      {
        freeBlocks[content[j]] := 0;
        ClearedStep(fb, content[..j], content[j]);
        assert content[..j + 1] == content[..j] + [content[j]];
        j := j + 1;
      }
      assert content[..j] == xs;
    }
  }

  /** FindInode is pinned down by its first match. */
  lemma FindInodeAt(ins: seq<Inode>, id: int, i: nat)
    requires i <= |ins| && forall j :: 0 <= j < i ==> ins[j].id != id
    requires i < |ins| ==> ins[i].id == id
    ensures FindInode(ins, id) == if i < |ins| then Some(i) else None
  {
  }

  /** FirstFree is pinned down by its first match. */
  lemma FirstFreeAt(fb: seq<byte>, i: nat)
    requires i <= |fb| && forall j :: 0 <= j < i ==> fb[j] != 0
    requires i < |fb| ==> fb[i] == 0
    ensures FirstFree(fb) == if i < |fb| then Some(i) else None
  {
  }

  /** Freeing one more listed block. */
  lemma ClearedStep(fb: seq<byte>, xs: seq<byte>, x: byte)
    requires x < |fb|
    ensures Cleared(fb, xs + [x]) == Cleared(fb, xs)[x := 0]
  {
    assert forall k :: 0 <= k < |fb| ==> (k in xs + [x] <==> k in xs || k == x);
  }

  /**
   * After a successful create, looking the id up finds the inode that was
   * filled in.
   */
  lemma CreatedIsFound(ins: seq<Inode>, id: int, b: nat)
    requires id != 0 && FindInode(ins, id).None? && FindInode(ins, 0).Some?
    ensures var k := FindInode(ins, 0).value; FindInode(ins[k := Inode(id, true, b, 0)], id) == Some(k)
  {
    var k := FindInode(ins, 0).value;
    FindInodeAt(ins[k := Inode(id, true, b, 0)], id, k);
  }

  /** No non-zero file id is held by two inodes. */
  ghost predicate UniqueIds(ins: seq<Inode>)
  {
    forall i, j :: 0 <= i < j < |ins| && ins[i].id != 0 ==> ins[j].id != ins[i].id
  }

  /**
   * CreateFile refuses an id some inode already holds, so writing the new id
   * into an inode keeps the ids unique.
   */
  lemma CreateKeepsUnique(ins: seq<Inode>, id: int, k: nat, b: nat)
    requires UniqueIds(ins) && FindInode(ins, id).None? && k < |ins|
    ensures UniqueIds(ins[k := Inode(id, true, b, 0)])
  {
    var after := ins[k := Inode(id, true, b, 0)];
    forall i, j | 0 <= i < j < |after| && after[i].id != 0
      ensures after[j].id != after[i].id
    {
      if i == k {
        assert after[j].id == ins[j].id;
      } else if j == k {
        assert after[i].id == ins[i].id;
      }
    }
  }

  /** DeleteFile clears an id, which keeps the ids unique. */
  lemma DeleteKeepsUnique(ins: seq<Inode>, k: nat, size: nat)
    requires UniqueIds(ins) && k < |ins|
    ensures UniqueIds(ins[k := Inode(0, false, 0, size)])
  {
    var after := ins[k := Inode(0, false, 0, size)];
    forall i, j | 0 <= i < j < |after| && after[i].id != 0
      ensures after[j].id != after[i].id
    {
      assert i != k && after[i] == ins[i];
    }
  }

  /** Unique ids give DeletedIsGone's hypothesis for every non-zero id. */
  lemma UniqueIdsOnce(ins: seq<Inode>, id: int)
    requires UniqueIds(ins) && id != 0
    ensures forall i, j :: 0 <= i < j < |ins| && ins[i].id == id ==> ins[j].id != id
  {
  }

  /**
   * After deleting a file whose id is held by one inode only, the id is no
   * longer found and the freed inode is the first empty one unless an
   * earlier inode was already empty.
   */
  lemma DeletedIsGone(ins: seq<Inode>, id: int, size: nat)
    requires id != 0 && FindInode(ins, id).Some?
    requires forall i, j :: 0 <= i < j < |ins| && ins[i].id == id ==> ins[j].id != id
    ensures var k := FindInode(ins, id).value; var after := ins[k := Inode(0, false, 0, size)];
      && FindInode(after, id).None?
      && FindInode(after, 0) == if FindInode(ins, 0).Some? && FindInode(ins, 0).value < k then FindInode(ins, 0) else Some(k)
  {
    var k := FindInode(ins, id).value;
    var after := ins[k := Inode(0, false, 0, size)];
    FindInodeAt(after, id, |after|);
    if FindInode(ins, 0).Some? && FindInode(ins, 0).value < k {
      FindInodeAt(after, 0, FindInode(ins, 0).value);
    } else {
      FindInodeAt(after, 0, k);
    }
  }

  /**
   * Mounting a freshly formatted disk: blocks 0 and 1 are the only used
   * blocks, so the first block GetFreeBlock hands out is block 2.
   */
  lemma FormattedMount()
    ensures var fb := MountedFreeMap(Zeros());
      && (forall k :: 0 <= k < BLOCK_SIZE ==> (fb[k] == 0 <==> k >= 2))
      && FreeBlockResult(fb) == 2
  {
    var fb := MountedFreeMap(Zeros());
    FirstFreeAt(fb, 2);
  }
}
