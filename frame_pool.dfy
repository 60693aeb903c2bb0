/**
 * The contiguous physical-frame allocator (ContFramePool).
 *
 * A pool owns the frames [baseFrameNo, baseFrameNo + nframes) and records the
 * state of each in a bitmap holding 2 bits per frame, 4 frames per byte.
 * Pools are appended to a process-wide registry so that a bare frame number
 * can be routed back to the pool that owns it.
 */
module FramePool {
  import opened Common

  const FRAME_SIZE: nat := 4096
  /** Frames whose 2-bit states fit in one 4096-byte info frame. */
  const FRAMES_PER_INFO_FRAME: nat := 16384
  /** Number of frames reachable with 32-bit physical addresses. */
  const MAX_FRAMES: nat := 0x10_0000

  datatype FrameState = Free | Used | HoS

  // ---------------------------------------------------------------------------
  // The 2-bit encoding of one frame inside a bitmap byte
  // ---------------------------------------------------------------------------

  /** The two bits of `b` that hold the state of slot `slot` (0..3). */
  function SlotBits(b: bv8, slot: nat): bv8
    requires slot < 4
  {
    (b >> (slot * 2)) & 3
  }

  /** get_state on one byte: 01 is Free, 10 is HoS, 00 and 11 are Used. */
  function DecodeSlot(b: bv8, slot: nat): FrameState
    requires slot < 4
  {
    var bits := SlotBits(b, slot);
    if bits == 1 then Free else if bits == 2 then HoS else Used
  }

  /** The mask that set_state XORs in after forcing both bits to 1. */
  function StateMask(s: FrameState): bv8
  {
    match s
    case Used => 3
    case Free => 2
    case HoS => 1
  }

  /** set_state on one byte: OR the slot's bits to 11, then XOR the state mask. */
  function EncodeSlot(b: bv8, slot: nat, s: FrameState): bv8
    requires slot < 4
  {
    (b | (3 << (slot * 2))) ^ (StateMask(s) << (slot * 2))
  }

  /** Writing a state into one slot leaves a different slot's bits as they were. */
  lemma EncodeKeepsSlot(b: bv8, slot: nat, s: FrameState, j: nat)
    requires slot < 4 && j < 4 && j != slot
    ensures SlotBits(EncodeSlot(b, slot, s), j) == SlotBits(b, j)
  {
    KeepBits(b, StateMask(s), (slot * 2) as bv8, (j * 2) as bv8);
  }

  /** The bit-level core of EncodeKeepsSlot, on shift amounts of bit-vector type. */
  lemma KeepBits(b: bv8, m: bv8, k: bv8, sh: bv8)
    requires m <= 3 && k <= 6 && sh <= 6 && k & 1 == 0 && sh & 1 == 0 && k != sh
    ensures (((b | (3 << k)) ^ (m << k)) >> sh) & 3 == (b >> sh) & 3
  {
  }

  /** Writing a state and reading it back gives that state; the other three slots keep their bits. */
  lemma EncodeThenDecode(b: bv8, slot: nat, s: FrameState)
    requires slot < 4
    ensures DecodeSlot(EncodeSlot(b, slot, s), slot) == s
    ensures forall j :: 0 <= j < 4 && j != slot ==> SlotBits(EncodeSlot(b, slot, s), j) == SlotBits(b, j)
  {
    match s {
      case Used => assert SlotBits(EncodeSlot(b, slot, s), slot) == 0;
      case Free => assert SlotBits(EncodeSlot(b, slot, s), slot) == 1;
      case HoS => assert SlotBits(EncodeSlot(b, slot, s), slot) == 2;
    }
    forall j | 0 <= j < 4 && j != slot
      ensures SlotBits(EncodeSlot(b, slot, s), j) == SlotBits(b, j)
    {
      EncodeKeepsSlot(b, slot, s, j);
    }
  }

  /** Writing one slot of a byte sequence changes the decoded state of that slot only. */
  lemma DecodeAfterWrite(b: seq<bv8>, c: seq<bv8>, frameNo: nat, state: FrameState)
    requires frameNo < 4 * |b| && c == b[frameNo / 4 := EncodeSlot(b[frameNo / 4], frameNo % 4, state)]
    ensures forall i :: 0 <= i < 4 * |b| ==>
      DecodeSlot(c[i / 4], i % 4) == if i == frameNo then state else DecodeSlot(b[i / 4], i % 4)
  {
    EncodeThenDecode(b[frameNo / 4], frameNo % 4, state);
    forall i | 0 <= i < 4 * |b|
      ensures DecodeSlot(c[i / 4], i % 4) == if i == frameNo then state else DecodeSlot(b[i / 4], i % 4)
    {
      if i / 4 == frameNo / 4 && i != frameNo {
        assert SlotBits(c[i / 4], i % 4) == SlotBits(b[i / 4], i % 4);
      }
    }
  }

  /** needed_info_frames: the number of info frames for the 2-bit states of n frames, ceil(n / 16384). */
  function NeededInfoFrames(n: nat): (r: nat)
    ensures r * FRAMES_PER_INFO_FRAME >= n
    ensures n > 0 ==> (r - 1) * FRAMES_PER_INFO_FRAME < n
    ensures n == 0 ==> r == 0
  {
    n / 16384 + (if n % 16384 > 0 then 1 else 0)
  }

  // ---------------------------------------------------------------------------
  // Specification functions over the decoded state sequence
  // ---------------------------------------------------------------------------

  /** The number of frames get_frames(n) claims: n == 0 still marks one HoS frame. */
  function Span(n: nat): (m: nat)
    ensures m >= 1 && (n >= 1 ==> m == n)
  {
    if n == 0 then 1 else n
  }

  /** Frames r .. r+m-1 exist and are all Free. */
  ghost predicate FreeRun(s: seq<FrameState>, r: nat, m: nat)
  {
    r + m <= |s| && forall k :: r <= k < r + m ==> s[k] == Free
  }

  /** First fit: the lowest start at or after `from` of m Free frames inside [0, limit). */
  ghost function FirstFit(s: seq<FrameState>, limit: nat, m: nat, from: nat): (r: Option<nat>)
    requires limit <= |s| && m >= 1
    decreases limit - from
    ensures r.Some? ==> from <= r.value && r.value + m <= limit && FreeRun(s, r.value, m)
    ensures forall k :: from <= k && k + m <= limit && (r.None? || k < r.value) ==> !FreeRun(s, k, m)
  {
    if from + m > limit then None
    else if FreeRun(s, from, m) then Some(from)
    else FirstFit(s, limit, m, from + 1)
  }

  /** The states after claiming frames r .. r+m-1: r becomes HoS, the rest Used. */
  ghost function Claimed(s: seq<FrameState>, r: nat, m: nat): (t: seq<FrameState>)
    requires r + m <= |s| && m >= 1
    ensures |t| == |s| && t[r] == HoS
    ensures forall k :: r < k < r + m ==> t[k] == Used
    ensures forall k :: 0 <= k < |s| && (k < r || k >= r + m) ==> t[k] == s[k]
  {
    seq(|s|, k requires 0 <= k < |s| => if k == r then HoS else if r < k < r + m then Used else s[k])
  }

  /** Claiming one more frame extends a claimed run by one Used frame. */
  lemma ClaimedStep(s: seq<FrameState>, r: nat, i: nat)
    requires i >= 1 && r + i + 1 <= |s|
    ensures Claimed(s, r, i)[r + i := Used] == Claimed(s, r, i + 1)
  {
  }

  /** Number of Free frames in s. */
  function CountFree(s: seq<FrameState>): (c: nat)
    ensures c <= |s|
  {
    if s == [] then 0 else (if s[0] == Free then 1 else 0) + CountFree(s[1..])
  }

  /**
   * Well-formed state sequence (the run invariant): every Used frame follows
   * a HoS or a Used frame, so each allocated run begins with exactly one HoS.
   */
  ghost predicate WellFormed(s: seq<FrameState>, limit: nat)
    requires limit <= |s|
  {
    (limit > 0 ==> s[0] != Used) && forall k :: 0 < k < limit && s[k] == Used ==> s[k - 1] != Free
  }

  /** Index of the first frame at or after `from` that is not Used, or `limit`. */
  function RunEnd(s: seq<FrameState>, from: nat, limit: nat): (e: nat)
    requires from <= limit <= |s|
    decreases limit - from
    ensures from <= e <= limit
    ensures forall k :: from <= k < e ==> s[k] == Used
    ensures e < limit ==> s[e] != Used
  {
    if from == limit || s[from] != Used then from else RunEnd(s, from + 1, limit)
  }

  /**
   * The intended release: a HoS frame and the Used frames that follow it, up to
   * the first Free or HoS frame or the end of the pool, all become Free.
   */
  ghost function ReleasedRun(s: seq<FrameState>, idx: nat, limit: nat): seq<FrameState>
    requires idx < limit <= |s|
  {
    if s[idx] != HoS then s else Freed(s, idx, RunEnd(s, idx + 1, limit))
  }

  /** The states with frames i .. j-1 set to Free. */
  ghost function Freed(s: seq<FrameState>, i: nat, j: nat): (t: seq<FrameState>)
    requires i <= j <= |s|
    ensures |t| == |s| && forall k :: 0 <= k < |s| ==> t[k] == (if i <= k < j then Free else s[k])
  {
    seq(|s|, k requires 0 <= k < |s| => if i <= k < j then Free else s[k])
  }

  /** Freeing one more frame extends the freed range by one. */
  lemma FreedStep(s: seq<FrameState>, i: nat, j: nat)
    requires i <= j < |s|
    ensures Freed(s, i, j)[j := Free] == Freed(s, i, j + 1)
  {
  }

  /** release_frame_in_pool as written: the head and at most the one frame after it become Free. */
  ghost function ReleasedAsWritten(s: seq<FrameState>, idx: nat): seq<FrameState>
    requires idx + 1 < |s|
  {
    if s[idx] != HoS then s
    else if s[idx + 1] == Used then s[idx := Free][idx + 1 := Free]
    else s[idx := Free]
  }

  // ---------------------------------------------------------------------------
  // Counting lemmas
  // ---------------------------------------------------------------------------

  lemma {:induction false} CountFreeConcat(a: seq<FrameState>, b: seq<FrameState>)
    ensures CountFree(a + b) == CountFree(a) + CountFree(b)
  {
    if a == [] {
      assert a + b == b;
    } else {
      assert (a + b)[1..] == a[1..] + b;
      CountFreeConcat(a[1..], b);
    }
  }

  /** All frames Free exactly when the count of Free frames is the length. */
  lemma {:induction false} CountFreeFull(s: seq<FrameState>)
    ensures CountFree(s) == |s| <==> forall k :: 0 <= k < |s| ==> s[k] == Free
  {
    if s != [] {
      CountFreeFull(s[1..]);
      assert forall k :: 1 <= k < |s| ==> s[k] == s[1..][k - 1];
    }
  }

  /** No Free frame at all exactly when the count is zero. */
  lemma {:induction false} CountFreeZero(s: seq<FrameState>)
    ensures CountFree(s) == 0 <==> forall k :: 0 <= k < |s| ==> s[k] != Free
  {
    if s != [] {
      CountFreeZero(s[1..]);
      assert forall k :: 1 <= k < |s| ==> s[k] == s[1..][k - 1];
    }
  }

  /**
   * Changing only the frames in [i, j) of a sequence changes the number of
   * Free frames in its prefix of length `limit` by the change inside [i, j).
   */
  lemma CountFreeSplice(s: seq<FrameState>, t: seq<FrameState>, i: nat, j: nat, limit: nat)
    requires |s| == |t| && i <= j <= limit <= |s|
    requires forall k :: 0 <= k < |s| && (k < i || k >= j) ==> s[k] == t[k]
    ensures CountFree(t[..limit]) - CountFree(s[..limit]) == CountFree(t[i..j]) - CountFree(s[i..j])
  {
    assert s[..limit] == s[..i] + s[i..j] + s[j..limit];
    assert t[..limit] == t[..i] + t[i..j] + t[j..limit];
    assert s[..i] == t[..i];
    assert s[j..limit] == t[j..limit];
    CountFreeConcat(s[..i] + s[i..j], s[j..limit]);
    CountFreeConcat(s[..i], s[i..j]);
    CountFreeConcat(t[..i] + t[i..j], t[j..limit]);
    CountFreeConcat(t[..i], t[i..j]);
  }

  /** Claiming m frames inside [0, limit) removes from the Free count exactly the Free frames among them. */
  lemma ClaimedCount(s: seq<FrameState>, r: nat, m: nat, limit: nat)
    requires m >= 1 && r + m <= limit <= |s|
    ensures CountFree(Claimed(s, r, m)[..limit]) == CountFree(s[..limit]) - CountFree(s[r..r + m])
    ensures CountFree(s[r..r + m]) == m <==> FreeRun(s, r, m)
  {
    var t := Claimed(s, r, m);
    CountFreeSplice(s, t, r, r + m, limit);
    CountFreeZero(t[r..r + m]);
    CountFreeFull(s[r..r + m]);
  }

  /** A run of m frames starting anywhere in [fn, fn + c] covers the non-Free frame fn + c when c < m. */
  lemma SkipPastBlocked(s: seq<FrameState>, fn: nat, c: nat, m: nat)
    requires fn + c < |s| && s[fn + c] != Free && c < m
    ensures forall r :: fn <= r <= fn + c ==> !FreeRun(s, r, m)
  {
    forall r | fn <= r <= fn + c
      ensures !FreeRun(s, r, m)
    {
      assert r <= fn + c < r + m;
    }
  }

  /** A freshly initialised pool: n Free frames, or n-1 when the first one hosts the bitmap. */
  lemma FreshPoolCount(s: seq<FrameState>, n: nat, hosted: bool)
    requires n <= |s| && (hosted ==> n >= 1)
    requires forall k :: 0 <= k < n ==> s[k] == (if hosted && k == 0 then HoS else Free)
    ensures CountFree(s[..n]) == if hosted then n - 1 else n
  {
    if hosted {
      assert s[..n] == [s[0]] + s[1..n];
      CountFreeConcat([s[0]], s[1..n]);
      CountFreeFull(s[1..n]);
    } else {
      CountFreeFull(s[..n]);
    }
  }

  /** Some Free frame below `limit` means first fit for one frame succeeds. */
  lemma FreeFrameGivesFit(s: seq<FrameState>, limit: nat)
    requires limit <= |s| && CountFree(s[..limit]) > 0
    ensures FirstFit(s, limit, 1, 0).Some?
  {
    CountFreeZero(s[..limit]);
    var k :| 0 <= k < limit && s[..limit][k] == Free;
    assert FreeRun(s, k, 1);
  }

  /** The intended release returns to Free exactly the frames that were not Free, so the count rises by the run length. */
  lemma ReleasedRunCount(s: seq<FrameState>, idx: nat, limit: nat)
    requires idx < limit <= |s| && s[idx] == HoS
    ensures var e := RunEnd(s, idx + 1, limit);
      CountFree(ReleasedRun(s, idx, limit)[..limit]) == CountFree(s[..limit]) + (e - idx)
  {
    var e := RunEnd(s, idx + 1, limit);
    var t := ReleasedRun(s, idx, limit);
    CountFreeSplice(s, t, idx, e, limit);
    CountFreeFull(t[idx..e]);
    CountFreeZero(s[idx..e]);
  }

  /**
   * Claiming a first-fit run of a well-formed sequence and releasing it again
   * restores every frame of the pool: release returns exactly the claimed run.
   */
  lemma ClaimThenRelease(s: seq<FrameState>, r: nat, m: nat, limit: nat)
    requires m >= 1 && r + m <= limit <= |s|
    requires WellFormed(s, limit) && FreeRun(s, r, m)
    ensures ReleasedRun(Claimed(s, r, m), r, limit)[..limit] == s[..limit]
    ensures WellFormed(Claimed(s, r, m), limit)
  {
    var t := Claimed(s, r, m);
    if r + m < limit {
      assert s[r + m - 1] == Free && t[r + m] == s[r + m];
    }
    assert forall k :: r < k < r + m ==> t[k] == Used;
    var e := RunEnd(t, r + 1, limit);
    assert e == r + m;
  }

  /** The intended release keeps the run invariant. */
  lemma ReleasedRunWellFormed(s: seq<FrameState>, idx: nat, limit: nat)
    requires idx < limit <= |s| && WellFormed(s, limit)
    ensures WellFormed(ReleasedRun(s, idx, limit), limit)
  {
    if s[idx] == HoS {
      var e := RunEnd(s, idx + 1, limit);
      var t := ReleasedRun(s, idx, limit);
      forall k | 0 < k < limit && t[k] == Used
        ensures t[k - 1] != Free
      {
        if k < idx || k > e {
          assert t[k - 1] == s[k - 1];
        }
      }
    }
  }

  /**
   * The release as written stops after one frame: for a 3-frame run the third
   * frame is still Used, so the run is not returned to the pool.
   */
  lemma AsWrittenReleaseLeavesRun()
    ensures var s := [HoS, Used, Used, Free];
      ReleasedAsWritten(s, 0)[2] == Used && ReleasedRun(s, 0, 3)[..3] == [Free, Free, Free]
  {
    var s := [HoS, Used, Used, Free];
    assert RunEnd(s, 1, 3) == 3;
  }

  // ---------------------------------------------------------------------------
  // Registry routing
  // ---------------------------------------------------------------------------

  /** A pool's extent as (base frame, number of frames). */
  type Extent = (nat, nat)

  /** Frame f lies in the pool [base, base + n). */
  predicate Owns(x: Extent, f: nat)
  {
    x.0 <= f < x.0 + x.1
  }

  /** The guard of the registry walk, negated: f lies in [base, base + n] (upper end included). */
  predicate OwnsAsWritten(x: Extent, f: nat)
  {
    !(f > x.0 + x.1 || f < x.0)
  }

  /** The index of the first registered pool that owns f. */
  function Owner(xs: seq<Extent>, f: nat): (r: Option<nat>)
    ensures r.Some? ==> r.value < |xs| && Owns(xs[r.value], f)
    ensures forall j :: 0 <= j < |xs| && (r.None? || j < r.value) ==> !Owns(xs[j], f)
  {
    if xs == [] then None
    else if Owns(xs[0], f) then Some(0)
    else match Owner(xs[1..], f)
      case None => None
      case Some(i) => Some(i + 1)
  }

  /** The pool release_frames picks as written: the first whose closed range [base, base + n] holds f. */
  function OwnerAsWritten(xs: seq<Extent>, f: nat): (r: Option<nat>)
    ensures r.Some? ==> r.value < |xs| && OwnsAsWritten(xs[r.value], f)
    ensures forall j :: 0 <= j < |xs| && (r.None? || j < r.value) ==> !OwnsAsWritten(xs[j], f)
  {
    if xs == [] then None
    else if OwnsAsWritten(xs[0], f) then Some(0)
    else match OwnerAsWritten(xs[1..], f)
      case None => None
      case Some(i) => Some(i + 1)
  }

  /**
   * With a kernel pool [512, 1024) registered before a process pool starting at
   * 1024, frame 1024 is routed to the kernel pool, which does not own it.
   */
  lemma AsWrittenRoutingMisroutes()
    ensures var xs := [(512, 512), (1024, 7168)];
      OwnerAsWritten(xs, 1024) == Some(0) && !Owns(xs[0], 1024) && Owner(xs, 1024) == Some(1)
  {
    var xs: seq<Extent> := [(512, 512), (1024, 7168)];
    assert xs[1..] == [(1024, 7168)];
  }

  /**
   * The leak that follows the misrouting: frame 1024 reaches the pool
   * [512, 1024) as its slot 512, the slot just past its frames. Unless that
   * slot reads HoS, the as-written release there changes nothing, and the
   * process pool, which owns frame 1024, is never called: the frame stays
   * claimed.
   */
  lemma AsWrittenReleaseLeaks(kernel: seq<FrameState>)
    requires |kernel| > 513 && kernel[512] != HoS
    ensures var xs := [(512, 512), (1024, 7168)];
      && OwnerAsWritten(xs, 1024) == Some(0) && Owner(xs, 1024) == Some(1)
      && ReleasedAsWritten(kernel, 1024 - 512) == kernel
  {
    AsWrittenRoutingMisroutes();
  }

  /** Routing by the closed range agrees with routing by the pool's own frames whenever the chosen pool owns f. */
  lemma {:induction false} OwnerAsWrittenAgrees(xs: seq<Extent>, f: nat)
    requires OwnerAsWritten(xs, f).Some? && Owns(xs[OwnerAsWritten(xs, f).value], f)
    ensures Owner(xs, f) == OwnerAsWritten(xs, f)
  {
    if !OwnsAsWritten(xs[0], f) {
      assert xs[1..][OwnerAsWritten(xs[1..], f).value] == xs[OwnerAsWritten(xs, f).value];
      OwnerAsWrittenAgrees(xs[1..], f);
    }
  }

  // ---------------------------------------------------------------------------
  // The pool
  // ---------------------------------------------------------------------------

  class ContFramePool {
    const baseFrameNo: nat
    const nframes: nat
    const infoFrameNo: nat
    /** The bitmap bytes: the memory of the info frame (or of the pool's own first frame). */
    const bitmap: array<bv8>
    var nFreeFrames: int

    /** The bitmap covers every frame of the pool plus the slot just past it; frames fit in 32 bits. */
    ghost predicate Valid()
    {
      nframes < 4 * bitmap.Length && baseFrameNo + nframes <= MAX_FRAMES
    }

    /** The decoded state of every slot of the bitmap. */
    ghost function States(): (s: seq<FrameState>)
      reads bitmap
      ensures |s| == 4 * bitmap.Length
    {
      seq(4 * bitmap.Length, i reads bitmap requires 0 <= i < 4 * bitmap.Length => DecodeSlot(bitmap[i / 4], i % 4))
    }

    /** A bitmap no one wrote decodes to the same states. */
    twostate lemma StatesUnchanged()
      requires unchanged(bitmap)
      ensures States() == old(States())
    {
    }

    /** The free counter equals the number of Free frames of the pool. */
    ghost predicate CounterExact()
      reads this, bitmap
      requires Valid()
    {
      nFreeFrames == CountFree(States()[..nframes])
    }

    /** Valid, and the slot just past the pool is not Free, so get_frames' scan stops inside the bitmap. */
    ghost predicate Ready()
      reads bitmap
    {
      Valid() && States()[nframes] != Free
    }

    /** What get_frames(n) returns in the current state: base + the first fit, or 0. */
    ghost function GetFramesResult(n: nat): (frame: nat)
      reads this, bitmap
      requires Valid()
      ensures frame == 0 || baseFrameNo <= frame < baseFrameNo + nframes
    {
      var fit := FirstFit(States(), nframes, Span(n), 0);
      if nFreeFrames < n || fit.None? then 0 else baseFrameNo + fit.value
    }

    /** The absolute frame number f belongs to this pool and is Free. */
    ghost predicate IsFree(f: nat)
      reads bitmap
      requires Valid()
    {
      baseFrameNo <= f < baseFrameNo + nframes && States()[f - baseFrameNo] == Free
    }

    /** get_state */
    function GetState(frameNo: nat): (s: FrameState)
      reads bitmap
      requires frameNo < 4 * bitmap.Length
      ensures s == States()[frameNo]
    {
      DecodeSlot(bitmap[frameNo / 4], frameNo % 4)
    }

    /** set_state: only the 2-bit slot of frameNo changes. */
    method SetState(frameNo: nat, state: FrameState)
      requires frameNo < 4 * bitmap.Length
      modifies bitmap
      ensures bitmap[frameNo / 4] == EncodeSlot(old(bitmap[frameNo / 4]), frameNo % 4, state)
      ensures forall i :: 0 <= i < bitmap.Length && i != frameNo / 4 ==> bitmap[i] == old(bitmap[i])
      ensures States() == old(States())[frameNo := state]
    {
      var index := frameNo / 4;
      ghost var before := bitmap[..];
      bitmap[index] := EncodeSlot(bitmap[index], frameNo % 4, state);
      assert bitmap[..] == before[index := EncodeSlot(before[index], frameNo % 4, state)];
      DecodeAfterWrite(before, bitmap[..], frameNo, state);
      assert forall i :: 0 <= i < 4 * bitmap.Length ==> States()[i] == old(States())[frameNo := state][i];
    }

    /**
     * The constructor: every frame of the pool becomes Free; when the bitmap is
     * hosted in the pool's own first frame, that frame is HoS and not counted.
     * The pool is appended to the registry.
     */
    constructor (base: nat, n: nat, info: nat, mem: array<bv8>, registry: PoolRegistry)
      requires base + n <= MAX_FRAMES && n < 4 * mem.Length
      requires registry.Valid() && forall p :: p in registry.pools ==> p.bitmap != mem
      modifies mem, registry
      ensures Valid() && baseFrameNo == base && nframes == n && infoFrameNo == info && bitmap == mem
      ensures forall k :: 0 <= k < n ==> States()[k] == (if info == 0 && k == 0 then HoS else Free)
      ensures forall k :: n <= k < 4 * mem.Length ==>
        States()[k] == (if info == 0 && k == 0 then HoS else DecodeSlot(old(mem[k / 4]), k % 4))
      ensures nFreeFrames == (if info == 0 then n - 1 else n)
      ensures n >= 1 || info != 0 ==> CounterExact()
      ensures registry.Valid() && registry.pools == old(registry.pools) + [this]
    {
      baseFrameNo := base;
      nframes := n;
      nFreeFrames := n;
      infoFrameNo := info;
      bitmap := mem;
      new;
      ghost var s0 := States();
      assert forall k :: 0 <= k < 4 * mem.Length ==> s0[k] == DecodeSlot(old(mem[k / 4]), k % 4);
      MarkFree(n);
      if info == 0 {
        SetState(0, HoS);
        nFreeFrames := nFreeFrames - 1;
      }
      if n >= 1 || info != 0 {
        FreshPoolCount(States(), n, info == 0);
      }
      registry.pools := registry.pools + [this];
    }

    /** The constructor's loop: frames 0 .. n-1 become Free, the other slots keep their states. */
    method MarkFree(n: nat)
      requires n < 4 * bitmap.Length
      modifies bitmap
      ensures forall k :: 0 <= k < n ==> States()[k] == Free
      ensures forall k :: n <= k < 4 * bitmap.Length ==> States()[k] == old(States())[k]
    {
      ghost var s0 := States();
      var fno := 0;
      while fno < n
        invariant 0 <= fno <= n
        invariant forall k :: 0 <= k < fno ==> States()[k] == Free
        invariant forall k :: fno <= k < 4 * bitmap.Length ==> States()[k] == s0[k]
      {
        SetState(fno, Free);
        fno := fno + 1;
      }
    }

    /**
     * The search loop of get_frames, which only reads the bitmap: it reports
     * the first-fit start of n Free frames (one when n == 0) inside the pool.
     * The slot just past the pool must not be Free, since the loop reads it.
     */
    method ScanFirstFit(n: nat) returns (isExist: bool, frameNo: nat)
      requires Valid() && States()[nframes] != Free
      ensures var fit := FirstFit(States(), nframes, Span(n), 0);
        isExist == fit.Some? && (isExist ==> frameNo == fit.value)
    {
      ghost var s := States();
      ghost var m := Span(n);
      frameNo := 0;
      var count: nat := 0;
      isExist := false;
      while frameNo <= nframes && !isExist
        invariant frameNo <= nframes + 1 && count <= n
        invariant count > 0 ==> frameNo + count <= nframes
        invariant forall k :: frameNo <= k < frameNo + count ==> s[k] == Free
        invariant forall r :: 0 <= r < frameNo ==> !FreeRun(s, r, m)
        invariant isExist ==> frameNo < nframes && FreeRun(s, frameNo, m)
        decreases nframes + 1 - frameNo, n - count, if isExist then 0 else 1
      {
        if GetState(frameNo) != Free {
          frameNo := frameNo + 1;
        } else if GetState(frameNo + count) == Free && count < n {
          count := count + 1;
        } else if count == n {
          isExist := true;
        } else {
          SkipPastBlocked(s, frameNo, count, m);
          frameNo := frameNo + count;
          frameNo := frameNo + 1;
          count := 0;
        }
      }
    }

    /**
     * From the old state to the new one, get_frames(n) ran: when the counter
     * was below n or no run fitted, nothing changed; otherwise the first-fit
     * run of Span(n) frames was claimed and the counter fell by its length.
     * The pool stays ready, and an exact counter stays exact.
     */
    twostate predicate TookFrames(n: nat)
      reads this, bitmap
    {
      && Ready()
      && (var s := old(States()); var fit := FirstFit(s, nframes, Span(n), 0);
          if old(nFreeFrames) < n || fit.None? then
            States() == s && nFreeFrames == old(nFreeFrames)
          else
            States() == Claimed(s, fit.value, Span(n)) && nFreeFrames == old(nFreeFrames) - Span(n))
      && (old(CounterExact()) ==> CounterExact())
    }

    /**
     * get_frames: fail with 0 and no change when the counter is below n or no
     * run fits; otherwise claim the first-fit run and return base + its start.
     */
    method GetFrames(n: nat) returns (frame: nat)
      requires Ready()
      modifies this`nFreeFrames, bitmap
      ensures frame == old(GetFramesResult(n)) && TookFrames(n)
    {
      if nFreeFrames < n {
        return 0;
      }
      ghost var s := States();
      var isExist, frameNo := ScanFirstFit(n);
      if isExist {
        ClaimRun(frameNo, n);
        frame := frameNo + baseFrameNo;
        ClaimedCount(s, frameNo, Span(n), nframes);
      } else {
        frame := 0;
      }
    }

    /**
     * From the old state to the new one, two get_frames(1) calls took first
     * and then second: first is the first fit of the old states, second the
     * first fit once first is claimed; both were Free and are now HoS, no
     * other frame changed, and the counter fell by two and is exact.
     */
    twostate predicate TookTwoFrames(first: nat, second: nat)
      reads this, bitmap
    {
      && Ready() && CounterExact() && nFreeFrames == old(nFreeFrames) - 2
      && first != second
      && old(IsFree(first)) && old(IsFree(second)) && !IsFree(first) && !IsFree(second)
      && (var fit1 := FirstFit(old(States()), nframes, 1, 0);
          && fit1.Some? && first == baseFrameNo + fit1.value
          && var s1 := Claimed(old(States()), fit1.value, 1); var fit2 := FirstFit(s1, nframes, 1, 0);
          fit2.Some? && second == baseFrameNo + fit2.value && States() == Claimed(s1, fit2.value, 1))
    }

    /**
     * Two successive get_frames(1) calls on a pool whose counter is exact and
     * at least 2: both succeed, as TookTwoFrames states.
     */
    method GetTwoFrames() returns (first: nat, second: nat)
      requires Ready() && CounterExact() && nFreeFrames >= 2
      modifies this`nFreeFrames, bitmap
      ensures TookTwoFrames(first, second)
    {
      ghost var s := States();
      FreeFrameGivesFit(s, nframes);
      ghost var i := FirstFit(s, nframes, 1, 0).value;
      first := GetFrames(1);
      assert first == baseFrameNo + i && States() == Claimed(s, i, 1);
      ghost var s1 := States();
      FreeFrameGivesFit(s1, nframes);
      ghost var j := FirstFit(s1, nframes, 1, 0).value;
      second := GetFrames(1);
      assert second == baseFrameNo + j && States() == Claimed(s1, j, 1);
    }

    /**
     * The marking loop shared by get_frames and mark_inaccessible: frame r
     * becomes HoS, the next n-1 Used, and the counter drops once per frame.
     */
    method ClaimRun(r: nat, n: nat)
      requires Valid() && r + Span(n) <= nframes
      modifies this`nFreeFrames, bitmap
      ensures States() == Claimed(old(States()), r, Span(n))
      ensures nFreeFrames == old(nFreeFrames) - Span(n)
    {
      ghost var s := States();
      SetState(r, HoS);
      nFreeFrames := nFreeFrames - 1;
      var i := 1;
      while i < n
        invariant 1 <= i <= Span(n)
        invariant States() == Claimed(s, r, i)
        invariant nFreeFrames == old(nFreeFrames) - i
      {
        SetState(r + i, Used);
        nFreeFrames := nFreeFrames - 1;
        ClaimedStep(s, r, i);
        i := i + 1;
      }
    }

    /**
     * mark_inaccessible: frame b becomes HoS and the next n-1 Used (one frame
     * when n == 0), and the counter drops by that many whatever their states were.
     */
    method MarkInaccessible(b: nat, n: nat)
      requires Valid() && baseFrameNo <= b && b - baseFrameNo + Span(n) <= nframes
      modifies this`nFreeFrames, bitmap
      ensures States() == Claimed(old(States()), b - baseFrameNo, Span(n))
      ensures nFreeFrames == old(nFreeFrames) - Span(n)
      ensures old(CounterExact()) ==> (CounterExact() <==> FreeRun(old(States()), b - baseFrameNo, Span(n)))
    {
      ghost var s := States();
      var idx := b - baseFrameNo;
      ClaimRun(idx, n);
      ClaimedCount(s, idx, Span(n), nframes);
    }

    /**
     * release_frame_in_pool as written: a non-HoS frame is left alone; otherwise
     * the head becomes Free and, because the loop never advances, so does at
     * most the one frame after it.
     */
    method ReleaseFrameInPool(f: nat)
      requires Valid() && baseFrameNo <= f && f - baseFrameNo <= nframes && f - baseFrameNo + 1 < 4 * bitmap.Length
      modifies this`nFreeFrames, bitmap
      ensures var s := old(States()); var idx := f - baseFrameNo;
        States() == ReleasedAsWritten(s, idx)
        && nFreeFrames == old(nFreeFrames) + (if s[idx] != HoS then 0 else if s[idx + 1] == Used then 2 else 1)
    {
      ghost var s := States();
      var idx := f - baseFrameNo;
      if GetState(idx) != HoS {
        return;
      }
      SetState(idx, Free);
      nFreeFrames := nFreeFrames + 1;
      var fno := idx + 1;
      ghost var freed := false;
      while GetState(fno) == Used
        invariant !freed ==> States() == s[idx := Free] && nFreeFrames == old(nFreeFrames) + 1
        invariant freed ==> s[fno] == Used && States() == s[idx := Free][fno := Free] && nFreeFrames == old(nFreeFrames) + 2
        decreases if freed then 0 else 1
      {
        SetState(fno, Free);
        nFreeFrames := nFreeFrames + 1;
        freed := true;
      }
    }

    /**
     * The freeing part of the intended release: frame idx and the Used frames
     * after it, up to the run's end, become Free, one counter step each.
     */
    method FreeRunAt(idx: nat)
      requires Valid() && idx < nframes
      modifies this`nFreeFrames, bitmap
      ensures var s := old(States()); var e := RunEnd(s, idx + 1, nframes);
        States() == Freed(s, idx, e) && nFreeFrames == old(nFreeFrames) + (e - idx)
    {
      ghost var s := States();
      SetState(idx, Free);
      nFreeFrames := nFreeFrames + 1;
      assert Freed(s, idx, idx) == s;
      FreedStep(s, idx, idx);
      FreeUsedFrom(s, idx, idx + 1);
    }

    /**
     * The loop of the freeing part: from frame fno on, the Used frames up to
     * the run's end become Free, one counter step each.
     */
    method FreeUsedFrom(ghost s: seq<FrameState>, idx: nat, fno: nat)
      requires Valid() && |s| == 4 * bitmap.Length && idx < fno <= nframes
      requires fno <= RunEnd(s, idx + 1, nframes) && States() == Freed(s, idx, fno)
      modifies this`nFreeFrames, bitmap
      ensures var e := RunEnd(s, idx + 1, nframes);
        States() == Freed(s, idx, e) && nFreeFrames == old(nFreeFrames) + (e - fno)
    {
      ghost var e := RunEnd(s, idx + 1, nframes);
      var i := fno;
      while i < nframes && GetState(i) == Used
        invariant fno <= i <= e
        invariant States() == Freed(s, idx, i)
        invariant nFreeFrames == old(nFreeFrames) + (i - fno)
      {
        SetState(i, Free);
        nFreeFrames := nFreeFrames + 1;
        FreedStep(s, idx, i);
        i := i + 1;
      }
    }

    /**
     * From the old state to the new one, the run frame f heads was released:
     * the head and the Used frames after it are Free, the counter rose by
     * their number and stayed exact if it was, and the pool stayed ready if
     * it was. A frame that is not a head changes nothing.
     */
    twostate predicate RunReleased(f: nat)
      reads this, bitmap
    {
      && Valid() && baseFrameNo <= f < baseFrameNo + nframes
      && var s := old(States()); var idx := f - baseFrameNo;
        && States() == ReleasedRun(s, idx, nframes)
        && nFreeFrames == old(nFreeFrames) + (if s[idx] == HoS then RunEnd(s, idx + 1, nframes) - idx else 0)
        && (old(CounterExact()) ==> CounterExact())
        && (old(Ready()) ==> Ready())
    }

    /**
     * The intended release: the head and the Used frames after it, up to the
     * first Free or HoS frame or the end of the pool, become Free, and the
     * counter rises once per frame freed.
     */
    method ReleaseRunInPool(f: nat)
      requires Valid() && baseFrameNo <= f && f - baseFrameNo < nframes
      modifies this`nFreeFrames, bitmap
      ensures RunReleased(f)
    {
      ghost var s := States();
      var idx := f - baseFrameNo;
      if GetState(idx) != HoS {
        return;
      }
      FreeRunAt(idx);
      ReleasedRunCount(s, idx, nframes);
    }
  }

  // ---------------------------------------------------------------------------
  // The registry of pools
  // ---------------------------------------------------------------------------

  /** The extents of a list of pools, in list order. */
  function ExtentsOf(pools: seq<ContFramePool>): (xs: seq<Extent>)
    ensures |xs| == |pools|
    ensures forall i :: 0 <= i < |pools| ==> xs[i] == (pools[i].baseFrameNo, pools[i].nframes)
  {
    seq(|pools|, i requires 0 <= i < |pools| => (pools[i].baseFrameNo, pools[i].nframes))
  }

  /**
   * From the old state to the new one, pool i released the run frame f
   * heads, and every other pool kept its states and its counter.
   */
  twostate predicate ReleasedIn(pools: seq<ContFramePool>, i: nat, f: nat)
    reads set q | q in pools, set q | q in pools :: q.bitmap
  {
    && i < |pools| && pools[i].RunReleased(f)
    && forall j :: 0 <= j < |pools| && j != i ==>
      pools[j].States() == old(pools[j].States()) && pools[j].nFreeFrames == old(pools[j].nFreeFrames)
  }

  /** From the old state to the new one, the first of the pools owning frame f released the run f heads, and nothing else changed. */
  twostate predicate FramesReleased(pools: seq<ContFramePool>, f: nat)
    reads set q | q in pools, set q | q in pools :: q.bitmap
  {
    Owner(ExtentsOf(pools), f).Some? && ReleasedIn(pools, Owner(ExtentsOf(pools), f).value, f)
  }

  /** From the old state to the new one, every pool that was ready for get_frames still is. */
  twostate predicate ReadyKept(pools: seq<ContFramePool>)
    reads set q | q in pools :: q.bitmap
  {
    forall j :: 0 <= j < |pools| && old(pools[j].Ready()) ==> pools[j].Ready()
  }

  /** The process-wide list of pools, in the order they were constructed. */
  class PoolRegistry {
    var pools: seq<ContFramePool>

    ghost predicate Valid()
      reads this
    {
      && (forall i :: 0 <= i < |pools| ==> pools[i].Valid())
      && (forall i, j :: 0 <= i < j < |pools| ==> pools[i] != pools[j] && pools[i].bitmap != pools[j].bitmap)
    }

    /** The extents of the registered pools, in registration order. */
    function Extents(): (xs: seq<Extent>)
      reads this
      ensures |xs| == |pools|
      ensures forall i :: 0 <= i < |pools| ==> xs[i] == (pools[i].baseFrameNo, pools[i].nframes)
    {
      ExtentsOf(pools)
    }

    constructor ()
      ensures Valid() && pools == []
    {
      pools := [];
    }

    /**
     * release_frames: walk the registry to the first pool owning f and release
     * the run headed by f there; no other pool changes.
     */
    method ReleaseFrames(f: nat)
      requires Valid() && Owner(Extents(), f).Some?
      modifies pools, set p | p in pools :: p.bitmap
      ensures Valid() && pools == old(pools)
      ensures FramesReleased(pools, f) && ReadyKept(pools)
    {
      var i := 0;
      while !(pools[i].baseFrameNo <= f < pools[i].baseFrameNo + pools[i].nframes)
        invariant 0 <= i <= Owner(Extents(), f).value
        decreases Owner(Extents(), f).value - i
      {
        i := i + 1;
      }
      ReleaseAt(i, f);
      assert Owner(ExtentsOf(pools), f) == Some(i);
    }

    /** The release in the owning pool, the i-th: only that pool and its bitmap change. */
    method ReleaseAt(i: nat, f: nat)
      requires Valid() && Owner(Extents(), f) == Some(i)
      modifies pools[i], pools[i].bitmap
      ensures ReleasedIn(pools, i, f) && ReadyKept(pools)
    {
      var q := pools[i];
      q.ReleaseRunInPool(f);
      forall j | 0 <= j < |pools| && j != i
        ensures pools[j].States() == old(pools[j].States()) && pools[j].nFreeFrames == old(pools[j].nFreeFrames)
      {
        assert pools[j] != q && pools[j].bitmap != q.bitmap;
        pools[j].StatesUnchanged();
      }
    }
  }
}
