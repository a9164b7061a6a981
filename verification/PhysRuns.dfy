/**
  Runs of the frame allocator: no frame is handed out twice while it is held, and every used
  frame is accounted for.
 */
module PhysRuns {
  import opened Phys

  /**
    A call and, for the frees, the grant it gives back frames of: grants are numbered in the order
    in which they were made. `AllocRegion` asks for `n` frames below frame `limit`.
   */
  datatype Call =
    | Alloc
    | AllocRegion(limit: nat, n: nat)
    | Free(grant: nat, frame: nat)
    | FreeRegion(grant: nat, base: nat, n: nat)

  /** The used frames, and for each grant the frames of it still held. */
  datatype Pool = Pool(used: set<nat>, held: seq<set<nat>>)

  datatype Outcome = Stuck | Next(pool: Pool)

  /** The frames that a call returning `addr` hands out; address 0 stands for failure. */
  function Granted(addr: nat, n: nat): set<nat> {
    if addr == 0 then {} else FrameRange(addr / 4096, n)
  }

  /** One call; a free of frames that its grant does not hold is stuck. */
  function StepPool(p: Pool, c: Call, capacity: nat): Outcome {
    match c
    case Alloc =>
      var (addr, used) := GrantFrame(p.used, capacity);
      Next(Pool(used, p.held + [Granted(addr, 1)]))
    case AllocRegion(limit, n) =>
      var (addr, used) := GrantRegion(p.used, limit, n);
      Next(Pool(used, p.held + [Granted(addr, n)]))
    case Free(grant, frame) => Release(p, grant, {frame})
    case FreeRegion(grant, base, n) => Release(p, grant, FrameRange(base, n))
  }

  function Release(p: Pool, grant: nat, frames: set<nat>): Outcome {
    if grant < |p.held| && frames <= p.held[grant]
    then Next(Pool(p.used - frames, p.held[grant := p.held[grant] - frames]))
    else Stuck
  }

  function RunPool(p: Pool, calls: seq<Call>, capacity: nat): Outcome
    decreases |calls|
  {
    if calls == [] then Next(p)
    else
      match StepPool(p, calls[0], capacity)
      case Stuck => Stuck
      case Next(p') => RunPool(p', calls[1..], capacity)
  }

  function Union(held: seq<set<nat>>): set<nat> {
    if held == [] then {} else held[0] + Union(held[1..])
  }

  ghost predicate Apart(held: seq<set<nat>>) {
    forall i, j | 0 <= i < j < |held| :: held[i] !! held[j]
  }

  /** Grants hold disjoint frames, none of them used from the start, and together they are what else is used. */
  ghost predicate Accounted(p: Pool, initial: set<nat>) {
    && Apart(p.held)
    && Union(p.held) !! initial
    && p.used == initial + Union(p.held)
  }

  lemma {:induction false} InUnion(held: seq<set<nat>>, f: nat)
    ensures f in Union(held) <==> exists i :: 0 <= i < |held| && f in held[i]
  {
    if held != [] {
      InUnion(held[1..], f);
      if exists i :: 0 <= i < |held| && f in held[i] {
        var i :| 0 <= i < |held| && f in held[i];
        if i > 0 {
          assert held[1..][i - 1] == held[i];
        }
      }
      if f in Union(held[1..]) {
        var i :| 0 <= i < |held[1..]| && f in held[1..][i];
        assert held[i + 1] == held[1..][i];
      }
    }
  }

  lemma {:induction false} UnionAppend(held: seq<set<nat>>, frames: set<nat>)
    ensures Union(held + [frames]) == Union(held) + frames
  {
    if held == [] {
      assert held + [frames] == [frames];
      assert Union([frames]) == frames + Union([]);
    } else {
      UnionAppend(held[1..], frames);
      assert (held + [frames])[1..] == held[1..] + [frames];
    }
  }

  /** A new grant of frames that were free keeps the account. */
  lemma GrantAccounted(p: Pool, initial: set<nat>, frames: set<nat>)
    requires Accounted(p, initial) && frames !! p.used
    ensures Accounted(Pool(p.used + frames, p.held + [frames]), initial)
  {
    UnionAppend(p.held, frames);
    forall i, j | 0 <= i < j < |p.held + [frames]| ensures (p.held + [frames])[i] !! (p.held + [frames])[j] {
      if j == |p.held| {
        forall f | f in p.held[i] ensures f !in frames {
          InUnion(p.held, f);
        }
      }
    }
  }

  lemma ReleaseAccounted(p: Pool, initial: set<nat>, grant: nat, frames: set<nat>)
    requires Accounted(p, initial) && grant < |p.held| && frames <= p.held[grant]
    ensures Accounted(Pool(p.used - frames, p.held[grant := p.held[grant] - frames]), initial)
  {
    var held' := p.held[grant := p.held[grant] - frames];
    forall f: nat ensures f in Union(held') <==> f in Union(p.held) && f !in frames {
      InUnion(held', f);
      InUnion(p.held, f);
      if f in Union(p.held) && f !in frames {
        var i :| 0 <= i < |p.held| && f in p.held[i];
        assert f in held'[i];
      }
      if f in Union(held') {
        var i :| 0 <= i < |held'| && f in held'[i];
        assert f in p.held[i];
        assert i != grant ==> p.held[i] !! p.held[grant];
      }
    }
    forall f | f in frames ensures f in Union(p.held) {
      InUnion(p.held, f);
    }
  }

  /** What a successful call hands out was free. */
  lemma FrameGrant(used: set<nat>, capacity: nat)
    requires 0 in used
    ensures var (addr, used') := GrantFrame(used, capacity);
            && Granted(addr, 1) !! used && used' == used + Granted(addr, 1)
            && |used'| == |used| + if addr != 0 then 1 else 0
  {
    FirstFreeIsLowest(used, 0, capacity);
    var f := FirstFree(used, 0, capacity);
    assert FrameRange(f, 1) == {f};
  }

  lemma RangeAtZero(n: nat)
    ensures if n == 0 then forall f: nat :: FrameRange(f, n) == {} else 0 in FrameRange(0, n)
  {}

  lemma RegionGrant(used: set<nat>, limit: nat, n: nat)
    requires 0 in used
    ensures var (addr, used') := GrantRegion(used, limit, n);
            && Granted(addr, n) !! used && used' == used + Granted(addr, n)
            && |used'| == |used| + if addr != 0 then n else 0
  {
    FirstFitIsLowest(used, 0, limit, n);
    var f := FirstFit(used, 0, limit, n);
    FrameRangeSize(f, n);
    RangeAtZero(n);
    hide FrameRange, FirstFit;
    assert f < limit && n > 0 ==> f != 0;
    if f < limit {
      DisjointSize(used, FrameRange(f, n));
    }
  }

  lemma DisjointSize(a: set<nat>, b: set<nat>)
    requires a !! b
    ensures |a + b| == |a| + |b|
  {}

  /** A frame allocation, said outright: the lowest free frame becomes used, or none is free and nothing changes. */
  lemma FrameIsLowest(used: set<nat>, capacity: nat)
    requires 0 in used
    ensures var (addr, used') := GrantFrame(used, capacity);
            && addr % 4096 == 0
            && (addr != 0 ==> addr / 4096 < capacity && addr / 4096 !in used && used' == used + {addr / 4096})
            && (addr == 0 ==> used' == used)
            && forall g: nat | g < (if addr != 0 then addr / 4096 else capacity) :: g in used
  {
    FirstFreeIsLowest(used, 0, capacity);
  }

  /**
    A region allocation, said outright: the lowest run of `n` free frames that begins below `limit` becomes
    used, or every run that begins there holds a used frame and nothing changes.
   */
  lemma RegionIsLowest(used: set<nat>, limit: nat, n: nat, g: nat)
    requires 0 in used && n > 0
    ensures var (addr, used') := GrantRegion(used, limit, n);
            && addr % 4096 == 0
            && (addr != 0 ==> addr / 4096 < limit
                              && (forall f: nat | addr / 4096 <= f < addr / 4096 + n :: f !in used)
                              && (forall f: nat :: f in used' <==> f in used || addr / 4096 <= f < addr / 4096 + n))
            && (addr == 0 ==> used' == used)
            && (g < (if addr != 0 then addr / 4096 else limit) ==> exists f: nat :: g <= f < g + n && f in used)
  {
    FirstFitIsLowest(used, 0, limit, n);
    var f := FirstFit(used, 0, limit, n);
    RangeAtZero(n);
    hide FirstFit, FrameRange;
    if g < f {
      Blocked(used, g, n);
    }
    if f < limit {
      RunIsFree(used, f, n);
    }
  }

  lemma Blocked(used: set<nat>, g: nat, n: nat)
    requires !(FrameRange(g, n) !! used)
    ensures exists f: nat :: g <= f < g + n && f in used
  {
    var f :| f in FrameRange(g, n) && f in used;
  }

  lemma RunIsFree(used: set<nat>, f: nat, n: nat)
    requires FrameRange(f, n) !! used
    ensures forall g: nat | f <= g < f + n :: g !in used
    ensures forall g: nat :: g in used + FrameRange(f, n) <==> g in used || f <= g < f + n
  {
    forall g: nat | f <= g < f + n ensures g !in used {
      assert g in FrameRange(f, n);
    }
  }

  lemma StepAccounted(p: Pool, c: Call, capacity: nat, initial: set<nat>)
    requires Accounted(p, initial) && 0 in initial && StepPool(p, c, capacity).Next?
    ensures Accounted(StepPool(p, c, capacity).pool, initial)
  {
    match c
    case Alloc =>
      FrameGrant(p.used, capacity);
      GrantAccounted(p, initial, Granted(GrantFrame(p.used, capacity).0, 1));
    case AllocRegion(limit, n) =>
      RegionGrant(p.used, limit, n);
      GrantAccounted(p, initial, Granted(GrantRegion(p.used, limit, n).0, n));
    case Free(grant, frame) => ReleaseAccounted(p, initial, grant, {frame});
    case FreeRegion(grant, base, n) => ReleaseAccounted(p, initial, grant, FrameRange(base, n));
  }

  /**
    Over every run of allocations and frees of held frames: the live grants hold pairwise disjoint
    frames, the used frames are the initial ones and the held ones, and frame 0 is never held.
   */
  lemma {:induction false} NoDoubleGrant(p: Pool, calls: seq<Call>, capacity: nat, initial: set<nat>)
    requires Accounted(p, initial) && 0 in initial && RunPool(p, calls, capacity).Next?
    ensures var p' := RunPool(p, calls, capacity).pool;
            Accounted(p', initial) && forall i | 0 <= i < |p'.held| :: 0 !in p'.held[i]
    decreases |calls|
  {
    if calls == [] {
      forall i | 0 <= i < |p.held| ensures 0 !in p.held[i] {
        InUnion(p.held, 0);
      }
    } else {
      StepAccounted(p, calls[0], capacity, initial);
      NoDoubleGrant(StepPool(p, calls[0], capacity).pool, calls[1..], capacity, initial);
    }
  }

  /** An allocation and the free of what it granted undo each other. */
  lemma AllocFree(p: Pool, capacity: nat)
    requires 0 in p.used && FirstFree(p.used, 0, capacity) < capacity
    ensures var f := FirstFree(p.used, 0, capacity);
            RunPool(p, [Alloc, Free(|p.held|, f)], capacity) == Next(Pool(p.used, p.held + [{}]))
  {
    var f := FirstFree(p.used, 0, capacity);
    FirstFreeIsLowest(p.used, 0, capacity);
    assert f != 0;
    assert FrameRange(f * 4096 / 4096, 1) == {f};
    var p1 := Pool(p.used + {f}, p.held + [{f}]);
    assert StepPool(p, Alloc, capacity) == Next(p1);
    assert {f} - {f} == {};
    assert p.used + {f} - {f} == p.used;
    assert (p.held + [{f}])[|p.held| := {}] == p.held + [{}];
    var rest := [Alloc, Free(|p.held|, f)][1..];
    assert rest == [Free(|p.held|, f)] && rest[1..] == [];
    var p2 := Pool(p.used, p.held + [{}]);
    assert StepPool(p1, Free(|p.held|, f), capacity) == Next(p2);
    assert RunPool(p2, rest[1..], capacity) == Next(p2);
    assert RunPool(p1, rest, capacity) == Next(p2);
  }

  /**
    The scan covers the whole bitmap, also past the last frame of the address space. An allocation
    returns a real frame or fails cleanly exactly if a real frame is free or every bit past them is set.
   */
  lemma RealFrameIff(used: set<nat>, realFrames: nat, capacity: nat)
    requires realFrames <= capacity && 0 in used
    ensures var addr := GrantFrame(used, capacity).0;
            addr / 4096 < realFrames || addr == 0
            <==> (exists f: nat :: f < realFrames && f !in used) || AllUsed(used, realFrames, capacity)
  {
    FirstFreeIsLowest(used, 0, capacity);
  }

  /** A run of `n` free frames begins below `limit` and ends by frame `end`. */
  ghost predicate RunFits(used: set<nat>, limit: nat, n: nat, end: nat) {
    exists g: nat :: g < limit && g + n <= end && FrameRange(g, n) !! used
  }

  /**
    A run may begin inside the address space and end past it. A region allocation hands out only real
    frames exactly if some run that fits ends with them, or no run fits at all.
   */
  lemma RealRegionIff(used: set<nat>, limit: nat, n: nat, realFrames: nat)
    requires 0 in used
    ensures (forall f | f in Granted(GrantRegion(used, limit, n).0, n) :: f < realFrames)
            <==> n == 0 || RunFits(used, limit, n, realFrames) || !RunFits(used, limit, n, limit + n)
  {
    FirstFitIsLowest(used, 0, limit, n);
    var f := FirstFit(used, 0, limit, n);
    if f < limit && n > 0 {
      RangeAtZero(n);
      assert f != 0;
      assert Granted(GrantRegion(used, limit, n).0, n) == FrameRange(f, n);
      assert RunFits(used, limit, n, limit + n);
      LastOfRun(f, n, realFrames);
      if RunFits(used, limit, n, realFrames) {
        var g: nat :| g < limit && g + n <= realFrames && FrameRange(g, n) !! used;
        assert f <= g;
      }
    }
  }

  lemma LastOfRun(f: nat, n: nat, realFrames: nat)
    requires n > 0
    ensures (forall g | g in FrameRange(f, n) :: g < realFrames) <==> f + n <= realFrames
  {
    assert f + n - 1 in FrameRange(f, n);
  }
}
