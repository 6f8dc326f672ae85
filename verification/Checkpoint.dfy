/** Checkpoints (kernel/src/payload.rs, `on_snapshot` and `enqueue_restore`): a deep copy of
    an address space together with a saved register frame. */
module Checkpoint {
  import opened Pte
  import opened FramePool
  import opened Space
  import opened PageTables
  import opened Teardown
  import opened Census
  import opened Fork
  import opened Machine
  import opened Estate
  import opened TrapFrame

  /** `d` and `f` are fresh: a space that shows exactly what `s` showed, and one frame. */
  ghost predicate Cloned(m0: seq<Frame>, u0: set<nat>, s: Space, m: seq<Frame>, u: set<nat>, d: Space, f: nat) {
    && |m0| == |m| == POOL_FRAMES && f < POOL_FRAMES
    && Represents(m, d) && SafeSpace(d) && View(m, d) == View(m0, s)
    && d.role.Keys !! u0 && f !in u0 && f !in d.role && u == u0 + d.role.Keys + {f}
    && forall g: nat :: g in u0 && g < POOL_FRAMES ==> m[g] == m0[g]
  }

  lemma CloneMade(m0: seq<Frame>, u0: set<nat>, s: Space, m1: seq<Frame>, d: Space, f: nat, m: seq<Frame>)
    requires Represents(m0, s) && s.role.Keys <= u0 && SafeSpace(s) && |m| == POOL_FRAMES
    requires |m1| == POOL_FRAMES && forall g: nat :: g in u0 && g < POOL_FRAMES ==> m1[g] == m0[g]
    requires Represents(m1, d) && IsCopy(m1, s, d) && d.role.Keys !! u0
    requires f < POOL_FRAMES && f !in u0 && f !in d.role && forall g: nat :: g < POOL_FRAMES && g != f ==> m[g] == m1[g]
    ensures Cloned(m0, u0, s, m, u0 + d.role.Keys + {f}, d, f)
  {
    hide Represents;
    hide SafeSpace;
    hide View;
    hide IsCopy;
    ViewFrame(m0, m1, s);
    CopyLooksSame(m1, s, d);
    CopyIsSafe(m1, s, d);
    ViewFrame(m1, m, d);
    RepresentsFrame(m1, m, d);
  }

  lemma KernelSlotFree(m: seq<Frame>, s: Space)
    requires Represents(m, s) && SafeSpace(s)
    ensures !UsesKernelSlot(s)
  {
    hide Represents;
    forall v | v in s.leaves ensures v / SLOTS / SLOTS != KERNEL_SLOT {
      PathTables(m, s, v);
      GigaOrTable(m, s, KERNEL_SLOT);
    }
  }

  /** The copying half of `on_snapshot`. */
  method Capture(pool: Pool, space: AddressSpace, frame: Regs, ghost s: Space)
    returns (r: Option<(AddressSpace, nat)>, ghost d: Space, ghost f: nat)
    requires pool.Valid() && Represents(pool.mem, s) && SafeSpace(s) && s.role.Keys <= pool.used && space.root == Pa(s.root)
    requires |frame.gpr| == 31
    modifies pool
    ensures pool.Valid()
    ensures forall g: nat :: g in old(pool.used) && g < POOL_FRAMES ==> pool.mem[g] == old(pool.mem)[g]
    ensures r.None? ==> pool.used == old(pool.used)
    ensures r.Some? ==>
      && Cloned(old(pool.mem), old(pool.used), s, pool.mem, pool.used, d, f)
      && r.value.0.root == Pa(d.root) && r.value.1 == Pa(f) && RegsAt(pool.mem[f]) == WithA0(frame, 0)
    ensures old(pool.liveCount) + FrameCount(s) < POOL_FRAMES ==> r.Some?
  {
    hide Pool.Valid;
    hide Represents;
    hide SafeSpace;
    hide View;
    hide IsCopy;
    hide Pa;
    hide RegsAt;
    hide FrameCount;
    hide UsesKernelSlot;
    ghost var m0, u0 := pool.mem, pool.used;
    KernelSlotFree(m0, s);
    f := 0;
    var copy;
    copy, d := DeepCopy(space, pool, s);
    if copy.None? {
      return None, d, f;
    }
    ghost var m1 := pool.mem;
    var pa := pool.Alloc();
    if pa.None? {
      Destroy(copy.value, pool, d);
      return None, d, f;
    }
    f := FrameAt(pa.value);
    SaveFrame(pool, pa.value, frame, 0, f);
    CloneMade(m0, u0, s, m1, d, f, pool.mem);
    return Some((copy.value, pa.value)), d, f;
  }

  /** The copying half of `enqueue_restore`: space and register frame are both duplicated. */
  method Revive(pool: Pool, space: AddressSpace, saved: nat, ghost s: Space)
    returns (r: Option<(AddressSpace, nat)>, ghost d: Space, ghost f: nat)
    requires pool.Valid() && Represents(pool.mem, s) && SafeSpace(s) && s.role.Keys <= pool.used && space.root == Pa(s.root)
    requires InPool(saved) && (saved - POOL_BASE) % PAGE_SIZE == 0 && FrameAt(saved) in pool.used
    modifies pool
    ensures pool.Valid()
    ensures forall g: nat :: g in old(pool.used) && g < POOL_FRAMES ==> pool.mem[g] == old(pool.mem)[g]
    ensures r.None? ==> pool.used == old(pool.used)
    ensures r.Some? ==>
      && Cloned(old(pool.mem), old(pool.used), s, pool.mem, pool.used, d, f)
      && r.value.0.root == Pa(d.root) && r.value.1 == Pa(f) && pool.mem[f] == old(pool.mem)[FrameAt(saved)]
    ensures old(pool.liveCount) + FrameCount(s) < POOL_FRAMES ==> r.Some?
  {
    hide Pool.Valid;
    hide Represents;
    hide SafeSpace;
    hide View;
    hide IsCopy;
    hide Pa;
    hide FrameCount;
    hide UsesKernelSlot;
    ghost var m0, u0 := pool.mem, pool.used;
    KernelSlotFree(m0, s);
    f := 0;
    var copy;
    copy, d := DeepCopy(space, pool, s);
    if copy.None? {
      return None, d, f;
    }
    ghost var m1 := pool.mem;
    var pa := DuplicateFrame(pool, saved);
    if pa.None? {
      Destroy(copy.value, pool, d);
      return None, d, f;
    }
    f := FrameAt(pa.value);
    CloneMade(m0, u0, s, m1, d, f, pool.mem);
    return Some((copy.value, pa.value)), d, f;
  }
}
