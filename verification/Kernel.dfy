/** The kernel proper (kernel/src/payload.rs, traps.rs): process table and checkpoints over
    the shared frame pool. Every operation is proved to be one step of the machine, and to
    keep every allocated frame accounted for. */
module Kernel {
  import opened Words
  import opened Pte
  import opened FramePool
  import opened Space
  import opened PageTables
  import opened Translate
  import opened Teardown
  import opened Census
  import opened ElfImage
  import opened Machine
  import opened Invariant
  import opened Estate
  import opened TrapFrame
  import opened Launch
  import opened Checkpoint
  import opened Books
  import opened Ledger
  import opened Steps

  class Kernel {
    const images: seq<Image>
    const pool: Pool
    var table: seq<Slot>
    var snaps: seq<SnapSlot>
    var kernelRoot: nat
    var current: Option<nat>
    var lastSnap: nat
    var autoFork: nat
    /** Whether control is in the idle loop. */
    var idle: bool
    /** Who owns what. */
    ghost var estate: Estate

    ghost function Records(): Books
      reads this`table, this`snaps, this`kernelRoot, this`estate
    {
      Books(table, snaps, kernelRoot, estate)
    }

    ghost function Phase(): Phase
      reads this
    {
      if current.Some? then Cpu(current.value) else if idle then Idle else Service
    }

    /** The machine state this kernel state stands for. */
    ghost function Abs(): Sys
      reads this, pool
      requires |pool.mem| == POOL_FRAMES
    {
      Sys(Procs(Records(), pool.mem), Snaps(Records(), pool.mem), lastSnap, autoFork, Phase())
    }

    /** Records, page tables and allocator agree. */
    ghost predicate Sound()
      reads this`table, this`snaps, this`kernelRoot, this`estate, pool
      ensures Sound() ==> |pool.mem| == POOL_FRAMES && |table| == MAX_PROC && |snaps| == MAX_SNAP
    {
      && pool.Valid() && Consistent(Records(), pool.mem, pool.used)
      && 13 <= |images| && forall i: nat :: i < |images| ==> ImageOk(images[i])
    }

    ghost predicate Valid()
      reads this, pool
    {
      Sound() && Inv(images, Abs())
    }

    /** Too few free frames for a copy of what `o` owns, with a register frame. */
    ghost predicate NoRoomFor(o: Owner)
      reads this`estate, pool
    {
      o in estate.spaces && pool.liveCount + FrameCount(estate.spaces[o]) >= POOL_FRAMES
    }

    /** There may be too few frames for the image. */
    ghost predicate MayRunShort(img: Image)
      reads pool
    {
      pool.liveCount + ImageFrames(img) + 2 >= POOL_FRAMES
    }

    /** The image cannot be started: it is at fault itself, or there may be too few frames. */
    ghost predicate NoStart(img: Image)
      reads pool
    {
      BadImage(img) || MayRunShort(img)
    }

    /** The step starts, or tries to start, an image; `LoadsLossy` if one that loses frames. */
    ghost predicate Loads(ev: Event)
      reads this`table
    {
      (ev.Start? || ev.LoadFault?) && ev.pid < |table| && table[ev.pid].info.image < |images|
    }

    ghost predicate LoadsLossy(ev: Event)
      reads this`table
    {
      Loads(ev) && Loses(images[table[ev.pid].info.image].elf, BLANK)
    }

    /** Whether the step lost frames: only by loading an image that loses frames, and then
        always, unless it was refused and the frames may have run short. */
    ghost predicate LossFits(ev: Event, lossy: bool)
      reads this`table, pool
    {
      && (lossy ==> LoadsLossy(ev))
      && (LoadsLossy(ev) && (ev.Start? || !MayRunShort(images[table[ev.pid].info.image])) ==> lossy)
    }

    /** A payload that could not be started, or a fork that could not be made, has a reason. */
    ghost predicate Excused(ev: Event)
      reads this, pool
    {
      && (ev.LoadFault? ==> ev.pid < |table| && table[ev.pid].info.image < |images| && NoStart(images[table[ev.pid].info.image]))
      && (ev == Finish(true) ==> TableFull() || (lastSnap > 0 && NoRoomFor(SnapOwner(lastSnap - 1))))
    }

    ghost predicate TableFull()
      reads this`table
    {
      forall p: nat :: p < |table| ==> table[p].info.state != Empty
    }

    /** `init_paging` on an empty pool: the kernel root is the only frame in use. */
    constructor (imgs: seq<Image>)
      requires 13 <= |imgs| && forall i: nat :: i < |imgs| ==> ImageOk(imgs[i])
      ensures Valid() && Abs() == BootSys() && LostFrames(estate) == {}
      ensures pool.used == {FrameAt(kernelRoot)} && pool.liveCount == 1
      ensures images == imgs && fresh(pool)
    {
      hide Pool.Valid;
      hide Represents;
      hide Consistent;
      hide Procs;
      hide Snaps;
      hide Inv;
      hide LostFrames;
      hide SafeSpace;
      hide Pa;
      images := imgs;
      pool := new Pool();
      current, lastSnap, autoFork, idle := None, 0, 0, true;
      table := seq(MAX_PROC, i => Slot(NO_INFO, 0, 0));
      snaps := seq(MAX_SNAP, i => SnapSlot(false, 0, 0, 0, 0));
      kernelRoot, estate := 0, Estate(map[], map[], map[]);
      new;
      var space;
      ghost var s;
      space, s := NewUserSpace(pool);
      kernelRoot := space.value.root;
      estate := AddSpace(estate, KernelOwner, s);
      KernelOnlySafe(s);
      BootBooksOk(pool.mem, s);
      assert pool.used == s.role.Keys == {s.root};
      PathTables(pool.mem, s, 0);
      FrameAddress(s.root);
      BootInv(images);
    }

    // ---- reaping ----------------------------------------------------------

    /** One slot of `reap_terminated`. */
    method ReapSlot(p: nat)
      requires Sound() && p < MAX_PROC
      modifies this`table, this`estate, pool`bitmap, pool`liveCount, pool`used
      ensures Sound()
      ensures Procs(Records(), pool.mem) == old(Procs(Records(), pool.mem))[p := Reaped(old(Procs(Records(), pool.mem))[p])]
      ensures Snaps(Records(), pool.mem) == old(Snaps(Records(), pool.mem))
      ensures LostFrames(estate) == old(LostFrames(estate))
      ensures pool.liveCount <= old(pool.liveCount)
      ensures forall i: nat :: SnapOwner(i) in old(estate.spaces) <==> SnapOwner(i) in estate.spaces
      ensures forall i: nat :: SnapOwner(i) in estate.spaces ==> estate.spaces[SnapOwner(i)] == old(estate.spaces)[SnapOwner(i)]
    {
      hide Pool.Valid;
      hide Consistent;
      hide Procs;
      hide Snaps;
      hide LostFrames;
      hide Represents;
      hide SafeSpace;
      hide Pa;
      hide FrameCount;
      if table[p].info.state.Terminal() {
        var root := table[p].root;
        SlotFacts(Records(), pool.mem, pool.used, p);
        if root != 0 {
          DropRootOk(Records(), pool.mem, pool.used, p);
          Destroy(AddressSpace(root), pool, estate.spaces[SlotOwner(p)]);
          estate := DropSpace(estate, SlotOwner(p));
          table := table[p := table[p].(root := 0)];
        }
        var rf := table[p].resumeFrame;
        SlotFacts(Records(), pool.mem, pool.used, p);
        if rf != 0 {
          DropFrameOk(Records(), pool.mem, pool.used, p);
          PoolPpn(estate.saved[SlotOwner(p)]);
          pool.Free(rf);
          estate := DropSaved(estate, SlotOwner(p));
          table := table[p := table[p].(resumeFrame := 0)];
        }
      }
    }

    /** `reap_terminated`: every terminal process's frames go back to the pool. */
    method ReapTerminated()
      requires Sound()
      modifies this`table, this`estate, pool`bitmap, pool`liveCount, pool`used
      ensures Sound()
      ensures Procs(Records(), pool.mem) == ReapAll(old(Procs(Records(), pool.mem)))
      ensures Snaps(Records(), pool.mem) == old(Snaps(Records(), pool.mem))
      ensures LostFrames(estate) == old(LostFrames(estate))
      ensures pool.liveCount <= old(pool.liveCount)
      ensures forall i: nat :: SnapOwner(i) in old(estate.spaces) <==> SnapOwner(i) in estate.spaces
      ensures forall i: nat :: SnapOwner(i) in estate.spaces ==> estate.spaces[SnapOwner(i)] == old(estate.spaces)[SnapOwner(i)]
    {
      hide Pool.Valid;
      hide Consistent;
      hide Procs;
      hide Snaps;
      hide LostFrames;
      hide ReapAll;
      hide Reaped;
      ghost var was := Procs(Records(), pool.mem);
      for p := 0 to MAX_PROC
        invariant Sound() && |was| == MAX_PROC && |Procs(Records(), pool.mem)| == MAX_PROC
        invariant forall q: nat :: q < p ==> Procs(Records(), pool.mem)[q] == Reaped(was[q])
        invariant forall q: nat :: p <= q < MAX_PROC ==> Procs(Records(), pool.mem)[q] == was[q]
        invariant Snaps(Records(), pool.mem) == old(Snaps(Records(), pool.mem))
        invariant LostFrames(estate) == old(LostFrames(estate)) && pool.liveCount <= old(pool.liveCount)
        invariant forall i: nat :: SnapOwner(i) in old(estate.spaces) <==> SnapOwner(i) in estate.spaces
        invariant forall i: nat :: SnapOwner(i) in estate.spaces ==> estate.spaces[SnapOwner(i)] == old(estate.spaces)[SnapOwner(i)]
      {
        ReapSlot(p);
      }
      assert Procs(Records(), pool.mem) == ReapAll(was);
    }

    // ---- leaving the CPU --------------------------------------------------

    /** The running payload's record becomes `info`, and control returns to the scheduler
        (`redirect_to_scheduler`, `leave_current`, the head of `run`). */
    method LeaveCpu(info: Info)
      requires Valid() && current.Some? && info.state != Empty
      modifies this`table, this`estate, this`current, this`idle, pool`bitmap, pool`liveCount, pool`used
      ensures Sound() && old(Phase()) == Cpu(old(current.value)) && old(current.value) < MAX_PROC
      ensures Abs() == Left(old(Abs()), old(Abs()).procs[old(current.value)].(info := info))
      ensures LostFrames(estate) == old(LostFrames(estate))
    {
      hide Pool.Valid;
      hide Consistent;
      hide Procs;
      hide Snaps;
      hide LostFrames;
      hide ReapAll;
      hide Inv;
      var pid := current.value;
      RunningSlot(images, Abs());
      SetInfoOk(Records(), pool.mem, pool.used, pid, info);
      table := table[pid := table[pid].(info := info)];
      current, idle := None, false;
      ReapTerminated();
    }

    /** `on_exit` and the redirect that follows; with nobody on the CPU, nothing happens. */
    method OnExit(code: int)
      requires Valid()
      modifies this`table, this`estate, this`current, this`idle, pool`bitmap, pool`liveCount, pool`used
      ensures Valid() && LostFrames(estate) == old(LostFrames(estate))
      ensures if old(current).Some? then Next(images, old(Abs()), Exit(code), Abs()) else Abs() == old(Abs())
    {
      hide Sound;
      hide Procs;
      hide Snaps;
      hide Inv;
      hide LostFrames;
      hide Next;
      hide Left;
      if current.None? {
        return;
      }
      ghost var a := Abs();
      RunningSlot(images, a);
      SoundLength();
      LeaveCpu(table[current.value].info.(state := Exited, exitCode := code));
      LeaveStep(images, a, Exit(code), Abs());
      StepInv(images, a, Exit(code), Abs());
    }

    /** `mark_faulted` after a payload fault, and the redirect. */
    method MarkFaulted()
      requires Valid()
      modifies this`table, this`estate, this`current, this`idle, pool`bitmap, pool`liveCount, pool`used
      ensures Valid() && LostFrames(estate) == old(LostFrames(estate))
      ensures if old(current).Some? then Next(images, old(Abs()), Fault, Abs()) else Abs() == old(Abs())
    {
      hide Sound;
      hide Procs;
      hide Snaps;
      hide Inv;
      hide LostFrames;
      hide Next;
      hide Left;
      if current.None? {
        return;
      }
      ghost var a := Abs();
      RunningSlot(images, a);
      SoundLength();
      LeaveCpu(table[current.value].info.(state := Faulted));
      LeaveStep(images, a, Fault, Abs());
      StepInv(images, a, Fault, Abs());
    }

    /** `on_tick` and the redirect that follows: the running payload is killed exactly when
        it has outlived its budget. That the payload on the CPU is a running one, which the
        source checks here, is part of the invariant. */
    method OnTick(now: nat) returns (killed: bool)
      requires Valid()
      modifies this`table, this`estate, this`current, this`idle, pool`bitmap, pool`liveCount, pool`used
      ensures Valid() && LostFrames(estate) == old(LostFrames(estate))
      ensures killed <==> old(current.Some? && current.value < |table| && var info := table[current.value].info;
                              info.deadline != 0 && now > info.startedAt + info.deadline)
      ensures killed ==> Next(images, old(Abs()), Expire(now), Abs())
      ensures !killed ==> Abs() == old(Abs())
    {
      hide Sound;
      hide Procs;
      hide Snaps;
      hide Inv;
      hide LostFrames;
      hide Next;
      hide Left;
      if current.None? {
        return false;
      }
      ghost var a := Abs();
      RunningSlot(images, a);
      SoundLength();
      var info := table[current.value].info;
      var elapsed := if now >= info.startedAt then now - info.startedAt else 0;
      if info.deadline == 0 || elapsed <= info.deadline {
        return false;
      }
      LeaveCpu(info.(state := Killed));
      LeaveStep(images, a, Expire(now), Abs());
      StepInv(images, a, Expire(now), Abs());
      return true;
    }

    // ---- a payload at work ------------------------------------------------

    /** A U-mode store by the running payload, at any address. Either it faults and nothing
        changes, or it changes one byte of one page of its own. */
    method UserStore(va: Word, b: Byte) returns (done: bool)
      requires Valid() && current.Some?
      modifies pool`mem
      ensures Valid() && SlotOwner(current.value) in estate.spaces
      ensures done <==> Lookup(estate.spaces[SlotOwner(current.value)], va, USER_WRITE).Some?
      ensures done <==> MayStore(old(Abs()), va)
      ensures !done ==> Abs() == old(Abs())
      ensures done ==> Next(images, old(Abs()), Store(PageOf(va), va % PAGE_SIZE, b), Abs())
    {
      hide Pool.Valid;
      hide Consistent;
      hide Procs;
      hide Snaps;
      hide Inv;
      hide Pa;
      hide Represents;
      hide SafeSpace;
      hide View;
      hide Lookup;
      hide PageOf;
      hide FrameByte;
      ghost var a := Abs();
      RunningSlot(images, a);
      SoundLength();
      var pid := current.value;
      SlotFacts(Records(), pool.mem, pool.used, pid);
      ghost var s := estate.spaces[SlotOwner(pid)];
      StoreSeen(Records(), pool.mem, pid, va);
      var pa := TranslateChecked(AddressSpace(table[pid].root), pool, va, USER_WRITE, s);
      if pa.None? {
        return false;
      }
      StoreTarget(pool.mem, s, va);
      ghost var m, f := pool.mem, s.leaves[PageOf(va)].Frame();
      done := pool.PhysWrite(pa.value, [b]);
      ghost var x := PutFrameByte(m[f], va % PAGE_SIZE, b);
      FrameByBytes(pool.mem[f], x);
      assert pool.mem == m[f := x];
      StorePageOk(Records(), m, pool.used, pid, PageOf(va), x);
      StoredPage(Records(), m, pid, PageOf(va));
      StepInv(images, a, Store(PageOf(va), va % PAGE_SIZE, b), Abs());
    }

    /** `enqueue`. */
    method Enqueue(image: nat, caps: Caps, parent: Option<nat>) returns (r: Option<nat>)
      requires Sound() && image < |images|
      modifies this`table
      ensures Sound()
      ensures r == First(old(Procs(Records(), pool.mem)), Empty)
      ensures r.Some? ==> r.value < |table| && var info := table[r.value].info;
        && info.state == Pending && info.image == image && info.caps == caps & images[image].caps && info.parent == parent
        && info.deadline == images[image].deadline && info.startedAt == 0 && info.exitCode == 0 && !info.preempted
      ensures Procs(Records(), pool.mem) == Machine.Enqueue(images, old(Procs(Records(), pool.mem)), image, caps, parent)
      ensures Snaps(Records(), pool.mem) == old(Snaps(Records(), pool.mem))
    {
      hide Pool.Valid;
      hide Consistent;
      hide Procs;
      hide Snaps;
      hide First;
      hide Meet;
      SoundLength();
      ghost var was := Procs(Records(), pool.mem);
      for pid := 0 to MAX_PROC
        invariant table == old(table)
        invariant forall q: nat :: q < pid ==> was[q].info.state != Empty
      {
        if table[pid].info.state == Empty {
          var info := Info(Pending, image, Meet(caps, images[image].caps), parent, 0, 0, images[image].deadline, false);
          CapsAreBits(caps, images[image].caps);
          QueueOk(Records(), pool.mem, pool.used, pid, info);
          table := table[pid := Slot(info, 0, 0)];
          FirstIs(was, Empty, pid);
          return Some(pid);
        }
      }
      return None;
    }

    /** `on_spawn`: the child gets at most what was asked, what the parent holds and what
        its image may hold. */
    method OnSpawn(selector: nat, requested: Caps) returns (r: int)
      requires Valid()
      modifies this`table
      ensures Valid() && (current.Some? ==> current.value < |table|)
      ensures r == -2 <==> current.Some? && old(table)[current.value].info.caps & 4 == 0
      ensures r == -4 <==> r != -2 && (current.None? || selector > 2)
      ensures r == -5 <==> r != -2 && r != -4 && First(old(Abs()).procs, Empty).None?
      ensures r < 0 ==> r in {-2, -4, -5} && Abs() == old(Abs())
      ensures r >= 0 ==> current.Some? && First(old(Abs()).procs, Empty) == Some(r)
      ensures r >= 0 ==> var image := if selector == 0 then 4 else if selector == 1 then 11 else 12;
                         Next(images, old(Abs()), Spawn(image, requested), Abs())
    {
      hide Sound;
      hide Procs;
      hide Snaps;
      hide Inv;
      hide First;
      hide Machine.Enqueue;
      hide Meet;
      hide Next;
      if current.None? {
        return EINVAL;
      }
      ghost var a := Abs();
      RunningSlot(images, a);
      SoundLength();
      var caps := table[current.value].info.caps;
      if caps & CAP_SPAWN == 0 {
        return ENOCAP;
      }
      var selected := SpawnableImage(selector);
      if selected.None? {
        return EINVAL;
      }
      var image := selected.value;
      EnoughImages();
      var granted := Meet(Meet(requested, caps), images[image].caps);
      var pid := Enqueue(image, granted, current);
      if pid.None? {
        NoSlot(images, a.procs, image, granted, current);
        return EAGAIN;
      }
      SpawnStep(images, a, image, requested, Abs());
      StepInv(images, a, Spawn(image, requested), Abs());
      return pid.value;
    }

    /** Back in the idle loop, the frames in use are the kernel root's, the checkpoints', and
        the lost ones. With no checkpoint and no loss, only the kernel root is left, as at
        boot. */
    lemma IdleAccounts()
      requires Valid() && current.None? && idle
      ensures forall f :: f in pool.used <==> f == FrameAt(kernelRoot) || HeldBySnap(estate, f) || f in LostFrames(estate)
      ensures LostFrames(estate) == {} && Abs().snaps == seq(MAX_SNAP, i => None) ==> pool.used == {FrameAt(kernelRoot)} && pool.liveCount == 1
    {
      hide Consistent;
      hide Procs;
      hide Snaps;
      hide Inv;
      hide LostFrames;
      hide HeldBySlot;
      hide HeldBySnap;
      hide FrameAt;
      hide Encodes;
      SoundLength();
      NobodyAtIdle(images, Abs());
      SlotsHold(Records(), pool.mem, pool.used);
      HoldersKnown(Records(), pool.mem, pool.used);
      NoSnapsHeld(Records(), pool.mem, pool.used);
    }

    lemma EnoughImages()
      requires Sound()
      ensures 13 <= |images|
    {
    }

    /** The first free checkpoint slot. */
    method FreeSnap() returns (r: Option<nat>)
      requires Sound()
      ensures r == FirstFree(Snaps(Records(), pool.mem))
    {
      hide Pool.Valid;
      hide Consistent;
      hide Snaps;
      hide FirstFree;
      hide Pa;
      SoundLength();
      for i := 0 to MAX_SNAP
        invariant forall j: nat :: j < i ==> Snaps(Records(), pool.mem)[j].Some?
      {
        SnapSeen(Records(), pool.mem, pool.used, i);
        if !snaps[i].valid {
          FirstFreeIs(Snaps(Records(), pool.mem), i);
          return Some(i);
        }
      }
      return None;
    }

    /** Slot `pid`, which has memory and a register frame, is copied into checkpoint `sid`, or
        nothing changes. */
    method TakeSnap(pid: nat, sid: nat, frame: Regs) returns (ok: bool)
      requires Sound() && pid < MAX_PROC && sid < MAX_SNAP && !snaps[sid].valid && |frame.gpr| == 31
      requires SlotOwner(pid) in estate.spaces && Procs(Records(), pool.mem)[pid].mem.Some?
      modifies this`snaps, this`estate, pool
      ensures Sound() && LostFrames(estate) == old(LostFrames(estate))
      ensures Procs(Records(), pool.mem) == old(Procs(Records(), pool.mem))
      ensures var was := old(Procs(Records(), pool.mem))[pid]; var before := old(Snaps(Records(), pool.mem));
        Snaps(Records(), pool.mem) ==
          if ok then before[sid := Some(Snap(was.mem.value, WithA0(frame, 0), was.info.caps, was.info.image))] else before
      ensures !ok ==> pool.used == old(pool.used) && old(NoRoomFor(SlotOwner(pid)))
    {
      hide Pool.Valid;
      hide Consistent;
      hide Procs;
      hide Snaps;
      hide LostFrames;
      hide Pa;
      hide RegsAt;
      hide Represents;
      hide SafeSpace;
      hide View;
      hide FrameCount;
      SoundLength();
      ghost var b, m, u := Records(), pool.mem, pool.used;
      SlotFacts(b, m, u, pid);
      ghost var d, f;
      var copy;
      copy, d, f := Capture(pool, AddressSpace(table[pid].root), frame, estate.spaces[SlotOwner(pid)]);
      if copy.None? {
        OutsideOk(b, m, u, pool.mem);
        return false;
      }
      AttachSnapOk(b, m, u, pool.mem, sid, table[pid].info.caps, table[pid].info.image, d, f);
      snaps := snaps[sid := SnapSlot(true, copy.value.0.root, copy.value.1, table[pid].info.caps, table[pid].info.image)];
      estate := AddSaved(AddSpace(estate, SnapOwner(sid), d), SnapOwner(sid), f);
      return true;
    }

    /** `on_snapshot`: the checkpoint holds the caller's memory, registers, capabilities and
        image as they are now. A refused checkpoint leaves no trace. */
    method OnSnapshot(frame: Regs) returns (r: int)
      requires Valid() && |frame.gpr| == 31
      modifies this`snaps, this`lastSnap, this`estate, pool
      ensures Valid() && LostFrames(estate) == old(LostFrames(estate))
      ensures r == -4 <==> current.None?
      ensures r == -5 <==> current.Some? && FirstFree(old(Abs()).snaps).None?
      ensures r > 0 || r == -4 || r == -5 || r == -6
      ensures r > 0 ==> Next(images, old(Abs()), Machine.Checkpoint(r - 1, frame), Abs())
      ensures r < 0 ==> Abs() == old(Abs()) && pool.used == old(pool.used)
      ensures r == -6 ==> current.Some? && old(NoRoomFor(SlotOwner(current.value)))
      ensures r == -6 ==> old(SlotOwner(current.value) in estate.spaces && pool.liveCount + FrameCount(estate.spaces[SlotOwner(current.value)]) >= 31744)
    {
      hide Pool.Valid;
      hide Consistent;
      hide Procs;
      hide Snaps;
      hide Inv;
      hide LostFrames;
      hide Pa;
      hide RegsAt;
      hide Represents;
      hide SafeSpace;
      hide View;
      hide FirstFree;
      hide FrameCount;
      hide Next;
      if current.None? {
        return EINVAL;
      }
      ghost var a := Abs();
      RunningSlot(images, a);
      SoundLength();
      var pid := current.value;
      var sid := FreeSnap();
      if sid.None? {
        return EAGAIN;
      }
      SlotFacts(Records(), pool.mem, pool.used, pid);
      SnapSeen(Records(), pool.mem, pool.used, sid.value);
      var ok := TakeSnap(pid, sid.value, frame);
      if !ok {
        return ENOMEM;
      }
      lastSnap := sid.value + 1;
      CheckpointStep(images, a, sid.value, frame, Abs());
      StepInv(images, a, Machine.Checkpoint(sid.value, frame), Abs());
      return sid.value + 1;
    }

    // ---- the service window -----------------------------------------------

    /** `kill_pid`: only a queued or suspended payload can be killed; its frames go back at
        the next reap. The answer is how long ago it was started, 0 if it never was. */
    method KillPid(pid: nat, now: nat) returns (r: Option<nat>)
      requires Valid() && current.None?
      modifies this`table
      ensures Valid()
      ensures r.Some? <==> old(pid < |table| && table[pid].info.state == Pending)
      ensures r.Some? ==> var t := old(table)[pid].info.startedAt; r.value == if t == 0 || now < t then 0 else now - t
      ensures r.Some? ==> Next(images, old(Abs()), Kill(pid), Abs())
      ensures r.None? ==> Abs() == old(Abs())
    {
      hide Pool.Valid;
      hide Consistent;
      hide Procs;
      hide Snaps;
      hide Inv;
      SoundLength();
      if pid >= |table| || table[pid].info.state != Pending {
        return None;
      }
      ghost var a := Abs();
      PendingMeansService(images, a, pid);
      SetInfoOk(Records(), pool.mem, pool.used, pid, table[pid].info.(state := Killed));
      table := table[pid := table[pid].(info := table[pid].info.(state := Killed))];
      StepInv(images, a, Kill(pid), Abs());
      var started := table[pid].info.startedAt;
      return Some(if started == 0 || now < started then 0 else now - started);
    }

    /** `set_deadline`. */
    method SetDeadline(pid: nat, units: nat) returns (ok: bool)
      requires Valid() && current.None?
      modifies this`table
      ensures Valid()
      ensures ok <==> old(pid < |table| && table[pid].info.state == Pending)
      ensures ok ==> Next(images, old(Abs()), Budget(pid, units), Abs())
      ensures !ok ==> Abs() == old(Abs())
    {
      hide Pool.Valid;
      hide Consistent;
      hide Procs;
      hide Snaps;
      hide Inv;
      SoundLength();
      if pid >= |table| || table[pid].info.state != Pending {
        return false;
      }
      ghost var a := Abs();
      PendingMeansService(images, a, pid);
      SetInfoOk(Records(), pool.mem, pool.used, pid, table[pid].info.(deadline := units));
      table := table[pid := table[pid].(info := table[pid].info.(deadline := units))];
      StepInv(images, a, Budget(pid, units), Abs());
      return true;
    }

    /** The slots' half of `clear_table`. Frames a slot still holds are freed by nobody. */
    method ClearTable()
      requires Sound()
      modifies this`table, this`estate
      ensures Sound()
      ensures Procs(Records(), pool.mem) == ClearAll(old(Procs(Records(), pool.mem)))
      ensures Snaps(Records(), pool.mem) == old(Snaps(Records(), pool.mem))
      ensures forall f :: f in LostFrames(estate) <==> f in old(LostFrames(estate)) || HeldBySlot(old(estate), f)
    {
      hide Pool.Valid;
      hide Consistent;
      hide Procs;
      hide Snaps;
      hide LostFrames;
      hide ClearAll;
      hide Cleared;
      hide HeldBy;
      hide Abandon;
      SoundLength();
      ghost var was, e0 := Procs(Records(), pool.mem), estate;
      for p := 0 to MAX_PROC
        invariant Sound() && |was| == MAX_PROC && |Procs(Records(), pool.mem)| == MAX_PROC
        invariant forall q: nat :: q < p ==> Procs(Records(), pool.mem)[q] == Cleared(was[q])
        invariant forall q: nat :: p <= q < MAX_PROC ==> Procs(Records(), pool.mem)[q] == was[q]
        invariant Snaps(Records(), pool.mem) == old(Snaps(Records(), pool.mem))
        invariant forall q: nat, f :: p <= q < MAX_PROC ==> HeldBy(estate, SlotOwner(q), f) == HeldBy(e0, SlotOwner(q), f)
        invariant forall f :: f in LostFrames(estate) <==> f in LostFrames(e0) || exists q: nat :: q < p && HeldBy(e0, SlotOwner(q), f)
      {
        ClearSlotOk(Records(), pool.mem, pool.used, p);
        OthersKeep(estate, SlotOwner(p));
        HeldInUse(Records(), pool.mem, pool.used);
        estate := Abandon(estate, SlotOwner(p));
        table := table[p := table[p].(info := table[p].info.(state := Empty))];
      }
      assert Procs(Records(), pool.mem) == ClearAll(was);
    }

    /** `free_snapshots`. */
    method FreeSnapshots()
      requires Sound()
      modifies this`snaps, this`estate, pool`bitmap, pool`liveCount, pool`used
      ensures Sound()
      ensures Procs(Records(), pool.mem) == old(Procs(Records(), pool.mem))
      ensures Snaps(Records(), pool.mem) == seq(MAX_SNAP, i => None)
      ensures LostFrames(estate) == old(LostFrames(estate))
    {
      hide Pool.Valid;
      hide Consistent;
      hide Procs;
      hide Snaps;
      hide LostFrames;
      hide Represents;
      hide SafeSpace;
      hide Pa;
      hide FrameCount;
      SoundLength();
      for i := 0 to MAX_SNAP
        invariant Sound() && |Snaps(Records(), pool.mem)| == MAX_SNAP
        invariant forall j: nat :: j < i ==> Snaps(Records(), pool.mem)[j].None?
        invariant Procs(Records(), pool.mem) == old(Procs(Records(), pool.mem))
        invariant LostFrames(estate) == old(LostFrames(estate))
      {
        SnapSeen(Records(), pool.mem, pool.used, i);
        if snaps[i].valid {
          SnapFacts(Records(), pool.mem, pool.used, i);
          DropSnapOk(Records(), pool.mem, pool.used, i);
          Destroy(AddressSpace(snaps[i].root), pool, estate.spaces[SnapOwner(i)]);
          PoolPpn(estate.saved[SnapOwner(i)]);
          pool.Free(snaps[i].frame);
          estate := DropSaved(DropSpace(estate, SnapOwner(i)), SnapOwner(i));
          snaps := snaps[i := snaps[i].(valid := false, root := 0, frame := 0)];
        }
      }
      assert Snaps(Records(), pool.mem) == seq(MAX_SNAP, i => None);
    }

    /** A suite is seeded (`seed_suite_*`): from the idle loop, or from the service window
        when the busy guard finds nobody alive. Memory is lost exactly when some slot still
        held memory or a register frame. */
    method SeedSuite(list: seq<nat>, forks: nat)
      requires Valid() && current.None? && (idle || !AnyAlive(Abs().procs))
      requires forall i :: 0 <= i < |list| ==> list[i] < |images|
      modifies this`table, this`snaps, this`estate, this`lastSnap, this`autoFork, this`idle, pool`bitmap, pool`liveCount, pool`used
      ensures Valid() && Next(images, old(Abs()), Seed(list, forks), Abs())
      ensures old(LostFrames(estate)) <= LostFrames(estate)
      ensures LostFrames(estate) == old(LostFrames(estate)) <==> HoldNothing(old(Abs()).procs)
    {
      hide Sound;
      hide Procs;
      hide Snaps;
      hide Inv;
      hide LostFrames;
      hide ClearAll;
      hide EnqueueAll;
      hide HeldBySlot;
      hide HoldNothing;
      hide AnyAlive;
      ghost var a := Abs();
      SoundLength();
      SoundSlots();
      ClearTable();
      FreeSnapshots();
      autoFork, lastSnap, idle := 0, 0, false;
      QueueAll(list);
      autoFork := forks;
      assert Next(images, a, Seed(list, forks), Abs());
      StepInv(images, a, Seed(list, forks), Abs());
    }

    /** `any_alive`. */
    method IsBusy() returns (busy: bool)
      requires Valid()
      ensures busy <==> AnyAlive(Abs().procs)
    {
      hide Sound;
      hide Procs;
      hide Inv;
      SoundLength();
      for pid := 0 to MAX_PROC
        invariant forall q: nat :: q < pid ==> table[q].info.state != Running && table[q].info.state != Pending
      {
        if table[pid].info.state == Running || table[pid].info.state == Pending {
          return true;
        }
      }
      return false;
    }

    lemma ValidLength()
      requires Valid()
      ensures |pool.mem| == POOL_FRAMES
    {
    }

    /** The machine state shows the table and who is on the CPU. */
    lemma ValidParts()
      requires Valid()
      ensures |pool.mem| == POOL_FRAMES && |Abs().procs| == |table| == MAX_PROC && |Abs().snaps| == MAX_SNAP && Inv(images, Abs())
      ensures forall p: nat :: p < MAX_PROC ==> Abs().procs[p].info == table[p].info
      ensures Abs().phase == if current.Some? then Cpu(current.value) else if idle then Idle else Service
    {
      hide Inv;
      hide Sound;
      hide Procs;
      hide Snaps;
      SoundLength();
    }

    /** Each image of a suite is queued with its full ceiling. */
    method QueueAll(list: seq<nat>)
      requires Sound() && forall i :: 0 <= i < |list| ==> list[i] < |images|
      modifies this`table
      ensures Sound()
      ensures Procs(Records(), pool.mem) == EnqueueAll(images, old(Procs(Records(), pool.mem)), list)
      ensures Snaps(Records(), pool.mem) == old(Snaps(Records(), pool.mem))
    {
      hide Sound;
      hide Procs;
      hide Snaps;
      hide Machine.Enqueue;
      ghost var was := Procs(Records(), pool.mem);
      for i := 0 to |list|
        invariant Sound()
        invariant EnqueueAll(images, Procs(Records(), pool.mem), list[i..]) == EnqueueAll(images, was, list)
        invariant Snaps(Records(), pool.mem) == old(Snaps(Records(), pool.mem))
      {
        assert list[i..][1..] == list[i + 1..];
        var pid := Enqueue(list[i], images[list[i]].caps, None);
      }
    }

    lemma SoundSlots()
      requires Sound()
      ensures forall f :: HeldBySlot(estate, f) ==> f !in LostFrames(estate)
      ensures (forall f :: !HeldBySlot(estate, f)) <==> HoldNothing(Procs(Records(), pool.mem))
    {
      hide Pool.Valid;
      hide Consistent;
      hide Procs;
      hide LostFrames;
      hide HeldBySlot;
      hide HoldNothing;
      SlotsHold(Records(), pool.mem, pool.used);
    }

    // ---- preemption -------------------------------------------------------

    /** `maybe_preempt` for a trap from U-mode, and the redirect: if the console has a byte,
        the interrupted registers go into the slot's own frame. `start` has already given
        every running payload such a frame, so none needs to be allocated here. */
    method MaybePreempt(frame: Regs, pending: Option<Byte>) returns (suspended: bool)
      requires Valid() && |frame.gpr| == 31
      modifies this`table, this`estate, this`current, this`idle, pool
      ensures Valid() && LostFrames(estate) == old(LostFrames(estate))
      ensures suspended <==> old(current).Some? && pending.Some?
      ensures if suspended then Next(images, old(Abs()), Preempt(frame), Abs()) else Abs() == old(Abs())
    {
      hide Pool.Valid;
      hide Consistent;
      hide Procs;
      hide Snaps;
      hide Inv;
      hide LostFrames;
      hide Pa;
      hide RegsAt;
      hide Next;
      hide ReapAll;
      if current.None? || pending.None? {
        return false;
      }
      ghost var a := Abs();
      RunningSlot(images, a);
      SoundLength();
      var pid := current.value;
      SlotFacts(Records(), pool.mem, pool.used, pid);
      ghost var f := estate.saved[SlotOwner(pid)];
      ghost var m := pool.mem;
      SaveFrame(pool, table[pid].resumeFrame, frame, frame.gpr[X_A0], f);
      assert frame.gpr[X_A0 := frame.gpr[X_A0]] == frame.gpr;
      SaveRegsOk(Records(), m, pool.used, pid, pool.mem[f]);
      var info := table[pid].info.(state := Pending, preempted := true);
      ghost var b := Records();
      SetInfoOk(b, pool.mem, pool.used, pid, info);
      table := table[pid := table[pid].(info := info)];
      current, idle := None, false;
      ReapTerminated();
      PreemptStep(images, a, frame, Abs());
      StepInv(images, a, Preempt(frame), Abs());
      return true;
    }

    // ---- the scheduler ----------------------------------------------------

    /** `take_next_pending`. */
    method TakeNextPending() returns (r: Option<nat>)
      requires Sound()
      ensures r == First(Procs(Records(), pool.mem), Pending)
    {
      hide Sound;
      hide Procs;
      hide First;
      SoundLength();
      for pid := 0 to MAX_PROC
        invariant forall q: nat :: q < pid ==> Procs(Records(), pool.mem)[q].info.state != Pending
      {
        if table[pid].info.state == Pending {
          FirstIs(Procs(Records(), pool.mem), Pending, pid);
          return Some(pid);
        }
      }
      return None;
    }

    /** `start` for a slot with a saved register frame: a preempted payload keeps its start
        time, a restored one starts now. */
    method StartSaved(pid: nat, now: nat)
      requires Sound() && pid < MAX_PROC && table[pid].info.state == Pending
      modifies this`table, this`current
      ensures Sound() && current == Some(pid)
      ensures var was := old(Procs(Records(), pool.mem)); var info := was[pid].info;
        Procs(Records(), pool.mem) == was[pid := was[pid].(info := info.(state := Running, preempted := false,
                                          startedAt := if info.preempted then info.startedAt else now))]
      ensures Snaps(Records(), pool.mem) == old(Snaps(Records(), pool.mem))
    {
      hide Pool.Valid;
      hide Consistent;
      hide Procs;
      hide Snaps;
      SoundLength();
      var info := table[pid].info.(state := Running, preempted := false);
      if !table[pid].info.preempted {
        info := info.(startedAt := now);
      }
      SetInfoOk(Records(), pool.mem, pool.used, pid, info);
      table := table[pid := table[pid].(info := info)];
      current := Some(pid);
    }

    /** What `start` allocates for a payload that has never run, not yet in any record; `u` are
        the frames that are, lost ones included. */
    method Acquire(img: Image)
      returns (r: Option<(AddressSpace, nat)>, ghost s: Space, ghost f: nat, ghost entry: Word, ghost u: set<nat>, ghost stop: Stop)
      requires Sound() && ImageOk(img)
      modifies this`estate, pool
      ensures pool.Valid() && Consistent(Records(), pool.mem, u) && estate.spaces == old(estate.spaces) && estate.saved == old(estate.saved)
      ensures Procs(Records(), pool.mem) == old(Procs(Records(), pool.mem)) && Snaps(Records(), pool.mem) == old(Snaps(Records(), pool.mem))
      ensures r.None? ==> pool.used == u && old(NoStart(img))
      ensures r.Some? ==>
        && r.value.0.root == Pa(s.root) && r.value.1 == Pa(f) && Represents(pool.mem, s) && SafeSpace(s)
        && f < POOL_FRAMES && f !in s.role && f !in u && s.role.Keys !! u && pool.used == u + s.role.Keys + {f}
        && Boots(img, View(pool.mem, s), entry) && RegsAt(pool.mem[f]) == FreshRegs(entry)
        && !BadImage(img) && stop.AllSegments?
      ensures old(LostFrames(estate)) <= LostFrames(estate)
      ensures LossIs(img, stop, LostFrames(estate) != old(LostFrames(estate)), old(MayRunShort(img)))
    {
      hide Pool.Valid;
      hide Consistent;
      hide Procs;
      hide Snaps;
      hide LostFrames;
      hide Represents;
      hide SafeSpace;
      hide View;
      hide Boots;
      hide RegsAt;
      hide LossIs;
      hide BadImage;
      hide ImageFrames;
      hide Pa;
      hide AddLost;
      ghost var m0, u0, b0 := pool.mem, pool.used, Records();
      LostInUse(b0, m0, u0);
      ghost var lost;
      r, s, f, entry, lost, stop := Prepare(pool, img);
      LoseOk(b0, m0, u0, pool.mem, lost);
      LoseKeeps(estate, lost);
      MoreLost(LostFrames(estate), lost, u0);
      estate := AddLost(estate, lost);
      u := u0 + lost;
    }

    /** `start` for a slot that has never run: address space, register frame, and only then
        the slot. On failure the slot is `Faulted` and everything but lost frames goes back. */
    method StartFresh(pid: nat, img: Image, now: nat) returns (ok: bool, ghost mem: Memory, ghost entry: Word, ghost stop: Stop)
      requires Sound() && pid < MAX_PROC && table[pid].info.state == Pending
      requires table[pid].info.image < |images| && images[table[pid].info.image] == img
      requires table[pid].root == 0 && table[pid].resumeFrame == 0
      modifies this`table, this`estate, this`current, pool
      ensures Sound() && current == if ok then Some(pid) else old(current)
      ensures Snaps(Records(), pool.mem) == old(Snaps(Records(), pool.mem))
      ensures var was := old(Procs(Records(), pool.mem)); var info := was[pid].info;
        Procs(Records(), pool.mem) == was[pid :=
          if ok then Proc(info.(state := Running, startedAt := now), Some(mem), Some(FreshRegs(entry))) else SetState(was[pid], Faulted)]
      ensures if ok then Boots(img, mem, entry) && !BadImage(img) && stop.AllSegments? else old(NoStart(img))
      ensures ok ==> var p := Procs(Records(), pool.mem)[pid];
        && p.regs.Some? && p.regs.value.sepc == entry && p.regs.value.sstatus == 32
        && |p.regs.value.gpr| == 31 && forall k: nat :: k < 31 ==> p.regs.value.gpr[k] == 0
      ensures old(LostFrames(estate)) <= LostFrames(estate)
      ensures LossIs(img, stop, LostFrames(estate) != old(LostFrames(estate)), old(MayRunShort(img)))
    {
      hide Pool.Valid;
      hide Consistent;
      hide Procs;
      hide Snaps;
      hide LostFrames;
      hide Represents;
      hide SafeSpace;
      hide View;
      hide Boots;
      hide RegsAt;
      hide LossIs;
      hide BadImage;
      hide MayRunShort;
      hide NoStart;
      hide Pa;
      hide AddSpace;
      hide AddSaved;
      SoundLength();
      var info := table[pid].info;
      mem := map[];
      SlotFacts(Records(), pool.mem, pool.used, pid);
      ghost var s, f, u;
      var space;
      space, s, f, entry, u, stop := Acquire(img);
      if space.None? {
        SetInfoOk(Records(), pool.mem, pool.used, pid, info.(state := Faulted));
        table := table[pid := table[pid].(info := info.(state := Faulted))];
        return false, mem, entry, stop;
      }
      mem := View(pool.mem, s);
      info := info.(state := Running, startedAt := now);
      AttachOk(Records(), pool.mem, u, pool.mem, pid, info, s, f);
      table := table[pid := Slot(info, space.value.0.root, space.value.1)];
      estate := AddSaved(AddSpace(estate, SlotOwner(pid), s), SlotOwner(pid), f);
      current := Some(pid);
      return true, mem, entry, stop;
    }

    /** `enqueue_restore`: a fork of checkpoint `sid` waits in the first empty slot, with the
        checkpoint's memory and registers and no more than its capabilities. A failed fork
        gives everything back. */
    method EnqueueRestore(sid: nat) returns (r: Option<nat>)
      requires Sound() && sid < MAX_SNAP && (snaps[sid].valid ==> snaps[sid].image < |images|)
      modifies this`table, this`estate, pool
      ensures Sound() && LostFrames(estate) == old(LostFrames(estate))
      ensures Snaps(Records(), pool.mem) == old(Snaps(Records(), pool.mem))
      ensures r.Some? ==> old(Snaps(Records(), pool.mem))[sid].Some? && r == First(old(Procs(Records(), pool.mem)), Empty)
      ensures r.Some? ==>
        var sn := old(Snaps(Records(), pool.mem))[sid].value;
        && sn.image < |images|
        && Procs(Records(), pool.mem) == old(Procs(Records(), pool.mem))[r.value :=
             Proc(Info(Pending, sn.image, Meet(sn.caps, images[sn.image].caps), None, 0, 0, 0, false), Some(sn.mem), Some(sn.regs))]
      ensures r.None? ==> Procs(Records(), pool.mem) == old(Procs(Records(), pool.mem)) && pool.used == old(pool.used)
      ensures r.None? ==> !snaps[sid].valid || First(old(Procs(Records(), pool.mem)), Empty).None? || old(NoRoomFor(SnapOwner(sid)))
    {
      hide Pool.Valid;
      hide Consistent;
      hide Procs;
      hide Snaps;
      hide LostFrames;
      hide Represents;
      hide SafeSpace;
      hide View;
      hide RegsAt;
      hide Pa;
      hide InPool;
      hide FrameAt;
      hide AddSpace;
      hide AddSaved;
      hide First;
      hide Meet;
      hide FrameCount;
      SoundLength();
      if !snaps[sid].valid {
        return None;
      }
      ghost var b, m, u := Records(), pool.mem, pool.used;
      SnapFacts(b, m, u, sid);
      SnapIs(b, m, sid);
      ghost var d, f;
      var copy;
      FrameAddress(estate.saved[SnapOwner(sid)]);
      copy, d, f := Revive(pool, AddressSpace(snaps[sid].root), snaps[sid].frame, estate.spaces[SnapOwner(sid)]);
      if copy.None? {
        OutsideOk(b, m, u, pool.mem);
        return None;
      }
      for pid := 0 to MAX_PROC
        invariant table == old(table) && estate == old(estate)
        invariant pool.Valid() && Cloned(m, u, old(estate.spaces)[SnapOwner(sid)], pool.mem, pool.used, d, f)
        invariant pool.mem[f] == m[old(estate.saved)[SnapOwner(sid)]]
        invariant forall q: nat :: q < pid ==> table[q].info.state != Empty
      {
        if table[pid].info.state == Empty {
          var image := snaps[sid].image;
          var info := Info(Pending, image, Meet(snaps[sid].caps, images[image].caps), None, 0, 0, 0, false);
          SlotFacts(b, m, u, pid);
          AttachOk(b, m, u, pool.mem, pid, info, d, f);
          table := table[pid := Slot(info, copy.value.0.root, copy.value.1)];
          estate := AddSaved(AddSpace(estate, SlotOwner(pid), d), SlotOwner(pid), f);
          FirstIs(Procs(b, m), Empty, pid);
          return Some(pid);
        }
      }
      Destroy(copy.value.0, pool, d);
      FrameAddress(f);
      pool.Free(copy.value.1);
      assert pool.used == u;
      OutsideOk(b, m, u, pool.mem);
      return None;
    }

    /** The first pending payload starts or resumes; `a` is the state before the reap. */
    method RunPending(pid: nat, now: nat, ghost a: Sys) returns (ghost ev: Event)
      requires Sound() && Inv(images, a) && a.phase == Service && current.None? && !idle
      requires Abs() == a.(procs := ReapAll(a.procs)) && First(ReapAll(a.procs), Pending) == Some(pid)
      modifies this`table, this`estate, this`current, pool
      ensures Sound() && Next(images, a, ev, Abs()) && (ev.Start? || ev.LoadFault? || ev.Resume?)
      ensures OnCpuAt(ev, now)
      ensures old(Excused(ev))
      ensures old(LostFrames(estate)) <= LostFrames(estate)
      ensures var lossy := LostFrames(estate) != old(LostFrames(estate)); old(LossFits(ev, lossy))
    {
      hide Sound;
      hide Procs;
      hide Snaps;
      hide LostFrames;
      hide Inv;
      hide Boots;
      hide First;
      hide Loses;
      hide LossAt;
      hide Next;
      hide BadImage;
      hide ImageFrames;
      hide FrameCount;
      hide ReapAll;
      SoundLength();
      PendingFacts(images, a, pid);
      SlotLooks(pid);
      if table[pid].resumeFrame != 0 {
        StartSaved(pid, now);
        ev := Resume(pid, now);
        PendingStep(images, a, ev, Abs());
        return ev;
      }
      var ok;
      ghost var mem, entry, stop;
      ok, mem, entry, stop := StartFresh(pid, images[table[pid].info.image], now);
      ev := if ok then Start(pid, now, mem, entry) else LoadFault(pid);
      PendingStep(images, a, ev, Abs());
    }

    /** `enqueue_restore` and `start` of the fork: it is on the CPU from `now` on. */
    method StartFork(sid: nat, now: nat) returns (r: Option<nat>)
      requires Sound() && sid < MAX_SNAP && snaps[sid].valid && snaps[sid].image < |images|
      modifies this`table, this`estate, this`current, pool
      ensures Sound() && LostFrames(estate) == old(LostFrames(estate))
      ensures Snaps(Records(), pool.mem) == old(Snaps(Records(), pool.mem))
      ensures r.Some? ==> old(Snaps(Records(), pool.mem))[sid].Some? && r == First(old(Procs(Records(), pool.mem)), Empty) && current == r
      ensures r.Some? ==>
        var sn := old(Snaps(Records(), pool.mem))[sid].value;
        && sn.image < |images|
        && Procs(Records(), pool.mem) == old(Procs(Records(), pool.mem))[r.value :=
             Proc(Info(Running, sn.image, Meet(sn.caps, images[sn.image].caps), None, 0, now, 0, false), Some(sn.mem), Some(sn.regs))]
      ensures r.None? ==> Procs(Records(), pool.mem) == old(Procs(Records(), pool.mem)) && current == old(current)
      ensures r.None? ==> old(TableFull() || NoRoomFor(SnapOwner(sid)))
    {
      hide Sound;
      hide Procs;
      hide Snaps;
      hide LostFrames;
      hide First;
      hide Meet;
      hide NoRoomFor;
      SoundLength();
      r := EnqueueRestore(sid);
      if r.Some? {
        SoundLength();
        StartSaved(r.value, now);
      }
    }

    /** Nothing is pending and a fork is owed: fork the last checkpoint, or go idle. */
    method ForkLast(now: nat, ghost a: Sys) returns (ghost ev: Event)
      requires Sound() && Inv(images, a) && a.phase == Service && current.None? && !idle && autoFork > 0 && lastSnap > 0
      requires Abs() == a.(procs := ReapAll(a.procs)) && First(ReapAll(a.procs), Pending) == None
      modifies this`table, this`estate, this`current, this`idle, this`autoFork, pool
      ensures Sound() && Next(images, a, ev, Abs()) && (ev.Restore? || ev.Finish?) && OnCpuAt(ev, now)
      ensures old(Excused(ev))
      ensures LostFrames(estate) == old(LostFrames(estate))
    {
      hide Sound;
      hide Procs;
      hide Snaps;
      hide LostFrames;
      hide Inv;
      hide First;
      hide Meet;
      hide ReapAll;
      hide Next;
      hide NoRoomFor;
      hide NoStart;
      hide TableFull;
      SoundLength();
      autoFork := autoFork - 1;
      ForkFacts(images, a);
      SnapLooks(lastSnap - 1);
      var pid := StartFork(lastSnap - 1, now);
      if pid.None? {
        idle := true;
        FinishStep(images, a, Abs(), true);
        return Finish(true);
      }
      RestoreStep(images, a, Abs(), pid.value, now);
      return Restore(pid.value, lastSnap - 1, now);
    }

    /** Nothing is pending: fork the last checkpoint if forks are owed, or go idle. */
    method ForkOrFinish(now: nat, ghost a: Sys) returns (ghost ev: Event)
      requires Sound() && Inv(images, a) && a.phase == Service && current.None? && !idle
      requires Abs() == a.(procs := ReapAll(a.procs)) && First(ReapAll(a.procs), Pending) == None
      modifies this`table, this`estate, this`current, this`idle, this`autoFork, pool
      ensures Sound() && Next(images, a, ev, Abs()) && (ev.Restore? || ev.Finish?) && OnCpuAt(ev, now)
      ensures old(Excused(ev))
      ensures LostFrames(estate) == old(LostFrames(estate))
    {
      hide Sound;
      hide Procs;
      hide Snaps;
      hide LostFrames;
      hide Inv;
      hide First;
      hide Meet;
      hide ReapAll;
      hide Next;
      hide NoRoomFor;
      hide NoStart;
      hide TableFull;
      SoundLength();
      if autoFork == 0 || lastSnap == 0 {
        idle := true;
        FinishStep(images, a, Abs(), false);
        return Finish(false);
      }
      ev := ForkLast(now, a);
    }

    /** The rest of `run` after the service window: reap, then start or resume the first
        pending payload, or fork the last checkpoint if forks are owed, or go idle. Frames
        are lost only by trying to start an image that loses frames: one that maps a page
        without access, or whose file bytes are not all there. */
    method CloseWindow(now: nat) returns (ghost ev: Event)
      requires Valid() && current.None? && !idle
      modifies this`table, this`estate, this`current, this`idle, this`autoFork, pool
      ensures Valid() && Next(images, old(Abs()), ev, Abs())
      ensures (ev.Start? || ev.LoadFault? || ev.Resume? || ev.Restore? || ev.Finish?) && OnCpuAt(ev, now)
      ensures old(Excused(ev))
      ensures old(LostFrames(estate)) <= LostFrames(estate)
      ensures var lossy := LostFrames(estate) != old(LostFrames(estate)); old(LossFits(ev, lossy))
    {
      hide Sound;
      hide Procs;
      hide Snaps;
      hide LostFrames;
      hide Inv;
      hide Next;
      hide First;
      hide Loses;
      hide LossAt;
      hide ReapAll;
      hide BadImage;
      hide ImageFrames;
      hide FrameCount;
      ghost var a := Abs();
      SoundLength();
      ghost var was := table;
      ReapTerminated();
      SoundLength();
      SameInfos(a.procs, was, table);
      var next := TakeNextPending();
      if next.Some? {
        ev := RunPending(next.value, now, a);
      } else {
        ev := ForkOrFinish(now, a);
      }
      StepInv(images, a, ev, Abs());
    }

    lemma SameInfos(procs: seq<Proc>, was: seq<Slot>, now: seq<Slot>)
      requires |procs| == |was| == |now| && forall p: nat :: p < |was| ==> procs[p].info == was[p].info
      requires forall p: nat :: p < |now| ==> ReapAll(procs)[p].info == now[p].info
      ensures forall p: nat :: p < |now| ==> now[p].info == was[p].info
    {
      hide ReapAll;
      forall p: nat | p < |now| ensures now[p].info == was[p].info {
        ReapedInfo(procs, p);
      }
    }

    lemma SlotLooks(p: nat)
      requires Sound() && p < MAX_PROC && table[p].info.state != Empty
      ensures table[p].root != 0 <==> Procs(Records(), pool.mem)[p].mem.Some?
      ensures table[p].resumeFrame != 0 <==> Procs(Records(), pool.mem)[p].regs.Some?
    {
      hide Pool.Valid;
      hide Consistent;
      hide Procs;
      hide View;
      hide Represents;
      SlotFacts(Records(), pool.mem, pool.used, p);
    }

    lemma SnapLooks(i: nat)
      requires Sound() && i < MAX_SNAP
      ensures snaps[i].valid <==> Snaps(Records(), pool.mem)[i].Some?
      ensures snaps[i].valid ==> Snaps(Records(), pool.mem)[i].value.image == snaps[i].image
    {
      hide Pool.Valid;
      hide Consistent;
      hide Snaps;
      hide View;
      hide Represents;
      SnapFacts(Records(), pool.mem, pool.used, i);
    }

    lemma SoundLength()
      requires Sound()
      ensures |pool.mem| == POOL_FRAMES && |table| == MAX_PROC && |snaps| == MAX_SNAP
      ensures forall p: nat :: p < MAX_PROC ==> Abs().procs[p].info == table[p].info
    {
    }
  }
}
