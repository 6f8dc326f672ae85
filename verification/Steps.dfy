/** Facts the kernel's methods rest on: what the records say about one slot, who holds which
    frames, and when a change of records is a step of the machine. */
module Steps {
  import opened Pte
  import opened FramePool
  import opened Space
  import opened PageTables
  import opened Translate
  import opened Machine
  import opened Invariant
  import opened Estate
  import opened Books
  import opened Ledger

  const ENOCAP: int := -2
  const EINVAL: int := -4
  const EAGAIN: int := -5
  const ENOMEM: int := -6

  /** A store that translates lands in a data frame the payload owns. */
  lemma StoreTarget(m: seq<Frame>, s: Space, va: nat)
    requires Represents(m, s) && SafeSpace(s) && Lookup(s, va, USER_WRITE).Some?
    ensures var v := PageOf(va); var pa := Lookup(s, va, USER_WRITE).value;
      && v in s.leaves && s.leaves[v].User() && s.leaves[v].Owned() && s.leaves[v].perms.w
      && InPool(pa) && FrameAt(pa) == s.leaves[v].Frame() && (pa - POOL_BASE) % PAGE_SIZE == va % PAGE_SIZE
  {
    hide Represents;
    hide PageOf;
    var v := PageOf(va);
    PoolPage(s.leaves[v].ppn, va % PAGE_SIZE);
  }

  /** A payload's store goes through exactly where its memory has a writable page. */
  lemma StoreSeen(b: Books, m: seq<Frame>, p: nat, va: nat)
    requires |m| == POOL_FRAMES && p < |b.table| && SlotOwner(p) in b.estate.spaces && Represents(m, b.estate.spaces[SlotOwner(p)])
    ensures Procs(b, m)[p].mem.Some?
    ensures var mem, v := Procs(b, m)[p].mem.value, va / 4096 % 0x800_0000;
      Lookup(b.estate.spaces[SlotOwner(p)], va, USER_WRITE).Some? <==> v in mem && mem[v].perms.w
  {
    hide Represents;
    hide Lookup;
    UserWriteExact(m, b.estate.spaces[SlotOwner(p)], va);
  }

  lemma StoredPage(b: Books, m: seq<Frame>, p: nat, v: nat)
    requires |m| == POOL_FRAMES && p < |b.table| && SlotOwner(p) in b.estate.spaces
    requires var s := b.estate.spaces[SlotOwner(p)]; v in s.leaves && s.leaves[v].User() && s.leaves[v].Owned()
    ensures var s := b.estate.spaces[SlotOwner(p)]; var a := Procs(b, m)[p];
      a.mem.Some? && v in a.mem.value && a.mem.value[v] == Own(s.leaves[v].perms.(g := false), m[s.leaves[v].Frame()])
  {
  }

  lemma {:induction false} FirstIs(procs: seq<Proc>, st: State, p: nat)
    requires p < |procs| && procs[p].info.state == st && forall q: nat :: q < p ==> procs[q].info.state != st
    ensures First(procs, st) == Some(p)
  {
    hide First;
  }

  /** A checkpoint is there exactly when its slot is valid. */
  lemma SnapSeen(b: Books, m: seq<Frame>, u: set<nat>, i: nat)
    requires Consistent(b, m, u) && i < MAX_SNAP
    ensures |m| == POOL_FRAMES && |b.snaps| == MAX_SNAP && (Snaps(b, m)[i].Some? <==> b.snaps[i].valid)
  {
    hide View;
    hide Represents;
    hide SafeSpace;
    hide Pa;
  }

  lemma FrameAddress(f: nat)
    requires f < POOL_FRAMES
    ensures InPool(Pa(f)) && (Pa(f) - POOL_BASE) % PAGE_SIZE == 0 && FrameAt(Pa(f)) == f
  {
  }

  lemma SnapIs(b: Books, m: seq<Frame>, i: nat)
    requires |m| == POOL_FRAMES && i < |b.snaps| && SnapOwner(i) in b.estate.spaces && SnapOwner(i) in b.estate.saved
    requires b.estate.saved[SnapOwner(i)] < POOL_FRAMES
    ensures Snaps(b, m)[i] == Some(Snap(View(m, b.estate.spaces[SnapOwner(i)]), RegsAt(m[b.estate.saved[SnapOwner(i)]]),
                                        b.snaps[i].caps, b.snaps[i].image))
  {
    hide View;
    hide RegsAt;
  }

  lemma FirstFreeIs(snaps: seq<Option<Snap>>, i: nat)
    requires i < |snaps| && snaps[i].None? && forall j: nat :: j < i ==> snaps[j].Some?
    ensures FirstFree(snaps) == Some(i)
  {
    hide FirstFree;
  }

  /** `spawnable_image`. */
  function SpawnableImage(selector: nat): (r: Option<nat>)
    ensures r.Some? <==> selector <= 2
    ensures r.Some? ==> r.value == (if selector == 0 then 4 else if selector == 1 then 11 else 12) && r.value in SPAWNABLE
  {
    match selector
    case 0 => Some(4)
    case 1 => Some(11)
    case 2 => Some(12)
    case _ => None
  }

  lemma CheckpointStep(imgs: seq<Image>, a: Sys, sid: nat, regs: Regs, b: Sys)
    requires Inv(imgs, a) && a.phase.Cpu? && a.phase.pid < |a.procs| && FirstFree(a.snaps) == Some(sid) && |regs.gpr| == 31
    requires var p := a.procs[a.phase.pid];
      && p.mem.Some?
      && b == a.(snaps := a.snaps[sid := Some(Snap(p.mem.value, WithA0(regs, 0), p.info.caps, p.info.image))], lastSnap := sid + 1)
    ensures Next(imgs, a, Machine.Checkpoint(sid, regs), b)
  {
    hide FirstFree;
  }

  /** A running process leaves the CPU for good. */
  lemma LeaveStep(imgs: seq<Image>, a: Sys, ev: Event, b: Sys)
    requires Inv(imgs, a) && a.phase.Cpu? && a.phase.pid < |a.procs| && (ev.Exit? || ev.Fault? || ev.Expire?)
    requires var p := a.procs[a.phase.pid];
      && (ev.Exit? ==> b == Left(a, p.(info := p.info.(state := Exited, exitCode := ev.code))))
      && (ev.Fault? ==> b == Left(a, p.(info := p.info.(state := Faulted))))
      && (ev.Expire? ==> Overdue(p.info, ev.now) && b == Left(a, p.(info := p.info.(state := Killed))))
    ensures Next(imgs, a, ev, b)
  {
    hide Left;
  }

  /** A running process leaves the CPU, suspended. */
  lemma PreemptStep(imgs: seq<Image>, a: Sys, regs: Regs, b: Sys)
    requires Inv(imgs, a) && a.phase.Cpu? && a.phase.pid < |a.procs| && |regs.gpr| == 31
    requires var p := a.procs[a.phase.pid];
      b == Left(a, p.(info := p.info.(state := Pending, preempted := true), regs := Some(regs)))
    ensures Next(imgs, a, Preempt(regs), b)
  {
    hide ReapAll;
  }

  lemma SpawnStep(imgs: seq<Image>, a: Sys, image: nat, requested: Caps, b: Sys)
    requires Inv(imgs, a) && a.phase.Cpu? && a.phase.pid < |a.procs| && image < |imgs| && image in SPAWNABLE
    requires a.procs[a.phase.pid].info.caps & CAP_SPAWN != 0 && First(a.procs, Empty).Some?
    requires var caps := a.procs[a.phase.pid].info.caps;
      b == a.(procs := Enqueue(imgs, a.procs, image, Meet(Meet(requested, caps), imgs[image].caps), Some(a.phase.pid)))
    ensures Next(imgs, a, Spawn(image, requested), b)
  {
    hide First;
    hide Enqueue;
    hide Meet;
  }

  lemma NoSlot(imgs: seq<Image>, procs: seq<Proc>, image: nat, caps: Caps, parent: Option<nat>)
    requires image < |imgs| && First(procs, Empty).None?
    ensures Machine.Enqueue(imgs, procs, image, caps, parent) == procs
  {
    hide First;
  }

  /** Some process slot holds the frame. */
  ghost predicate HeldBySlot(e: Estate, f: nat) {
    exists q: nat :: q < MAX_PROC && HeldBy(e, SlotOwner(q), f)
  }

  /** Some checkpoint holds the frame. */
  ghost predicate HeldBySnap(e: Estate, f: nat) {
    exists i: nat :: i < MAX_SNAP && HeldBy(e, SnapOwner(i), f)
  }

  lemma NobodyAtIdle(imgs: seq<Image>, a: Sys)
    requires Inv(imgs, a) && a.phase == Idle
    ensures HoldNothing(a.procs)
  {
    forall p: nat | p < |a.procs| ensures a.procs[p].mem.None? && a.procs[p].regs.None? {
      assert ProcOk(imgs, a.procs[p]);
    }
  }

  /** Every frame in use is the kernel's, a slot's, a checkpoint's, or lost. */
  lemma HoldersKnown(b: Books, m: seq<Frame>, u: set<nat>)
    requires Consistent(b, m, u)
    ensures forall f :: f in u <==> f == FrameAt(b.kernelRoot) || HeldBySlot(b.estate, f) || HeldBySnap(b.estate, f) || f in LostFrames(b.estate)
  {
    hide Held;
    hide HeldBySlot;
    hide HeldBySnap;
    var e := b.estate;
    HeldLength(e, m, u);
    SpaceHeld(e, m, u, KernelOwner);
    PathTables(m, e.spaces[KernelOwner], 0);
    FrameAddress(e.spaces[KernelOwner].root);
    HeldInUse(b, m, u);
    forall f | f in u ensures f == FrameAt(b.kernelRoot) || HeldBySlot(e, f) || HeldBySnap(e, f) || f in LostFrames(e) {
      HolderKnown(e, m, u, f);
      HolderKind(e, f);
    }
    forall f | HeldBySlot(e, f) || HeldBySnap(e, f) ensures f in u {
      HolderIn(e, f);
    }
  }

  lemma HolderIn(e: Estate, f: nat)
    requires HeldBySlot(e, f) || HeldBySnap(e, f)
    ensures f in e.holder
  {
  }

  lemma HolderKind(e: Estate, f: nat)
    requires f in e.holder && HolderOk(e, f)
    requires forall o :: o in e.spaces ==> KnownOwner(o)
    requires forall o :: o in e.saved ==> KnownOwner(o) && o != KernelOwner
    ensures e.holder[f] == InSpace(KernelOwner) || HeldBySlot(e, f) || HeldBySnap(e, f) || f in LostFrames(e)
  {
    if !e.holder[f].Lost? {
      assert HeldBy(e, e.holder[f].o, f);
    }
  }

  lemma NoSnapsHeld(b: Books, m: seq<Frame>, u: set<nat>)
    requires Consistent(b, m, u)
    ensures |m| == POOL_FRAMES && |b.snaps| == MAX_SNAP
    ensures (forall i: nat :: i < MAX_SNAP ==> Snaps(b, m)[i].None?) ==> forall f :: !HeldBySnap(b.estate, f)
  {
    hide Held;
    hide Snaps;
    HeldLength(b.estate, m, u);
    if forall i: nat :: i < MAX_SNAP ==> Snaps(b, m)[i].None? {
      forall i: nat, f | i < MAX_SNAP ensures !HeldBy(b.estate, SnapOwner(i), f) {
        SnapSeen(b, m, u, i);
        OwnerHolds(b.estate, m, u, SnapOwner(i));
      }
    }
  }

  lemma LostInUse(b: Books, m: seq<Frame>, u: set<nat>)
    requires Consistent(b, m, u)
    ensures LostFrames(b.estate) <= u
  {
    hide Represents;
    hide SafeSpace;
  }

  lemma MoreLost(before: set<nat>, lost: set<nat>, u: set<nat>)
    requires before <= u && lost !! u
    ensures before + lost != before <==> lost != {}
  {
    if lost != {} {
      var f :| f in lost;
      assert f in before + lost;
    }
  }

  lemma LoseKeeps(e: Estate, lost: set<nat>)
    ensures AddLost(e, lost).spaces == e.spaces && AddLost(e, lost).saved == e.saved
  {
  }

  lemma OthersKeep(e: Estate, o: Owner)
    ensures forall o', f :: o' != o ==> HeldBy(Abandon(e, o), o', f) == HeldBy(e, o', f)
  {
  }

  lemma HeldInUse(b: Books, m: seq<Frame>, u: set<nat>)
    requires Consistent(b, m, u)
    ensures forall o, f :: HeldBy(b.estate, o, f) ==> f in u
  {
    hide Represents;
    hide SafeSpace;
  }

  /** What a slot holds is not lost, and slots hold nothing exactly when no process has
      memory or saved registers. */
  lemma SlotsHold(b: Books, m: seq<Frame>, u: set<nat>)
    requires Consistent(b, m, u)
    ensures |m| == POOL_FRAMES
    ensures forall f :: HeldBySlot(b.estate, f) ==> f !in LostFrames(b.estate)
    ensures (forall f :: !HeldBySlot(b.estate, f)) <==> HoldNothing(Procs(b, m))
  {
    hide Held;
    hide Procs;
    HeldLength(b.estate, m, u);
    forall p: nat | p < MAX_PROC
      ensures (forall f :: !HeldBy(b.estate, SlotOwner(p), f)) <==> Procs(b, m)[p].mem.None? && Procs(b, m)[p].regs.None?
    {
      HoldsFrames(b, m, u, p);
    }
    if forall f :: !HeldBySlot(b.estate, f) {
      forall p: nat | p < MAX_PROC ensures Procs(b, m)[p].mem.None? && Procs(b, m)[p].regs.None? {
        forall f ensures !HeldBy(b.estate, SlotOwner(p), f) {
          assert !HeldBySlot(b.estate, f);
        }
      }
    }
  }

  lemma PendingMeansService(imgs: seq<Image>, a: Sys, p: nat)
    requires Inv(imgs, a) && !a.phase.Cpu? && p < |a.procs| && a.procs[p].info.state == Pending
    ensures a.phase == Service && |a.procs| == MAX_PROC && |a.snaps| == MAX_SNAP
  {
  }

  /** The payload about to run: it has both memory and registers, or neither. */
  lemma PendingFacts(imgs: seq<Image>, a: Sys, p: nat)
    requires Inv(imgs, a) && p < MAX_PROC && ReapAll(a.procs)[p].info.state == Pending
    ensures ReapAll(a.procs)[p].info.image < |imgs| && (ReapAll(a.procs)[p].mem.Some? <==> ReapAll(a.procs)[p].regs.Some?)
  {
    hide ReapAll;
    ReapedInfo(a.procs, p);
    assert ProcOk(imgs, a.procs[p]);
  }

  /** The first pending payload starts, fails to start, or resumes. */
  lemma PendingStep(imgs: seq<Image>, a: Sys, ev: Event, b: Sys)
    requires Inv(imgs, a) && a.phase == Service && (ev.Start? || ev.LoadFault? || ev.Resume?)
    requires First(ReapAll(a.procs), Pending) == Some(ev.pid) && ev.pid < |ReapAll(a.procs)|
    requires ev.Resume? <==> ReapAll(a.procs)[ev.pid].regs.Some?
    requires ev.Start? ==> ReapAll(a.procs)[ev.pid].info.image < |imgs| && Boots(imgs[ReapAll(a.procs)[ev.pid].info.image], ev.mem, ev.entry)
    requires var r := ReapAll(a.procs); var p := r[ev.pid];
      match ev
      case Start(_, now, mem, entry) =>
        b == a.(procs := r[ev.pid := Proc(p.info.(state := Running, startedAt := now), Some(mem), Some(FreshRegs(entry)))], phase := Cpu(ev.pid))
      case Resume(_, now) =>
        b == a.(procs := r[ev.pid := p.(info := p.info.(state := Running, preempted := false,
                           startedAt := if p.info.preempted then p.info.startedAt else now))], phase := Cpu(ev.pid))
      case _ => b == a.(procs := r[ev.pid := SetState(p, Faulted)])
    ensures Next(imgs, a, ev, b)
  {
    hide First;
    hide ReapAll;
    hide Boots;
  }

  lemma FinishStep(imgs: seq<Image>, a: Sys, b: Sys, forkFailed: bool)
    requires Inv(imgs, a) && a.phase == Service && First(ReapAll(a.procs), Pending) == None
    requires forkFailed <==> 0 < a.autoFork && 0 < a.lastSnap
    requires b == a.(procs := ReapAll(a.procs), phase := Idle, autoFork := if forkFailed then a.autoFork - 1 else a.autoFork)
    ensures Next(imgs, a, Finish(forkFailed), b)
  {
    hide First;
    hide ReapAll;
  }

  /** A fork of the last checkpoint that has just been put on the CPU. */
  lemma RestoreStep(imgs: seq<Image>, a: Sys, b: Sys, p: nat, now: nat)
    requires Inv(imgs, a) && a.phase == Service && First(ReapAll(a.procs), Pending) == None && 0 < a.autoFork
    requires 0 < a.lastSnap <= |a.snaps| && a.snaps[a.lastSnap - 1].Some? && a.snaps[a.lastSnap - 1].value.image < |imgs|
    requires First(ReapAll(a.procs), Empty) == Some(p) && |b.procs| == |a.procs|
    requires var sn := a.snaps[a.lastSnap - 1].value;
      b == a.(procs := ReapAll(a.procs)[p := Proc(Info(Running, sn.image, Meet(sn.caps, imgs[sn.image].caps), None, 0, now, 0, false),
                                                  Some(sn.mem), Some(sn.regs))], autoFork := a.autoFork - 1, phase := Cpu(p))
    ensures Next(imgs, a, Restore(p, a.lastSnap - 1, now), b)
  {
    hide First;
    hide ReapAll;
    hide Meet;
  }

  lemma ForkFacts(imgs: seq<Image>, a: Sys)
    requires Inv(imgs, a) && 0 < a.lastSnap
    ensures a.lastSnap <= MAX_SNAP == |a.snaps| && a.snaps[a.lastSnap - 1].Some? && a.snaps[a.lastSnap - 1].value.image < |imgs|
  {
    assert SnapOk(imgs, a.snaps[a.lastSnap - 1]);
  }

  /** The process on the CPU is a running one. */
  lemma RunningSlot(imgs: seq<Image>, a: Sys)
    requires Inv(imgs, a) && a.phase.Cpu?
    ensures |a.procs| == MAX_PROC && |a.snaps| == MAX_SNAP && a.phase.pid < MAX_PROC
    ensures a.procs[a.phase.pid].info.state == Running
    ensures a.procs[a.phase.pid].mem.Some? && a.procs[a.phase.pid].regs.Some?
  {
    assert ProcOk(imgs, a.procs[a.phase.pid]);
  }
}
