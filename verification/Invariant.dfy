/** What every step of the machine keeps. */
module Invariant {
  import opened Words
  import opened FramePool
  import opened Machine

  /** On the CPU, or suspended in the middle of a run. */
  predicate Active(p: Proc) {
    p.info.state == Running || (p.info.state == Pending && p.info.preempted)
  }

  /** One process by itself. */
  ghost predicate ProcOk(imgs: seq<Image>, p: Proc) {
    && (p.info.state == Empty ==> p.mem.None? && p.regs.None?)
    && (p.info.state != Empty ==> p.info.image < |imgs| && Within(p.info.caps, imgs[p.info.image].caps))
    && (p.info.state == Pending && !p.info.preempted ==> p.mem.None? && p.regs.None?)
    && (Active(p) ==> p.mem.Some? && p.regs.Some?)
    && (p.info.state == Running ==> !p.info.preempted)
    && (p.mem.Some? ==> SafeMemory(p.mem.value))
  }

  /** A child came after its parent and holds no capability the parent lacks. */
  predicate ParentOk(procs: seq<Proc>, p: nat)
    requires p < |procs|
  {
    procs[p].info.state != Empty && procs[p].info.parent.Some? ==>
      var q := procs[p].info.parent.value;
      q < p && procs[q].info.state != Empty && Within(procs[p].info.caps, procs[q].info.caps)
  }

  ghost predicate SnapOk(imgs: seq<Image>, s: Option<Snap>) {
    s.Some? ==> s.value.image < |imgs| && Within(s.value.caps, imgs[s.value.image].caps) && SafeMemory(s.value.mem)
  }

  /** Occupied slots form a prefix, and everything before an active process has ended. */
  predicate Ordered(procs: seq<Proc>) {
    && (forall p: nat, q: nat :: p < q < |procs| && procs[q].info.state != Empty ==> procs[p].info.state != Empty)
    && (forall p: nat, q: nat :: p < q < |procs| && Active(procs[q]) ==> procs[p].info.state.Terminal())
  }

  /** Who may run, and who may still hold frames, by phase. */
  predicate PhaseOk(a: Sys) {
    && (forall p: nat :: p < |a.procs| ==> (a.procs[p].info.state == Running <==> a.phase == Cpu(p)))
    && (a.phase.Cpu? ==> a.phase.pid < |a.procs|)
    && (a.phase == Idle ==> forall p: nat :: p < |a.procs| ==> a.procs[p].info.state != Pending)
    && (forall p: nat :: p < |a.procs| && a.procs[p].info.state.Terminal() && a.phase != Service ==>
          a.procs[p].mem.None? && a.procs[p].regs.None?)
    && (forall p: nat :: p < |a.procs| && a.procs[p].info.state.Terminal() && a.procs[p].info.state != Killed ==>
          a.procs[p].mem.None? && a.procs[p].regs.None?)
  }

  ghost predicate TableOk(imgs: seq<Image>, procs: seq<Proc>) {
    && (forall p: nat :: p < |procs| ==> ProcOk(imgs, procs[p]) && ParentOk(procs, p))
    && Ordered(procs)
  }

  ghost predicate SnapsOk(imgs: seq<Image>, a: Sys) {
    && |a.snaps| == MAX_SNAP
    && (forall i: nat :: i < MAX_SNAP ==> SnapOk(imgs, a.snaps[i]))
    && a.lastSnap <= MAX_SNAP && (a.lastSnap > 0 ==> a.snaps[a.lastSnap - 1].Some?)
  }

  ghost predicate Inv(imgs: seq<Image>, a: Sys) {
    |a.procs| == MAX_PROC && TableOk(imgs, a.procs) && SnapsOk(imgs, a) && PhaseOk(a)
  }

  /** Changing one process without touching its identity keeps the table in order. */
  lemma ReplaceOk(imgs: seq<Image>, procs: seq<Proc>, p: nat, x: Proc)
    requires TableOk(imgs, procs) && p < |procs| && ProcOk(imgs, x)
    requires procs[p].info.state != Empty && x.info.state != Empty
    requires x.info.caps == procs[p].info.caps && x.info.parent == procs[p].info.parent
    requires Active(x) ==> Active(procs[p]) || forall q: nat :: q < p ==> procs[q].info.state.Terminal()
    requires !x.info.state.Terminal() ==> !procs[p].info.state.Terminal()
    ensures TableOk(imgs, procs[p := x])
  {
    hide ProcOk;
    var r := procs[p := x];
    forall q: nat | q < |r| ensures ParentOk(r, q) {
      assert ParentOk(procs, q);
    }
  }

  lemma ReapOk(imgs: seq<Image>, procs: seq<Proc>)
    requires TableOk(imgs, procs)
    ensures TableOk(imgs, ReapAll(procs))
  {
    hide ReapAll;
    var r := ReapAll(procs);
    forall q: nat | q < |r| ensures ProcOk(imgs, r[q]) && ParentOk(r, q) {
      assert ProcOk(imgs, procs[q]) && ParentOk(procs, q) && r[q] == Reaped(procs[q]);
    }
  }

  lemma MaskWithin(a: Caps, b: Caps)
    ensures Within(Meet(a, b), b) && Within(Meet(a, b), a)
  {
  }

  lemma MaskThree(a: Caps, b: Caps, c: Caps)
    ensures Within(Meet(Meet(Meet(a, b), c), c), b)
  {
  }

  lemma EnqueueOk(imgs: seq<Image>, procs: seq<Proc>, image: nat, caps: Caps, parent: Option<nat>)
    requires TableOk(imgs, procs) && image < |imgs|
    requires parent.Some? ==> parent.value < |procs| && procs[parent.value].info.state != Empty
                              && Within(Meet(caps, imgs[image].caps), procs[parent.value].info.caps)
    ensures TableOk(imgs, Enqueue(imgs, procs, image, caps, parent))
    ensures forall p: nat :: p < |procs| && procs[p].info.state != Empty ==> Enqueue(imgs, procs, image, caps, parent)[p] == procs[p]
  {
    hide First;
    MaskWithin(caps, imgs[image].caps);
    var e := First(procs, Empty);
    if e.Some? {
      var r := Enqueue(imgs, procs, image, caps, parent);
      forall q: nat | q < |r| ensures ProcOk(imgs, r[q]) && ParentOk(r, q) {
        assert ProcOk(imgs, procs[q]) && ParentOk(procs, q);
      }
    }
  }

  // ---- each step keeps it --------------------------------------------------

  /** A table nobody has run on yet. */
  predicate Untouched(procs: seq<Proc>) {
    forall p: nat :: p < |procs| ==>
      (procs[p].info.state == Empty || (procs[p].info.state == Pending && !procs[p].info.preempted))
      && procs[p].mem.None? && procs[p].regs.None?
  }

  lemma {:induction false} EnqueueAllOk(imgs: seq<Image>, procs: seq<Proc>, list: seq<nat>)
    requires TableOk(imgs, procs) && Untouched(procs) && forall i :: 0 <= i < |list| ==> list[i] < |imgs|
    ensures TableOk(imgs, EnqueueAll(imgs, procs, list)) && Untouched(EnqueueAll(imgs, procs, list))
    decreases |list|
  {
    hide TableOk;
    if list != [] {
      EnqueueOk(imgs, procs, list[0], imgs[list[0]].caps, None);
      EnqueueAllOk(imgs, Enqueue(imgs, procs, list[0], imgs[list[0]].caps, None), list[1..]);
    }
  }

  lemma SeedInv(imgs: seq<Image>, a: Sys, ev: Event, b: Sys)
    requires ev.Seed? && Next(imgs, a, ev, b)
    ensures Inv(imgs, b) && Untouched(b.procs)
  {
    var none := ClearAll(a.procs);
    hide ClearAll;
    assert TableOk(imgs, none) && Untouched(none);
    hide EnqueueAll;
    EnqueueAllOk(imgs, none, ev.list);
  }

  /** The process the scheduler picks: everything before it has ended, nothing after it is active. */
  lemma PickedFirst(imgs: seq<Image>, a: Sys, p: nat)
    requires Inv(imgs, a) && a.phase == Service && First(ReapAll(a.procs), Pending) == Some(p)
    ensures p < MAX_PROC && a.procs[p].info.state == Pending && ReapAll(a.procs)[p] == a.procs[p]
    ensures forall q: nat :: q < p ==> a.procs[q].info.state.Terminal()
    ensures forall q: nat :: p < q < MAX_PROC ==> !Active(a.procs[q])
  {
    hide First;
    hide ProcOk;
    hide ParentOk;
    var r := ReapAll(a.procs);
    assert r[p] == Reaped(a.procs[p]);
    forall q: nat | q < p ensures a.procs[q].info.state.Terminal() {
      assert r[q] == Reaped(a.procs[q]) && r[q].info.state != Pending;
    }
  }

  lemma KillInv(imgs: seq<Image>, a: Sys, ev: Event, b: Sys)
    requires (ev.Kill? || ev.Budget?) && Next(imgs, a, ev, b) && Inv(imgs, a)
    ensures Inv(imgs, b)
  {
    hide First;
    hide Boots;
    assert ProcOk(imgs, a.procs[ev.pid]);
    hide SafeMemory;
    assert ProcOk(imgs, b.procs[ev.pid]);
    hide ProcOk;
    ReplaceOk(imgs, a.procs, ev.pid, b.procs[ev.pid]);
  }

  lemma StartInv(imgs: seq<Image>, a: Sys, ev: Event, b: Sys)
    requires (ev.Start? || ev.LoadFault? || ev.Resume?) && Next(imgs, a, ev, b) && Inv(imgs, a)
    ensures Inv(imgs, b)
  {
    hide First;
    hide Boots;
    hide ReapAll;
    hide TableOk;
    hide ProcOk;
    hide SafeMemory;
    hide SnapsOk;
    hide PhaseOk;
    PickedFirst(imgs, a, ev.pid);
    if ev.Start? {
      BootsSafe(imgs[a.procs[ev.pid].info.image], ev.mem, ev.entry);
    }
    StartedOk(imgs, a, ev, b);
    ReplaceReaped(imgs, a, ev.pid, b.procs[ev.pid]);
  }

  lemma BootsSafe(img: Image, mem: Memory, entry: Word)
    requires Boots(img, mem, entry)
    ensures SafeMemory(mem)
  {
  }

  /** The process put on the CPU, or refused, is a sound one. */
  lemma StartedOk(imgs: seq<Image>, a: Sys, ev: Event, b: Sys)
    requires (ev.Start? || ev.LoadFault? || ev.Resume?) && Next(imgs, a, ev, b) && Inv(imgs, a)
    requires ev.pid < MAX_PROC && ReapAll(a.procs)[ev.pid] == a.procs[ev.pid] && a.procs[ev.pid].info.state == Pending
    requires ev.Start? ==> SafeMemory(ev.mem)
    ensures ProcOk(imgs, b.procs[ev.pid])
    ensures ev.LoadFault? ==> b.procs[ev.pid].mem.None? && b.procs[ev.pid].regs.None?
  {
    hide First;
    hide Boots;
    hide ReapAll;
    hide SafeMemory;
    hide SnapsOk;
    hide PhaseOk;
    PickedOk(imgs, a.procs, ev.pid);
    hide TableOk;
  }

  lemma PickedOk(imgs: seq<Image>, procs: seq<Proc>, p: nat)
    requires TableOk(imgs, procs) && p < |procs|
    ensures ProcOk(imgs, procs[p])
  {
    hide ProcOk;
  }

  /** The picked process after the scheduler's reap, replaced by `x`. */
  lemma ReplaceReaped(imgs: seq<Image>, a: Sys, p: nat, x: Proc)
    requires Inv(imgs, a) && a.phase == Service && First(ReapAll(a.procs), Pending) == Some(p)
    requires ProcOk(imgs, x) && x.info.caps == a.procs[p].info.caps && x.info.parent == a.procs[p].info.parent
    requires x.info.state == Running || (x.info.state == Faulted && x.mem.None? && x.regs.None?)
    ensures var c := a.(procs := ReapAll(a.procs)[p := x], phase := if x.info.state == Running then Cpu(p) else Service);
      Inv(imgs, c)
  {
    hide First;
    hide ProcOk;
    hide PhaseOk;
    hide SnapOk;
    hide ReapAll;
    hide ParentOk;
    hide Ordered;
    PickedFirst(imgs, a, p);
    ReapOk(imgs, a.procs);
    var r := ReapAll(a.procs);
    forall q: nat | q <= p ensures r[q].info == a.procs[q].info {
      ReapedInfo(a.procs, q);
    }
    hide TableOk;
    ReplaceOk(imgs, r, p, x);
    var c := a.(procs := r[p := x], phase := if x.info.state == Running then Cpu(p) else Service);
    PickedPhase(a, c, p);
  }

  lemma RestoreInv(imgs: seq<Image>, a: Sys, ev: Event, b: Sys)
    requires ev.Restore? && Next(imgs, a, ev, b) && Inv(imgs, a)
    ensures Inv(imgs, b)
  {
    hide First;
    hide Boots;
    hide TableOk;
    hide ProcOk;
    ReapOk(imgs, a.procs);
    RestoredOk(imgs, ReapAll(a.procs), ev.pid, a.snaps[ev.sid].value, b.procs[ev.pid]);
    PickedPhase(a, b, ev.pid);
  }

  lemma PickedPhase(a: Sys, b: Sys, p: nat)
    requires |a.procs| == MAX_PROC && PhaseOk(a) && a.phase == Service && p < MAX_PROC
    requires |b.procs| == MAX_PROC && b.procs == ReapAll(a.procs)[p := b.procs[p]]
    requires (b.phase == Cpu(p) && b.procs[p].info.state == Running)
             || (b.phase == Service && b.procs[p].info.state == Faulted && b.procs[p].mem.None? && b.procs[p].regs.None?)
    ensures PhaseOk(b)
  {
    hide ReapAll;
    hide Reaped;
    forall q: nat | q < MAX_PROC && q != p
      ensures b.procs[q].info == a.procs[q].info
      ensures b.procs[q].info.state.Terminal() ==> b.procs[q].mem.None? && b.procs[q].regs.None?
    {
      ReapedInfo(a.procs, q);
    }
  }

  lemma ReapedInfo(procs: seq<Proc>, q: nat)
    requires q < |procs|
    ensures var r := ReapAll(procs)[q];
      r.info == procs[q].info && (r.info.state.Terminal() ==> r.mem.None? && r.regs.None?) && (!r.info.state.Terminal() ==> r == procs[q])
  {
  }

  /** A restored process goes into the first empty slot of a table with nothing pending. */
  lemma RestoredOk(imgs: seq<Image>, r: seq<Proc>, p: nat, sn: Snap, x: Proc)
    requires TableOk(imgs, r) && First(r, Empty) == Some(p) && First(r, Pending) == None
    requires forall q: nat :: q < |r| ==> r[q].info.state != Running
    requires SnapOk(imgs, Some(sn))
    requires x.mem == Some(sn.mem) && x.regs.Some? && x.info.state == Running && !x.info.preempted && x.info.parent == None
    requires x.info.image == sn.image && x.info.caps == Meet(sn.caps, imgs[sn.image].caps)
    ensures TableOk(imgs, r[p := x])
  {
    hide First;
    hide SafeMemory;
    MaskWithin(sn.caps, imgs[sn.image].caps);
    assert ProcOk(imgs, x);
    hide ProcOk;
    var t := r[p := x];
    forall q: nat | q < |t| ensures ParentOk(t, q) {
      assert ParentOk(r, q);
    }
    assert forall q: nat :: q < p ==> r[q].info.state.Terminal();
  }

  lemma FinishInv(imgs: seq<Image>, a: Sys, ev: Event, b: Sys)
    requires ev.Finish? && Next(imgs, a, ev, b) && Inv(imgs, a)
    ensures Inv(imgs, b)
  {
    hide First;
    hide Boots;
    hide TableOk;
    hide SnapOk;
    hide Within;
    ReapOk(imgs, a.procs);
    FinishPhase(a, b);
  }

  lemma FinishPhase(a: Sys, b: Sys)
    requires PhaseOk(a) && a.phase == Service && b.procs == ReapAll(a.procs) && b.phase == Idle && First(b.procs, Pending) == None
    ensures PhaseOk(b)
  {
    hide First;
  }

  lemma StoreInv(imgs: seq<Image>, a: Sys, ev: Event, b: Sys)
    requires ev.Store? && Next(imgs, a, ev, b) && Inv(imgs, a)
    ensures Inv(imgs, b)
  {
    hide First;
    hide Boots;
    hide PutFrameByte;
    var p := a.phase.pid;
    assert ProcOk(imgs, a.procs[p]);
    assert ProcOk(imgs, b.procs[p]);
    hide ProcOk;
    ReplaceOk(imgs, a.procs, p, b.procs[p]);
  }

  lemma SpawnInv(imgs: seq<Image>, a: Sys, ev: Event, b: Sys)
    requires ev.Spawn? && Next(imgs, a, ev, b) && Inv(imgs, a)
    ensures Inv(imgs, b)
  {
    hide Boots;
    hide First;
    hide Enqueue;
    hide TableOk;
    hide SnapOk;
    hide Within;
    hide Meet;
    var caps := a.procs[a.phase.pid].info.caps;
    var granted := Meet(Meet(ev.requested, caps), imgs[ev.image].caps);
    MaskThree(ev.requested, caps, imgs[ev.image].caps);
    EnqueueOk(imgs, a.procs, ev.image, granted, Some(a.phase.pid));
    EnqueuePhase(imgs, a, ev.image, granted, Some(a.phase.pid));
  }

  lemma EnqueuePhase(imgs: seq<Image>, a: Sys, image: nat, caps: Caps, parent: Option<nat>)
    requires PhaseOk(a) && image < |imgs| && a.phase.Cpu?
    ensures PhaseOk(a.(procs := Enqueue(imgs, a.procs, image, caps, parent)))
  {
    hide First;
  }

  lemma CheckpointInv(imgs: seq<Image>, a: Sys, ev: Event, b: Sys)
    requires ev.Checkpoint? && Next(imgs, a, ev, b) && Inv(imgs, a)
    ensures Inv(imgs, b)
  {
    hide Boots;
    hide First;
    hide FirstFree;
    assert ProcOk(imgs, a.procs[a.phase.pid]);
    hide SafeMemory;
    assert SnapOk(imgs, b.snaps[ev.sid]);
    hide ProcOk;
    hide ParentOk;
  }

  lemma LeaveInv(imgs: seq<Image>, a: Sys, x: Proc)
    requires Inv(imgs, a) && a.phase.Cpu? && ProcOk(imgs, x)
    requires var p := a.procs[a.phase.pid]; x.info.caps == p.info.caps && x.info.parent == p.info.parent
    requires x.info.state.Terminal() || (x.info.state == Pending && x.info.preempted)
    ensures Inv(imgs, Left(a, x))
  {
    hide ProcOk;
    var p := a.phase.pid;
    ReplaceOk(imgs, a.procs, p, x);
    ReapOk(imgs, a.procs[p := x]);
    LeavePhase(a, x);
    hide TableOk;
  }

  lemma LeavePhase(a: Sys, x: Proc)
    requires PhaseOk(a) && a.phase.Cpu? && (x.info.state.Terminal() || x.info.state == Pending)
    ensures PhaseOk(Left(a, x))
  {
    forall q: nat | q < |a.procs| ensures Left(a, x).procs[q] == Reaped(a.procs[a.phase.pid := x][q]) {
    }
    hide ReapAll;
  }

  lemma LeavingInv(imgs: seq<Image>, a: Sys, ev: Event, b: Sys)
    requires (ev.Exit? || ev.Fault? || ev.Expire? || ev.Preempt?) && Next(imgs, a, ev, b) && Inv(imgs, a)
    ensures Inv(imgs, b)
  {
    hide Boots;
    hide First;
    hide ReapAll;
    var p := a.procs[a.phase.pid];
    assert ProcOk(imgs, p);
    hide SafeMemory;
    var x :=
      if ev.Exit? then p.(info := p.info.(state := Exited, exitCode := ev.code))
      else if ev.Fault? then SetState(p, Faulted)
      else if ev.Expire? then SetState(p, Killed)
      else p.(info := p.info.(state := Pending, preempted := true), regs := Some(ev.regs));
    LeaveInv(imgs, a, x);
  }

  /** Every step keeps the invariant. */
  lemma StepInv(imgs: seq<Image>, a: Sys, ev: Event, b: Sys)
    requires Inv(imgs, a) && Next(imgs, a, ev, b)
    ensures Inv(imgs, b)
  {
    hide Inv;
    match ev
    case Seed(_, _) => SeedInv(imgs, a, ev, b);
    case Kill(_) => KillInv(imgs, a, ev, b);
    case Budget(_, _) => KillInv(imgs, a, ev, b);
    case Start(_, _, _, _) => StartInv(imgs, a, ev, b);
    case LoadFault(_) => StartInv(imgs, a, ev, b);
    case Resume(_, _) => StartInv(imgs, a, ev, b);
    case Restore(_, _, _) => RestoreInv(imgs, a, ev, b);
    case Finish(_) => FinishInv(imgs, a, ev, b);
    case Store(_, _, _) => StoreInv(imgs, a, ev, b);
    case Spawn(_, _) => SpawnInv(imgs, a, ev, b);
    case Checkpoint(_, _) => CheckpointInv(imgs, a, ev, b);
    case Exit(_) => LeavingInv(imgs, a, ev, b);
    case Fault => LeavingInv(imgs, a, ev, b);
    case Expire(_) => LeavingInv(imgs, a, ev, b);
    case Preempt(_) => LeavingInv(imgs, a, ev, b);
    case Stay =>
  }

  /** Boot: nothing queued, control in the idle loop. */
  function BootSys(): Sys {
    Sys(seq(MAX_PROC, i => NO_PROC), seq(MAX_SNAP, i => None), 0, 0, Idle)
  }

  lemma BootInv(imgs: seq<Image>)
    ensures Inv(imgs, BootSys())
  {
  }
}
