/** Properties of whole runs of the machine, from boot. */
module Runs {
  import opened Words
  import opened FramePool
  import opened Machine
  import opened Invariant

  /** `ss` is the sequence of states of a run from boot, `evs` its events. */
  ghost predicate IsRun(imgs: seq<Image>, ss: seq<Sys>, evs: seq<Event>) {
    && |ss| == |evs| + 1 && ss[0] == BootSys()
    && forall i: nat :: i < |evs| ==> Next(imgs, ss[i], evs[i], ss[i + 1])
  }

  lemma {:induction false} RunInv(imgs: seq<Image>, ss: seq<Sys>, evs: seq<Event>, i: nat)
    requires IsRun(imgs, ss, evs) && i < |ss|
    ensures Inv(imgs, ss[i])
  {
    hide Inv;
    if i == 0 {
      BootInv(imgs);
    } else {
      RunInv(imgs, ss, evs, i - 1);
      StepInv(imgs, ss[i - 1], evs[i - 1], ss[i]);
    }
  }

  /** No suite is seeded from state `i` up to state `j`. */
  predicate NoSeed(evs: seq<Event>, i: nat, j: nat)
    requires i <= j <= |evs|
  {
    forall k: nat :: i <= k < j ==> !evs[k].Seed?
  }

  // ---- what a step leaves alone -------------------------------------------

  /** A process only ever changes by its own story: identity never, and nothing at all once
      it has ended (its frames apart). */
  lemma StepKeeps(imgs: seq<Image>, a: Sys, ev: Event, b: Sys, p: nat)
    requires Inv(imgs, a) && Next(imgs, a, ev, b) && !ev.Seed? && p < MAX_PROC && a.procs[p].info.state != Empty
    ensures |b.procs| == MAX_PROC && b.procs[p].info.state != Empty
    ensures b.procs[p].info.image == a.procs[p].info.image
    ensures b.procs[p].info.caps == a.procs[p].info.caps
    ensures b.procs[p].info.parent == a.procs[p].info.parent
    ensures a.procs[p].info.state.Terminal() ==> b.procs[p].info == a.procs[p].info
  {
    hide First;
    hide Boots;
    hide ReapAll;
    hide Reaped;
    hide TableOk;
    hide SnapsOk;
    hide Meet;
    ReapedInfo(a.procs, p);
    if ev.Exit? || ev.Fault? || ev.Expire? || ev.Preempt? {
      LeaveKeeps(imgs, a, ev, b, p);
      hide Next;
    }
  }

  /** The process that left the CPU, before the reap. */
  function Leaver(x: Proc, ev: Event): Proc
    requires ev.Exit? || ev.Fault? || ev.Expire? || ev.Preempt?
  {
    if ev.Exit? then x.(info := x.info.(state := Exited, exitCode := ev.code))
    else if ev.Fault? then SetState(x, Faulted)
    else if ev.Expire? then SetState(x, Killed)
    else x.(info := x.info.(state := Pending, preempted := true), regs := Some(ev.regs))
  }

  lemma LeaveKeeps(imgs: seq<Image>, a: Sys, ev: Event, b: Sys, p: nat)
    requires Next(imgs, a, ev, b) && (ev.Exit? || ev.Fault? || ev.Expire? || ev.Preempt?) && p < MAX_PROC
    ensures a.phase.Cpu? && a.phase.pid < MAX_PROC && |b.procs| == MAX_PROC
    ensures b.procs[p].info == if p == a.phase.pid then Leaver(a.procs[p], ev).info else a.procs[p].info
  {
    hide First;
    hide Boots;
    hide ReapAll;
    hide Reaped;
    hide Meet;
    ReapedInfo(a.procs[a.phase.pid := Leaver(a.procs[a.phase.pid], ev)], p);
  }

  lemma StepKeepsSnap(imgs: seq<Image>, a: Sys, ev: Event, b: Sys, sid: nat)
    requires Next(imgs, a, ev, b) && !ev.Seed? && sid < MAX_SNAP && a.snaps[sid].Some?
    ensures |b.snaps| == MAX_SNAP && b.snaps[sid] == a.snaps[sid]
  {
    hide First;
    hide Boots;
    hide ReapAll;
    hide Meet;
  }

  lemma {:induction false} KeepsLong(imgs: seq<Image>, ss: seq<Sys>, evs: seq<Event>, i: nat, j: nat, p: nat)
    requires IsRun(imgs, ss, evs) && i <= j < |ss| && NoSeed(evs, i, j)
    requires p < MAX_PROC && |ss[i].procs| == MAX_PROC && ss[i].procs[p].info.state != Empty
    ensures |ss[j].procs| == MAX_PROC && ss[j].procs[p].info.state != Empty
    ensures ss[j].procs[p].info.image == ss[i].procs[p].info.image
    ensures ss[j].procs[p].info.caps == ss[i].procs[p].info.caps
    ensures ss[j].procs[p].info.parent == ss[i].procs[p].info.parent
    ensures ss[i].procs[p].info.state.Terminal() ==> ss[j].procs[p].info == ss[i].procs[p].info
    decreases j
  {
    hide Next;
    hide Inv;
    if i < j {
      KeepsLong(imgs, ss, evs, i, j - 1, p);
      RunInv(imgs, ss, evs, j - 1);
      StepKeeps(imgs, ss[j - 1], evs[j - 1], ss[j], p);
    }
  }

  lemma {:induction false} SnapLong(imgs: seq<Image>, ss: seq<Sys>, evs: seq<Event>, i: nat, j: nat, sid: nat)
    requires IsRun(imgs, ss, evs) && i <= j < |ss| && NoSeed(evs, i, j)
    requires sid < MAX_SNAP && |ss[i].snaps| == MAX_SNAP && ss[i].snaps[sid].Some?
    ensures |ss[j].snaps| == MAX_SNAP && ss[j].snaps[sid] == ss[i].snaps[sid]
    decreases j
  {
    hide Next;
    if i < j {
      SnapLong(imgs, ss, evs, i, j - 1, sid);
      StepKeepsSnap(imgs, ss[j - 1], evs[j - 1], ss[j], sid);
    }
  }

  // ---- checkpoints --------------------------------------------------------

  /** Fork fidelity. Whatever every payload stores in between, a continuation restored from
      a checkpoint begins with exactly the pages, permissions, bytes, capabilities and image
      its original had when it called `sys_snapshot`, and with its registers except a0 = 0. */
  lemma ForkFidelity(imgs: seq<Image>, ss: seq<Sys>, evs: seq<Event>, i: nat, j: nat)
    requires IsRun(imgs, ss, evs) && i < j < |evs| && NoSeed(evs, i, j)
    requires evs[i].Checkpoint? && evs[j].Restore? && evs[j].sid == evs[i].sid
    ensures ss[i].phase.Cpu? && ss[i].phase.pid < |ss[i].procs| && evs[j].pid < |ss[j + 1].procs| && |evs[i].regs.gpr| == 31
    ensures var original := ss[i].procs[ss[i].phase.pid]; var copy := ss[j + 1].procs[evs[j].pid];
      && copy.mem == original.mem && copy.mem.Some?
      && copy.regs.Some? && |copy.regs.value.gpr| == 31 && copy.regs.value.gpr[9] == 0
      && (forall k: nat :: k < 31 && k != 9 ==> copy.regs.value.gpr[k] == evs[i].regs.gpr[k])
      && copy.regs.value.sepc == evs[i].regs.sepc && copy.regs.value.sstatus == evs[i].regs.sstatus
      && copy.info.caps == original.info.caps && copy.info.image == original.info.image
      && copy.info.state == Running && ss[j + 1].phase == Cpu(evs[j].pid)
      && copy.info.startedAt == evs[j].now && copy.info.deadline == 0 && copy.info.parent == None
  {
    assert Next(imgs, ss[i], evs[i], ss[i + 1]) && Next(imgs, ss[j], evs[j], ss[j + 1]);
    SnapLong(imgs, ss, evs, i + 1, j, evs[i].sid);
    RunInv(imgs, ss, evs, j);
    assert SnapOk(imgs, ss[j].snaps[evs[i].sid]);
    hide First;
    hide ReapAll;
    hide Boots;
    hide TableOk;
    hide PhaseOk;
  }

  // ---- capabilities -------------------------------------------------------

  /** The `n`-th ancestor of process `p`. */
  function Ancestor(procs: seq<Proc>, p: nat, n: nat): Option<nat>
    decreases n
  {
    if n == 0 then Some(p)
    else if p < |procs| && procs[p].info.parent.Some? then Ancestor(procs, procs[p].info.parent.value, n - 1)
    else None
  }

  lemma WithinTrans(a: Caps, b: Caps, c: Caps)
    requires Within(a, b) && Within(b, c)
    ensures Within(a, c)
  {
  }

  /** Attenuation down every delegation chain: a process holds no capability that any of its
      ancestors lacks, nor one beyond the ceiling of any ancestor's image; chains run to
      strictly smaller pids. */
  lemma {:induction false} Attenuation(imgs: seq<Image>, a: Sys, p: nat, n: nat)
    requires Inv(imgs, a) && p < MAX_PROC && a.procs[p].info.state != Empty && Ancestor(a.procs, p, n).Some?
    ensures var q := Ancestor(a.procs, p, n).value;
      && q + n <= p && a.procs[q].info.state != Empty
      && Within(a.procs[p].info.caps, a.procs[q].info.caps)
      && a.procs[q].info.image < |imgs| && Within(a.procs[p].info.caps, imgs[a.procs[q].info.image].caps)
    decreases n
  {
    assert ProcOk(imgs, a.procs[p]) && ParentOk(a.procs, p);
    hide ProcOk;
    hide ParentOk;
    if n == 0 {
      MaskWithin(a.procs[p].info.caps, a.procs[p].info.caps);
    } else {
      var q := a.procs[p].info.parent.value;
      Attenuation(imgs, a, q, n - 1);
      var r := Ancestor(a.procs, q, n - 1).value;
      WithinTrans(a.procs[p].info.caps, a.procs[q].info.caps, a.procs[r].info.caps);
      WithinTrans(a.procs[p].info.caps, a.procs[q].info.caps, imgs[a.procs[r].info.image].caps);
    }
  }

  /** Attenuation as a run property: it holds in every state, and a process's capabilities
      never change while it occupies its slot. */
  lemma RunAttenuation(imgs: seq<Image>, ss: seq<Sys>, evs: seq<Event>, i: nat, j: nat, p: nat, n: nat)
    requires IsRun(imgs, ss, evs) && i <= j < |ss| && NoSeed(evs, i, j)
    requires p < MAX_PROC && |ss[i].procs| == MAX_PROC && ss[i].procs[p].info.state != Empty
    requires Ancestor(ss[j].procs, p, n).Some?
    ensures |ss[j].procs| == MAX_PROC && ss[j].procs[p].info.caps == ss[i].procs[p].info.caps
    ensures var q := Ancestor(ss[j].procs, p, n).value; q < MAX_PROC && q + n <= p && ss[i].procs[p].info.caps & ss[j].procs[q].info.caps == ss[i].procs[p].info.caps
  {
    hide Next;
    KeepsLong(imgs, ss, evs, i, j, p);
    RunInv(imgs, ss, evs, j);
    Attenuation(imgs, ss[j], p, n);
  }

  // ---- memory protection --------------------------------------------------

  /** W^X in every state of every run: no page a process or a checkpoint can reach is both
      writable and executable, and no window is writable. */
  lemma RunWx(imgs: seq<Image>, ss: seq<Sys>, evs: seq<Event>, i: nat)
    requires IsRun(imgs, ss, evs) && i < |ss|
    ensures |ss[i].procs| == MAX_PROC && |ss[i].snaps| == MAX_SNAP
    ensures forall p: nat, v :: p < MAX_PROC && ss[i].procs[p].mem.Some? && v in ss[i].procs[p].mem.value ==>
      var page := ss[i].procs[p].mem.value[v]; !(page.perms.w && page.perms.x) && (page.Shared? ==> !page.perms.w)
    ensures forall k: nat, v :: k < MAX_SNAP && ss[i].snaps[k].Some? && v in ss[i].snaps[k].value.mem ==>
      var page := ss[i].snaps[k].value.mem[v]; !(page.perms.w && page.perms.x) && (page.Shared? ==> !page.perms.w)
  {
    hide Next;
    RunInv(imgs, ss, evs, i);
    forall p: nat | p < MAX_PROC ensures ProcOk(imgs, ss[i].procs[p]) {
    }
    forall k: nat | k < MAX_SNAP ensures SnapOk(imgs, ss[i].snaps[k]) {
    }
  }

  /** In the idle loop no process holds memory or a saved frame: only checkpoints do. */
  lemma IdleHoldsNothing(imgs: seq<Image>, ss: seq<Sys>, evs: seq<Event>, i: nat, p: nat)
    requires IsRun(imgs, ss, evs) && i < |ss| && ss[i].phase == Idle && p < MAX_PROC
    ensures |ss[i].procs| == MAX_PROC && ss[i].procs[p].mem.None? && ss[i].procs[p].regs.None?
  {
    hide Next;
    RunInv(imgs, ss, evs, i);
    assert ProcOk(imgs, ss[i].procs[p]);
  }

  /** Away from the service window no process that has ended holds memory; inside it, only an
      operator's kill can leave some behind. */
  lemma OnlyKilledHold(imgs: seq<Image>, ss: seq<Sys>, evs: seq<Event>, i: nat, p: nat)
    requires IsRun(imgs, ss, evs) && i < |ss| && p < MAX_PROC
    ensures |ss[i].procs| == MAX_PROC
    ensures var a := ss[i].procs[p]; a.info.state.Terminal() && (a.mem.Some? || a.regs.Some?) ==> a.info.state == Killed && ss[i].phase == Service
  {
    hide Next;
    RunInv(imgs, ss, evs, i);
  }

  /** That case is reachable: a payload is preempted, then killed. Nobody is alive, so the
      busy guard lets a new suite be seeded while the killed one still owns its memory. */
  lemma KillThenSeed(imgs: seq<Image>, image: nat, now: nat, mem: Memory, entry: Word, regs: Regs) returns (ss: seq<Sys>, evs: seq<Event>)
    requires image < |imgs| && Boots(imgs[image], mem, entry) && |regs.gpr| == 31
    ensures evs == [Seed([image], 0), Start(0, now, mem, entry), Preempt(regs), Kill(0), Seed([image], 0)]
    ensures IsRun(imgs, ss, evs) && |ss[4].procs| == MAX_PROC && ss[4].procs[0].mem == Some(mem)
  {
    hide Boots;
    hide Meet;
    hide EnqueueAll;
    hide ClearAll;
    hide ReapAll;
    hide First;
    var s0 := BootSys();
    evs := [Seed([image], 0), Start(0, now, mem, entry), Preempt(regs), Kill(0), Seed([image], 0)];
    OneQueued(imgs, s0.procs, image);
    var s1 := Sys(EnqueueAll(imgs, ClearAll(s0.procs), [image]), seq(MAX_SNAP, i => None), 0, 0, Service);
    var r1 := ReapAll(s1.procs);
    assert r1[0] == Reaped(s1.procs[0]);
    var s2 := s1.(procs := r1[0 := Proc(r1[0].info.(state := Running, startedAt := now), Some(mem), Some(FreshRegs(entry)))], phase := Cpu(0));
    var p3 := s2.procs[0].(info := s2.procs[0].info.(state := Pending, preempted := true), regs := Some(regs));
    var s3 := Left(s2, p3);
    assert s3.procs[0] == Reaped(p3);
    var s4 := s3.(procs := s3.procs[0 := SetState(s3.procs[0], Killed)]);
    forall q: nat | 0 < q < MAX_PROC ensures s4.procs[q].info.state == Empty {
      ReapedInfo(s1.procs, q);
      ReapedInfo(s2.procs[0 := p3], q);
    }
    var s5 := Sys(EnqueueAll(imgs, ClearAll(s4.procs), [image]), seq(MAX_SNAP, i => None), 0, 0, Service);
    assert Next(imgs, s1, evs[1], s2);
    ss := [s0, s1, s2, s3, s4, s5];
  }

  lemma OneQueued(imgs: seq<Image>, procs: seq<Proc>, image: nat)
    requires |procs| == MAX_PROC && image < |imgs|
    ensures EnqueueAll(imgs, ClearAll(procs), [image]) == ClearAll(procs)[0 := Queued(imgs, image, imgs[image].caps, None)]
  {
    hide ClearAll;
    hide Meet;
    var c := ClearAll(procs);
    assert c[0] == Cleared(procs[0]);
    var x := Enqueue(imgs, c, image, imgs[image].caps, None);
    assert [image][1..] == [];
    assert EnqueueAll(imgs, x, []) == x;
  }

  /** A process that has ended and not given its memory back. */
  predicate Leftover(p: Proc) { p.info.state.Terminal() && (p.mem.Some? || p.regs.Some?) }

  predicate AnyLeftover(procs: seq<Proc>) { exists p: nat :: p < |procs| && Leftover(procs[p]) }

  /** The events that neither reap nor seed. */
  predicate Idles(ev: Event) { ev.Kill? || ev.Budget? || ev.Stay? }

  /** Event `k` killed a suspended payload, which still had its memory. */
  predicate KillsSuspended(ss: seq<Sys>, evs: seq<Event>, k: nat)
    requires |ss| == |evs| + 1
  {
    k < |evs| && evs[k].Kill? && evs[k].pid < |ss[k].procs| && ss[k].procs[evs[k].pid].mem.Some?
  }

  /** A suspended payload was killed, and nothing has reaped since. */
  predicate KilledUnreaped(ss: seq<Sys>, evs: seq<Event>, i: nat)
    requires |ss| == |evs| + 1 && i <= |evs|
  {
    exists k: nat :: k < i && KillsSuspended(ss, evs, k) && IdlesBetween(evs, k, i)
  }

  predicate IdlesBetween(evs: seq<Event>, k: nat, i: nat)
    requires i <= |evs|
  {
    forall n: nat :: k < n < i ==> Idles(evs[n])
  }

  /** Every event but a kill, a budget change and a refusal leaves nothing behind. */
  lemma ReapsLeave(imgs: seq<Image>, a: Sys, ev: Event, b: Sys)
    requires Inv(imgs, a) && Next(imgs, a, ev, b) && !Idles(ev)
    ensures !AnyLeftover(b.procs)
  {
    hide First;
    hide Boots;
    hide Meet;
    hide ReapAll;
    hide Inv;
    StepInv(imgs, a, ev, b);
    if b.phase == Service {
      if ev.Seed? {
        SeedInv(imgs, a, ev, b);
      } else if ev.LoadFault? {
        FaultLeaves(imgs, a, ev, b);
      } else {
        LeftLeaves(imgs, a, ev, b);
      }
    } else {
      AwayClean(imgs, b);
    }
  }

  lemma AwayClean(imgs: seq<Image>, b: Sys)
    requires Inv(imgs, b) && b.phase != Service
    ensures !AnyLeftover(b.procs)
  {
  }

  lemma FaultLeaves(imgs: seq<Image>, a: Sys, ev: Event, b: Sys)
    requires Inv(imgs, a) && Next(imgs, a, ev, b) && ev.LoadFault?
    ensures !AnyLeftover(b.procs)
  {
    hide First;
    hide ReapAll;
    assert ProcOk(imgs, a.procs[ev.pid]);
    forall p: nat | p < |b.procs| ensures !Leftover(b.procs[p]) {
      assert ReapAll(a.procs)[p] == Reaped(a.procs[p]);
    }
  }

  lemma LeftLeaves(imgs: seq<Image>, a: Sys, ev: Event, b: Sys)
    requires Next(imgs, a, ev, b) && (ev.Exit? || ev.Fault? || ev.Expire? || ev.Preempt?)
    ensures !AnyLeftover(b.procs)
  {
    hide ReapAll;
    hide Overdue;
    var x := a.procs[a.phase.pid];
    var was := a.procs[a.phase.pid := Leaver(x, ev)];
    forall p: nat | p < |b.procs| ensures !Leftover(b.procs[p]) {
      assert ReapAll(was)[p] == Reaped(was[p]);
    }
  }

  /** A kill leaves something behind exactly when its victim had memory; budget changes and
      refusals change nothing here. */
  lemma KillLeaves(imgs: seq<Image>, a: Sys, ev: Event, b: Sys)
    requires Inv(imgs, a) && Next(imgs, a, ev, b) && Idles(ev)
    ensures ev.Kill? ==> ev.pid < |a.procs|
    ensures AnyLeftover(b.procs) <==> AnyLeftover(a.procs) || (ev.Kill? && a.procs[ev.pid].mem.Some?)
  {
    hide Boots;
    hide First;
    hide ReapAll;
    if !ev.Stay? {
      assert ProcOk(imgs, a.procs[ev.pid]);
      assert forall p: nat :: p < |a.procs| && p != ev.pid ==> b.procs[p] == a.procs[p];
      assert Leftover(b.procs[ev.pid]) <==> ev.Kill? && a.procs[ev.pid].mem.Some?;
      if AnyLeftover(a.procs) {
        var p: nat :| p < |a.procs| && Leftover(a.procs[p]);
        assert Leftover(b.procs[p]);
      }
    }
  }

  /** At any point of a run, memory has been left behind exactly when a suspended payload was
      killed and nothing has reaped since. */
  lemma {:induction false} LeftoverExact(imgs: seq<Image>, ss: seq<Sys>, evs: seq<Event>, i: nat)
    requires IsRun(imgs, ss, evs) && i < |ss|
    ensures AnyLeftover(ss[i].procs) <==> KilledUnreaped(ss, evs, i)
  {
    hide Next;
    hide Inv;
    hide AnyLeftover;
    if i == 0 {
      BootClean();
    } else {
      LeftoverExact(imgs, ss, evs, i - 1);
      RunInv(imgs, ss, evs, i - 1);
      if Idles(evs[i - 1]) {
        KillLeaves(imgs, ss[i - 1], evs[i - 1], ss[i]);
        if KilledUnreaped(ss, evs, i - 1) {
          var k: nat :| k < i - 1 && KillsSuspended(ss, evs, k) && IdlesBetween(evs, k, i - 1);
          assert IdlesBetween(evs, k, i);
        }
        assert IdlesBetween(evs, i - 1, i);
      } else {
        ReapsLeave(imgs, ss[i - 1], evs[i - 1], ss[i]);
        assert !KillsSuspended(ss, evs, i - 1) && !Idles(evs[i - 1]);
      }
    }
  }

  lemma BootClean()
    ensures !AnyLeftover(BootSys().procs)
  {
  }

  /** Seeding a suite drops memory that is still held exactly when a suspended payload was
      killed since the last reap. */
  lemma SeedLoss(imgs: seq<Image>, ss: seq<Sys>, evs: seq<Event>, i: nat)
    requires IsRun(imgs, ss, evs) && i < |evs| && evs[i].Seed?
    ensures !HoldNothing(ss[i].procs) <==> KilledUnreaped(ss, evs, i)
  {
    hide KilledUnreaped;
    LeftoverExact(imgs, ss, evs, i);
    RunInv(imgs, ss, evs, i);
    SeedHolds(imgs, ss[i], evs[i], ss[i + 1]);
  }

  lemma SeedHolds(imgs: seq<Image>, a: Sys, ev: Event, b: Sys)
    requires Inv(imgs, a) && Next(imgs, a, ev, b) && ev.Seed?
    ensures !HoldNothing(a.procs) <==> AnyLeftover(a.procs)
  {
    hide EnqueueAll;
    hide ClearAll;
    if !HoldNothing(a.procs) {
      var p: nat :| p < |a.procs| && (a.procs[p].mem.Some? || a.procs[p].regs.Some?);
      assert ProcOk(imgs, a.procs[p]);
      assert Leftover(a.procs[p]);
    }
  }

  // ---- scheduling ---------------------------------------------------------

  /** Payloads run to completion in pid order: when the CPU passes from one to another, the
      new one has the larger pid and everything before it has ended. */
  lemma RunOrder(imgs: seq<Image>, ss: seq<Sys>, evs: seq<Event>, i: nat, j: nat, p: nat, q: nat)
    requires IsRun(imgs, ss, evs) && i <= j < |ss| && NoSeed(evs, i, j)
    requires ss[i].phase == Cpu(p) && ss[j].phase == Cpu(q) && p != q
    ensures p < q < MAX_PROC && |ss[j].procs| == MAX_PROC
    ensures forall r: nat :: r < q ==> ss[j].procs[r].info.state.Terminal()
  {
    hide Next;
    hide ProcOk;
    hide ParentOk;
    RunInv(imgs, ss, evs, i);
    RunInv(imgs, ss, evs, j);
    assert ss[i].procs[p].info.state == Running && ss[j].procs[q].info.state == Running;
    if q < p {
      assert Active(ss[i].procs[p]);
      assert ss[i].procs[q].info.state.Terminal();
      KeepsLong(imgs, ss, evs, i, j, q);
    }
    assert Active(ss[j].procs[q]);
  }

  /** The events that announce a new payload on the CPU (`payload_start`). */
  predicate IsStart(ev: Event) { ev.Start? || ev.Restore? }

  function Starts(evs: seq<Event>, i: nat, j: nat): nat
    requires i <= j <= |evs|
  {
    if i == j then 0 else Starts(evs, i, j - 1) + if IsStart(evs[j - 1]) then 1 else 0
  }

  /** Has been on the CPU, or can never be. */
  predicate Spent(p: Proc) { Active(p) || p.info.state.Terminal() }

  lemma StepSpent(imgs: seq<Image>, a: Sys, ev: Event, b: Sys, p: nat)
    requires Inv(imgs, a) && Next(imgs, a, ev, b) && !ev.Seed? && p < MAX_PROC
    ensures |b.procs| == MAX_PROC
    ensures Spent(a.procs[p]) ==> Spent(b.procs[p])
    ensures IsStart(ev) && ev.pid == p ==> !Spent(a.procs[p]) && Spent(b.procs[p]) && b.phase == Cpu(p)
  {
    hide First;
    hide Boots;
    hide ReapAll;
    hide Reaped;
    hide SnapsOk;
    hide Meet;
    assert ProcOk(imgs, a.procs[p]);
    hide TableOk;
    ReapedInfo(a.procs, p);
    if ev.Exit? || ev.Fault? || ev.Expire? || ev.Preempt? {
      LeaveKeeps(imgs, a, ev, b, p);
      hide Next;
    }
  }

  lemma {:induction false} SpentLong(imgs: seq<Image>, ss: seq<Sys>, evs: seq<Event>, i: nat, j: nat, p: nat)
    requires IsRun(imgs, ss, evs) && i <= j < |ss| && NoSeed(evs, i, j) && p < MAX_PROC
    requires |ss[i].procs| == MAX_PROC && Spent(ss[i].procs[p])
    ensures |ss[j].procs| == MAX_PROC && Spent(ss[j].procs[p])
    decreases j
  {
    hide Next;
    hide Inv;
    if i < j {
      SpentLong(imgs, ss, evs, i, j - 1, p);
      RunInv(imgs, ss, evs, j - 1);
      StepSpent(imgs, ss[j - 1], evs[j - 1], ss[j], p);
    }
  }

  /** Between two seedings, payloads are started in strictly increasing pid order. */
  lemma StartsIncrease(imgs: seq<Image>, ss: seq<Sys>, evs: seq<Event>, i: nat, j: nat)
    requires IsRun(imgs, ss, evs) && i < j < |evs| && NoSeed(evs, i, j + 1) && IsStart(evs[i]) && IsStart(evs[j])
    requires evs[i].pid < MAX_PROC && evs[j].pid < MAX_PROC
    ensures evs[i].pid < evs[j].pid
  {
    hide Next;
    hide Inv;
    RunInv(imgs, ss, evs, i);
    RunInv(imgs, ss, evs, j);
    StepSpent(imgs, ss[i], evs[i], ss[i + 1], evs[i].pid);
    StepSpent(imgs, ss[j], evs[j], ss[j + 1], evs[j].pid);
    SpentLong(imgs, ss, evs, i + 1, j, evs[i].pid);
    RunOrder(imgs, ss, evs, i + 1, j + 1, evs[i].pid, evs[j].pid);
  }

  lemma StartPid(imgs: seq<Image>, a: Sys, ev: Event, b: Sys)
    requires Next(imgs, a, ev, b) && IsStart(ev)
    ensures ev.pid < MAX_PROC
  {
    hide Boots;
    hide ReapAll;
    hide First;
  }

  lemma {:induction false} StartCount(imgs: seq<Image>, ss: seq<Sys>, evs: seq<Event>, i: nat, j: nat) returns (k: nat)
    requires IsRun(imgs, ss, evs) && i <= j <= |evs| && NoSeed(evs, i, j)
    ensures Starts(evs, i, j) > 0 ==> i <= k < j && IsStart(evs[k]) && Starts(evs, i, j) <= evs[k].pid + 1 <= MAX_PROC
    decreases j
  {
    hide Next;
    k := 0;
    if i < j {
      k := StartCount(imgs, ss, evs, i, j - 1);
      if IsStart(evs[j - 1]) {
        StartPid(imgs, ss[j - 1], evs[j - 1], ss[j]);
        if Starts(evs, i, j - 1) > 0 {
          StartsIncrease(imgs, ss, evs, k, j - 1);
        }
        k := j - 1;
      }
    }
  }

  /** A suite announces at most twelve starts, however it spawns and forks. */
  lemma AtMostTwelveStarts(imgs: seq<Image>, ss: seq<Sys>, evs: seq<Event>, i: nat, j: nat)
    requires IsRun(imgs, ss, evs) && i <= j <= |evs| && NoSeed(evs, i, j)
    ensures Starts(evs, i, j) <= 12
  {
    hide IsRun;
    var k := StartCount(imgs, ss, evs, i, j);
  }

  // ---- preemption ---------------------------------------------------------

  /** Process `p` is suspended with registers `regs`, as it was when preempted. */
  predicate Suspended(a: Sys, p: nat, was: Proc, regs: Regs) {
    && a.phase == Service && p < |a.procs|
    && a.procs[p].info.state == Pending && a.procs[p].info.preempted
    && a.procs[p].regs == Some(regs) && a.procs[p].mem == was.mem
    && a.procs[p].info.startedAt == was.info.startedAt && a.procs[p].info.caps == was.info.caps
  }

  lemma PreemptSuspends(imgs: seq<Image>, a: Sys, ev: Event, b: Sys)
    requires Inv(imgs, a) && ev.Preempt? && Next(imgs, a, ev, b)
    ensures Suspended(b, a.phase.pid, a.procs[a.phase.pid], ev.regs)
  {
    hide Boots;
    hide First;
    hide ReapAll;
    hide TableOk;
    hide SnapsOk;
    var x := a.procs[a.phase.pid];
    ReapedInfo(a.procs[a.phase.pid := x.(info := x.info.(state := Pending, preempted := true), regs := Some(ev.regs))], a.phase.pid);
  }

  /** A suspended payload stays as it is until it is killed or resumed, and nothing else can
      take the CPU, reseed the table or reach the idle loop before that. */
  lemma SuspendedStep(imgs: seq<Image>, a: Sys, ev: Event, b: Sys, p: nat, was: Proc, regs: Regs)
    requires Inv(imgs, a) && Next(imgs, a, ev, b) && Suspended(a, p, was, regs)
    ensures ev.Kill? || ev.Budget? || ev.Resume? || ev.Stay?
    ensures ev != Kill(p) && !ev.Resume? ==> Suspended(b, p, was, regs)
    ensures ev.Resume? ==> ev.pid == p && b.phase == Cpu(p) && p < |b.procs| && b.procs[p].regs == Some(regs)
                           && b.procs[p].mem == was.mem && b.procs[p].info.startedAt == was.info.startedAt
                           && b.procs[p].info.state == Running
  {
    hide Boots;
    hide First;
    hide ReapAll;
    hide Reaped;
    hide ProcOk;
    hide ParentOk;
    hide SnapsOk;
    hide Meet;
    ReapedInfo(a.procs, p);
    OnlyChoice(imgs, a, p);
    hide TableOk;
    assert AnyAlive(a.procs);
  }

  /** A suspended payload is the one the scheduler picks. */
  lemma OnlyChoice(imgs: seq<Image>, a: Sys, p: nat)
    requires Inv(imgs, a) && a.phase == Service && p < MAX_PROC && a.procs[p].info.state == Pending && a.procs[p].info.preempted
    ensures First(ReapAll(a.procs), Pending) == Some(p)
  {
    hide First;
    hide ProcOk;
    hide ParentOk;
    assert Active(a.procs[p]);
    var r := ReapAll(a.procs);
    ReapedInfo(a.procs, p);
    forall q: nat | q < p ensures r[q].info.state != Pending {
      ReapedInfo(a.procs, q);
    }
  }

  lemma {:induction false} SuspendedLong(imgs: seq<Image>, ss: seq<Sys>, evs: seq<Event>, i: nat, j: nat)
    requires IsRun(imgs, ss, evs) && i < j < |ss| && evs[i].Preempt?
    requires ss[i].phase.Cpu? && ss[i].phase.pid < |ss[i].procs|
    requires forall k: nat :: i < k < j ==> evs[k] != Kill(ss[i].phase.pid) && !evs[k].Resume?
    ensures Suspended(ss[j], ss[i].phase.pid, ss[i].procs[ss[i].phase.pid], evs[i].regs)
    decreases j
  {
    hide Next;
    hide Inv;
    hide Suspended;
    if j == i + 1 {
      RunInv(imgs, ss, evs, i);
      PreemptSuspends(imgs, ss[i], evs[i], ss[j]);
    } else {
      SuspendedLong(imgs, ss, evs, i, j - 1);
      RunInv(imgs, ss, evs, j - 1);
      SuspendedStep(imgs, ss[j - 1], evs[j - 1], ss[j], ss[i].phase.pid, ss[i].procs[ss[i].phase.pid], evs[i].regs);
    }
  }

  /** A preempted payload that is not killed is the next one on the CPU, with the exact
      register file and memory it was interrupted with and its start time unmoved. */
  lemma PreemptedResumesNext(imgs: seq<Image>, ss: seq<Sys>, evs: seq<Event>, i: nat, j: nat)
    requires IsRun(imgs, ss, evs) && i < j < |evs| && evs[i].Preempt?
    requires ss[i].phase.Cpu? && ss[i].phase.pid < |ss[i].procs|
    requires forall k: nat :: i < k < j ==> evs[k] != Kill(ss[i].phase.pid) && !evs[k].Resume?
    requires evs[j].Start? || evs[j].Restore? || evs[j].Resume?
    ensures var p := ss[i].phase.pid;
      && evs[j].Resume? && evs[j].pid == p && ss[j + 1].phase == Cpu(p) && p < |ss[j + 1].procs|
      && ss[j + 1].procs[p].regs == Some(evs[i].regs)
      && ss[j + 1].procs[p].mem == ss[i].procs[p].mem
      && ss[j + 1].procs[p].info.startedAt == ss[i].procs[p].info.startedAt
  {
    hide Next;
    hide Inv;
    hide Suspended;
    SuspendedLong(imgs, ss, evs, i, j);
    RunInv(imgs, ss, evs, j);
    SuspendedStep(imgs, ss[j], evs[j], ss[j + 1], ss[i].phase.pid, ss[i].procs[ss[i].phase.pid], evs[i].regs);
  }
}
