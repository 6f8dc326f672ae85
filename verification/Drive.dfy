/** Whole executions: any sequence of calls into the booted kernel, from payloads, the timer
    and the operator. Each is a run of the machine, its ticks keep the cadence, and frames
    are conserved over all of it. */
module Drive {
  import opened Words
  import opened Pte
  import opened FramePool
  import opened PageTables
  import opened Translate
  import opened ElfImage
  import opened Machine
  import opened Invariant
  import opened Runs
  import opened Estate
  import opened Books
  import opened Launch
  import opened Steps
  import opened Kernel
  import opened Timer
  import opened Rings
  import opened Tools

  /** One call into the kernel. Clock readings and what hardware supplies are part of it. */
  datatype Call =
    | Exits(code: int)
    | Faults
    | Stores(va: Word, b: Byte)
    | Spawns(selector: nat, requested: Caps)
    | Snapshots(frame: Regs)
    | Ticks(now: nat, check: nat, frame: Regs, pending: Option<Byte>)
    | RunsSuite(op: Option<Word>, list: seq<nat>, forks: nat)
    | Kills(op: Option<Word>, pid: nat, now: nat)
    | Budgets(op: Option<Word>, pid: nat, units: nat)
    | Closes(now: nat)

  /** Trap frames have 31 registers, suites name images, hashes of ids are not 0. */
  ghost predicate Fits(call: Call, images: nat) {
    match call
    case Snapshots(frame) => |frame.gpr| == 31
    case Ticks(_, _, frame, _) => |frame.gpr| == 31
    case RunsSuite(op, list, _) => op != Some(0) && forall i :: 0 <= i < |list| ==> list[i] < images
    case Kills(op, _, _) => op != Some(0)
    case Budgets(op, _, _) => op != Some(0)
    case _ => true
  }

  // ---- what each call causes ----------------------------------------------

  predicate MaySpawn(a: Sys, selector: nat) {
    && a.phase.Cpu? && a.phase.pid < |a.procs| && a.procs[a.phase.pid].info.caps & 4 != 0 && selector <= 2
    && exists p: nat :: p < |a.procs| && a.procs[p].info.state == Empty
  }

  predicate MaySnapshot(a: Sys) {
    a.phase.Cpu? && exists i: nat :: i < |a.snaps| && a.snaps[i].None?
  }

  /** What a call by the running payload causes: the event with the call's own arguments
      exactly when its guard holds, and nothing otherwise. A checkpoint may also fail for
      lack of frames. */
  predicate PayloadAnswer(a: Sys, call: Call, ev: Event) {
    match call
    case Exits(code) => ev == if a.phase.Cpu? then Exit(code) else Stay
    case Faults => ev == if a.phase.Cpu? then Fault else Stay
    case Stores(va, b) => ev == if MayStore(a, va) then Store(va / 4096 % 0x800_0000, va % 4096, b) else Stay
    case Spawns(selector, requested) =>
      ev == if MaySpawn(a, selector) then Spawn(if selector == 0 then 4 else if selector == 1 then 11 else 12, requested) else Stay
    case Snapshots(frame) => ev == Stay || (MaySnapshot(a) && ev.Checkpoint? && ev.regs == frame)
    case _ => false
  }

  /** What a tick causes: the running payload is killed exactly when it is over its budget,
      and otherwise suspended exactly when input is waiting. */
  predicate TickAnswer(a: Sys, check: nat, frame: Regs, pending: Option<Byte>, ev: Event) {
    if !a.phase.Cpu? || a.phase.pid >= |a.procs| then ev == Stay
    else
      var info := a.procs[a.phase.pid].info;
      ev == if info.deadline != 0 && info.startedAt + info.deadline < check then Expire(check)
            else if pending.Some? then Preempt(frame) else Stay
  }

  /** The id is among the last eight executed. */
  predicate Executed(h: seq<Word>, op: Option<Word>) {
    op.Some? && exists k: nat :: k < |h| && |h| <= k + 8 && h[k] == op.value
  }

  predicate Waiting(a: Sys, pid: nat) { pid < |a.procs| && a.procs[pid].info.state == Pending }

  /** What a call by the operator causes, and which ids have been executed then: nothing while
      a payload is on the CPU; a suite is seeded exactly when nobody is alive and its id is
      new; a payload is killed, or its budget set, exactly when it waits and the id is new,
      and the id is used up either way. The end of the service window is the scheduler's. */
  predicate OperatorAnswer(a: Sys, h: seq<Word>, call: Call, ev: Event, h': seq<Word>) {
    match call
    case RunsSuite(op, list, forks) =>
      if a.phase.Cpu? || AnyAlive(a.procs) || Executed(h, op) then ev == Stay && h' == h
      else ev == Seed(list, forks) && h' == h + Recorded(op)
    case Kills(op, pid, now) =>
      if a.phase.Cpu? || Executed(h, op) then ev == Stay && h' == h
      else ev == (if Waiting(a, pid) then Kill(pid) else Stay) && h' == h + Recorded(op)
    case Budgets(op, pid, units) =>
      if a.phase.Cpu? || Executed(h, op) then ev == Stay && h' == h
      else ev == (if Waiting(a, pid) then Budget(pid, units) else Stay) && h' == h + Recorded(op)
    case Closes(now) =>
      && h' == h
      && if a.phase != Service then ev == Stay
         else (ev.Start? || ev.LoadFault? || ev.Resume? || ev.Restore? || ev.Finish?) && OnCpuAt(ev, now)
    case _ => false
  }

  predicate Answers(a: Sys, h: seq<Word>, call: Call, ev: Event, h': seq<Word>) {
    match call
    case Ticks(_, check, frame, pending) => TickAnswer(a, check, frame, pending, ev) && h' == h
    case RunsSuite(_, _, _) => OperatorAnswer(a, h, call, ev, h')
    case Kills(_, _, _) => OperatorAnswer(a, h, call, ev, h')
    case Budgets(_, _, _) => OperatorAnswer(a, h, call, ev, h')
    case Closes(_) => OperatorAnswer(a, h, call, ev, h')
    case _ => PayloadAnswer(a, call, ev) && h' == h
  }

  lemma AnyEmpty(procs: seq<Proc>)
    ensures First(procs, Empty).Some? <==> exists p: nat :: p < |procs| && procs[p].info.state == Empty
  {
    hide First;
  }

  lemma AnyFree(snaps: seq<Option<Snap>>)
    ensures FirstFree(snaps).Some? <==> exists i: nat :: i < |snaps| && snaps[i].None?
  {
    hide FirstFree;
  }

  lemma RecentIs(h: seq<Word>, last: seq<Word>, op: Option<Word>)
    requires last == if 8 < |h| then h[|h| - 8..] else h
    ensures Executed(h, op) <==> op.Some? && op.value in last
  {
    if op.Some? && op.value in last {
      var k: nat :| k < |last| && last[k] == op.value;
      assert h[if 8 < |h| then |h| - 8 + k else k] == op.value;
    }
    if k: nat :| op.Some? && k < |h| && |h| <= k + 8 && h[k] == op.value {
      assert last[if 8 < |h| then k - (|h| - 8) else k] == op.value;
    }
  }

  // ---- serving ------------------------------------------------------------

  /** The timer branch of `handle`: re-arm first, then check the running payload's budget,
      then let pending input suspend it. */
  method HandleTick(k: Kernel, t: Timer, now: nat, check: nat, frame: Regs, pending: Option<Byte>) returns (ghost ev: Event)
    requires k.Valid() && t.Valid() && |frame.gpr| == 31
    modifies k`table, k`estate, k`current, k`idle, k.pool, t
    ensures k.Valid() && t.Valid() && t.boot == old(t.boot)
    ensures t.ticks == old(t.ticks) + [Tick(old(t.nextDeadline), now, check)] && Rearmed(old(t.nextDeadline), now, t.nextDeadline)
    ensures Next(k.images, old(k.Abs()), ev, k.Abs()) && TickStep(old(k.Abs()), ev, check)
    ensures TickAnswer(old(k.Abs()), check, frame, pending, ev)
    ensures LostFrames(k.estate) == old(LostFrames(k.estate))
  {
    hide Kernel.Valid;
    hide Kernel.Abs;
    hide Procs;
    hide Snaps;
    hide Timer.Valid;
    hide Rearmed;
    hide Overdue;
    hide LostFrames;
    hide Next;
    hide Inv;
    hide TickStep;
    hide TickAnswer;
    k.ValidLength();
    k.ValidParts();
    ghost var a := k.Abs();
    RunningKnown(k.images, a);
    Unchanged(k.images, a);
    t.Rearm(now, check);
    var killed := k.OnTick(check);
    TickIs(k.images, a, check, frame, pending, killed);
    if killed {
      return Expire(check);
    }
    k.ValidLength();
    k.ValidParts();
    var suspended := k.MaybePreempt(frame, pending);
    return if suspended then Preempt(frame) else Stay;
  }

  lemma TickIs(imgs: seq<Image>, a: Sys, check: nat, frame: Regs, pending: Option<Byte>, killed: bool)
    requires Inv(imgs, a)
    requires killed <==> a.phase.Cpu? && a.phase.pid < |a.procs| && var info := a.procs[a.phase.pid].info;
                         info.deadline != 0 && check > info.startedAt + info.deadline
    ensures var ev := if killed then Expire(check) else if a.phase.Cpu? && pending.Some? then Preempt(frame) else Stay;
      TickAnswer(a, check, frame, pending, ev) && TickStep(a, ev, check)
  {
    hide TableOk;
    hide SnapsOk;
  }

  lemma Unchanged(imgs: seq<Image>, a: Sys)
    requires |a.procs| == MAX_PROC && |a.snaps| == MAX_SNAP
    ensures Next(imgs, a, Stay, a)
  {
  }

  /** A call made by a payload, in its syscalls, stores and faults. A checkpoint that could
      have been taken is refused only when there is no room for it. */
  method ServePayload(k: Kernel, call: Call) returns (ghost ev: Event)
    requires k.Valid() && Fits(call, |k.images|)
    requires call.Exits? || call.Faults? || call.Stores? || call.Spawns? || call.Snapshots?
    modifies k, k.pool
    ensures k.Valid() && Next(k.images, old(k.Abs()), ev, k.Abs()) && PayloadAnswer(old(k.Abs()), call, ev)
    ensures call.Snapshots? && MaySnapshot(old(k.Abs())) && ev == Stay ==> old(k.current.Some? && k.NoRoomFor(SlotOwner(k.current.value)))
    ensures LostFrames(k.estate) == old(LostFrames(k.estate))
  {
    hide Kernel.Valid;
    hide Kernel.Abs;
    hide Procs;
    hide Snaps;
    hide LostFrames;
    hide Inv;
    hide First;
    hide FirstFree;
    hide Kernel.NoRoomFor;
    hide Lookup;
    hide MayStore;
    hide Next;
    k.ValidLength();
    k.ValidParts();
    ghost var a := k.Abs();
    Unchanged(k.images, a);
    AnyEmpty(a.procs);
    AnyFree(a.snaps);
    RunningKnown(k.images, a);
    ev := Stay;
    if k.current.None? {
      NotStoring(a, call);
      return;
    }
    match call {
      case Exits(code) =>
        k.OnExit(code);
        ev := Exit(code);
      case Faults =>
        k.MarkFaulted();
        ev := Fault;
      case Stores(va, b) =>
        var done := k.UserStore(va, b);
        ev := if done then Store(PageOf(va), va % PAGE_SIZE, b) else Stay;
      case Spawns(selector, requested) =>
        var r := k.OnSpawn(selector, requested);
        ev := if r >= 0 then Spawn(if selector == 0 then 4 else if selector == 1 then 11 else 12, requested) else Stay;
      case Snapshots(frame) =>
        var r := k.OnSnapshot(frame);
        ev := if r > 0 then Machine.Checkpoint(r - 1, frame) else Stay;
      case _ =>
    }
  }

  lemma RunningKnown(imgs: seq<Image>, a: Sys)
    requires Inv(imgs, a)
    ensures a.phase.Cpu? ==> a.phase.pid < |a.procs|
  {
  }

  lemma NotStoring(a: Sys, call: Call)
    requires !a.phase.Cpu?
    ensures call.Stores? ==> !MayStore(a, call.va)
  {
  }

  /** The event may cost frames: a suite is seeded over memory still held, or an image that
      loses frames is loaded. */
  ghost predicate MayLose(imgs: seq<Image>, a: Sys, ev: Event) {
    || (ev.Seed? && !HoldNothing(a.procs))
    || LoadsLossy(imgs, a, ev)
  }

  ghost predicate LoadsLossy(imgs: seq<Image>, a: Sys, ev: Event) {
    && (ev.Start? || ev.LoadFault?) && ev.pid < |a.procs| && a.procs[ev.pid].info.image < |imgs|
    && Loses(imgs[a.procs[ev.pid].info.image].elf, BLANK)
  }

  /** How the lost frames change with an event: they never come back, are only lost by events
      that may lose, and always by those unless a load is refused. */
  ghost predicate LossStep(imgs: seq<Image>, a: Sys, ev: Event, before: set<nat>, after: set<nat>) {
    && before <= after
    && (before != after ==> MayLose(imgs, a, ev))
    && (MayLose(imgs, a, ev) && !ev.LoadFault? ==> before != after)
  }

  lemma LossElse(imgs: seq<Image>, a: Sys, ev: Event, before: set<nat>, after: set<nat>)
    requires !ev.Start? && !ev.LoadFault? && before <= after
    requires before == after <==> !ev.Seed? || HoldNothing(a.procs)
    ensures LossStep(imgs, a, ev, before, after)
  {
    hide HoldNothing;
  }

  /** The service window ends. */
  method ServeClose(k: Kernel, now: nat) returns (ghost ev: Event)
    requires k.Valid() && k.current.None? && !k.idle
    modifies k, k.pool
    ensures k.Valid() && Next(k.images, old(k.Abs()), ev, k.Abs()) && OnCpuAt(ev, now)
    ensures ev.Start? || ev.LoadFault? || ev.Resume? || ev.Restore? || ev.Finish?
    ensures LossStep(k.images, old(k.Abs()), ev, old(LostFrames(k.estate)), LostFrames(k.estate))
  {
    hide Kernel.Valid;
    hide Kernel.Abs;
    hide Procs;
    hide Snaps;
    hide LostFrames;
    hide HoldNothing;
    hide Loses;
    hide Next;
    hide Inv;
    hide Kernel.Excused;
    hide Kernel.MayRunShort;
    k.ValidLength();
    k.ValidParts();
    ev := k.CloseWindow(now);
  }

  /** One of the mutating tools, while no payload is on the CPU. */
  method ServeTool(k: Kernel, ops: OpWindow, call: Call) returns (ghost ev: Event)
    requires k.Valid() && ops.Valid() && Fits(call, |k.images|) && k.current.None?
    requires call.RunsSuite? || call.Kills? || call.Budgets?
    modifies k, k.pool, ops.ring, ops.ring.slots
    ensures k.Valid() && ops.Valid() && Next(k.images, old(k.Abs()), ev, k.Abs())
    ensures OperatorAnswer(old(k.Abs()), old(ops.ring.history), call, ev, ops.ring.history)
    ensures ev.Seed? || LostFrames(k.estate) == old(LostFrames(k.estate))
    ensures ev.Seed? ==> old(LostFrames(k.estate)) <= LostFrames(k.estate)
    ensures ev.Seed? ==> (LostFrames(k.estate) == old(LostFrames(k.estate)) <==> HoldNothing(old(k.Abs()).procs))
  {
    hide Kernel.Valid;
    hide Kernel.Abs;
    hide Procs;
    hide Snaps;
    hide OpWindow.Valid;
    hide LostFrames;
    hide HoldNothing;
    hide AnyAlive;
    hide Inv;
    hide Next;
    hide Executed;
    k.ValidLength();
    k.ValidParts();
    Unchanged(k.images, k.Abs());
    RecentIs(ops.ring.history, ops.ring.Last(OP_SLOTS), call.op);
    match call {
      case RunsSuite(op, list, forks) =>
        var r := RunSuite(k, ops, op, list, forks);
        ev := if r == Accepted then Seed(list, forks) else Stay;
      case Kills(op, pid, now) =>
        var r := KillTool(k, ops, op, pid, now);
        ev := if r.KilledAfter? then Kill(pid) else Stay;
      case Budgets(op, pid, units) =>
        var r := BudgetTool(k, ops, op, pid, units);
        ev := if r == BudgetSet then Budget(pid, units) else Stay;
    }
  }

  /** A call made by the operator, or the end of the service window, while no payload is on
      the CPU; otherwise the call waits and nothing happens. */
  method ServeOperator(k: Kernel, ops: OpWindow, call: Call) returns (ghost ev: Event)
    requires k.Valid() && ops.Valid() && Fits(call, |k.images|)
    requires call.RunsSuite? || call.Kills? || call.Budgets? || call.Closes?
    modifies k, k.pool, ops.ring, ops.ring.slots
    ensures k.Valid() && ops.Valid() && Next(k.images, old(k.Abs()), ev, k.Abs())
    ensures OperatorAnswer(old(k.Abs()), old(ops.ring.history), call, ev, ops.ring.history)
    ensures LossStep(k.images, old(k.Abs()), ev, old(LostFrames(k.estate)), LostFrames(k.estate))
  {
    hide Kernel.Valid;
    hide Kernel.Abs;
    hide Procs;
    hide Snaps;
    hide OpWindow.Valid;
    hide LostFrames;
    hide HoldNothing;
    hide Loses;
    hide AnyAlive;
    hide Executed;
    hide LossStep;
    hide Inv;
    hide Next;
    k.ValidLength();
    k.ValidParts();
    ghost var a, before := k.Abs(), LostFrames(k.estate);
    if k.current.Some? || (call.Closes? && k.idle) {
      Unchanged(k.images, a);
      ev := Stay;
      LossElse(k.images, a, ev, before, before);
    } else if call.Closes? {
      ev := ServeClose(k, call.now);
    } else {
      ev := ServeTool(k, ops, call);
      SameCall(a, call, ev);
      LossElse(k.images, a, ev, before, LostFrames(k.estate));
    }
  }

  lemma SameCall(a: Sys, call: Call, ev: Event)
    requires call.RunsSuite? || call.Kills? || call.Budgets?
    ensures forall h, h' :: OperatorAnswer(a, h, call, ev, h') ==> !ev.Start? && !ev.LoadFault?
  {
    hide AnyAlive;
    hide Executed;
  }

  /** Any call. Only a tick touches the timer. */
  method Serve(k: Kernel, t: Timer, ops: OpWindow, call: Call) returns (ghost ev: Event)
    requires k.Valid() && t.Valid() && ops.Valid() && Fits(call, |k.images|)
    modifies k, k.pool, t, ops.ring, ops.ring.slots
    ensures k.Valid() && t.Valid() && ops.Valid() && t.boot == old(t.boot)
    ensures Next(k.images, old(k.Abs()), ev, k.Abs())
    ensures LossStep(k.images, old(k.Abs()), ev, old(LostFrames(k.estate)), LostFrames(k.estate))
    ensures if call.Ticks? then TickStep(old(k.Abs()), ev, call.check) && t.ticks == old(t.ticks) + [Tick(old(t.nextDeadline), call.now, call.check)]
            else t.ticks == old(t.ticks)
    ensures Answers(old(k.Abs()), old(ops.ring.history), call, ev, ops.ring.history)
    ensures call.Snapshots? && MaySnapshot(old(k.Abs())) && ev == Stay ==> old(k.current.Some? && k.NoRoomFor(SlotOwner(k.current.value)))
  {
    hide Kernel.Valid;
    hide Kernel.Abs;
    hide Procs;
    hide Snaps;
    hide Timer.Valid;
    hide TickAnswer;
    hide OperatorAnswer;
    hide MaySnapshot;
    hide MayStore;
    hide MaySpawn;
    hide Kernel.NoRoomFor;
    hide OpWindow.Valid;
    hide Next;
    hide Inv;
    hide LostFrames;
    hide LossStep;
    hide Rearmed;
    hide Overdue;
    k.ValidLength();
    ghost var a, before := k.Abs(), LostFrames(k.estate);
    match call {
      case Ticks(now, check, frame, pending) =>
        ev := HandleTick(k, t, now, check, frame, pending);
        LossElse(k.images, a, ev, before, before);
      case RunsSuite(_, _, _) => ev := ServeOperator(k, ops, call);
      case Kills(_, _, _) => ev := ServeOperator(k, ops, call);
      case Budgets(_, _, _) => ev := ServeOperator(k, ops, call);
      case Closes(_) => ev := ServeOperator(k, ops, call);
      case _ =>
        ev := ServePayload(k, call);
        LossElse(k.images, a, ev, before, before);
    }
  }

  // ---- whole executions ---------------------------------------------------

  /** No event of the run may lose frames. */
  ghost predicate Lossless(imgs: seq<Image>, ss: seq<Sys>, evs: seq<Event>)
    requires |ss| == |evs| + 1
  {
    forall i: nat :: i < |evs| ==> !MayLose(imgs, ss[i], evs[i])
  }

  /** Some event of the run lost frames for certain. */
  ghost predicate SurelyLossy(imgs: seq<Image>, ss: seq<Sys>, evs: seq<Event>)
    requires |ss| == |evs| + 1
  {
    exists i: nat :: i < |evs| && MayLose(imgs, ss[i], evs[i]) && !evs[i].LoadFault?
  }

  /** Tick `k` is call `at[k]`. */
  ghost predicate TickCalls(calls: seq<Call>, at: seq<nat>, ticks: seq<Tick>) {
    && |at| == |ticks|
    && forall k: nat :: k < |at| ==> TickCall(calls, at[k], ticks[k])
  }

  ghost predicate TickCall(calls: seq<Call>, i: nat, tick: Tick) {
    i < |calls| && calls[i].Ticks? && tick.now == calls[i].now && tick.check == calls[i].check
  }

  ghost predicate CloseCalls(calls: seq<Call>, evs: seq<Event>) {
    && |evs| <= |calls|
    && forall i: nat :: i < |evs| ==> CloseCall(calls[i], evs[i])
  }

  ghost predicate CloseCall(call: Call, ev: Event) {
    OnCpuSince(ev).None? || (call.Closes? && OnCpuSince(ev) == Some(call.now))
  }

  /** Call by call, what it caused: `hs` are the ids executed so far, and every tick is in
      `at`. */
  ghost predicate Answered(calls: seq<Call>, ss: seq<Sys>, hs: seq<seq<Word>>, evs: seq<Event>, at: seq<nat>) {
    && |ss| == |hs| == |evs| + 1 && |evs| <= |calls| && hs[0] == []
    && forall i: nat :: i < |evs| ==> Answers(ss[i], hs[i], calls[i], evs[i], hs[i + 1]) && (calls[i].Ticks? ==> i in at)
  }

  lemma AnsweredLonger(calls: seq<Call>, ss: seq<Sys>, hs: seq<seq<Word>>, evs: seq<Event>, at: seq<nat>, ev: Event, b: Sys, h: seq<Word>, at': seq<nat>)
    requires Answered(calls, ss, hs, evs, at) && |evs| < |calls| && Answers(ss[|evs|], hs[|evs|], calls[|evs|], ev, h)
    requires (forall i: nat :: i in at ==> i in at') && (calls[|evs|].Ticks? ==> |evs| in at')
    ensures Answered(calls, ss + [b], hs + [h], evs + [ev], at')
  {
    hide Answers;
    var ss', hs', evs' := ss + [b], hs + [h], evs + [ev];
    forall i: nat | i < |evs'| ensures Answers(ss'[i], hs'[i], calls[i], evs'[i], hs'[i + 1]) && (calls[i].Ticks? ==> i in at') {
      if i < |evs| {
        assert Answers(ss[i], hs[i], calls[i], evs[i], hs[i + 1]);
      }
    }
  }

  /** A payload is only ever put on the CPU by the end of the service window, then. */
  lemma OnlyCloses(calls: seq<Call>, ss: seq<Sys>, hs: seq<seq<Word>>, evs: seq<Event>, at: seq<nat>)
    requires Answered(calls, ss, hs, evs, at)
    ensures CloseCalls(calls, evs)
  {
    forall i: nat | i < |evs| ensures CloseCall(calls[i], evs[i]) {
      ClosesStart(ss[i], hs[i], calls[i], evs[i], hs[i + 1]);
    }
  }

  lemma ClosesStart(a: Sys, h: seq<Word>, call: Call, ev: Event, h': seq<Word>)
    requires Answers(a, h, call, ev, h')
    ensures CloseCall(call, ev)
  {
    hide AnyAlive;
    hide Executed;
    hide MayStore;
    hide MaySpawn;
    hide MaySnapshot;
  }

  /** The clock readings a call makes, first and last. */
  function Readings(call: Call): Option<(nat, nat)> {
    match call
    case Ticks(now, check, _, _) => Some((now, check))
    case Kills(_, _, now) => Some((now, now))
    case Closes(now) => Some((now, now))
    case _ => None
  }

  /** Read in the order of the calls, the clock starts at `boot` and never goes back. */
  predicate ClockRuns(boot: nat, calls: seq<Call>) {
    && (forall i: nat :: i < |calls| && Readings(calls[i]).Some? ==> boot <= Readings(calls[i]).value.0 <= Readings(calls[i]).value.1)
    && (forall i: nat, j: nat :: i < j < |calls| && Readings(calls[i]).Some? && Readings(calls[j]).Some? ==>
          Readings(calls[i]).value.1 <= Readings(calls[j]).value.0)
  }

  lemma ClockKept(boot: nat, calls: seq<Call>, evs: seq<Event>, at: seq<nat>, ticks: seq<Tick>)
    requires ClockRuns(boot, calls) && TickCalls(calls, at, ticks) && CloseCalls(calls, evs) && Increasing(at)
    ensures ClockForward(evs, boot, at, ticks) && OneByOne(ticks)
  {
    forall k: nat, j: nat | k < j < |ticks| ensures ticks[k].check <= ticks[j].now {
      assert Readings(calls[at[k]]).Some? && Readings(calls[at[j]]).Some?;
    }
    forall i: nat, k: nat | i < |evs| && OnCpuSince(evs[i]).Some? && k < |at| && at[k] < i
      ensures ticks[k].check <= OnCpuSince(evs[i]).value
    {
      assert Readings(calls[at[k]]).Some? && Readings(calls[i]).Some?;
    }
  }

  /** The record of an execution: a run of the machine, its ticks in it, and what it lost. */
  ghost predicate Lived(imgs: seq<Image>, ss: seq<Sys>, evs: seq<Event>, at: seq<nat>, ticks: seq<Tick>, lost: set<nat>) {
    && IsRun(imgs, ss, evs) && TicksIn(imgs, ss, evs, at, ticks)
    && (Lossless(imgs, ss, evs) ==> lost == {})
    && (SurelyLossy(imgs, ss, evs) ==> lost != {})
  }

  lemma BootLived(imgs: seq<Image>)
    ensures Lived(imgs, [BootSys()], [], [], [], {})
  {
  }

  lemma LossLonger(imgs: seq<Image>, ss: seq<Sys>, evs: seq<Event>, lost: set<nat>, ev: Event, b: Sys, lost': set<nat>)
    requires |ss| == |evs| + 1 && LossStep(imgs, ss[|evs|], ev, lost, lost')
    requires (Lossless(imgs, ss, evs) ==> lost == {}) && (SurelyLossy(imgs, ss, evs) ==> lost != {})
    ensures (Lossless(imgs, ss + [b], evs + [ev]) ==> lost' == {}) && (SurelyLossy(imgs, ss + [b], evs + [ev]) ==> lost' != {})
  {
    hide MayLose;
    var ss', evs' := ss + [b], evs + [ev];
    if Lossless(imgs, ss', evs') {
      forall i: nat | i < |evs| ensures !MayLose(imgs, ss[i], evs[i]) {
        assert ss'[i] == ss[i] && evs'[i] == evs[i];
      }
      assert evs'[|evs|] == ev && ss'[|evs|] == ss[|evs|];
    }
    if SurelyLossy(imgs, ss', evs') {
      var i: nat :| i < |evs'| && MayLose(imgs, ss'[i], evs'[i]) && !evs'[i].LoadFault?;
      if i < |evs| {
        assert ss'[i] == ss[i] && evs'[i] == evs[i];
        assert SurelyLossy(imgs, ss, evs);
      }
    }
  }

  lemma RunLonger(imgs: seq<Image>, ss: seq<Sys>, evs: seq<Event>, ev: Event, b: Sys)
    requires IsRun(imgs, ss, evs) && Next(imgs, ss[|evs|], ev, b)
    ensures IsRun(imgs, ss + [b], evs + [ev])
  {
    hide Next;
  }

  lemma TicksLonger(imgs: seq<Image>, ss: seq<Sys>, evs: seq<Event>, at: seq<nat>, ticks: seq<Tick>, ev: Event, b: Sys, tick: Option<Tick>)
    requires TicksIn(imgs, ss, evs, at, ticks) && Next(imgs, ss[|evs|], ev, b)
    requires tick.Some? ==> TickStep(ss[|evs|], ev, tick.value.check)
    ensures TicksIn(imgs, ss + [b], evs + [ev], if tick.Some? then at + [|evs|] else at, if tick.Some? then ticks + [tick.value] else ticks)
  {
    hide Next;
    hide TickStep;
    RunLonger(imgs, ss, evs, ev, b);
    var ss', evs' := ss + [b], evs + [ev];
    forall i: nat | i < |evs| ensures ss'[i] == ss[i] && evs'[i] == evs[i] {
    }
    hide IsRun;
  }

  lemma LivedLonger(imgs: seq<Image>, ss: seq<Sys>, evs: seq<Event>, at: seq<nat>, ticks: seq<Tick>, lost: set<nat>,
                    ev: Event, b: Sys, lost': set<nat>, tick: Option<Tick>)
    requires Lived(imgs, ss, evs, at, ticks, lost) && Next(imgs, ss[|evs|], ev, b) && LossStep(imgs, ss[|evs|], ev, lost, lost')
    requires tick.Some? ==> TickStep(ss[|evs|], ev, tick.value.check)
    ensures Lived(imgs, ss + [b], evs + [ev], if tick.Some? then at + [|evs|] else at, if tick.Some? then ticks + [tick.value] else ticks, lost')
  {
    hide Next;
    hide TickStep;
    hide LossStep;
    hide Lossless;
    hide SurelyLossy;
    RunLonger(imgs, ss, evs, ev, b);
    TicksLonger(imgs, ss, evs, at, ticks, ev, b, tick);
    LossLonger(imgs, ss, evs, lost, ev, b, lost');
    hide TicksIn;
    hide IsRun;
  }

  /** Which runs may lose nothing: those in which no suite is seeded while a killed payload
      waits to be reaped, and no image is loaded that loses frames. */
  lemma LosslessExact(imgs: seq<Image>, ss: seq<Sys>, evs: seq<Event>)
    requires IsRun(imgs, ss, evs)
    ensures Lossless(imgs, ss, evs) <==>
      && (forall i: nat :: i < |evs| && evs[i].Seed? ==> !KilledUnreaped(ss, evs, i))
      && (forall i: nat :: i < |evs| ==> !LoadsLossy(imgs, ss[i], evs[i]))
  {
    hide Next;
    hide KilledUnreaped;
    hide HoldNothing;
    hide Loses;
    forall i: nat | i < |evs| && evs[i].Seed? ensures !HoldNothing(ss[i].procs) <==> KilledUnreaped(ss, evs, i) {
      SeedLoss(imgs, ss, evs, i);
    }
    forall i: nat | i < |evs|
      ensures MayLose(imgs, ss[i], evs[i]) <==> (evs[i].Seed? && KilledUnreaped(ss, evs, i)) || LoadsLossy(imgs, ss[i], evs[i])
    {
    }
  }

  /** With images that cannot lose frames, only a killed payload that was not reaped can. */
  lemma TidyLossless(imgs: seq<Image>, ss: seq<Sys>, evs: seq<Event>)
    requires IsRun(imgs, ss, evs) && forall i: nat :: i < |imgs| ==> ImageOk(imgs[i]) && TidyImage(imgs[i].elf)
    ensures Lossless(imgs, ss, evs) <==> forall i: nat :: i < |evs| && evs[i].Seed? ==> !KilledUnreaped(ss, evs, i)
  {
    hide Next;
    hide KilledUnreaped;
    hide TidyImage;
    hide Loses;
    hide Lossless;
    forall i: nat | i < |imgs| ensures !Loses(imgs[i].elf, BLANK) {
      TidyNeverLoses(imgs[i].elf, BLANK);
    }
    LosslessExact(imgs, ss, evs);
  }

  /** Boot, then serve the calls one by one. */
  method Run(imgs: seq<Image>, boot: nat, calls: seq<Call>)
    returns (k: Kernel, t: Timer, ops: OpWindow, ghost ss: seq<Sys>, ghost hs: seq<seq<Word>>, ghost evs: seq<Event>, ghost at: seq<nat>)
    requires 13 <= |imgs| && forall i: nat :: i < |imgs| ==> ImageOk(imgs[i])
    requires forall i: nat :: i < |calls| ==> Fits(calls[i], |imgs|)
    ensures k.Valid() && k.images == imgs && t.Valid() && t.boot == boot && ops.Valid() && |k.pool.mem| == POOL_FRAMES
    ensures |evs| == |calls| && |ss| == |hs| == |evs| + 1 && ss[|evs|] == k.Abs() && hs[|evs|] == ops.ring.history
    ensures Lived(imgs, ss, evs, at, t.ticks, LostFrames(k.estate)) && TickCalls(calls, at, t.ticks) && Answered(calls, ss, hs, evs, at)
  {
    hide Kernel.Valid;
    hide Kernel.Abs;
    hide Procs;
    hide Snaps;
    hide OpWindow.Valid;
    hide Timer.Valid;
    hide Next;
    hide LostFrames;
    hide LossStep;
    hide Lived;
    hide TickStep;
    hide Fits;
    hide TickCalls;
    hide Answered;
    hide Answers;
    hide MaySnapshot;
    hide Kernel.NoRoomFor;
    k := new Kernel(imgs);
    t := new Timer.ArmFirstTick(boot);
    ops := new OpWindow();
    k.ValidLength();
    ss, hs, evs, at := [k.Abs()], [ops.ring.history], [], [];
    BootLived(imgs);
    NoCalls(calls, k.Abs());
    for i := 0 to |calls|
      invariant k.Valid() && k.images == imgs && t.Valid() && t.boot == boot && ops.Valid() && |k.pool.mem| == POOL_FRAMES
      invariant fresh(k) && fresh(k.pool) && fresh(t) && fresh(ops.ring) && fresh(ops.ring.slots)
      invariant |evs| == i && |ss| == |hs| == i + 1 && ss[i] == k.Abs() && hs[i] == ops.ring.history
      invariant Lived(imgs, ss, evs, at, t.ticks, LostFrames(k.estate)) && TickCalls(calls, at, t.ticks) && Answered(calls, ss, hs, evs, at)
    {
      ghost var lost, ticks := LostFrames(k.estate), t.ticks;
      ghost var tick := if calls[i].Ticks? then Some(Tick(t.nextDeadline, calls[i].now, calls[i].check)) else None;
      ghost var ev := Serve(k, t, ops, calls[i]);
      k.ValidLength();
      LivedLonger(imgs, ss, evs, at, ticks, lost, ev, k.Abs(), LostFrames(k.estate), tick);
      if tick.Some? {
        TickCallsLonger(calls, at, ticks, i, tick.value);
      }
      ghost var at' := if calls[i].Ticks? then at + [i] else at;
      AnsweredLonger(calls, ss, hs, evs, at, ev, k.Abs(), ops.ring.history, at');
      ss, hs, evs, at := ss + [k.Abs()], hs + [ops.ring.history], evs + [ev], at';
    }
  }

  lemma NoCalls(calls: seq<Call>, a: Sys)
    ensures TickCalls(calls, [], []) && Answered(calls, [a], [[]], [], [])
  {
  }

  lemma TickCallsLonger(calls: seq<Call>, at: seq<nat>, ticks: seq<Tick>, i: nat, tick: Tick)
    requires TickCalls(calls, at, ticks) && TickCall(calls, i, tick)
    ensures TickCalls(calls, at + [i], ticks + [tick])
  {
    hide TickCall;
  }

  /** The kernel boots and serves any calls whatever, in any order. The execution is a run of
      the machine, in which each call causes what it should, so every theorem about runs holds
      of it. The timer keeps its cadence over it, so the deadline bound holds of it when ticks
      come in time. No frame is lost unless an event may lose one, and every event that
      certainly does leaves its mark. When nothing may be lost, the idle kernel without
      checkpoints holds its root alone, as at boot. */
  method Drive(imgs: seq<Image>, boot: nat, calls: seq<Call>)
    returns (k: Kernel, t: Timer, ops: OpWindow, ghost ss: seq<Sys>, ghost hs: seq<seq<Word>>, ghost evs: seq<Event>, ghost at: seq<nat>)
    requires 13 <= |imgs| && forall i: nat :: i < |imgs| ==> ImageOk(imgs[i])
    requires forall i: nat :: i < |calls| ==> Fits(calls[i], |imgs|)
    ensures k.Valid() && k.images == imgs && t.Valid() && t.boot == boot && ops.Valid()
    ensures |evs| == |calls| && IsRun(imgs, ss, evs) && ss[|evs|] == k.Abs()
    ensures Answered(calls, ss, hs, evs, at) && hs[|evs|] == ops.ring.history
    ensures TickCalls(calls, at, t.ticks) && CloseCalls(calls, evs) && TicksIn(imgs, ss, evs, at, t.ticks)
    ensures forall late :: ClockRuns(boot, calls) && Punctual(t.ticks, late) ==> Timed(imgs, ss, evs, boot, at, t.ticks, t.nextDeadline, late)
    ensures Lossless(imgs, ss, evs) ==> LostFrames(k.estate) == {}
    ensures SurelyLossy(imgs, ss, evs) ==> LostFrames(k.estate) != {}
    ensures Lossless(imgs, ss, evs) && k.Abs().phase == Idle && k.Abs().snaps == seq(MAX_SNAP, i => None) ==>
      k.pool.used == {FrameAt(k.kernelRoot)} && k.pool.liveCount == 1
  {
    hide Kernel.Valid;
    hide Kernel.Abs;
    hide Procs;
    hide Snaps;
    hide OpWindow.Valid;
    hide Next;
    hide Inv;
    hide LostFrames;
    hide Lived;
    hide TicksIn;
    hide Ticking;
    hide Timed;
    hide ClockForward;
    hide ClockRuns;
    hide Chained;
    hide TickCalls;
    hide CloseCalls;
    hide Answered;
    hide HeldBySnap;
    k, t, ops, ss, hs, evs, at := Run(imgs, boot, calls);
    Told(imgs, ss, evs, at, t.ticks, LostFrames(k.estate));
    OnlyCloses(calls, ss, hs, evs, at);
    hide Lossless;
    hide SurelyLossy;
    hide IsRun;
    if ClockRuns(boot, calls) {
      AllTimed(imgs, boot, calls, ss, evs, at, t.ticks, t.nextDeadline);
    }
    if LostFrames(k.estate) == {} && k.Abs().phase == Idle {
      k.ValidParts();
      k.IdleAccounts();
    }
  }

  lemma AllTimed(imgs: seq<Image>, boot: nat, calls: seq<Call>, ss: seq<Sys>, evs: seq<Event>, at: seq<nat>, ticks: seq<Tick>, next: nat)
    requires ClockRuns(boot, calls) && TickCalls(calls, at, ticks) && CloseCalls(calls, evs)
    requires TicksIn(imgs, ss, evs, at, ticks) && Chained(boot, ticks, next)
    ensures forall late :: Punctual(ticks, late) ==> Timed(imgs, ss, evs, boot, at, ticks, next, late)
  {
    hide IsRun;
    hide TickStep;
    hide Chained;
    ClockKept(boot, calls, evs, at, ticks);
  }

  lemma Told(imgs: seq<Image>, ss: seq<Sys>, evs: seq<Event>, at: seq<nat>, ticks: seq<Tick>, lost: set<nat>)
    requires Lived(imgs, ss, evs, at, ticks, lost)
    ensures IsRun(imgs, ss, evs) && TicksIn(imgs, ss, evs, at, ticks)
    ensures (Lossless(imgs, ss, evs) ==> lost == {}) && (SurelyLossy(imgs, ss, evs) ==> lost != {})
  {
  }
}
