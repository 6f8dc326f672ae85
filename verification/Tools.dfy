/** The mutating operator tools (kernel/src/rpc.rs, `handle_tools_call`), served while no
    payload is on the CPU. Each is refused, or executed exactly once per operation id. */
module Tools {
  import opened Words
  import opened FramePool
  import opened Machine
  import opened Estate
  import opened Kernel
  import opened Rings

  datatype Answer = Busy | Duplicate | NotAlive | Accepted | KilledAfter(elapsed: nat) | BudgetSet

  /** The id was executed among the last eight recorded ones. */
  ghost predicate Recent(ops: OpWindow, op: Option<Word>)
    reads ops, ops.ring
  {
    op.Some? && op.value in ops.ring.Last(OP_SLOTS)
  }

  /** What is recorded once a call has got past the gate. */
  function Recorded(op: Option<Word>): seq<Word> { if op.Some? then [op.value] else [] }

  /** `run_suite`: refused as busy while any payload is alive, before the id is looked at;
      then refused as a duplicate if the id is recent; else the id is recorded and the suite
      seeded. */
  method RunSuite(k: Kernel, ops: OpWindow, op: Option<Word>, list: seq<nat>, forks: nat) returns (r: Answer)
    requires k.Valid() && ops.Valid() && op != Some(0) && k.current.None?
    requires forall i :: 0 <= i < |list| ==> list[i] < |k.images|
    modifies k`table, k`snaps, k`estate, k`lastSnap, k`autoFork, k`idle, k.pool`bitmap, k.pool`liveCount, k.pool`used, ops.ring, ops.ring.slots
    ensures k.Valid() && ops.Valid() && r in {Busy, Duplicate, Accepted}
    ensures r == Busy <==> AnyAlive(old(k.Abs()).procs)
    ensures r == Duplicate <==> r != Busy && old(Recent(ops, op))
    ensures ops.ring.history == old(ops.ring.history) + if r == Accepted then Recorded(op) else []
    ensures r == Accepted ==> Next(k.images, old(k.Abs()), Seed(list, forks), k.Abs())
    ensures r == Accepted ==> old(LostFrames(k.estate)) <= LostFrames(k.estate)
    ensures r == Accepted ==> (LostFrames(k.estate) == old(LostFrames(k.estate)) <==> HoldNothing(old(k.Abs()).procs))
    ensures r != Accepted ==> k.Abs() == old(k.Abs()) && LostFrames(k.estate) == old(LostFrames(k.estate))
  {
    hide Kernel.Valid;
    hide OpWindow.Valid;
    hide AnyAlive;
    hide Next;
    hide HoldNothing;
    hide LostFrames;
    k.ValidLength();
    var busy := k.IsBusy();
    if busy {
      return Busy;
    }
    var execute := ops.Admit(op);
    if !execute {
      return Duplicate;
    }
    k.SeedSuite(list, forks);
    return Accepted;
  }

  /** `kill`: the gate comes first, so the id of a refused kill is recorded too. */
  method KillTool(k: Kernel, ops: OpWindow, op: Option<Word>, pid: nat, now: nat) returns (r: Answer)
    requires k.Valid() && ops.Valid() && op != Some(0) && k.current.None?
    modifies k`table, ops.ring, ops.ring.slots
    ensures k.Valid() && ops.Valid() && (r == Duplicate || r == NotAlive || r.KilledAfter?)
    ensures r == Duplicate <==> old(Recent(ops, op))
    ensures r == NotAlive <==> r != Duplicate && !old(pid < |k.table| && k.table[pid].info.state == Pending)
    ensures ops.ring.history == old(ops.ring.history) + if r != Duplicate then Recorded(op) else []
    ensures r.KilledAfter? ==> var t := old(k.table)[pid].info.startedAt; r.elapsed == if t == 0 || now < t then 0 else now - t
    ensures if r.KilledAfter? then Next(k.images, old(k.Abs()), Kill(pid), k.Abs()) else k.Abs() == old(k.Abs())
  {
    hide Kernel.Valid;
    hide OpWindow.Valid;
    hide Next;
    k.ValidLength();
    var execute := ops.Admit(op);
    if !execute {
      return Duplicate;
    }
    var elapsed := k.KillPid(pid, now);
    return if elapsed.Some? then KilledAfter(elapsed.value) else NotAlive;
  }

  /** `set_budget`. */
  method BudgetTool(k: Kernel, ops: OpWindow, op: Option<Word>, pid: nat, units: nat) returns (r: Answer)
    requires k.Valid() && ops.Valid() && op != Some(0) && k.current.None?
    modifies k`table, ops.ring, ops.ring.slots
    ensures k.Valid() && ops.Valid() && (r == Duplicate || r == NotAlive || r == BudgetSet)
    ensures r == Duplicate <==> old(Recent(ops, op))
    ensures r == NotAlive <==> r != Duplicate && !old(pid < |k.table| && k.table[pid].info.state == Pending)
    ensures ops.ring.history == old(ops.ring.history) + if r != Duplicate then Recorded(op) else []
    ensures if r == BudgetSet then Next(k.images, old(k.Abs()), Budget(pid, units), k.Abs()) else k.Abs() == old(k.Abs())
  {
    hide Kernel.Valid;
    hide OpWindow.Valid;
    hide Next;
    k.ValidLength();
    var execute := ops.Admit(op);
    if !execute {
      return Duplicate;
    }
    var done := k.SetDeadline(pid, units);
    return if done then BudgetSet else NotAlive;
  }
}
