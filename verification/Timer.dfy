/** The timer tick (kernel/src/traps.rs, `arm_first_tick` and the tick branch of `handle`)
    and the bound it puts on a payload's time on the CPU. */
module Timer {
  import opened Machine
  import opened Invariant
  import opened Runs
  import opened Effects

  const TICK_INTERVAL: nat := 10_000

  /** One tick: armed for `armed`, serviced at `now`, with the budget of the running payload
      checked at `check`. The handler reads the clock twice. */
  datatype Tick = Tick(armed: nat, now: nat, check: nat)

  /** What re-arming promises: never sooner than one interval after the last deadline, always
      in the future, and on the exact cadence unless a whole interval was missed. */
  predicate Rearmed(armed: nat, now: nat, next: nat) {
    && armed + TICK_INTERVAL <= next
    && now < next
    && (armed <= now ==> next <= now + TICK_INTERVAL)
    && (next == armed + TICK_INTERVAL <==> now < armed + TICK_INTERVAL)
  }

  /** When the tick after the first `n` is due. */
  function DueAfter(ticks: seq<Tick>, n: nat, next: nat): nat
    requires n <= |ticks|
  {
    if n < |ticks| then ticks[n].armed else next
  }

  /** The deadlines so far: the first counts from boot, and each later one, the pending one
      `next` included, was set by re-arming. */
  predicate Chained(boot: nat, ticks: seq<Tick>, next: nat) {
    && DueAfter(ticks, 0, next) == boot + TICK_INTERVAL
    && forall k: nat :: k < |ticks| ==> Rearmed(ticks[k].armed, ticks[k].now, DueAfter(ticks, k + 1, next))
  }

  class Timer {
    var nextDeadline: nat
    /** When the timer was first armed, and every tick since. */
    ghost var boot: nat
    ghost var ticks: seq<Tick>

    ghost predicate Valid()
      reads this
    {
      Chained(boot, ticks, nextDeadline)
    }

    /** `arm_first_tick`: the cadence begins one interval from now. */
    constructor ArmFirstTick(now: nat)
      ensures Valid() && boot == now && ticks == []
    {
      nextDeadline := now + TICK_INTERVAL;
      boot, ticks := now, [];
    }

    /** A tick is serviced at `now`: the cadence counts from the previous deadline, and is
        clamped forward instead of catching up. */
    method Rearm(now: nat, ghost check: nat)
      requires Valid()
      modifies this
      ensures Valid() && boot == old(boot) && ticks == old(ticks) + [Tick(old(nextDeadline), now, check)]
      ensures Rearmed(old(nextDeadline), now, nextDeadline)
    {
      var next := nextDeadline + TICK_INTERVAL;
      if next <= now {
        next := now + TICK_INTERVAL;
      }
      ChainMore(boot, ticks, nextDeadline, now, check, next);
      ticks := ticks + [Tick(nextDeadline, now, check)];
      nextDeadline := next;
    }
  }

  lemma ChainMore(boot: nat, ticks: seq<Tick>, armed: nat, now: nat, check: nat, next: nat)
    requires Chained(boot, ticks, armed) && Rearmed(armed, now, next)
    ensures Chained(boot, ticks + [Tick(armed, now, check)], next)
  {
    hide Rearmed;
    var more := ticks + [Tick(armed, now, check)];
    forall k: nat | k < |more| ensures Rearmed(more[k].armed, more[k].now, DueAfter(more, k + 1, next)) {
      if k < |ticks| {
        assert DueAfter(more, k + 1, next) == DueAfter(ticks, k + 1, armed);
      }
    }
  }

  /** Every tick comes when it is due, and is done with at most `late` after. */
  predicate Punctual(ticks: seq<Tick>, late: nat) {
    forall k: nat :: k < |ticks| ==> ticks[k].armed <= ticks[k].now <= ticks[k].check <= ticks[k].armed + late
  }

  /** The handler is not interrupted by the next tick. */
  predicate OneByOne(ticks: seq<Tick>) {
    forall k: nat, j: nat :: k < j < |ticks| ==> ticks[k].check <= ticks[j].now
  }

  ghost predicate Ticking(boot: nat, ticks: seq<Tick>, next: nat, late: nat) {
    Chained(boot, ticks, next) && Punctual(ticks, late) && OneByOne(ticks)
  }

  /** Consecutive ticks: deadlines at least an interval apart, exactly one apart whenever
      ticks are served within an interval, and service at most an interval plus lateness
      after the previous one. */
  lemma Cadence(boot: nat, ticks: seq<Tick>, next: nat, late: nat, k: nat)
    requires Ticking(boot, ticks, next, late) && k + 1 < |ticks|
    ensures ticks[k].armed + 10_000 <= ticks[k + 1].armed
    ensures late < 10_000 ==> ticks[k + 1].armed == ticks[k].armed + 10_000
    ensures ticks[k].now < ticks[k + 1].now && ticks[k].check <= ticks[k + 1].now
    ensures ticks[k + 1].check <= ticks[k].now + 10_000 + late
  {
    assert Rearmed(ticks[k].armed, ticks[k].now, DueAfter(ticks, k + 1, next));
  }

  /** Over any stretch of ticks deadlines advance by at least an interval a tick, and by
      exactly that when no tick is a whole interval late. */
  lemma {:induction false} LongCadence(boot: nat, ticks: seq<Tick>, next: nat, late: nat, i: nat, j: nat)
    requires Ticking(boot, ticks, next, late) && i <= j < |ticks|
    ensures ticks[i].armed + (j - i) * 10_000 <= ticks[j].armed && ticks[i].now <= ticks[j].now
    ensures late < 10_000 ==> ticks[j].armed == boot + (j + 1) * 10_000
    decreases j
  {
    hide Ticking;
    if i < j {
      LongCadence(boot, ticks, next, late, i, j - 1);
      Cadence(boot, ticks, next, late, j - 1);
    } else {
      OnBeat(boot, ticks, next, late, j);
    }
  }

  lemma {:induction false} OnBeat(boot: nat, ticks: seq<Tick>, next: nat, late: nat, j: nat)
    requires Ticking(boot, ticks, next, late) && j < |ticks|
    ensures late < 10_000 ==> ticks[j].armed == boot + (j + 1) * 10_000
  {
    if j > 0 {
      OnBeat(boot, ticks, next, late, j - 1);
      Cadence(boot, ticks, next, late, j - 1);
    }
  }

  // ---- runs with a clock --------------------------------------------------

  /** The events of a run that are ticks, tick `k` being event `at[k]`. A tick kills the
      running payload exactly when it is overdue. */
  ghost predicate TicksIn(imgs: seq<Image>, ss: seq<Sys>, evs: seq<Event>, at: seq<nat>, ticks: seq<Tick>) {
    && IsRun(imgs, ss, evs) && |at| == |ticks|
    && (forall k: nat :: k < |at| ==> at[k] < |evs| && TickStep(ss[at[k]], evs[at[k]], ticks[k].check))
    && Increasing(at)
  }

  predicate Increasing(at: seq<nat>) { forall k: nat, j: nat :: k < j < |at| ==> at[k] < at[j] }

  predicate TickStep(a: Sys, ev: Event, check: nat) {
    && (ev == Stay || ev.Preempt? || ev == Expire(check))
    && (a.phase.Cpu? && a.phase.pid < |a.procs| && Overdue(a.procs[a.phase.pid].info, check) ==> ev == Expire(check))
  }

  /** The clock never runs backwards: whatever was put on the CPU at time `t` was put there
      after boot and after every earlier tick. */
  predicate ClockForward(evs: seq<Event>, boot: nat, at: seq<nat>, ticks: seq<Tick>) {
    && |at| == |ticks|
    && (forall i: nat :: i < |evs| && OnCpuSince(evs[i]).Some? ==> boot <= OnCpuSince(evs[i]).value)
    && (forall i: nat, k: nat :: i < |evs| && OnCpuSince(evs[i]).Some? && k < |at| && at[k] < i ==> ticks[k].check <= OnCpuSince(evs[i]).value)
  }

  ghost predicate Timed(imgs: seq<Image>, ss: seq<Sys>, evs: seq<Event>, boot: nat, at: seq<nat>, ticks: seq<Tick>, next: nat, late: nat) {
    TicksIn(imgs, ss, evs, at, ticks) && Ticking(boot, ticks, next, late) && ClockForward(evs, boot, at, ticks)
  }

  /** While a payload keeps the CPU, its record does not change. */
  lemma StayStep(imgs: seq<Image>, a: Sys, ev: Event, b: Sys, p: nat)
    requires Inv(imgs, a) && Next(imgs, a, ev, b) && a.phase == Cpu(p) && b.phase == Cpu(p)
    ensures p < MAX_PROC == |a.procs| == |b.procs| && b.procs[p].info == a.procs[p].info && !ev.Expire?
    ensures a.procs[p].info.state == Running
  {
    hide Boots;
    hide First;
    hide ReapAll;
    hide TableOk;
    hide SnapsOk;
    hide Meet;
  }

  lemma {:induction false} StayLong(imgs: seq<Image>, ss: seq<Sys>, evs: seq<Event>, i: nat, j: nat, p: nat)
    requires IsRun(imgs, ss, evs) && i <= j < |ss| && forall k: nat :: i <= k <= j ==> ss[k].phase == Cpu(p)
    ensures p < MAX_PROC == |ss[i].procs| == |ss[j].procs| && ss[j].procs[p].info == ss[i].procs[p].info
    ensures ss[j].procs[p].info.state == Running
    decreases j
  {
    hide Next;
    if i < j {
      StayLong(imgs, ss, evs, i, j - 1, p);
      RunInv(imgs, ss, evs, j - 1);
      StayStep(imgs, ss[j - 1], evs[j - 1], ss[j], p);
    }
    RunInv(imgs, ss, evs, j);
  }

  /** No payload with a budget is still on the CPU at a tick later than one interval plus
      lateness after its budget ran out, or after it got the CPU back if that was later. */
  lemma DeadlineBound(imgs: seq<Image>, ss: seq<Sys>, evs: seq<Event>, boot: nat, at: seq<nat>, ticks: seq<Tick>, next: nat, late: nat,
                      i: nat, k: nat, p: nat)
    requires Timed(imgs, ss, evs, boot, at, ticks, next, late)
    requires i < |evs| && OnCpuSince(evs[i]).Some? && k < |at| && i < at[k]
    requires forall j: nat :: i < j <= at[k] ==> ss[j].phase == Cpu(p)
    ensures p < MAX_PROC == |ss[i + 1].procs|
    ensures var info := ss[i + 1].procs[p].info;
      && info.state == Running
      && (info.deadline != 0 ==>
            || ticks[k].check <= OnCpuSince(evs[i]).value + 10_000 + late
            || ticks[k].check <= info.startedAt + info.deadline + 10_000 + late)
  {
    hide Next;
    hide Inv;
    hide Ticking;
    StayLong(imgs, ss, evs, i + 1, i + 1, p);
    if k == 0 {
      FirstTick(boot, ticks, next, late);
    } else {
      Cadence(boot, ticks, next, late, k - 1);
      CheckAfterNow(boot, ticks, next, late, k - 1);
      if at[k - 1] <= i {
        TickBefore(imgs, ss, evs, boot, at, ticks, i, k - 1);
      } else {
        hide ClockForward;
        StayLong(imgs, ss, evs, i + 1, at[k - 1], p);
        SurvivedTick(imgs, ss, evs, at, ticks, k - 1, p);
      }
    }
  }

  lemma FirstTick(boot: nat, ticks: seq<Tick>, next: nat, late: nat)
    requires Ticking(boot, ticks, next, late) && |ticks| > 0
    ensures ticks[0].check <= boot + 10_000 + late
  {
    hide Rearmed;
  }

  lemma CheckAfterNow(boot: nat, ticks: seq<Tick>, next: nat, late: nat, k: nat)
    requires Ticking(boot, ticks, next, late) && k < |ticks|
    ensures ticks[k].now <= ticks[k].check
  {
    hide Chained;
  }

  /** A payload still on the CPU after a tick was within its budget at that tick. */
  lemma SurvivedTick(imgs: seq<Image>, ss: seq<Sys>, evs: seq<Event>, at: seq<nat>, ticks: seq<Tick>, k: nat, p: nat)
    requires TicksIn(imgs, ss, evs, at, ticks) && k < |at| && ss[at[k]].phase == Cpu(p) && ss[at[k] + 1].phase == Cpu(p)
    ensures p < |ss[at[k]].procs| && !Overdue(ss[at[k]].procs[p].info, ticks[k].check)
  {
    hide Next;
    hide Overdue;
    RunInv(imgs, ss, evs, at[k]);
    StayStep(imgs, ss[at[k]], evs[at[k]], ss[at[k] + 1], p);
  }

  /** A tick is never the event that puts a payload on the CPU. */
  lemma TickBefore(imgs: seq<Image>, ss: seq<Sys>, evs: seq<Event>, boot: nat, at: seq<nat>, ticks: seq<Tick>, i: nat, k: nat)
    requires TicksIn(imgs, ss, evs, at, ticks) && ClockForward(evs, boot, at, ticks) && i < |evs| && OnCpuSince(evs[i]).Some? && k < |at| && at[k] <= i
    ensures ticks[k].check <= OnCpuSince(evs[i]).value
  {
    hide Next;
    assert TickStep(ss[at[k]], evs[at[k]], ticks[k].check);
  }

  /** A payload that runs undisturbed from its start is killed with its elapsed time in
      (d, d + interval + lateness]. */
  lemma KilledInTime(imgs: seq<Image>, ss: seq<Sys>, evs: seq<Event>, boot: nat, at: seq<nat>, ticks: seq<Tick>, next: nat, late: nat,
                     i: nat, k: nat, p: nat)
    requires Timed(imgs, ss, evs, boot, at, ticks, next, late)
    requires i < |evs| && (evs[i].Start? || evs[i].Restore?) && evs[i].pid == p && k < |at| && i < at[k]
    requires (forall j: nat :: i < j <= at[k] ==> ss[j].phase == Cpu(p)) && evs[at[k]].Expire?
    ensures p < MAX_PROC == |ss[i + 1].procs|
    ensures var d := ss[i + 1].procs[p].info.deadline; d < ticks[k].check - evs[i].now <= d + 10_000 + late
  {
    hide Inv;
    hide Next;
    hide Ticking;
    hide ClockForward;
    DeadlineBound(imgs, ss, evs, boot, at, ticks, next, late, i, k, p);
    StayLong(imgs, ss, evs, i + 1, at[k], p);
    RunInv(imgs, ss, evs, i);
    StartedNow(imgs, ss[i], evs[i], ss[i + 1]);
    ExpireOverdue(imgs, ss[at[k]], evs[at[k]], ss[at[k] + 1]);
  }

  /** The same in terms of the image: a payload whose budget nobody changed is killed, if at
      all, between its image's budget and that plus interval and lateness; an image without
      a budget is never killed this way. */
  lemma KilledByImageBudget(imgs: seq<Image>, ss: seq<Sys>, evs: seq<Event>, boot: nat, at: seq<nat>, ticks: seq<Tick>, next: nat, late: nat,
                            q: nat, i: nat, k: nat, p: nat)
    requires Timed(imgs, ss, evs, boot, at, ticks, next, late)
    requires q < i < |evs| && evs[q].Seed? && evs[i].Start? && evs[i].pid == p && NoSeed(evs, q + 1, i + 1) && NoBudget(evs, q + 1, i + 1, p)
    requires k < |at| && i < at[k] && (forall j: nat :: i < j <= at[k] ==> ss[j].phase == Cpu(p)) && evs[at[k]].Expire?
    ensures p < |ss[i].procs| && ss[i].procs[p].info.image < |imgs|
    ensures var d := imgs[ss[i].procs[p].info.image].deadline; 0 < d < ticks[k].check - evs[i].now <= d + 10_000 + late
  {
    hide Next;
    hide Inv;
    hide Ticking;
    hide ClockForward;
    hide Restored;
    StartPid(imgs, ss[i], evs[i], ss[i + 1]);
    StayLong(imgs, ss, evs, i + 1, at[k], p);
    ExpireOverdue(imgs, ss[at[k]], evs[at[k]], ss[at[k] + 1]);
    KilledInTime(imgs, ss, evs, boot, at, ticks, next, late, i, k, p);
    NotRestored(imgs, ss, evs, q + 1, i);
    RunInv(imgs, ss, evs, i);
    StartsQueued(imgs, ss[i], evs[i], ss[i + 1]);
    ImageBudget(imgs, ss, evs, q, i, p);
    BudgetStep(imgs, ss[i], evs[i], ss[i + 1], p);
  }

  lemma StartsQueued(imgs: seq<Image>, a: Sys, ev: Event, b: Sys)
    requires Inv(imgs, a) && Next(imgs, a, ev, b) && ev.Start?
    ensures ev.pid < |a.procs| && a.procs[ev.pid].info.state == Pending
  {
    hide Boots;
    hide First;
    hide ReapAll;
    hide TableOk;
    hide PhaseOk;
    hide SnapsOk;
    ReapedInfo(a.procs, ev.pid);
  }

  lemma StartedNow(imgs: seq<Image>, a: Sys, ev: Event, b: Sys)
    requires Inv(imgs, a) && Next(imgs, a, ev, b) && (ev.Start? || ev.Restore?)
    ensures ev.pid < |b.procs| && b.procs[ev.pid].info.startedAt == ev.now
  {
    hide Boots;
    hide First;
    hide ReapAll;
    hide Meet;
    hide TableOk;
    hide PhaseOk;
  }

  lemma ExpireOverdue(imgs: seq<Image>, a: Sys, ev: Event, b: Sys)
    requires Next(imgs, a, ev, b) && ev.Expire?
    ensures a.phase.Cpu? && a.phase.pid < |a.procs| && Overdue(a.procs[a.phase.pid].info, ev.now)
  {
    hide Boots;
    hide First;
    hide ReapAll;
    hide Meet;
  }
}
