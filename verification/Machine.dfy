/** The process, checkpoint and scheduler machine (kernel/src/payload.rs, driven by
    kernel/src/traps.rs) as its users understand it: every process and every checkpoint
    has memory and registers of its own. The kernel proper, which keeps all of these in
    shared frames, is proved to take only steps of this machine. */
module Machine {
  import opened Words
  import opened Pte
  import opened FramePool
  import opened ElfImage
  import opened Elf
  import PT = PageTables

  const MAX_PROC: nat := 12
  const MAX_SNAP: nat := 4

  datatype State = Empty | Pending | Running | Exited | Faulted | Killed {
    predicate Terminal() { this == Exited || this == Faulted || this == Killed }
  }

  type Caps = bv32

  const CAP_SPAWN: Caps := 4

  /** Capability sets form a lattice under bitwise and. */
  function Meet(a: Caps, b: Caps): Caps { a & b }

  predicate Within(a: Caps, b: Caps) { Meet(a, b) == a }

  /** Capability sets are bit sets: `Meet` keeps the common bits, and `Within` says no bit is
      missing from the other set. */
  lemma CapsAreBits(a: Caps, b: Caps)
    ensures Meet(a, b) == a & b
    ensures Within(a, b) <==> a & !b == 0
  {
  }

  /** A read-only physical range outside the pool that an image gets to see. */
  datatype Window = Window(va: nat, pa: nat, pages: nat)

  datatype Image = Image(elf: seq<Byte>, caps: Caps, deadline: nat, window: Option<Window>)

  /** A user page: a frame of the process's own, or a page of a window. */
  datatype Page = Own(perms: Perms, data: Frame) | Shared(perms: Perms, ppn: nat)

  type Memory = map<nat, Page>

  /** A saved trap frame: x1..x31, sepc, sstatus. */
  datatype Regs = Regs(gpr: seq<Word>, sepc: Word, sstatus: Word)

  const X_A0: nat := 9

  function WithA0(r: Regs, a0: Word): Regs
    requires |r.gpr| == 31
  {
    r.(gpr := r.gpr[X_A0 := a0])
  }

  /** `init_frame_to`: all registers zero, U-mode, interrupts on after `sret`. */
  function FreshRegs(entry: Word): Regs { Regs(seq(31, i => 0), entry, 32) }

  /** The scalar fields of a process slot. */
  datatype Info = Info(state: State, image: nat, caps: Caps, parent: Option<nat>, exitCode: int,
                       startedAt: nat, deadline: nat, preempted: bool)

  datatype Proc = Proc(info: Info, mem: Option<Memory>, regs: Option<Regs>)

  datatype Snap = Snap(mem: Memory, regs: Regs, caps: Caps, image: nat)

  /** Where control is: the idle loop, the scheduler's service window, or a payload. */
  datatype Phase = Idle | Service | Cpu(pid: nat)

  datatype Sys = Sys(procs: seq<Proc>, snaps: seq<Option<Snap>>, lastSnap: nat, autoFork: nat, phase: Phase)

  datatype Event =
    | Seed(list: seq<nat>, forks: nat)
    | Kill(pid: nat)
    | Budget(pid: nat, units: nat)
    | Start(pid: nat, now: nat, mem: Memory, entry: Word)
    | LoadFault(pid: nat)
    | Resume(pid: nat, now: nat)
    | Restore(pid: nat, sid: nat, now: nat)
    | Finish(forkFailed: bool)
    | Store(v: nat, off: nat, b: Byte)
    | Spawn(image: nat, requested: Caps)
    | Checkpoint(sid: nat, regs: Regs)
    | Exit(code: int)
    | Fault
    | Expire(now: nat)
    | Preempt(regs: Regs)
    | Stay

  /** The time at which an event puts a payload on the CPU. */
  function OnCpuSince(ev: Event): Option<nat> {
    if ev.Start? || ev.Resume? || ev.Restore? then Some(ev.now) else None
  }

  predicate OnCpuAt(ev: Event, now: nat) { OnCpuSince(ev).None? || OnCpuSince(ev) == Some(now) }

  // ---- table operations ---------------------------------------------------

  const NO_INFO: Info := Info(Empty, 0, 0, None, 0, 0, 0, false)
  const NO_PROC: Proc := Proc(NO_INFO, None, None)

  /** The first slot in a given state, if any. */
  function First(procs: seq<Proc>, st: State, from: nat := 0): (r: Option<nat>)
    requires from <= |procs|
    ensures r.Some? ==> from <= r.value < |procs| && procs[r.value].info.state == st
    ensures r.Some? ==> forall q: nat :: from <= q < r.value ==> procs[q].info.state != st
    ensures r.None? ==> forall q: nat :: from <= q < |procs| ==> procs[q].info.state != st
    decreases |procs| - from
  {
    if from == |procs| then None else if procs[from].info.state == st then Some(from) else First(procs, st, from + 1)
  }

  function FirstFree(snaps: seq<Option<Snap>>, from: nat := 0): (r: Option<nat>)
    requires from <= |snaps|
    ensures r.Some? ==> from <= r.value < |snaps| && snaps[r.value].None?
    ensures r.Some? ==> forall q: nat :: from <= q < r.value ==> snaps[q].Some?
    ensures r.None? ==> forall q: nat :: from <= q < |snaps| ==> snaps[q].Some?
    decreases |snaps| - from
  {
    if from == |snaps| then None else if snaps[from].None? then Some(from) else FirstFree(snaps, from + 1)
  }

  /** A queued process: no memory yet, capabilities clamped to the image's ceiling. */
  function Queued(imgs: seq<Image>, image: nat, caps: Caps, parent: Option<nat>): Proc
    requires image < |imgs|
  {
    Proc(Info(Pending, image, Meet(caps, imgs[image].caps), parent, 0, 0, imgs[image].deadline, false), None, None)
  }

  /** `enqueue`: the first empty slot, or nothing when the table is full. */
  function Enqueue(imgs: seq<Image>, procs: seq<Proc>, image: nat, caps: Caps, parent: Option<nat>): (r: seq<Proc>)
    requires image < |imgs|
    ensures |r| == |procs|
  {
    match First(procs, Empty)
    case Some(p) => procs[p := Queued(imgs, image, caps, parent)]
    case None => procs
  }

  /** A suite is queued image by image, each with its full ceiling. */
  function EnqueueAll(imgs: seq<Image>, procs: seq<Proc>, list: seq<nat>): (r: seq<Proc>)
    requires forall i :: 0 <= i < |list| ==> list[i] < |imgs|
    ensures |r| == |procs|
    decreases |list|
  {
    if list == [] then procs
    else EnqueueAll(imgs, Enqueue(imgs, procs, list[0], imgs[list[0]].caps, None), list[1..])
  }

  /** `reap_terminated`: a terminal process gives its memory and saved frame back. */
  function Reaped(p: Proc): Proc {
    if p.info.state.Terminal() then p.(mem := None, regs := None) else p
  }

  function ReapAll(procs: seq<Proc>): (r: seq<Proc>)
    ensures |r| == |procs| && forall i: nat :: i < |procs| ==> r[i] == Reaped(procs[i])
  {
    if procs == [] then [] else [Reaped(procs[0])] + ReapAll(procs[1..])
  }

  /** `clear_table` marks a slot empty; the slot's other fields go stale. */
  function Cleared(p: Proc): Proc { Proc(p.info.(state := Empty), None, None) }

  function ClearAll(procs: seq<Proc>): (r: seq<Proc>)
    ensures |r| == |procs| && forall i: nat :: i < |procs| ==> r[i] == Cleared(procs[i])
  {
    if procs == [] then [] else [Cleared(procs[0])] + ClearAll(procs[1..])
  }

  predicate AnyAlive(procs: seq<Proc>) {
    exists p: nat :: p < |procs| && (procs[p].info.state == Running || procs[p].info.state == Pending)
  }

  /** No process has memory or a saved frame. */
  predicate HoldNothing(procs: seq<Proc>) {
    forall p: nat :: p < |procs| ==> procs[p].mem.None? && procs[p].regs.None?
  }

  function SetState(p: Proc, st: State): Proc { p.(info := p.info.(state := st)) }

  /** W^X and read-only windows. */
  ghost predicate SafeMemory(mem: Memory) {
    forall v :: v in mem ==> !(mem[v].perms.w && mem[v].perms.x) && (mem[v].Shared? ==> !mem[v].perms.w)
  }

  /** What a freshly started process finds in its memory: every page of every load segment
      that has any permission, byte for byte, the image's window, nothing else, and W^X
      throughout. */
  ghost predicate Boots(img: Image, mem: Memory, entry: Word) {
    && HeaderError(img.elf).None? && entry == Le(img.elf, 24, 8)
    && SafeMemory(mem) && FilesInside(img.elf)
    && (forall i: nat, p: nat :: i < HeaderCount(img.elf) && IsLoad(img.elf, i) ==> SegmentBoots(img, mem, i, p))
    && (img.window.Some? ==> forall k: nat :: k < img.window.value.pages ==> WindowBoots(img.window.value, mem, k))
    && (forall v :: v in mem ==> AskedFor(img, v))
  }

  /** The image asks for page `v`: a load segment has it, or the window. */
  ghost predicate AskedFor(img: Image, v: nat)
    requires HeaderError(img.elf).None?
  {
    || SegmentOwns(img.elf, HeaderCount(img.elf), v)
    || (img.window.Some? && exists k: nat :: k < img.window.value.pages && SamePlace(img.window.value, k, v))
  }

  predicate SamePlace(w: Window, j: nat, v: nat) { PT.PageOf(w.va + j * PAGE_SIZE) == v }

  ghost predicate SegmentBoots(img: Image, mem: Memory, i: nat, p: nat)
    requires HeaderError(img.elf).None? && i < HeaderCount(img.elf)
  {
    var seg := SegmentAt(img.elf, i);
    p % PAGE_SIZE == 0 && seg.vaddr < p + PAGE_SIZE && p < seg.vaddr + seg.memsz && seg.perms.Live() ==>
      var v := PT.PageOf(p); v in mem && mem[v].Own? && mem[v].perms == seg.perms && HoldsBytes(mem[v].data, img.elf, seg, p)
  }

  ghost predicate WindowBoots(w: Window, mem: Memory, k: nat) {
    var v := PT.PageOf(w.va + k * PAGE_SIZE);
    v in mem && mem[v] == Shared(Perms(true, false, false, true, false), w.pa / PAGE_SIZE + k)
  }

  /** The running payload has a page at `va` that it may write. */
  predicate MayStore(a: Sys, va: nat) {
    && a.phase.Cpu? && a.phase.pid < |a.procs| && a.procs[a.phase.pid].mem.Some?
    && var mem, v := a.procs[a.phase.pid].mem.value, va / 4096 % 0x800_0000;
       v in mem && mem[v].perms.w
  }

  // ---- steps --------------------------------------------------------------

  /** A spawn selector only reaches three images. */
  const SPAWNABLE: set<nat> := {4, 11, 12}

  ghost predicate Next(imgs: seq<Image>, a: Sys, ev: Event, b: Sys) {
    && |a.procs| == MAX_PROC && |a.snaps| == MAX_SNAP
    && match ev
       case Seed(list, forks) =>
         && (a.phase == Idle || (a.phase == Service && !AnyAlive(a.procs)))
         && (forall i :: 0 <= i < |list| ==> list[i] < |imgs|)
         && b == Sys(EnqueueAll(imgs, ClearAll(a.procs), list), seq(MAX_SNAP, i => None), 0, forks, Service)
       case Kill(p) =>
         && a.phase == Service && p < MAX_PROC && a.procs[p].info.state == Pending
         && b == a.(procs := a.procs[p := SetState(a.procs[p], Killed)])
       case Budget(p, units) =>
         && a.phase == Service && p < MAX_PROC && a.procs[p].info.state == Pending
         && b == a.(procs := a.procs[p := a.procs[p].(info := a.procs[p].info.(deadline := units))])
       case Start(p, now, mem, entry) =>
         var r := ReapAll(a.procs);
         && a.phase == Service && First(r, Pending) == Some(p) && r[p].regs.None?
         && r[p].info.image < |imgs| && Boots(imgs[r[p].info.image], mem, entry)
         && b == a.(procs := r[p := Proc(r[p].info.(state := Running, startedAt := now), Some(mem), Some(FreshRegs(entry)))],
                    phase := Cpu(p))
       case LoadFault(p) =>
         var r := ReapAll(a.procs);
         && a.phase == Service && First(r, Pending) == Some(p) && r[p].regs.None?
         && b == a.(procs := r[p := SetState(r[p], Faulted)])
       case Resume(p, now) =>
         var r := ReapAll(a.procs);
         && a.phase == Service && First(r, Pending) == Some(p) && r[p].regs.Some?
         && b == a.(procs := r[p := r[p].(info := r[p].info.(state := Running, preempted := false,
                             startedAt := if r[p].info.preempted then r[p].info.startedAt else now))],
                    phase := Cpu(p))
       case Restore(p, sid, now) =>
         var r := ReapAll(a.procs);
         && a.phase == Service && First(r, Pending) == None && 0 < a.autoFork
         && 0 < a.lastSnap <= MAX_SNAP && sid == a.lastSnap - 1 && a.snaps[sid].Some? && First(r, Empty) == Some(p)
         && var sn := a.snaps[sid].value;
         && sn.image < |imgs|
         && b == a.(procs := r[p := Proc(Info(Running, sn.image, Meet(sn.caps, imgs[sn.image].caps), None, 0, now, 0, false),
                                         Some(sn.mem), Some(sn.regs))],
                    autoFork := a.autoFork - 1, phase := Cpu(p))
       case Finish(forkFailed) =>
         var r := ReapAll(a.procs);
         && a.phase == Service && First(r, Pending) == None
         && (forkFailed <==> 0 < a.autoFork && 0 < a.lastSnap)
         && b == a.(procs := r, phase := Idle, autoFork := if forkFailed then a.autoFork - 1 else a.autoFork)
       case Store(v, off, x) =>
         && a.phase.Cpu? && a.phase.pid < MAX_PROC && off < PAGE_SIZE
         && var p := a.procs[a.phase.pid];
         && p.mem.Some? && v in p.mem.value && p.mem.value[v].Own? && p.mem.value[v].perms.w
         && b == a.(procs := a.procs[a.phase.pid := p.(mem := Some(p.mem.value[v := Own(p.mem.value[v].perms, PutFrameByte(p.mem.value[v].data, off, x))]))])
       case Spawn(image, requested) =>
         && a.phase.Cpu? && a.phase.pid < MAX_PROC && image < |imgs| && image in SPAWNABLE
         && var caps := a.procs[a.phase.pid].info.caps;
         && caps & CAP_SPAWN != 0 && First(a.procs, Empty).Some?
         && b == a.(procs := Enqueue(imgs, a.procs, image, Meet(Meet(requested, caps), imgs[image].caps), Some(a.phase.pid)))
       case Checkpoint(sid, regs) =>
         && a.phase.Cpu? && a.phase.pid < MAX_PROC && FirstFree(a.snaps) == Some(sid) && |regs.gpr| == 31
         && var p := a.procs[a.phase.pid];
         && p.mem.Some?
         && b == a.(snaps := a.snaps[sid := Some(Snap(p.mem.value, WithA0(regs, 0), p.info.caps, p.info.image))],
                    lastSnap := sid + 1)
       case Exit(code) =>
         && a.phase.Cpu? && a.phase.pid < MAX_PROC
         && var p := a.procs[a.phase.pid];
         && b == Left(a, p.(info := p.info.(state := Exited, exitCode := code)))
       case Fault =>
         && a.phase.Cpu? && a.phase.pid < MAX_PROC
         && b == Left(a, SetState(a.procs[a.phase.pid], Faulted))
       case Expire(now) =>
         && a.phase.Cpu? && a.phase.pid < MAX_PROC
         && var p := a.procs[a.phase.pid];
         && Overdue(p.info, now)
         && b == Left(a, SetState(p, Killed))
       case Preempt(regs) =>
         && a.phase.Cpu? && a.phase.pid < MAX_PROC && |regs.gpr| == 31
         && var p := a.procs[a.phase.pid];
         && b == Left(a, p.(info := p.info.(state := Pending, preempted := true), regs := Some(regs)))
       case Stay => b == a
  }

  /** The running process leaves the CPU as `p`, and the scheduler reaps. */
  function Left(a: Sys, p: Proc): Sys
    requires a.phase.Cpu? && a.phase.pid < |a.procs|
  {
    a.(procs := ReapAll(a.procs[a.phase.pid := p]), phase := Service)
  }

  /** `on_tick`: the budget counts from the start, and 0 means none. */
  predicate Overdue(info: Info, now: nat) {
    info.deadline != 0 && info.state == Running && now > info.startedAt + info.deadline
  }
}
