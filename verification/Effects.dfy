/** What happens to a payload, over whole runs and in plain terms: how it is queued, what it
    starts with, what its stores do, how it ends, and what is left for checkpoints and
    forks. */
module Effects {
  import opened Words
  import opened Pte
  import opened FramePool
  import opened ElfImage
  import opened Elf
  import opened Machine
  import opened Invariant
  import opened Runs
  import PT = PageTables

  // ---- starting -----------------------------------------------------------

  /** A fresh start: U-mode at the entry the image names, with interrupts on after the return
      (SPIE, bit 5, set and SPP, bit 8, clear), all registers zero, on the CPU from `now`. */
  lemma FreshStart(imgs: seq<Image>, ss: seq<Sys>, evs: seq<Event>, i: nat)
    requires IsRun(imgs, ss, evs) && i < |evs| && evs[i].Start?
    ensures var p := evs[i].pid;
      && p < |ss[i].procs| == |ss[i + 1].procs| && ss[i + 1].phase == Cpu(p) && ss[i].procs[p].info.image < |imgs|
      && var b, img := ss[i + 1].procs[p], imgs[ss[i].procs[p].info.image];
      && b.info.state == Running && b.info.startedAt == evs[i].now && b.mem == Some(evs[i].mem)
      && HeaderError(img.elf).None? && b.regs.Some? && b.regs.value.sepc == Le(img.elf, 24, 8)
      && |b.regs.value.gpr| == 31 && (forall k: nat :: k < 31 ==> b.regs.value.gpr[k] == 0)
      && b.regs.value.sstatus / 32 % 2 == 1 && b.regs.value.sstatus / 256 % 2 == 0
  {
    hide First;
    hide ReapAll;
    hide SafeMemory;
    hide FilesInside;
    hide SegmentBoots;
    hide WindowBoots;
    hide AskedFor;
    hide HeaderError;
    hide Le;
    assert Next(imgs, ss[i], evs[i], ss[i + 1]);
    ReapedInfo(ss[i].procs, evs[i].pid);
  }

  /** The bytes it starts with: at every address of a load segment that grants any access,
      its own page with the header's permissions holds the file byte, and zero beyond the
      file bytes. */
  lemma FreshBytes(imgs: seq<Image>, ss: seq<Sys>, evs: seq<Event>, i: nat, n: nat, a: nat)
    requires IsRun(imgs, ss, evs) && i < |evs| && evs[i].Start?
    requires evs[i].pid < |ss[i].procs| && ss[i].procs[evs[i].pid].info.image < |imgs|
    requires var elf := imgs[ss[i].procs[evs[i].pid].info.image].elf;
      |elf| < WORD_LIMIT && HeaderError(elf).None? && n < HeaderCount(elf) && IsLoad(elf, n) && SegmentAt(elf, n).perms.Live()
    requires var seg := SegmentAt(imgs[ss[i].procs[evs[i].pid].info.image].elf, n); seg.vaddr <= a < seg.vaddr + seg.memsz
    ensures var elf := imgs[ss[i].procs[evs[i].pid].info.image].elf; var seg := SegmentAt(elf, n); var v := a / 4096 % 0x800_0000;
      && v in evs[i].mem && evs[i].mem[v].Own? && evs[i].mem[v].perms == seg.perms
      && (a < seg.vaddr + seg.filesz ==>
            seg.offset + (a - seg.vaddr) < |elf| && FrameByte(evs[i].mem[v].data, a % 4096) == elf[seg.offset + (a - seg.vaddr)])
      && (seg.vaddr + seg.filesz <= a ==> FrameByte(evs[i].mem[v].data, a % 4096) == 0)
  {
    hide First;
    hide ReapAll;
    hide HeaderError;
    hide IsLoad;
    hide SegmentAt;
    hide Boots;
    hide FrameByte;
    assert Next(imgs, ss[i], evs[i], ss[i + 1]);
    ReapedInfo(ss[i].procs, evs[i].pid);
    BootedByte(imgs[ss[i].procs[evs[i].pid].info.image], evs[i].mem, evs[i].entry, n, a);
  }

  lemma BootedByte(img: Image, mem: Memory, entry: Word, n: nat, a: nat)
    requires Boots(img, mem, entry) && |img.elf| < WORD_LIMIT && n < HeaderCount(img.elf) && IsLoad(img.elf, n)
    requires SegmentAt(img.elf, n).perms.Live()
    requires var seg := SegmentAt(img.elf, n); seg.vaddr <= a < seg.vaddr + seg.memsz
    ensures var seg := SegmentAt(img.elf, n); var v := a / 4096 % 0x800_0000;
      && v in mem && mem[v].Own? && mem[v].perms == seg.perms
      && (a < seg.vaddr + seg.filesz ==>
            seg.offset + (a - seg.vaddr) < |img.elf| && FrameByte(mem[v].data, a % 4096) == img.elf[seg.offset + (a - seg.vaddr)])
      && (seg.vaddr + seg.filesz <= a ==> FrameByte(mem[v].data, a % 4096) == 0)
  {
    hide HeaderError;
    hide IsLoad;
    hide SegmentAt;
    hide SafeMemory;
    hide AskedFor;
    hide WindowBoots;
    hide FrameByte;
    hide SegmentByte;
    var seg := SegmentAt(img.elf, n);
    var p, k := a - a % PAGE_SIZE, a % PAGE_SIZE;
    assert SegmentBoots(img, mem, n, p);
    SamePageOf(a);
    assert a == p + k;
    SegmentByteIs(img.elf, seg, a);
  }

  lemma SamePageOf(a: nat)
    ensures var p := a - a % PAGE_SIZE; p % PAGE_SIZE == 0 && p <= a < p + PAGE_SIZE && PT.PageOf(p) == a / 4096 % 0x800_0000
  {
    DivMod(PAGE_SIZE, a / PAGE_SIZE, 0);
  }

  /** Nothing else is there: every page belongs to a load segment or to the window, and a
      window page is the window's memory, readable and no more. */
  lemma FreshPages(imgs: seq<Image>, ss: seq<Sys>, evs: seq<Event>, i: nat)
    requires IsRun(imgs, ss, evs) && i < |evs| && evs[i].Start?
    ensures evs[i].pid < |ss[i].procs| && ss[i].procs[evs[i].pid].info.image < |imgs|
    ensures var img := imgs[ss[i].procs[evs[i].pid].info.image];
      && HeaderError(img.elf).None?
      && forall v :: v in evs[i].mem ==>
           || (exists n: nat, a: nat :: n < HeaderCount(img.elf) && IsLoad(img.elf, n) && PageIn(SegmentAt(img.elf, n), a) && PT.PageOf(a) == v)
           || (img.window.Some? && exists k: nat :: k < img.window.value.pages && SamePlace(img.window.value, k, v))
  {
    hide First;
    hide ReapAll;
    hide HeaderError;
    hide IsLoad;
    hide SegmentAt;
    hide SafeMemory;
    hide FilesInside;
    hide SegmentBoots;
    hide WindowBoots;
    hide PageIn;
    hide PT.PageOf;
    assert Next(imgs, ss[i], evs[i], ss[i + 1]);
    ReapedInfo(ss[i].procs, evs[i].pid);
  }

  lemma FreshWindow(imgs: seq<Image>, ss: seq<Sys>, evs: seq<Event>, i: nat, k: nat)
    requires IsRun(imgs, ss, evs) && i < |evs| && evs[i].Start?
    requires evs[i].pid < |ss[i].procs| && ss[i].procs[evs[i].pid].info.image < |imgs|
    requires var img := imgs[ss[i].procs[evs[i].pid].info.image]; img.window.Some? && k < img.window.value.pages
    ensures var w := imgs[ss[i].procs[evs[i].pid].info.image].window.value; var v := (w.va + k * 4096) / 4096 % 0x800_0000;
      && v in evs[i].mem && evs[i].mem[v].Shared? && evs[i].mem[v].ppn == w.pa / 4096 + k
      && evs[i].mem[v].perms.r && evs[i].mem[v].perms.u && !evs[i].mem[v].perms.w && !evs[i].mem[v].perms.x
  {
    hide First;
    hide ReapAll;
    hide HeaderError;
    hide SafeMemory;
    hide FilesInside;
    hide SegmentBoots;
    hide AskedFor;
    assert Next(imgs, ss[i], evs[i], ss[i + 1]);
    ReapedInfo(ss[i].procs, evs[i].pid);
    assert WindowBoots(imgs[ss[i].procs[evs[i].pid].info.image].window.value, evs[i].mem, k);
  }

  // ---- queueing -----------------------------------------------------------

  /** Slot `p` waits for its first turn on an image, with these capabilities and that image's
      budget. */
  predicate Waits(imgs: seq<Image>, p: Proc, image: nat, caps: Caps, parent: Option<nat>) {
    && image < |imgs|
    && p.info.state == Pending && p.info.image == image && p.info.caps == caps && p.info.parent == parent
    && p.info.deadline == imgs[image].deadline && !p.info.preempted && p.info.startedAt == 0 && p.info.exitCode == 0
    && p.mem.None? && p.regs.None?
  }

  /** The first `n` slots are taken and the others empty. */
  predicate Filled(procs: seq<Proc>, n: nat) {
    forall p: nat :: p < |procs| ==> (procs[p].info.state == Empty <==> n <= p)
  }

  lemma EnqueueAt(imgs: seq<Image>, procs: seq<Proc>, n: nat, image: nat, caps: Caps, parent: Option<nat>)
    requires Filled(procs, n) && image < |imgs|
    ensures First(procs, Empty) == if n < |procs| then Some(n) else None
    ensures var r := Enqueue(imgs, procs, image, caps, parent);
      && |r| == |procs|
      && (forall p: nat :: p < |procs| && p != n ==> r[p] == procs[p])
      && (n < |procs| ==> Waits(imgs, r[n], image, Meet(caps, imgs[image].caps), parent))
  {
    hide First;
    hide Meet;
    var e := First(procs, Empty);
    if n < |procs| {
      assert procs[n].info.state == Empty;
      assert e.Some? && e.value == n;
    }
  }

  /** A list is queued in order into the empty slots, as far as they go. */
  lemma {:induction false} EnqueueAllAt(imgs: seq<Image>, procs: seq<Proc>, n: nat, list: seq<nat>)
    requires Filled(procs, n) && forall i :: 0 <= i < |list| ==> list[i] < |imgs|
    ensures var r := EnqueueAll(imgs, procs, list);
      && |r| == |procs|
      && (forall p: nat :: p < |procs| && (p < n || n + |list| <= p) ==> r[p] == procs[p])
      && (forall p: nat :: n <= p < |procs| && p < n + |list| ==>
            Waits(imgs, r[p], list[p - n], Meet(imgs[list[p - n]].caps, imgs[list[p - n]].caps), None))
    decreases |list|
  {
    hide Enqueue;
    hide Waits;
    hide First;
    hide Meet;
    if list != [] {
      var one := Enqueue(imgs, procs, list[0], imgs[list[0]].caps, None);
      EnqueueAt(imgs, procs, n, list[0], imgs[list[0]].caps, None);
      WaitsTaken(imgs, one, procs, n, list[0], Meet(imgs[list[0]].caps, imgs[list[0]].caps));
      EnqueueAllAt(imgs, one, if n < |procs| then n + 1 else n, list[1..]);
      var r := EnqueueAll(imgs, procs, list);
      assert r == EnqueueAll(imgs, one, list[1..]);
      forall p: nat | n <= p < |procs| && p < n + |list|
        ensures Waits(imgs, r[p], list[p - n], Meet(imgs[list[p - n]].caps, imgs[list[p - n]].caps), None)
      {
        if p > n {
          assert list[1..][p - n - 1] == list[p - n];
        }
      }
    }
  }

  lemma WaitsTaken(imgs: seq<Image>, r: seq<Proc>, procs: seq<Proc>, n: nat, image: nat, caps: Caps)
    requires Filled(procs, n) && |r| == |procs| && forall p: nat :: p < |procs| && p != n ==> r[p] == procs[p]
    requires n < |procs| ==> Waits(imgs, r[n], image, caps, None)
    ensures Filled(r, if n < |procs| then n + 1 else n)
  {
  }

  /** Seeding: slot `p` waits for the suite's image `p`, with that image's full ceiling and its
      budget; what does not fit in twelve slots is dropped; no checkpoint is left, and the
      suite's forks are owed. */
  lemma Seeded(imgs: seq<Image>, ss: seq<Sys>, evs: seq<Event>, i: nat, p: nat)
    requires IsRun(imgs, ss, evs) && i < |evs| && evs[i].Seed? && p < 12
    ensures var b := ss[i + 1]; var list := evs[i].list;
      && |b.procs| == 12 && |b.snaps| == 4 && b.phase == Service && b.lastSnap == 0 && b.autoFork == evs[i].forks
      && (forall k: nat :: k < 4 ==> b.snaps[k].None?)
      && (p < |list| ==> list[p] < |imgs| && Waits(imgs, b.procs[p], list[p], imgs[list[p]].caps, None))
      && (|list| <= p ==> b.procs[p].info.state == Empty && b.procs[p].mem.None? && b.procs[p].regs.None?)
  {
    hide EnqueueAll;
    hide ClearAll;
    hide AnyAlive;
    hide Meet;
    hide Waits;
    assert Next(imgs, ss[i], evs[i], ss[i + 1]);
    var none := ClearAll(ss[i].procs);
    assert none[p] == Cleared(ss[i].procs[p]);
    AllEmpty(ss[i].procs);
    EnqueueAllAt(imgs, none, 0, evs[i].list);
    if p < |evs[i].list| {
      MeetSelf(imgs[evs[i].list[p]].caps);
    }
  }

  lemma AllEmpty(procs: seq<Proc>)
    ensures |ClearAll(procs)| == |procs| && Filled(ClearAll(procs), 0)
  {
    hide ClearAll;
  }

  lemma MeetSelf(a: Caps)
    ensures Meet(a, a) == a
  {
  }

  /** Spawning: the child waits in the lowest empty slot, on one of the three images that can
      be spawned, with exactly the capabilities that were asked for, that the parent holds
      and that its image may have. Nothing else changes. */
  lemma Spawned(imgs: seq<Image>, ss: seq<Sys>, evs: seq<Event>, i: nat)
    requires IsRun(imgs, ss, evs) && i < |evs| && evs[i].Spawn?
    ensures var a, b, image := ss[i], ss[i + 1], evs[i].image;
      && a.phase.Cpu? && a.phase.pid < |a.procs| == |b.procs| == 12 && image < |imgs| && (image == 4 || image == 11 || image == 12)
      && b == a.(procs := b.procs)
      && exists p: nat :: p < 12 && a.procs[p].info.state == Empty && (forall q: nat :: q < p ==> a.procs[q].info.state != Empty)
           && (forall q: nat :: q < 12 && q != p ==> b.procs[q] == a.procs[q])
           && Waits(imgs, b.procs[p], image, (evs[i].requested & a.procs[a.phase.pid].info.caps) & imgs[image].caps, Some(a.phase.pid))
  {
    hide First;
    hide Meet;
    assert Next(imgs, ss[i], evs[i], ss[i + 1]);
    var a, image := ss[i], evs[i].image;
    var caps := a.procs[a.phase.pid].info.caps;
    SpawnCaps(evs[i].requested, caps, imgs[image].caps);
    var p := First(a.procs, Empty).value;
    assert ss[i + 1].procs[p] == Queued(imgs, image, Meet(Meet(evs[i].requested, caps), imgs[image].caps), Some(a.phase.pid));
  }

  lemma SpawnCaps(requested: Caps, held: Caps, ceiling: Caps)
    ensures Meet(Meet(Meet(requested, held), ceiling), ceiling) == (requested & held) & ceiling
  {
  }

  // ---- running ------------------------------------------------------------

  /** A store: the page was the running payload's own and writable, the byte reads back, and
      no other byte of any process or checkpoint changes, nor anything else. */
  lemma Stored(imgs: seq<Image>, ss: seq<Sys>, evs: seq<Event>, i: nat)
    requires IsRun(imgs, ss, evs) && i < |evs| && evs[i].Store?
    ensures var a, b, v, off := ss[i], ss[i + 1], evs[i].v, evs[i].off;
      && a.phase.Cpu? && a.phase.pid < |a.procs| == |b.procs| && off < 4096
      && b == a.(procs := b.procs) && (forall q: nat :: q < |a.procs| && q != a.phase.pid ==> b.procs[q] == a.procs[q])
      && var was, now := a.procs[a.phase.pid], b.procs[a.phase.pid];
      && now == was.(mem := now.mem) && was.mem.Some? && now.mem.Some? && now.mem.value.Keys == was.mem.value.Keys
      && v in was.mem.value && was.mem.value[v].Own? && was.mem.value[v].perms.w
      && (forall x :: x in was.mem.value && x != v ==> now.mem.value[x] == was.mem.value[x])
      && now.mem.value[v].Own? && now.mem.value[v].perms == was.mem.value[v].perms
      && forall k: nat :: k < 4096 ==>
           FrameByte(now.mem.value[v].data, k) == if k == off then evs[i].b else FrameByte(was.mem.value[v].data, k)
  {
    hide FrameByte;
    assert Next(imgs, ss[i], evs[i], ss[i + 1]);
  }

  // ---- ending -------------------------------------------------------------

  /** How a payload ended is on record until the next seeding: exited with its code, faulted,
      at work or for an image that could not be started, or killed by its budget or by the
      operator. Ending gives its memory back at once,
      unless the operator killed it. */
  lemma Ended(imgs: seq<Image>, ss: seq<Sys>, evs: seq<Event>, i: nat, j: nat, p: nat)
    requires IsRun(imgs, ss, evs) && i < j < |ss| && NoSeed(evs, i, j)
    requires evs[i] == Kill(p) || evs[i] == LoadFault(p) || ((evs[i].Exit? || evs[i].Fault? || evs[i].Expire?) && ss[i].phase == Cpu(p))
    ensures p < |ss[i].procs| == |ss[i + 1].procs| == |ss[j].procs| == 12
    ensures evs[i].Exit? ==> ss[j].procs[p].info.state == Exited && ss[j].procs[p].info.exitCode == evs[i].code
    ensures evs[i].Fault? || evs[i].LoadFault? ==> ss[j].procs[p].info.state == Faulted
    ensures evs[i].Expire? || evs[i].Kill? ==> ss[j].procs[p].info.state == Killed
    ensures ss[j].procs[p].info.image == ss[i].procs[p].info.image && ss[j].procs[p].info.caps == ss[i].procs[p].info.caps
    ensures !evs[i].Kill? ==> ss[i + 1].phase == Service && ss[i + 1].procs[p].mem.None? && ss[i + 1].procs[p].regs.None?
  {
    hide Next;
    hide Inv;
    StepOf(imgs, ss, evs, i);
    RunInv(imgs, ss, evs, i);
    EndStep(imgs, ss[i], evs[i], ss[i + 1], p);
    KeepsLong(imgs, ss, evs, i + 1, j, p);
  }

  lemma StepOf(imgs: seq<Image>, ss: seq<Sys>, evs: seq<Event>, i: nat)
    requires IsRun(imgs, ss, evs) && i < |evs|
    ensures |ss| == |evs| + 1 && Next(imgs, ss[i], evs[i], ss[i + 1])
  {
    hide Next;
  }

  lemma EndStep(imgs: seq<Image>, a: Sys, ev: Event, b: Sys, p: nat)
    requires Inv(imgs, a) && Next(imgs, a, ev, b)
    requires ev == Kill(p) || ev == LoadFault(p) || ((ev.Exit? || ev.Fault? || ev.Expire?) && a.phase == Cpu(p))
    ensures p < |a.procs| == |b.procs| == MAX_PROC
    ensures b.procs[p].info ==
      if ev.Exit? then a.procs[p].info.(state := Exited, exitCode := ev.code)
      else if ev.Fault? || ev.LoadFault? then a.procs[p].info.(state := Faulted)
      else a.procs[p].info.(state := Killed)
    ensures !ev.Kill? ==> b.phase == Service && b.procs[p].mem.None? && b.procs[p].regs.None?
  {
    hide First;
    hide Boots;
    hide ReapAll;
    hide Meet;
    hide TableOk;
    hide SnapsOk;
    hide Overdue;
    if ev.LoadFault? {
      ReapedInfo(a.procs, p);
      PendingBare(imgs, a, p);
    } else if !ev.Kill? {
      ReapedInfo(a.procs[p := Leaver(a.procs[p], ev)], p);
    }
  }

  lemma PendingBare(imgs: seq<Image>, a: Sys, p: nat)
    requires Inv(imgs, a) && p < |a.procs| && a.procs[p].info.state == Pending && a.procs[p].regs.None?
    ensures a.procs[p].mem.None?
  {
    assert ProcOk(imgs, a.procs[p]);
  }

  /** When the suite is done every payload has ended, nobody holds memory, and control is in
      the idle loop. */
  lemma Finished(imgs: seq<Image>, ss: seq<Sys>, evs: seq<Event>, i: nat, p: nat)
    requires IsRun(imgs, ss, evs) && i < |evs| && evs[i].Finish? && p < 12
    ensures ss[i + 1].phase == Idle && |ss[i + 1].procs| == 12
    ensures ss[i + 1].procs[p].info.state in {Empty, Exited, Faulted, Killed}
    ensures ss[i + 1].procs[p].mem.None? && ss[i + 1].procs[p].regs.None?
  {
    hide ReapAll;
    hide First;
    assert Next(imgs, ss[i], evs[i], ss[i + 1]);
    hide Next;
    RunInv(imgs, ss, evs, i + 1);
    assert ProcOk(imgs, ss[i + 1].procs[p]);
  }

  // ---- budgets ------------------------------------------------------------

  /** No budget change for slot `p`. */
  predicate NoBudget(evs: seq<Event>, i: nat, j: nat, p: nat)
    requires j <= |evs|
  {
    forall k: nat :: i <= k < j ==> !(evs[k].Budget? && evs[k].pid == p)
  }

  /** A budget change takes effect at once, on its slot alone; nothing else but a restore into
      an empty slot touches a budget. */
  lemma BudgetStep(imgs: seq<Image>, a: Sys, ev: Event, b: Sys, p: nat)
    requires Inv(imgs, a) && Next(imgs, a, ev, b) && !ev.Seed? && p < MAX_PROC && a.procs[p].info.state != Empty
    ensures |b.procs| == MAX_PROC && b.procs[p].info.state != Empty
    ensures b.procs[p].info.deadline == if ev.Budget? && ev.pid == p then ev.units else a.procs[p].info.deadline
  {
    hide First;
    hide Boots;
    hide ReapAll;
    hide Reaped;
    hide TableOk;
    hide SnapsOk;
    hide Meet;
    ReapedInfo(a.procs, p);
    if ev.Exit? || ev.Fault? || ev.Expire? || ev.Preempt? {
      LeaveKeeps(imgs, a, ev, b, p);
      hide Next;
    }
  }

  lemma {:induction false} BudgetKept(imgs: seq<Image>, ss: seq<Sys>, evs: seq<Event>, i: nat, j: nat, p: nat)
    requires IsRun(imgs, ss, evs) && i <= j < |ss| && NoSeed(evs, i, j) && NoBudget(evs, i, j, p)
    requires p < 12 && |ss[i].procs| == 12 && ss[i].procs[p].info.state != Empty
    ensures |ss[j].procs| == 12 && ss[j].procs[p].info.state != Empty
    ensures ss[j].procs[p].info.deadline == ss[i].procs[p].info.deadline
    decreases j
  {
    hide Next;
    hide Inv;
    if i < j {
      BudgetKept(imgs, ss, evs, i, j - 1, p);
      RunInv(imgs, ss, evs, j - 1);
      BudgetStep(imgs, ss[j - 1], evs[j - 1], ss[j], p);
    }
  }

  /** A slot that fills up: by spawning it gets its image's budget, by a restore none. */
  lemma FillStep(imgs: seq<Image>, a: Sys, ev: Event, b: Sys, p: nat)
    requires Inv(imgs, a) && Next(imgs, a, ev, b) && !ev.Seed? && p < MAX_PROC && a.procs[p].info.state == Empty
    ensures |b.procs| == MAX_PROC
    ensures b.procs[p].info.state != Empty ==>
      || (ev.Restore? && ev.pid == p)
      || (b.procs[p].info.image < |imgs| && b.procs[p].info.deadline == imgs[b.procs[p].info.image].deadline)
  {
    hide First;
    hide Boots;
    hide ReapAll;
    hide Reaped;
    hide TableOk;
    hide SnapsOk;
    hide Meet;
    ReapedInfo(a.procs, p);
    if ev.Exit? || ev.Fault? || ev.Expire? || ev.Preempt? {
      LeaveKeeps(imgs, a, ev, b, p);
      hide Next;
    }
  }

  /** Slot `p` was filled by a restore. */
  predicate Restored(evs: seq<Event>, i: nat, j: nat, p: nat)
    requires j <= |evs|
  {
    exists k: nat :: i <= k < j && evs[k].Restore? && evs[k].pid == p
  }

  /** Until its budget is changed, a payload that was not restored has its image's budget. */
  lemma {:induction false} ImageBudget(imgs: seq<Image>, ss: seq<Sys>, evs: seq<Event>, q: nat, j: nat, p: nat)
    requires IsRun(imgs, ss, evs) && q < j < |ss| && evs[q].Seed? && NoSeed(evs, q + 1, j) && NoBudget(evs, q + 1, j, p)
    requires p < 12 && !Restored(evs, q + 1, j, p)
    ensures |ss[j].procs| == 12
    ensures var info := ss[j].procs[p].info;
      info.state != Empty ==> info.image < |imgs| && info.deadline == imgs[info.image].deadline
    decreases j
  {
    hide Next;
    hide Inv;
    RunInv(imgs, ss, evs, j - 1);
    if j == q + 1 {
      Seeded(imgs, ss, evs, q, p);
    } else {
      ImageBudget(imgs, ss, evs, q, j - 1, p);
      assert Next(imgs, ss[j - 1], evs[j - 1], ss[j]);
      if ss[j - 1].procs[p].info.state == Empty {
        FillStep(imgs, ss[j - 1], evs[j - 1], ss[j], p);
      } else {
        BudgetStep(imgs, ss[j - 1], evs[j - 1], ss[j], p);
        StepKeeps(imgs, ss[j - 1], evs[j - 1], ss[j], p);
      }
    }
  }

  /** A payload that starts was not restored. */
  lemma NotRestored(imgs: seq<Image>, ss: seq<Sys>, evs: seq<Event>, q: nat, i: nat)
    requires IsRun(imgs, ss, evs) && q <= i < |evs| && NoSeed(evs, q, i + 1) && evs[i].Start?
    ensures !Restored(evs, q, i, evs[i].pid)
  {
    hide Next;
    hide Inv;
    if k: nat :| q <= k < i && evs[k].Restore? && evs[k].pid == evs[i].pid {
      StartPid(imgs, ss[i], evs[i], ss[i + 1]);
      StartsIncrease(imgs, ss, evs, k, i);
    }
  }

  // ---- checkpoints and forks ----------------------------------------------

  /** A checkpoint goes into the lowest free place, and changes nothing else. */
  lemma Checkpointed(imgs: seq<Image>, ss: seq<Sys>, evs: seq<Event>, i: nat)
    requires IsRun(imgs, ss, evs) && i < |evs| && evs[i].Checkpoint?
    ensures var a, b, sid := ss[i], ss[i + 1], evs[i].sid;
      && |a.snaps| == |b.snaps| == 4 && sid < 4 && a.snaps[sid].None? && (forall k: nat :: k < sid ==> a.snaps[k].Some?)
      && b.snaps[sid].Some? && (forall k: nat :: k < 4 && k != sid ==> b.snaps[k] == a.snaps[k])
      && b == a.(snaps := b.snaps, lastSnap := sid + 1)
  {
    hide FirstFree;
    assert Next(imgs, ss[i], evs[i], ss[i + 1]);
  }

  /** Forks spent: restores, and the one that could not be made. */
  function ForksSpent(evs: seq<Event>, i: nat, j: nat): nat
    requires i <= j <= |evs|
  {
    if i == j then 0 else ForksSpent(evs, i, j - 1) + if evs[j - 1].Restore? || evs[j - 1] == Finish(true) then 1 else 0
  }

  lemma ForkStep(imgs: seq<Image>, a: Sys, ev: Event, b: Sys)
    requires Next(imgs, a, ev, b) && !ev.Seed?
    ensures if ev.Restore? || ev == Finish(true) then a.autoFork == b.autoFork + 1 else a.autoFork == b.autoFork
    ensures b.lastSnap == if ev.Checkpoint? then ev.sid + 1 else a.lastSnap
    ensures ev.Restore? ==> a.lastSnap == ev.sid + 1
    ensures ev == Finish(false) ==> a.autoFork == 0 || a.lastSnap == 0
  {
    hide First;
    hide Boots;
    hide ReapAll;
    hide Meet;
    hide FirstFree;
    hide Enqueue;
    hide Overdue;
  }

  /** Of the forks a suite was seeded with, each is spent at most once, and none is dropped:
      spent and owed add up. */
  lemma {:induction false} ForksAddUp(imgs: seq<Image>, ss: seq<Sys>, evs: seq<Event>, q: nat, j: nat)
    requires IsRun(imgs, ss, evs) && q < j < |ss| && evs[q].Seed? && NoSeed(evs, q + 1, j)
    ensures ForksSpent(evs, q + 1, j) + ss[j].autoFork == evs[q].forks
    decreases j
  {
    hide Next;
    if j == q + 1 {
      Seeded(imgs, ss, evs, q, 0);
    } else {
      ForksAddUp(imgs, ss, evs, q, j - 1);
      ForkStep(imgs, ss[j - 1], evs[j - 1], ss[j]);
    }
  }

  /** The checkpoint last taken since the suite was seeded, if any. */
  function Latest(evs: seq<Event>, i: nat, j: nat): (r: Option<nat>)
    requires i <= j <= |evs|
    ensures r.Some? ==> i <= r.value < j && evs[r.value].Checkpoint? && forall k: nat :: r.value < k < j ==> !evs[k].Checkpoint?
    ensures r.None? ==> forall k: nat :: i <= k < j ==> !evs[k].Checkpoint?
  {
    if i == j then None else if evs[j - 1].Checkpoint? then Some(j - 1) else Latest(evs, i, j - 1)
  }

  lemma {:induction false} LastSnapIs(imgs: seq<Image>, ss: seq<Sys>, evs: seq<Event>, q: nat, j: nat)
    requires IsRun(imgs, ss, evs) && q < j < |ss| && evs[q].Seed? && NoSeed(evs, q + 1, j)
    ensures var last := Latest(evs, q + 1, j); ss[j].lastSnap == if last.Some? then evs[last.value].sid + 1 else 0
    decreases j
  {
    hide Next;
    if j == q + 1 {
      Seeded(imgs, ss, evs, q, 0);
    } else {
      LastSnapIs(imgs, ss, evs, q, j - 1);
      ForkStep(imgs, ss[j - 1], evs[j - 1], ss[j]);
    }
  }

  /** A fork continues the checkpoint that was taken last, and a suite ends with forks owed
      only when it took none. */
  lemma ForksTheLatest(imgs: seq<Image>, ss: seq<Sys>, evs: seq<Event>, q: nat, j: nat)
    requires IsRun(imgs, ss, evs) && q < j < |evs| && evs[q].Seed? && NoSeed(evs, q + 1, j)
    ensures evs[j].Restore? ==> Latest(evs, q + 1, j).Some? && evs[Latest(evs, q + 1, j).value].sid == evs[j].sid
    ensures evs[j] == Finish(false) ==> ss[j].autoFork == 0 || Latest(evs, q + 1, j).None?
  {
    hide Next;
    if !evs[j].Seed? {
      LastSnapIs(imgs, ss, evs, q, j);
      ForkStep(imgs, ss[j], evs[j], ss[j + 1]);
    }
  }
}
