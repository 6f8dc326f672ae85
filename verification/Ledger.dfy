/** Entries in the kernel's books: each kind of change, what it does to the allocated set,
    and what it does to the process or checkpoint concerned. */
module Ledger {
  import opened FramePool
  import opened Space
  import opened Machine
  import opened Estate
  import opened Books

  function SetInfo(b: Books, p: nat, info: Info): Books
    requires p < |b.table|
  {
    b.(table := b.table[p := b.table[p].(info := info)])
  }

  lemma SetInfoOk(b: Books, m: seq<Frame>, u: set<nat>, p: nat, info: Info)
    requires Consistent(b, m, u) && p < MAX_PROC && b.table[p].info.state != Empty && info.state != Empty
    ensures Consistent(SetInfo(b, p, info), m, u)
    ensures Procs(SetInfo(b, p, info), m) == Procs(b, m)[p := Procs(b, m)[p].(info := info)]
    ensures Snaps(SetInfo(b, p, info), m) == Snaps(b, m)
  {
    hide Held;
    hide View;
    hide Procs;
    hide Snaps;
    HeldLength(b.estate, m, u);
    var b' := SetInfo(b, p, info);
    LinkedSlot(b, b', p);
    SlotStep(b, m, b', m, p);
  }

  lemma HeldLength(e: Estate, m: seq<Frame>, u: set<nat>)
    requires Held(e, m, u)
    ensures |m| == POOL_FRAMES && e.holder.Keys == u
  {
  }

  lemma SpaceHeld(e: Estate, m: seq<Frame>, u: set<nat>, o: Owner)
    requires Held(e, m, u) && o in e.spaces
    ensures Represents(m, e.spaces[o]) && SafeSpace(e.spaces[o]) && e.spaces[o].role.Keys <= u
  {
    hide Represents;
    hide SafeSpace;
  }

  lemma SavedHeld(e: Estate, m: seq<Frame>, u: set<nat>, o: Owner)
    requires Held(e, m, u) && o in e.saved
    ensures e.saved[o] < POOL_FRAMES && e.saved[o] in u && e.saved[o] in e.holder && e.holder[e.saved[o]] == SavedBy(o)
  {
    hide Represents;
    hide SafeSpace;
  }

  /** What the books say about one process slot. */
  lemma SlotFacts(b: Books, m: seq<Frame>, u: set<nat>, p: nat)
    requires Consistent(b, m, u) && p < MAX_PROC
    ensures |m| == POOL_FRAMES && |b.table| == MAX_PROC && |b.snaps| == MAX_SNAP
    ensures SlotLinked(b.table[p], p, b.estate)
    ensures SlotOwner(p) in b.estate.spaces ==> var s := b.estate.spaces[SlotOwner(p)];
      Represents(m, s) && SafeSpace(s) && s.role.Keys <= u && s.root < POOL_FRAMES
    ensures SlotOwner(p) in b.estate.saved ==> var f := b.estate.saved[SlotOwner(p)]; f < POOL_FRAMES && f in u
  {
    hide Represents;
    hide SafeSpace;
    if SlotOwner(p) in b.estate.spaces {
      PathTables(m, b.estate.spaces[SlotOwner(p)], 0);
    }
  }

  lemma SnapFacts(b: Books, m: seq<Frame>, u: set<nat>, i: nat)
    requires Consistent(b, m, u) && i < MAX_SNAP
    ensures |m| == POOL_FRAMES && |b.table| == MAX_PROC && |b.snaps| == MAX_SNAP
    ensures SnapLinked(b.snaps[i], i, b.estate)
    ensures SnapOwner(i) in b.estate.spaces ==> var s := b.estate.spaces[SnapOwner(i)];
      Represents(m, s) && SafeSpace(s) && s.role.Keys <= u && s.root < POOL_FRAMES
    ensures SnapOwner(i) in b.estate.saved ==> var f := b.estate.saved[SnapOwner(i)];
      f < POOL_FRAMES && f in u && (SnapOwner(i) in b.estate.spaces ==> f !in b.estate.spaces[SnapOwner(i)].role)
  {
    hide Represents;
    hide SafeSpace;
    if SnapOwner(i) in b.estate.spaces {
      PathTables(m, b.estate.spaces[SnapOwner(i)], 0);
    }
  }

  /** The books at boot: only the kernel's own space. */
  function BootBooks(s: Space): Books {
    Books(seq(MAX_PROC, i => Slot(NO_INFO, 0, 0)), seq(MAX_SNAP, i => SnapSlot(false, 0, 0, 0, 0)), Pa(s.root),
          AddSpace(Estate(map[], map[], map[]), KernelOwner, s))
  }

  lemma BootBooksOk(m: seq<Frame>, s: Space)
    requires Represents(m, s) && SafeSpace(s) && s.role.Keys == {s.root}
    ensures |m| == POOL_FRAMES && Consistent(BootBooks(s), m, s.role.Keys)
    ensures Procs(BootBooks(s), m) == seq(MAX_PROC, i => NO_PROC)
    ensures Snaps(BootBooks(s), m) == seq(MAX_SNAP, i => None)
    ensures LostFrames(BootBooks(s).estate) == {}
  {
    PathTables(m, s, 0);
    hide Represents;
    hide SafeSpace;
    hide View;
    var none := Estate(map[], map[], map[]);
    assert Held(none, m, {});
    AddSpaceHeld(none, m, {}, m, KernelOwner, s);
    assert {} + s.role.Keys == s.role.Keys;
    hide Held;
    assert LostFrames(none) == {};
  }

  /** An empty slot is filled with a queued process, which owns nothing yet. */
  lemma QueueOk(b: Books, m: seq<Frame>, u: set<nat>, p: nat, info: Info)
    requires Consistent(b, m, u) && p < MAX_PROC && b.table[p].info.state == Empty && info.state != Empty
    ensures |m| == POOL_FRAMES
    ensures var b' := b.(table := b.table[p := Slot(info, 0, 0)]);
      && Consistent(b', m, u)
      && Procs(b', m) == Procs(b, m)[p := Proc(info, None, None)]
      && Snaps(b', m) == Snaps(b, m)
  {
    hide Held;
    hide View;
    hide Procs;
    hide Snaps;
    HeldLength(b.estate, m, u);
    var b' := b.(table := b.table[p := Slot(info, 0, 0)]);
    LinkedSlot(b, b', p);
    SlotStep(b, m, b', m, p);
  }

  /** Writes outside the allocated set change nothing anybody sees. */
  lemma OutsideOk(b: Books, m: seq<Frame>, u: set<nat>, m': seq<Frame>)
    requires Consistent(b, m, u) && |m'| == POOL_FRAMES && forall f: nat :: f in u && f < POOL_FRAMES ==> m'[f] == m[f]
    ensures |m| == POOL_FRAMES && Consistent(b, m', u) && Procs(b, m') == Procs(b, m) && Snaps(b, m') == Snaps(b, m)
  {
    hide Held;
    hide View;
    hide Procs;
    hide Snaps;
    HeldLength(b.estate, m, u);
    HeldFrame(b.estate, m, u, m');
    AgreeByUse(b.estate, m, u, b.estate, m', KernelOwner);
    NobodyMoved(b, m, b, m');
  }

  // ---- giving frames back -------------------------------------------------

  function DropRoot(b: Books, p: nat): Books
    requires p < |b.table| && SlotOwner(p) in b.estate.spaces
  {
    b.(table := b.table[p := b.table[p].(root := 0)], estate := DropSpace(b.estate, SlotOwner(p)))
  }

  lemma DropRootOk(b: Books, m: seq<Frame>, u: set<nat>, p: nat)
    requires Consistent(b, m, u) && p < MAX_PROC && SlotOwner(p) in b.estate.spaces
    ensures Consistent(DropRoot(b, p), m, u - b.estate.spaces[SlotOwner(p)].role.Keys)
    ensures Procs(DropRoot(b, p), m) == Procs(b, m)[p := Procs(b, m)[p].(mem := None)]
    ensures Snaps(DropRoot(b, p), m) == Snaps(b, m)
    ensures LostFrames(DropRoot(b, p).estate) == LostFrames(b.estate)
  {
    hide Held;
    hide View;
    hide Procs;
    hide Snaps;
    hide LostFrames;
    HeldLength(b.estate, m, u);
    var b' := DropRoot(b, p);
    DropSpaceHeld(b.estate, m, u, SlotOwner(p));
    LinkedSlot(b, b', p);
    AgreeByUse(b.estate, m, u, b'.estate, m, SlotOwner(p));
    SlotStep(b, m, b', m, p);
  }

  function DropFrame(b: Books, p: nat): Books
    requires p < |b.table| && SlotOwner(p) in b.estate.saved
  {
    b.(table := b.table[p := b.table[p].(resumeFrame := 0)], estate := DropSaved(b.estate, SlotOwner(p)))
  }

  lemma DropFrameOk(b: Books, m: seq<Frame>, u: set<nat>, p: nat)
    requires Consistent(b, m, u) && p < MAX_PROC && SlotOwner(p) in b.estate.saved
    ensures Consistent(DropFrame(b, p), m, u - {b.estate.saved[SlotOwner(p)]})
    ensures Procs(DropFrame(b, p), m) == Procs(b, m)[p := Procs(b, m)[p].(regs := None)]
    ensures Snaps(DropFrame(b, p), m) == Snaps(b, m)
    ensures LostFrames(DropFrame(b, p).estate) == LostFrames(b.estate)
  {
    hide Held;
    hide View;
    hide Procs;
    hide Snaps;
    hide LostFrames;
    HeldLength(b.estate, m, u);
    var b' := DropFrame(b, p);
    DropSavedHeld(b.estate, m, u, SlotOwner(p));
    LinkedSlot(b, b', p);
    AgreeByUse(b.estate, m, u, b'.estate, m, SlotOwner(p));
    SlotStep(b, m, b', m, p);
  }

  /** A checkpoint slot is freed: its space and its saved frame go back. */
  function DropSnap(b: Books, i: nat): Books
    requires i < |b.snaps| && SnapOwner(i) in b.estate.spaces && SnapOwner(i) in b.estate.saved
  {
    b.(snaps := b.snaps[i := b.snaps[i].(valid := false, root := 0, frame := 0)],
       estate := DropSaved(DropSpace(b.estate, SnapOwner(i)), SnapOwner(i)))
  }

  lemma DropSnapOk(b: Books, m: seq<Frame>, u: set<nat>, i: nat)
    requires Consistent(b, m, u) && i < MAX_SNAP && b.snaps[i].valid
    ensures SnapOwner(i) in b.estate.spaces && SnapOwner(i) in b.estate.saved
    ensures Consistent(DropSnap(b, i), m, u - b.estate.spaces[SnapOwner(i)].role.Keys - {b.estate.saved[SnapOwner(i)]})
    ensures Snaps(DropSnap(b, i), m) == Snaps(b, m)[i := None]
    ensures Procs(DropSnap(b, i), m) == Procs(b, m)
    ensures LostFrames(DropSnap(b, i).estate) == LostFrames(b.estate)
  {
    hide Held;
    hide View;
    hide Procs;
    hide Snaps;
    hide LostFrames;
    HeldLength(b.estate, m, u);
    var o := SnapOwner(i);
    var e1 := DropSpace(b.estate, o);
    var b' := DropSnap(b, i);
    DropSpaceHeld(b.estate, m, u, o);
    DropSavedHeld(e1, m, u - b.estate.spaces[o].role.Keys, o);
    LinkedSnap(b, b', i);
    AgreeByUse(b.estate, m, u, b'.estate, m, o);
    SnapStep(b, m, b', m, i);
  }

  /** One slot of `clear_table`: the slot is marked empty and nothing is freed. */
  function ClearSlot(b: Books, p: nat): Books
    requires p < |b.table|
  {
    b.(table := b.table[p := b.table[p].(info := b.table[p].info.(state := Empty))], estate := Abandon(b.estate, SlotOwner(p)))
  }

  lemma ClearSlotOk(b: Books, m: seq<Frame>, u: set<nat>, p: nat)
    requires Consistent(b, m, u) && p < MAX_PROC
    ensures Consistent(ClearSlot(b, p), m, u)
    ensures Procs(ClearSlot(b, p), m) == Procs(b, m)[p := Cleared(Procs(b, m)[p])]
    ensures Snaps(ClearSlot(b, p), m) == Snaps(b, m)
    ensures LostFrames(ClearSlot(b, p).estate) == LostFrames(b.estate) + set f | f in u && HeldBy(b.estate, SlotOwner(p), f)
  {
    hide Held;
    hide View;
    hide Procs;
    hide Snaps;
    hide LostFrames;
    HeldLength(b.estate, m, u);
    var b' := ClearSlot(b, p);
    AbandonHeld(b.estate, m, u, SlotOwner(p));
    LinkedSlot(b, b', p);
    AgreeByUse(b.estate, m, u, b'.estate, m, SlotOwner(p));
    SlotStep(b, m, b', m, p);
  }

  lemma OwnerHolds(e: Estate, m: seq<Frame>, u: set<nat>, o: Owner)
    requires Held(e, m, u)
    ensures (exists f :: HeldBy(e, o, f)) <==> o in e.spaces || o in e.saved
  {
    hide Held;
    HeldLength(e, m, u);
    if o in e.spaces {
      SpaceHeld(e, m, u, o);
      PathTables(m, e.spaces[o], 0);
      HolderOf(e, m, u, o, e.spaces[o].root);
      assert HeldBy(e, o, e.spaces[o].root);
    }
    if o in e.saved {
      SavedHeld(e, m, u, o);
      assert HeldBy(e, o, e.saved[o]);
    }
    forall f | HeldBy(e, o, f) ensures o in e.spaces || o in e.saved {
      HolderKnown(e, m, u, f);
    }
  }

  lemma HolderKnown(e: Estate, m: seq<Frame>, u: set<nat>, f: nat)
    requires Held(e, m, u) && f in e.holder
    ensures HolderOk(e, f)
  {
    hide Represents;
    hide SafeSpace;
  }

  /** A slot holds frames exactly when its process has memory or saved registers. */
  lemma HoldsFrames(b: Books, m: seq<Frame>, u: set<nat>, p: nat)
    requires Consistent(b, m, u) && p < MAX_PROC
    ensures |m| == POOL_FRAMES
    ensures (exists f :: HeldBy(b.estate, SlotOwner(p), f)) <==> Procs(b, m)[p].mem.Some? || Procs(b, m)[p].regs.Some?
  {
    hide Held;
    hide View;
    hide Procs;
    HeldLength(b.estate, m, u);
    OwnerHolds(b.estate, m, u, SlotOwner(p));
    if SlotOwner(p) in b.estate.saved {
      SavedHeld(b.estate, m, u, SlotOwner(p));
    }
  }

  // ---- taking frames ------------------------------------------------------

  /** Frames that nobody will ever free. */
  function Lose(b: Books, lost: set<nat>): Books { b.(estate := AddLost(b.estate, lost)) }

  lemma LoseOk(b: Books, m: seq<Frame>, u: set<nat>, m': seq<Frame>, lost: set<nat>)
    requires Consistent(b, m, u) && lost !! u && |m'| == POOL_FRAMES && forall f: nat :: f in u && f < POOL_FRAMES ==> m'[f] == m[f]
    ensures Consistent(Lose(b, lost), m', u + lost) && |m| == POOL_FRAMES
    ensures Procs(Lose(b, lost), m') == Procs(b, m) && Snaps(Lose(b, lost), m') == Snaps(b, m)
    ensures LostFrames(Lose(b, lost).estate) == LostFrames(b.estate) + lost
  {
    hide Held;
    hide View;
    hide Procs;
    hide Snaps;
    hide LostFrames;
    HeldLength(b.estate, m, u);
    var b' := Lose(b, lost);
    AddLostHeld(b.estate, m, u, m', lost);
    AgreeByUse(b.estate, m, u, b'.estate, m', KernelOwner);
    LinkedSlot(b, b', 0);
    NobodyMoved(b, m, b', m');
  }

  lemma NobodyMoved(b: Books, m: seq<Frame>, b': Books, m': seq<Frame>)
    requires |b.table| == MAX_PROC && b'.table == b.table && b'.snaps == b.snaps && AgreeOff(b.estate, m, b'.estate, m', KernelOwner)
    ensures Procs(b', m') == Procs(b, m) && Snaps(b', m') == Snaps(b, m)
  {
    hide View;
    hide Procs;
    hide Snaps;
    forall q: nat | q < MAX_PROC ensures ProcAt(b'.table[q], q, b'.estate, m') == ProcAt(b.table[q], q, b.estate, m) {
    }
    forall i: nat | i < |b.snaps| ensures SnapAt(b'.snaps[i], i, b'.estate, m') == SnapAt(b.snaps[i], i, b.estate, m) {
    }
  }

  /** A slot that owned nothing gets a space and a register frame. */
  function Attach(b: Books, p: nat, info: Info, s: Space, f: nat): Books
    requires p < |b.table|
  {
    b.(table := b.table[p := Slot(info, Pa(s.root), Pa(f))],
       estate := AddSaved(AddSpace(b.estate, SlotOwner(p), s), SlotOwner(p), f))
  }

  lemma AttachOk(b: Books, m: seq<Frame>, u: set<nat>, m': seq<Frame>, p: nat, info: Info, s: Space, f: nat)
    requires Consistent(b, m, u) && p < MAX_PROC && info.state != Empty
    requires SlotOwner(p) !in b.estate.spaces && SlotOwner(p) !in b.estate.saved
    requires Represents(m', s) && SafeSpace(s) && s.role.Keys !! u && f !in u && f !in s.role && f < POOL_FRAMES
    requires forall g: nat :: g in u && g < POOL_FRAMES ==> |m'| == POOL_FRAMES && m'[g] == m[g]
    ensures |m'| == |m| == POOL_FRAMES && Consistent(Attach(b, p, info, s, f), m', u + s.role.Keys + {f})
    ensures Procs(Attach(b, p, info, s, f), m') == Procs(b, m)[p := Proc(info, Some(View(m', s)), Some(RegsAt(m'[f])))]
    ensures Snaps(Attach(b, p, info, s, f), m') == Snaps(b, m)
    ensures LostFrames(Attach(b, p, info, s, f).estate) == LostFrames(b.estate)
  {
    hide Held;
    hide View;
    hide Procs;
    hide Snaps;
    hide LostFrames;
    hide Represents;
    hide SafeSpace;
    hide AddSpace;
    hide AddSaved;
    HeldLength(b.estate, m, u);
    PathTables(m', s, 0);
    var o := SlotOwner(p);
    var e1 := AddSpace(b.estate, o, s);
    var b' := Attach(b, p, info, s, f);
    AddSpaceHeld(b.estate, m, u, m', o, s);
    AddedEntries(b.estate, o, s, f);
    AddSavedHeld(e1, m', u + s.role.Keys, m', o, f);
    LinkedSlot(b, b', p);
    AgreeByUse(b.estate, m, u, b'.estate, m', o);
    SlotStep(b, m, b', m', p);
  }

  lemma AddedEntries(e: Estate, o: Owner, s: Space, f: nat)
    ensures AddSpace(e, o, s).saved == e.saved && AddSpace(e, o, s).spaces == e.spaces[o := s]
    ensures var e' := AddSaved(AddSpace(e, o, s), o, f); e'.spaces == e.spaces[o := s] && e'.saved == e.saved[o := f]
  {
  }

  /** A free checkpoint slot gets a space and a register frame. */
  function AttachSnap(b: Books, i: nat, caps: Caps, image: nat, s: Space, f: nat): Books
    requires i < |b.snaps|
  {
    b.(snaps := b.snaps[i := SnapSlot(true, Pa(s.root), Pa(f), caps, image)],
       estate := AddSaved(AddSpace(b.estate, SnapOwner(i), s), SnapOwner(i), f))
  }

  lemma AttachSnapOk(b: Books, m: seq<Frame>, u: set<nat>, m': seq<Frame>, i: nat, caps: Caps, image: nat, s: Space, f: nat)
    requires Consistent(b, m, u) && i < MAX_SNAP && !b.snaps[i].valid
    requires Represents(m', s) && SafeSpace(s) && s.role.Keys !! u && f !in u && f !in s.role && f < POOL_FRAMES
    requires forall g: nat :: g in u && g < POOL_FRAMES ==> |m'| == POOL_FRAMES && m'[g] == m[g]
    ensures |m'| == |m| == POOL_FRAMES && Consistent(AttachSnap(b, i, caps, image, s, f), m', u + s.role.Keys + {f})
    ensures Snaps(AttachSnap(b, i, caps, image, s, f), m') == Snaps(b, m)[i := Some(Snap(View(m', s), RegsAt(m'[f]), caps, image))]
    ensures Procs(AttachSnap(b, i, caps, image, s, f), m') == Procs(b, m)
    ensures LostFrames(AttachSnap(b, i, caps, image, s, f).estate) == LostFrames(b.estate)
  {
    hide Held;
    hide View;
    hide Procs;
    hide Snaps;
    hide LostFrames;
    hide Represents;
    hide SafeSpace;
    hide AddSpace;
    hide AddSaved;
    HeldLength(b.estate, m, u);
    PathTables(m', s, 0);
    var o := SnapOwner(i);
    var e1 := AddSpace(b.estate, o, s);
    var b' := AttachSnap(b, i, caps, image, s, f);
    AddSpaceHeld(b.estate, m, u, m', o, s);
    AddedEntries(b.estate, o, s, f);
    AddSavedHeld(e1, m', u + s.role.Keys, m', o, f);
    LinkedSnap(b, b', i);
    AgreeByUse(b.estate, m, u, b'.estate, m', o);
    SnapStep(b, m, b', m', i);
  }

  // ---- writing into owned frames ------------------------------------------

  /** Registers saved into a process's own frame. */
  lemma SaveRegsOk(b: Books, m: seq<Frame>, u: set<nat>, p: nat, x: Frame)
    requires Consistent(b, m, u) && p < MAX_PROC && SlotOwner(p) in b.estate.saved && b.estate.saved[SlotOwner(p)] < POOL_FRAMES
    ensures var m' := m[b.estate.saved[SlotOwner(p)] := x];
      && Consistent(b, m', u)
      && Procs(b, m') == Procs(b, m)[p := Procs(b, m)[p].(regs := Some(RegsAt(x)))]
      && Snaps(b, m') == Snaps(b, m)
  {
    hide Held;
    hide View;
    hide Procs;
    hide Snaps;
    HeldLength(b.estate, m, u);
    SavedHeld(b.estate, m, u, SlotOwner(p));
    var f := b.estate.saved[SlotOwner(p)];
    WriteHeld(b.estate, m, u, f, x);
    AgreeByWrite(b.estate, m, u, f, x, SlotOwner(p));
    SlotStep(b, m, b, m[f := x], p);
    if SlotOwner(p) in b.estate.spaces {
      SpaceHeld(b.estate, m, u, SlotOwner(p));
      NotInSpace(b.estate, m, u, SlotOwner(p), f);
      ViewFrame(m, m[f := x], b.estate.spaces[SlotOwner(p)]);
    }
  }

  lemma NotInSpace(e: Estate, m: seq<Frame>, u: set<nat>, o: Owner, f: nat)
    requires Held(e, m, u) && o in e.spaces && f in e.holder && e.holder[f].SavedBy?
    ensures f !in e.spaces[o].role
  {
    hide Represents;
    hide SafeSpace;
  }

  /** A store into a process's own data page. */
  lemma StorePageOk(b: Books, m: seq<Frame>, u: set<nat>, p: nat, v: nat, x: Frame)
    requires Consistent(b, m, u) && p < MAX_PROC && SlotOwner(p) in b.estate.spaces
    requires var s := b.estate.spaces[SlotOwner(p)]; v in s.leaves && s.leaves[v].User() && s.leaves[v].Owned()
    ensures |m| == POOL_FRAMES
    ensures var s := b.estate.spaces[SlotOwner(p)]; var m' := m[s.leaves[v].Frame() := x]; var a := Procs(b, m)[p];
      && Consistent(b, m', u)
      && a.mem.Some? && v in a.mem.value && a.mem.value[v].Own?
      && Procs(b, m') == Procs(b, m)[p := a.(mem := Some(a.mem.value[v := Own(a.mem.value[v].perms, x)]))]
      && Snaps(b, m') == Snaps(b, m)
  {
    hide Held;
    hide Procs;
    hide Snaps;
    hide Represents;
    HeldLength(b.estate, m, u);
    var o := SlotOwner(p);
    var s := b.estate.spaces[o];
    SpaceHeld(b.estate, m, u, o);
    OwnedPage(m, s, v);
    var f := s.leaves[v].Frame();
    HolderOf(b.estate, m, u, o, f);
    WriteHeld(b.estate, m, u, f, x);
    AgreeByWrite(b.estate, m, u, f, x, o);
    SlotStep(b, m, b, m[f := x], p);
    if o in b.estate.saved {
      SavedHeld(b.estate, m, u, o);
    }
    StoreView(m, s, v, x);
  }

  lemma HolderOf(e: Estate, m: seq<Frame>, u: set<nat>, o: Owner, f: nat)
    requires Held(e, m, u) && o in e.spaces && f in e.spaces[o].role
    ensures f in e.holder && e.holder[f] == InSpace(o)
  {
    hide Represents;
    hide SafeSpace;
  }

  /** Changing one data frame changes the one page mapped on it. */
  lemma StoreView(m: seq<Frame>, s: Space, v: nat, x: Frame)
    requires Represents(m, s) && |m| == POOL_FRAMES && v in s.leaves && s.leaves[v].User() && s.leaves[v].Owned()
    ensures View(m[s.leaves[v].Frame() := x], s) == View(m, s)[v := Own(s.leaves[v].perms.(g := false), x)]
  {
    hide Represents;
    forall y | y in s.leaves && y != v && s.leaves[y].Owned() ensures s.leaves[y].Frame() != s.leaves[v].Frame() {
      OwnedPage(m, s, v);
      OwnedPage(m, s, y);
    }
  }
}
