/** Who owns which frame of the pool.

    Every frame in use has exactly one holder: an address space, a saved register frame, or
    nobody any more. `holder` is a map, so the footprints of the kernel root, the process
    slots and the checkpoints are disjoint, and together they are all that is allocated. */
module Estate {
  import opened Pte
  import opened FramePool
  import opened Space
  import opened PageTables
  import opened Translate
  import opened Fork
  import opened Machine
  import Elf

  datatype Owner = KernelOwner | SlotOwner(p: nat) | SnapOwner(i: nat)

  datatype Holder = InSpace(o: Owner) | SavedBy(o: Owner) | Lost

  datatype Estate = Estate(spaces: map<Owner, Space>, saved: map<Owner, nat>, holder: map<nat, Holder>)

  /** The kernel gigapage is the only superpage, U-mode never sees a page that is both
      writable and executable, and pages outside the pool are read-only. */
  ghost predicate SafeSpace(s: Space) {
    && s.gigas == map[KERNEL_SLOT := KERNEL_LEAF]
    && Elf.NoWx(s)
    && forall v :: v in s.leaves && s.leaves[v].perms.Live() && !s.leaves[v].Owned() ==> !s.leaves[v].perms.w
  }

  predicate HolderOk(e: Estate, f: nat)
    requires f in e.holder
  {
    match e.holder[f]
    case InSpace(o) => o in e.spaces && f in e.spaces[o].role
    case SavedBy(o) => o in e.saved && e.saved[o] == f
    case Lost => true
  }

  /** The estate accounts for the allocated set `u` of memory `m`. */
  ghost predicate Held(e: Estate, m: seq<Frame>, u: set<nat>) {
    && |m| == POOL_FRAMES && e.holder.Keys == u
    && (forall o :: o in e.spaces ==> Represents(m, e.spaces[o]) && SafeSpace(e.spaces[o]))
    && (forall o, f :: o in e.spaces && f in e.spaces[o].role ==> f in e.holder && e.holder[f] == InSpace(o))
    && (forall o :: o in e.saved ==> e.saved[o] < POOL_FRAMES && e.saved[o] in e.holder && e.holder[e.saved[o]] == SavedBy(o))
    && (forall f :: f in e.holder ==> HolderOk(e, f))
  }

  ghost function LostFrames(e: Estate): set<nat> {
    set f | f in e.holder && e.holder[f] == Lost
  }

  /** Isolation: a live page in the pool is a data frame of its own space alone; it is no
      table, no saved register frame, and nobody else's. A live page outside the pool is
      read-only, and the kernel's gigapage is closed to U-mode. */
  lemma Isolation(e: Estate, m: seq<Frame>, u: set<nat>, o: Owner, v: nat)
    requires Held(e, m, u) && o in e.spaces && v in e.spaces[o].leaves && e.spaces[o].leaves[v].perms.Live()
    ensures var leaf := e.spaces[o].leaves[v];
      if leaf.Owned()
      then (forall x :: x in e.spaces ==> !e.spaces[x].IsTable(leaf.Frame()) && (x != o ==> leaf.Frame() !in e.spaces[x].role))
           && forall x :: x in e.saved ==> e.saved[x] != leaf.Frame()
      else !leaf.perms.w
    ensures e.spaces[o].gigas.Keys == {KERNEL_SLOT} && !e.spaces[o].gigas[KERNEL_SLOT].perms.u && v / SLOTS / SLOTS != KERNEL_SLOT
  {
    hide Represents;
    var s := e.spaces[o];
    PathTables(m, s, v);
    GigaOrTable(m, s, KERNEL_SLOT);
    if s.leaves[v].Owned() {
      OwnedPage(m, s, v);
      var f := s.leaves[v].Frame();
      assert e.holder[f] == InSpace(o);
    }
  }

  // ---- what an owner sees -------------------------------------------------

  /** The user pages of a space, by value. */
  ghost function View(m: seq<Frame>, s: Space): Memory
    requires |m| == POOL_FRAMES
  {
    map v | v in s.leaves && s.leaves[v].User() :: PageView(m, s.leaves[v])
  }

  ghost function PageView(m: seq<Frame>, leaf: Leaf): Page
    requires |m| == POOL_FRAMES
  {
    if leaf.Owned() then Own(leaf.perms.(g := false), m[leaf.Frame()]) else Shared(leaf.perms.(g := false), leaf.ppn)
  }

  /** The registers in a saved frame: x1..x31, then sepc and sstatus. */
  function RegsAt(f: Frame): Regs { Regs(f[..31], f[31], f[32]) }

  /** A copied space looks exactly like its original. */
  lemma CopyLooksSame(m: seq<Frame>, s: Space, d: Space)
    requires |m| == POOL_FRAMES && IsCopy(m, s, d)
    ensures View(m, d) == View(m, s)
  {
    forall v | v in d.leaves
      ensures d.leaves[v].User() && PageView(m, d.leaves[v]) == PageView(m, s.leaves[v])
    {
      assert PageCopied(m, s.leaves[v], d.leaves[v]);
    }
  }

  /** What a process's memory says is what it reads. */
  lemma ViewReads(m: seq<Frame>, s: Space, va: nat)
    requires Represents(m, s)
    ensures |m| == POOL_FRAMES
    ensures var mem, v := View(m, s), va / 4096 % 0x800_0000;
      UserByte(m, s, va) == if v in mem && mem[v].Own? && mem[v].perms.r then Some(FrameByte(mem[v].data, va % 4096)) else None
  {
    hide Represents;
    hide UserByte;
    hide FrameByte;
    TreeFrames(m, s);
    UserByteExact(m, s, va);
  }

  /** A copy reads the same at every address, and may be written where the original may. */
  lemma CopyReadsSame(m: seq<Frame>, s: Space, d: Space, va: nat)
    requires Represents(m, s) && Represents(m, d) && IsCopy(m, s, d)
    ensures |m| == POOL_FRAMES && UserByte(m, d, va) == UserByte(m, s, va)
    ensures Lookup(d, va, USER_WRITE).Some? <==> Lookup(s, va, USER_WRITE).Some?
  {
    hide Represents;
    hide UserByte;
    hide FrameByte;
    hide Lookup;
    TreeFrames(m, s);
    CopyLooksSame(m, s, d);
    ViewReads(m, s, va);
    ViewReads(m, d, va);
    UserWriteExact(m, s, va);
    UserWriteExact(m, d, va);
    ViewWrites(m, s, va / 4096 % 0x800_0000);
    ViewWrites(m, d, va / 4096 % 0x800_0000);
    hide View;
    hide IsCopy;
  }

  lemma ViewWrites(m: seq<Frame>, s: Space, v: nat)
    requires |m| == POOL_FRAMES
    ensures v in s.leaves && s.leaves[v].perms.w && s.leaves[v].perms.u <==> v in View(m, s) && View(m, s)[v].perms.w
  {
  }

  lemma CopyIsSafe(m: seq<Frame>, s: Space, d: Space)
    requires |m| == POOL_FRAMES && IsCopy(m, s, d) && SafeSpace(s)
    ensures SafeSpace(d)
  {
    forall v | v in d.leaves
      ensures !(d.leaves[v].perms.w && d.leaves[v].perms.x)
      ensures d.leaves[v].perms.Live() && !d.leaves[v].Owned() ==> !d.leaves[v].perms.w
    {
      assert PageCopied(m, s.leaves[v], d.leaves[v]);
    }
  }

  /** What a space shows depends only on its own frames. */
  lemma ViewFrame(m: seq<Frame>, m': seq<Frame>, s: Space)
    requires Represents(m, s) && |m'| == POOL_FRAMES && forall f: nat :: f in s.role && f < POOL_FRAMES ==> m'[f] == m[f]
    ensures |m| == POOL_FRAMES && View(m', s) == View(m, s)
  {
    hide Represents;
    PathTables(m, s, 0);
    forall v | v in s.leaves && s.leaves[v].User()
      ensures PageView(m', s.leaves[v]) == PageView(m, s.leaves[v])
    {
      if s.leaves[v].Owned() {
        OwnedPage(m, s, v);
      }
    }
  }

  lemma SafeView(m: seq<Frame>, s: Space)
    requires |m| == POOL_FRAMES && SafeSpace(s)
    ensures SafeMemory(View(m, s))
  {
  }

  // ---- keeping the books --------------------------------------------------

  /** Memory outside the allocated set does not matter. */
  lemma HeldFrame(e: Estate, m: seq<Frame>, u: set<nat>, m': seq<Frame>)
    requires Held(e, m, u) && |m'| == POOL_FRAMES && forall f: nat :: f in u && f < POOL_FRAMES ==> m'[f] == m[f]
    ensures Held(e, m', u)
  {
    hide Represents;
    hide SafeSpace;
    forall o | o in e.spaces ensures Represents(m', e.spaces[o]) {
      RepresentsFrame(m, m', e.spaces[o]);
    }
  }

  function AddSpace(e: Estate, o: Owner, s: Space): Estate {
    e.(spaces := e.spaces[o := s], holder := e.holder + map f | f in s.role :: InSpace(o))
  }

  lemma AddSpaceHeld(e: Estate, m: seq<Frame>, u: set<nat>, m': seq<Frame>, o: Owner, s: Space)
    requires Held(e, m, u) && o !in e.spaces && Represents(m', s) && SafeSpace(s) && s.role.Keys !! u
    requires forall f: nat :: f in u && f < POOL_FRAMES ==> m'[f] == m[f]
    ensures Held(AddSpace(e, o, s), m', u + s.role.Keys)
    ensures LostFrames(AddSpace(e, o, s)) == LostFrames(e)
  {
    hide Represents;
    hide SafeSpace;
    PathTables(m', s, 0);
    HeldFrame(e, m, u, m');
    var e' := AddSpace(e, o, s);
    forall f | f in e'.holder ensures HolderOk(e', f) {
      if f !in s.role {
        assert HolderOk(e, f);
      }
    }
  }

  function DropSpace(e: Estate, o: Owner): Estate
    requires o in e.spaces
  {
    e.(spaces := e.spaces - {o}, holder := e.holder - e.spaces[o].role.Keys)
  }

  lemma DropSpaceHeld(e: Estate, m: seq<Frame>, u: set<nat>, o: Owner)
    requires Held(e, m, u) && o in e.spaces
    ensures Held(DropSpace(e, o), m, u - e.spaces[o].role.Keys)
    ensures LostFrames(DropSpace(e, o)) == LostFrames(e)
  {
    hide Represents;
    hide SafeSpace;
    var e' := DropSpace(e, o);
    forall f | f in e'.holder ensures HolderOk(e', f) {
      assert HolderOk(e, f);
    }
    DropSpaceLost(e, m, u, o);
    hide LostFrames;
    hide HolderOk;
    forall p, f | p in e'.spaces && f in e'.spaces[p].role ensures f in e'.holder && e'.holder[f] == InSpace(p) {
      OneSpace(e, m, u, p, o, f);
    }
    forall p | p in e'.saved ensures e'.saved[p] in e'.holder && e'.holder[e'.saved[p]] == SavedBy(p) {
      assert p in e.saved && e.saved[p] !in e.spaces[o].role;
    }
  }

  /** A frame is in one space only. */
  lemma OneSpace(e: Estate, m: seq<Frame>, u: set<nat>, p: Owner, o: Owner, f: nat)
    requires Held(e, m, u) && p in e.spaces && o in e.spaces && p != o && f in e.spaces[p].role
    ensures f !in e.spaces[o].role && f in e.holder && e.holder[f] == InSpace(p)
  {
    hide Represents;
    hide SafeSpace;
    hide HolderOk;
  }

  lemma DropSpaceLost(e: Estate, m: seq<Frame>, u: set<nat>, o: Owner)
    requires Held(e, m, u) && o in e.spaces
    ensures LostFrames(DropSpace(e, o)) == LostFrames(e)
  {
    hide Represents;
    hide SafeSpace;
    assert forall f :: f in LostFrames(e) ==> f !in e.spaces[o].role;
  }

  function AddSaved(e: Estate, o: Owner, f: nat): Estate {
    e.(saved := e.saved[o := f], holder := e.holder[f := SavedBy(o)])
  }

  lemma AddSavedHeld(e: Estate, m: seq<Frame>, u: set<nat>, m': seq<Frame>, o: Owner, f: nat)
    requires Held(e, m, u) && o !in e.saved && f !in u && f < POOL_FRAMES && |m'| == POOL_FRAMES
    requires forall g: nat :: g in u && g < POOL_FRAMES ==> m'[g] == m[g]
    ensures Held(AddSaved(e, o, f), m', u + {f})
    ensures LostFrames(AddSaved(e, o, f)) == LostFrames(e)
  {
    hide Represents;
    hide SafeSpace;
    HeldFrame(e, m, u, m');
    var e' := AddSaved(e, o, f);
    forall g | g in e'.holder ensures HolderOk(e', g) {
      if g != f {
        assert HolderOk(e, g);
      }
    }
  }

  function DropSaved(e: Estate, o: Owner): Estate
    requires o in e.saved
  {
    e.(saved := e.saved - {o}, holder := e.holder - {e.saved[o]})
  }

  lemma DropSavedHeld(e: Estate, m: seq<Frame>, u: set<nat>, o: Owner)
    requires Held(e, m, u) && o in e.saved
    ensures Held(DropSaved(e, o), m, u - {e.saved[o]})
    ensures LostFrames(DropSaved(e, o)) == LostFrames(e)
  {
    hide Represents;
    hide SafeSpace;
    var e' := DropSaved(e, o);
    forall f | f in e'.holder ensures HolderOk(e', f) {
      assert HolderOk(e, f);
    }
  }

  function AddLost(e: Estate, lost: set<nat>): Estate {
    e.(holder := e.holder + map f | f in lost :: Lost)
  }

  lemma AddLostHeld(e: Estate, m: seq<Frame>, u: set<nat>, m': seq<Frame>, lost: set<nat>)
    requires Held(e, m, u) && lost !! u && |m'| == POOL_FRAMES && forall f: nat :: f in u && f < POOL_FRAMES ==> m'[f] == m[f]
    ensures Held(AddLost(e, lost), m', u + lost)
    ensures LostFrames(AddLost(e, lost)) == LostFrames(e) + lost
  {
    hide Represents;
    hide SafeSpace;
    HeldFrame(e, m, u, m');
    var e' := AddLost(e, lost);
    forall f | f in e'.holder ensures HolderOk(e', f) {
      if f !in lost {
        assert HolderOk(e, f);
      }
    }
  }

  predicate HeldBy(e: Estate, o: Owner, f: nat) {
    f in e.holder && (e.holder[f] == InSpace(o) || e.holder[f] == SavedBy(o))
  }

  /** The owner is forgotten without its frames being freed. */
  function Abandon(e: Estate, o: Owner): Estate {
    Estate(e.spaces - {o}, e.saved - {o}, map f | f in e.holder :: if HeldBy(e, o, f) then Lost else e.holder[f])
  }

  lemma AbandonHeld(e: Estate, m: seq<Frame>, u: set<nat>, o: Owner)
    requires Held(e, m, u)
    ensures Held(Abandon(e, o), m, u)
    ensures LostFrames(Abandon(e, o)) == LostFrames(e) + set f | f in u && HeldBy(e, o, f)
  {
    hide Represents;
    hide SafeSpace;
    var e' := Abandon(e, o);
    forall f | f in e'.holder ensures HolderOk(e', f) {
      assert HolderOk(e, f);
    }
  }

  /** Writing into a saved frame or a data page moves no frame between holders. */
  lemma WriteHeld(e: Estate, m: seq<Frame>, u: set<nat>, f: nat, x: Frame)
    requires Held(e, m, u) && f < POOL_FRAMES && f in e.holder
    requires e.holder[f].SavedBy? || (e.holder[f].InSpace? && !e.spaces[e.holder[f].o].IsTable(f))
    ensures Held(e, m[f := x], u)
  {
    hide SafeSpace;
    hide Represents;
    assert HolderOk(e, f);
    forall o | o in e.spaces ensures Represents(m[f := x], e.spaces[o]) {
      RepresentsFrame(m, m[f := x], e.spaces[o]);
    }
  }
}
