/** Copying an address space (kernel/src/mm.rs, `deep_copy` and `copy_user_pages`). */
module Fork {
  import opened Words
  import opened Pte
  import opened FramePool
  import opened Space
  import opened PageTables
  import opened Teardown
  import opened Census

  /** The copy of a page: same permissions (G is not copied); a pool page has its own
      frame with the same contents, a page outside the pool is shared. */
  ghost predicate PageCopied(m: seq<Frame>, from: Leaf, to: Leaf)
    requires |m| == POOL_FRAMES
  {
    && to.perms == from.perms.(g := false)
    && (from.Owned() ==> to.Owned() && m[to.Frame()] == m[from.Frame()])
    && (!from.Owned() ==> to.ppn == from.ppn)
  }

  /** The user pages of `s` below page `b`, and only those, are copied into `d`. */
  ghost predicate CopiedUpTo(m: seq<Frame>, s: Space, d: Space, b: nat)
    requires |m| == POOL_FRAMES
  {
    && (forall v :: v in d.leaves <==> v in s.leaves && s.leaves[v].User() && v < b)
    && (forall v :: v in d.leaves ==> PageCopied(m, s.leaves[v], d.leaves[v]))
  }

  /** While `d` is being built, everything allocated is either from before (unchanged) or
      part of `d`. */
  ghost predicate Copying(m0: seq<Frame>, u0: set<nat>, s: Space, m: seq<Frame>, u: set<nat>, d: Space) {
    && Represents(m0, s) && |m| == POOL_FRAMES
    && s.role.Keys <= u0
    && (forall f: nat :: f in u0 && f < POOL_FRAMES ==> m[f] == m0[f])
    && Represents(m, d)
    && u == u0 + d.role.Keys
    && d.role.Keys !! u0
  }

  lemma CopyingFacts(m0: seq<Frame>, u0: set<nat>, s: Space, m: seq<Frame>, u: set<nat>, d: Space)
    requires Copying(m0, u0, s, m, u, d)
    ensures |m| == POOL_FRAMES && Represents(m, s) && Represents(m, d) && d.role.Keys <= u && s.role.Keys <= u0
    ensures u == u0 + d.role.Keys && d.role.Keys !! u0
  {
    RepresentsFrame(m0, m, s);
    hide Represents;
  }

  /** Mapping a page into `d`: of the frames `data` set aside for the page, those in
      `kept` ended up in `d`. */
  lemma CopyingMapped(m0: seq<Frame>, u0: set<nat>, s: Space, m: seq<Frame>, u: set<nat>, d: Space,
                      m': seq<Frame>, d': Space, grew: set<nat>, data: set<nat>, kept: set<nat>)
    requires Copying(m0, u0, s, m, u, d) && data !! u && kept <= data
    requires Grown(m, u + data, d, m', u + data + grew, d') && grew !! u + data
    requires d'.role.Keys == d.role.Keys + grew + kept
    ensures Copying(m0, u0, s, m', u + grew + kept, d')
    ensures forall f: nat :: f in u && f < POOL_FRAMES && !d.IsTable(f) ==> m'[f] == m[f]
  {
    TreeFrames(m', d');
    hide Represents;
    assert forall f: nat :: f in u0 && f < POOL_FRAMES ==> !d.IsTable(f);
  }

  /** Filling a frame nobody owns changes nothing that is owned. */
  lemma CopyingFresh(m0: seq<Frame>, u0: set<nat>, s: Space, m: seq<Frame>, u: set<nat>, d: Space, m': seq<Frame>, f: nat, b: nat)
    requires Copying(m0, u0, s, m, u, d) && f !in u && |m'| == POOL_FRAMES && CopiedUpTo(m, s, d, b)
    requires forall g: nat :: g < POOL_FRAMES && g != f ==> m'[g] == m[g]
    ensures Copying(m0, u0, s, m', u, d) && CopiedUpTo(m', s, d, b)
  {
    hide Represents;
    RepresentsFrame(m, m', d);
    TreeFrames(m0, s);
    TreeFrames(m, d);
  }

  lemma CopiedOneMore(m: seq<Frame>, s: Space, d: Space, m': seq<Frame>, d': Space, v: nat, leaf: Leaf)
    requires |m| == |m'| == POOL_FRAMES && CopiedUpTo(m, s, d, v) && v in s.leaves && s.leaves[v].User()
    requires d'.leaves == d.leaves[v := leaf] && PageCopied(m', s.leaves[v], leaf)
    requires forall x :: x in s.leaves && s.leaves[x].Owned() ==> m'[s.leaves[x].Frame()] == m[s.leaves[x].Frame()]
    requires forall x :: x in d.leaves && d.leaves[x].Owned() ==> m'[d.leaves[x].Frame()] == m[d.leaves[x].Frame()]
    ensures CopiedUpTo(m', s, d', v + 1)
  {
  }

  lemma CopiedSkip(m: seq<Frame>, s: Space, d: Space, b: nat, b': nat)
    requires |m| == POOL_FRAMES && CopiedUpTo(m, s, d, b) && b <= b'
    requires forall v :: v in s.leaves && b <= v < b' ==> !s.leaves[v].User()
    ensures CopiedUpTo(m, s, d, b')
  {
  }

  /** Pages stay as they were while `d` grows. */
  lemma PagesKept(m0: seq<Frame>, u0: set<nat>, s: Space, m: seq<Frame>, u: set<nat>, d: Space,
                  m': seq<Frame>, u': set<nat>, d': Space)
    requires Copying(m0, u0, s, m, u, d) && Copying(m0, u0, s, m', u', d')
    requires forall f: nat :: f in u && f < POOL_FRAMES && !d.IsTable(f) ==> m'[f] == m[f]
    ensures forall x :: x in s.leaves && s.leaves[x].Owned() ==> m'[s.leaves[x].Frame()] == m[s.leaves[x].Frame()]
    ensures forall x :: x in d.leaves && d.leaves[x].Owned() ==> m'[d.leaves[x].Frame()] == m[d.leaves[x].Frame()]
  {
    hide Represents;
    TreeFrames(m0, s);
    TreeFrames(m, d);
  }

  /** The leaf branch of `copy_user_pages`. */
  method CopyPage(dst: AddressSpace, pool: Pool, va: nat, pte: Word,
                  ghost m0: seq<Frame>, ghost u0: set<nat>, ghost s: Space, ghost d: Space, ghost v: nat)
    returns (ok: bool, ghost d': Space)
    requires pool.Valid() && Copying(m0, u0, s, pool.mem, pool.used, d) && dst.root == Pa(d.root)
    requires v in s.leaves && s.leaves[v].User() && va == v * PAGE_SIZE && v < VPN_LIMIT
    requires PpnOf(pte) == s.leaves[v].ppn && PermsOf(pte) == s.leaves[v].perms
    requires CopiedUpTo(pool.mem, s, d, v) && Partial(s, d)
    modifies pool
    ensures pool.Valid() && Copying(m0, u0, s, pool.mem, pool.used, d') && Partial(s, d')
    ensures d'.root == d.root && d'.gigas == d.gigas
    ensures ok ==> CopiedUpTo(pool.mem, s, d', v + 1)
    ensures !ok ==> Stuck(pool.liveCount, s, d', v)
  {
    hide Represents;
    hide Grown;
    hide Copying;
    hide CopiedUpTo;
    hide PageOf;
    hide Pool.Valid;
    hide PpnOf;
    hide PermsOf;
    hide Missing;
    hide Partial;
    hide Stuck;
    var src := PpnOf(pte) * PAGE_SIZE;
    PageOfBase(v);
    FreePage(s.leaves[v]);
    CopyingFacts(m0, u0, s, pool.mem, pool.used, d);
    TreeFrames(pool.mem, s);
    if !InPool(src) {
      ok, d' := ShareWindow(dst, pool, va, pte, m0, u0, s, d, v);
    } else {
      ok, d' := ClonePage(dst, pool, va, pte, m0, u0, s, d, v);
    }
  }

  /** A page outside the pool is a kernel-provided window: it is mapped again, not copied. */
  method ShareWindow(dst: AddressSpace, pool: Pool, va: nat, pte: Word,
                     ghost m0: seq<Frame>, ghost u0: set<nat>, ghost s: Space, ghost d: Space, ghost v: nat)
    returns (ok: bool, ghost d': Space)
    requires pool.Valid() && Copying(m0, u0, s, pool.mem, pool.used, d) && dst.root == Pa(d.root)
    requires v in s.leaves && s.leaves[v].User() && !s.leaves[v].Owned() && PageOf(va) == v
    requires PpnOf(pte) == s.leaves[v].ppn && PermsOf(pte) == s.leaves[v].perms
    requires CopiedUpTo(pool.mem, s, d, v) && Partial(s, d)
    modifies pool
    ensures pool.Valid() && Copying(m0, u0, s, pool.mem, pool.used, d') && Partial(s, d')
    ensures d'.root == d.root && d'.gigas == d.gigas
    ensures ok ==> CopiedUpTo(pool.mem, s, d', v + 1)
    ensures !ok ==> Stuck(pool.liveCount, s, d', v)
  {
    hide Represents;
    hide Grown;
    hide Copying;
    hide CopiedUpTo;
    hide PageOf;
    hide Pool.Valid;
    hide PpnOf;
    hide PermsOf;
    hide Missing;
    hide Partial;
    hide OnlyPath;
    CopyingFacts(m0, u0, s, pool.mem, pool.used, d);
    NotYet(pool.mem, s, d, v);
    ghost var m, u := pool.mem, pool.used;
    var perms := PermsOf(pte).(g := false);
    ghost var leaf := Leaf(s.leaves[v].ppn, perms);
    var r;
    ghost var grew;
    r, d', grew := MapPage(dst, pool, va, PpnOf(pte) * PAGE_SIZE, perms, d);
    assert u + {} == u && u + {} + grew == u + grew + {} == pool.used;
    assert d.role.Keys + grew + {} == d.role.Keys + grew;
    GrownFacts(m, u, d, pool.mem, pool.used, d');
    CopyingMapped(m0, u0, s, m, u, d, pool.mem, d', grew, {}, {});
    PartialGrows(m, s, d, d', v);
    if r == Ok {
      PagesKept(m0, u0, s, m, u, d, pool.mem, pool.used, d');
      CopiedOneMore(m, s, d, pool.mem, d', v, leaf);
    }
    ok := r == Ok;
  }

  /** A pool page gets a frame of its own with the same bytes. */
  method ClonePage(dst: AddressSpace, pool: Pool, va: nat, pte: Word,
                   ghost m0: seq<Frame>, ghost u0: set<nat>, ghost s: Space, ghost d: Space, ghost v: nat)
    returns (ok: bool, ghost d': Space)
    requires pool.Valid() && Copying(m0, u0, s, pool.mem, pool.used, d) && dst.root == Pa(d.root)
    requires v in s.leaves && s.leaves[v].User() && s.leaves[v].Owned() && PageOf(va) == v
    requires PpnOf(pte) == s.leaves[v].ppn && PermsOf(pte) == s.leaves[v].perms
    requires CopiedUpTo(pool.mem, s, d, v) && Partial(s, d)
    modifies pool
    ensures pool.Valid() && Copying(m0, u0, s, pool.mem, pool.used, d') && Partial(s, d')
    ensures d'.root == d.root && d'.gigas == d.gigas
    ensures ok ==> CopiedUpTo(pool.mem, s, d', v + 1)
    ensures !ok ==> Stuck(pool.liveCount, s, d', v)
  {
    hide Represents;
    hide Grown;
    hide Copying;
    hide CopiedUpTo;
    hide PageOf;
    hide Pool.Valid;
    hide PpnOf;
    hide PermsOf;
    hide Missing;
    hide Pa;
    hide FrameAt;
    hide InPool;
    hide Partial;
    hide OnlyPath;
    CopyingFacts(m0, u0, s, pool.mem, pool.used, d);
    NotYet(pool.mem, s, d, v);
    OwnedPage(pool.mem, s, v);
    FreePage(s.leaves[v]);
    ghost var m, u := pool.mem, pool.used;
    var newFrame := DuplicateFrame(pool, PpnOf(pte) * PAGE_SIZE);
    if newFrame.None? {
      return false, d;
    }
    ghost var f, m1 := FrameAt(newFrame.value), pool.mem;
    CopyingFresh(m0, u0, s, m, u, d, m1, f, v);
    CopyingFacts(m0, u0, s, m1, u, d);
    PoolPpn(f);
    var perms := PermsOf(pte).(g := false);
    ghost var leaf := Leaf(BASE_PPN + f, perms);
    var r;
    ghost var grew;
    r, d', grew := MapPage(dst, pool, va, newFrame.value, perms, d);
    GrownFacts(m1, u + {f}, d, pool.mem, pool.used, d');
    PartialGrows(m1, s, d, d', v);
    if r != Ok {
      CopyingMapped(m0, u0, s, m1, u, d, pool.mem, d', grew, {f}, {});
      assert pool.used - {f} == u + grew + {};
      pool.Free(newFrame.value);
      assert pool.used == u + grew + {};
      return false, d';
    }
    CloneMapped(m0, u0, s, m1, u, d, pool.mem, pool.used, d', grew, f, v);
    return true, d';
  }

  lemma NotYet(m: seq<Frame>, s: Space, d: Space, v: nat)
    requires |m| == POOL_FRAMES && CopiedUpTo(m, s, d, v)
    ensures v !in d.leaves
  {
  }

  lemma CloneMapped(m0: seq<Frame>, u0: set<nat>, s: Space, m: seq<Frame>, u: set<nat>, d: Space,
                    m': seq<Frame>, u': set<nat>, d': Space, grew: set<nat>, f: nat, v: nat)
    requires Copying(m0, u0, s, m, u, d) && |m| == POOL_FRAMES && CopiedUpTo(m, s, d, v)
    requires v in s.leaves && s.leaves[v].User() && s.leaves[v].Owned()
    requires f !in u && f < POOL_FRAMES && m[f] == m[s.leaves[v].Frame()]
    requires Grown(m, u + {f}, d, m', u', d') && u' == u + {f} + grew && grew !! u + {f}
    requires d'.role.Keys == d.role.Keys + grew + {f}
    requires d'.leaves == d.leaves[v := Leaf(BASE_PPN + f, s.leaves[v].perms.(g := false))]
    ensures Copying(m0, u0, s, m', u', d') && CopiedUpTo(m', s, d', v + 1)
  {
    hide Represents;
    hide Copying;
    hide CopiedUpTo;
    CopyingFacts(m0, u0, s, m, u, d);
    CopyingMapped(m0, u0, s, m, u, d, m', d', grew, {f}, {f});
    assert u' == u + grew + {f};
    CopyingFacts(m0, u0, s, m', u', d');
    PagesKept(m0, u0, s, m, u, d, m', u', d');
    assert !d.IsTable(f);
    CopiedOneMore(m, s, d, m', d', v, Leaf(BASE_PPN + f, s.leaves[v].perms.(g := false)));
  }

  /** A fresh frame holding the bytes of the frame at `src`. */
  method DuplicateFrame(pool: Pool, src: nat) returns (r: Option<nat>)
    requires pool.Valid() && InPool(src) && (src - POOL_BASE) % PAGE_SIZE == 0 && FrameAt(src) in pool.used
    modifies pool
    ensures pool.Valid()
    ensures r.Some? <==> old(pool.liveCount) < POOL_FRAMES
    ensures r.None? ==> pool.mem == old(pool.mem) && pool.used == old(pool.used) && pool.liveCount == old(pool.liveCount)
    ensures r.Some? ==> InPool(r.value) && r.value == Pa(FrameAt(r.value)) && var f := FrameAt(r.value);
      && f !in old(pool.used) && pool.used == old(pool.used) + {f} && pool.liveCount == old(pool.liveCount) + 1
      && pool.mem[f] == old(pool.mem)[FrameAt(src)]
      && forall g: nat :: g < POOL_FRAMES && g != f ==> pool.mem[g] == old(pool.mem)[g]
  {
    hide FrameByte;
    hide Pool.Valid;
    r := pool.Alloc();
    if r.Some? {
      var read, buf := pool.PhysRead(src, PAGE_SIZE);
      var written := pool.PhysWrite(r.value, buf);
      FrameByBytes(pool.mem[FrameAt(r.value)], old(pool.mem)[FrameAt(src)]);
    }
  }

  lemma PageOfBase(v: nat)
    requires v < VPN_LIMIT
    ensures PageOf(v * PAGE_SIZE) == v && v * PAGE_SIZE / PAGE_SIZE == v
  {
  }

  /** No user page lies under an entry that `copy_user_pages` passes over. */
  lemma NothingUnder(m: seq<Frame>, s: Space, level: nat, e: nat)
    requires Represents(m, s) && level < 3
    requires level == 0 ==> e !in s.leaves || !s.leaves[e].User()
    requires level > 0 ==> !Present(s, level, e)
    ensures forall v :: v in s.leaves && e * EntryWidth(level) <= v < (e + 1) * EntryWidth(level) ==> !s.leaves[v].User()
  {
    forall v | v in s.leaves && e * EntryWidth(level) <= v < (e + 1) * EntryWidth(level)
      ensures !s.leaves[v].User()
    {
      IndexUnder(v, level, e);
      PathTables(m, s, v);
    }
  }

  lemma IndexUnder(v: nat, level: nat, e: nat)
    requires level < 3 && e * EntryWidth(level) <= v < (e + 1) * EntryWidth(level)
    ensures e == if level == 0 then v else if level == 1 then v / SLOTS else v / SLOTS / SLOTS
  {
  }

  lemma SkipEntry(m: seq<Frame>, s: Space, d: Space, level: nat, e: nat)
    requires Represents(m, s) && level < 3 && |m| == POOL_FRAMES && CopiedUpTo(m, s, d, e * EntryWidth(level))
    requires level == 0 ==> e !in s.leaves || !s.leaves[e].User()
    requires level > 0 ==> !Present(s, level, e)
    ensures CopiedUpTo(m, s, d, (e + 1) * EntryWidth(level))
  {
    hide Represents;
    hide CopiedUpTo;
    NothingUnder(m, s, level, e);
    CopiedSkip(m, s, d, e * EntryWidth(level), (e + 1) * EntryWidth(level));
  }

  lemma PageBound(m: seq<Frame>, s: Space, v: nat)
    requires Represents(m, s) && v in s.leaves
    ensures v < VPN_LIMIT
  {
    assert v / SLOTS / SLOTS in s.mids;
  }

  /** Entry `i` of a table covers pages from here. */
  lemma EntrySpan(level: nat, key: nat, i: nat)
    requires level < 3 && i < SLOTS
    ensures var e := key * SLOTS + i;
      && e * EntryWidth(level) == key * Width(level) + EntryWidth(level) * i
      && (e + 1) * EntryWidth(level) == key * Width(level) + EntryWidth(level) * (i + 1)
      && (level == 0 ==> EntryWidth(level) == 1)
      && (level > 0 ==> EntryWidth(level) == Width(level - 1))
      && EntryBytes(level) == PAGE_SIZE * EntryWidth(level)
      && (key * Width(level)) * PAGE_SIZE + i * EntryBytes(level) == e * EntryWidth(level) * PAGE_SIZE
    ensures key * Width(level) + EntryWidth(level) * SLOTS == (key + 1) * Width(level)
  {
  }

  /** `copy_user_pages`: copies the user pages under one table, in page order. */
  method CopyUserPages(dst: AddressSpace, pool: Pool, table: nat, level: nat, vaBase: nat,
                       ghost m0: seq<Frame>, ghost u0: set<nat>, ghost s: Space, ghost d: Space, ghost key: nat, ghost end: nat)
    returns (ok: bool, ghost d': Space)
    requires pool.Valid() && Copying(m0, u0, s, pool.mem, pool.used, d) && dst.root == Pa(d.root)
    requires level < 3 && TableOf(s, table, level, key) && vaBase == key * Width(level) * PAGE_SIZE
    requires CopiedUpTo(pool.mem, s, d, key * Width(level)) && Partial(s, d) && end == (key + 1) * Width(level)
    modifies pool
    ensures pool.Valid() && Copying(m0, u0, s, pool.mem, pool.used, d') && Partial(s, d')
    ensures d'.root == d.root && d'.gigas == d.gigas
    ensures ok ==> CopiedUpTo(pool.mem, s, d', end)
    ensures !ok ==> exists v :: Stuck(pool.liveCount, s, d', v)
    decreases level
  {
    hide Represents;
    hide Copying;
    hide CopiedUpTo;
    hide Pool.Valid;
    hide TableOf;
    hide Present;
    hide ReadPte;
    hide IsLeaf;
    hide IsUser;
    hide IsValid;
    hide PpnOf;
    hide PermsOf;
    hide Width;
    hide EntryWidth;
    hide EntryBytes;
    hide Partial;
    hide Stuck;
    d' := d;
    EntrySpan(level, key, 0);
    for i := 0 to SLOTS
      invariant pool.Valid() && Copying(m0, u0, s, pool.mem, pool.used, d') && Partial(s, d')
      invariant d'.root == d.root && d'.gigas == d.gigas
      invariant CopiedUpTo(pool.mem, s, d', key * Width(level) + EntryWidth(level) * i)
    {
      CopyingFacts(m0, u0, s, pool.mem, pool.used, d');
      var pte := ReadPte(pool.mem, table + i * 8);
      ghost var e := key * SLOTS + i;
      EntryOf(pool.mem, s, table, level, key, i);
      EntrySpan(level, key, i);
      if !IsValid(pte) {
        SkipEntry(pool.mem, s, d', level, e);
        continue;
      }
      var va := vaBase + i * EntryBytes(level);
      if IsLeaf(pte) {
        if !IsUser(pte) {
          SkipEntry(pool.mem, s, d', level, e);
          continue;
        }
        PageBound(pool.mem, s, e);
        ok, d' := CopyPage(dst, pool, va, pte, m0, u0, s, d', e);
        if !ok {
          return false, d';
        }
      } else if level > 0 {
        ok, d' := CopyUserPages(dst, pool, PpnOf(pte) * PAGE_SIZE, level - 1, va, m0, u0, s, d', e, (e + 1) * EntryWidth(level));
        if !ok {
          return false, d';
        }
      } else {
        SkipEntry(pool.mem, s, d', level, e);
      }
    }
    return true, d';
  }

  lemma CopyingStart(m0: seq<Frame>, u0: set<nat>, s: Space, m: seq<Frame>, d: Space)
    requires Represents(m0, s) && s.role.Keys <= u0 && d.role.Keys == {d.root} && d.root !in u0 && d.leaves == map[]
    requires Represents(m, d) && (forall f: nat :: f < POOL_FRAMES && f != d.root ==> m[f] == m0[f])
    ensures |m| == POOL_FRAMES && Copying(m0, u0, s, m, u0 + {d.root}, d) && CopiedUpTo(m, s, d, 0)
  {
    hide Represents;
    PathTables(m, d, 0);
    PathTables(m0, s, 0);
  }

  lemma CopyingEnd(m0: seq<Frame>, u0: set<nat>, s: Space, m: seq<Frame>, u: set<nat>, d: Space)
    requires Copying(m0, u0, s, m, u, d)
    ensures u - d.role.Keys == u0
    ensures |m| == |m0| == POOL_FRAMES && forall f: nat :: f in u0 && f < POOL_FRAMES ==> m[f] == m0[f]
  {
  }

  /** `d` is an independent copy of the user part of `s`: the same pages with the same
      permissions and bytes, and a kernel gigapage of its own. */
  ghost predicate IsCopy(m: seq<Frame>, s: Space, d: Space)
    requires |m| == POOL_FRAMES
  {
    && (forall v :: v in d.leaves <==> v in s.leaves && s.leaves[v].User())
    && (forall v :: v in d.leaves ==> PageCopied(m, s.leaves[v], d.leaves[v]))
    && d.gigas == map[KERNEL_SLOT := KERNEL_LEAF]
  }

  lemma AllCopied(m: seq<Frame>, s: Space, d: Space)
    requires Represents(m, s) && |m| == POOL_FRAMES && CopiedUpTo(m, s, d, VPN_LIMIT) && d.gigas == map[KERNEL_SLOT := KERNEL_LEAF]
    ensures IsCopy(m, s, d)
  {
    forall v | v in s.leaves ensures v < VPN_LIMIT {
      PageBound(m, s, v);
    }
  }

  /** A user page where every space has the kernel's gigapage. */
  ghost predicate UsesKernelSlot(s: Space) {
    exists v :: v in s.leaves && s.leaves[v].User() && v / SLOTS / SLOTS == KERNEL_SLOT
  }

  lemma HasRoot(m: seq<Frame>, s: Space)
    requires Represents(m, s)
    ensures FrameCount(s) >= 1
  {
    assert s.root in s.role;
  }

  /** A space with only the kernel's gigapage is a copy of no pages. */
  lemma CopyStart(m0: seq<Frame>, u0: set<nat>, s: Space, m: seq<Frame>, d: Space)
    requires Represents(m0, s) && s.role.Keys <= u0 && KernelOnly(d) && d.root !in u0
    requires Represents(m, d) && (forall f: nat :: f < POOL_FRAMES && f != d.root ==> m[f] == m0[f])
    ensures |m| == POOL_FRAMES && Copying(m0, u0, s, m, u0 + {d.root}, d) && CopiedUpTo(m, s, d, 0) && Partial(s, d)
    ensures d.gigas == map[KERNEL_SLOT := KERNEL_LEAF] && Width(2) == VPN_LIMIT
  {
    hide Represents;
    CopyingStart(m0, u0, s, m, d);
  }

  /** `u0` counted `live0` frames, and the space counts the rest. */
  lemma LiveSplit(pool: Pool, live0: nat, u0: set<nat>, d: Space)
    requires pool.Valid() && Counts(live0, u0) && pool.used == u0 + d.role.Keys && d.role.Keys !! u0
    ensures pool.liveCount == live0 + FrameCount(d)
  {
  }

  lemma LiveSame(pool: Pool, live0: nat, u0: set<nat>)
    requires pool.Valid() && Counts(live0, u0) && pool.used == u0
    ensures pool.liveCount == live0
  {
  }

  /** A copy that is stuck has met the kernel's slot, or the pool had too few free frames
      for a space of this size. */
  lemma StuckShort(m: seq<Frame>, s: Space, d: Space, v: nat, live0: nat, live: nat)
    requires Represents(m, s) && Represents(m, d) && Partial(s, d) && Stuck(live, s, d, v)
    requires d.gigas == map[KERNEL_SLOT := KERNEL_LEAF] && live == live0 + FrameCount(d)
    ensures UsesKernelSlot(s) || live0 + FrameCount(s) > POOL_FRAMES
  {
    hide Represents;
    hide FrameCount;
    hide Partial;
    CopyBounded(m, s, m, d, v);
  }

  /** `deep_copy`: on success an independent copy in frames nobody else owns; on failure,
      at whichever allocation, the pool's allocated set is as before. Either way no frame
      in use changes. It succeeds whenever as many frames are free as the original owns. */
  method DeepCopy(space: AddressSpace, pool: Pool, ghost s: Space) returns (r: Option<AddressSpace>, ghost d: Space)
    requires pool.Valid() && Represents(pool.mem, s) && s.role.Keys <= pool.used && space.root == Pa(s.root)
    modifies pool
    ensures pool.Valid()
    ensures forall f: nat :: f in old(pool.used) && f < POOL_FRAMES ==> pool.mem[f] == old(pool.mem)[f]
    ensures r.None? ==> pool.used == old(pool.used)
    ensures r.Some? ==> r.value.root == Pa(d.root) && Represents(pool.mem, d) && IsCopy(pool.mem, s, d)
    ensures r.Some? ==> pool.used == old(pool.used) + d.role.Keys && d.role.Keys !! old(pool.used)
    ensures !UsesKernelSlot(s) && old(pool.liveCount) + FrameCount(s) <= POOL_FRAMES ==> r.Some?
    ensures r.Some? ==> pool.liveCount == old(pool.liveCount) + FrameCount(d) && FrameCount(d) <= FrameCount(s)
    ensures r.None? ==> pool.liveCount == old(pool.liveCount)
  {
    hide Represents;
    hide Copying;
    hide CopiedUpTo;
    hide IsCopy;
    hide Pool.Valid;
    hide Counts;
    hide Partial;
    hide Stuck;
    hide FrameCount;
    hide UsesKernelSlot;
    hide KernelOnly;
    hide Pa;
    ghost var m0, u0, live0 := pool.mem, pool.used, pool.liveCount;
    HasRoot(m0, s);
    PoolCounts(pool);
    var dst;
    dst, d := NewUserSpace(pool);
    if dst.None? {
      return None, d;
    }
    CopyStart(m0, u0, s, pool.mem, d);
    var ok;
    ok, d := CopyUserPages(dst.value, pool, space.root, 2, 0, m0, u0, s, d, 0, VPN_LIMIT);
    CopyingFacts(m0, u0, s, pool.mem, pool.used, d);
    CopyingEnd(m0, u0, s, pool.mem, pool.used, d);
    LiveSplit(pool, live0, u0, d);
    if !ok {
      ghost var v :| Stuck(pool.liveCount, s, d, v);
      StuckShort(pool.mem, s, d, v, live0, pool.liveCount);
      Destroy(dst.value, pool, d);
      LiveSame(pool, live0, u0);
      return None, d;
    }
    AllCopied(pool.mem, s, d);
    CopyNoBigger(pool.mem, s, pool.mem, d);
    return dst, d;
  }
}
