/** Software translation (kernel/src/mm.rs): the checked walk, the walk report and the
    copy out of user memory, each against the `Space` the tables stand for. */
module Translate {
  import opened Words
  import opened Pte
  import opened FramePool
  import opened Space
  import opened PageTables

  const ANY: Perms := Perms(false, false, false, false, false)
  const USER_READ: Perms := Perms(true, false, false, true, false)
  const USER_WRITE: Perms := Perms(false, true, false, true, false)

  predicate Covers(have: Perms, need: Perms) {
    (need.r ==> have.r) && (need.w ==> have.w) && (need.x ==> have.x) && (need.u ==> have.u) && (need.g ==> have.g)
  }

  /** No demand at all, or the user bit and everything asked for. */
  predicate Allows(have: Perms, need: Perms) {
    need == ANY || (have.u && Covers(have, need))
  }

  /** What a space maps `va` to for an access that needs `need`. */
  function Lookup(s: Space, va: nat, need: Perms): Option<nat> {
    var v := PageOf(va);
    if v / SLOTS / SLOTS in s.gigas then
      var leaf := s.gigas[v / SLOTS / SLOTS];
      if Allows(leaf.perms, need) then Some(leaf.ppn * PAGE_SIZE + va % 0x4000_0000) else None
    else if v in s.leaves && s.leaves[v].perms.Live() && Allows(s.leaves[v].perms, need) then
      Some(s.leaves[v].ppn * PAGE_SIZE + va % PAGE_SIZE)
    else
      None
  }

  /** The entry for `va` in a table on its path, down to the last level. */
  lemma WalkEntry(m: seq<Frame>, s: Space, table: nat, level: nat, va: nat)
    requires Represents(m, s) && level < 3 && OnPath(s, table, level, PageOf(va))
    ensures var v := PageOf(va); var pte := ReadPte(m, table + VpnIndex(va, level) * 8);
      && pte == (if level == 2 then RootWord(s, v / SLOTS / SLOTS) else if level == 1 then MidWord(s, v / SLOTS) else LowWord(s, v))
      && (level == 2 ==> (IsValid(pte) <==> v / SLOTS / SLOTS in s.mids || v / SLOTS / SLOTS in s.gigas))
      && (level == 2 && v / SLOTS / SLOTS in s.gigas ==>
            IsLeaf(pte) && PpnOf(pte) == s.gigas[v / SLOTS / SLOTS].ppn && PermsOf(pte) == s.gigas[v / SLOTS / SLOTS].perms)
      && (level == 2 && v / SLOTS / SLOTS in s.mids ==> !IsLeaf(pte))
      && (level == 1 ==> (IsValid(pte) <==> v / SLOTS in s.lows) && !IsLeaf(pte))
      && (level == 0 ==> (IsValid(pte) <==> v in s.leaves))
      && (level == 0 && v in s.leaves ==>
            (IsLeaf(pte) <==> s.leaves[v].perms.Live()) && PpnOf(pte) == s.leaves[v].ppn && PermsOf(pte) == s.leaves[v].perms)
      && (0 < level && IsValid(pte) && !IsLeaf(pte) ==> OnPath(s, PpnOf(pte) * PAGE_SIZE, level - 1, v))
  {
    hide IsLeaf;
    hide IsValid;
    hide PermsOf;
    hide PpnOf;
    hide ReadPte;
    hide RolesExact;
    hide Linked;
    hide StoredRoot;
    hide StoredMids;
    hide StoredLows;
    TreeFrames(m, s);
    NoSharedSlot(m, s);
    Indices(va);
    if level == 2 {
      RootEntry(m, s, PageOf(va) / SLOTS / SLOTS);
    } else if level == 1 {
      MidEntry(m, s, PageOf(va) / SLOTS);
    } else {
      LowEntry(m, s, PageOf(va));
    }
  }

  /** `translate_checked`; `translate` is the call with `need == ANY`. */
  method TranslateChecked(space: AddressSpace, pool: Pool, va: nat, need: Perms, ghost s: Space) returns (r: Option<nat>)
    requires pool.Valid() && Represents(pool.mem, s) && space.root == Pa(s.root)
    ensures r == Lookup(s, va, need)
  {
    hide Represents;
    hide OnPath;
    hide Pool.Valid;
    hide PageOf;
    hide VpnIndex;
    hide ReadPte;
    hide IsLeaf;
    hide IsValid;
    hide PpnOf;
    hide PermsOf;
    TreeFrames(pool.mem, s);
    NoSharedSlot(pool.mem, s);
    PathStart(s, PageOf(va));
    var table, level := space.root, 2;
    while level >= 0
      invariant -1 <= level <= 2 && table >= 0
      invariant level >= 0 ==> OnPath(s, table, level, PageOf(va))
      invariant level < 2 ==> PageOf(va) / SLOTS / SLOTS !in s.gigas
      invariant level < 0 ==> Lookup(s, va, need) == None
      decreases level
    {
      var pte := ReadPte(pool.mem, table + VpnIndex(va, level) * 8);
      WalkEntry(pool.mem, s, table, level, va);
      if !IsValid(pte) {
        return None;
      }
      if IsLeaf(pte) {
        if need != ANY && (!PermsOf(pte).u || !Covers(PermsOf(pte), need)) {
          return None;
        }
        return Some(PpnOf(pte) * PAGE_SIZE + va % EntryBytes(level));
      }
      table := PpnOf(pte) * PAGE_SIZE;
      level := level - 1;
    }
    return None;
  }

  // ---- the walk report ----------------------------------------------------

  /** The entries a walk for `va` visits, outermost first. */
  ghost function WalkChain(s: Space, va: nat): seq<(nat, Word)>
    requires Shape(s)
  {
    var v := PageOf(va);
    [(2, RootWord(s, v / SLOTS / SLOTS))]
    + if v / SLOTS / SLOTS !in s.mids then [] else
      [(1, MidWord(s, v / SLOTS))] + if v / SLOTS !in s.lows then [] else [(0, LowWord(s, v))]
  }

  /** `walk`. */
  method Walk(space: AddressSpace, pool: Pool, va: nat, ghost s: Space) returns (chain: seq<(nat, Word)>)
    requires pool.Valid() && Represents(pool.mem, s) && space.root == Pa(s.root)
    ensures chain == WalkChain(s, va)
  {
    hide StoredRoot;
    hide StoredMids;
    hide StoredLows;
    hide RolesExact;
    hide Linked;
    hide OnPath;
    hide Pool.Valid;
    hide PageOf;
    hide VpnIndex;
    hide ReadPte;
    hide IsLeaf;
    hide IsValid;
    hide PpnOf;
    hide PermsOf;
    TreeFrames(pool.mem, s);
    NoSharedSlot(pool.mem, s);
    ghost var v := PageOf(va);
    PathStart(s, v);
    chain := [];
    var table, level := space.root, 2;
    while level >= 0
      invariant -1 <= level <= 2 && table >= 0
      invariant level >= 0 ==> OnPath(s, table, level, v)
      invariant level < 2 ==> v / SLOTS / SLOTS in s.mids
      invariant level < 1 ==> v / SLOTS in s.lows
      invariant chain == if level == 2 then [] else WalkChain(s, va)[..2 - level]
      invariant level < 2 ==> |WalkChain(s, va)| >= 2 - level
      decreases level
    {
      var pte := ReadPte(pool.mem, table + VpnIndex(va, level) * 8);
      WalkEntry(pool.mem, s, table, level, va);
      chain := chain + [(level, pte)];
      if !IsValid(pte) || IsLeaf(pte) {
        break;
      }
      table := PpnOf(pte) * PAGE_SIZE;
      level := level - 1;
    }
  }

  /** The report ends at the very entry translation uses: `va` translates exactly when
      the last entry reported is a valid leaf, and to the address that entry names. */
  lemma WalkEndsAtTranslation(m: seq<Frame>, s: Space, va: nat)
    requires Represents(m, s)
    ensures var chain := WalkChain(s, va);
      && 1 <= |chain| <= 3
      && var (level, pte) := chain[|chain| - 1];
      && level == 3 - |chain|
      && Lookup(s, va, ANY) == if IsValid(pte) && IsLeaf(pte) then Some(PpnOf(pte) * PAGE_SIZE + va % EntryBytes(level)) else None
  {
    hide StoredRoot;
    hide StoredMids;
    hide StoredLows;
    hide PageOf;
    hide VpnIndex;
    hide ReadPte;
    hide IsLeaf;
    hide IsValid;
    hide PpnOf;
    hide PermsOf;
    TreeFrames(m, s);
    NoSharedSlot(m, s);
    var v := PageOf(va);
    PathStart(s, v);
    WalkEntry(m, s, Pa(s.root), 2, va);
    if v / SLOTS / SLOTS in s.mids {
      WalkEntry(m, s, Pa(s.mids[v / SLOTS / SLOTS]), 1, va);
      if v / SLOTS in s.lows {
        WalkEntry(m, s, Pa(s.lows[v / SLOTS]), 0, va);
      }
    }
  }

  // ---- copying out of user memory -----------------------------------------

  /** The byte a payload itself could read at `va`, when it lies in the pool. */
  function UserByte(m: seq<Frame>, s: Space, va: nat): Option<Byte>
    requires |m| == POOL_FRAMES
  {
    match Lookup(s, va, USER_READ)
    case Some(pa) => if InPool(pa) then Some(FrameByte(m[FrameAt(pa)], (pa - POOL_BASE) % PAGE_SIZE)) else None
    case None => None
  }

  /** A payload can read exactly its pages with R and U, and in the pool the byte is the one
      at the same offset of the page's frame. */
  lemma UserByteExact(m: seq<Frame>, s: Space, va: nat)
    requires Represents(m, s)
    ensures var v := va / 4096 % 0x800_0000;
      UserByte(m, s, va) ==
        if v in s.leaves && s.leaves[v].perms.r && s.leaves[v].perms.u && 0x80400 <= s.leaves[v].ppn < 0x88000
        then Some(FrameByte(m[s.leaves[v].ppn - 0x80400], va % 4096)) else None
  {
    hide Represents;
    hide UserByte;
    hide FrameByte;
    UserByteAt(m, s, va, va / 4096 % 0x800_0000, va % 4096);
  }

  lemma UserByteAt(m: seq<Frame>, s: Space, va: nat, v: nat, off: nat)
    requires Represents(m, s) && v == PageOf(va) && off == va % PAGE_SIZE
    ensures |m| == POOL_FRAMES
    ensures UserByte(m, s, va).Some? <==>
      v in s.leaves && s.leaves[v].perms.r && s.leaves[v].perms.u && 0x80400 <= s.leaves[v].ppn < 0x88000
    ensures UserByte(m, s, va).Some? ==> UserByte(m, s, va) == Some(FrameByte(m[s.leaves[v].ppn - 0x80400], off))
  {
    hide Represents;
    hide Lookup;
    hide FrameByte;
    hide InPool;
    hide FrameAt;
    hide PageOf;
    TreeFrames(m, s);
    UserPage(m, s, va, v, USER_READ);
    if v in s.leaves {
      PoolPage(s.leaves[v].ppn, off);
    }
  }

  /** What U-mode may do at an address is what the page's leaf says. */
  lemma UserPage(m: seq<Frame>, s: Space, va: nat, v: nat, need: Perms)
    requires Represents(m, s) && v == PageOf(va) && need.u && need.Live()
    ensures Lookup(s, va, need) ==
      if v in s.leaves && Covers(s.leaves[v].perms, need) then Some(s.leaves[v].ppn * PAGE_SIZE + va % PAGE_SIZE) else None
  {
    hide Represents;
    hide PageOf;
    NoUserGiga(m, s, v / SLOTS / SLOTS);
    NoLeafUnderGiga(m, s, v);
  }

  lemma NoLeafUnderGiga(m: seq<Frame>, s: Space, v: nat)
    requires Represents(m, s)
    ensures v in s.leaves ==> v / SLOTS / SLOTS !in s.gigas
  {
    if v in s.leaves {
      PathTables(m, s, v);
      NoSharedSlot(m, s);
    }
  }

  /** A payload can write exactly its pages with W and U. */
  lemma UserWriteExact(m: seq<Frame>, s: Space, va: nat)
    requires Represents(m, s)
    ensures var v := va / 4096 % 0x800_0000;
      Lookup(s, va, USER_WRITE) ==
        if v in s.leaves && s.leaves[v].perms.w && s.leaves[v].perms.u
        then Some(s.leaves[v].ppn * 4096 + va % 4096) else None
  {
    hide Represents;
    hide Lookup;
    UserPage(m, s, va, va / 4096 % 0x800_0000, USER_WRITE);
  }

  /** The kernel's own range is mapped to itself, and closed to U-mode. */
  lemma KernelIdentity(s: Space, va: nat, need: Perms)
    requires s.gigas == map[KERNEL_SLOT := KERNEL_LEAF] && 0x8000_0000 <= va < 0xC000_0000
    ensures Lookup(s, va, need) == if need == Perms(false, false, false, false, false) then Some(va) else None
  {
    Indices(va);
  }

  /** What the tables of a mapped page hold, word by word. */
  lemma LeafStored(m: seq<Frame>, s: Space, v: nat)
    requires Represents(m, s) && v in s.leaves
    ensures v / 512 in s.lows && v / 512 / 512 in s.mids && |m| == POOL_FRAMES
    ensures var mid, low := s.mids[v / 512 / 512], s.lows[v / 512];
      && s.root < POOL_FRAMES && mid < POOL_FRAMES && low < POOL_FRAMES && v / 512 / 512 < 512
      && m[s.root][v / 512 / 512] == (0x80400 + mid) * 1024 + 1
      && m[mid][v / 512 % 512] == (0x80400 + low) * 1024 + 1
      && m[low][v % 512] / 1024 == s.leaves[v].ppn && m[low][v % 512] % 2 == 1
      && (m[low][v % 512] / 2 % 2 == 1 <==> s.leaves[v].perms.r) && (m[low][v % 512] / 4 % 2 == 1 <==> s.leaves[v].perms.w)
      && (m[low][v % 512] / 8 % 2 == 1 <==> s.leaves[v].perms.x) && (m[low][v % 512] / 16 % 2 == 1 <==> s.leaves[v].perms.u)
  {
    PathTables(m, s, v);
    TreeFrames(m, s);
    StoredWords(m, s, v);
    hide Represents;
    LeafBits(s.leaves[v].ppn, s.leaves[v].perms);
  }

  lemma StoredWords(m: seq<Frame>, s: Space, v: nat)
    requires Represents(m, s) && v in s.leaves
    ensures |m| == POOL_FRAMES && v / SLOTS in s.lows && v / SLOTS / SLOTS in s.mids && v / SLOTS / SLOTS < SLOTS
    ensures s.root < POOL_FRAMES && s.mids[v / SLOTS / SLOTS] < POOL_FRAMES && s.lows[v / SLOTS] < POOL_FRAMES
    ensures m[s.root][v / SLOTS / SLOTS] == TablePte(s.mids[v / SLOTS / SLOTS])
    ensures m[s.mids[v / SLOTS / SLOTS]][v / SLOTS % SLOTS] == TablePte(s.lows[v / SLOTS])
    ensures m[s.lows[v / SLOTS]][v % SLOTS] == LeafPte(s.leaves[v])
  {
    assert v / SLOTS / SLOTS in s.mids;
  }

  /** Within one page all addresses share the leaf, and lie in one frame. */
  lemma SamePage(m: seq<Frame>, s: Space, va: nat, k: nat)
    requires Represents(m, s) && va % PAGE_SIZE + k < PAGE_SIZE
    ensures Lookup(s, va, USER_READ).None? ==> UserByte(m, s, va + k).None?
    ensures Lookup(s, va, USER_READ).Some? ==> var pa := Lookup(s, va, USER_READ).value;
      && (InPool(pa) ==> (pa - POOL_BASE) % PAGE_SIZE == va % PAGE_SIZE)
      && UserByte(m, s, va + k) == if InPool(pa) then Some(FrameByte(m[FrameAt(pa)], va % PAGE_SIZE + k)) else None
  {
    hide Represents;
    hide Lookup;
    hide InPool;
    hide FrameAt;
    hide FrameByte;
    hide PageOf;
    SameLookup(m, s, va, k);
    PathTables(m, s, 0);
    if Lookup(s, va, USER_READ).Some? {
      ByteAt(m, s, va, k, s.leaves[PageOf(va)].ppn, va % PAGE_SIZE);
    }
  }

  lemma ByteAt(m: seq<Frame>, s: Space, va: nat, k: nat, ppn: nat, off: nat)
    requires |m| == POOL_FRAMES && off + k < PAGE_SIZE && Lookup(s, va + k, USER_READ) == Some(ppn * PAGE_SIZE + (off + k))
    ensures var pa := ppn * PAGE_SIZE + off;
      && (InPool(pa) ==> (pa - POOL_BASE) % PAGE_SIZE == off)
      && UserByte(m, s, va + k) == if InPool(pa) then Some(FrameByte(m[FrameAt(pa)], off + k)) else None
  {
    hide Lookup;
    hide InPool;
    hide FrameAt;
    hide FrameByte;
    PoolPage(ppn, off);
    PoolPage(ppn, off + k);
  }

  lemma SameLookup(m: seq<Frame>, s: Space, va: nat, k: nat)
    requires Represents(m, s) && va % PAGE_SIZE + k < PAGE_SIZE
    ensures Lookup(s, va, USER_READ).None? ==> Lookup(s, va + k, USER_READ).None?
    ensures Lookup(s, va, USER_READ).Some? ==>
      && PageOf(va) in s.leaves
      && Lookup(s, va, USER_READ) == Some(s.leaves[PageOf(va)].ppn * PAGE_SIZE + va % PAGE_SIZE)
      && Lookup(s, va + k, USER_READ) == Some(s.leaves[PageOf(va)].ppn * PAGE_SIZE + (va % PAGE_SIZE + k))
  {
    hide Represents;
    hide PageOf;
    PageOffset(va, k);
    NoUserGiga(m, s, PageOf(va) / SLOTS / SLOTS);
  }

  lemma NoUserGiga(m: seq<Frame>, s: Space, i: nat)
    requires Represents(m, s)
    ensures i in s.gigas ==> !s.gigas[i].perms.u
  {
  }

  lemma PageOffset(va: nat, k: nat)
    requires va % PAGE_SIZE + k < PAGE_SIZE
    ensures PageOf(va + k) == PageOf(va) && (va + k) % PAGE_SIZE == va % PAGE_SIZE + k
  {
    assert (va + k) / PAGE_SIZE == va / PAGE_SIZE;
  }

  lemma PoolPage(ppn: nat, off: nat)
    requires off < PAGE_SIZE
    ensures var pa := ppn * PAGE_SIZE + off;
      && (InPool(pa) <==> BASE_PPN <= ppn < BASE_PPN + POOL_FRAMES)
      && (InPool(pa) ==> FrameAt(pa) == ppn - BASE_PPN && (pa - POOL_BASE) % PAGE_SIZE == off)
  {
  }

  /** `copy_from_user`: true exactly when every byte of the (wrapping) range is one the
      payload could read itself and lies in the pool; then the buffer holds those bytes. */
  method CopyFromUser(space: AddressSpace, pool: Pool, va: Word, n: nat, ghost s: Space) returns (ok: bool, buf: seq<Byte>)
    requires pool.Valid() && Represents(pool.mem, s) && space.root == Pa(s.root) && n < WORD_LIMIT
    ensures ok <==> forall k: nat :: k < n ==> UserByte(pool.mem, s, WrapAdd(va, k)).Some?
    ensures ok ==> |buf| == n && forall k: nat :: k < n ==> UserByte(pool.mem, s, WrapAdd(va, k)) == Some(buf[k])
  {
    hide Represents;
    hide Pool.Valid;
    hide Lookup;
    hide UserByte;
    hide WrapAdd;
    var done := 0;
    buf := [];
    while done < n
      invariant done == |buf| <= n
      invariant forall k: nat :: k < done ==> UserByte(pool.mem, s, WrapAdd(va, k)) == Some(buf[k])
    {
      var cur := WrapAdd(va, done);
      var pa := TranslateChecked(space, pool, cur, USER_READ, s);
      SamePage(pool.mem, s, cur, 0);
      if pa.None? {
        return false, buf;
      }
      var pageLeft := PAGE_SIZE - cur % PAGE_SIZE;
      var c := if pageLeft < n - done then pageLeft else n - done;
      ChunkBytes(pool.mem, s, va, done, c);
      var got, chunk := pool.PhysRead(pa.value, c);
      if !got {
        return false, buf;
      }
      forall k: nat | k < done + c
        ensures UserByte(pool.mem, s, WrapAdd(va, k)) == Some((buf + chunk)[k])
      {
        if k < done {
          assert (buf + chunk)[k] == buf[k];
        } else {
          assert (buf + chunk)[k] == chunk[k - done];
        }
      }
      buf := buf + chunk;
      done := done + c;
    }
    return true, buf;
  }

  /** The bytes of one chunk of the copy, which ends at the page boundary. */
  lemma ChunkBytes(m: seq<Frame>, s: Space, va: Word, done: nat, c: nat)
    requires Represents(m, s) && 0 < c
    requires var cur := WrapAdd(va, done); cur % PAGE_SIZE + c <= PAGE_SIZE && Lookup(s, cur, USER_READ).Some?
    ensures var cur := WrapAdd(va, done); var pa := Lookup(s, cur, USER_READ).value;
      && |m| == POOL_FRAMES && (InPool(pa) ==> (pa - POOL_BASE) % PAGE_SIZE == cur % PAGE_SIZE)
      && (forall k: nat :: done <= k < done + c ==>
            UserByte(m, s, WrapAdd(va, k)) == if InPool(pa) then Some(FrameByte(m[FrameAt(pa)], cur % PAGE_SIZE + (k - done))) else None)
  {
    hide Represents;
    hide Lookup;
    hide UserByte;
    hide WrapAdd;
    hide FrameByte;
    hide FrameAt;
    var cur := WrapAdd(va, done);
    var pa := Lookup(s, cur, USER_READ).value;
    TreeFrames(m, s);
    SamePage(m, s, cur, 0);
    forall k: nat | done <= k < done + c
      ensures UserByte(m, s, WrapAdd(va, k)) == if InPool(pa) then Some(FrameByte(m[FrameAt(pa)], cur % PAGE_SIZE + (k - done))) else None
    {
      ChunkStays(va, done, k - done);
      SamePage(m, s, cur, k - done);
    }
  }

  lemma ChunkStays(va: Word, done: nat, j: nat)
    requires WrapAdd(va, done) % PAGE_SIZE + j < PAGE_SIZE
    ensures WrapAdd(va, done + j) == WrapAdd(va, done) + j
  {
    var q := (va + done) / WORD_LIMIT;
    var cur := WrapAdd(va, done);
    assert va + done == WORD_LIMIT * q + cur;
    assert cur / PAGE_SIZE < WORD_LIMIT / PAGE_SIZE;
    assert cur + j < WORD_LIMIT;
  }
}
