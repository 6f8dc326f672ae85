/** The ELF loader (kernel/src/elf.rs): the loops that put an image into an address space,
    page by page. */
module Elf {
  import opened Words
  import opened Pte
  import opened FramePool
  import opened Space
  import opened PageTables
  import opened Translate
  import opened ElfImage

  datatype LoadResult = Loaded(entry: nat) | Failed(error: ElfError)

  // ---- what a space holds -------------------------------------------------

  ghost predicate HoldsBytes(f: Frame, image: seq<Byte>, seg: Segment, p: nat) {
    forall k: nat :: k < PAGE_SIZE ==> FrameByte(f, k) == SegmentByte(image, seg, p + k)
  }

  /** The page at address `p` is mapped with the segment's permissions, on a pool frame in
      use that is no table, and holds the segment's bytes. */
  ghost predicate SegmentPage(m: seq<Frame>, u: set<nat>, s: Space, image: seq<Byte>, seg: Segment, p: nat) {
    && |m| == POOL_FRAMES
    && PageOf(p) in s.leaves
    && var leaf := s.leaves[PageOf(p)];
    && leaf.perms == seg.perms
    && BASE_PPN <= leaf.ppn < BASE_PPN + POOL_FRAMES
    && leaf.ppn - BASE_PPN in u && !s.IsTable(leaf.ppn - BASE_PPN)
    && HoldsBytes(m[leaf.ppn - BASE_PPN], image, seg, p)
  }

  /** Every page of the segment below address `limit` is in place. */
  ghost predicate SegmentHeld(m: seq<Frame>, u: set<nat>, s: Space, image: seq<Byte>, seg: Segment, limit: nat) {
    forall p: nat :: p % PAGE_SIZE == 0 && seg.vaddr < p + PAGE_SIZE && p < limit ==> SegmentPage(m, u, s, image, seg, p)
  }

  /** Later work keeps every mapping and every frame that is not a table. */
  ghost predicate Kept(m: seq<Frame>, u: set<nat>, s: Space, m': seq<Frame>, u': set<nat>, s': Space) {
    && |m| == |m'| == POOL_FRAMES && u <= u'
    && (forall v :: v in s.leaves ==> v in s'.leaves && s'.leaves[v] == s.leaves[v])
    && (forall f: nat :: f in u && f < POOL_FRAMES && !s.IsTable(f) ==> m'[f] == m[f] && !s'.IsTable(f))
  }

  lemma KeptTrans(m: seq<Frame>, u: set<nat>, s: Space, m1: seq<Frame>, u1: set<nat>, s1: Space,
                  m2: seq<Frame>, u2: set<nat>, s2: Space)
    requires Kept(m, u, s, m1, u1, s1) && Kept(m1, u1, s1, m2, u2, s2)
    ensures Kept(m, u, s, m2, u2, s2)
  {
  }

  lemma HeldKept(m: seq<Frame>, u: set<nat>, s: Space, m': seq<Frame>, u': set<nat>, s': Space,
                 image: seq<Byte>, seg: Segment, limit: nat)
    requires Kept(m, u, s, m', u', s') && SegmentHeld(m, u, s, image, seg, limit)
    ensures SegmentHeld(m', u', s', image, seg, limit)
  {
    hide HoldsBytes;
    hide PageOf;
    forall p: nat | p % PAGE_SIZE == 0 && seg.vaddr < p + PAGE_SIZE && p < limit
      ensures SegmentPage(m', u', s', image, seg, p)
    {
      assert SegmentPage(m, u, s, image, seg, p);
    }
  }

  /** W^X: no leaf is both writable and executable. */
  ghost predicate NoWx(s: Space) {
    forall v :: v in s.leaves ==> !(s.leaves[v].perms.w && s.leaves[v].perms.x)
  }

  /** Every frame allocated since `u0` belongs to the space or is lost. */
  ghost predicate Accounted(u0: set<nat>, s: Space, u: set<nat>, s': Space, lost: set<nat>) {
    && u == u0 + s'.role.Keys + lost
    && lost !! u0 && lost !! s'.role.Keys
    && s.role.Keys <= s'.role.Keys
    && (forall f :: f in s'.role && f in u0 ==> f in s.role)
  }

  lemma AccountedTrans(u0: set<nat>, s0: Space, u: set<nat>, s: Space, lost: set<nat>, u': set<nat>, s': Space, lost': set<nat>)
    requires Accounted(u0, s0, u, s, lost) && Accounted(u, s, u', s', lost') && s.role.Keys <= u
    ensures Accounted(u0, s0, u', s', lost + lost')
  {
  }

  /** Every leaf is an old one, or a pool page with the segment's permissions. */
  ghost predicate PermsFrom(s: Space, s': Space, perms: Perms) {
    forall v :: v in s'.leaves ==>
      (v in s.leaves && s'.leaves[v] == s.leaves[v])
      || (s'.leaves[v].perms == perms && BASE_PPN <= s'.leaves[v].ppn < BASE_PPN + POOL_FRAMES)
  }

  /** Every leaf is an old one or a pool page. */
  ghost predicate PoolLeaves(s: Space, s': Space) {
    forall v :: v in s'.leaves ==>
      (v in s.leaves && s'.leaves[v] == s.leaves[v]) || BASE_PPN <= s'.leaves[v].ppn < BASE_PPN + POOL_FRAMES
  }

  // ---- loading ------------------------------------------------------------

  lemma KeptGrown(m: seq<Frame>, u: set<nat>, s: Space, m': seq<Frame>, u': set<nat>, s': Space)
    requires Grown(m, u, s, m', u', s')
    requires forall v :: v in s.leaves ==> v in s'.leaves && s'.leaves[v] == s.leaves[v]
    ensures Kept(m, u, s, m', u', s')
  {
    PathTables(m', s', 0);
    hide Represents;
  }

  /** A fresh frame filled with the page's bytes; fresh frames are zero, so the rest of the
      page is too. */
  method FillPage(image: seq<Byte>, pool: Pool, seg: Segment, page: nat) returns (frame: Option<nat>, ok: bool)
    requires pool.Valid() && seg.vaddr < page + PAGE_SIZE && page + PAGE_SIZE < WORD_LIMIT && seg.vaddr + seg.filesz < WORD_LIMIT
    modifies pool
    ensures pool.Valid()
    ensures frame.Some? <==> old(pool.liveCount) < POOL_FRAMES
    ensures pool.liveCount == old(pool.liveCount) + if frame.Some? then 1 else 0
    ensures frame.None? ==> pool.mem == old(pool.mem) && pool.used == old(pool.used)
    ensures frame.Some? ==> InPool(frame.value) && frame.value == Pa(FrameAt(frame.value)) && var f := FrameAt(frame.value);
      && f !in old(pool.used) && pool.used == old(pool.used) + {f}
      && (forall g: nat :: g < POOL_FRAMES && g != f ==> pool.mem[g] == old(pool.mem)[g])
      && (ok <==> PageSource(image, seg, page).Some?)
      && (ok ==> HoldsBytes(pool.mem[f], image, seg, page))
  {
    hide Pool.Valid;
    hide FrameByte;
    hide SegmentByte;
    hide PageSource;
    hide Pa;
    frame := pool.Alloc();
    ok := false;
    if frame.Some? {
      ghost var f := FrameAt(frame.value);
      var src := PageSource(image, seg, page);
      if src.Some? {
        PageSourceBytes(image, seg, page);
        var start := if page < seg.vaddr then seg.vaddr else page;
        OffsetInFrame(f, start - page);
        ghost var m := pool.mem;
        ok := pool.PhysWrite(frame.value + (start - page), src.value);
        forall k: nat | k < PAGE_SIZE ensures FrameByte(pool.mem[f], k) == SegmentByte(image, seg, page + k) {
          ZeroFrameByte(k);
        }
      }
    }
  }

  lemma ZeroFrameByte(k: nat)
    requires k < PAGE_SIZE
    ensures FrameByte(ZeroFrame(), k) == 0
  {
    ZeroBytes(k % 8);
  }

  lemma OffsetInFrame(f: nat, off: nat)
    requires f < POOL_FRAMES && off < PAGE_SIZE
    ensures InPool(Pa(f) + off) && FrameAt(Pa(f) + off) == f && (Pa(f) + off - POOL_BASE) % PAGE_SIZE == off
  {
  }

  lemma NothingLoaded(m: seq<Frame>, u: set<nat>, s: Space)
    requires Represents(m, s) && s.role.Keys <= u
    ensures Kept(m, u, s, m, u, s) && Accounted(u, s, u, s, {})
  {
    hide Represents;
    PathTables(m, s, 0);
  }

  /** A frame taken but never mapped. */
  lemma FrameTaken(m: seq<Frame>, u: set<nat>, s: Space, m': seq<Frame>, f: nat)
    requires Represents(m, s) && s.role.Keys <= u && f !in u && |m'| == POOL_FRAMES
    requires forall g: nat :: g < POOL_FRAMES && g != f ==> m'[g] == m[g]
    ensures Represents(m', s) && Kept(m, u, s, m', u + {f}, s) && Accounted(u, s, u + {f}, s, {f})
  {
    hide Represents;
    PathTables(m, s, 0);
    RepresentsFrame(m, m', s);
  }

  /** A filled frame `f` after `map_page`: kept by the space when the leaf is live. */
  lemma FrameMapped(m: seq<Frame>, u: set<nat>, s: Space, m1: seq<Frame>, f: nat,
                    m': seq<Frame>, u': set<nat>, s': Space, grew: set<nat>, leaf: Leaf, v: nat)
    requires Kept(m, u, s, m1, u + {f}, s) && f !in u && f < POOL_FRAMES && s.role.Keys <= u
    requires Grown(m1, u + {f}, s, m', u', s') && u' == u + {f} + grew && grew !! u + {f}
    requires leaf.ppn == BASE_PPN + f && v !in s.leaves && s'.leaves == s.leaves[v := leaf]
    requires s'.role.Keys == s.role.Keys + grew + (if leaf.Owned() then {leaf.Frame()} else {})
    ensures Kept(m, u, s, m', u', s')
    ensures Accounted(u, s, u', s', if leaf.perms.Live() then {} else {f})
    ensures f in u' && !s'.IsTable(f) && |m'| == POOL_FRAMES && m'[f] == m1[f]
  {
    hide Represents;
    KeptGrown(m1, u + {f}, s, m', u', s');
    KeptTrans(m, u, s, m1, u + {f}, s, m', u', s');
  }

  /** After a refused mapping the frame goes back; new tables stay with the space. */
  lemma FrameReturned(m: seq<Frame>, u: set<nat>, s: Space, m1: seq<Frame>, f: nat,
                      m': seq<Frame>, u': set<nat>, s': Space, grew: set<nat>)
    requires Kept(m, u, s, m1, u + {f}, s) && f !in u && f < POOL_FRAMES && s.role.Keys <= u
    requires Grown(m1, u + {f}, s, m', u', s') && u' == u + {f} + grew && grew !! u + {f}
    requires s'.leaves == s.leaves && s'.role.Keys == s.role.Keys + grew
    ensures Kept(m, u, s, m', u' - {f}, s')
    ensures Accounted(u, s, u' - {f}, s', {})
    ensures s'.role.Keys <= u' - {f}
  {
    hide Represents;
    KeptGrown(m1, u + {f}, s, m', u', s');
    KeptTrans(m, u, s, m1, u + {f}, s, m', u', s');
  }

  /** One turn of `map_segment`'s loop. */
  method LoadPage(image: seq<Byte>, space: AddressSpace, pool: Pool, seg: Segment, page: nat, ghost s: Space)
    returns (err: Option<ElfError>, ghost s': Space, ghost lost: set<nat>)
    requires pool.Valid() && Represents(pool.mem, s) && s.role.Keys <= pool.used && space.root == Pa(s.root)
    requires page % PAGE_SIZE == 0 && seg.vaddr < page + PAGE_SIZE && page + PAGE_SIZE < WORD_LIMIT
    requires seg.vaddr + seg.filesz < WORD_LIMIT && |image| < WORD_LIMIT
    modifies pool
    ensures pool.Valid() && Represents(pool.mem, s') && s'.role.Keys <= pool.used
    ensures s'.root == s.root && s'.gigas == s.gigas
    ensures Kept(old(pool.mem), old(pool.used), s, pool.mem, pool.used, s')
    ensures Accounted(old(pool.used), s, pool.used, s', lost)
    ensures PermsFrom(s, s', seg.perms)
    ensures err.None? ==> SegmentPage(pool.mem, pool.used, s', image, seg, page) && (lost == {} <==> seg.perms.Live())
    ensures err.Some? ==> err.value in {OutOfMemory, MapFailed, BadProgramHeaders}
    ensures err.Some? ==> (lost == {} <==> err.value != BadProgramHeaders)
    ensures err == Some(BadProgramHeaders) ==> 0 < seg.filesz && |image| < seg.offset + seg.filesz
    ensures err == Some(OutOfMemory) ==> pool.liveCount == POOL_FRAMES
    ensures err == Some(MapFailed) ==> pool.liveCount + 1 == POOL_FRAMES || Taken(s, PageOf(page))
    ensures err.None? ==> PageSource(image, seg, page).Some? && !Taken(s, PageOf(page))
    ensures err.Some? && err != Some(OutOfMemory) ==> (err == Some(BadProgramHeaders) <==> PageSource(image, seg, page).None?)
    ensures s'.leaves.Keys == s.leaves.Keys + if err.None? then {PageOf(page)} else {}
    ensures pool.liveCount <= old(pool.liveCount) + 3
  {
    hide Represents;
    hide OnlyPath;
    hide Grown;
    hide Kept;
    hide Accounted;
    hide Pool.Valid;
    hide PageOf;
    hide PageSource;
    hide HoldsBytes;
    hide Pa;
    hide Missing;
    ghost var m, u := pool.mem, pool.used;
    NothingLoaded(m, u, s);
    if seg.offset + seg.filesz <= |image| || seg.filesz == 0 {
      PageSourceInside(image, seg, page);
    }
    var frame, ok := FillPage(image, pool, seg, page);
    if frame.None? {
      return Some(OutOfMemory), s, {};
    }
    ghost var f, m1 := FrameAt(frame.value), pool.mem;
    FrameTaken(m, u, s, m1, f);
    if !ok {
      return Some(BadProgramHeaders), s, {f};
    }
    PoolPpn(f);
    ghost var leaf := Leaf(BASE_PPN + f, seg.perms);
    var r;
    ghost var grew;
    r, s', grew := MapPage(space, pool, page, frame.value, seg.perms, s);
    GrownFacts(m1, u + {f}, s, pool.mem, pool.used, s');
    if r != Ok {
      FrameReturned(m, u, s, m1, f, pool.mem, pool.used, s', grew);
      pool.Free(frame.value);
      return Some(MapFailed), s', {};
    }
    FrameMapped(m, u, s, m1, f, pool.mem, pool.used, s', grew, leaf, PageOf(page));
    return None, s', if seg.perms.Live() then {} else {f};
  }

  lemma HeldOneMore(m: seq<Frame>, u: set<nat>, s: Space, image: seq<Byte>, seg: Segment, page: nat)
    requires SegmentHeld(m, u, s, image, seg, page) && SegmentPage(m, u, s, image, seg, page) && page % PAGE_SIZE == 0
    ensures SegmentHeld(m, u, s, image, seg, page + PAGE_SIZE)
  {
    hide SegmentPage;
    forall p: nat | p % PAGE_SIZE == 0 && seg.vaddr < p + PAGE_SIZE && p < page + PAGE_SIZE
      ensures SegmentPage(m, u, s, image, seg, p)
    {
      if p >= page {
        assert p == page;
      }
    }
  }

  lemma HeldNone(m: seq<Frame>, u: set<nat>, s: Space, image: seq<Byte>, seg: Segment)
    ensures SegmentHeld(m, u, s, image, seg, FirstPage(seg))
  {
    forall p: nat | p % PAGE_SIZE == 0 && seg.vaddr < p + PAGE_SIZE
      ensures seg.vaddr - seg.vaddr % PAGE_SIZE <= p
    {
      assert seg.vaddr / PAGE_SIZE <= p / PAGE_SIZE;
    }
  }

  lemma HeldShorter(m: seq<Frame>, u: set<nat>, s: Space, image: seq<Byte>, seg: Segment, limit: nat, limit': nat)
    requires SegmentHeld(m, u, s, image, seg, limit) && limit' <= limit
    ensures SegmentHeld(m, u, s, image, seg, limit')
  {
    hide SegmentPage;
  }

  /** The state of the pool and the space after some loading work that lost `lost`. */
  ghost predicate Worked(m0: seq<Frame>, u0: set<nat>, s0: Space, m: seq<Frame>, u: set<nat>, s: Space, lost: set<nat>) {
    && Represents(m, s) && s.role.Keys <= u
    && s.root == s0.root && s.gigas == s0.gigas
    && Kept(m0, u0, s0, m, u, s)
    && Accounted(u0, s0, u, s, lost)
  }

  lemma WorkedTrans(m0: seq<Frame>, u0: set<nat>, s0: Space, m: seq<Frame>, u: set<nat>, s: Space, lost: set<nat>,
                    m': seq<Frame>, u': set<nat>, s': Space, lost': set<nat>)
    requires Worked(m0, u0, s0, m, u, s, lost) && Worked(m, u, s, m', u', s', lost')
    ensures Worked(m0, u0, s0, m', u', s', lost + lost')
  {
    hide Represents;
    hide Kept;
    hide Accounted;
    KeptTrans(m0, u0, s0, m, u, s, m', u', s');
    AccountedTrans(u0, s0, u, s, lost, u', s', lost');
  }

  lemma WorkedFacts(m0: seq<Frame>, u0: set<nat>, s0: Space, m: seq<Frame>, u: set<nat>, s: Space, lost: set<nat>)
    requires Worked(m0, u0, s0, m, u, s, lost)
    ensures Represents(m, s) && s.role.Keys <= u && s.root == s0.root && s.gigas == s0.gigas && Kept(m0, u0, s0, m, u, s)
  {
    hide Represents;
    hide Kept;
    hide Accounted;
  }

  lemma WorkedNone(m: seq<Frame>, u: set<nat>, s: Space)
    requires Represents(m, s) && s.role.Keys <= u
    ensures Worked(m, u, s, m, u, s, {})
  {
    hide Represents;
    NothingLoaded(m, u, s);
  }

  /** Every page mapped since is the segment's. */
  ghost predicate OnlyPages(s: Space, s': Space, seg: Segment, limit: nat) {
    forall v :: v in s'.leaves ==> v in s.leaves || PageBelow(seg, v, limit)
  }

  lemma OnlyNone(s: Space, seg: Segment, limit: nat)
    ensures OnlyPages(s, s, seg, limit)
  {
  }

  lemma OnlyOneMore(s: Space, s1: Space, s': Space, seg: Segment, page: nat)
    requires OnlyPages(s, s1, seg, page) && PageIn(seg, page) && s'.leaves.Keys <= s1.leaves.Keys + {PageOf(page)}
    ensures OnlyPages(s, s', seg, page + PAGE_SIZE)
  {
    hide PageOf;
    hide PageIn;
    forall v | v in s'.leaves && v !in s.leaves ensures PageBelow(seg, v, page + PAGE_SIZE) {
      if v in s1.leaves {
        var p: nat :| p < page && PageIn(seg, p) && PageOf(p) == v;
      }
    }
  }

  lemma OnlyWider(s: Space, s': Space, seg: Segment, limit: nat, limit': nat)
    requires OnlyPages(s, s', seg, limit) && (limit <= limit' || seg.vaddr + seg.memsz <= limit')
    ensures OnlyPages(s, s', seg, limit')
  {
    hide PageOf;
    forall v | v in s'.leaves && v !in s.leaves ensures PageBelow(seg, v, limit') {
      var p: nat :| p < limit && PageIn(seg, p) && PageOf(p) == v;
    }
  }

  /** The pages below `page` are in place, so a place is taken if it was, or if it is one of
      theirs. */
  lemma TakenBy(m: seq<Frame>, u: set<nat>, s: Space, s1: Space, image: seq<Byte>, seg: Segment, page: nat)
    requires SegmentHeld(m, u, s1, image, seg, page) && OnlyPages(s, s1, seg, page) && PageIn(seg, page)
    requires s1.gigas == s.gigas && forall v :: v in s.leaves ==> v in s1.leaves
    ensures Taken(s1, PageOf(page)) <==> Taken(s, PageOf(page)) || PageBelow(seg, PageOf(page), page)
  {
    hide HoldsBytes;
    hide PageOf;
    var v := PageOf(page);
    if PageBelow(seg, v, page) {
      var p: nat :| p < page && PageIn(seg, p) && PageOf(p) == v;
      assert SegmentPage(m, u, s1, image, seg, p);
    }
  }

  /** `map_segment` ends at page `at`: the pages before are faultless, and this one is not
      unless the pool ran `short`. */
  ghost predicate SegmentStops(image: seq<Byte>, seg: Segment, s: Space, at: nat, refused: bool, short: bool) {
    && PageIn(seg, at) && ClearBelow(image, seg, s, at)
    && (refused ==> at + PAGE_SIZE < WORD_LIMIT && PageSource(image, seg, at).None?)
    && (short || (PageFault(image, seg, s, at) && (at + PAGE_SIZE < WORD_LIMIT && PageSource(image, seg, at).None? ==> refused)))
  }

  lemma StopFound(image: seq<Byte>, seg: Segment, s: Space, s1: Space, at: nat, err: ElfError, live: nat)
    requires PageIn(seg, at) && ClearBelow(image, seg, s, at)
    requires Taken(s1, PageOf(at)) <==> Taken(s, PageOf(at)) || PageBelow(seg, PageOf(at), at)
    requires at + PAGE_SIZE >= WORD_LIMIT ==> err == BadProgramHeaders
    requires at + PAGE_SIZE < WORD_LIMIT ==>
      && err in {OutOfMemory, MapFailed, BadProgramHeaders}
      && (err == OutOfMemory ==> live == POOL_FRAMES)
      && (err == MapFailed ==> live + 1 == POOL_FRAMES || Taken(s1, PageOf(at)))
      && (err != OutOfMemory ==> (err == BadProgramHeaders <==> PageSource(image, seg, at).None?))
    ensures SegmentStops(image, seg, s, at, err == BadProgramHeaders && at + PAGE_SIZE < WORD_LIMIT, live + 1 >= POOL_FRAMES)
  {
    hide ClearBelow;
    hide PageBelow;
    hide PageSource;
    hide PageOf;
    hide Taken;
  }

  lemma ClearOneMore(image: seq<Byte>, seg: Segment, s: Space, page: nat)
    requires ClearBelow(image, seg, s, page) && page % PAGE_SIZE == 0 && !PageFault(image, seg, s, page)
    ensures ClearBelow(image, seg, s, page + PAGE_SIZE)
  {
    hide PageFault;
    forall p: nat | PageIn(seg, p) && p < page + PAGE_SIZE ensures !PageFault(image, seg, s, p) {
      if p >= page {
        assert p == page;
      }
    }
  }

  lemma ClearNone(image: seq<Byte>, seg: Segment, s: Space)
    ensures ClearBelow(image, seg, s, FirstPage(seg))
  {
    forall p: nat | PageIn(seg, p) ensures FirstPage(seg) <= p {
      assert seg.vaddr / PAGE_SIZE <= p / PAGE_SIZE;
    }
  }

  /** `map_segment`. On success every page of the segment is in place, and none other was
      mapped. On failure `at` is the page that could not be placed. A frame is lost exactly
      when a dead page was mapped, or when the page's file bytes were refused after its frame
      was taken. */
  method MapSegment(image: seq<Byte>, space: AddressSpace, pool: Pool, seg: Segment, ghost s: Space)
    returns (err: Option<ElfError>, ghost s': Space, ghost lost: set<nat>, ghost at: nat, ghost refused: bool)
    requires pool.Valid() && Represents(pool.mem, s) && s.role.Keys <= pool.used && space.root == Pa(s.root)
    requires seg.filesz <= seg.memsz && |image| < WORD_LIMIT
    modifies pool
    ensures pool.Valid() && Worked(old(pool.mem), old(pool.used), s, pool.mem, pool.used, s', lost)
    ensures PermsFrom(s, s', seg.perms) && OnlyPages(s, s', seg, seg.vaddr + seg.memsz)
    ensures err.None? ==> seg.vaddr + seg.memsz < WORD_LIMIT && ClearBelow(image, seg, s, seg.vaddr + seg.memsz)
    ensures err.None? ==> SegmentHeld(pool.mem, pool.used, s', image, seg, seg.vaddr + seg.memsz)
    ensures err.None? ==> (lost == {} <==> NoPages(seg) || seg.perms.Live())
    ensures seg.vaddr + seg.memsz >= WORD_LIMIT ==> err == Some(BadProgramHeaders) && lost == {}
    ensures err.Some? && seg.vaddr + seg.memsz < WORD_LIMIT ==>
      && SegmentStops(image, seg, s, at, refused, pool.liveCount + 1 >= POOL_FRAMES)
      && (lost == {} <==> (seg.perms.Live() || at == FirstPage(seg)) && !refused)
      && (err == Some(BadProgramHeaders) <==> refused || at + PAGE_SIZE >= WORD_LIMIT)
    ensures err.Some? ==> err.value in {OutOfMemory, MapFailed, BadProgramHeaders}
    ensures err == Some(OutOfMemory) ==> pool.liveCount == POOL_FRAMES
    ensures Tidy(image, seg) ==> lost == {}
    ensures pool.liveCount <= old(pool.liveCount) + 3 * PageCount(seg)
  {
    hide Represents;
    hide Pool.Valid;
    hide Worked;
    hide SegmentHeld;
    hide SegmentPage;
    hide SegmentStops;
    hide ClearBelow;
    hide OnlyPages;
    hide PageOf;
    hide Taken;
    hide PageBelow;
    hide PageSource;
    hide PageCount;
    hide Pa;
    hide Kept;
    ghost var m0, u0, live0, k := pool.mem, pool.used, pool.liveCount, 0;
    s', lost, at, refused := s, {}, FirstPage(seg), false;
    WorkedNone(m0, u0, s);
    OnlyNone(s, seg, FirstPage(seg));
    OnlyNone(s, seg, seg.vaddr + seg.memsz);
    if seg.vaddr + seg.memsz >= WORD_LIMIT {
      return Some(BadProgramHeaders), s', lost, at, refused;
    }
    var segEnd := seg.vaddr + seg.memsz;
    var page := FirstPage(seg);
    HeldNone(pool.mem, pool.used, s', image, seg);
    ClearNone(image, seg, s);
    while page < segEnd
      invariant pool.Valid() && Worked(m0, u0, s, pool.mem, pool.used, s', lost)
      invariant page % PAGE_SIZE == 0 && seg.vaddr < page + PAGE_SIZE
      invariant PermsFrom(s, s', seg.perms)
      invariant SegmentHeld(pool.mem, pool.used, s', image, seg, page) && ClearBelow(image, seg, s, page)
      invariant lost == {} <==> seg.perms.Live() || page == FirstPage(seg)
      invariant page == FirstPage(seg) || FirstPage(seg) < segEnd
      invariant OnlyPages(s, s', seg, page) && page == FirstPage(seg) + k * PAGE_SIZE
      invariant pool.liveCount <= live0 + 3 * k && k <= PageCount(seg)
    {
      at := page;
      PagesLeft(seg, k);
      OnlyWider(s, s', seg, page, segEnd);
      WorkedFacts(m0, u0, s, pool.mem, pool.used, s', lost);
      KeptLeaves(m0, u0, s, pool.mem, pool.used, s');
      TakenBy(pool.mem, pool.used, s, s', image, seg, page);
      ghost var m1, u1, s1, l := pool.mem, pool.used, s', {};
      if page + PAGE_SIZE >= WORD_LIMIT {
        StopFound(image, seg, s, s1, page, BadProgramHeaders, pool.liveCount);
        return Some(BadProgramHeaders), s', lost, at, refused;
      }
      if seg.filesz == 0 || seg.offset + seg.filesz <= |image| {
        PageSourceInside(image, seg, page);
      }
      err, s', l := LoadPage(image, space, pool, seg, page, s1);
      Combine(m0, u0, s, m1, u1, s1, lost, pool.mem, pool.used, s', l);
      lost := lost + l;
      OnlyOneMore(s, s1, s', seg, page);
      OnlyWider(s, s', seg, page + PAGE_SIZE, segEnd);
      if err.Some? {
        refused := err == Some(BadProgramHeaders);
        StopFound(image, seg, s, s1, page, err.value, pool.liveCount);
        return err, s', lost, at, refused;
      }
      k := k + 1;
      ClearOneMore(image, seg, s, page);
      HeldKept(m1, u1, s1, pool.mem, pool.used, s', image, seg, page);
      HeldOneMore(pool.mem, pool.used, s', image, seg, page);
      page := page + PAGE_SIZE;
    }
    HeldShorter(pool.mem, pool.used, s', image, seg, page, segEnd);
    ClearShorter(image, seg, s, page, segEnd);
    OnlyWider(s, s', seg, page, segEnd);
    return None, s', lost, at, refused;
  }

  lemma KeptLeaves(m: seq<Frame>, u: set<nat>, s: Space, m': seq<Frame>, u': set<nat>, s': Space)
    requires Kept(m, u, s, m', u', s')
    ensures forall v :: v in s.leaves ==> v in s'.leaves
  {
  }

  lemma ClearShorter(image: seq<Byte>, seg: Segment, s: Space, limit: nat, limit': nat)
    requires ClearBelow(image, seg, s, limit) && limit' <= limit
    ensures ClearBelow(image, seg, s, limit')
  {
    hide PageFault;
  }

  lemma Combine(m0: seq<Frame>, u0: set<nat>, s0: Space, m: seq<Frame>, u: set<nat>, s: Space, lost: set<nat>,
                m': seq<Frame>, u': set<nat>, s': Space, l: set<nat>)
    requires Worked(m0, u0, s0, m, u, s, lost)
    requires Represents(m', s') && s'.role.Keys <= u' && s'.root == s.root && s'.gigas == s.gigas
    requires Kept(m, u, s, m', u', s') && Accounted(u, s, u', s', l)
    ensures Worked(m0, u0, s0, m', u', s', lost + l)
  {
    hide Represents;
    hide Kept;
    hide Accounted;
    WorkedTrans(m0, u0, s0, m, u, s, lost, m', u', s', l);
  }

  /** The segments named by the first `n` program headers are well-formed, respect W^X and
      are in place in full. */
  ghost predicate LoadedBelow(m: seq<Frame>, u: set<nat>, s: Space, image: seq<Byte>, n: nat)
    requires HeaderError(image).None? && n <= HeaderCount(image)
  {
    forall i: nat :: i < n && IsLoad(image, i) ==>
      var seg := SegmentAt(image, i);
      && seg.filesz <= seg.memsz && !(seg.perms.w && seg.perms.x)
      && SegmentHeld(m, u, s, image, seg, seg.vaddr + seg.memsz)
  }

  lemma LoadedKept(m: seq<Frame>, u: set<nat>, s: Space, m': seq<Frame>, u': set<nat>, s': Space, image: seq<Byte>, n: nat)
    requires HeaderError(image).None? && n <= HeaderCount(image)
    requires Kept(m, u, s, m', u', s') && LoadedBelow(m, u, s, image, n)
    ensures LoadedBelow(m', u', s', image, n)
  {
    hide Kept;
    hide SegmentHeld;
    hide SegmentAt;
    hide IsLoad;
    hide HeaderError;
    forall i: nat | i < n && IsLoad(image, i)
      ensures var seg := SegmentAt(image, i); SegmentHeld(m', u', s', image, seg, seg.vaddr + seg.memsz)
    {
      var seg := SegmentAt(image, i);
      HeldKept(m, u, s, m', u', s', image, seg, seg.vaddr + seg.memsz);
    }
  }

  lemma WxKept(s: Space, s': Space, perms: Perms)
    requires NoWx(s) && PermsFrom(s, s', perms) && !(perms.w && perms.x)
    ensures NoWx(s')
  {
  }

  lemma PoolLeavesKept(s0: Space, s: Space, s': Space, perms: Perms)
    requires PoolLeaves(s0, s) && PermsFrom(s, s', perms)
    ensures PoolLeaves(s0, s')
  {
  }

  /** Only the segments' own pages were mapped. */
  ghost predicate OnlySegments(s: Space, s': Space, image: seq<Byte>, n: nat)
    requires HeaderError(image).None? && n <= HeaderCount(image)
  {
    forall v :: v in s'.leaves ==> v in s.leaves || SegmentOwns(image, n, v)
  }

  lemma OnlySegmentsNone(s: Space, image: seq<Byte>)
    requires HeaderError(image).None?
    ensures OnlySegments(s, s, image, 0) && TotalPages(image, 0) == 0
  {
  }

  lemma OnlySegmentsLater(s: Space, s': Space, image: seq<Byte>, i: nat)
    requires HeaderError(image).None? && i <= HeaderCount(image) && OnlySegments(s, s', image, i)
    ensures OnlySegments(s, s', image, HeaderCount(image))
    ensures TotalPages(image, i) <= TotalPages(image, HeaderCount(image))
    ensures i < HeaderCount(image) && !IsLoad(image, i) ==> TotalPages(image, i + 1) == TotalPages(image, i)
  {
    hide HeaderError;
    hide IsLoad;
    hide SegmentAt;
    hide PageBelow;
    hide PageCount;
    forall v | v in s'.leaves && v !in s.leaves ensures SegmentOwns(image, HeaderCount(image), v) {
      assert SegmentOwns(image, i, v);
    }
    PagesGrow(image, i, HeaderCount(image));
  }

  lemma OnlySegmentsMore(s: Space, s1: Space, s': Space, image: seq<Byte>, i: nat)
    requires HeaderError(image).None? && i < HeaderCount(image) && OnlySegments(s, s1, image, i)
    requires s' == s1 || (IsLoad(image, i) && OnlyPages(s1, s', SegmentAt(image, i), SegmentAt(image, i).vaddr + SegmentAt(image, i).memsz))
    ensures OnlySegments(s, s', image, i + 1)
  {
    hide HeaderError;
    hide IsLoad;
    hide SegmentAt;
    hide PageBelow;
    forall v | v in s'.leaves && v !in s.leaves ensures SegmentOwns(image, i + 1, v) {
      if v in s1.leaves {
        assert SegmentOwns(image, i, v);
      }
    }
  }

  /** With the first `i` segments in place, a place is taken if it was, or if it is one of
      theirs. */
  lemma SegmentsTake(m: seq<Frame>, u: set<nat>, s: Space, s1: Space, image: seq<Byte>, i: nat, v: nat)
    requires HeaderError(image).None? && i <= HeaderCount(image) && LoadedBelow(m, u, s1, image, i) && OnlySegments(s, s1, image, i)
    requires s1.gigas == s.gigas && forall x :: x in s.leaves ==> x in s1.leaves
    ensures Taken(s1, v) <==> Taken(s, v) || SegmentOwns(image, i, v)
  {
    hide HeaderError;
    hide SegmentAt;
    hide IsLoad;
    hide HoldsBytes;
    hide PageOf;
    if SegmentOwns(image, i, v) {
      var j: nat :| j < i && IsLoad(image, j) && PageBelow(SegmentAt(image, j), v, SegmentAt(image, j).vaddr + SegmentAt(image, j).memsz);
      PlacedPage(m, u, s1, image, i, j, v);
    }
  }

  /** A page of a segment that is in place is mapped with the segment's permissions. */
  lemma PlacedPage(m: seq<Frame>, u: set<nat>, s: Space, image: seq<Byte>, n: nat, i: nat, v: nat)
    requires HeaderError(image).None? && i < n <= HeaderCount(image) && LoadedBelow(m, u, s, image, n) && IsLoad(image, i)
    requires PageBelow(SegmentAt(image, i), v, SegmentAt(image, i).vaddr + SegmentAt(image, i).memsz)
    ensures v in s.leaves && s.leaves[v].perms == SegmentAt(image, i).perms
  {
    hide HeaderError;
    hide SegmentAt;
    hide IsLoad;
    hide HoldsBytes;
    hide PageOf;
    var seg := SegmentAt(image, i);
    var p: nat :| p < seg.vaddr + seg.memsz && PageIn(seg, p) && PageOf(p) == v;
    assert SegmentHeld(m, u, s, image, seg, seg.vaddr + seg.memsz);
    assert SegmentPage(m, u, s, image, seg, p);
  }

  lemma FaultsLift(m: seq<Frame>, u: set<nat>, s: Space, s1: Space, image: seq<Byte>, i: nat)
    requires HeaderError(image).None? && i < HeaderCount(image) && LoadedBelow(m, u, s1, image, i) && OnlySegments(s, s1, image, i)
    requires s1.gigas == s.gigas && forall x :: x in s.leaves ==> x in s1.leaves
    ensures forall p: nat :: PageFault(image, SegmentAt(image, i), s1, p) <==> PosFault(image, s, i, p)
  {
    hide HeaderError;
    hide SegmentAt;
    hide IsLoad;
    hide LoadedBelow;
    hide OnlySegments;
    hide SegmentOwns;
    hide PageBelow;
    hide PageSource;
    hide PageOf;
    hide Taken;
    forall p: nat ensures PageFault(image, SegmentAt(image, i), s1, p) <==> PosFault(image, s, i, p) {
      SegmentsTake(m, u, s, s1, image, i, PageOf(p));
    }
  }

  lemma ClearLift(s: Space, s1: Space, image: seq<Byte>, i: nat)
    requires HeaderError(image).None? && i < HeaderCount(image) && ClearTo(image, s, i) && !HeadFault(SegmentAt(image, i))
    requires forall p: nat :: PageFault(image, SegmentAt(image, i), s1, p) <==> PosFault(image, s, i, p)
    requires ClearBelow(image, SegmentAt(image, i), s1, SegmentAt(image, i).vaddr + SegmentAt(image, i).memsz)
    ensures ClearTo(image, s, i + 1)
  {
    hide HeaderError;
    hide SegmentAt;
    hide IsLoad;
    hide PageFault;
    hide PosFault;
    hide HeadFault;
    assert SegmentClear(image, s, i);
    hide SegmentClear;
  }

  lemma StopLift(s: Space, s1: Space, image: seq<Byte>, i: nat, at: nat, refused: bool, short: bool)
    requires HeaderError(image).None? && i < HeaderCount(image) && IsLoad(image, i) && ClearTo(image, s, i) && !HeadFault(SegmentAt(image, i))
    requires forall p: nat :: PageFault(image, SegmentAt(image, i), s1, p) <==> PosFault(image, s, i, p)
    requires SegmentStops(image, SegmentAt(image, i), s1, at, refused, short)
    ensures StopsAt(image, s, AtPage(i, at, refused), short)
  {
    hide HeaderError;
    hide SegmentAt;
    hide IsLoad;
    hide PageFault;
    hide PosFault;
    hide HeadFault;
    hide ClearTo;
    hide PageSource;
  }

  /** The entry translates exactly when it is not outside. */
  lemma EntryExact(m: seq<Frame>, u: set<nat>, image: seq<Byte>, s: Space, s': Space)
    requires Represents(m, s') && s'.gigas == s.gigas && HeaderError(image).None? && OnlySegments(s, s', image, HeaderCount(image))
    requires LoadedBelow(m, u, s', image, HeaderCount(image))
    requires forall v :: v in s.leaves ==> v in s'.leaves && s'.leaves[v] == s.leaves[v]
    ensures Lookup(s', Le(image, 24, 8), ANY).None? <==> EntryOutside(image, s)
  {
    hide Represents;
    hide LoadedBelow;
    hide SegmentAt;
    hide IsLoad;
    hide PageBelow;
    hide PageOf;
    var v := PageOf(Le(image, 24, 8));
    hide HeaderError;
    hide Le;
    forall i: nat | i < HeaderCount(image) && IsLoad(image, i) && PageBelow(SegmentAt(image, i), v, SegmentAt(image, i).vaddr + SegmentAt(image, i).memsz)
      ensures v in s'.leaves && s'.leaves[v].perms == SegmentAt(image, i).perms
    {
      PlacedPage(m, u, s', image, HeaderCount(image), i, v);
    }
  }

  /** For every byte of every load segment of an accepted image: if the segment is readable,
      the payload reads at that address the image byte below `filesz` and zero above it. */
  lemma LoadedBytesReadable(m: seq<Frame>, u: set<nat>, s: Space, image: seq<Byte>, i: nat, a: nat)
    requires HeaderError(image).None? && i < HeaderCount(image) && IsLoad(image, i)
    requires Represents(m, s) && LoadedBelow(m, u, s, image, HeaderCount(image))
    requires var seg := SegmentAt(image, i); seg.vaddr <= a < seg.vaddr + seg.memsz && seg.perms.r
    ensures UserByte(m, s, a) == Some(SegmentByte(image, SegmentAt(image, i), a))
  {
    hide Represents;
    hide HeaderError;
    hide SegmentAt;
    hide IsLoad;
    hide SegmentByte;
    hide FrameByte;
    var seg := SegmentAt(image, i);
    var p, k := a - a % PAGE_SIZE, a % PAGE_SIZE;
    assert SegmentPage(m, u, s, image, seg, p);
    assert PageOf(p) == PageOf(a);
    PathTables(m, s, PageOf(a));
    NoSharedSlot(m, s);
    var leaf := s.leaves[PageOf(a)];
    PoolPage(leaf.ppn, k);
    assert FrameByte(m[leaf.ppn - BASE_PPN], k) == SegmentByte(image, seg, p + k);
  }

  /** What the payload reads of an accepted image: at every address of a readable load
      segment, the file byte it was written from, and zero beyond the file bytes. */
  lemma LoadedAsWritten(m: seq<Frame>, u: set<nat>, s0: Space, s: Space, image: seq<Byte>, i: nat, a: nat)
    requires |image| < WORD_LIMIT && !Unloadable(image, s0) && i < HeaderCount(image) && IsLoad(image, i)
    requires Represents(m, s) && LoadedBelow(m, u, s, image, HeaderCount(image)) && SegmentAt(image, i).perms.r
    ensures |m| == POOL_FRAMES
    ensures var seg := SegmentAt(image, i); seg.vaddr <= a < seg.vaddr + seg.filesz ==>
      seg.offset + (a - seg.vaddr) < |image| && UserByte(m, s, a) == Some(image[seg.offset + (a - seg.vaddr)])
    ensures var seg := SegmentAt(image, i); seg.vaddr + seg.filesz <= a < seg.vaddr + seg.memsz ==> UserByte(m, s, a) == Some(0)
  {
    hide Represents;
    hide Unloadable;
    hide LoadedBelow;
    hide HeaderError;
    hide SegmentAt;
    hide IsLoad;
    hide SegmentByte;
    hide UserByte;
    CanLoad(image, s0);
    var seg := SegmentAt(image, i);
    TreeFrames(m, s);
    FileInside(image, s0, i);
    if seg.vaddr <= a < seg.vaddr + seg.memsz {
      LoadedBytesReadable(m, u, s, image, i, a);
      SegmentByteIs(image, seg, a);
    }
  }

  lemma CanLoad(image: seq<Byte>, s: Space)
    requires !Unloadable(image, s)
    ensures HeaderError(image).None?
  {
  }

  /** The image is in memory as it was written: at every address of a readable load segment
      the payload reads the file byte, and zero beyond the file bytes. */
  ghost predicate AsWritten(m: seq<Frame>, s: Space, image: seq<Byte>)
    requires |m| == POOL_FRAMES && HeaderError(image).None?
  {
    forall i: nat, a: nat :: i < HeaderCount(image) && IsLoad(image, i) && SegmentAt(image, i).perms.r ==> ByteAsWritten(m, s, image, i, a)
  }

  ghost predicate ByteAsWritten(m: seq<Frame>, s: Space, image: seq<Byte>, i: nat, a: nat)
    requires |m| == POOL_FRAMES && HeaderError(image).None? && i < HeaderCount(image)
  {
    var seg := SegmentAt(image, i);
    && (seg.vaddr <= a < seg.vaddr + seg.filesz ==>
          seg.offset + (a - seg.vaddr) < |image| && UserByte(m, s, a) == Some(image[seg.offset + (a - seg.vaddr)]))
    && (seg.vaddr + seg.filesz <= a < seg.vaddr + seg.memsz ==> UserByte(m, s, a) == Some(0))
  }

  lemma AllAsWritten(m: seq<Frame>, u: set<nat>, s0: Space, s: Space, image: seq<Byte>)
    requires |image| < WORD_LIMIT && !Unloadable(image, s0)
    requires Represents(m, s) && LoadedBelow(m, u, s, image, HeaderCount(image))
    ensures |m| == POOL_FRAMES && AsWritten(m, s, image)
  {
    hide Represents;
    hide Unloadable;
    hide LoadedBelow;
    hide HeaderError;
    hide SegmentAt;
    hide IsLoad;
    hide UserByte;
    TreeFrames(m, s);
    CanLoad(image, s0);
    forall i: nat, a: nat | i < HeaderCount(image) && IsLoad(image, i) && SegmentAt(image, i).perms.r
      ensures ByteAsWritten(m, s, image, i, a)
    {
      LoadedAsWritten(m, u, s0, s, image, i, a);
    }
  }

  /** The program headers of `load`, in order. Every load segment is in place in full, or the
      load ends at `stop` with the error that belongs there. */
  method MapSegments(image: seq<Byte>, space: AddressSpace, pool: Pool, ghost s: Space)
    returns (err: Option<ElfError>, ghost s': Space, ghost lost: set<nat>, ghost stop: Stop)
    requires pool.Valid() && Represents(pool.mem, s) && s.role.Keys <= pool.used && space.root == Pa(s.root)
    requires |image| < WORD_LIMIT && HeaderError(image).None?
    modifies pool
    ensures pool.Valid() && Worked(old(pool.mem), old(pool.used), s, pool.mem, pool.used, s', lost)
    ensures (NoWx(s) ==> NoWx(s')) && PoolLeaves(s, s') && OnlySegments(s, s', image, HeaderCount(image))
    ensures err.None? ==> stop.AllSegments? && LoadedBelow(pool.mem, pool.used, s', image, HeaderCount(image))
    ensures err.Some? ==> !stop.AllSegments? && ErrorAt(image, stop, err.value)
    ensures StopsAt(image, s, stop, pool.liveCount + 1 >= POOL_FRAMES) && (lost == {} <==> !Lossy(image, stop))
    ensures TidyImage(image) ==> lost == {}
    ensures pool.liveCount <= old(pool.liveCount) + 3 * TotalPages(image, HeaderCount(image))
  {
    hide OnlySegments;
    hide OnlyPages;
    hide ClearBelow;
    hide ClearTo;
    hide PageFault;
    hide PosFault;
    hide SegmentStops;
    hide EntryOutside;
    hide PageCount;
    hide TotalPages;
    hide Represents;
    hide Pool.Valid;
    hide Worked;
    hide Kept;
    hide SegmentHeld;
    hide LoadedBelow;
    hide SegmentAt;
    hide IsLoad;
    hide NoWx;
    hide Pa;
    hide Le;
    hide Lookup;
    hide PermsFrom;
    hide Reached;
    hide Loses;
    hide NoPages;
    hide HeaderError;
    s', lost, stop := s, {}, AllSegments;
    ghost var m0, u0, live0 := pool.mem, pool.used, pool.liveCount;
    WorkedNone(m0, u0, s);
    LoadedNone(pool.mem, pool.used, s', image);
    OnlySegmentsNone(s, image);
    ClearToNone(image, s);
    for i := 0 to HeaderCount(image)
      invariant pool.Valid() && Worked(m0, u0, s, pool.mem, pool.used, s', lost)
      invariant (NoWx(s) ==> NoWx(s')) && PoolLeaves(s, s')
      invariant LoadedBelow(pool.mem, pool.used, s', image, i) && ClearTo(image, s, i)
      invariant lost == {} <==> AllLive(image, i)
      invariant TidyImage(image) ==> lost == {}
      invariant OnlySegments(s, s', image, i) && pool.liveCount <= live0 + 3 * TotalPages(image, i)
    {
      OnlySegmentsLater(s, s', image, i);
      PagesGrow(image, i, HeaderCount(image));
      if !IsLoad(image, i) {
        LoadedSkip(pool.mem, pool.used, s', image, i);
        OnlySegmentsMore(s, s', s', image, i);
        ClearSkip(image, s, i);
        continue;
      }
      var seg := SegmentAt(image, i);
      if seg.memsz < seg.filesz {
        stop := AtHeader(i);
        return Some(BadProgramHeaders), s', lost, stop;
      }
      if seg.perms.w && seg.perms.x {
        stop := AtHeader(i);
        return Some(WxViolation), s', lost, stop;
      }
      WorkedFacts(m0, u0, s, pool.mem, pool.used, s', lost);
      KeptLeaves(m0, u0, s, pool.mem, pool.used, s');
      FaultsLift(pool.mem, pool.used, s, s', image, i);
      ghost var m1, u1, s1, l, at, refused := pool.mem, pool.used, s', {}, 0, false;
      err, s', l, at, refused := MapSegment(image, space, pool, seg, s1);
      WorkedFacts(m1, u1, s1, pool.mem, pool.used, s', l);
      WorkedTrans(m0, u0, s, m1, u1, s1, lost, pool.mem, pool.used, s', l);
      lost := lost + l;
      if NoWx(s) {
        WxKept(s1, s', seg.perms);
      }
      PoolLeavesKept(s, s1, s', seg.perms);
      OnlySegmentsMore(s, s1, s', image, i);
      PagesLater(image, i);
      PagesGrow(image, i + 1, HeaderCount(image));
      if err.Some? {
        OnlySegmentsLater(s, s', image, i + 1);
        if seg.vaddr + seg.memsz >= WORD_LIMIT {
          stop := AtHeader(i);
        } else {
          stop := AtPage(i, at, refused);
          StopLift(s, s1, image, i, at, refused, pool.liveCount + 1 >= POOL_FRAMES);
        }
        return err, s', lost, stop;
      }
      ClearLift(s, s1, image, i);
      LoadedKept(m1, u1, s1, pool.mem, pool.used, s', image, i);
      LoadedOneMore(pool.mem, pool.used, s', image, i);
    }
    return None, s', lost, stop;
  }

  /** `load`. An accepted image is in memory in full, as written and with its headers'
      permissions; later segments never disturb earlier ones, and nothing but the segments'
      pages is mapped. W^X holds whether the load completes or not. Unless the pool runs
      short, the image is accepted exactly when nothing is wrong with it. `stop` is where the
      load ended, which decides the error, and frames are lost exactly when that is lossy;
      unless the pool ran short, exactly when the image is one that loses frames. */
  method Load(image: seq<Byte>, space: AddressSpace, pool: Pool, ghost s: Space)
    returns (r: LoadResult, ghost s': Space, ghost lost: set<nat>, ghost stop: Stop)
    requires pool.Valid() && Represents(pool.mem, s) && s.role.Keys <= pool.used && space.root == Pa(s.root)
    requires |image| < WORD_LIMIT
    modifies pool
    ensures pool.Valid() && Worked(old(pool.mem), old(pool.used), s, pool.mem, pool.used, s', lost)
    ensures HeaderError(image).Some? ==>
      && r == Failed(HeaderError(image).value) && s' == s && lost == {}
      && pool.used == old(pool.used) && pool.liveCount == old(pool.liveCount)
    ensures NoWx(s) ==> NoWx(s')
    ensures PoolLeaves(s, s')
    ensures r.Loaded? ==> HeaderError(image).None? && r.entry == Le(image, 24, 8) && Lookup(s', r.entry, ANY).Some?
    ensures r.Loaded? ==> LoadedBelow(pool.mem, pool.used, s', image, HeaderCount(image)) && AsWritten(pool.mem, s', image)
    ensures HeaderError(image).None? ==> OnlySegments(s, s', image, HeaderCount(image))
    ensures r.Loaded? ==> !Unloadable(image, s) && stop.AllSegments?
    ensures r.Failed? ==> Unloadable(image, s) || pool.liveCount + 1 >= POOL_FRAMES
    ensures r.Failed? && HeaderError(image).None? ==> ErrorAt(image, stop, r.error)
    ensures HeaderError(image).None? ==> StopsAt(image, s, stop, pool.liveCount + 1 >= POOL_FRAMES) && (lost == {} <==> !Lossy(image, stop))
    ensures lost != {} ==> Loses(image, s)
    ensures pool.liveCount + 1 < POOL_FRAMES ==> (lost == {} <==> !Loses(image, s))
    ensures TidyImage(image) ==> lost == {}
    ensures HeaderError(image).None? ==> pool.liveCount <= old(pool.liveCount) + 3 * TotalPages(image, HeaderCount(image))
  {
    hide OnlySegments;
    hide OnlyPages;
    hide ClearBelow;
    hide ClearTo;
    hide PageFault;
    hide PosFault;
    hide SegmentStops;
    hide EntryOutside;
    hide PageCount;
    hide TotalPages;
    hide Represents;
    hide Pool.Valid;
    hide Worked;
    hide Kept;
    hide SegmentHeld;
    hide LoadedBelow;
    hide SegmentAt;
    hide IsLoad;
    hide NoWx;
    hide Pa;
    hide Le;
    hide Lookup;
    hide PermsFrom;
    hide Reached;
    hide Loses;
    hide NoPages;
    hide AsWritten;
    hide Unloadable;
    hide StopsAt;
    hide Lossy;
    hide TidyImage;
    s', lost, stop := s, {}, AllSegments;
    ghost var m0, u0 := pool.mem, pool.used;
    var bad := HeaderError(image);
    if bad.Some? {
      WorkedNone(m0, u0, s);
      NoHeaderNoLoss(image, s);
      return Failed(bad.value), s', lost, stop;
    }
    hide HeaderError;
    var err;
    err, s', lost, stop := MapSegments(image, space, pool, s);
    LossExact(image, s, stop, pool.liveCount + 1 >= POOL_FRAMES);
    if err.Some? {
      StopRefuses(image, s, stop, pool.liveCount + 1 >= POOL_FRAMES);
      return Failed(err.value), s', lost, stop;
    }
    WorkedFacts(m0, u0, s, pool.mem, pool.used, s', lost);
    KeptSame(m0, u0, s, pool.mem, pool.used, s');
    EntryExact(pool.mem, pool.used, image, s, s');
    var entry := Le(image, 24, 8);
    var pa := TranslateChecked(space, pool, entry, ANY, s');
    if pa.None? {
      EntryWrong(image, s);
      return Failed(EntryUnmapped), s', lost, stop;
    }
    AllClear(image, s, stop, pool.liveCount + 1 >= POOL_FRAMES);
    NothingWrong(image, s);
    AllAsWritten(pool.mem, pool.used, s, s', image);
    return Loaded(entry), s', lost, stop;
  }

  lemma AllClear(image: seq<Byte>, s: Space, stop: Stop, short: bool)
    requires HeaderError(image).None? && stop.AllSegments? && StopsAt(image, s, stop, short)
    ensures ClearTo(image, s, HeaderCount(image))
  {
  }

  lemma KeptSame(m: seq<Frame>, u: set<nat>, s: Space, m': seq<Frame>, u': set<nat>, s': Space)
    requires Kept(m, u, s, m', u', s')
    ensures forall v :: v in s.leaves ==> v in s'.leaves && s'.leaves[v] == s.leaves[v]
  {
  }

  lemma LoadedNone(m: seq<Frame>, u: set<nat>, s: Space, image: seq<Byte>)
    requires HeaderError(image).None?
    ensures LoadedBelow(m, u, s, image, 0)
  {
  }

  lemma LoadedSkip(m: seq<Frame>, u: set<nat>, s: Space, image: seq<Byte>, i: nat)
    requires HeaderError(image).None? && i < HeaderCount(image) && !IsLoad(image, i) && LoadedBelow(m, u, s, image, i)
    ensures LoadedBelow(m, u, s, image, i + 1)
  {
    hide SegmentHeld;
    hide SegmentAt;
    hide IsLoad;
    hide HeaderError;
  }

  lemma LoadedOneMore(m: seq<Frame>, u: set<nat>, s: Space, image: seq<Byte>, i: nat)
    requires HeaderError(image).None? && i < HeaderCount(image) && LoadedBelow(m, u, s, image, i)
    requires var seg := SegmentAt(image, i);
      && seg.filesz <= seg.memsz && !(seg.perms.w && seg.perms.x)
      && SegmentHeld(m, u, s, image, seg, seg.vaddr + seg.memsz)
    ensures LoadedBelow(m, u, s, image, i + 1)
  {
    hide SegmentHeld;
    hide SegmentAt;
    hide IsLoad;
    hide HeaderError;
  }
}
