/** Building the address space a payload starts in (kernel/src/payload.rs, `start` and
    `map_window`). */
module Launch {
  import opened Words
  import opened Pte
  import opened FramePool
  import opened Space
  import opened PageTables
  import opened Census
  import opened Teardown
  import opened ElfImage
  import opened Elf
  import opened Machine
  import opened Estate
  import opened TrapFrame

  const READ_ONLY: Perms := Perms(true, false, false, true, false)

  /** A window lies outside the pool, page by page, within the physical address space. */
  predicate WindowOk(w: Window) {
    w.pa % PAGE_SIZE == 0 && POOL_END <= w.pa && w.pa / PAGE_SIZE + w.pages <= PPN_LIMIT
  }

  predicate ImageOk(img: Image) {
    |img.elf| < WORD_LIMIT && (img.window.Some? ==> WindowOk(img.window.value))
  }

  function WindowLeaf(w: Window, k: nat): Leaf
    requires WindowOk(w) && k < w.pages
  {
    Leaf(w.pa / PAGE_SIZE + k, READ_ONLY)
  }

  /** The first `n` pages of the window are mapped. */
  ghost predicate WindowMapped(s: Space, w: Window, n: nat)
    requires WindowOk(w) && n <= w.pages
  {
    forall k: nat :: k < n ==> WindowPage(s, w, k)
  }

  ghost predicate WindowPage(s: Space, w: Window, k: nat)
    requires WindowOk(w) && k < w.pages
  {
    var v := PageOf(w.va + k * PAGE_SIZE); v in s.leaves && s.leaves[v] == WindowLeaf(w, k)
  }

  /** Every leaf is an old one or a read-only page outside the pool. */
  ghost predicate OnlyWindows(s: Space, s': Space) {
    forall v :: v in s'.leaves ==> (v in s.leaves && s'.leaves[v] == s.leaves[v]) || s'.leaves[v].perms == READ_ONLY
  }

  lemma TablesWorked(m: seq<Frame>, u: set<nat>, s: Space, m': seq<Frame>, u': set<nat>, s': Space, grew: set<nat>)
    requires Represents(m, s) && s.role.Keys <= u
    requires Grown(m, u, s, m', u', s') && u' == u + grew && grew !! u && s'.role.Keys == s.role.Keys + grew
    requires forall v :: v in s.leaves ==> v in s'.leaves && s'.leaves[v] == s.leaves[v]
    ensures Worked(m, u, s, m', u', s', {})
  {
    KeptGrown(m, u, s, m', u', s');
    hide Represents;
  }

  /** Page `k` of the window cannot be mapped: its place is taken, or an earlier page of the
      window has it. */
  ghost predicate WindowClash(s: Space, w: Window, k: nat) {
    var v := PageOf(w.va + k * PAGE_SIZE);
    k < w.pages && (Taken(s, v) || exists j: nat :: j < k && SamePlace(w, j, v))
  }

  /** Every page mapped since is one of the first `n` window pages. */
  ghost predicate OnlyWindowPages(s: Space, s': Space, w: Window, n: nat) {
    forall v :: v in s'.leaves ==> v in s.leaves || exists j: nat :: j < n && SamePlace(w, j, v)
  }

  lemma WindowClashFound(s: Space, s1: Space, w: Window, k: nat)
    requires OnlyWindowPages(s, s1, w, k) && k < w.pages && s1.gigas == s.gigas && Taken(s1, PageOf(w.va + k * PAGE_SIZE))
    ensures WindowClash(s, w, k)
  {
    hide SamePlace;
  }

  lemma NoWindowClash(s: Space, s1: Space, w: Window, k: nat)
    requires WindowOk(w) && k < w.pages && WindowMapped(s1, w, k) && s1.gigas == s.gigas && !Taken(s1, PageOf(w.va + k * PAGE_SIZE))
    requires forall v :: v in s.leaves ==> v in s1.leaves
    ensures !WindowClash(s, w, k)
  {
    hide PageOf;
    hide WindowLeaf;
    var v := PageOf(w.va + k * PAGE_SIZE);
    forall j: nat | j < k ensures !SamePlace(w, j, v) {
      assert WindowPage(s1, w, j);
    }
  }

  lemma WindowEnd(s: Space, w: Window)
    requires forall j: nat :: j < w.pages ==> !WindowClash(s, w, j)
    ensures forall k: nat :: !WindowClash(s, w, k)
  {
    forall k: nat ensures !WindowClash(s, w, k) {
    }
  }

  lemma OnlyWindowNone(s: Space, w: Window)
    ensures OnlyWindowPages(s, s, w, 0)
  {
  }

  lemma OnlyWindowMore(s: Space, s1: Space, s': Space, w: Window, k: nat)
    requires OnlyWindowPages(s, s1, w, k) && s'.leaves.Keys <= s1.leaves.Keys + {PageOf(w.va + k * PAGE_SIZE)}
    ensures OnlyWindowPages(s, s', w, k + 1)
  {
    hide PageOf;
    forall v | v in s'.leaves && v !in s.leaves ensures exists j: nat :: j < k + 1 && SamePlace(w, j, v) {
      if v !in s1.leaves {
        assert SamePlace(w, k, v);
      } else {
        var j: nat :| j < k && SamePlace(w, j, v);
      }
    }
  }

  /** `map_window`: maps existing memory page by page; only table frames are allocated, and
      none is lost, whether it completes or not. */
  method MapWindow(space: AddressSpace, pool: Pool, w: Window, ghost s: Space) returns (ok: bool, ghost s': Space)
    requires pool.Valid() && Represents(pool.mem, s) && s.role.Keys <= pool.used && space.root == Pa(s.root) && WindowOk(w)
    modifies pool
    ensures pool.Valid() && Worked(old(pool.mem), old(pool.used), s, pool.mem, pool.used, s', {})
    ensures OnlyWindows(s, s')
    ensures ok ==> WindowMapped(s', w, w.pages) && OnlyWindowPages(s, s', w, w.pages)
    ensures !ok ==> pool.liveCount == POOL_FRAMES || exists k: nat :: WindowClash(s, w, k)
    ensures ok ==> forall k: nat :: !WindowClash(s, w, k)
    ensures pool.liveCount <= old(pool.liveCount) + 2 * w.pages
  {
    hide Represents;
    hide Pool.Valid;
    hide Worked;
    hide Grown;
    hide OnlyPath;
    hide OnlyWindowPages;
    hide WindowClash;
    hide WindowPage;
    hide PageOf;
    hide Pa;
    hide Missing;
    s' := s;
    WorkedNone(pool.mem, pool.used, s);
    ghost var m0, u0, live0 := pool.mem, pool.used, pool.liveCount;
    OnlyWindowNone(s, w);
    for k := 0 to w.pages
      invariant pool.Valid() && Worked(m0, u0, s, pool.mem, pool.used, s', {})
      invariant OnlyWindowPages(s, s', w, k) && pool.liveCount <= live0 + 2 * k
      invariant OnlyWindows(s, s') && WindowMapped(s', w, k)
      invariant forall j: nat :: j < k ==> !WindowClash(s, w, j)
    {
      WorkedFacts(m0, u0, s, pool.mem, pool.used, s', {});
      KeptLeaves(m0, u0, s, pool.mem, pool.used, s');
      ghost var m1, u1, s1, grew := pool.mem, pool.used, s', {};
      WindowAddress(w, k);
      var r;
      r, s', grew := MapPage(space, pool, w.va + k * PAGE_SIZE, w.pa + k * PAGE_SIZE, READ_ONLY, s1);
      assert s1.role.Keys + grew + {} == s1.role.Keys + grew;
      TablesWorked(m1, u1, s1, pool.mem, pool.used, s', grew);
      ghost var none: set<nat> := {};
      WorkedTrans(m0, u0, s, m1, u1, s1, none, pool.mem, pool.used, s', none);
      assert none + none == none;
      if r != Ok {
        if r == Err(Overlap) {
          WindowClashFound(s, s1, w, k);
        }
        return false, s';
      }
      NoWindowClash(s, s1, w, k);
      OnlyWindowMore(s, s1, s', w, k);
      WindowGrows(s1, s', w, k);
    }
    WindowEnd(s, w);
    return true, s';
  }

  lemma WindowAddress(w: Window, k: nat)
    requires WindowOk(w) && k < w.pages
    ensures (w.pa + k * PAGE_SIZE) / PAGE_SIZE == w.pa / PAGE_SIZE + k < PPN_LIMIT && !WindowLeaf(w, k).Owned()
  {
  }

  lemma WindowGrows(s: Space, s': Space, w: Window, k: nat)
    requires WindowOk(w) && k < w.pages && WindowMapped(s, w, k)
    requires PageOf(w.va + k * PAGE_SIZE) !in s.leaves && s'.leaves == s.leaves[PageOf(w.va + k * PAGE_SIZE) := WindowLeaf(w, k)]
    ensures WindowMapped(s', w, k + 1)
  {
    hide PageOf;
    hide WindowLeaf;
    forall j: nat | j < k + 1 ensures WindowPage(s', w, j) {
      if j < k {
        assert WindowPage(s, w, j);
      }
    }
  }

  // ---- the whole space ----------------------------------------------------

  /** All that was allocated for the new space: its own frames, and frames lost. */
  ghost predicate Built(m0: seq<Frame>, u0: set<nat>, m: seq<Frame>, u: set<nat>, s: Space, lost: set<nat>) {
    && |m| == |m0| == POOL_FRAMES
    && (forall f: nat :: f in u0 && f < POOL_FRAMES ==> m[f] == m0[f])
    && u == u0 + s.role.Keys + lost
    && s.role.Keys !! u0 && lost !! u0 && lost !! s.role.Keys
  }

  lemma WorkedBuilt(m0: seq<Frame>, u0: set<nat>, m1: seq<Frame>, s1: Space, m: seq<Frame>, u: set<nat>, s: Space, lost: set<nat>)
    requires |m0| == POOL_FRAMES && s1.role.Keys == {s1.root} && s1.root !in u0
    requires forall f: nat :: f < POOL_FRAMES && f != s1.root ==> |m1| == POOL_FRAMES && m1[f] == m0[f]
    requires Worked(m1, u0 + {s1.root}, s1, m, u, s, lost)
    ensures Built(m0, u0, m, u, s, lost)
  {
    hide Represents;
  }

  lemma SafeAfterLoad(s0: Space, s: Space, s': Space)
    requires s0.leaves == map[] && s0.gigas == map[KERNEL_SLOT := KERNEL_LEAF] && s.gigas == s0.gigas && s'.gigas == s0.gigas
    requires NoWx(s) && PoolLeaves(s0, s) && OnlyWindows(s, s')
    ensures SafeSpace(s')
  {
  }

  lemma NothingElse(img: Image, m: seq<Frame>, s0: Space, s1: Space, s: Space)
    requires HeaderError(img.elf).None? && |m| == POOL_FRAMES
    requires s0.leaves == map[] && OnlySegments(s0, s1, img.elf, HeaderCount(img.elf)) && (img.window.None? ==> s == s1)
    requires img.window.Some? ==> OnlyWindowPages(s1, s, img.window.value, img.window.value.pages)
    ensures forall v :: v in View(m, s) ==> AskedFor(img, v)
  {
    hide HeaderError;
    hide SegmentOwns;
    hide SamePlace;
  }

  /** The loaded segments and the mapped window are what the payload finds. */
  lemma BootsFrom(img: Image, m: seq<Frame>, u: set<nat>, s0: Space, s1: Space, s: Space, entry: nat)
    requires ImageOk(img) && Represents(m, s) && SafeSpace(s) && |m| == POOL_FRAMES && entry < WORD_LIMIT
    requires HeaderError(img.elf).None? && entry == Le(img.elf, 24, 8) && LoadedBelow(m, u, s, img.elf, HeaderCount(img.elf))
    requires s0.leaves == map[] && OnlySegments(s0, s1, img.elf, HeaderCount(img.elf)) && (img.window.None? ==> s == s1)
    requires FilesInside(img.elf)
    requires img.window.Some? ==>
      var w := img.window.value; WindowMapped(s, w, w.pages) && OnlyWindowPages(s1, s, w, w.pages)
    ensures Boots(img, View(m, s), entry)
  {
    hide Represents;
    hide HeaderError;
    hide Le;
    hide IsLoad;
    hide SegmentAt;
    hide HoldsBytes;
    hide PageOf;
    var mem := View(m, s);
    SafeView(m, s);
    hide SafeSpace;
    hide SafeMemory;
    NothingElse(img, m, s0, s1, s);
    hide FilesInside;
    hide AskedFor;
    hide OnlyWindowPages;
    hide OnlySegments;
    forall i: nat, p: nat | i < HeaderCount(img.elf) && IsLoad(img.elf, i)
      ensures SegmentBoots(img, mem, i, p)
    {
      var seg := SegmentAt(img.elf, i);
      if p % PAGE_SIZE == 0 && seg.vaddr < p + PAGE_SIZE && p < seg.vaddr + seg.memsz && seg.perms.Live() {
        assert SegmentPage(m, u, s, img.elf, seg, p);
      }
    }
    if img.window.Some? {
      forall k: nat | k < img.window.value.pages ensures WindowBoots(img.window.value, mem, k) {
        assert WindowPage(s, img.window.value, k);
        WindowAddress(img.window.value, k);
      }
    }
  }

  lemma EntryIsWord(image: seq<Byte>)
    requires HeaderError(image).None?
    ensures |image| >= 64 && Le(image, 24, 8) < WORD_LIMIT
  {
    Pow256Is64Bits();
    assert Le(image, 24, 8) < Pow256(8);
  }

  lemma KernelOnlySafe(s: Space)
    requires KernelOnly(s)
    ensures SafeSpace(s)
  {
  }

  /** What a fresh user space maps: the kernel's gigapage. */
  const BLANK: Space := Space(0, map[], map[], map[], map[KERNEL_SLOT := KERNEL_LEAF], map[])

  lemma LowPage(seg: Segment, p: nat)
    requires PageIn(seg, p) && seg.vaddr + seg.memsz <= 0x8000_0000
    ensures p < 0x8000_0000 && PageOf(p) * PAGE_SIZE == p && PageOf(p) / SLOTS / SLOTS < 2
  {
  }

  /** What it takes for an image to be loaded, in plain terms: load segments below the kernel's
      range that share no page, hold their file bytes, are nowhere writable and executable at
      once, and whose file bytes lie inside the image; and an entry point in one that grants
      access. */
  lemma PlainImageLoads(image: seq<Byte>, e: nat)
    requires HeaderError(image).None? && |image| < WORD_LIMIT
    requires forall i: nat :: i < HeaderCount(image) && IsLoad(image, i) ==>
      var seg := SegmentAt(image, i);
      && seg.filesz <= seg.memsz && !(seg.perms.w && seg.perms.x) && seg.vaddr + seg.memsz <= 0x8000_0000
      && (seg.filesz == 0 || seg.offset + seg.filesz <= |image|)
    requires forall i: nat, j: nat, p: nat :: i < j < HeaderCount(image) && IsLoad(image, i) && IsLoad(image, j) ==>
      !(PageIn(SegmentAt(image, i), p) && PageIn(SegmentAt(image, j), p))
    requires e < HeaderCount(image) && IsLoad(image, e) && SegmentAt(image, e).perms.Live()
    requires var seg := SegmentAt(image, e); seg.vaddr <= Le(image, 24, 8) < seg.vaddr + seg.memsz
    ensures !Unloadable(image, BLANK)
  {
    hide HeaderError;
    hide IsLoad;
    hide SegmentAt;
    hide PageSource;
    hide PageIn;
    hide PageOf;
    hide Le;
    forall i: nat | i < HeaderCount(image) && IsLoad(image, i) ensures SegmentClear(image, BLANK, i) {
      var seg := SegmentAt(image, i);
      forall p: nat | PageIn(seg, p) ensures !PosFault(image, BLANK, i, p) {
        PlainPage(image, i, p);
      }
    }
    EntryInside(image, e);
    NothingWrong(image, BLANK);
  }

  lemma PlainPage(image: seq<Byte>, i: nat, p: nat)
    requires HeaderError(image).None? && |image| < WORD_LIMIT && i < HeaderCount(image) && IsLoad(image, i) && PageIn(SegmentAt(image, i), p)
    requires forall j: nat :: j <= i && IsLoad(image, j) ==> SegmentAt(image, j).vaddr + SegmentAt(image, j).memsz <= 0x8000_0000
    requires var seg := SegmentAt(image, i); seg.filesz == 0 || seg.offset + seg.filesz <= |image|
    requires forall j: nat, q: nat :: j < i && IsLoad(image, j) ==> !(PageIn(SegmentAt(image, j), q) && PageIn(SegmentAt(image, i), q))
    ensures !PosFault(image, BLANK, i, p)
  {
    hide HeaderError;
    hide IsLoad;
    hide SegmentAt;
    hide PageSource;
    hide PageOf;
    hide PageIn;
    var seg := SegmentAt(image, i);
    PageSourceInside(image, seg, p);
    LowPage(seg, p);
    if q: nat :| q < p && PageIn(seg, q) && PageOf(q) == PageOf(p) {
      LowPage(seg, q);
    }
    if j: nat :| j < i && IsLoad(image, j) && PageBelow(SegmentAt(image, j), PageOf(p), SegmentAt(image, j).vaddr + SegmentAt(image, j).memsz) {
      var q: nat :| PageIn(SegmentAt(image, j), q) && PageOf(q) == PageOf(p);
      LowPage(SegmentAt(image, j), q);
    }
  }

  lemma EntryInside(image: seq<Byte>, e: nat)
    requires HeaderError(image).None? && e < HeaderCount(image) && IsLoad(image, e) && SegmentAt(image, e).perms.Live()
    requires var seg := SegmentAt(image, e); seg.vaddr <= Le(image, 24, 8) < seg.vaddr + seg.memsz
    ensures !EntryOutside(image, BLANK)
  {
    hide HeaderError;
    hide IsLoad;
    hide SegmentAt;
    hide Le;
    EntryIsWord(image);
    var a := Le(image, 24, 8);
    var p := a - a % PAGE_SIZE;
    assert p % PAGE_SIZE == 0 && PageOf(p) == PageOf(a);
    hide PageOf;
    assert PageIn(SegmentAt(image, e), p);
  }

  /** The window cannot be mapped beside the segments. */
  ghost predicate BadWindow(img: Image) {
    && img.window.Some? && HeaderError(img.elf).None?
    && exists k: nat :: WindowBlocked(img, k)
  }

  ghost predicate WindowBlocked(img: Image, k: nat)
    requires img.window.Some? && HeaderError(img.elf).None?
  {
    WindowClash(BLANK, img.window.value, k)
    || (k < img.window.value.pages && SegmentOwns(img.elf, HeaderCount(img.elf), PageOf(img.window.value.va + k * PAGE_SIZE)))
  }

  /** The image itself cannot be started, whatever memory there is. */
  ghost predicate BadImage(img: Image) { Unloadable(img.elf, BLANK) || BadWindow(img) }

  /** Frames that suffice for the image's tables and pages, besides the root. */
  function ImageFrames(img: Image): nat {
    (if HeaderError(img.elf).Some? then 0 else 3 * TotalPages(img.elf, HeaderCount(img.elf)))
    + (if img.window.Some? then 2 * img.window.value.pages else 0)
  }

  /** How a load of the image ended, and whether it lost frames. */
  ghost predicate LossAt(img: Image, stop: Stop, lossy: bool, short: bool) {
    if HeaderError(img.elf).Some? then !lossy else StopsAt(img.elf, BLANK, stop, short) && (lossy <==> Lossy(img.elf, stop))
  }

  lemma LossAtShorter(img: Image, stop: Stop, lossy: bool, short: bool, short': bool)
    requires LossAt(img, stop, lossy, short) && (short ==> short')
    ensures LossAt(img, stop, lossy, short')
  {
    hide HeaderError;
    hide ClearTo;
    hide Reached;
    hide PosFault;
    hide Lossy;
    hide IsLoad;
    hide SegmentAt;
    hide HeadFault;
    hide PageSource;
  }

  /** Frames are lost exactly where the load ended lossy; only by an image that loses frames;
      and always by such an image, unless the pool ran short before the last segment. */
  ghost predicate LossIs(img: Image, stop: Stop, lossy: bool, short: bool) {
    && LossAt(img, stop, lossy, short)
    && (lossy ==> Loses(img.elf, BLANK))
    && (Loses(img.elf, BLANK) ==> lossy || (short && !stop.AllSegments?))
  }

  lemma CompletedLoad(image: seq<Byte>, s: Space, stop: Stop, short: bool)
    requires HeaderError(image).None? && StopsAt(image, s, stop, short)
    ensures StopsAt(image, s, stop, short && !stop.AllSegments?)
  {
  }

  lemma LossAtExact(img: Image, stop: Stop, lossy: bool, short: bool)
    requires LossAt(img, stop, lossy, short)
    ensures LossIs(img, stop, lossy, short)
  {
    hide HeaderError;
    hide StopsAt;
    hide Lossy;
    hide Loses;
    if HeaderError(img.elf).Some? {
      NoHeaderNoLoss(img.elf, BLANK);
    } else {
      CompletedLoad(img.elf, BLANK, stop, short);
      LossExact(img.elf, BLANK, stop, short && !stop.AllSegments?);
    }
  }

  lemma LossAtAlike(img: Image, s0: Space, stop: Stop, lossy: bool, short: bool)
    requires KernelOnly(s0) && HeaderError(img.elf).None? && StopsAt(img.elf, s0, stop, short) && (lossy <==> Lossy(img.elf, stop))
    ensures LossAt(img, stop, lossy, short)
  {
    hide HeaderError;
    hide ClearTo;
    hide PosFault;
    hide Lossy;
    hide IsLoad;
    hide SegmentAt;
    hide HeadFault;
    hide PageSource;
    hide EntryOutside;
    hide PageIn;
    FaultsAlike(img.elf, s0, BLANK);
  }

  /** A window that was mapped was not blocked. */
  lemma WindowFits(img: Image, m: seq<Frame>, u: set<nat>, s0: Space, s: Space)
    requires KernelOnly(s0) && s.gigas == s0.gigas && HeaderError(img.elf).None? && LoadedBelow(m, u, s, img.elf, HeaderCount(img.elf))
    requires OnlySegments(s0, s, img.elf, HeaderCount(img.elf))
    requires img.window.Some? ==> forall k: nat :: !WindowClash(s, img.window.value, k)
    ensures !BadWindow(img)
  {
    hide HeaderError;
    hide LoadedBelow;
    hide OnlySegments;
    hide SegmentOwns;
    hide SamePlace;
    hide PageOf;
    if img.window.Some? {
      forall k: nat ensures !WindowBlocked(img, k) {
        assert !WindowClash(s, img.window.value, k);
        SegmentsTake(m, u, s0, s, img.elf, HeaderCount(img.elf), PageOf(img.window.value.va + k * PAGE_SIZE));
      }
    }
  }

  lemma WindowIsFault(img: Image, s0: Space, s: Space, k: nat)
    requires KernelOnly(s0) && s.gigas == s0.gigas && img.window.Some? && HeaderError(img.elf).None?
    requires OnlySegments(s0, s, img.elf, HeaderCount(img.elf)) && WindowClash(s, img.window.value, k)
    ensures BadImage(img)
  {
    hide HeaderError;
    hide SegmentOwns;
    hide SamePlace;
    hide PageOf;
    hide Unloadable;
    var v := PageOf(img.window.value.va + k * PAGE_SIZE);
    assert v in s.leaves ==> SegmentOwns(img.elf, HeaderCount(img.elf), v);
    assert WindowBlocked(img, k);
  }

  lemma LoadIsFault(img: Image, s0: Space)
    requires KernelOnly(s0) && Unloadable(img.elf, s0)
    ensures BadImage(img)
  {
    hide Unloadable;
    hide Loses;
    LosesAlike(img.elf, s0, BLANK);
  }

  /** Load the image and map its window into a fresh space. */
  method Populate(space: AddressSpace, pool: Pool, img: Image, ghost s0: Space)
    returns (entry: Option<Word>, ghost s: Space, ghost lost: set<nat>, ghost stop: Stop)
    requires pool.Valid() && ImageOk(img) && Represents(pool.mem, s0) && s0.role.Keys <= pool.used && space.root == Pa(s0.root)
    requires KernelOnly(s0)
    modifies pool
    ensures pool.Valid() && Worked(old(pool.mem), old(pool.used), s0, pool.mem, pool.used, s, lost)
    ensures TidyImage(img.elf) ==> lost == {}
    ensures entry.Some? ==> SafeSpace(s) && Boots(img, View(pool.mem, s), entry.value)
    ensures entry.Some? ==> !BadImage(img) && stop.AllSegments?
    ensures entry.None? ==> BadImage(img) || pool.liveCount + 1 >= POOL_FRAMES
    ensures LossAt(img, stop, lost != {}, old(pool.liveCount) + ImageFrames(img) + 1 >= POOL_FRAMES)
    ensures pool.liveCount <= old(pool.liveCount) + ImageFrames(img)
  {
    hide Represents;
    hide Pool.Valid;
    hide Worked;
    hide Kept;
    hide LoadedBelow;
    hide WindowMapped;
    hide Boots;
    hide Pa;
    hide HeaderError;
    hide TidyImage;
    hide Unloadable;
    hide BadImage;
    hide OnlySegments;
    hide TotalPages;
    hide WindowClash;
    hide OnlyWindowPages;
    hide LossAt;
    hide StopsAt;
    hide Lossy;
    hide Loses;
    hide BadWindow;
    hide FilesInside;
    ghost var m1, u1 := pool.mem, pool.used;
    var loaded;
    loaded, s, lost, stop := Load(img.elf, space, pool, s0);
    WorkedFacts(m1, u1, s0, pool.mem, pool.used, s, lost);
    PathTables(pool.mem, s, 0);
    LoadLoss(img, s0, stop, lost, pool.liveCount + 1 >= POOL_FRAMES, old(pool.liveCount) + ImageFrames(img) + 1 >= POOL_FRAMES);
    if loaded.Failed? {
      if Unloadable(img.elf, s0) {
        LoadIsFault(img, s0);
      }
      return None, s, lost, stop;
    }
    EntryIsWord(img.elf);
    ghost var s2, m2, u2 := s, pool.mem, pool.used;
    if img.window.Some? {
      var ok;
      ok, s := MapWindow(space, pool, img.window.value, s2);
      WorkedFacts(m2, u2, s2, pool.mem, pool.used, s, {});
      LoadedKept(m2, u2, s2, pool.mem, pool.used, s, img.elf, HeaderCount(img.elf));
      WorkedTrans(m1, u1, s0, m2, u2, s2, lost, pool.mem, pool.used, s, {});
      assert lost + {} == lost;
      if !ok {
        if pool.liveCount != POOL_FRAMES {
          ghost var k: nat :| WindowClash(s2, img.window.value, k);
          WindowIsFault(img, s0, s2, k);
        }
        return None, s, lost, stop;
      }
    }
    SafeAfterLoad(s0, s2, s);
    AllInside(img.elf, s0);
    BootsFrom(img, pool.mem, pool.used, s0, s2, s, loaded.entry);
    WindowFits(img, m2, u2, s0, s2);
    NotAtFault(img, s0);
    return Some(loaded.entry), s, lost, stop;
  }

  lemma NotAtFault(img: Image, s0: Space)
    requires KernelOnly(s0) && !Unloadable(img.elf, s0) && !BadWindow(img)
    ensures !BadImage(img)
  {
    hide Unloadable;
    hide Loses;
    hide BadWindow;
    LosesAlike(img.elf, s0, BLANK);
  }

  lemma LoadLoss(img: Image, s0: Space, stop: Stop, lost: set<nat>, short: bool, short': bool)
    requires KernelOnly(s0) && (short ==> short')
    requires HeaderError(img.elf).Some? ==> lost == {}
    requires HeaderError(img.elf).None? ==> StopsAt(img.elf, s0, stop, short) && (lost == {} <==> !Lossy(img.elf, stop))
    ensures LossAt(img, stop, lost != {}, short')
  {
    hide HeaderError;
    hide StopsAt;
    hide Lossy;
    if HeaderError(img.elf).None? {
      LossAtAlike(img, s0, stop, lost != {}, short);
      LossAtShorter(img, stop, lost != {}, short, short');
    }
  }

  /** The space-building part of `start`: kernel map, ELF, window. On any failure the space
      is torn down again and only lost frames stay allocated. */
  method BuildSpace(pool: Pool, img: Image)
    returns (r: Option<(AddressSpace, Word)>, ghost s: Space, ghost lost: set<nat>, ghost stop: Stop)
    requires pool.Valid() && ImageOk(img)
    modifies pool
    ensures pool.Valid()
    ensures TidyImage(img.elf) ==> lost == {}
    ensures r.Some? ==> Built(old(pool.mem), old(pool.used), pool.mem, pool.used, s, lost)
    ensures r.Some? ==> r.value.0.root == Pa(s.root) && Represents(pool.mem, s) && SafeSpace(s) && Boots(img, View(pool.mem, s), r.value.1)
    ensures r.None? ==>
      && pool.used == old(pool.used) + lost && lost !! old(pool.used)
      && forall f: nat :: f in old(pool.used) && f < POOL_FRAMES ==> pool.mem[f] == old(pool.mem)[f]
    ensures r.Some? ==> !BadImage(img) && stop.AllSegments?
    ensures r.None? ==> BadImage(img) || old(pool.liveCount) + ImageFrames(img) + 2 >= POOL_FRAMES
    ensures LossAt(img, stop, lost != {}, old(pool.liveCount) + ImageFrames(img) + 2 >= POOL_FRAMES)
    ensures r.Some? ==> pool.liveCount <= old(pool.liveCount) + ImageFrames(img) + 1
  {
    hide LossAt;
    hide BadImage;
    hide ImageFrames;
    hide FrameCount;
    hide Represents;
    hide Pool.Valid;
    hide Worked;
    hide SafeSpace;
    hide Boots;
    hide Pa;
    hide TidyImage;
    ghost var m0, u0 := pool.mem, pool.used;
    lost, stop := {}, NotBegun;
    var space;
    space, s := NewUserSpace(pool);
    if space.None? {
      NeverBegun(img);
      return None, s, lost, stop;
    }
    ghost var s0, m1, u1 := s, pool.mem, pool.used;
    var entry;
    entry, s, lost, stop := Populate(space.value, pool, img, s0);
    WorkedFacts(m1, u1, s0, pool.mem, pool.used, s, lost);
    WorkedBuilt(m0, u0, m1, s0, pool.mem, pool.used, s, lost);
    if entry.None? {
      Destroy(space.value, pool, s);
      return None, s, lost, stop;
    }
    return Some((space.value, entry.value)), s, lost, stop;
  }

  lemma NeverBegun(img: Image)
    ensures LossAt(img, NotBegun, false, true)
  {
  }

  /** Everything `start` allocates for a fresh payload: address space and register frame.
      On failure all but lost frames go back. */
  method Prepare(pool: Pool, img: Image)
    returns (r: Option<(AddressSpace, nat)>, ghost s: Space, ghost f: nat, ghost entry: Word, ghost lost: set<nat>, ghost stop: Stop)
    requires pool.Valid() && ImageOk(img)
    modifies pool
    ensures pool.Valid() && lost !! old(pool.used)
    ensures TidyImage(img.elf) ==> lost == {}
    ensures forall g: nat :: g in old(pool.used) && g < POOL_FRAMES ==> pool.mem[g] == old(pool.mem)[g]
    ensures r.None? ==> pool.used == old(pool.used) + lost
    ensures r.Some? ==>
      && r.value.0.root == Pa(s.root) && r.value.1 == Pa(f) && Represents(pool.mem, s) && SafeSpace(s)
      && f < POOL_FRAMES && f !in s.role && f !in old(pool.used) + lost && s.role.Keys !! old(pool.used) + lost
      && pool.used == old(pool.used) + lost + s.role.Keys + {f}
      && Boots(img, View(pool.mem, s), entry) && RegsAt(pool.mem[f]) == FreshRegs(entry)
    ensures r.Some? ==> !BadImage(img) && stop.AllSegments?
    ensures r.None? ==> BadImage(img) || old(pool.liveCount) + ImageFrames(img) + 2 >= POOL_FRAMES
    ensures LossIs(img, stop, lost != {}, old(pool.liveCount) + ImageFrames(img) + 2 >= POOL_FRAMES)
  {
    hide LossAt;
    hide LossIs;
    hide BadImage;
    hide ImageFrames;
    hide FrameCount;
    hide Represents;
    hide Pool.Valid;
    hide SafeSpace;
    hide Boots;
    hide Pa;
    hide TidyImage;
    hide View;
    hide RegsAt;
    f, entry := 0, 0;
    var space;
    space, s, lost, stop := BuildSpace(pool, img);
    LossAtExact(img, stop, lost != {}, old(pool.liveCount) + ImageFrames(img) + 2 >= POOL_FRAMES);
    if space.None? {
      return None, s, f, entry, lost, stop;
    }
    ghost var m1 := pool.mem;
    var pa := pool.Alloc();
    if pa.None? {
      Destroy(space.value.0, pool, s);
      return None, s, f, entry, lost, stop;
    }
    f, entry := FrameAt(pa.value), space.value.1;
    InitFrame(pool, pa.value, space.value.1, f);
    RepresentsFrame(m1, pool.mem, s);
    ViewFrame(m1, pool.mem, s);
    return Some((space.value.0, pa.value)), s, f, entry, lost, stop;
  }
}
