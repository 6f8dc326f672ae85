/** What an ELF image says (kernel/src/elf.rs): headers, segments, the pages and bytes they
    ask for; what can be wrong with it; and when loading it loses frames. Image fields are
    adversarial; sums the source does not check wrap at 64 bits, as in the release build. */
module ElfImage {
  import opened Words
  import opened Pte
  import opened FramePool
  import opened Space
  import opened PageTables

  datatype ElfError = TooShort | BadMagic | NotElf64Rv | BadProgramHeaders | WxViolation | OutOfMemory | MapFailed | EntryUnmapped

  // ---- what an image says -------------------------------------------------

  /** Little-endian value of `n` bytes at `off`. */
  function Le(image: seq<Byte>, off: nat, n: nat): (x: nat)
    requires off + n <= |image|
    ensures x < Pow256(n)
    decreases n
  {
    if n == 0 then 0 else image[off] + 256 * Le(image, off + 1, n - 1)
  }

  /** The fields of an image are little-endian. */
  lemma LeIs(image: seq<Byte>, off: nat)
    ensures off + 2 <= |image| ==> Le(image, off, 2) == image[off] as int + 0x100 * image[off + 1] as int
    ensures off + 4 <= |image| ==>
      Le(image, off, 4) ==
        image[off] as int + 0x100 * image[off + 1] as int + 0x1_0000 * image[off + 2] as int + 0x100_0000 * image[off + 3] as int
    ensures off + 8 <= |image| ==>
      Le(image, off, 8) == Le(image, off, 4)
        + 0x1_0000_0000 * image[off + 4] as int + 0x100_0000_0000 * image[off + 5] as int
        + 0x1_0000_0000_0000 * image[off + 6] as int + 0x100_0000_0000_0000 * image[off + 7] as int
  {
    if off + 2 <= |image| {
      LeTwo(image, off, 2);
    }
    if off + 4 <= |image| {
      LeTwo(image, off, 4);
      LeTwo(image, off + 2, 2);
    }
    if off + 8 <= |image| {
      LeTwo(image, off, 8);
      LeTwo(image, off + 2, 6);
      LeTwo(image, off + 4, 4);
      LeTwo(image, off + 6, 2);
    }
  }

  lemma LeTwo(image: seq<Byte>, off: nat, n: nat)
    requires off + n <= |image| && n >= 2
    ensures Le(image, off, n) == image[off] as int + 0x100 * image[off + 1] as int + 0x1_0000 * Le(image, off + 2, n - 2)
    ensures Le(image, off + n, 0) == 0
  {
  }

  datatype Segment = Segment(perms: Perms, offset: nat, vaddr: nat, filesz: nat, memsz: nat)

  /** The checks made before any program header is looked at. */
  function HeaderError(image: seq<Byte>): Option<ElfError> {
    if |image| < 64 then Some(TooShort)
    else if image[0..4] != [0x7f, 0x45, 0x4c, 0x46] then Some(BadMagic)
    else if image[4] != 2 || image[5] != 1 || Le(image, 18, 2) != 243 then Some(NotElf64Rv)
    else if Le(image, 54, 2) < 56 then Some(BadProgramHeaders)
    else if Le(image, 32, 8) + Le(image, 56, 2) * Le(image, 54, 2) > |image| then Some(BadProgramHeaders)
    else None
  }

  /** Which images get past the header, byte by byte, and what is said of the others. */
  lemma HeaderExact(image: seq<Byte>)
    ensures HeaderError(image) == Some(TooShort) <==> |image| < 64
    ensures HeaderError(image) == Some(BadMagic) <==>
      |image| >= 64 && !(image[0] == 0x7f && image[1] == 0x45 && image[2] == 0x4c && image[3] == 0x46)
    ensures HeaderError(image) == Some(NotElf64Rv) <==>
      && |image| >= 64 && image[0] == 0x7f && image[1] == 0x45 && image[2] == 0x4c && image[3] == 0x46
      && !(image[4] == 2 && image[5] == 1 && image[18] == 243 && image[19] == 0)
    ensures HeaderError(image).None? <==>
      && |image| >= 64 && image[0] == 0x7f && image[1] == 0x45 && image[2] == 0x4c && image[3] == 0x46
      && image[4] == 2 && image[5] == 1 && image[18] == 243 && image[19] == 0
      && var size, count := image[54] as int + 0x100 * image[55] as int, image[56] as int + 0x100 * image[57] as int;
         size >= 56 && Le(image, 32, 8) + count * size <= |image|
    ensures HeaderError(image).Some? ==> HeaderError(image).value in {TooShort, BadMagic, NotElf64Rv, BadProgramHeaders}
  {
    hide Le;
    LeIs(image, 18);
    LeIs(image, 54);
    LeIs(image, 56);
    if |image| >= 64 {
      assert image[0..4] == [image[0], image[1], image[2], image[3]];
    }
  }

  function HeaderCount(image: seq<Byte>): nat
    requires HeaderError(image).None?
  {
    Le(image, 56, 2)
  }

  /** Offset of program header `i`. The header check leaves room for all its fields, so no
      field read can fail. */
  function HeaderAt(image: seq<Byte>, i: nat): (ph: nat)
    requires HeaderError(image).None? && i < HeaderCount(image)
    ensures ph + 56 <= |image|
  {
    HeaderRoom(image, i);
    Le(image, 32, 8) + i * Le(image, 54, 2)
  }

  lemma HeaderRoom(image: seq<Byte>, i: nat)
    requires HeaderError(image).None? && i < HeaderCount(image)
    ensures |image| >= 64 && Le(image, 32, 8) + i * Le(image, 54, 2) + 56 <= |image|
  {
    hide Le;
    RowsFit(i, Le(image, 56, 2), Le(image, 54, 2));
  }

  lemma RowsFit(i: nat, n: nat, size: nat)
    requires i < n
    ensures i * size + size <= n * size
  {
    var k := n - i - 1;
    assert n * size == (i + 1 + k) * size == (i + 1) * size + k * size;
  }

  predicate IsLoad(image: seq<Byte>, i: nat)
    requires HeaderError(image).None? && i < HeaderCount(image)
  {
    Le(image, HeaderAt(image, i), 4) == 1
  }

  /** Program header `i` as a segment; loaded pages are always user pages. */
  function SegmentAt(image: seq<Byte>, i: nat): (seg: Segment)
    requires HeaderError(image).None? && i < HeaderCount(image)
    ensures seg.perms.u && !seg.perms.g
  {
    var ph := HeaderAt(image, i);
    var flags := Le(image, ph + 4, 4);
    Segment(Perms(Bit(flags, 2), Bit(flags, 1), Bit(flags, 0), true, false),
            Le(image, ph + 8, 8), Le(image, ph + 16, 8), Le(image, ph + 32, 8), Le(image, ph + 40, 8))
  }

  /** The fields of a program header, read from its bytes: it is a load header exactly when
      its type is 1, and R, W and X are bits 2, 1 and 0 of its flags. */
  lemma HeaderFields(image: seq<Byte>, i: nat)
    requires HeaderError(image).None? && i < HeaderCount(image)
    ensures HeaderCount(image) == image[56] as int + 0x100 * image[57] as int
    ensures var ph := Le(image, 32, 8) + i * (image[54] as int + 0x100 * image[55] as int);
      && ph == HeaderAt(image, i)
      && (IsLoad(image, i) <==> image[ph] == 1 && image[ph + 1] == 0 && image[ph + 2] == 0 && image[ph + 3] == 0)
      && var seg := SegmentAt(image, i);
      && (seg.perms.r <==> image[ph + 4] / 4 % 2 == 1) && (seg.perms.w <==> image[ph + 4] / 2 % 2 == 1)
      && (seg.perms.x <==> image[ph + 4] % 2 == 1)
      && seg.offset == Le(image, ph + 8, 8) && seg.vaddr == Le(image, ph + 16, 8)
      && seg.filesz == Le(image, ph + 32, 8) && seg.memsz == Le(image, ph + 40, 8)
  {
    hide Le;
    LeIs(image, 54);
    LeIs(image, 56);
    var ph := HeaderAt(image, i);
    LeIs(image, ph);
    LeIs(image, ph + 4);
    var high := image[ph + 5] as int + 0x100 * image[ph + 6] as int + 0x1_0000 * image[ph + 7] as int;
    ThreeFlags(Le(image, ph + 4, 4), image[ph + 4], high);
  }

  lemma ThreeFlags(flags: nat, b: Byte, high: nat)
    requires flags == b as int + 0x100 * high
    ensures Bit(flags, 2) <==> b / 4 % 2 == 1
    ensures Bit(flags, 1) <==> b / 2 % 2 == 1
    ensures Bit(flags, 0) <==> b % 2 == 1
  {
    var b1 := b / 2;
    var b2 := b1 / 2;
    DivMod(2, b1 + 0x80 * high, b % 2);
    DivMod(2, b2 + 0x40 * high, b1 % 2);
    DivMod(2, b2 / 2 + 0x20 * high, b2 % 2);
    DivMod(4, b2, 2 * (b1 % 2) + b % 2);
    BitsDown(flags, b1 + 0x80 * high, b2 + 0x40 * high);
  }

  lemma BitsDown(w: nat, half: nat, quarter: nat)
    requires half == w / 2 && quarter == half / 2
    ensures (Bit(w, 0) <==> w % 2 == 1) && (Bit(w, 1) <==> half % 2 == 1) && (Bit(w, 2) <==> quarter % 2 == 1)
  {
    assert Bit(w, 1) == Bit(half, 0) && Bit(w, 2) == Bit(half, 1) == Bit(quarter, 0);
  }

  /** The byte a segment puts at address `a`: file bytes below `filesz`, zero elsewhere in
      its pages. */
  function SegmentByte(image: seq<Byte>, seg: Segment, a: nat): Byte {
    var off := WrapAdd(seg.offset, if a < seg.vaddr then 0 else a - seg.vaddr);
    if seg.vaddr <= a < seg.vaddr + seg.filesz && off < |image| then image[off] else 0
  }

  // ---- the bytes of a page ------------------------------------------------

  /** The file bytes that fall in the page at `page`, read from the image. */
  function PageSource(image: seq<Byte>, seg: Segment, page: nat): (r: Option<seq<Byte>>) {
    var copyStart := if page < seg.vaddr then seg.vaddr else page;
    var copyEnd := if page + PAGE_SIZE < seg.vaddr + seg.filesz then page + PAGE_SIZE else seg.vaddr + seg.filesz;
    if copyStart >= copyEnd then Some([]) else
    var from := WrapAdd(seg.offset, copyStart - seg.vaddr);
    var to := WrapAdd(from, copyEnd - copyStart);
    if from <= to <= |image| then Some(image[from..to]) else None
  }

  /** File bytes inside the image are never refused. */
  lemma PageSourceInside(image: seq<Byte>, seg: Segment, page: nat)
    requires seg.offset + seg.filesz <= |image| < WORD_LIMIT || seg.filesz == 0
    ensures PageSource(image, seg, page).Some?
  {
    hide WrapAdd;
  }

  /** A page source that is accepted supplies exactly the segment's bytes. */
  lemma PageSourceBytes(image: seq<Byte>, seg: Segment, page: nat)
    requires seg.vaddr < page + PAGE_SIZE && page + PAGE_SIZE < WORD_LIMIT && PageSource(image, seg, page).Some?
    requires seg.vaddr + seg.filesz < WORD_LIMIT
    ensures var r := PageSource(image, seg, page).value; var start := if page < seg.vaddr then seg.vaddr else page;
      && start - page + |r| <= PAGE_SIZE
      && (forall a: nat :: page <= a < page + PAGE_SIZE ==>
            SegmentByte(image, seg, a) == if start <= a < start + |r| then r[a - start] else 0)
  {
    hide WrapAdd;
    var start := if page < seg.vaddr then seg.vaddr else page;
    var end := if page + PAGE_SIZE < seg.vaddr + seg.filesz then page + PAGE_SIZE else seg.vaddr + seg.filesz;
    if start < end {
      forall a: nat | page <= a < page + PAGE_SIZE
        ensures SegmentByte(image, seg, a)
             == var r := PageSource(image, seg, page).value; if start <= a < start + |r| then r[a - start] else 0
      {
        SourceOffset(seg, start, end, a);
      }
    }
  }

  lemma SourceOffset(seg: Segment, start: nat, end: nat, a: nat)
    requires seg.vaddr <= start < end < WORD_LIMIT
    requires var from := WrapAdd(seg.offset, start - seg.vaddr); from <= WrapAdd(from, end - start)
    ensures var from := WrapAdd(seg.offset, start - seg.vaddr);
      && WrapAdd(from, end - start) == from + (end - start)
      && (start <= a < end ==> WrapAdd(seg.offset, a - seg.vaddr) == from + (a - start))
  {
  }

  /** The file ranges of all load segments lie inside the image. */
  ghost predicate FilesInside(image: seq<Byte>)
    requires HeaderError(image).None?
  {
    forall i: nat :: i < HeaderCount(image) && IsLoad(image, i) ==>
      var seg := SegmentAt(image, i); seg.filesz <= seg.memsz && (seg.filesz == 0 || seg.offset + seg.filesz <= |image|)
  }

  /** With the file range inside the image, a segment's bytes are the image's from `offset`
      on, and then zeros. */
  lemma SegmentByteIs(image: seq<Byte>, seg: Segment, a: nat)
    requires seg.vaddr <= a && |image| < WORD_LIMIT && (seg.filesz == 0 || seg.offset + seg.filesz <= |image|)
    ensures a < seg.vaddr + seg.filesz ==>
      seg.offset + (a - seg.vaddr) < |image| && SegmentByte(image, seg, a) == image[seg.offset + (a - seg.vaddr)]
    ensures seg.vaddr + seg.filesz <= a ==> SegmentByte(image, seg, a) == 0
  {
    hide WrapAdd;
  }

  /** The unchecked sums let nothing through: every page's file bytes are accepted exactly
      when the segment's whole file range lies inside the image. */
  lemma RangeExact(image: seq<Byte>, seg: Segment)
    requires seg.filesz <= seg.memsz && seg.vaddr + seg.memsz < WORD_LIMIT && |image| < WORD_LIMIT && seg.offset < WORD_LIMIT
    ensures (forall p: nat :: PageIn(seg, p) ==> PageSource(image, seg, p).Some?) <==> seg.filesz == 0 || seg.offset + seg.filesz <= |image|
  {
    if seg.filesz == 0 || seg.offset + seg.filesz <= |image| {
      forall p: nat ensures PageSource(image, seg, p).Some? {
        PageSourceInside(image, seg, p);
      }
    }
    if seg.filesz > 0 && forall p: nat :: PageIn(seg, p) ==> PageSource(image, seg, p).Some? {
      var last := seg.vaddr + seg.filesz - 1;
      var p := last - last % PAGE_SIZE;
      assert p % PAGE_SIZE == 0 && p <= last < p + PAGE_SIZE;
      RangeUpTo(image, seg, p);
    }
  }

  lemma {:induction false} RangeUpTo(image: seq<Byte>, seg: Segment, p: nat)
    requires seg.filesz <= seg.memsz && seg.vaddr + seg.memsz < WORD_LIMIT && |image| < WORD_LIMIT && seg.offset < WORD_LIMIT
    requires forall q: nat :: PageIn(seg, q) ==> PageSource(image, seg, q).Some?
    requires PageIn(seg, p) && p < seg.vaddr + seg.filesz && seg.filesz > 0
    ensures seg.offset + (if p + PAGE_SIZE < seg.vaddr + seg.filesz then p + PAGE_SIZE - seg.vaddr else seg.filesz) <= |image|
    decreases p
  {
    hide WrapAdd;
    assert PageSource(image, seg, p).Some?;
    if p > seg.vaddr {
      RangeUpTo(image, seg, p - PAGE_SIZE);
    }
    var start := if p < seg.vaddr then seg.vaddr else p;
    var end := if p + PAGE_SIZE < seg.vaddr + seg.filesz then p + PAGE_SIZE else seg.vaddr + seg.filesz;
    NoWrap(seg.offset + (start - seg.vaddr), end - start);
  }

  lemma NoWrap(a: nat, b: nat)
    requires a < WORD_LIMIT && 0 < b < WORD_LIMIT
    ensures a <= WrapAdd(a, b) ==> WrapAdd(a, b) == a + b
  {
  }

  // ---- pages --------------------------------------------------------------

  /** The page at `p` overlaps the segment's memory. */
  predicate PageIn(seg: Segment, p: nat) {
    p % PAGE_SIZE == 0 && seg.vaddr < p + PAGE_SIZE && p < seg.vaddr + seg.memsz
  }

  function PageCount(seg: Segment): nat { (seg.vaddr % PAGE_SIZE + seg.memsz + PAGE_SIZE - 1) / PAGE_SIZE }

  /** Page `v` is one of the segment's pages below `limit`. */
  ghost predicate PageBelow(seg: Segment, v: nat, limit: nat) {
    exists p: nat :: p < limit && PageIn(seg, p) && PageOf(p) == v
  }

  lemma PagesLeft(seg: Segment, k: nat)
    requires seg.vaddr - seg.vaddr % PAGE_SIZE + k * PAGE_SIZE < seg.vaddr + seg.memsz
    ensures k < PageCount(seg)
  {
  }

  /** Page `v` belongs to a load segment among the first `n` headers. */
  ghost predicate SegmentOwns(image: seq<Byte>, n: nat, v: nat)
    requires HeaderError(image).None? && n <= HeaderCount(image)
  {
    exists i: nat :: i < n && IsLoad(image, i) && PageBelow(SegmentAt(image, i), v, SegmentAt(image, i).vaddr + SegmentAt(image, i).memsz)
  }

  /** Pages of the load segments among the first `n` headers. */
  function TotalPages(image: seq<Byte>, n: nat): nat
    requires HeaderError(image).None? && n <= HeaderCount(image)
  {
    if n == 0 then 0 else TotalPages(image, n - 1) + if IsLoad(image, n - 1) then PageCount(SegmentAt(image, n - 1)) else 0
  }

  lemma {:induction false} PagesGrow(image: seq<Byte>, i: nat, n: nat)
    requires HeaderError(image).None? && i <= n <= HeaderCount(image)
    ensures TotalPages(image, i) <= TotalPages(image, n)
    decreases n
  {
    hide HeaderError;
    hide IsLoad;
    hide SegmentAt;
    hide PageCount;
    if i < n {
      PagesGrow(image, i, n - 1);
    }
  }

  lemma PagesLater(image: seq<Byte>, i: nat)
    requires HeaderError(image).None? && i < HeaderCount(image) && IsLoad(image, i)
    ensures TotalPages(image, i + 1) == TotalPages(image, i) + PageCount(SegmentAt(image, i))
  {
    hide HeaderError;
    hide SegmentAt;
    hide PageCount;
  }

  /** The page cannot be mapped: it is mapped already, or under a gigapage. */
  predicate Taken(s: Space, v: nat) { v / SLOTS / SLOTS in s.gigas || v in s.leaves }

  // ---- what can be wrong --------------------------------------------------

  /** Refused before any page is looked at. */
  predicate HeadFault(seg: Segment) {
    seg.memsz < seg.filesz || (seg.perms.w && seg.perms.x) || seg.vaddr + seg.memsz >= WORD_LIMIT
  }

  /** Page `p` of the segment cannot be put into `s`: it reaches the end of the address
      space, its file bytes leave the image, its place is taken, or an earlier page of the
      same segment has it. */
  ghost predicate PageFault(image: seq<Byte>, seg: Segment, s: Space, p: nat) {
    || p + PAGE_SIZE >= WORD_LIMIT
    || PageSource(image, seg, p).None?
    || Taken(s, PageOf(p))
    || PageBelow(seg, PageOf(p), p)
  }

  /** The pages of the segment below `limit` are faultless. */
  ghost predicate ClearBelow(image: seq<Byte>, seg: Segment, s: Space, limit: nat) {
    forall p: nat :: PageIn(seg, p) && p < limit ==> !PageFault(image, seg, s, p)
  }

  /** The same for page `p` of segment `i`, where earlier segments take places too. */
  ghost predicate PosFault(image: seq<Byte>, s: Space, i: nat, p: nat)
    requires HeaderError(image).None? && i < HeaderCount(image)
  {
    PageFault(image, SegmentAt(image, i), s, p) || SegmentOwns(image, i, PageOf(p))
  }

  ghost predicate SegmentClear(image: seq<Byte>, s: Space, i: nat)
    requires HeaderError(image).None? && i < HeaderCount(image)
  {
    !HeadFault(SegmentAt(image, i)) && forall p: nat :: PageIn(SegmentAt(image, i), p) ==> !PosFault(image, s, i, p)
  }

  ghost predicate ClearTo(image: seq<Byte>, s: Space, n: nat)
    requires HeaderError(image).None? && n <= HeaderCount(image)
  {
    forall i: nat :: i < n && IsLoad(image, i) ==> SegmentClear(image, s, i)
  }

  /** No live page holds the entry point, and no gigapage does. */
  ghost predicate EntryOutside(image: seq<Byte>, s: Space)
    requires HeaderError(image).None?
  {
    var v := PageOf(Le(image, 24, 8));
    && v / SLOTS / SLOTS !in s.gigas && (v in s.leaves ==> !s.leaves[v].perms.Live())
    && forall i: nat :: i < HeaderCount(image) && IsLoad(image, i) && SegmentAt(image, i).perms.Live() ==>
         !PageBelow(SegmentAt(image, i), v, SegmentAt(image, i).vaddr + SegmentAt(image, i).memsz)
  }

  /** The image cannot be loaded into `s`, whatever memory there is. */
  ghost predicate Unloadable(image: seq<Byte>, s: Space) {
    HeaderError(image).Some? || !ClearTo(image, s, HeaderCount(image)) || EntryOutside(image, s)
  }

  lemma NothingWrong(image: seq<Byte>, s: Space)
    requires HeaderError(image).None? && ClearTo(image, s, HeaderCount(image)) && !EntryOutside(image, s)
    ensures !Unloadable(image, s)
  {
  }

  lemma EntryWrong(image: seq<Byte>, s: Space)
    requires HeaderError(image).None? && EntryOutside(image, s)
    ensures Unloadable(image, s)
  {
  }

  /** Only what is mapped to begin with matters. */
  lemma FaultsAlike(image: seq<Byte>, s: Space, s': Space)
    requires s'.gigas == s.gigas && s'.leaves == s.leaves && HeaderError(image).None?
    ensures forall i: nat, p: nat :: i < HeaderCount(image) ==> (PosFault(image, s, i, p) <==> PosFault(image, s', i, p))
    ensures forall n: nat :: n <= HeaderCount(image) ==> (ClearTo(image, s, n) <==> ClearTo(image, s', n))
    ensures EntryOutside(image, s) <==> EntryOutside(image, s')
  {
    hide HeaderError;
    hide IsLoad;
    hide SegmentAt;
    hide PageBelow;
    hide SegmentOwns;
    hide PageSource;
    hide PageIn;
    hide PageOf;
    forall i: nat, p: nat | i < HeaderCount(image) ensures PosFault(image, s, i, p) <==> PosFault(image, s', i, p) {
    }
    forall i: nat | i < HeaderCount(image) ensures SegmentClear(image, s, i) <==> SegmentClear(image, s', i) {
      hide PosFault;
    }
    hide SegmentClear;
  }

  // ---- losing frames ------------------------------------------------------

  /** A segment that covers no page at all. */
  predicate NoPages(seg: Segment) { seg.memsz == 0 && seg.vaddr % PAGE_SIZE == 0 }

  /** A segment on which the loader cannot lose a frame: its file bytes lie inside the
      image, and its pages, if any, are live leaves. */
  predicate Tidy(image: seq<Byte>, seg: Segment) {
    && (seg.filesz == 0 || seg.offset + seg.filesz <= |image|)
    && (NoPages(seg) || seg.perms.Live())
  }

  /** No load segment among the first `n` headers can cost a frame. */
  predicate TidyBelow(image: seq<Byte>, n: nat)
    requires HeaderError(image).None? && n <= HeaderCount(image)
  {
    forall i: nat :: i < n && IsLoad(image, i) ==> Tidy(image, SegmentAt(image, i))
  }

  predicate TidyImage(image: seq<Byte>) {
    HeaderError(image).None? ==> TidyBelow(image, HeaderCount(image))
  }

  /** Every load segment has live pages, or none. */
  predicate AllLive(image: seq<Byte>, n: nat)
    requires HeaderError(image).None? && n <= HeaderCount(image)
  {
    forall i: nat :: i < n && IsLoad(image, i) ==> NoPages(SegmentAt(image, i)) || SegmentAt(image, i).perms.Live()
  }

  function FirstPage(seg: Segment): nat { seg.vaddr - seg.vaddr % PAGE_SIZE }

  /** Where a load ends: before it began, for lack of a root; after all segments; at a
      segment's header; or at page `at` of segment `i`, `refused` when a frame was taken for
      the page and its file bytes were refused. */
  datatype Stop = NotBegun | AllSegments | AtHeader(i: nat) | AtPage(i: nat, at: nat, refused: bool)

  /** The load may end there: everything before is faultless, and what is there is not, unless
      the pool ran `short`. */
  ghost predicate StopsAt(image: seq<Byte>, s: Space, stop: Stop, short: bool)
    requires HeaderError(image).None?
  {
    match stop
    case NotBegun => short
    case AllSegments => ClearTo(image, s, HeaderCount(image))
    case AtHeader(i) => i < HeaderCount(image) && IsLoad(image, i) && ClearTo(image, s, i) && HeadFault(SegmentAt(image, i))
    case AtPage(i, at, refused) =>
      && i < HeaderCount(image) && IsLoad(image, i) && Reached(image, s, i, at)
      && (refused ==> at + PAGE_SIZE < WORD_LIMIT && PageSource(image, SegmentAt(image, i), at).None?)
      && (short || (PosFault(image, s, i, at) && (at + PAGE_SIZE < WORD_LIMIT && PageSource(image, SegmentAt(image, i), at).None? ==> refused)))
  }

  /** A load that ends there has lost frames: a dead page was mapped, or a frame was taken for
      file bytes that are not there. */
  predicate Lossy(image: seq<Byte>, stop: Stop)
    requires HeaderError(image).None?
  {
    match stop
    case NotBegun => false
    case AllSegments => !AllLive(image, HeaderCount(image))
    case AtHeader(i) => i <= HeaderCount(image) && !AllLive(image, i)
    case AtPage(i, at, refused) =>
      i < HeaderCount(image) && (!AllLive(image, i) || (!SegmentAt(image, i).perms.Live() && at != FirstPage(SegmentAt(image, i))) || refused)
  }

  /** Which error a load that ends there reports. */
  predicate ErrorAt(image: seq<Byte>, stop: Stop, e: ElfError)
    requires HeaderError(image).None?
  {
    match stop
    case NotBegun => false
    case AllSegments => e == EntryUnmapped
    case AtHeader(i) =>
      && i < HeaderCount(image)
      && var seg := SegmentAt(image, i);
         e == if seg.filesz <= seg.memsz && seg.perms.w && seg.perms.x then WxViolation else BadProgramHeaders
    case AtPage(i, at, refused) =>
      e in {OutOfMemory, MapFailed, BadProgramHeaders} && (e == BadProgramHeaders <==> refused || at + PAGE_SIZE >= WORD_LIMIT)
  }

  /** Nothing stops the load before page `p` of segment `i`. */
  ghost predicate Reached(image: seq<Byte>, s: Space, i: nat, p: nat)
    requires HeaderError(image).None? && i < HeaderCount(image)
  {
    && ClearTo(image, s, i) && !HeadFault(SegmentAt(image, i)) && PageIn(SegmentAt(image, i), p)
    && forall q: nat :: PageIn(SegmentAt(image, i), q) && q < p ==> !PosFault(image, s, i, q)
  }

  /** Page `p` of segment `i` costs a frame: its file bytes are not there, or it is mapped
      dead. */
  ghost predicate LosesAt(image: seq<Byte>, s: Space, i: nat, p: nat)
    requires HeaderError(image).None? && i < HeaderCount(image)
  {
    && IsLoad(image, i) && Reached(image, s, i, p) && p + PAGE_SIZE < WORD_LIMIT
    && (PageSource(image, SegmentAt(image, i), p).None? || (!SegmentAt(image, i).perms.Live() && !PosFault(image, s, i, p)))
  }

  /** Loading the image into `s` loses frames, memory permitting. */
  ghost predicate Loses(image: seq<Byte>, s: Space) {
    HeaderError(image).None? && exists i: nat, p: nat :: i < HeaderCount(image) && LosesAt(image, s, i, p)
  }

  lemma LosesAlike(image: seq<Byte>, s: Space, s': Space)
    requires s'.gigas == s.gigas && s'.leaves == s.leaves
    ensures Loses(image, s) <==> Loses(image, s')
    ensures Unloadable(image, s) <==> Unloadable(image, s')
  {
    hide HeaderError;
    hide IsLoad;
    hide SegmentAt;
    hide PageSource;
    hide PageIn;
    hide HeadFault;
    hide PosFault;
    hide ClearTo;
    hide EntryOutside;
    if HeaderError(image).None? {
      FaultsAlike(image, s, s');
      forall i: nat, p: nat | i < HeaderCount(image) ensures LosesAt(image, s, i, p) <==> LosesAt(image, s', i, p) {
      }
    }
  }

  lemma NoHeaderNoLoss(image: seq<Byte>, s: Space)
    requires HeaderError(image).Some?
    ensures !Loses(image, s) && Unloadable(image, s)
  {
  }

  lemma ClearToNone(image: seq<Byte>, s: Space)
    requires HeaderError(image).None?
    ensures ClearTo(image, s, 0)
  {
  }

  lemma ClearSkip(image: seq<Byte>, s: Space, i: nat)
    requires HeaderError(image).None? && i < HeaderCount(image) && !IsLoad(image, i) && ClearTo(image, s, i)
    ensures ClearTo(image, s, i + 1)
  {
    hide HeaderError;
    hide SegmentClear;
    hide IsLoad;
  }

  /** A load that ends early, with memory to spare, ends because of the image. */
  lemma StopRefuses(image: seq<Byte>, s: Space, stop: Stop, short: bool)
    requires HeaderError(image).None? && StopsAt(image, s, stop, short) && !stop.AllSegments?
    ensures Unloadable(image, s) || short
  {
    hide HeaderError;
    hide HeadFault;
    hide PosFault;
    hide PageSource;
    hide IsLoad;
    hide SegmentAt;
    if !short {
      assert !SegmentClear(image, s, stop.i);
    }
  }

  lemma FirstPageIn(seg: Segment)
    requires !NoPages(seg)
    ensures PageIn(seg, FirstPage(seg)) && forall q: nat :: PageIn(seg, q) ==> FirstPage(seg) <= q
  {
    forall q: nat | PageIn(seg, q) ensures FirstPage(seg) <= q {
      assert seg.vaddr / PAGE_SIZE <= q / PAGE_SIZE;
    }
  }

  /** A dead segment that was got through, or into, cost its first page. */
  lemma DeadLoses(image: seq<Byte>, s: Space, i: nat)
    requires HeaderError(image).None? && i < HeaderCount(image) && IsLoad(image, i) && ClearTo(image, s, i)
    requires !SegmentAt(image, i).perms.Live() && !NoPages(SegmentAt(image, i)) && !HeadFault(SegmentAt(image, i))
    requires !PosFault(image, s, i, FirstPage(SegmentAt(image, i)))
    ensures Loses(image, s)
  {
    hide HeaderError;
    hide HeadFault;
    hide IsLoad;
    hide SegmentAt;
    hide ClearTo;
    hide PageSource;
    var seg := SegmentAt(image, i);
    FirstPageIn(seg);
    hide PageIn;
    hide FirstPage;
    hide NoPages;
    assert LosesAt(image, s, i, FirstPage(seg));
  }

  /** If some segment below `n` is dead, the load lost a frame getting there. */
  lemma DeadBelow(image: seq<Byte>, s: Space, n: nat)
    requires HeaderError(image).None? && n <= HeaderCount(image) && ClearTo(image, s, n) && !AllLive(image, n)
    ensures Loses(image, s)
  {
    hide HeaderError;
    hide IsLoad;
    hide SegmentAt;
    hide PosFault;
    hide HeadFault;
    hide Loses;
    var i: nat :| i < n && IsLoad(image, i) && !NoPages(SegmentAt(image, i)) && !SegmentAt(image, i).perms.Live();
    assert SegmentClear(image, s, i);
    FirstPageIn(SegmentAt(image, i));
    hide SegmentClear;
    DeadLoses(image, s, i);
  }

  lemma LossSound(image: seq<Byte>, s: Space, stop: Stop, short: bool)
    requires HeaderError(image).None? && StopsAt(image, s, stop, short) && Lossy(image, stop)
    ensures Loses(image, s)
  {
    hide HeaderError;
    hide IsLoad;
    hide SegmentAt;
    hide PosFault;
    hide HeadFault;
    hide AllLive;
    hide PageSource;
    hide ClearTo;
    match stop
    case AllSegments => DeadBelow(image, s, HeaderCount(image));
    case AtHeader(i) => DeadBelow(image, s, i);
    case AtPage(i, at, refused) =>
      if !AllLive(image, i) {
        DeadBelow(image, s, i);
      } else if refused {
        assert LosesAt(image, s, i, at);
      } else {
        var seg := SegmentAt(image, i);
        HasPage(seg, at);
        FirstPageIn(seg);
        DeadLoses(image, s, i);
      }
  }

  lemma HasPage(seg: Segment, p: nat)
    requires PageIn(seg, p)
    ensures !NoPages(seg)
  {
  }

  lemma StopBlocks(image: seq<Byte>, s: Space, stop: Stop, j: nat)
    requires HeaderError(image).None? && StopsAt(image, s, stop, false) && !stop.AllSegments? && stop.i < j <= HeaderCount(image)
    ensures !ClearTo(image, s, j)
  {
    hide HeaderError;
    hide IsLoad;
    hide SegmentAt;
    hide HeadFault;
    hide PageSource;
    hide PosFault;
    assert !SegmentClear(image, s, stop.i);
    hide SegmentClear;
  }

  lemma NotBeyond(image: seq<Byte>, s: Space, stop: Stop, j: nat, p: nat)
    requires HeaderError(image).None? && StopsAt(image, s, stop, false) && j < HeaderCount(image) && LosesAt(image, s, j, p)
    ensures stop.AllSegments? || j <= stop.i
  {
    hide HeaderError;
    hide ClearTo;
    hide IsLoad;
    hide SegmentAt;
    hide PosFault;
    hide HeadFault;
    if !stop.AllSegments? && stop.i < j {
      StopBlocks(image, s, stop, j);
    }
  }

  /** Where a frame is lost, a load that ends without running short loses one. */
  lemma LossComplete(image: seq<Byte>, s: Space, stop: Stop, j: nat, p: nat)
    requires HeaderError(image).None? && StopsAt(image, s, stop, false)
    requires j < HeaderCount(image) && LosesAt(image, s, j, p)
    ensures Lossy(image, stop)
  {
    hide HeaderError;
    hide IsLoad;
    hide SegmentAt;
    hide HeadFault;
    hide PageSource;
    var seg := SegmentAt(image, j);
    HasPage(seg, p);
    FirstPageIn(seg);
    var n := if stop.AllSegments? then HeaderCount(image) else stop.i;
    if PageSource(image, seg, p).None? {
      SourceFault(image, s, j, p);
    }
    NotBeyond(image, s, stop, j, p);
    assert j < n ==> SegmentClear(image, s, j);
  }

  lemma SourceFault(image: seq<Byte>, s: Space, i: nat, p: nat)
    requires HeaderError(image).None? && i < HeaderCount(image) && PageSource(image, SegmentAt(image, i), p).None?
    ensures PosFault(image, s, i, p)
  {
  }

  /** What a load lost, where it ended, and what the image is like agree. */
  lemma LossExact(image: seq<Byte>, s: Space, stop: Stop, short: bool)
    requires HeaderError(image).None? && StopsAt(image, s, stop, short)
    ensures Lossy(image, stop) ==> Loses(image, s)
    ensures !short ==> (Lossy(image, stop) <==> Loses(image, s))
  {
    hide HeaderError;
    hide StopsAt;
    hide Lossy;
    hide LosesAt;
    if Lossy(image, stop) {
      LossSound(image, s, stop, short);
    }
    if !short && Loses(image, s) {
      var j: nat, p: nat :| j < HeaderCount(image) && LosesAt(image, s, j, p);
      LossComplete(image, s, stop, j, p);
    }
  }

  /** The file ranges of an image that can be loaded lie inside it. */
  lemma FileInside(image: seq<Byte>, s: Space, i: nat)
    requires !Unloadable(image, s) && i < HeaderCount(image) && IsLoad(image, i) && |image| < WORD_LIMIT
    ensures var seg := SegmentAt(image, i); seg.filesz <= seg.memsz && (seg.filesz == 0 || seg.offset + seg.filesz <= |image|)
  {
    hide HeaderError;
    hide IsLoad;
    hide PageSource;
    hide EntryOutside;
    hide PageIn;
    var seg := SegmentAt(image, i);
    OffsetIsWord(image, i);
    hide SegmentAt;
    assert SegmentClear(image, s, i);
    forall p: nat | PageIn(seg, p) ensures PageSource(image, seg, p).Some? {
      assert !PosFault(image, s, i, p);
    }
    RangeExact(image, seg);
  }

  lemma AllInside(image: seq<Byte>, s: Space)
    requires !Unloadable(image, s) && |image| < WORD_LIMIT
    ensures HeaderError(image).None? && FilesInside(image)
  {
    hide HeaderError;
    hide IsLoad;
    hide SegmentAt;
    forall i: nat | i < HeaderCount(image) && IsLoad(image, i)
      ensures var seg := SegmentAt(image, i); seg.filesz <= seg.memsz && (seg.filesz == 0 || seg.offset + seg.filesz <= |image|)
    {
      FileInside(image, s, i);
    }
  }

  lemma OffsetIsWord(image: seq<Byte>, i: nat)
    requires HeaderError(image).None? && i < HeaderCount(image)
    ensures SegmentAt(image, i).offset < WORD_LIMIT
  {
    hide Le;
    Pow256Is64Bits();
  }

  /** A tidy image never loses a frame, whatever it is loaded into. */
  lemma TidyNeverLoses(image: seq<Byte>, s: Space)
    requires TidyImage(image) && |image| < WORD_LIMIT
    ensures !Loses(image, s)
  {
    hide HeaderError;
    hide IsLoad;
    hide SegmentAt;
    hide PageSource;
    hide PosFault;
    hide HeadFault;
    hide ClearTo;
    if HeaderError(image).None? {
      forall i: nat, p: nat | i < HeaderCount(image) ensures !LosesAt(image, s, i, p) {
        if LosesAt(image, s, i, p) {
          HasPage(SegmentAt(image, i), p);
          PageSourceInside(image, SegmentAt(image, i), p);
        }
      }
    }
  }
}
