/** Writing ELF images: the inverse of the header reading in ElfImage, and three images it
    makes that show which loads lose frames. */
module Assemble {
  import opened Words
  import opened Pte
  import opened Space
  import opened PageTables
  import opened ElfImage
  import opened Launch

  /** `x` in `n` bytes, little-endian. */
  function ToLe(x: nat, n: nat): (b: seq<Byte>)
    ensures |b| == n
  {
    if n == 0 then [] else [x % 256] + ToLe(x / 256, n - 1)
  }

  lemma {:induction false} ToLeReads(image: seq<Byte>, off: nat, x: nat, n: nat)
    requires off + n <= |image| && image[off..off + n] == ToLe(x, n) && x < Pow256(n)
    ensures Le(image, off, n) == x
    decreases n
  {
    if n > 0 {
      assert image[off] == image[off..off + n][0];
      assert image[off + 1..off + n] == image[off..off + n][1..];
      var hi := Pow256(n - 1);
      assert x / 256 < hi;
      ToLeReads(image, off + 1, x / 256, n - 1);
    }
  }

  /** What a program header has room for; the loader makes every page a user page. */
  predicate Writable(seg: Segment) {
    && seg.perms.u && !seg.perms.g
    && seg.offset < WORD_LIMIT && seg.vaddr < WORD_LIMIT && seg.filesz < WORD_LIMIT && seg.memsz < WORD_LIMIT
  }

  function FlagsOf(p: Perms): nat { FlagIf(p.r, 4) + FlagIf(p.w, 2) + FlagIf(p.x, 1) }

  /** A load header. */
  function Row(seg: Segment): (b: seq<Byte>)
    ensures |b| == 56
  {
    ToLe(1, 4) + ToLe(FlagsOf(seg.perms), 4) + ToLe(seg.offset, 8) + ToLe(seg.vaddr, 8) + ToLe(seg.vaddr, 8)
    + ToLe(seg.filesz, 8) + ToLe(seg.memsz, 8) + ToLe(PAGE_SIZE, 8)
  }

  function Rows(segs: seq<Segment>): (b: seq<Byte>)
    ensures |b| == 56 * |segs|
  {
    if segs == [] then [] else Rows(segs[..|segs| - 1]) + Row(segs[|segs| - 1])
  }

  function Ident(): (b: seq<Byte>)
    ensures |b| == 16
  {
    [0x7f, 0x45, 0x4c, 0x46, 2, 1, 1, 0] + ToLe(0, 8)
  }

  function HeadLow(entry: Word): (b: seq<Byte>)
    ensures |b| == 16
  {
    ToLe(2, 2) + ToLe(243, 2) + ToLe(1, 4) + ToLe(entry, 8)
  }

  function HeadHigh(n: nat): (b: seq<Byte>)
    ensures |b| == 32
  {
    ToLe(64, 8) + ToLe(0, 8) + ToLe(0, 4) + ToLe(64, 2) + ToLe(56, 2) + ToLe(n, 2) + ToLe(0, 6)
  }

  /** The file header. */
  function Head(entry: Word, n: nat): (b: seq<Byte>)
    ensures |b| == 64
  {
    Ident() + HeadLow(entry) + HeadHigh(n)
  }

  /** An image of these load segments, with no bytes after the headers. */
  function Assembled(entry: Word, segs: seq<Segment>): (image: seq<Byte>)
    ensures |image| == 64 + 56 * |segs|
  {
    Head(entry, |segs|) + Rows(segs)
  }

  lemma {:induction false} RowAt(segs: seq<Segment>, i: nat)
    requires i < |segs|
    ensures 56 * i + 56 <= |Rows(segs)| && Rows(segs)[56 * i..56 * i + 56] == Row(segs[i])
  {
    hide Row;
    var n := |segs| - 1;
    var rest, last := Rows(segs[..n]), Row(segs[n]);
    assert Rows(segs) == rest + last;
    if i < n {
      RowAt(segs[..n], i);
      assert (rest + last)[56 * i..56 * i + 56] == rest[56 * i..56 * i + 56];
    }
  }

  lemma Widths()
    ensures Pow256(2) == 0x1_0000 && Pow256(4) == 0x1_0000_0000 && Pow256(8) == WORD_LIMIT
  {
    Pow256Is64Bits();
  }

  /** A field inside a block inside an image. */
  lemma FieldReads(image: seq<Byte>, off: nat, block: seq<Byte>, at: nat, x: nat, n: nat)
    requires off + |block| <= |image| && image[off..off + |block|] == block && at + n <= |block|
    requires block[at..at + n] == ToLe(x, n) && x < Pow256(n)
    ensures Le(image, off + at, n) == x
  {
    hide ToLe;
    hide Le;
    hide Pow256;
    var field, part := image[off + at..off + at + n], block[at..at + n];
    forall k | 0 <= k < n ensures field[k] == part[k] {
      assert image[off + at + k] == image[off..off + |block|][at + k];
    }
    ToLeReads(image, off + at, x, n);
  }

  lemma RowFields(seg: Segment)
    ensures var b := Row(seg);
      && b[0..4] == ToLe(1, 4) && b[4..8] == ToLe(FlagsOf(seg.perms), 4) && b[8..16] == ToLe(seg.offset, 8)
      && b[16..24] == ToLe(seg.vaddr, 8) && b[32..40] == ToLe(seg.filesz, 8) && b[40..48] == ToLe(seg.memsz, 8)
  {
    hide ToLe;
    hide FlagsOf;
  }

  lemma HeadFields(entry: Word, n: nat)
    ensures var b := Head(entry, n);
      && b[0..4] == [0x7f, 0x45, 0x4c, 0x46] && b[4] == 2 && b[5] == 1 && b[18..20] == ToLe(243, 2) && b[24..32] == ToLe(entry, 8)
      && b[32..40] == ToLe(64, 8) && b[54..56] == ToLe(56, 2) && b[56..58] == ToLe(n, 2)
  {
    hide ToLe;
    var low, high := HeadLow(entry), HeadHigh(n);
    LowFields(entry);
    HighFields(n);
    assert Ident()[0..4] == [0x7f, 0x45, 0x4c, 0x46] && Ident()[4] == 2 && Ident()[5] == 1;
    hide Ident;
    hide HeadLow;
    hide HeadHigh;
    var b := Head(entry, n);
    assert b[0..4] == Ident()[0..4] && b[18..20] == low[2..4] && b[24..32] == low[8..16];
    assert b[32..40] == high[0..8] && b[54..56] == high[22..24] && b[56..58] == high[24..26];
  }

  lemma LowFields(entry: Word)
    ensures HeadLow(entry)[2..4] == ToLe(243, 2) && HeadLow(entry)[8..16] == ToLe(entry, 8)
  {
    hide ToLe;
  }

  lemma HighFields(n: nat)
    ensures HeadHigh(n)[0..8] == ToLe(64, 8) && HeadHigh(n)[22..24] == ToLe(56, 2) && HeadHigh(n)[24..26] == ToLe(n, 2)
  {
    hide ToLe;
  }

  lemma FlagsRead(p: Perms)
    ensures var f := FlagsOf(p); f < 8 && Bit(f, 2) == p.r && Bit(f, 1) == p.w && Bit(f, 0) == p.x
  {
    var f := FlagsOf(p);
    assert Bit(f, 2) == Bit(f / 2 / 2, 0);
  }

  lemma RowReads(image: seq<Byte>, off: nat, seg: Segment)
    requires off + 56 <= |image| && image[off..off + 56] == Row(seg) && Writable(seg)
    ensures Le(image, off, 4) == 1 && Le(image, off + 4, 4) == FlagsOf(seg.perms) && Le(image, off + 8, 8) == seg.offset
    ensures Le(image, off + 16, 8) == seg.vaddr && Le(image, off + 32, 8) == seg.filesz && Le(image, off + 40, 8) == seg.memsz
  {
    hide ToLe;
    hide Le;
    hide Pow256;
    Widths();
    RowFields(seg);
    FlagsRead(seg.perms);
    hide FlagsOf;
    var b := Row(seg);
    hide Row;
    FieldReads(image, off, b, 0, 1, 4);
    FieldReads(image, off, b, 4, FlagsOf(seg.perms), 4);
    FieldReads(image, off, b, 8, seg.offset, 8);
    FieldReads(image, off, b, 16, seg.vaddr, 8);
    FieldReads(image, off, b, 32, seg.filesz, 8);
    FieldReads(image, off, b, 40, seg.memsz, 8);
  }

  lemma HeadReads(image: seq<Byte>, entry: Word, n: nat)
    requires 64 <= |image| && image[0..64] == Head(entry, n) && n < 0x1_0000
    ensures image[0..4] == [0x7f, 0x45, 0x4c, 0x46] && image[4] == 2 && image[5] == 1
    ensures Le(image, 18, 2) == 243 && Le(image, 24, 8) == entry && Le(image, 32, 8) == 64
    ensures Le(image, 54, 2) == 56 && Le(image, 56, 2) == n
  {
    hide ToLe;
    hide Le;
    hide Pow256;
    Widths();
    HeadFields(entry, n);
    var b := Head(entry, n);
    hide Head;
    assert image[0..4] == image[0..64][0..4];
    assert image[4] == image[0..64][4] && image[5] == image[0..64][5];
    FieldReads(image, 0, b, 18, 243, 2);
    FieldReads(image, 0, b, 24, entry, 8);
    FieldReads(image, 0, b, 32, 64, 8);
    FieldReads(image, 0, b, 54, 56, 2);
    FieldReads(image, 0, b, 56, n, 2);
  }

  /** The loader reads back exactly the segments that were written. */
  lemma AssembledReads(entry: Word, segs: seq<Segment>)
    requires |segs| < 0x1_0000 && forall i: nat :: i < |segs| ==> Writable(segs[i])
    ensures var image := Assembled(entry, segs);
      && HeaderError(image).None? && HeaderCount(image) == |segs| && Le(image, 24, 8) == entry
      && forall i: nat :: i < |segs| ==> IsLoad(image, i) && SegmentAt(image, i) == segs[i]
  {
    hide Le;
    hide Row;
    hide Head;
    hide Bit;
    var image := Assembled(entry, segs);
    assert image[0..64] == Head(entry, |segs|);
    HeadReads(image, entry, |segs|);
    assert HeaderError(image).None?;
    forall i: nat | i < |segs| ensures IsLoad(image, i) && SegmentAt(image, i) == segs[i] {
      RowAt(segs, i);
      assert HeaderAt(image, i) == 64 + 56 * i;
      assert image[64 + 56 * i..64 + 56 * i + 56] == Rows(segs)[56 * i..56 * i + 56];
      RowReads(image, 64 + 56 * i, segs[i]);
      FlagsRead(segs[i].perms);
    }
  }

  // ---- which loads lose frames --------------------------------------------

  const CODE := Segment(Perms(true, false, true, true, false), 0, 0x1000, 0, 0x1000)
  const GUARD := Segment(Perms(false, false, false, true, false), 0, 0x2000, 0, 0x1000)
  const CUT := Segment(Perms(true, false, true, true, false), 0x1000, 0x1000, 0x1000, 0x1000)

  /** The only page of a one-page segment. */
  lemma OnePage(seg: Segment, v: nat)
    requires seg.vaddr == v * PAGE_SIZE && seg.memsz == PAGE_SIZE && v < 10
    ensures forall p: nat :: PageIn(seg, p) <==> p == seg.vaddr
    ensures PageOf(seg.vaddr) == v && FirstPage(seg) == seg.vaddr
    ensures forall w: nat :: !PageBelow(seg, w, seg.vaddr)
    ensures forall w: nat, end: nat :: end == seg.vaddr + seg.memsz ==> (PageBelow(seg, w, end) <==> w == v)
  {
    forall p: nat ensures PageIn(seg, p) <==> p == seg.vaddr {
      if PageIn(seg, p) {
        assert p == p / PAGE_SIZE * PAGE_SIZE;
      }
    }
  }

  /** An image that is accepted, and loses frames: it has a page without any access. */
  lemma AcceptedButLoses()
    ensures var image := Assembled(0x1000, [CODE, GUARD]);
      !Unloadable(image, BLANK) && !AllLive(image, HeaderCount(image)) && Loses(image, BLANK)
  {
    hide Le;
    hide PageOf;
    hide IsLoad;
    hide SegmentAt;
    hide HeaderError;
    hide PageIn;
    hide PageBelow;
    hide Assembled;
    var image := Assembled(0x1000, [CODE, GUARD]);
    AssembledReads(0x1000, [CODE, GUARD]);
    OnePage(CODE, 1);
    OnePage(GUARD, 2);
    assert SegmentAt(image, 0) == CODE && SegmentAt(image, 1) == GUARD;
    assert SegmentClear(image, BLANK, 0) && SegmentClear(image, BLANK, 1);
    DeadBelow(image, BLANK, 2);
  }

  /** An image that is refused, and loses a frame, although every page of it is live: its
      file bytes are not there. */
  lemma RefusedAndLoses()
    ensures var image := Assembled(0x1000, [CUT]);
      HeaderError(image).None? && AllLive(image, HeaderCount(image)) && Unloadable(image, BLANK) && Loses(image, BLANK)
  {
    hide Le;
    hide PageOf;
    hide IsLoad;
    hide SegmentAt;
    hide HeaderError;
    hide PageIn;
    hide PageBelow;
    var image := Assembled(0x1000, [CUT]);
    AssembledReads(0x1000, [CUT]);
    OnePage(CUT, 1);
    assert SegmentAt(image, 0) == CUT;
    CutShort(image);
    ClearToNone(image, BLANK);
    hide Assembled;
    hide ClearTo;
    hide PageSource;
    assert PosFault(image, BLANK, 0, 0x1000);
    assert LosesAt(image, BLANK, 0, 0x1000);
    NotAllClear(image, BLANK, 0, 0x1000);
  }

  lemma CutShort(image: seq<Byte>)
    requires |image| < 0x1000
    ensures PageSource(image, CUT, 0x1000).None?
  {
  }

  lemma NotAllClear(image: seq<Byte>, s: Space, i: nat, p: nat)
    requires HeaderError(image).None? && i < HeaderCount(image) && IsLoad(image, i)
    requires PageIn(SegmentAt(image, i), p) && PosFault(image, s, i, p)
    ensures Unloadable(image, s)
  {
    hide HeaderError;
    hide IsLoad;
    hide SegmentAt;
    hide PosFault;
    hide PageIn;
    assert !SegmentClear(image, s, i);
  }

  /** An image that is accepted and loses nothing. */
  lemma AcceptedAndKeeps()
    ensures var image := Assembled(0x1000, [CODE]);
      !Unloadable(image, BLANK) && TidyImage(image) && !Loses(image, BLANK)
  {
    hide Le;
    hide PageOf;
    hide IsLoad;
    hide SegmentAt;
    hide HeaderError;
    hide PageIn;
    hide PageBelow;
    var image := Assembled(0x1000, [CODE]);
    AssembledReads(0x1000, [CODE]);
    hide Assembled;
    OnePage(CODE, 1);
    assert SegmentAt(image, 0) == CODE;
    assert SegmentClear(image, BLANK, 0);
    TidyNeverLoses(image, BLANK);
  }
}
