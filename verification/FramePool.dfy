/** The physical frame pool: next-fit bitmap allocator (kernel/src/frames.rs) over the
    pool RAM that the bounds-checked `phys_*` accessors expose (kernel/src/hal/boot.rs). */
module FramePool {
  import opened Words
  import opened Pte

  const POOL_BASE: nat := 0x8040_0000
  const POOL_END: nat := 0x8800_0000
  const POOL_FRAMES: nat := 31744
  const BITMAP_WORDS: nat := 496
  const BASE_PPN: nat := 0x80400

  /** One 4 KiB frame, as 512 words. */
  type Frame = f: seq<Word> | |f| == 512 witness seq(512, i => 0)

  datatype Option<+T> = None | Some(value: T)

  /** Physical address of frame `f`. */
  function Pa(f: nat): (pa: nat)
    ensures f < POOL_FRAMES ==> POOL_BASE <= pa && pa + PAGE_SIZE <= POOL_END && (pa - POOL_BASE) % PAGE_SIZE == 0
  {
    POOL_BASE + f * PAGE_SIZE
  }

  predicate InPool(pa: nat) { POOL_BASE <= pa < POOL_END }

  /** The frame a pool address lies in. */
  function FrameAt(pa: nat): (f: nat)
    requires InPool(pa)
    ensures f < POOL_FRAMES && Pa(f) <= pa < Pa(f) + PAGE_SIZE
  {
    (pa - POOL_BASE) / PAGE_SIZE
  }

  function ZeroFrame(): Frame { seq(512, i => 0) }

  function FrameByte(f: Frame, off: nat): Byte
    requires off < PAGE_SIZE
  {
    ByteOf(f[off / 8], off % 8)
  }

  function FrameBytes(f: Frame, off: nat, n: nat): (b: seq<Byte>)
    requires off + n <= PAGE_SIZE
    ensures |b| == n && forall k: nat :: k < n ==> b[k] == FrameByte(f, off + k)
  {
    if n == 0 then [] else FrameBytes(f, off, n - 1) + [FrameByte(f, off + n - 1)]
  }

  function PutFrameByte(f: Frame, off: nat, b: Byte): (r: Frame)
    requires off < PAGE_SIZE
    ensures forall k: nat :: k < PAGE_SIZE ==> FrameByte(r, k) == if k == off then b else FrameByte(f, k)
  {
    f[off / 8 := StoreByte(f[off / 8], off % 8, b)]
  }

  /** Frames with the same bytes are the same frame. */
  lemma FrameByBytes(f: Frame, g: Frame)
    requires forall k: nat :: k < PAGE_SIZE ==> FrameByte(f, k) == FrameByte(g, k)
    ensures f == g
  {
    forall i: nat | i < 512 ensures f[i] == g[i] {
      forall k: nat | k < 8 ensures ByteOf(f[i], k) == ByteOf(g[i], k) {
        assert FrameByte(f, 8 * i + k) == FrameByte(g, 8 * i + k);
        assert (8 * i + k) / 8 == i && (8 * i + k) % 8 == k;
      }
      Pow256Is64Bits();
      BytesDetermine(f[i], g[i], 8);
    }
  }

  /** The pool is 124 MiB of 4 KiB frames from 0x80400000 on. */
  lemma PoolLayout(f: nat)
    ensures Pa(f) == 0x8040_0000 + 4096 * f
    ensures f < POOL_FRAMES <==> 0x8040_0000 + 4096 * f < 0x8800_0000
    ensures forall pa: nat :: InPool(pa) <==> 0x8040_0000 <= pa < 0x8800_0000
  {
  }

  /** The bytes of a frame are those of its words, least significant first. */
  lemma FrameLittleEndian(f: Frame, i: nat)
    requires i < 512
    ensures f[i] == FrameByte(f, 8 * i) + 0x100 * FrameByte(f, 8 * i + 1) + 0x1_0000 * FrameByte(f, 8 * i + 2)
                    + 0x100_0000 * FrameByte(f, 8 * i + 3) + 0x1_0000_0000 * FrameByte(f, 8 * i + 4)
                    + 0x100_0000_0000 * FrameByte(f, 8 * i + 5) + 0x1_0000_0000_0000 * FrameByte(f, 8 * i + 6)
                    + 0x100_0000_0000_0000 * FrameByte(f, 8 * i + 7)
  {
    hide ByteOf;
    WordIsItsBytes(f[i]);
    ByteInWord(f, i, 0);
    ByteInWord(f, i, 1);
    ByteInWord(f, i, 2);
    ByteInWord(f, i, 3);
    ByteInWord(f, i, 4);
    ByteInWord(f, i, 5);
    ByteInWord(f, i, 6);
    ByteInWord(f, i, 7);
    hide FrameByte;
  }

  lemma ByteInWord(f: Frame, i: nat, k: nat)
    requires i < 512 && k < 8
    ensures FrameByte(f, 8 * i + k) == ByteOf(f[i], k)
  {
    DivMod(8, i, k);
  }

  /** `read_pte`: a word outside the pool, or a misaligned one, reads as 0. */
  function ReadPte(m: seq<Frame>, pa: nat): Word
    requires |m| == POOL_FRAMES
  {
    if pa % 8 == 0 && POOL_BASE <= pa && pa + 8 <= POOL_END
    then m[FrameAt(pa)][(pa - POOL_BASE) % PAGE_SIZE / 8] else 0
  }

  /** `write_pte`: a word outside the pool, or a misaligned one, is not written. */
  function WriteWord(m: seq<Frame>, pa: nat, w: Word): seq<Frame>
    requires |m| == POOL_FRAMES
  {
    if pa % 8 == 0 && POOL_BASE <= pa && pa + 8 <= POOL_END
    then m[FrameAt(pa) := m[FrameAt(pa)][(pa - POOL_BASE) % PAGE_SIZE / 8 := w]] else m
  }

  /** Word `i` of frame `f`, addressed. */
  lemma PteSlot(m: seq<Frame>, f: nat, i: nat, w: Word)
    requires |m| == POOL_FRAMES && f < POOL_FRAMES && i < SLOTS
    ensures ReadPte(m, Pa(f) + i * 8) == m[f][i]
    ensures WriteWord(m, Pa(f) + i * 8, w) == m[f := m[f][i := w]]
  {
    var pa := Pa(f) + i * 8;
    assert pa - POOL_BASE == PAGE_SIZE * f + 8 * i;
    DivMod(PAGE_SIZE, f, 8 * i);
    DivMod(8, 512 * (POOL_BASE / PAGE_SIZE + f) + i, 0);
    DivMod(8, i, 0);
  }

  predicate TestBit(bitmap: seq<Word>, f: nat)
    requires |bitmap| == BITMAP_WORDS && f < POOL_FRAMES
  {
    Bit(bitmap[f / 64], f % 64)
  }

  ghost predicate Encodes(bitmap: seq<Word>, used: set<nat>) {
    && |bitmap| == BITMAP_WORDS
    && forall f: nat :: f < POOL_FRAMES ==> (TestBit(bitmap, f) <==> f in used)
  }

  ghost predicate Counts(n: nat, used: set<nat>) {
    n == |used|
  }

  /** Writing one bit of the map changes the status of that frame and of no other. */
  lemma StoreBitReads(bitmap: seq<Word>, f: nat, on: bool, g: nat)
    requires |bitmap| == BITMAP_WORDS && f < POOL_FRAMES && g < POOL_FRAMES
    ensures TestBit(bitmap[f / 64 := StoreBit(bitmap[f / 64], f % 64, on)], g)
            == if g == f then on else TestBit(bitmap, g)
  {
    if g / 64 == f / 64 && g % 64 == f % 64 {
      assert g == f;
    }
  }

  lemma MarkUsed(bitmap: seq<Word>, used: set<nat>, f: nat)
    requires Encodes(bitmap, used) && f < POOL_FRAMES
    ensures Encodes(bitmap[f / 64 := StoreBit(bitmap[f / 64], f % 64, true)], used + {f})
  {
    forall g: nat | g < POOL_FRAMES
      ensures TestBit(bitmap[f / 64 := StoreBit(bitmap[f / 64], f % 64, true)], g) == (g == f || TestBit(bitmap, g))
    {
      StoreBitReads(bitmap, f, true, g);
    }
    hide TestBit;
  }

  lemma BitTells(bitmap: seq<Word>, used: set<nat>, f: nat)
    requires Encodes(bitmap, used) && f < POOL_FRAMES
    ensures |bitmap| == BITMAP_WORDS && (TestBit(bitmap, f) <==> f in used)
  {
  }

  lemma FrameAligned(f: nat)
    requires f < POOL_FRAMES
    ensures InPool(Pa(f)) && FrameAt(Pa(f)) == f && Pa(f) % 4096 == 0
  {
    DivMod(PAGE_SIZE, f, 0);
    DivMod(PAGE_SIZE, 0x80400 + f, 0);
  }

  class Pool {
    var mem: seq<Frame>
    var bitmap: seq<Word>
    var nextHint: nat
    var liveCount: nat
    /** The frames handed out, which the bitmap encodes. */
    ghost var used: set<nat>

    ghost predicate Valid()
      reads this
      ensures Valid() ==> |mem| == POOL_FRAMES && liveCount <= POOL_FRAMES
    {
      && |mem| == POOL_FRAMES
      && (forall f :: f in used ==> f < POOL_FRAMES)
      && Encodes(bitmap, used)
      && liveCount <= POOL_FRAMES && Counts(liveCount, used)
    }

    /** Boot: an all-zero bitmap. */
    constructor ()
      ensures Valid() && used == {} && liveCount == 0
    {
      mem := seq(POOL_FRAMES, i => ZeroFrame());
      bitmap := seq(BITMAP_WORDS, i => 0);
      nextHint, liveCount, used := 0, 0, {};
      new;
      forall f: nat | f < POOL_FRAMES ensures !TestBit(bitmap, f) {
        ZeroBits(f % 64);
      }
    }

    /** `alloc`: next-fit search from the hint, wrapping once around the pool. Succeeds
        exactly when some frame is free, wherever the hint points. */
    method Alloc() returns (r: Option<nat>)
      requires Valid()
      modifies this
      ensures Valid()
      ensures r.Some? <==> old(liveCount) < POOL_FRAMES
      ensures r.None? ==> mem == old(mem) && used == old(used) && liveCount == old(liveCount)
      ensures r.Some? ==> InPool(r.value) && r.value == Pa(FrameAt(r.value))
      ensures r.Some? ==> 0x8040_0000 <= r.value < 0x8800_0000 && r.value % 4096 == 0
      ensures r.Some? ==> var f := FrameAt(r.value);
        && f !in old(used) && used == old(used) + {f}
        && liveCount == old(liveCount) + 1
        && mem == old(mem)[f := ZeroFrame()]
    {
      hide Encodes;
      hide Pa;
      hide FrameAt;
      hide ZeroFrame;
      hide Probe;
      AtMostAllFrames(used);
      var start := nextHint % POOL_FRAMES;
      for i := 0 to POOL_FRAMES
        invariant mem == old(mem) && used == old(used) && liveCount == old(liveCount) && Valid()
        invariant forall j: nat :: j < i ==> Probe(start, j) in used
      {
        var frame := Probe(start, i);
        BitTells(bitmap, used, frame);
        if !TestBit(bitmap, frame) {
          MarkUsed(bitmap, used, frame);
          FrameAligned(frame);
          bitmap := bitmap[frame / 64 := StoreBit(bitmap[frame / 64], frame % 64, true)];
          liveCount := liveCount + 1;
          nextHint := frame + 1;
          used := used + {frame};
          mem := mem[frame := ZeroFrame()];
          AtMostAllFrames(used);
          return Some(Pa(frame));
        }
      }
      forall f: nat | f < POOL_FRAMES ensures f in used {
        var j := ScanReaches(start, f);
        assert Probe(start, j) == f;
      }
      AllFrames(used);
      return None;
    }

    /** `free`: ignores an address outside the pool, unaligned, or already free. */
    method Free(pa: nat)
      requires Valid()
      modifies this`bitmap, this`liveCount, this`used
      ensures Valid()
      ensures liveCount == if InPool(pa) && (pa - POOL_BASE) % PAGE_SIZE == 0 && FrameAt(pa) in old(used)
                           then old(liveCount) - 1 else old(liveCount)
      ensures used == if InPool(pa) && (pa - POOL_BASE) % PAGE_SIZE == 0
                      then old(used) - {FrameAt(pa)} else old(used)
    {
      if !InPool(pa) || (pa - POOL_BASE) % PAGE_SIZE != 0 {
        return;
      }
      var frame := (pa - POOL_BASE) / PAGE_SIZE;
      if TestBit(bitmap, frame) {
        forall g: nat | g < POOL_FRAMES
          ensures TestBit(bitmap[frame / 64 := StoreBit(bitmap[frame / 64], frame % 64, false)], g)
                  == (g != frame && TestBit(bitmap, g))
        {
          StoreBitReads(bitmap, frame, false, g);
        }
        bitmap := bitmap[frame / 64 := StoreBit(bitmap[frame / 64], frame % 64, false)];
        liveCount := liveCount - 1;
        used := used - {frame};
      }
    }

    /** `stats`: the live count is the number of frames in use. */
    method Stats() returns (live: nat, capacity: nat)
      requires Valid()
      ensures live == |used| && capacity == 31744 && live <= capacity
    {
      return liveCount, POOL_FRAMES;
    }

    /** `phys_write_u64` through `write_pte`. */
    method WritePte(pa: nat, w: Word)
      requires Valid()
      modifies this`mem
      ensures Valid()
      ensures mem == WriteWord(old(mem), pa, w)
    {
      mem := WriteWord(mem, pa, w);
    }

    /** `phys_write` restricted to one frame: the bytes land at `off` and every other byte
        of the pool is kept. */
    method PhysWrite(pa: nat, bytes: seq<Byte>) returns (ok: bool)
      requires Valid()
      requires InPool(pa) ==> (pa - POOL_BASE) % PAGE_SIZE + |bytes| <= PAGE_SIZE
      modifies this`mem
      ensures Valid()
      ensures InPool(pa) ==> ok
      ensures !ok ==> mem == old(mem)
      ensures InPool(pa) ==> var f := FrameAt(pa); var off := (pa - POOL_BASE) % PAGE_SIZE;
        && (forall g: nat :: g < POOL_FRAMES && g != f ==> mem[g] == old(mem)[g])
        && (forall k: nat :: k < PAGE_SIZE ==>
              FrameByte(mem[f], k) == if off <= k < off + |bytes| then bytes[k - off] else FrameByte(old(mem)[f], k))
    {
      if !(POOL_BASE <= pa && pa + |bytes| <= POOL_END) {
        return false;
      }
      if |bytes| == 0 {
        return true;
      }
      var f, off := FrameAt(pa), (pa - POOL_BASE) % PAGE_SIZE;
      for i := 0 to |bytes|
        invariant Valid()
        invariant forall g: nat :: g < POOL_FRAMES && g != f ==> mem[g] == old(mem)[g]
        invariant forall k: nat :: k < PAGE_SIZE ==>
              FrameByte(mem[f], k) == if off <= k < off + i then bytes[k - off] else FrameByte(old(mem)[f], k)
      {
        mem := mem[f := PutFrameByte(mem[f], off + i, bytes[i])];
      }
      return true;
    }

    /** `phys_read` restricted to one frame. */
    method PhysRead(pa: nat, n: nat) returns (ok: bool, buf: seq<Byte>)
      requires Valid()
      requires InPool(pa) ==> (pa - POOL_BASE) % PAGE_SIZE + n <= PAGE_SIZE
      ensures 0 < n ==> (ok <==> InPool(pa))
      ensures ok ==> |buf| == n
      ensures ok && 0 < n ==> forall k: nat :: k < n ==>
        buf[k] == FrameByte(mem[FrameAt(pa)], (pa - POOL_BASE) % PAGE_SIZE + k)
    {
      if !(POOL_BASE <= pa && pa + n <= POOL_END) {
        return false, [];
      }
      if n == 0 {
        return true, [];
      }
      var f, off := FrameAt(pa), (pa - POOL_BASE) % PAGE_SIZE;
      return true, FrameBytes(mem[f], off, n);
    }
  }

  lemma {:induction false} ZeroBits(k: nat)
    ensures !Bit(0, k)
  {
    if k > 0 {
      ZeroBits(k - 1);
    }
  }

  /** The `i`-th frame the search looks at. */
  function Probe(start: nat, i: nat): (f: nat)
    ensures f < POOL_FRAMES
  {
    (start + i) % POOL_FRAMES
  }

  /** The wrap-around scan visits every frame of the pool. */
  lemma ScanReaches(start: nat, f: nat) returns (j: nat)
    requires start < POOL_FRAMES && f < POOL_FRAMES
    ensures j < POOL_FRAMES && Probe(start, j) == f
  {
    j := if start <= f then f - start else f + POOL_FRAMES - start;
  }

  ghost function FrameRange(n: nat): (s: set<nat>)
    ensures forall f: nat :: f in s <==> f < n
  {
    if n == 0 then {} else FrameRange(n - 1) + {n - 1}
  }

  lemma {:induction false} FrameRangeSize(n: nat)
    ensures |FrameRange(n)| == n
  {
    if n > 0 {
      FrameRangeSize(n - 1);
    }
  }

  lemma AllFrames(used: set<nat>)
    requires forall f :: f in used ==> f < POOL_FRAMES
    requires forall f: nat :: f < POOL_FRAMES ==> f in used
    ensures |used| == POOL_FRAMES
  {
    assert used == FrameRange(POOL_FRAMES);
    FrameRangeSize(POOL_FRAMES);
  }

  lemma AtMostAllFrames(used: set<nat>)
    requires forall f :: f in used ==> f < POOL_FRAMES
    ensures |used| <= POOL_FRAMES
  {
    var rest := FrameRange(POOL_FRAMES) - used;
    assert used + rest == FrameRange(POOL_FRAMES) && used !! rest;
    FrameRangeSize(POOL_FRAMES);
  }
}
