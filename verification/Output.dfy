/** The two frames that carry payload bytes out (kernel/src/payload.rs, `emit_output` and
    `on_blit`): read through the payload's own page table, confined to JSON strings, and
    never too long to send. */
module Output {
  import opened Words
  import opened FramePool
  import opened Space
  import opened PageTables
  import opened Translate
  import opened Framing
  import opened Console

  const WRITE_QUOTA: nat := 256

  const EFAULT: int := -3
  const ENOCAP: int := -2
  const EINVAL: int := -4

  function Digits(n: nat, base: nat): (r: Bytes)
    requires base == 10 || base == 16
    ensures |r| >= 1
    decreases n
  {
    if n < base then [HexDigit(n)] else Digits(n / base, base) + [HexDigit(n % base)]
  }

  function Power(base: nat, k: nat): nat {
    if k == 0 then 1 else base * Power(base, k - 1)
  }

  lemma {:induction false} DigitCount(n: nat, base: nat, k: nat)
    requires (base == 10 || base == 16) && k >= 1 && n < Power(base, k)
    ensures |Digits(n, base)| <= k
  {
    if n >= base {
      assert k > 1;
      assert n / base < Power(base, k - 1);
      DigitCount(n / base, base, k - 1);
    }
  }

  /** A 64-bit number has at most twenty decimal and sixteen hexadecimal digits. */
  lemma WordDigits(n: Word)
    ensures |Digits(n, 10)| <= 20 && |Digits(n, 16)| <= 16
  {
    assert Power(10, 5) == 100000;
    assert Power(10, 10) == 10_000_000_000;
    assert Power(10, 15) == 1_000_000_000_000_000;
    assert Power(10, 20) == 100_000_000_000_000_000_000;
    assert Power(16, 4) == 65536;
    assert Power(16, 8) == 0x1_0000_0000;
    assert Power(16, 12) == 0x1_0000_0000_0000;
    assert Power(16, 16) == WORD_LIMIT;
    DigitCount(n, 10, 20);
    DigitCount(n, 16, 16);
  }

  lemma SmallDigits(n: nat)
    requires n < 1000
    ensures |Digits(n, 10)| <= 3
  {
    DigitCount(n, 10, 3);
  }

  // ---- write --------------------------------------------------------------

  function OutputHead(id: Word, pid: Word, cause: Word, n: nat): Bytes {
    Text("{\"id\":") + Digits(id, 10) + Text(",\"type\":\"payload_output\",\"pid\":") + Digits(pid, 10)
    + Text(",\"untrusted\":true,\"caused_by\":") + Digits(cause, 10) + Text(",\"len\":") + Digits(n, 10) + Text(",\"data\":\"")
  }

  function OutputText(id: Word, pid: Word, cause: Word, data: Bytes): Bytes {
    OutputHead(id, pid, cause, |data|) + Escape(data) + Text("\"}")
  }

  /** An accepted write always fits one frame. */
  lemma OutputFits(id: Word, pid: Word, cause: Word, data: Bytes)
    requires |data| <= WRITE_QUOTA
    ensures |OutputHead(id, pid, cause, |data|)| + |Escape(data)| + 2 == |OutputText(id, pid, cause, data)| <= CAPACITY
  {
    hide Escape;
    hide Digits;
    hide Text;
    WordDigits(id);
    WordDigits(pid);
    WordDigits(cause);
    SmallDigits(|data|);
    EscapeIsPrintable(data);
  }

  /** How much of a write is sent. */
  function Quota(len: nat): nat { if len < WRITE_QUOTA then len else WRITE_QUOTA }

  /** `emit_output`: the first 256 bytes at most, exactly when the payload could read them all
      itself, sent whole in one frame. */
  method EmitOutput(space: AddressSpace, pool: Pool, ptr: Word, len: nat, id: Word, pid: Word, cause: Word, ghost s: Space)
    returns (sent: Option<Bytes>, ghost data: Bytes)
    requires pool.Valid() && Represents(pool.mem, s) && space.root == Pa(s.root)
    ensures sent.Some? <==> forall k: nat :: k < Quota(len) ==> UserByte(pool.mem, s, WrapAdd(ptr, k)).Some?
    ensures |data| == Quota(len)
    ensures sent.Some? ==> forall k: nat :: k < Quota(len) ==> UserByte(pool.mem, s, WrapAdd(ptr, k)) == Some(data[k])
    ensures sent.Some? ==> |OutputText(id, pid, cause, data)| <= CAPACITY && sent == Some(Wire(OutputText(id, pid, cause, data)))
  {
    hide Pool.Valid;
    hide Represents;
    hide UserByte;
    hide WrapAdd;
    hide Digits;
    hide Escape;
    hide Text;
    hide Pa;
    hide OutputHead;
    var n := Quota(len);
    var ok, buf := CopyFromUser(space, pool, ptr, n, s);
    if !ok {
      return None, seq(n, i => 0);
    }
    OutputFits(id, pid, cause, buf);
    var f := new FrameBuf();
    var w1 := f.Write(OutputHead(id, pid, cause, n));
    assert f.Contents() == OutputHead(id, pid, cause, n);
    var w2 := f.WriteEscaped(buf);
    var w3 := f.Write(Text("\"}"));
    var out := f.Emit();
    return Some(out), buf;
  }

  /** `sys_write`, for a payload that holds the write capability if `mayWrite`: how many bytes
      were sent, or why none. */
  method SysWrite(space: AddressSpace, pool: Pool, mayWrite: bool, ptr: Word, len: nat, id: Word, pid: Word, cause: Word, ghost s: Space)
    returns (r: int, sent: Bytes, ghost data: Bytes)
    requires pool.Valid() && Represents(pool.mem, s) && space.root == Pa(s.root)
    ensures r == -2 <==> !mayWrite
    ensures r >= 0 <==> mayWrite && forall k: nat :: k < Quota(len) ==> UserByte(pool.mem, s, WrapAdd(ptr, k)).Some?
    ensures r < 0 ==> r in {-2, -3} && sent == []
    ensures r >= 0 ==> r == (if len < 256 then len else 256) == |data|
    ensures r >= 0 ==> forall k: nat :: k < |data| ==> UserByte(pool.mem, s, WrapAdd(ptr, k)) == Some(data[k])
    ensures r >= 0 ==> |OutputText(id, pid, cause, data)| < 0x1_0000_0000 && sent == Wire(OutputText(id, pid, cause, data))
  {
    hide Represents;
    hide UserByte;
    hide WrapAdd;
    hide OutputText;
    hide Wire;
    hide Pa;
    data := [];
    if !mayWrite {
      return ENOCAP, [], data;
    }
    var take := if len < WRITE_QUOTA then len else WRITE_QUOTA;
    var out;
    out, data := EmitOutput(space, pool, ptr, take, id, pid, cause, s);
    if out.None? {
      return EFAULT, [], data;
    }
    return take, out.value, data;
  }

  /** What the host makes of it: one frame, and after its `"data":"` the payload's bytes. */
  lemma OutputArrives(id: Word, pid: Word, cause: Word, data: Bytes, more: Bytes)
    requires |data| <= WRITE_QUOTA
    ensures var text := OutputText(id, pid, cause, data); var head := OutputHead(id, pid, cause, |data|);
      && |head| <= |text| <= CAPACITY
      && Parse(Wire(text) + more) == Parse(more).Then(Framed(text))
      && ReadString(text[|head|..]) == Some((data, Text("}")))
  {
    hide Digits;
    hide Escape;
    hide ReadString;
    hide Parse;
    hide OutputHead;
    OutputFits(id, pid, cause, data);
    var text, head := OutputText(id, pid, cause, data), OutputHead(id, pid, cause, |data|);
    FrameTaken(text, more);
    EscapedReadsBack(data, Text("}"));
    assert Text("\"}") == [QUOTE] + Text("}");
    assert text == head + (Escape(data) + [QUOTE] + Text("}"));
    assert text[|head|..] == Escape(data) + [QUOTE] + Text("}");
  }

  // ---- blit ---------------------------------------------------------------

  const BLIT_MAXW: nat := 72
  const BLIT_MAXH: nat := 24

  /** Shade ramp: ten glyphs from blank to `@`. */
  function Glyph(v: Byte): (r: Byte)
    ensures 0x20 <= r <= 0x7E && r != QUOTE && r != BACKSLASH
  {
    var k := v * 9 / 255;
    assert 0 <= k <= 9;
    Text(" .:-=+*#%@")[k]
  }

  function Glyphs(row: Bytes): (r: Bytes)
    ensures |r| == |row| && forall i :: 0 <= i < |r| ==> r[i] == Glyph(row[i])
  {
    seq(|row|, i requires 0 <= i < |row| => Glyph(row[i]))
  }

  function RowText(first: bool, row: Bytes): (r: Bytes)
    ensures |r| <= |row| + 3
  {
    (if first then [QUOTE] else Text(",") + [QUOTE]) + (Glyphs(row) + [QUOTE])
  }

  function RowsText(rows: seq<Bytes>): Bytes {
    if rows == [] then [] else RowsText(rows[..|rows| - 1]) + RowText(|rows| == 1, rows[|rows| - 1])
  }

  /** 64-bit FNV-1a over all rows. */
  function Fnv(rows: seq<Bytes>): bv64 {
    if rows == [] then 0xcbf2_9ce4_8422_2325 else FnvRow(Fnv(rows[..|rows| - 1]), rows[|rows| - 1])
  }

  function FnvRow(c: bv64, row: Bytes): bv64 {
    if row == [] then c else FnvByte(FnvRow(c, row[..|row| - 1]), row[|row| - 1])
  }

  function FnvByte(c: bv64, v: Byte): bv64 { (c ^ (v as bv64)) * 0x0000_0100_0000_01b3 }

  function BlitHead(id: Word, pid: Word, w: nat, h: nat): Bytes {
    Text("{\"id\":") + Digits(id, 10) + Text(",\"type\":\"frame\",\"pid\":") + Digits(pid, 10)
    + Text(",\"untrusted\":true,\"w\":") + Digits(w, 10) + Text(",\"h\":") + Digits(h, 10) + Text(",\"rows\":[")
  }

  function BlitTail(checksum: bv64): Bytes {
    Text("],\"checksum\":\"0x") + Digits(checksum as nat, 16) + Text("\"}")
  }

  function BlitText(id: Word, pid: Word, w: nat, h: nat, rows: seq<Bytes>): Bytes {
    BlitHead(id, pid, w, h) + RowsText(rows) + BlitTail(Fnv(rows))
  }

  lemma BlitHeadSize(id: Word, pid: Word, w: nat, h: nat)
    requires w <= BLIT_MAXW && h <= BLIT_MAXH
    ensures |BlitHead(id, pid, w, h)| <= 110
  {
    hide Digits;
    hide Text;
    WordDigits(id);
    WordDigits(pid);
    assert Power(10, 2) == 100;
    DigitCount(w, 10, 2);
    DigitCount(h, 10, 2);
  }

  lemma BlitTailSize(c: bv64)
    ensures |BlitTail(c)| <= 34
  {
    hide Digits;
    hide Text;
    WordDigits(c as nat);
  }

  lemma {:induction false} RowsSize(rows: seq<Bytes>)
    requires forall i :: 0 <= i < |rows| ==> |rows[i]| <= BLIT_MAXW
    ensures |RowsText(rows)| <= |rows| * 75
  {
    hide RowText;
    if rows != [] {
      RowsSize(rows[..|rows| - 1]);
    }
  }

  /** The largest picture accepted fits one frame. */
  lemma BlitFits(id: Word, pid: Word, w: nat, h: nat, rows: seq<Bytes>)
    requires w <= BLIT_MAXW && h <= BLIT_MAXH && |rows| <= h && forall i :: 0 <= i < |rows| ==> |rows[i]| == w
    ensures |BlitHead(id, pid, w, h)| + |RowsText(rows)| + 34 <= 1944
    ensures |BlitText(id, pid, w, h, rows)| <= CAPACITY
  {
    hide BlitHead;
    hide BlitTail;
    hide RowsText;
    hide Fnv;
    BlitHeadSize(id, pid, w, h);
    BlitTailSize(Fnv(rows));
    RowsSize(rows);
  }

  /** One row's glyphs and closing quote. */
  method WriteGlyphs(f: FrameBuf, row: Bytes, c: bv64) returns (checksum: bv64)
    requires f.Valid() && |f.Contents()| + |row| < CAPACITY && !f.overflow
    modifies f, f.buf
    ensures f.Valid() && !f.overflow && f.Contents() == old(f.Contents()) + (Glyphs(row) + [QUOTE])
    ensures checksum == FnvRow(c, row)
  {
    hide Glyphs;
    hide FnvRow;
    hide FnvByte;
    checksum := c;
    NoGlyphs(c);
    for i := 0 to |row|
      invariant f.Valid() && !f.overflow && f.Contents() == old(f.Contents()) + Glyphs(row[..i])
      invariant checksum == FnvRow(c, row[..i])
    {
      OneMoreGlyph(c, row, i);
      checksum := FnvByte(checksum, row[i]);
      var w1 := f.Write([Glyph(row[i])]);
    }
    assert row[..|row|] == row;
    var w2 := f.Write([QUOTE]);
  }

  lemma NoGlyphs(c: bv64)
    ensures Glyphs([]) == [] && FnvRow(c, []) == c
  {
  }

  lemma OneMoreGlyph(c: bv64, row: Bytes, i: nat)
    requires i < |row|
    ensures Glyphs(row[..i + 1]) == Glyphs(row[..i]) + [Glyph(row[i])]
    ensures FnvRow(c, row[..i + 1]) == FnvByte(FnvRow(c, row[..i]), row[i])
  {
    hide FnvByte;
    hide Glyph;
    assert row[..i + 1][..i] == row[..i];
  }

  /** Pixel `k` of row `y` as the payload would read it. */
  ghost function Pixel(m: seq<Frame>, s: Space, ptr: Word, w: nat, y: nat, k: nat): Option<Byte>
    requires |m| == POOL_FRAMES
  {
    UserByte(m, s, WrapAdd(WrapAdd(ptr, y * w), k))
  }

  method ReadRow(space: AddressSpace, pool: Pool, ptr: Word, w: nat, y: nat, ghost s: Space) returns (ok: bool, row: Bytes)
    requires pool.Valid() && Represents(pool.mem, s) && space.root == Pa(s.root) && w <= BLIT_MAXW
    ensures ok <==> forall k: nat :: k < w ==> Pixel(pool.mem, s, ptr, w, y, k).Some?
    ensures ok ==> |row| == w && forall k: nat :: k < w ==> Pixel(pool.mem, s, ptr, w, y, k) == Some(row[k])
  {
    hide Pool.Valid;
    hide Represents;
    hide UserByte;
    hide Pa;
    ok, row := CopyFromUser(space, pool, WrapAdd(ptr, y * w), w, s);
    if !ok {
      ghost var k: nat :| k < w && UserByte(pool.mem, s, WrapAdd(WrapAdd(ptr, y * w), k)).None?;
      assert Pixel(pool.mem, s, ptr, w, y, k).None?;
    }
  }

  /** One turn of the drawing loop. */
  method DrawRow(f: FrameBuf, space: AddressSpace, pool: Pool, ptr: Word, w: nat, y: nat, c: bv64, ghost s: Space)
    returns (ok: bool, checksum: bv64, row: Bytes)
    requires pool.Valid() && Represents(pool.mem, s) && space.root == Pa(s.root)
    requires w <= BLIT_MAXW && f.Valid() && !f.overflow && |f.Contents()| + 75 <= CAPACITY
    modifies f, f.buf
    ensures f.Valid()
    ensures ok <==> forall k: nat :: k < w ==> Pixel(pool.mem, s, ptr, w, y, k).Some?
    ensures ok ==> |row| == w && forall k: nat :: k < w ==> Pixel(pool.mem, s, ptr, w, y, k) == Some(row[k])
    ensures ok ==> !f.overflow && f.Contents() == old(f.Contents()) + RowText(y == 0, row) && checksum == FnvRow(c, row)
  {
    hide Pool.Valid;
    hide Represents;
    hide Pixel;
    hide Pa;
    hide Glyphs;
    hide FnvRow;
    checksum := c;
    if y > 0 {
      var w1 := f.Write(Text(","));
    }
    var w2 := f.Write([QUOTE]);
    assert f.Contents() == old(f.Contents()) + if y == 0 then [QUOTE] else Text(",") + [QUOTE];
    ok, row := ReadRow(space, pool, ptr, w, y, s);
    if ok {
      checksum := WriteGlyphs(f, row, checksum);
      Assoc(old(f.Contents()), if y == 0 then [QUOTE] else Text(",") + [QUOTE], Glyphs(row) + [QUOTE]);
    }
  }

  /** The drawing loop of `on_blit`. */
  method DrawRows(f: FrameBuf, space: AddressSpace, pool: Pool, ptr: Word, w: nat, h: nat, ghost s: Space)
    returns (ok: bool, checksum: bv64, ghost rows: seq<Bytes>)
    requires pool.Valid() && Represents(pool.mem, s) && space.root == Pa(s.root)
    requires 0 < w <= BLIT_MAXW && 0 < h <= BLIT_MAXH && f.Valid() && !f.overflow && |f.Contents()| <= 110
    modifies f, f.buf
    ensures f.Valid()
    ensures ok <==> forall y: nat, k: nat :: y < h && k < w ==> Pixel(pool.mem, s, ptr, w, y, k).Some?
    ensures ok ==> |rows| == h && (forall y: nat :: y < h ==> |rows[y]| == w)
    ensures ok ==> forall y: nat, k: nat :: y < h && k < w ==> Pixel(pool.mem, s, ptr, w, y, k) == Some(rows[y][k])
    ensures ok ==> !f.overflow && f.Contents() == old(f.Contents()) + RowsText(rows) && checksum == Fnv(rows)
  {
    hide Pool.Valid;
    hide Represents;
    hide Pixel;
    hide Pa;
    hide RowText;
    hide RowsText;
    hide Fnv;
    hide FnvRow;
    ghost var head := f.Contents();
    checksum, rows := 0xcbf2_9ce4_8422_2325, [];
    NoRows();
    for y := 0 to h
      invariant f.Valid() && !f.overflow && f.Contents() == head + RowsText(rows) && checksum == Fnv(rows)
      invariant |rows| == y && forall i: nat :: i < y ==> |rows[i]| == w
      invariant forall i: nat, k: nat :: i < y && k < w ==> Pixel(pool.mem, s, ptr, w, i, k) == Some(rows[i][k])
    {
      RowsSize(rows);
      var row;
      ok, checksum, row := DrawRow(f, space, pool, ptr, w, y, checksum, s);
      if !ok {
        return;
      }
      OneMoreRow(rows, row);
      Assoc(head, RowsText(rows), RowText(y == 0, row));
      rows := rows + [row];
    }
    return true, checksum, rows;
  }

  lemma NoRows()
    ensures RowsText([]) == [] && Fnv([]) == 0xcbf2_9ce4_8422_2325
  {
  }

  lemma OneMoreRow(rows: seq<Bytes>, row: Bytes)
    ensures RowsText(rows + [row]) == RowsText(rows) + RowText(rows == [], row)
    ensures Fnv(rows + [row]) == FnvRow(Fnv(rows), row)
  {
    hide RowText;
    hide FnvRow;
    assert (rows + [row])[..|rows|] == rows;
  }

  /** `on_blit`, for a payload that holds the write capability if `mayWrite`: a picture of up
      to 72 by 24 is sent exactly when every pixel is one the payload could read itself, and
      never dropped for length. */
  method OnBlit(space: AddressSpace, pool: Pool, mayWrite: bool, ptr: Word, w: nat, h: nat, id: Word, pid: Word, ghost s: Space)
    returns (r: int, sent: Bytes, ghost rows: seq<Bytes>)
    requires pool.Valid() && Represents(pool.mem, s) && space.root == Pa(s.root)
    ensures r == -2 <==> !mayWrite
    ensures r == -4 <==> r != -2 && (w == 0 || h == 0 || w > 72 || h > 24)
    ensures r in {0, -2, -3, -4}
    ensures r == 0 <==> r != -2 && r != -4 && forall y: nat, k: nat :: y < h && k < w ==> Pixel(pool.mem, s, ptr, w, y, k).Some?
    ensures r != 0 ==> sent == []
    ensures r == 0 ==>
      && |rows| == h && (forall y: nat :: y < h ==> |rows[y]| == w)
      && (forall y: nat, k: nat :: y < h && k < w ==> Pixel(pool.mem, s, ptr, w, y, k) == Some(rows[y][k]))
      && |BlitText(id, pid, w, h, rows)| <= CAPACITY && sent == Wire(BlitText(id, pid, w, h, rows))
  {
    hide Pool.Valid;
    hide Represents;
    hide Pixel;
    hide Pa;
    hide BlitHead;
    hide BlitTail;
    hide RowsText;
    hide Fnv;
    rows, sent := [], [];
    if !mayWrite {
      return ENOCAP, sent, rows;
    }
    if w == 0 || h == 0 || w > BLIT_MAXW || h > BLIT_MAXH {
      return EINVAL, sent, rows;
    }
    BlitHeadSize(id, pid, w, h);
    var f := new FrameBuf();
    var w1 := f.Write(BlitHead(id, pid, w, h));
    assert f.Contents() == BlitHead(id, pid, w, h);
    var ok, checksum;
    ok, checksum, rows := DrawRows(f, space, pool, ptr, w, h, s);
    if !ok {
      return EFAULT, sent, rows;
    }
    BlitFits(id, pid, w, h, rows);
    BlitTailSize(checksum);
    var w2 := f.Write(BlitTail(checksum));
    sent := f.Emit();
    return 0, sent, rows;
  }
}
