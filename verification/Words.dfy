/** Machine words and the bytes and bits inside them.

    The pool is a sequence of 64-bit words. Byte stores and bit-map updates are
    read-modify-write operations on one word, written as digit recursions so that each
    is total, and characterised by what a later read returns. */
module Words {

  const WORD_LIMIT: nat := 0x1_0000_0000_0000_0000

  type Byte = x: int | 0 <= x < 256
  const QUOTE: Byte := 0x22
  const BACKSLASH: Byte := 0x5C

  type Word = x: int | 0 <= x < WORD_LIMIT

  /** 64-bit wrap-around addition, as release-built `usize` arithmetic performs it. */
  function WrapAdd(a: nat, b: nat): (r: nat)
    ensures r < WORD_LIMIT
    ensures a + b < WORD_LIMIT ==> r == a + b
  {
    (a + b) % WORD_LIMIT
  }

  /** A multiple of `size` strictly between `-size` and `size` is 0. */
  lemma WholeSteps(size: int, e: int)
    requires size > 0
    ensures -size < size * e < size ==> e == 0
  {
  }

  /** Quotient and remainder are what they are divided from. */
  lemma DivMod(size: nat, q: nat, r: nat)
    requires r < size
    ensures (size * q + r) / size == q && (size * q + r) % size == r
  {
    var n := size * q + r;
    assert n == size * (n / size) + n % size;
    var e := q - n / size;
    assert size * e == n % size - r;
    WholeSteps(size, e);
  }

  // ---- bytes --------------------------------------------------------------

  /** Byte `k` (little-endian) of `w`. */
  function ByteOf(w: nat, k: nat): Byte {
    if k == 0 then w % 256 else ByteOf(w / 256, k - 1)
  }

  /** `w` with byte `k` replaced by `b`. */
  function PutByte(w: nat, k: nat, b: Byte): nat {
    if k == 0 then w - w % 256 + b else 256 * PutByte(w / 256, k - 1, b) + w % 256
  }

  function Pow256(n: nat): nat {
    if n == 0 then 1 else 256 * Pow256(n - 1)
  }

  lemma {:induction false} PutByteBound(w: nat, k: nat, b: Byte, n: nat)
    requires k < n && w < Pow256(n)
    ensures PutByte(w, k, b) < Pow256(n)
  {
    var hi := Pow256(n - 1);
    assert w / 256 < hi;
    if k > 0 {
      PutByteBound(w / 256, k - 1, b, n - 1);
    }
  }

  /** A byte store changes that byte and no other byte of the word. */
  lemma {:induction false} PutByteReads(w: nat, k: nat, b: Byte, j: nat)
    ensures ByteOf(PutByte(w, k, b), j) == if j == k then b else ByteOf(w, j)
  {
    if k == 0 {
      if j > 0 {
        assert PutByte(w, k, b) / 256 == w / 256;
      }
    } else {
      var p := PutByte(w / 256, k - 1, b);
      assert (256 * p + w % 256) % 256 == w % 256 && (256 * p + w % 256) / 256 == p;
      if j > 0 {
        PutByteReads(w / 256, k - 1, b, j - 1);
      }
    }
  }

  function StoreByte(w: Word, k: nat, b: Byte): (r: Word)
    requires k < 8
    ensures forall j: nat :: j < 8 ==> ByteOf(r, j) == if j == k then b else ByteOf(w, j)
  {
    Pow256Is64Bits();
    PutByteBound(w, k, b, 8);
    forall j: nat | j < 8 ensures ByteOf(PutByte(w, k, b), j) == if j == k then b else ByteOf(w, j) {
      PutByteReads(w, k, b, j);
    }
    PutByte(w, k, b)
  }

  lemma Pow256Is64Bits()
    ensures Pow256(8) == WORD_LIMIT
  {
    assert Pow256(2) == 0x1_0000;
    assert Pow256(4) == 0x1_0000_0000;
    assert Pow256(6) == 0x1_0000_0000_0000;
  }

  /** A word is its bytes, least significant first. */
  lemma WordIsItsBytes(w: Word)
    ensures w == ByteOf(w, 0) + 0x100 * ByteOf(w, 1) + 0x1_0000 * ByteOf(w, 2) + 0x100_0000 * ByteOf(w, 3)
                 + 0x1_0000_0000 * ByteOf(w, 4) + 0x100_0000_0000 * ByteOf(w, 5)
                 + 0x1_0000_0000_0000 * ByteOf(w, 6) + 0x100_0000_0000_0000 * ByteOf(w, 7)
  {
    var a := w / 0x1_0000;
    var b := a / 0x1_0000;
    var c := b / 0x1_0000;
    TwoBytes(w, 2);
    TwoBytes(w, 3);
    TwoBytes(w, 4);
    TwoBytes(w, 5);
    TwoBytes(w, 6);
    TwoBytes(w, 7);
    TwoBytes(a, 2);
    TwoBytes(a, 3);
    TwoBytes(a, 4);
    TwoBytes(a, 5);
    TwoBytes(b, 2);
    TwoBytes(b, 3);
    TwoBytes(c, 2);
    hide ByteOf;
    SmallQuotient(w);
  }

  lemma SmallQuotient(w: Word)
    ensures w / 0x1_0000 / 0x1_0000 / 0x1_0000 / 0x1_0000 == 0
  {
    var a := w / 0x1_0000;
    var b := a / 0x1_0000;
    assert a < 0x1_0000_0000_0000 && b < 0x1_0000_0000;
  }

  lemma TwoBytes(w: nat, k: nat)
    requires k >= 2
    ensures w == 0x1_0000 * (w / 0x1_0000) + ByteOf(w, 0) + 0x100 * ByteOf(w, 1)
    ensures ByteOf(w, k) == ByteOf(w / 0x1_0000, k - 2)
  {
    var w1 := w / 256;
    var w2 := w1 / 256;
    assert ByteOf(w, 1) == ByteOf(w1, 0) && ByteOf(w, k) == ByteOf(w1, k - 1) == ByteOf(w2, k - 2);
    var low := w % 256 + 256 * (w1 % 256);
    assert w == 0x1_0000 * w2 + low;
    DivMod(0x1_0000, w2, low);
  }

  lemma {:induction false} ZeroBytes(k: nat)
    ensures ByteOf(0, k) == 0
  {
    if k > 0 {
      ZeroBytes(k - 1);
    }
  }

  /** The bytes of a word determine it. */
  lemma {:induction false} BytesDetermine(w: nat, x: nat, n: nat)
    requires w < Pow256(n) && x < Pow256(n)
    requires forall k: nat :: k < n ==> ByteOf(w, k) == ByteOf(x, k)
    ensures w == x
  {
    if n > 0 {
      assert ByteOf(w, 0) == ByteOf(x, 0);
      forall k: nat | k < n - 1 ensures ByteOf(w / 256, k) == ByteOf(x / 256, k) {
        assert ByteOf(w, k + 1) == ByteOf(x, k + 1);
      }
      var hi := Pow256(n - 1);
      assert w / 256 < hi && x / 256 < hi;
      BytesDetermine(w / 256, x / 256, n - 1);
    }
  }

  // ---- bits ---------------------------------------------------------------

  function Bit(w: nat, k: nat): bool {
    if k == 0 then w % 2 == 1 else Bit(w / 2, k - 1)
  }

  function WithBit(w: nat, k: nat, on: bool): nat {
    if k == 0 then w - w % 2 + (if on then 1 else 0) else 2 * WithBit(w / 2, k - 1, on) + w % 2
  }

  function Pow2(n: nat): nat {
    if n == 0 then 1 else 2 * Pow2(n - 1)
  }

  lemma Pow2Is64Bits()
    ensures Pow2(64) == WORD_LIMIT
  {
    assert Pow2(8) == 0x100;
    assert Pow2(16) == 0x1_0000;
    assert Pow2(24) == 0x100_0000;
    assert Pow2(32) == 0x1_0000_0000;
    assert Pow2(40) == 0x100_0000_0000;
    assert Pow2(48) == 0x1_0000_0000_0000;
    assert Pow2(56) == 0x100_0000_0000_0000;
  }

  lemma {:induction false} WithBitReads(w: nat, k: nat, on: bool, j: nat)
    ensures Bit(WithBit(w, k, on), j) == if j == k then on else Bit(w, j)
  {
    if k == 0 {
      if j > 0 {
        assert WithBit(w, k, on) / 2 == w / 2;
      }
    } else {
      var p := WithBit(w / 2, k - 1, on);
      assert (2 * p + w % 2) % 2 == w % 2 && (2 * p + w % 2) / 2 == p;
      if j > 0 {
        WithBitReads(w / 2, k - 1, on, j - 1);
      }
    }
  }

  lemma {:induction false} WithBitBound(w: nat, k: nat, on: bool, n: nat)
    requires k < n && w < Pow2(n)
    ensures WithBit(w, k, on) < Pow2(n)
  {
    var hi := Pow2(n - 1);
    assert w / 2 < hi;
    if k > 0 {
      WithBitBound(w / 2, k - 1, on, n - 1);
    }
  }

  /** Setting or clearing bit `k` of a 64-bit word, every other bit kept. */
  function StoreBit(w: Word, k: nat, on: bool): (r: Word)
    requires k < 64
    ensures forall j: nat :: Bit(r, j) == if j == k then on else Bit(w, j)
  {
    Pow2Is64Bits();
    WithBitBound(w, k, on, 64);
    forall j: nat ensures Bit(WithBit(w, k, on), j) == if j == k then on else Bit(w, j) {
      WithBitReads(w, k, on, j);
    }
    WithBit(w, k, on)
  }
}
