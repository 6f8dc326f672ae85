/** Sv39 page-table entries (kernel/src/mm.rs): flag bits 0-7, a 44-bit physical page
    number at bit 10. The flag groups do not overlap, so the source's `|` is addition and
    its `&` picks single bits. */
module Pte {
  import opened Words

  const PAGE_SIZE: nat := 4096
  const PPN_LIMIT: nat := 0x1000_0000_0000
  const SLOTS: nat := 512

  /** The permission bits a caller passes in; V, A and D are added by `LeafWord`. */
  datatype Perms = Perms(r: bool, w: bool, x: bool, u: bool, g: bool) {
    /** `perms & PERM_MASK != 0`: what makes an entry a leaf. */
    predicate Live() { r || w || x }
  }

  type Ppn = p: int | 0 <= p < PPN_LIMIT

  function FlagIf(on: bool, bit: nat): nat { if on then bit else 0 }

  function LeafWord(ppn: Ppn, p: Perms): Word {
    ppn * 1024 + FlagIf(p.r, 2) + FlagIf(p.w, 4) + FlagIf(p.x, 8) + FlagIf(p.u, 16) + FlagIf(p.g, 32)
    + 1 + 64 + 128
  }

  function TableWord(ppn: Ppn): Word {
    ppn * 1024 + 1
  }

  predicate IsValid(pte: Word) { Bit(pte, 0) }

  predicate IsLeaf(pte: Word) { Bit(pte, 1) || Bit(pte, 2) || Bit(pte, 3) }

  predicate IsUser(pte: Word) { Bit(pte, 4) }

  function PpnOf(pte: Word): Ppn { pte / 1024 % PPN_LIMIT }

  function PermsOf(pte: Word): Perms {
    Perms(Bit(pte, 1), Bit(pte, 2), Bit(pte, 3), Bit(pte, 4), Bit(pte, 5))
  }

  function Cons(b: bool, rest: nat): nat { 2 * rest + FlagIf(b, 1) }

  lemma ConsBits(b: bool, rest: nat)
    ensures Bit(Cons(b, rest), 0) == b
    ensures forall k: nat :: 0 < k ==> Bit(Cons(b, rest), k) == Bit(rest, k - 1)
  {
    assert Cons(b, rest) % 2 == FlagIf(b, 1) && Cons(b, rest) / 2 == rest;
  }

  lemma SixFlags(b0: bool, b1: bool, b2: bool, b3: bool, b4: bool, b5: bool, rest: nat)
    ensures var w := Cons(b0, Cons(b1, Cons(b2, Cons(b3, Cons(b4, Cons(b5, rest))))));
      Bit(w, 0) == b0 && Bit(w, 1) == b1 && Bit(w, 2) == b2 && Bit(w, 3) == b3 && Bit(w, 4) == b4 && Bit(w, 5) == b5
  {
    var w5 := Cons(b5, rest);
    var w4 := Cons(b4, w5);
    var w3 := Cons(b3, w4);
    var w2 := Cons(b2, w3);
    var w1 := Cons(b1, w2);
    ConsBits(b5, rest);
    ConsBits(b4, w5);
    ConsBits(b3, w4);
    ConsBits(b2, w3);
    ConsBits(b1, w2);
    ConsBits(b0, w1);
  }

  lemma PpnReadsBack(w: Word, ppn: Ppn, lo: nat)
    requires w == 1024 * ppn + lo && lo < 1024
    ensures PpnOf(w) == ppn
  {
  }

  /** Every field of a leaf reads back; it is a leaf to the walkers only when one of
      R, W, X is set. */
  lemma LeafReadsBack(ppn: Ppn, p: Perms)
    ensures IsValid(LeafWord(ppn, p))
    ensures IsLeaf(LeafWord(ppn, p)) <==> p.Live()
    ensures IsUser(LeafWord(ppn, p)) <==> p.u
    ensures PpnOf(LeafWord(ppn, p)) == ppn
    ensures PermsOf(LeafWord(ppn, p)) == p
  {
    SixFlags(true, p.r, p.w, p.x, p.u, p.g, 16 * ppn + 3);
    PpnReadsBack(LeafWord(ppn, p), ppn, LeafWord(ppn, p) - 1024 * ppn);
    assert LeafWord(ppn, p)
        == Cons(true, Cons(p.r, Cons(p.w, Cons(p.x, Cons(p.u, Cons(p.g, 16 * ppn + 3))))));
  }

  /** The layout of a leaf: V at bit 0, then R, W, X, U, G, with A and D always set, and the
      page number from bit 10 on. */
  lemma LeafBits(ppn: Ppn, p: Perms)
    ensures var w := LeafWord(ppn, p);
      && w % 2 == 1 && (w / 2 % 2 == 1 <==> p.r) && (w / 4 % 2 == 1 <==> p.w) && (w / 8 % 2 == 1 <==> p.x)
      && (w / 16 % 2 == 1 <==> p.u) && (w / 32 % 2 == 1 <==> p.g) && w / 64 % 16 == 3 && w / 1024 == ppn
  {
    var br, bw, bx, bu, bg := FlagIf(p.r, 1), FlagIf(p.w, 1), FlagIf(p.x, 1), FlagIf(p.u, 1), FlagIf(p.g, 1);
    SixBits(br, bw, bx, bu, bg, 16 * ppn + 3, LeafWord(ppn, p));
    DigitAt(64, 16, ppn, 3, LeafWord(ppn, p) - 1024 * ppn - 192);
    DivMod(1024, ppn, LeafWord(ppn, p) - 1024 * ppn);
  }

  lemma SixBits(r: nat, w: nat, x: nat, u: nat, g: nat, high: nat, pte: nat)
    requires r <= 1 && w <= 1 && x <= 1 && u <= 1 && g <= 1
    requires pte == 64 * high + 32 * g + 16 * u + 8 * x + 4 * w + 2 * r + 1
    ensures pte % 2 == 1 && pte / 2 % 2 == r && pte / 4 % 2 == w && pte / 8 % 2 == x && pte / 16 % 2 == u && pte / 32 % 2 == g
  {
    BitIs(pte, 1, 32 * high + 16 * g + 8 * u + 4 * x + 2 * w + r, 1, 0);
    BitIs(pte, 2, 16 * high + 8 * g + 4 * u + 2 * x + w, r, 1);
    BitIs(pte, 4, 8 * high + 4 * g + 2 * u + x, w, 2 * r + 1);
    BitIs(pte, 8, 4 * high + 2 * g + u, x, 4 * w + 2 * r + 1);
    BitIs(pte, 16, 2 * high + g, u, 8 * x + 4 * w + 2 * r + 1);
    BitIs(pte, 32, high, g, 16 * u + 8 * x + 4 * w + 2 * r + 1);
  }

  lemma BitIs(pte: nat, size: nat, q: nat, d: nat, low: nat)
    requires low < size && d < 2 && pte == size * (2 * q + d) + low
    ensures pte / size % 2 == d
  {
    DigitAt(size, 2, q, d, low);
  }

  /** The digit in base `base` at weight `size`. */
  lemma DigitAt(size: nat, base: nat, q: nat, d: nat, low: nat)
    requires low < size && d < base
    ensures (size * (base * q + d) + low) / size % base == d
  {
    DivMod(size, base * q + d, low);
    DivMod(base, q, d);
  }

  /** A table entry: V alone, and the page number from bit 10 on. */
  lemma TableBits(ppn: Ppn)
    ensures TableWord(ppn) % 1024 == 1 && TableWord(ppn) / 1024 == ppn
  {
  }

  /** The walkers' tests look at those bits. */
  lemma PteTests(w: Word)
    ensures IsValid(w) <==> w % 2 == 1
    ensures IsLeaf(w) <==> w / 2 % 2 == 1 || w / 4 % 2 == 1 || w / 8 % 2 == 1
    ensures IsUser(w) <==> w / 16 % 2 == 1
    ensures PpnOf(w) == w / 1024 % 0x1000_0000_0000
  {
    Halves(w);
    var w1, w2, w3, w4 := w / 2, w / 4, w / 8, w / 16;
    assert Bit(w, 1) == Bit(w1, 0) && Bit(w, 2) == Bit(w1, 1) && Bit(w, 3) == Bit(w1, 2) && Bit(w, 4) == Bit(w1, 3);
    assert Bit(w1, 1) == Bit(w2, 0) && Bit(w1, 2) == Bit(w2, 1) && Bit(w1, 3) == Bit(w2, 2);
    assert Bit(w2, 1) == Bit(w3, 0) && Bit(w2, 2) == Bit(w3, 1) && Bit(w3, 1) == Bit(w4, 0);
  }

  lemma Halves(w: nat)
    ensures w / 2 / 2 == w / 4 && w / 4 / 2 == w / 8 && w / 8 / 2 == w / 16
  {
  }

  lemma TableReadsBack(ppn: Ppn)
    ensures IsValid(TableWord(ppn)) && !IsLeaf(TableWord(ppn)) && PpnOf(TableWord(ppn)) == ppn
  {
    var w := TableWord(ppn);
    PpnReadsBack(w, ppn, 1);
    var w1 := 512 * ppn;
    assert w == Cons(true, w1) && w1 == Cons(false, 256 * ppn);
    assert 256 * ppn == Cons(false, 128 * ppn) && 128 * ppn == Cons(false, 64 * ppn);
    ConsBits(true, w1);
    ConsBits(false, 256 * ppn);
    ConsBits(false, 128 * ppn);
    ConsBits(false, 64 * ppn);
  }
}
