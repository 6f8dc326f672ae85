/** Saved trap frames (kernel/src/traps.rs): 33 words at the start of a pool frame, x1..x31,
    sepc and sstatus, in the order the trap vector restores them. */
module TrapFrame {
  import opened Words
  import opened FramePool
  import opened Machine
  import opened Estate

  /** `save_frame_to`: serialise a trap frame into the frame at `pa`, overriding a0. */
  method SaveFrame(pool: Pool, pa: nat, frame: Regs, a0: Word, ghost f: nat)
    requires pool.Valid() && f < POOL_FRAMES && pa == Pa(f) && |frame.gpr| == 31
    modifies pool`mem
    ensures pool.Valid()
    ensures pool.mem == old(pool.mem)[f := pool.mem[f]]
    ensures RegsAt(pool.mem[f]) == WithA0(frame, a0)
    ensures forall k: nat :: k < 31 ==> pool.mem[f][k] == if k == 9 then a0 else frame.gpr[k]
    ensures pool.mem[f][31] == frame.sepc && pool.mem[f][32] == frame.sstatus
  {
    hide Pool.Valid;
    hide Pa;
    hide WriteWord;
    for i := 0 to 31
      invariant pool.Valid() && pool.mem == old(pool.mem)[f := pool.mem[f]]
      invariant forall j: nat :: j < i ==> pool.mem[f][j] == frame.gpr[j]
    {
      PteSlot(pool.mem, f, i, frame.gpr[i]);
      pool.WritePte(pa + i * 8, frame.gpr[i]);
    }
    PteSlot(pool.mem, f, X_A0, a0);
    pool.WritePte(pa + X_A0 * 8, a0);
    PteSlot(pool.mem, f, 31, frame.sepc);
    pool.WritePte(pa + 31 * 8, frame.sepc);
    PteSlot(pool.mem, f, 32, frame.sstatus);
    pool.WritePte(pa + 32 * 8, frame.sstatus);
  }

  /** `init_frame_to`: the frame a fresh payload starts from. Only sepc and sstatus are
      written; the registers are zero because the frame is. */
  method InitFrame(pool: Pool, pa: nat, entry: Word, ghost f: nat)
    requires pool.Valid() && f < POOL_FRAMES && pa == Pa(f) && pool.mem[f] == ZeroFrame()
    modifies pool`mem
    ensures pool.Valid()
    ensures pool.mem == old(pool.mem)[f := pool.mem[f]]
    ensures RegsAt(pool.mem[f]) == FreshRegs(entry)
    ensures pool.mem[f][31] == entry && pool.mem[f][32] == 32 && forall k: nat :: k < 31 ==> pool.mem[f][k] == 0
  {
    hide Pool.Valid;
    hide Pa;
    hide WriteWord;
    PteSlot(pool.mem, f, 31, entry);
    pool.WritePte(pa + 31 * 8, entry);
    PteSlot(pool.mem, f, 32, 32);
    pool.WritePte(pa + 32 * 8, 32);
  }
}
