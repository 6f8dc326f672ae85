/** Address spaces (kernel/src/mm.rs): mapping, translating, copying and tearing down
    three-level tables that live in pool frames. Every method carries the `Space` its
    table stands for, and is proved against that. */
module PageTables {
  import opened Words
  import opened Pte
  import opened FramePool
  import opened Space

  datatype MmError = NoFrame | Overlap | Unaligned
  datatype MapResult = Ok | Err(error: MmError)

  /** Bytes one entry of a level covers: 4 KiB, 2 MiB, 1 GiB. */
  function EntryBytes(level: nat): nat
    requires level < 3
  {
    if level == 0 then 0x1000 else if level == 1 then 0x20_0000 else 0x4000_0000
  }

  /** `vpn(va, level)`. */
  function VpnIndex(va: nat, level: nat): (i: nat)
    requires level < 3
    ensures i < SLOTS
  {
    va / EntryBytes(level) % SLOTS
  }

  /** The page number the tables are indexed by: bits 12..38 only. */
  function PageOf(va: nat): (v: nat)
    ensures v < VPN_LIMIT
  {
    va / PAGE_SIZE % VPN_LIMIT
  }

  lemma Indices(va: nat)
    ensures VpnIndex(va, 2) == PageOf(va) / SLOTS / SLOTS
    ensures VpnIndex(va, 1) == PageOf(va) / SLOTS % SLOTS
    ensures VpnIndex(va, 0) == PageOf(va) % SLOTS
  {
    var q := va / 4096;
    var a := q / 512;
    var b := a / 512;
    var h, i2, i1, i0 := b / 512, b % 512, a % 512, q % 512;
    assert va == 4096 * q + va % 4096 && q == 512 * a + i0 && a == 512 * b + i1 && b == 512 * h + i2;
    DivMod(0x20_0000, a, 4096 * i0 + va % 4096);
    DivMod(0x4000_0000, b, 0x20_0000 * i1 + 4096 * i0 + va % 4096);
    DivMod(0x800_0000, h, 262144 * i2 + 512 * i1 + i0);
    DivMod(512, 512 * i2 + i1, i0);
    DivMod(512, i2, i1);
  }

  /** Tables that mapping page `v` still has to allocate. */
  function Missing(s: Space, v: nat): nat {
    (if v / SLOTS / SLOTS in s.mids then 0 else 1) + (if v / SLOTS in s.lows then 0 else 1)
  }

  /** From `(m0, u0, s0)` the space only gained tables in fresh frames: no frame in use
      changed except tables of this space. */
  ghost predicate Grown(m0: seq<Frame>, u0: set<nat>, s0: Space, m: seq<Frame>, u: set<nat>, s: Space) {
    && Represents(m, s) && |m0| == POOL_FRAMES
    && s.role.Keys <= u && u0 <= u
    && s.root == s0.root && s.gigas == s0.gigas
    && (forall f :: f in s0.role ==> f in s.role && s.role[f] == s0.role[f])
    && (forall f: nat :: f in u && f !in u0 ==> s.IsTable(f))
    && (forall f: nat :: s.IsTable(f) && f in u0 ==> s0.IsTable(f))
    && (forall f: nat :: f in u0 && f < POOL_FRAMES && !s0.IsTable(f) ==> m[f] == m0[f])
  }

  lemma GrownStart(m: seq<Frame>, u: set<nat>, s: Space)
    requires Represents(m, s) && s.role.Keys <= u
    ensures Grown(m, u, s, m, u, s)
  {
  }

  lemma GrownFacts(m0: seq<Frame>, u0: set<nat>, s0: Space, m: seq<Frame>, u: set<nat>, s: Space)
    requires Grown(m0, u0, s0, m, u, s)
    ensures Represents(m, s) && s.root == s0.root && s.gigas == s0.gigas && s.role.Keys <= u && u0 <= u
  {
    hide Represents;
  }

  lemma GrownByMid(m0: seq<Frame>, u0: set<nat>, s0: Space, m: seq<Frame>, u: set<nat>, s: Space, i: nat, f: nat)
    requires Grown(m0, u0, s0, m, u, s) && f < POOL_FRAMES && f !in u
    requires i < SLOTS && i !in s.mids && i !in s.gigas
    ensures var m1 := m[f := ZeroFrame()];
      Grown(m0, u0, s0, m1[s.root := m1[s.root][i := TablePte(f)]], u + {f}, AddMid(s, i, f))
  {
    hide Represents;
    PathTables(m, s, 0);
    var m1 := m[f := ZeroFrame()];
    RepresentsFrame(m, m1, s);
    AddMidRepresents(m1, s, i, f);
  }

  lemma GrownByLow(m0: seq<Frame>, u0: set<nat>, s0: Space, m: seq<Frame>, u: set<nat>, s: Space, k: nat, f: nat)
    requires Grown(m0, u0, s0, m, u, s) && f < POOL_FRAMES && f !in u
    requires k / SLOTS in s.mids && k !in s.lows
    ensures var m1 := m[f := ZeroFrame()]; var t := s.mids[k / SLOTS];
      Grown(m0, u0, s0, m1[t := m1[t][k % SLOTS := TablePte(f)]], u + {f}, AddLow(s, k, f))
  {
    hide Represents;
    PathTables(m, s, k * SLOTS);
    var m1 := m[f := ZeroFrame()];
    RepresentsFrame(m, m1, s);
    AddLowRepresents(m1, s, k, f);
  }

  lemma GrownByLeaf(m0: seq<Frame>, u0: set<nat>, s0: Space, m: seq<Frame>, u: set<nat>, s: Space, v: nat, leaf: Leaf)
    requires Grown(m0, u0, s0, m, u, s) && v / SLOTS in s.lows && v !in s.leaves
    requires leaf.Owned() ==> leaf.Frame() in u0 && leaf.Frame() !in s.role
    ensures var t := s.lows[v / SLOTS];
      Grown(m0, u0, s0, m[t := m[t][v % SLOTS := LeafPte(leaf)]], u, AddLeaf(s, v, leaf))
  {
    hide Represents;
    PathTables(m, s, v);
    AddLeafRepresents(m, s, v, leaf);
    assert forall f: nat :: AddLeaf(s, v, leaf).IsTable(f) ==> s.IsTable(f);
  }

  /** `table` is the address of the level-`level` table on the path to page `v`. */
  ghost predicate OnPath(s: Space, table: nat, level: nat, v: nat) {
    && (level == 2 ==> table == Pa(s.root))
    && (level == 1 ==> v / SLOTS / SLOTS in s.mids && table == Pa(s.mids[v / SLOTS / SLOTS]))
    && (level == 0 ==> v / SLOTS in s.lows && table == Pa(s.lows[v / SLOTS]))
  }

  lemma PathStart(s: Space, v: nat)
    ensures OnPath(s, Pa(s.root), 2, v)
  {
  }

  /** What the entry for `v` in a table on its path says. */
  lemma PathEntry(m: seq<Frame>, s: Space, table: nat, level: nat, va: nat)
    requires Represents(m, s) && 0 < level < 3 && OnPath(s, table, level, PageOf(va))
    ensures var v := PageOf(va); var pte := ReadPte(m, table + VpnIndex(va, level) * 8);
      && (level == 2 ==> (IsValid(pte) <==> v / SLOTS / SLOTS in s.mids || v / SLOTS / SLOTS in s.gigas))
      && (level == 2 && IsValid(pte) ==> (IsLeaf(pte) <==> v / SLOTS / SLOTS in s.gigas))
      && (level == 1 ==> (IsValid(pte) <==> v / SLOTS in s.lows) && !IsLeaf(pte))
      && (IsValid(pte) && !IsLeaf(pte) ==> OnPath(s, PpnOf(pte) * PAGE_SIZE, level - 1, v))
  {
    Indices(va);
    if level == 2 {
      RootEntry(m, s, PageOf(va) / SLOTS / SLOTS);
    } else {
      MidEntry(m, s, PageOf(va) / SLOTS);
    }
  }

  lemma LeafSlot(m: seq<Frame>, s: Space, table: nat, va: nat, leaf: Leaf)
    requires Represents(m, s) && OnPath(s, table, 0, PageOf(va))
    ensures var v := PageOf(va); var slot := table + VpnIndex(va, 0) * 8;
      && v / SLOTS in s.lows && s.lows[v / SLOTS] < POOL_FRAMES && |m| == POOL_FRAMES
      && (IsValid(ReadPte(m, slot)) <==> v in s.leaves)
      && var t := s.lows[v / SLOTS]; WriteWord(m, slot, LeafPte(leaf)) == m[t := m[t][v % SLOTS := LeafPte(leaf)]]
  {
    Indices(va);
    PathTables(m, s, PageOf(va));
    LowEntry(m, s, PageOf(va));
    PteSlot(m, s.lows[PageOf(va) / SLOTS], PageOf(va) % SLOTS, LeafPte(leaf));
    hide *;
  }

  /** The space after frame `f` became the next table on the path to `v`. */
  function Link(s: Space, level: nat, v: nat, f: nat): Space {
    if level == 2 then AddMid(s, v / SLOTS / SLOTS, f) else AddLow(s, v / SLOTS, f)
  }

  lemma LinkGrown(m0: seq<Frame>, u0: set<nat>, s0: Space, m: seq<Frame>, u: set<nat>, s: Space,
                  table: nat, level: nat, va: nat, f: nat)
    requires Grown(m0, u0, s0, m, u, s) && f < POOL_FRAMES && f !in u
    requires 0 < level < 3 && OnPath(s, table, level, PageOf(va))
    requires !IsValid(ReadPte(m, table + VpnIndex(va, level) * 8))
    ensures |m| == POOL_FRAMES
    ensures Grown(m0, u0, s0,
                  WriteWord(m[f := ZeroFrame()], table + VpnIndex(va, level) * 8, TableWord(BASE_PPN + f)),
                  u + {f}, Link(s, level, PageOf(va), f))
    ensures var s' := Link(s, level, PageOf(va), f);
      && s'.leaves == s.leaves && s'.role.Keys == s.role.Keys + {f}
      && OnPath(s', Pa(f), level - 1, PageOf(va))
      && Missing(s', PageOf(va)) + 1 == Missing(s, PageOf(va))
      && (level == 1 ==> Missing(s', PageOf(va)) == 0)
      && OnlyPath(s, s', PageOf(va))
  {
    hide Represents;
    hide Grown;
    hide VpnIndex;
    hide PageOf;
    hide ReadPte;
    hide WriteWord;
    hide IsLeaf;
    hide IsValid;
    var v := PageOf(va);
    GrownFacts(m0, u0, s0, m, u, s);
    PathTables(m, s, v);
    var m1 := m[f := ZeroFrame()];
    PathEntry(m, s, table, level, va);
    Indices(va);
    if level == 2 {
      PteSlot(m1, s.root, v / SLOTS / SLOTS, TableWord(BASE_PPN + f));
      GrownByMid(m0, u0, s0, m, u, s, v / SLOTS / SLOTS, f);
    } else {
      PteSlot(m1, s.mids[v / SLOTS / SLOTS], v / SLOTS % SLOTS, TableWord(BASE_PPN + f));
      GrownByLow(m0, u0, s0, m, u, s, v / SLOTS, f);
    }
  }

  /** New tables lie on the path to page `v`. */
  ghost predicate OnlyPath(s: Space, s': Space, v: nat) {
    && (forall i :: i in s'.mids ==> i in s.mids || i == v / SLOTS / SLOTS)
    && (forall k :: k in s'.lows ==> k in s.lows || k == v / SLOTS)
  }

  /** State of the walk down to page `v`: `grew` are the frames that became tables, and
      every one allocated is one fewer missing. */
  ghost predicate Walking(m0: seq<Frame>, u0: set<nat>, live0: nat, s0: Space,
                          m: seq<Frame>, u: set<nat>, live: nat, s: Space, grew: set<nat>, table: nat, level: nat, v: nat) {
    && level <= 2 && OnPath(s, table, level, v)
    && Grown(m0, u0, s0, m, u, s) && OnlyPath(s0, s, v)
    && s.leaves == s0.leaves && s.role.Keys == s0.role.Keys + grew
    && u == u0 + grew && grew !! u0
    && live + Missing(s, v) == live0 + Missing(s0, v) && live0 <= live
    && (level == 2 ==> s == s0 && live == live0)
    && (level < 2 ==> v / SLOTS / SLOTS !in s0.gigas)
    && (level == 0 ==> Missing(s, v) == 0)
  }

  lemma WalkStart(m: seq<Frame>, u: set<nat>, live: nat, s: Space, v: nat)
    requires Represents(m, s) && s.role.Keys <= u
    ensures Walking(m, u, live, s, m, u, live, s, {}, Pa(s.root), 2, v)
  {
    hide Represents;
    hide Grown;
    GrownStart(m, u, s);
    PathStart(s, v);
  }

  lemma WalkFacts(m0: seq<Frame>, u0: set<nat>, live0: nat, s0: Space,
                  m: seq<Frame>, u: set<nat>, live: nat, s: Space, grew: set<nat>, table: nat, level: nat, v: nat)
    requires Walking(m0, u0, live0, s0, m, u, live, s, grew, table, level, v)
    ensures level <= 2 && Represents(m, s) && s.role.Keys <= u && OnPath(s, table, level, v) && s.gigas == s0.gigas && s.leaves == s0.leaves
    ensures Grown(m0, u0, s0, m, u, s) && OnlyPath(s0, s, v) && s.role.Keys == s0.role.Keys + grew && u == u0 + grew && grew !! u0
    ensures live0 <= live <= live0 + 2
  {
    hide Represents;
    hide OnPath;
  }

  /** An existing table is stepped into. */
  lemma WalkDown(m0: seq<Frame>, u0: set<nat>, live0: nat, s0: Space,
                 m: seq<Frame>, u: set<nat>, live: nat, s: Space, grew: set<nat>, table: nat, level: nat, va: nat)
    requires Walking(m0, u0, live0, s0, m, u, live, s, grew, table, level, PageOf(va)) && level > 0 && |m| == POOL_FRAMES
    requires var pte := ReadPte(m, table + VpnIndex(va, level) * 8); IsValid(pte) && !IsLeaf(pte)
    ensures Walking(m0, u0, live0, s0, m, u, live, s, grew, PpnOf(ReadPte(m, table + VpnIndex(va, level) * 8)) * PAGE_SIZE, level - 1, PageOf(va))
  {
    hide Represents;
    hide VpnIndex;
    hide PageOf;
    hide ReadPte;
    hide IsLeaf;
    hide IsValid;
    hide PpnOf;
    WalkFacts(m0, u0, live0, s0, m, u, live, s, grew, table, level, PageOf(va));
    hide Grown;
    PathEntry(m, s, table, level, va);
    GigaOrTable(m, s, PageOf(va) / SLOTS / SLOTS);
  }

  lemma GigaOrTable(m: seq<Frame>, s: Space, i: nat)
    requires Represents(m, s)
    ensures i in s.mids ==> i !in s.gigas
  {
  }

  /** A frame becomes the next table. */
  lemma WalkLink(m0: seq<Frame>, u0: set<nat>, live0: nat, s0: Space,
                 m: seq<Frame>, u: set<nat>, live: nat, s: Space, grew: set<nat>, table: nat, level: nat, va: nat, f: nat)
    requires Walking(m0, u0, live0, s0, m, u, live, s, grew, table, level, PageOf(va)) && level > 0 && |m| == POOL_FRAMES
    requires !IsValid(ReadPte(m, table + VpnIndex(va, level) * 8)) && f < POOL_FRAMES && f !in u
    ensures Walking(m0, u0, live0, s0,
                    WriteWord(m[f := ZeroFrame()], table + VpnIndex(va, level) * 8, TableWord(BASE_PPN + f)),
                    u + {f}, live + 1, Link(s, level, PageOf(va), f), grew + {f}, Pa(f), level - 1, PageOf(va))
  {
    hide Represents;
    hide Grown;
    hide VpnIndex;
    hide PageOf;
    hide ReadPte;
    hide WriteWord;
    hide IsValid;
    WalkFacts(m0, u0, live0, s0, m, u, live, s, grew, table, level, PageOf(va));
    PathEntry(m, s, table, level, va);
    hide OnPath;
    hide Missing;
    LinkGrown(m0, u0, s0, m, u, s, table, level, va, f);
    assert u + {f} == u0 + (grew + {f});
  }

  /** `struct AddressSpace`: a handle, the physical address of the root table. */
  datatype AddressSpace = AddressSpace(root: nat)

  /** `map_page`: insertion into the page map. The three outcomes are characterised
      exactly; a failure leaves every mapping as it was and any table already linked
      still owned. */
  method MapPage(space: AddressSpace, pool: Pool, va: nat, pa: nat, perms: Perms, ghost s: Space)
    returns (r: MapResult, ghost s': Space, ghost grew: set<nat>)
    requires pool.Valid() && Represents(pool.mem, s) && s.role.Keys <= pool.used && space.root == Pa(s.root)
    requires pa / PAGE_SIZE < PPN_LIMIT
    requires var leaf := Leaf(pa / PAGE_SIZE, perms);
      leaf.Owned() ==> leaf.Frame() in pool.used && leaf.Frame() !in s.role
    modifies pool
    ensures pool.Valid()
    ensures Grown(old(pool.mem), old(pool.used), s, pool.mem, pool.used, s') && OnlyPath(s, s', PageOf(va))
    ensures r == Err(Overlap) <==> PageOf(va) / SLOTS / SLOTS in s.gigas || PageOf(va) in s.leaves
    ensures r == Err(NoFrame) <==>
      r != Err(Overlap) && POOL_FRAMES - old(pool.liveCount) < Missing(s, PageOf(va))
    ensures r == Ok || r == Err(Overlap) || r == Err(NoFrame)
    ensures var leaf := Leaf(pa / PAGE_SIZE, perms);
      if r == Ok
      then s'.leaves == s.leaves[PageOf(va) := leaf]
           && s'.role.Keys == s.role.Keys + grew + (if leaf.Owned() then {leaf.Frame()} else {})
      else s'.leaves == s.leaves && s'.role.Keys == s.role.Keys + grew
    ensures pool.used == old(pool.used) + grew && grew !! old(pool.used)
    ensures r == Err(NoFrame) ==> pool.liveCount == POOL_FRAMES && Missing(s', PageOf(va)) > 0
    ensures old(pool.liveCount) <= pool.liveCount <= old(pool.liveCount) + 2
  {
    hide Represents;
    hide Grown;
    hide OnPath;
    hide OnlyPath;
    hide Walking;
    hide Missing;
    hide Pool.Valid;
    hide VpnIndex;
    hide PageOf;
    hide ReadPte;
    hide WriteWord;
    hide IsLeaf;
    hide IsValid;
    hide PpnOf;
    hide Pa;
    ghost var v := PageOf(va);
    ghost var leaf := Leaf(pa / PAGE_SIZE, perms);
    ghost var m0, u0, live0 := pool.mem, pool.used, pool.liveCount;
    WalkStart(m0, u0, live0, s, v);
    s', grew := s, {};
    var table: nat := space.root;
    var level: nat := 2;
    while level > 0
      invariant pool.Valid() && Walking(m0, u0, live0, s, pool.mem, pool.used, pool.liveCount, s', grew, table, level, v)
      decreases level
    {
      var slot := table + VpnIndex(va, level) * 8;
      var pte := ReadPte(pool.mem, slot);
      WalkFacts(m0, u0, live0, s, pool.mem, pool.used, pool.liveCount, s', grew, table, level, v);
      WalkStops(m0, u0, live0, s, pool.mem, pool.used, pool.liveCount, s', grew, table, level, va);
      if !IsValid(pte) {
        var next;
        next, s', grew := LinkTable(pool, table, level, va, m0, u0, live0, s, s', grew);
        if next.None? {
          return Err(NoFrame), s', grew;
        }
        table := next.value;
      } else if IsLeaf(pte) {
        return Err(Overlap), s', grew;
      } else {
        WalkDown(m0, u0, live0, s, pool.mem, pool.used, pool.liveCount, s', grew, table, level, va);
        table := PpnOf(pte) * PAGE_SIZE;
      }
      level := level - 1;
    }
    var slot := table + VpnIndex(va, 0) * 8;
    WalkFacts(m0, u0, live0, s, pool.mem, pool.used, pool.liveCount, s', grew, table, level, v);
    WalkEnds(m0, u0, live0, s, pool.mem, pool.used, pool.liveCount, s', grew, table, v);
    LeafSlot(pool.mem, s', table, va, leaf);
    LiveBound(pool);
    if IsValid(ReadPte(pool.mem, slot)) {
      return Err(Overlap), s', grew;
    }
    GrownByLeaf(m0, u0, s, pool.mem, pool.used, s', v, leaf);
    pool.WritePte(slot, LeafWord(pa / PAGE_SIZE, perms));
    LeafKeepsPath(s, s', v, leaf);
    s' := AddLeaf(s', v, leaf);
    return Ok, s', grew;
  }

  lemma LiveBound(pool: Pool)
    requires pool.Valid()
    ensures pool.liveCount <= POOL_FRAMES
  {
    AtMostAllFrames(pool.used);
  }

  lemma LeafKeepsPath(s: Space, s': Space, v: nat, leaf: Leaf)
    requires OnlyPath(s, s', v) && v / SLOTS in s'.lows && v !in s'.leaves
    ensures OnlyPath(s, AddLeaf(s', v, leaf), v)
    ensures AddLeaf(s', v, leaf).leaves == s'.leaves[v := leaf]
    ensures AddLeaf(s', v, leaf).role.Keys == s'.role.Keys + if leaf.Owned() then {leaf.Frame()} else {}
  {
  }

  /** What an entry on the way down says about the page. */
  lemma WalkStops(m0: seq<Frame>, u0: set<nat>, live0: nat, s0: Space,
                  m: seq<Frame>, u: set<nat>, live: nat, s: Space, grew: set<nat>, table: nat, level: nat, va: nat)
    requires Walking(m0, u0, live0, s0, m, u, live, s, grew, table, level, PageOf(va)) && level > 0 && |m| == POOL_FRAMES
    ensures var pte := ReadPte(m, table + VpnIndex(va, level) * 8);
      && (!IsValid(pte) ==> PageOf(va) !in s0.leaves && PageOf(va) / SLOTS / SLOTS !in s0.gigas && Missing(s, PageOf(va)) > 0
                            && live + Missing(s, PageOf(va)) == live0 + Missing(s0, PageOf(va)))
      && (IsValid(pte) && IsLeaf(pte) ==> PageOf(va) / SLOTS / SLOTS in s0.gigas)
  {
    hide Represents;
    hide VpnIndex;
    hide PageOf;
    hide ReadPte;
    hide IsLeaf;
    hide IsValid;
    hide PpnOf;
    WalkFacts(m0, u0, live0, s0, m, u, live, s, grew, table, level, PageOf(va));
    hide Grown;
    PathEntry(m, s, table, level, va);
    PathTables(m, s, PageOf(va));
  }

  lemma WalkEnds(m0: seq<Frame>, u0: set<nat>, live0: nat, s0: Space,
                 m: seq<Frame>, u: set<nat>, live: nat, s: Space, grew: set<nat>, table: nat, v: nat)
    requires Walking(m0, u0, live0, s0, m, u, live, s, grew, table, 0, v)
    ensures v / SLOTS / SLOTS !in s0.gigas && live == live0 + Missing(s0, v)
  {
    hide Represents;
    hide Grown;
  }

  /** The allocating branch of the walk: a zeroed frame becomes the next table. */
  method LinkTable(pool: Pool, table: nat, level: nat, va: nat,
                   ghost m0: seq<Frame>, ghost u0: set<nat>, ghost live0: nat, ghost s0: Space, ghost s: Space, ghost grew: set<nat>)
    returns (next: Option<nat>, ghost s': Space, ghost grew': set<nat>)
    requires pool.Valid() && Walking(m0, u0, live0, s0, pool.mem, pool.used, pool.liveCount, s, grew, table, level, PageOf(va)) && 0 < level < 3
    requires !IsValid(ReadPte(pool.mem, table + VpnIndex(va, level) * 8))
    modifies pool
    ensures pool.Valid()
    ensures next.None? ==>
      && s' == s && grew' == grew && pool.mem == old(pool.mem) && pool.used == old(pool.used)
      && pool.liveCount == old(pool.liveCount) == POOL_FRAMES
    ensures next.Some? ==> Walking(m0, u0, live0, s0, pool.mem, pool.used, pool.liveCount, s', grew', next.value, level - 1, PageOf(va))
  {
    hide Walking;
    hide Pool.Valid;
    hide VpnIndex;
    hide PageOf;
    hide ReadPte;
    hide WriteWord;
    ghost var m, u, live := pool.mem, pool.used, pool.liveCount;
    s', grew' := s, grew;
    next := pool.Alloc();
    if next.Some? {
      ghost var f := FrameAt(next.value);
      PoolPpn(f);
      WalkLink(m0, u0, live0, s0, m, u, live, s, grew, table, level, va, f);
      pool.WritePte(table + VpnIndex(va, level) * 8, TableWord(next.value / PAGE_SIZE));
      s', grew' := Link(s, level, PageOf(va), f), grew + {f};
    } else {
      LiveBound(pool);
    }
  }

  // ---- creating -----------------------------------------------------------

  /** `AddressSpace::new`: a zeroed root table. */
  method New(pool: Pool) returns (r: Option<AddressSpace>, ghost s: Space)
    requires pool.Valid()
    modifies pool
    ensures pool.Valid()
    ensures r.Some? <==> old(pool.liveCount) < POOL_FRAMES
    ensures r.None? ==> pool.mem == old(pool.mem) && pool.used == old(pool.used) && pool.liveCount == old(pool.liveCount)
    ensures r.Some? ==>
      && r.value.root == Pa(s.root) && s == NewSpace(s.root) && s.root < POOL_FRAMES && s.root !in old(pool.used)
      && Represents(pool.mem, s)
      && pool.used == old(pool.used) + {s.root} && pool.liveCount == old(pool.liveCount) + 1
      && pool.mem == old(pool.mem)[s.root := ZeroFrame()]
  {
    hide Represents;
    hide Pool.Valid;
    var root := pool.Alloc();
    s := NewSpace(0);
    if root.None? {
      return None, s;
    }
    s := NewSpace(FrameAt(root.value));
    NewRepresents(pool.mem, s.root);
    return Some(AddressSpace(root.value)), s;
  }

  /** `map_gigapage`, for the supervisor leaves it is used for. */
  method MapGigapage(space: AddressSpace, pool: Pool, va: nat, pa: nat, perms: Perms, ghost s: Space)
    returns (r: MapResult, ghost s': Space)
    requires pool.Valid() && Represents(pool.mem, s) && s.role.Keys <= pool.used && space.root == Pa(s.root)
    requires pa / PAGE_SIZE < PPN_LIMIT && perms.Live() && !perms.u
    modifies pool`mem
    ensures pool.Valid()
    ensures r == Err(Unaligned) <==> va % 0x4000_0000 != 0 || pa % 0x4000_0000 != 0
    ensures r == Err(Overlap) <==>
      r != Err(Unaligned) && (VpnIndex(va, 2) in s.gigas || VpnIndex(va, 2) in s.mids)
    ensures r == Ok || r == Err(Unaligned) || r == Err(Overlap)
    ensures s' == if r == Ok then AddGiga(s, VpnIndex(va, 2), Leaf(pa / PAGE_SIZE, perms)) else s
    ensures Represents(pool.mem, s')
    ensures forall f: nat :: f < POOL_FRAMES && f != s.root ==> pool.mem[f] == old(pool.mem)[f]
  {
    hide Represents;
    hide Pool.Valid;
    hide ReadPte;
    hide WriteWord;
    hide VpnIndex;
    hide LeafWord;
    hide IsValid;
    TreeFrames(pool.mem, s);
    if va % 0x4000_0000 != 0 || pa % 0x4000_0000 != 0 {
      return Err(Unaligned), s;
    }
    var slot := space.root + VpnIndex(va, 2) * 8;
    RootEntry(pool.mem, s, VpnIndex(va, 2));
    if IsValid(ReadPte(pool.mem, slot)) {
      return Err(Overlap), s;
    }
    ghost var leaf := Leaf(pa / PAGE_SIZE, perms);
    AddGigaRepresents(pool.mem, s, VpnIndex(va, 2), leaf);
    PteSlot(pool.mem, s.root, VpnIndex(va, 2), LeafPte(leaf));
    pool.WritePte(slot, LeafWord(pa / PAGE_SIZE, perms));
    return Ok, AddGiga(s, VpnIndex(va, 2), leaf);
  }

  const KERNEL_SLOT: nat := 2

  /** The identity map of kernel RAM: supervisor, so never reachable from U-mode. */
  const KERNEL_LEAF: Leaf := Leaf(0x8_0000, Perms(true, true, true, false, true))

  /** `map_kernel` on a fresh space cannot fail. */
  method MapKernel(space: AddressSpace, pool: Pool, ghost s: Space) returns (r: MapResult, ghost s': Space)
    requires pool.Valid() && Represents(pool.mem, s) && s.role.Keys <= pool.used && space.root == Pa(s.root)
    modifies pool`mem
    ensures pool.Valid()
    ensures r == Ok <==> KERNEL_SLOT !in s.gigas && KERNEL_SLOT !in s.mids
    ensures s' == if r == Ok then AddGiga(s, KERNEL_SLOT, KERNEL_LEAF) else s
    ensures Represents(pool.mem, s')
    ensures forall f: nat :: f < POOL_FRAMES && f != s.root ==> pool.mem[f] == old(pool.mem)[f]
  {
    hide Represents;
    hide Pool.Valid;
    assert VpnIndex(0x8000_0000, 2) == KERNEL_SLOT;
    r, s' := MapGigapage(space, pool, 0x8000_0000, 0x8000_0000, Perms(true, true, true, false, true), s);
  }

  /** A fresh space that holds only the kernel gigapage. */
  ghost predicate KernelOnly(s: Space) {
    s.leaves == map[] && s.mids == map[] && s.lows == map[] && s.gigas == map[KERNEL_SLOT := KERNEL_LEAF] && s.role.Keys == {s.root}
  }

  /** `AddressSpace::new` and `map_kernel`, as every user space begins. */
  method NewUserSpace(pool: Pool) returns (r: Option<AddressSpace>, ghost s: Space)
    requires pool.Valid()
    modifies pool
    ensures pool.Valid()
    ensures r.Some? <==> old(pool.liveCount) < POOL_FRAMES
    ensures r.None? ==> pool.mem == old(pool.mem) && pool.used == old(pool.used) && pool.liveCount == old(pool.liveCount)
    ensures r.Some? ==>
      && r.value.root == Pa(s.root) && Represents(pool.mem, s) && KernelOnly(s)
      && s.root < POOL_FRAMES && s.root !in old(pool.used) && pool.used == old(pool.used) + {s.root}
      && pool.liveCount == old(pool.liveCount) + 1
      && forall f: nat :: f < POOL_FRAMES && f != s.root ==> pool.mem[f] == old(pool.mem)[f]
  {
    hide Represents;
    hide Pool.Valid;
    hide Pa;
    r, s := New(pool);
    if r.Some? {
      PathTables(pool.mem, s, 0);
      var k; // a fresh root has slot 2 free, so this cannot fail
      k, s := MapKernel(r.value, pool, s);
    }
  }
}
