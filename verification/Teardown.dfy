/** Tearing an address space down (kernel/src/mm.rs, `destroy` and `free_subtree`).

    The recursion frees frames in page order, each table after everything under it.
    `FreeTime` is that order; the loops' invariants say that exactly the frames whose time
    has come are gone. */
module Teardown {
  import opened Words
  import opened Pte
  import opened FramePool
  import opened Space
  import opened PageTables
  import opened Census

  /** Pages under a whole table of a level. */
  function Width(level: nat): nat
    requires level < 3
  {
    if level == 0 then 512 else if level == 1 then 262144 else 0x800_0000
  }

  /** Pages under one entry of a table of a level. */
  function EntryWidth(level: nat): nat
    requires level < 3
  {
    if level == 0 then 1 else if level == 1 then 512 else 262144
  }

  /** Four ticks per page: its data frame, then the tables that end with it. */
  function FreeTime(r: Role): nat {
    match r
    case DataPage(v) => 4 * v
    case LowTable(k) => 4 * (512 * k + 511) + 1
    case MidTable(i) => 4 * (262144 * i + 262143) + 2
    case RootTable => 4 * 0x7ff_ffff + 3
  }

  ghost function Freed(s: Space, t: nat): set<nat> {
    set f | f in s.role && FreeTime(s.role[f]) < t
  }

  lemma FreedSame(s: Space, t: nat, t': nat)
    requires t <= t'
    requires forall f :: f in s.role ==> !(t <= FreeTime(s.role[f]) < t')
    ensures Freed(s, t) == Freed(s, t')
  {
  }

  lemma FreedOne(s: Space, t: nat, f: nat)
    requires f in s.role && FreeTime(s.role[f]) == t
    requires forall g :: g in s.role && FreeTime(s.role[g]) == t ==> g == f
    ensures Freed(s, t + 1) == Freed(s, t) + {f}
  {
  }

  lemma FreedAll(m: seq<Frame>, s: Space)
    requires Represents(m, s)
    ensures Freed(s, 4 * 0x7ff_ffff + 4) == s.role.Keys
  {
    forall f | f in s.role
      ensures FreeTime(s.role[f]) < 4 * 0x7ff_ffff + 4
    {
      assert RoleHolds(s, f);
    }
  }

  lemma FreedNone(s: Space)
    requires forall f :: f in s.role ==> f >= 0
    ensures Freed(s, 0) == {}
  {
  }

  /** Time reached when entry `j` of the table covering pages from `key * Width(level)` is next. */
  function Mark(level: nat, key: nat, j: nat): nat
    requires level < 3 && j <= SLOTS
  {
    if j < SLOTS then 4 * (key * Width(level) + EntryWidth(level) * j)
    else 4 * (key * Width(level) + Width(level) - 1) + level + 1
  }

  /** Is there a subtree, or an owned page, under entry `e` of a level? */
  predicate Present(s: Space, level: nat, e: nat) {
    match level
    case 0 => e in s.leaves && s.leaves[e].Owned()
    case 1 => e in s.lows
    case _ => e in s.mids
  }

  /** Everything under entry `e` is gone once this time is reached. */
  function Done(level: nat, e: nat): nat
    requires level < 3
  {
    4 * (e * EntryWidth(level) + EntryWidth(level) - 1) + level + 1
  }

  /** The last page a role waits for. */
  function LastPage(r: Role): nat {
    match r
    case DataPage(v) => v
    case LowTable(k) => 512 * k + 511
    case MidTable(i) => 262144 * i + 262143
    case RootTable => 0x7ff_ffff
  }

  /** A table ends at page `x` only where a whole number of its pages ends. */
  lemma LastPages(r: Role)
    ensures FreeTime(r) == 4 * LastPage(r) + (match r case DataPage(_) => 0 case LowTable(_) => 1 case MidTable(_) => 2 case RootTable => 3)
    ensures !r.DataPage? ==> (LastPage(r) + 1) % 512 == 0
    ensures !r.DataPage? && !r.LowTable? ==> (LastPage(r) + 1) % 262144 == 0
    ensures r.RootTable? ==> (LastPage(r) + 1) % 0x800_0000 == 0
  {
    match r
    case DataPage(v) =>
    case LowTable(k) => DivMod(512, k + 1, 0);
    case MidTable(i) =>
      DivMod(262144, i + 1, 0);
      DivMod(512, 512 * (i + 1), 0);
    case RootTable =>
  }

  lemma QuietGap(r: Role, level: nat, key: nat, j: nat)
    requires level < 3 && j + 1 < SLOTS
    ensures !(Done(level, key * SLOTS + j) <= FreeTime(r) < Mark(level, key, j + 1))
  {
    LastPages(r);
    hide FreeTime;
    hide LastPage;
    var c := match r case DataPage(_) => 0 case LowTable(_) => 1 case MidTable(_) => 2 case RootTable => 3;
    if level == 0 {
      NotMultiple(512, key, j + 1);
      Between(LastPage(r), c, 512 * key + (j + 1), level);
    } else if level == 1 {
      NotMultiple(262144, key, 512 * (j + 1));
      Between(LastPage(r), c, 262144 * key + 512 * (j + 1), level);
    } else {
      NotMultiple(0x800_0000, key, 262144 * (j + 1));
      Between(LastPage(r), c, 0x800_0000 * key + 262144 * (j + 1), level);
    }
  }

  /** Between the end of one entry and the start of the next at page `x`, only tables that
      end at `x` are due. */
  lemma Between(last: nat, c: nat, x: nat, level: nat)
    requires c <= 3 && level < 3
    ensures 4 * (x - 1) + level + 1 <= 4 * last + c < 4 * x ==> last + 1 == x && c > level
  {
  }

  lemma NotMultiple(w: nat, key: nat, r: nat)
    requires (w == 512 || w == 262144 || w == 0x800_0000) && 0 < r < w
    ensures (w * key + r) % w == r
  {
    DivMod(w, key, r);
  }

  /** Nothing happens between finishing an entry and starting the next one. */
  lemma AfterEntry(s: Space, level: nat, key: nat, j: nat)
    requires level < 3 && j < SLOTS
    ensures Freed(s, Done(level, key * SLOTS + j)) == Freed(s, Mark(level, key, j + 1))
  {
    var e := key * SLOTS + j;
    if j + 1 < SLOTS {
      assert Done(level, e) <= Mark(level, key, j + 1);
      hide Done;
      hide Mark;
      hide FreeTime;
      forall f | f in s.role
        ensures !(Done(level, e) <= FreeTime(s.role[f]) < Mark(level, key, j + 1))
      {
        QuietGap(s.role[f], level, key, j);
      }
      FreedSame(s, Done(level, e), Mark(level, key, j + 1));
    }
  }

  /** An entry with nothing under it has nothing to free. */
  lemma AbsentEntry(m: seq<Frame>, s: Space, level: nat, key: nat, j: nat)
    requires Represents(m, s) && level < 3 && j < SLOTS && !Present(s, level, key * SLOTS + j)
    ensures Freed(s, Mark(level, key, j)) == Freed(s, Mark(level, key, j + 1))
  {
    hide Represents;
    var e := key * SLOTS + j;
    AfterEntry(s, level, key, j);
    MarkIsStart(level, key, j);
    hide Mark;
    forall f | f in s.role
      ensures !(4 * (e * EntryWidth(level)) <= FreeTime(s.role[f]) < Done(level, e))
    {
      if 4 * (e * EntryWidth(level)) <= FreeTime(s.role[f]) < Done(level, e) {
        UnderEntry(m, s, level, e, f);
      }
    }
    FreedSame(s, Mark(level, key, j), Done(level, e));
  }

  lemma MarkIsStart(level: nat, key: nat, j: nat)
    requires level < 3 && j < SLOTS
    ensures Mark(level, key, j) == 4 * ((key * SLOTS + j) * EntryWidth(level)) < Done(level, key * SLOTS + j)
  {
  }

  /** What is due while entry `e` is processed waits for a page of `e`; a table that waits for
      the last one has at most the level of `e`. */
  lemma DueInEntry(x: nat, c: nat, level: nat, e: nat)
    requires level < 3 && c <= 3 && 4 * (e * EntryWidth(level)) <= 4 * x + c < Done(level, e)
    ensures var w := EntryWidth(level); x / w == e && (x % w == w - 1 ==> c <= level)
  {
    var w := EntryWidth(level);
    var first := w * e;
    assert e * w == first;
    assert first <= x < first + w;
    DivMod(w, e, x - first);
  }

  /** Entry numbers nest. */
  lemma EntryNests(x: nat)
    ensures x / 262144 == x / 512 / 512
    ensures x % 262144 == 262143 ==> x % 512 == 511
  {
    var q, r := x / 262144, x % 262144;
    DivMod(512, 512 * q + r / 512, r % 512);
    DivMod(512, q, r / 512);
  }

  /** The pages tables wait for. */
  lemma TableEnds(r: Role)
    ensures r.LowTable? ==> LastPage(r) / 512 == r.k && LastPage(r) % 512 == 511
    ensures r.MidTable? ==> LastPage(r) / 262144 == r.i && LastPage(r) % 262144 == 262143
    ensures r.RootTable? ==> LastPage(r) % 262144 == 262143
  {
    match r
    case LowTable(k) => DivMod(512, k, 511);
    case MidTable(i) => DivMod(262144, i, 262143);
    case _ =>
  }

  /** What a frame in a tree hangs off. */
  lemma TablesAbove(m: seq<Frame>, s: Space, f: nat)
    requires Represents(m, s) && f in s.role
    ensures match s.role[f]
      case DataPage(v) => v in s.leaves && s.leaves[v].Owned() && v / 512 in s.lows && v / 512 / 512 in s.mids
      case LowTable(k) => k in s.lows && k / 512 in s.mids
      case MidTable(i) => i in s.mids
      case RootTable => true
  {
    assert RoleHolds(s, f);
    TreeFrames(m, s);
    hide Represents;
  }

  /** A frame freed while an entry is processed belongs under that entry. */
  lemma UnderEntry(m: seq<Frame>, s: Space, level: nat, e: nat, f: nat)
    requires Represents(m, s) && level < 3 && f in s.role
    requires 4 * (e * EntryWidth(level)) <= FreeTime(s.role[f]) < Done(level, e)
    ensures Present(s, level, e)
  {
    TablesAbove(m, s, f);
    hide Represents;
    var r := s.role[f];
    var c := match r case DataPage(_) => 0 case LowTable(_) => 1 case MidTable(_) => 2 case RootTable => 3;
    assert FreeTime(r) == 4 * LastPage(r) + c;
    DueInEntry(LastPage(r), c, level, e);
    TableEnds(r);
    hide FreeTime;
    hide Done;
    match r
    case DataPage(v) => EntryNests(v);
    case LowTable(k) =>
      var x := LastPage(r);
      hide LastPage;
      EntryNests(x);
    case MidTable(i) =>
      var x := LastPage(r);
      hide LastPage;
      EntryNests(x);
    case RootTable =>
  }

  /** The frame that stands for an entry or a table is freed at its own time, alone. */
  lemma TableTurn(m: seq<Frame>, s: Space, level: nat, key: nat, f: nat)
    requires Represents(m, s) && level < 3 && f in s.role
    requires s.role[f] == (if level == 0 then LowTable(key) else if level == 1 then MidTable(key) else RootTable)
    requires level == 2 ==> key == 0
    ensures var t := Mark(level, key, SLOTS); Freed(s, t + 1) == Freed(s, t) + {f}
    ensures level < 2 ==> Mark(level, key, SLOTS) + 1 == Done(level + 1, key)
    ensures level == 2 ==> Mark(level, key, SLOTS) == 4 * 0x7ff_ffff + 3
  {
    assert RoleHolds(s, f);
    forall g | g in s.role && FreeTime(s.role[g]) == FreeTime(s.role[f])
      ensures g == f
    {
      LastPages(s.role[g]);
      LastPages(s.role[f]);
      assert RoleHolds(s, g);
    }
    hide Represents;
    FreedOne(s, Mark(level, key, SLOTS), f);
  }

  lemma DataLast(v: nat)
    ensures LastPage(DataPage(v)) == v
  {
  }

  /** Only page `v` itself is due at the instant of page `v`. */
  lemma DataOnly(m: seq<Frame>, s: Space, g: nat, v: nat)
    requires Represents(m, s) && g in s.role && FreeTime(s.role[g]) == 4 * v
    ensures v in s.leaves && s.leaves[v].Owned() && g == s.leaves[v].Frame()
  {
    LastPages(s.role[g]);
    assert RoleHolds(s, g);
  }

  lemma DataTurn(m: seq<Frame>, s: Space, v: nat)
    requires Represents(m, s) && v in s.leaves && s.leaves[v].Owned()
    ensures Freed(s, 4 * v + 1) == Freed(s, 4 * v) + {s.leaves[v].Frame()}
  {
    hide Represents;
    hide FreeTime;
    hide LastPage;
    hide Freed;
    OwnedPage(m, s, v);
    var f := s.leaves[v].Frame();
    LastPages(DataPage(v));
    DataLast(v);
    forall g | g in s.role && FreeTime(s.role[g]) == 4 * v
      ensures g == f
    {
      LastPages(s.role[g]);
      DataOnly(m, s, g, v);
    }
    FreedOne(s, 4 * v, f);
  }

  /** Address `table` is that of the level-`level` table covering entry `key` of the level above. */
  ghost predicate TableOf(s: Space, table: nat, level: nat, key: nat) {
    && (level == 0 ==> key in s.lows && table == Pa(s.lows[key]))
    && (level == 1 ==> key in s.mids && table == Pa(s.mids[key]))
    && (level == 2 ==> key == 0 && table == Pa(s.root))
  }

  lemma EntryOf(m: seq<Frame>, s: Space, table: nat, level: nat, key: nat, j: nat)
    requires Represents(m, s) && level < 3 && j < SLOTS && TableOf(s, table, level, key)
    ensures var pte := ReadPte(m, table + j * 8); var e := key * SLOTS + j;
      && (level > 0 && IsValid(pte) && !IsLeaf(pte) <==> level > 0 && Present(s, level, e))
      && (level > 0 && Present(s, level, e) ==> TableOf(s, PpnOf(pte) * PAGE_SIZE, level - 1, e))
      && (level == 1 ==> !IsLeaf(pte))
      && (level == 0 ==> (IsValid(pte) <==> e in s.leaves))
      && (level == 0 && e in s.leaves ==>
            (IsLeaf(pte) <==> s.leaves[e].perms.Live()) && (IsUser(pte) <==> s.leaves[e].perms.u)
            && PpnOf(pte) == s.leaves[e].ppn && PermsOf(pte) == s.leaves[e].perms)
      && (level == 2 && IsLeaf(pte) && IsValid(pte) ==> !IsUser(pte))
  {
    hide Represents;
    hide ReadPte;
    hide IsLeaf;
    hide IsValid;
    hide IsUser;
    hide PpnOf;
    hide PermsOf;
    TreeFrames(m, s);
    NoSharedSlot(m, s);
    var e := key * SLOTS + j;
    if level == 2 {
      RootEntry(m, s, j);
    } else if level == 1 {
      assert e / SLOTS == key && e % SLOTS == j;
      MidEntry(m, s, e);
    } else {
      assert e / SLOTS == key && e % SLOTS == j;
      LowEntry(m, s, e);
    }
  }

  lemma FreePage(leaf: Leaf)
    ensures var pa := leaf.ppn * PAGE_SIZE;
      leaf.perms.Live() ==> (InPool(pa) <==> leaf.Owned()) && (InPool(pa) ==> (pa - POOL_BASE) % PAGE_SIZE == 0 && FrameAt(pa) == leaf.Frame())
  {
  }

  /** `free_subtree`: frees exactly the frames of the subtree, the table last. */
  method FreeSubtree(pool: Pool, table: nat, level: nat, ghost s: Space, ghost key: nat, ghost u0: set<nat>)
    requires pool.Valid() && Represents(pool.mem, s) && level < 2 && TableOf(s, table, level, key)
    requires pool.used == u0 - Freed(s, Mark(level, key, 0))
    modifies pool`bitmap, pool`liveCount, pool`used
    ensures pool.Valid()
    ensures pool.used == u0 - Freed(s, Done(level + 1, key))
    decreases level
  {
    hide Represents;
    hide Pool.Valid;
    hide ReadPte;
    hide IsLeaf;
    hide IsValid;
    hide PpnOf;
    hide Freed;
    hide FreeTime;
    hide Mark;
    hide Done;
    TreeFrames(pool.mem, s);
    for i := 0 to SLOTS
      invariant pool.Valid() && pool.used == u0 - Freed(s, Mark(level, key, i))
    {
      var pte := ReadPte(pool.mem, table + i * 8);
      ghost var e := key * SLOTS + i;
      EntryOf(pool.mem, s, table, level, key, i);
      AfterEntry(s, level, key, i);
      MarkIsStart(level, key, i);
      if !Present(s, level, e) {
        AbsentEntry(pool.mem, s, level, key, i);
      }
      if IsValid(pte) {
        if IsLeaf(pte) {
          FreePage(s.leaves[e]);
          if s.leaves[e].Owned() {
            DataTurn(pool.mem, s, e);
            DoneLeaf(e);
          }
          pool.Free(PpnOf(pte) * PAGE_SIZE);
        } else if level > 0 {
          StartOf(e);
          FreeSubtree(pool, PpnOf(pte) * PAGE_SIZE, level - 1, s, e, u0);
        }
      }
    }
    ghost var f := if level == 0 then s.lows[key] else s.mids[key];
    TableTurn(pool.mem, s, level, key, f);
    pool.Free(table);
  }

  lemma DoneLeaf(e: nat)
    ensures Done(0, e) == 4 * e + 1
  {
  }

  lemma StartOf(e: nat)
    ensures Mark(0, e, 0) == 4 * (e * EntryWidth(1))
    ensures Mark(1, e, 0) == 4 * (e * EntryWidth(2))
  {
  }

  /** `destroy`: frees exactly the footprint of the space, and touches no memory. The
      gigapage target and pages outside the pool are never freed. */
  method Destroy(space: AddressSpace, pool: Pool, ghost s: Space)
    requires pool.Valid() && Represents(pool.mem, s) && space.root == Pa(s.root)
    modifies pool`bitmap, pool`liveCount, pool`used
    ensures pool.Valid()
    ensures pool.used == old(pool.used) - s.role.Keys && pool.liveCount <= old(pool.liveCount)
    ensures s.role.Keys <= old(pool.used) ==> pool.liveCount + FrameCount(s) == old(pool.liveCount)
  {
    hide Represents;
    hide Pool.Valid;
    hide ReadPte;
    hide IsLeaf;
    hide IsValid;
    hide PpnOf;
    hide Freed;
    hide FreeTime;
    hide Mark;
    hide Done;
    hide FrameCount;
    hide Counts;
    ghost var u0, live0 := pool.used, pool.liveCount;
    PoolCounts(pool);
    TreeFrames(pool.mem, s);
    FreedNone(s);
    MarkIsStart(2, 0, 0);
    for i := 0 to SLOTS
      invariant pool.Valid() && pool.used == u0 - Freed(s, Mark(2, 0, i))
    {
      var slot := space.root + i * 8;
      var pte := ReadPte(pool.mem, slot);
      EntryOf(pool.mem, s, space.root, 2, 0, i);
      AfterEntry(s, 2, 0, i);
      MarkIsStart(2, 0, i);
      if !Present(s, 2, i) {
        AbsentEntry(pool.mem, s, 2, 0, i);
      }
      if IsValid(pte) && !IsLeaf(pte) {
        StartOf(i);
        FreeSubtree(pool, PpnOf(pte) * PAGE_SIZE, 1, s, i, u0);
      }
    }
    TableTurn(pool.mem, s, 2, 0, s.root);
    FreedAll(pool.mem, s);
    pool.Free(space.root);
    LiveWithout(pool, live0, u0, s);
  }
}
