/** What a three-level Sv39 table in pool memory stands for.

    A `Space` names the frames a table tree is made of and the leaves it maps. `role` says
    what each owned frame is for; being a map, it makes every owned frame serve exactly one
    purpose. `Represents` ties the value to the words in memory. */
module Space {
  import opened Words
  import opened Pte
  import opened FramePool

  /** 27-bit virtual page numbers: bits 12..38 of an address. */
  const VPN_LIMIT: nat := 0x800_0000
  /** Pages under one root slot. */

  datatype Leaf = Leaf(ppn: Ppn, perms: Perms) {
    /** A live leaf on a pool frame: that frame belongs to the space. */
    predicate Owned() { perms.Live() && BASE_PPN <= ppn < BASE_PPN + POOL_FRAMES }

    function Frame(): (f: nat)
      requires Owned()
      ensures f < POOL_FRAMES
    {
      ppn - BASE_PPN
    }

    /** What `copy_user_pages` copies. */
    predicate User() { perms.Live() && perms.u }
  }

  datatype Role = RootTable | MidTable(i: nat) | LowTable(k: nat) | DataPage(v: nat)

  datatype Space = Space(
    root: nat,               // frame of the root table
    mids: map<nat, nat>,     // root slot -> frame of its level-1 table
    lows: map<nat, nat>,     // page number / 512 -> frame of its level-0 table
    leaves: map<nat, Leaf>,  // page number -> 4 KiB leaf
    gigas: map<nat, Leaf>,   // root slot -> supervisor gigapage
    role: map<nat, Role>)    // every owned frame -> its one purpose
  {
    predicate IsTable(f: nat) { f in role && !role[f].DataPage? }
  }

  predicate RoleHolds(s: Space, f: nat)
    requires f in s.role
  {
    match s.role[f]
    case RootTable => f == s.root
    case MidTable(i) => i in s.mids && s.mids[i] == f
    case LowTable(k) => k in s.lows && s.lows[k] == f
    case DataPage(v) => v in s.leaves && s.leaves[v].Owned() && s.leaves[v].Frame() == f
  }

  /** Every entry hangs off an existing table, and no gigapage shares a root slot with one. */
  ghost predicate Linked(s: Space) {
    && (forall i :: i in s.gigas ==> i < SLOTS && s.gigas[i].perms.Live() && !s.gigas[i].perms.u)
    && (forall i :: i in s.mids ==> i < SLOTS && i !in s.gigas)
    && (forall k :: k in s.lows ==> k / SLOTS in s.mids)
    && (forall v :: v in s.leaves ==> v / SLOTS in s.lows)
  }

  /** `role` is exactly the frames of the tree, one purpose each. */
  ghost predicate RolesExact(s: Space) {
    && s.root in s.role && s.role[s.root] == RootTable
    && (forall i :: i in s.mids ==> s.mids[i] in s.role && s.role[s.mids[i]] == MidTable(i))
    && (forall k :: k in s.lows ==> s.lows[k] in s.role && s.role[s.lows[k]] == LowTable(k))
    && (forall v :: v in s.leaves && s.leaves[v].Owned() ==>
          s.leaves[v].Frame() in s.role && s.role[s.leaves[v].Frame()] == DataPage(v))
    && (forall f :: f in s.role ==> f < POOL_FRAMES && RoleHolds(s, f))
  }

  ghost predicate Shape(s: Space) { Linked(s) && RolesExact(s) }

  function TablePte(f: nat): Word
    requires f < POOL_FRAMES
  {
    TableWord(BASE_PPN + f)
  }

  function LeafPte(leaf: Leaf): Word { LeafWord(leaf.ppn, leaf.perms) }

  function RootWord(s: Space, i: nat): Word
    requires i in s.mids ==> s.mids[i] < POOL_FRAMES
  {
    if i in s.mids then TablePte(s.mids[i]) else if i in s.gigas then LeafPte(s.gigas[i]) else 0
  }

  function MidWord(s: Space, k: nat): Word
    requires k in s.lows ==> s.lows[k] < POOL_FRAMES
  {
    if k in s.lows then TablePte(s.lows[k]) else 0
  }

  function LowWord(s: Space, v: nat): Word {
    if v in s.leaves then LeafPte(s.leaves[v]) else 0
  }

  ghost predicate StoredRoot(m: seq<Frame>, s: Space)
    requires |m| == POOL_FRAMES && RolesExact(s)
  {
    forall i: nat :: i < SLOTS ==> m[s.root][i] == RootWord(s, i)
  }

  ghost predicate StoredMids(m: seq<Frame>, s: Space)
    requires |m| == POOL_FRAMES && RolesExact(s)
  {
    forall k: nat :: k / SLOTS in s.mids ==> m[s.mids[k / SLOTS]][k % SLOTS] == MidWord(s, k)
  }

  ghost predicate StoredLows(m: seq<Frame>, s: Space)
    requires |m| == POOL_FRAMES && RolesExact(s)
  {
    forall v: nat :: v / SLOTS in s.lows ==> m[s.lows[v / SLOTS]][v % SLOTS] == LowWord(s, v)
  }

  /** The words in the table frames encode exactly `s`. */
  ghost predicate Represents(m: seq<Frame>, s: Space) {
    |m| == POOL_FRAMES && Shape(s) && StoredRoot(m, s) && StoredMids(m, s) && StoredLows(m, s)
  }

  // ---- reading entries ----------------------------------------------------

  lemma PoolPpn(f: nat)
    requires f < POOL_FRAMES
    ensures BASE_PPN + f < PPN_LIMIT && (BASE_PPN + f) * PAGE_SIZE == Pa(f) && Pa(f) / PAGE_SIZE == BASE_PPN + f
  {
  }

  lemma RootEntry(m: seq<Frame>, s: Space, i: nat)
    requires Represents(m, s) && i < SLOTS
    ensures var pte := ReadPte(m, Pa(s.root) + i * 8);
      && pte == RootWord(s, i)
      && (IsValid(pte) <==> i in s.mids || i in s.gigas)
      && (i in s.mids ==> !IsLeaf(pte) && PpnOf(pte) * PAGE_SIZE == Pa(s.mids[i]))
      && (i in s.gigas ==> IsLeaf(pte) && PpnOf(pte) == s.gigas[i].ppn && PermsOf(pte) == s.gigas[i].perms && !IsUser(pte))
  {
    PteSlot(m, s.root, i, 0);
    if i in s.mids {
      PoolPpn(s.mids[i]);
      TableReadsBack(BASE_PPN + s.mids[i]);
    } else if i in s.gigas {
      LeafReadsBack(s.gigas[i].ppn, s.gigas[i].perms);
    }
  }

  lemma MidEntry(m: seq<Frame>, s: Space, k: nat)
    requires Represents(m, s) && k / SLOTS in s.mids
    ensures var pte := ReadPte(m, Pa(s.mids[k / SLOTS]) + k % SLOTS * 8);
      && pte == MidWord(s, k)
      && (IsValid(pte) <==> k in s.lows)
      && !IsLeaf(pte)
      && (k in s.lows ==> PpnOf(pte) * PAGE_SIZE == Pa(s.lows[k]))
  {
    PteSlot(m, s.mids[k / SLOTS], k % SLOTS, 0);
    if k in s.lows {
      PoolPpn(s.lows[k]);
      TableReadsBack(BASE_PPN + s.lows[k]);
    }
  }

  lemma LowEntry(m: seq<Frame>, s: Space, v: nat)
    requires Represents(m, s) && v / SLOTS in s.lows
    ensures var pte := ReadPte(m, Pa(s.lows[v / SLOTS]) + v % SLOTS * 8);
      && pte == LowWord(s, v)
      && (IsValid(pte) <==> v in s.leaves)
      && (v in s.leaves ==>
            && (IsLeaf(pte) <==> s.leaves[v].perms.Live()) && (IsUser(pte) <==> s.leaves[v].perms.u)
            && PpnOf(pte) == s.leaves[v].ppn && PermsOf(pte) == s.leaves[v].perms)
  {
    LowStored(m, s, v);
    hide Represents;
    hide ReadPte;
    if v in s.leaves {
      LeafReadsBack(s.leaves[v].ppn, s.leaves[v].perms);
    }
  }

  lemma LowStored(m: seq<Frame>, s: Space, v: nat)
    requires Represents(m, s) && v / SLOTS in s.lows
    ensures |m| == POOL_FRAMES && ReadPte(m, Pa(s.lows[v / SLOTS]) + v % SLOTS * 8) == LowWord(s, v)
  {
    hide LowWord;
    PteSlot(m, s.lows[v / SLOTS], v % SLOTS, 0);
  }

  /** The facts about a represented space that need no look at the words. */
  lemma TreeFrames(m: seq<Frame>, s: Space)
    requires Represents(m, s)
    ensures |m| == POOL_FRAMES && s.root in s.role && s.role[s.root] == RootTable
    ensures forall f :: f in s.role ==> f < POOL_FRAMES
    ensures forall i :: i in s.mids ==> s.mids[i] in s.role && s.role[s.mids[i]] == MidTable(i)
    ensures forall k :: k in s.lows ==> s.lows[k] in s.role && s.role[s.lows[k]] == LowTable(k) && k / SLOTS in s.mids
    ensures forall v :: v in s.leaves ==> v / SLOTS in s.lows
    ensures forall v :: v in s.leaves && s.leaves[v].Owned() ==> s.leaves[v].Frame() in s.role && !s.IsTable(s.leaves[v].Frame())
  {
  }

  /** What a space owns: its root, its tables, and the pool frames under its live leaves. */
  lemma FramesExactly(m: seq<Frame>, s: Space, f: nat)
    requires Represents(m, s)
    ensures f in s.role <==>
      || f == s.root
      || (exists i :: i in s.mids && s.mids[i] == f)
      || (exists k :: k in s.lows && s.lows[k] == f)
      || (exists v :: v in s.leaves && s.leaves[v].ppn == 0x80400 + f && f < 31744
                      && (s.leaves[v].perms.r || s.leaves[v].perms.w || s.leaves[v].perms.x))
  {
    hide StoredRoot;
    hide StoredMids;
    hide StoredLows;
    if f in s.role {
      assert RoleHolds(s, f);
    }
    if v :| v in s.leaves && s.leaves[v].ppn == 0x80400 + f && f < 31744 && s.leaves[v].perms.Live() {
      assert s.leaves[v].Owned() && s.leaves[v].Frame() == f;
    }
  }

  lemma NoSharedSlot(m: seq<Frame>, s: Space)
    requires Represents(m, s)
    ensures forall i :: i in s.mids ==> i !in s.gigas
  {
  }

  /** A page is mapped only where its tables are, and in frames of the space. */
  lemma PathTables(m: seq<Frame>, s: Space, v: nat)
    requires Represents(m, s)
    ensures |m| == POOL_FRAMES && s.root < POOL_FRAMES && s.IsTable(s.root)
    ensures v / SLOTS in s.lows ==> v / SLOTS / SLOTS in s.mids && s.IsTable(s.lows[v / SLOTS]) && s.lows[v / SLOTS] < POOL_FRAMES
    ensures v / SLOTS / SLOTS in s.mids ==> s.IsTable(s.mids[v / SLOTS / SLOTS]) && s.mids[v / SLOTS / SLOTS] < POOL_FRAMES
    ensures v in s.leaves ==> v / SLOTS in s.lows
  {
  }

  lemma OwnedPage(m: seq<Frame>, s: Space, v: nat)
    requires Represents(m, s) && v in s.leaves && s.leaves[v].Owned()
    ensures s.leaves[v].Frame() in s.role && s.role[s.leaves[v].Frame()] == DataPage(v)
  {
  }

  // ---- frame conditions ---------------------------------------------------

  /** Only the table frames matter: equal tables represent the same space. */
  lemma RepresentsFrame(m: seq<Frame>, m': seq<Frame>, s: Space)
    requires Represents(m, s) && |m'| == POOL_FRAMES
    requires forall f: nat :: f < POOL_FRAMES && s.IsTable(f) ==> m'[f] == m[f]
    ensures Represents(m', s)
  {
  }

  /** A space is determined by its root frame and the memory: two descriptions of the
      same words are the same description. */
  lemma RepresentsUnique(m: seq<Frame>, s: Space, t: Space)
    requires Represents(m, s) && Represents(m, t) && s.root == t.root
    ensures s == t
  {
    hide Represents;
    SameRoot(m, s, t);
    SameRoot(m, t, s);
    assert s.mids == t.mids && s.gigas == t.gigas;
    SameLows(m, s, t);
    SameLows(m, t, s);
    assert s.lows == t.lows;
    SameLeaves(m, s, t);
    SameLeaves(m, t, s);
    assert s.leaves == t.leaves;
    SameRoles(m, s, t);
    SameRoles(m, t, s);
    assert s.role == t.role;
  }

  lemma SameRoot(m: seq<Frame>, s: Space, t: Space)
    requires Represents(m, s) && Represents(m, t) && s.root == t.root
    ensures forall i :: i in s.mids ==> i in t.mids && t.mids[i] == s.mids[i]
    ensures forall i :: i in s.gigas ==> i in t.gigas && t.gigas[i] == s.gigas[i]
  {
    forall i | i in s.mids || i in s.gigas
      ensures i in s.mids ==> i in t.mids && t.mids[i] == s.mids[i]
      ensures i in s.gigas ==> i in t.gigas && t.gigas[i] == s.gigas[i]
    {
      RootEntry(m, s, i);
      RootEntry(m, t, i);
    }
  }

  lemma SameRoles(m: seq<Frame>, s: Space, t: Space)
    requires Represents(m, s) && Represents(m, t)
    requires s.root == t.root && s.mids == t.mids && s.lows == t.lows && s.leaves == t.leaves
    ensures forall f :: f in s.role ==> f in t.role && t.role[f] == s.role[f]
  {
    forall f | f in s.role
      ensures f in t.role && t.role[f] == s.role[f]
    {
      assert RoleHolds(s, f);
    }
  }

  lemma SameLows(m: seq<Frame>, s: Space, t: Space)
    requires Represents(m, s) && Represents(m, t) && s.mids == t.mids
    ensures forall k :: k in s.lows ==> k in t.lows && t.lows[k] == s.lows[k]
  {
    forall k | k in s.lows
      ensures k in t.lows && t.lows[k] == s.lows[k]
    {
      MidEntry(m, s, k);
      MidEntry(m, t, k);
    }
  }

  lemma SameLeaves(m: seq<Frame>, s: Space, t: Space)
    requires Represents(m, s) && Represents(m, t) && s.lows == t.lows
    ensures forall v :: v in s.leaves ==> v in t.leaves && t.leaves[v] == s.leaves[v]
  {
    forall v | v in s.leaves
      ensures v in t.leaves && t.leaves[v] == s.leaves[v]
    {
      LowEntry(m, s, v);
      LowEntry(m, t, v);
    }
  }

  // ---- growing a space ----------------------------------------------------

  function NewSpace(f: nat): Space {
    Space(f, map[], map[], map[], map[], map[f := RootTable])
  }

  lemma NewRepresents(m: seq<Frame>, f: nat)
    requires |m| == POOL_FRAMES && f < POOL_FRAMES && m[f] == ZeroFrame()
    ensures Represents(m, NewSpace(f))
  {
  }

  /** The tables of a space are all different frames. */
  lemma TablesApart(s: Space)
    requires RolesExact(s)
    ensures forall i :: i in s.mids ==> s.mids[i] != s.root
    ensures forall k :: k in s.lows ==> s.lows[k] != s.root
    ensures forall i, k :: i in s.mids && k in s.lows ==> s.mids[i] != s.lows[k]
    ensures forall i, j :: i in s.mids && j in s.mids && s.mids[i] == s.mids[j] ==> i == j
    ensures forall k, l :: k in s.lows && l in s.lows && s.lows[k] == s.lows[l] ==> k == l
  {
    hide RoleHolds;
  }

  // Tables that neither the words nor the entries changed under stay stored.

  lemma RootKept(m: seq<Frame>, s: Space, s': Space, t: nat, x: Frame)
    requires |m| == POOL_FRAMES && RolesExact(s) && RolesExact(s') && StoredRoot(m, s) && t < POOL_FRAMES && t != s.root
    requires s'.root == s.root && s'.mids == s.mids && s'.gigas == s.gigas
    ensures StoredRoot(m[t := x], s')
  {
    hide RoleHolds;
    hide TablePte;
    hide LeafPte;
  }

  lemma MidsKept(m: seq<Frame>, s: Space, s': Space, t: nat, x: Frame)
    requires |m| == POOL_FRAMES && RolesExact(s) && RolesExact(s') && StoredMids(m, s) && t < POOL_FRAMES
    requires s'.mids == s.mids && s'.lows == s.lows && forall i :: i in s.mids ==> s.mids[i] != t
    ensures StoredMids(m[t := x], s')
  {
    hide RoleHolds;
    hide TablePte;
  }

  lemma LowsKept(m: seq<Frame>, s: Space, s': Space, t: nat, x: Frame)
    requires |m| == POOL_FRAMES && RolesExact(s) && RolesExact(s') && StoredLows(m, s) && t < POOL_FRAMES
    requires s'.lows == s.lows && s'.leaves == s.leaves && forall k :: k in s.lows ==> s.lows[k] != t
    ensures StoredLows(m[t := x], s')
  {
    hide RoleHolds;
    hide LeafPte;
  }

  function AddGiga(s: Space, i: nat, leaf: Leaf): Space { s.(gigas := s.gigas[i := leaf]) }

  lemma AddGigaRepresents(m: seq<Frame>, s: Space, i: nat, leaf: Leaf)
    requires Represents(m, s) && i < SLOTS && i !in s.mids && leaf.perms.Live() && !leaf.perms.u
    ensures Represents(m[s.root := m[s.root][i := LeafPte(leaf)]], AddGiga(s, i, leaf))
  {
    hide RolesExact;
    hide Linked;
    hide StoredRoot;
    hide StoredMids;
    hide StoredLows;
    hide LeafPte;
    AddGigaShape(s, i, leaf);
    TablesApart(s);
    RootAfterGiga(m, s, i, leaf);
    MidsKept(m, s, AddGiga(s, i, leaf), s.root, m[s.root][i := LeafPte(leaf)]);
    LowsKept(m, s, AddGiga(s, i, leaf), s.root, m[s.root][i := LeafPte(leaf)]);
  }

  lemma AddGigaShape(s: Space, i: nat, leaf: Leaf)
    requires Shape(s) && i < SLOTS && i !in s.mids && leaf.perms.Live() && !leaf.perms.u
    ensures Shape(AddGiga(s, i, leaf)) && s.root < POOL_FRAMES
  {
    var s' := AddGiga(s, i, leaf);
    forall f | f in s'.role ensures RoleHolds(s', f) {
      assert RoleHolds(s, f);
    }
  }

  lemma RootAfterGiga(m: seq<Frame>, s: Space, i: nat, leaf: Leaf)
    requires |m| == POOL_FRAMES && RolesExact(s) && StoredRoot(m, s) && RolesExact(AddGiga(s, i, leaf)) && i < SLOTS && i !in s.mids
    ensures StoredRoot(m[s.root := m[s.root][i := LeafPte(leaf)]], AddGiga(s, i, leaf))
  {
    hide RoleHolds;
    hide LeafPte;
    hide TablePte;
  }

  function AddMid(s: Space, i: nat, f: nat): Space {
    s.(mids := s.mids[i := f], role := s.role[f := MidTable(i)])
  }

  /** Linking a zeroed frame as the level-1 table of an empty root slot. */
  lemma AddMidRepresents(m: seq<Frame>, s: Space, i: nat, f: nat)
    requires Represents(m, s) && i < SLOTS && i !in s.mids && i !in s.gigas
    requires f < POOL_FRAMES && f !in s.role && m[f] == ZeroFrame()
    ensures Represents(m[s.root := m[s.root][i := TablePte(f)]], AddMid(s, i, f))
  {
    hide RolesExact;
    hide Linked;
    hide StoredRoot;
    hide StoredMids;
    hide StoredLows;
    hide TablePte;
    AddMidShape(s, i, f);
    TablesApart(s);
    RootAfterMid(m, s, i, f);
    MidsAfterMid(m, s, i, f);
    LowsKept(m, s, AddMid(s, i, f), s.root, m[s.root][i := TablePte(f)]);
  }

  lemma AddMidShape(s: Space, i: nat, f: nat)
    requires Shape(s) && i < SLOTS && i !in s.mids && i !in s.gigas && f < POOL_FRAMES && f !in s.role
    ensures Shape(AddMid(s, i, f)) && s.root < POOL_FRAMES && f != s.root
  {
    AddMidRoles(s, i, f);
    hide RoleHolds;
  }

  lemma AddMidRoles(s: Space, i: nat, f: nat)
    requires RolesExact(s) && i !in s.mids && f < POOL_FRAMES && f !in s.role
    ensures RolesExact(AddMid(s, i, f))
  {
  }

  lemma RootAfterMid(m: seq<Frame>, s: Space, i: nat, f: nat)
    requires |m| == POOL_FRAMES && RolesExact(s) && StoredRoot(m, s) && RolesExact(AddMid(s, i, f))
    requires i < SLOTS && i !in s.mids && f < POOL_FRAMES
    ensures StoredRoot(m[s.root := m[s.root][i := TablePte(f)]], AddMid(s, i, f))
  {
    hide RoleHolds;
    hide LeafPte;
    hide TablePte;
  }

  lemma MidsAfterMid(m: seq<Frame>, s: Space, i: nat, f: nat)
    requires |m| == POOL_FRAMES && Shape(s) && StoredMids(m, s) && i < SLOTS && i !in s.mids
    requires f < POOL_FRAMES && f !in s.role && m[f] == ZeroFrame() && RolesExact(AddMid(s, i, f))
    ensures StoredMids(m[s.root := m[s.root][i := TablePte(f)]], AddMid(s, i, f))
  {
    hide TablePte;
    hide RoleHolds;
    forall k: nat | k / SLOTS in AddMid(s, i, f).mids
      ensures m[s.root := m[s.root][i := TablePte(f)]][AddMid(s, i, f).mids[k / SLOTS]][k % SLOTS]
              == MidWord(AddMid(s, i, f), k)
    {
      if k / SLOTS != i {
        assert m[s.mids[k / SLOTS]][k % SLOTS] == MidWord(s, k);
      }
    }
  }

  function AddLow(s: Space, k: nat, f: nat): Space {
    s.(lows := s.lows[k := f], role := s.role[f := LowTable(k)])
  }

  /** Linking a zeroed frame as the level-0 table of an empty level-1 slot. */
  lemma AddLowRepresents(m: seq<Frame>, s: Space, k: nat, f: nat)
    requires Represents(m, s) && k / SLOTS in s.mids && k !in s.lows
    requires f < POOL_FRAMES && f !in s.role && m[f] == ZeroFrame()
    ensures var t := s.mids[k / SLOTS]; Represents(m[t := m[t][k % SLOTS := TablePte(f)]], AddLow(s, k, f))
  {
    hide RolesExact;
    hide Linked;
    hide StoredRoot;
    hide StoredMids;
    hide StoredLows;
    hide TablePte;
    AddLowShape(s, k, f);
    TablesApart(s);
    var t := s.mids[k / SLOTS];
    RootKept(m, s, AddLow(s, k, f), t, m[t][k % SLOTS := TablePte(f)]);
    MidsAfterLow(m, s, k, f);
    LowsAfterLow(m, s, k, f);
  }

  lemma AddLowShape(s: Space, k: nat, f: nat)
    requires Shape(s) && k / SLOTS in s.mids && k !in s.lows && f < POOL_FRAMES && f !in s.role
    ensures Shape(AddLow(s, k, f)) && s.mids[k / SLOTS] < POOL_FRAMES
  {
    AddLowRoles(s, k, f);
    hide RoleHolds;
  }

  lemma AddLowRoles(s: Space, k: nat, f: nat)
    requires RolesExact(s) && k !in s.lows && f < POOL_FRAMES && f !in s.role
    ensures RolesExact(AddLow(s, k, f))
  {
  }

  lemma MidsAfterLow(m: seq<Frame>, s: Space, k: nat, f: nat)
    requires |m| == POOL_FRAMES && RolesExact(s) && StoredMids(m, s) && k / SLOTS in s.mids && k !in s.lows
    requires f < POOL_FRAMES && RolesExact(AddLow(s, k, f)) && s.mids[k / SLOTS] < POOL_FRAMES
    ensures var t := s.mids[k / SLOTS]; StoredMids(m[t := m[t][k % SLOTS := TablePte(f)]], AddLow(s, k, f))
  {
    TablesApart(s);
    hide TablePte;
    hide RoleHolds;
    var t := s.mids[k / SLOTS];
    forall j: nat | j / SLOTS in s.mids
      ensures m[t := m[t][k % SLOTS := TablePte(f)]][s.mids[j / SLOTS]][j % SLOTS] == MidWord(AddLow(s, k, f), j)
    {
      assert m[s.mids[j / SLOTS]][j % SLOTS] == MidWord(s, j);
      SameIndex(j, k);
    }
  }

  /** Two entries of one table are the same if their indices are. */
  lemma SameIndex(j: nat, k: nat)
    ensures j / SLOTS == k / SLOTS && j % SLOTS == k % SLOTS ==> j == k
  {
  }

  lemma LowsAfterLow(m: seq<Frame>, s: Space, k: nat, f: nat)
    requires |m| == POOL_FRAMES && Shape(s) && StoredLows(m, s) && k / SLOTS in s.mids && k !in s.lows
    requires f < POOL_FRAMES && f !in s.role && m[f] == ZeroFrame() && RolesExact(AddLow(s, k, f)) && s.mids[k / SLOTS] < POOL_FRAMES
    ensures var t := s.mids[k / SLOTS]; StoredLows(m[t := m[t][k % SLOTS := TablePte(f)]], AddLow(s, k, f))
  {
    TablesApart(s);
    hide TablePte;
    hide RoleHolds;
    var t := s.mids[k / SLOTS];
    var s', m' := AddLow(s, k, f), m[t := m[t][k % SLOTS := TablePte(f)]];
    forall v: nat | v / SLOTS in s'.lows
      ensures m'[s'.lows[v / SLOTS]][v % SLOTS] == LowWord(s', v)
    {
      if v / SLOTS != k {
        assert m[s.lows[v / SLOTS]][v % SLOTS] == LowWord(s, v);
      }
    }
  }

  function AddLeaf(s: Space, v: nat, leaf: Leaf): Space {
    s.(leaves := s.leaves[v := leaf], role := if leaf.Owned() then s.role[leaf.Frame() := DataPage(v)] else s.role)
  }

  lemma AddLeafRepresents(m: seq<Frame>, s: Space, v: nat, leaf: Leaf)
    requires Represents(m, s) && v / SLOTS in s.lows && v !in s.leaves
    requires leaf.Owned() ==> leaf.Frame() !in s.role
    ensures var t := s.lows[v / SLOTS]; Represents(m[t := m[t][v % SLOTS := LeafPte(leaf)]], AddLeaf(s, v, leaf))
  {
    hide RolesExact;
    hide Linked;
    hide StoredRoot;
    hide StoredMids;
    hide StoredLows;
    hide LeafPte;
    AddLeafShape(s, v, leaf);
    TablesApart(s);
    var t := s.lows[v / SLOTS];
    RootKept(m, s, AddLeaf(s, v, leaf), t, m[t][v % SLOTS := LeafPte(leaf)]);
    MidsKept(m, s, AddLeaf(s, v, leaf), t, m[t][v % SLOTS := LeafPte(leaf)]);
    LowsAfterLeaf(m, s, v, leaf);
  }

  lemma AddLeafShape(s: Space, v: nat, leaf: Leaf)
    requires Shape(s) && v / SLOTS in s.lows && v !in s.leaves && (leaf.Owned() ==> leaf.Frame() !in s.role)
    ensures Shape(AddLeaf(s, v, leaf)) && s.lows[v / SLOTS] < POOL_FRAMES
  {
    AddLeafRoles(s, v, leaf);
    hide RoleHolds;
  }

  lemma AddLeafRoles(s: Space, v: nat, leaf: Leaf)
    requires RolesExact(s) && v !in s.leaves
    requires leaf.Owned() ==> leaf.Frame() !in s.role
    ensures RolesExact(AddLeaf(s, v, leaf))
  {
  }

  lemma LowsAfterLeaf(m: seq<Frame>, s: Space, v: nat, leaf: Leaf)
    requires |m| == POOL_FRAMES && RolesExact(s) && StoredLows(m, s) && v / SLOTS in s.lows && v !in s.leaves
    requires RolesExact(AddLeaf(s, v, leaf)) && s.lows[v / SLOTS] < POOL_FRAMES
    ensures var t := s.lows[v / SLOTS]; StoredLows(m[t := m[t][v % SLOTS := LeafPte(leaf)]], AddLeaf(s, v, leaf))
  {
    TablesApart(s);
    hide LeafPte;
    hide RoleHolds;
    var t := s.lows[v / SLOTS];
    forall x: nat | x / SLOTS in s.lows
      ensures m[t := m[t][v % SLOTS := LeafPte(leaf)]][s.lows[x / SLOTS]][x % SLOTS] == LowWord(AddLeaf(s, v, leaf), x)
    {
      assert m[s.lows[x / SLOTS]][x % SLOTS] == LowWord(s, x);
      SameIndex(x, v);
    }
  }
}
