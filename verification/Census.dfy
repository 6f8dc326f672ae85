/** Counting the frames of a space by what they are for, and what a copy of it needs. */
module Census {
  import opened Pte
  import opened FramePool
  import opened Space
  import opened PageTables

  /** Frames a space owns. */
  ghost function FrameCount(s: Space): nat { |s.role| }

  lemma PoolCounts(pool: Pool)
    requires pool.Valid()
    ensures Counts(pool.liveCount, pool.used)
  {
  }

  /** `u0` counted `live0` frames, and the space's frames have gone. */
  lemma LiveWithout(pool: Pool, live0: nat, u0: set<nat>, s: Space)
    requires pool.Valid() && Counts(live0, u0) && pool.used == u0 - s.role.Keys
    ensures pool.liveCount <= live0
    ensures s.role.Keys <= u0 ==> pool.liveCount + FrameCount(s) == live0
  {
    assert u0 == (u0 - s.role.Keys) + (u0 * s.role.Keys);
    if s.role.Keys <= u0 {
      assert u0 * s.role.Keys == s.role.Keys;
    }
  }

  /** A copy in progress needs no table or page that the original has not got. */
  ghost predicate Partial(s: Space, d: Space) {
    && (forall i :: i in d.mids ==> i in s.mids)
    && (forall k :: k in d.lows ==> k in s.lows)
    && (forall v :: v in d.leaves ==> v in s.leaves && (d.leaves[v].Owned() ==> s.leaves[v].Owned()))
  }

  /** Frames still missing for the copy of page `v`. */
  function Lacking(s: Space, d: Space, v: nat): nat
    requires v in s.leaves
  {
    Missing(d, v) + if s.leaves[v].Owned() then 1 else 0
  }

  /** The copy cannot go on: page `v` has no place in `d`, or the pool is too full for it. */
  ghost predicate Stuck(live: nat, s: Space, d: Space, v: nat) {
    && v in s.leaves && s.leaves[v].User() && v !in d.leaves
    && (v / SLOTS / SLOTS in d.gigas || live + Lacking(s, d, v) > POOL_FRAMES)
  }

  lemma PartialGrows(m: seq<Frame>, s: Space, d: Space, d': Space, v: nat)
    requires Represents(m, s) && Partial(s, d) && OnlyPath(d, d', v) && v in s.leaves
    requires forall x :: x in d'.leaves ==> (x in d.leaves && d'.leaves[x] == d.leaves[x]) || (x == v && (d'.leaves[x].Owned() ==> s.leaves[v].Owned()))
    ensures Partial(s, d')
  {
    hide Represents;
    PathTables(m, s, v);
  }

  lemma {:induction false} InjectiveValues(role: map<nat, Role>)
    requires forall f, g :: f in role && g in role && role[f] == role[g] ==> f == g
    ensures |role.Values| == |role|
    decreases |role|
  {
    if |role| > 0 {
      var f :| f in role;
      var rest := role - {f};
      InjectiveValues(rest);
      OneValueMore(role, f);
      assert role == rest[f := role[f]];
    }
  }

  lemma OneValueMore(role: map<nat, Role>, f: nat)
    requires f in role && forall g :: g in role && role[f] == role[g] ==> f == g
    ensures var rest := role - {f}; role.Values == rest.Values + {role[f]} && role[f] !in rest.Values
  {
    var rest := role - {f};
    forall x | x in role.Values ensures x in rest.Values + {role[f]} {
      var g :| g in role && role[g] == x;
      assert g != f ==> g in rest && rest[g] == x;
    }
  }

  lemma RolesCounted(m: seq<Frame>, s: Space)
    requires Represents(m, s)
    ensures |s.role.Values| == FrameCount(s)
  {
    forall f, g | f in s.role && g in s.role && s.role[f] == s.role[g] ensures f == g {
      assert RoleHolds(s, f) && RoleHolds(s, g);
    }
    InjectiveValues(s.role);
  }

  /** The purposes that copying page `v` still has to find frames for. */
  function LackingRoles(s: Space, d: Space, v: nat): set<Role>
    requires v in s.leaves
  {
    (if v / SLOTS / SLOTS in d.mids then {} else {MidTable(v / SLOTS / SLOTS)})
    + (if v / SLOTS in d.lows then {} else {LowTable(v / SLOTS)})
    + (if s.leaves[v].Owned() then {DataPage(v)} else {})
  }

  lemma LackingCounted(s: Space, d: Space, v: nat)
    requires v in s.leaves
    ensures |LackingRoles(s, d, v)| == Lacking(s, d, v)
  {
  }

  lemma RolesWithin(m: seq<Frame>, s: Space, m': seq<Frame>, d: Space)
    requires Represents(m, s) && Represents(m', d) && Partial(s, d)
    ensures d.role.Values <= s.role.Values
  {
    hide Represents;
    forall x | x in d.role.Values ensures x in s.role.Values {
      var f :| f in d.role && d.role[f] == x;
      RoleIs(m', d, f);
      SomeRole(m, s, x);
    }
  }

  lemma LackingApart(m: seq<Frame>, s: Space, m': seq<Frame>, d: Space, v: nat)
    requires Represents(m, s) && Represents(m', d) && v in s.leaves && v !in d.leaves
    ensures LackingRoles(s, d, v) <= s.role.Values && d.role.Values !! LackingRoles(s, d, v)
  {
    hide Represents;
    forall x | x in d.role.Values ensures x !in LackingRoles(s, d, v) {
      var f :| f in d.role && d.role[f] == x;
      RoleIs(m', d, f);
    }
    PathTables(m, s, v);
    forall x | x in LackingRoles(s, d, v) ensures x in s.role.Values {
      SomeRole(m, s, x);
    }
  }

  lemma RoleIs(m: seq<Frame>, s: Space, f: nat)
    requires Represents(m, s) && f in s.role
    ensures RoleHolds(s, f)
  {
  }

  lemma SomeRole(m: seq<Frame>, s: Space, x: Role)
    requires Represents(m, s)
    requires x.MidTable? ==> x.i in s.mids
    requires x.LowTable? ==> x.k in s.lows
    requires x.DataPage? ==> x.v in s.leaves && s.leaves[x.v].Owned()
    ensures x in s.role.Values
  {
    var f := match x
      case RootTable => s.root
      case MidTable(i) => s.mids[i]
      case LowTable(k) => s.lows[k]
      case DataPage(v) => s.leaves[v].Frame();
    assert f in s.role && s.role[f] == x;
  }

  /** What a copy has and still lacks never exceeds what the original has. */
  lemma CopyBounded(m: seq<Frame>, s: Space, m': seq<Frame>, d: Space, v: nat)
    requires Represents(m, s) && Represents(m', d) && Partial(s, d) && v in s.leaves && v !in d.leaves
    ensures FrameCount(d) + Lacking(s, d, v) <= FrameCount(s)
  {
    hide Represents;
    hide LackingRoles;
    hide Lacking;
    RolesCounted(m, s);
    RolesCounted(m', d);
    LackingCounted(s, d, v);
    RolesWithin(m, s, m', d);
    LackingApart(m, s, m', d, v);
    Subset(d.role.Values, LackingRoles(s, d, v), s.role.Values);
  }

  /** A copy is no bigger than its original. */
  lemma CopyNoBigger(m: seq<Frame>, s: Space, m': seq<Frame>, d: Space)
    requires Represents(m, s) && Represents(m', d) && Partial(s, d)
    ensures FrameCount(d) <= FrameCount(s)
  {
    hide Represents;
    hide Partial;
    RolesCounted(m, s);
    RolesCounted(m', d);
    RolesWithin(m, s, m', d);
    Contained(d.role.Values, s.role.Values);
  }

  lemma {:induction false} Subset<T>(a: set<T>, b: set<T>, c: set<T>)
    requires a !! b && a <= c && b <= c
    ensures |a| + |b| <= |c|
  {
    assert |a + b| == |a| + |b|;
    Contained(a + b, c);
  }

  lemma {:induction false} Contained<T>(a: set<T>, c: set<T>)
    requires a <= c
    ensures |a| <= |c|
  {
    assert c == a + (c - a);
  }
}
