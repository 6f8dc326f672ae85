/** The kernel's own records (kernel/src/payload.rs): process slots and checkpoint slots hold
    physical addresses. `Linked` ties them to the estate, and `Procs` and `Snaps` read off
    what each process and checkpoint looks like. */
module Books {
  import opened FramePool
  import opened Space
  import opened Machine
  import opened Estate

  /** `Slot`; an address of 0 means none. */
  datatype Slot = Slot(info: Info, root: nat, resumeFrame: nat)

  /** `Snapshot`. */
  datatype SnapSlot = SnapSlot(valid: bool, root: nat, frame: nat, caps: Caps, image: nat)

  datatype Books = Books(table: seq<Slot>, snaps: seq<SnapSlot>, kernelRoot: nat, estate: Estate)

  /** A process slot and what the estate says it owns. An empty slot owns nothing, whatever
      stale addresses it holds. */
  predicate SlotLinked(slot: Slot, p: nat, e: Estate) {
    && (SlotOwner(p) in e.spaces <==> slot.info.state != Empty && slot.root != 0)
    && (SlotOwner(p) in e.spaces ==> slot.root == Pa(e.spaces[SlotOwner(p)].root))
    && (SlotOwner(p) in e.saved <==> slot.info.state != Empty && slot.resumeFrame != 0)
    && (SlotOwner(p) in e.saved ==> slot.resumeFrame == Pa(e.saved[SlotOwner(p)]))
  }

  predicate SnapLinked(s: SnapSlot, i: nat, e: Estate) {
    && (SnapOwner(i) in e.spaces <==> s.valid)
    && (SnapOwner(i) in e.saved <==> s.valid)
    && (s.valid ==> s.root == Pa(e.spaces[SnapOwner(i)].root) && s.frame == Pa(e.saved[SnapOwner(i)]))
  }

  predicate KnownOwner(o: Owner) {
    match o
    case KernelOwner => true
    case SlotOwner(p) => p < MAX_PROC
    case SnapOwner(i) => i < MAX_SNAP
  }

  ghost predicate Linked(b: Books) {
    && |b.table| == MAX_PROC && |b.snaps| == MAX_SNAP
    && KernelOwner in b.estate.spaces && b.kernelRoot == Pa(b.estate.spaces[KernelOwner].root)
    && b.estate.spaces[KernelOwner].role.Keys == {b.estate.spaces[KernelOwner].root}
    && (forall o :: o in b.estate.spaces ==> KnownOwner(o))
    && (forall o :: o in b.estate.saved ==> KnownOwner(o) && o != KernelOwner)
    && (forall p: nat :: p < MAX_PROC ==> SlotLinked(b.table[p], p, b.estate))
    && (forall i: nat :: i < MAX_SNAP ==> SnapLinked(b.snaps[i], i, b.estate))
  }

  ghost predicate Consistent(b: Books, m: seq<Frame>, u: set<nat>) {
    Held(b.estate, m, u) && Linked(b)
  }

  // ---- reading the books --------------------------------------------------

  ghost function ProcAt(slot: Slot, p: nat, e: Estate, m: seq<Frame>): Proc
    requires |m| == POOL_FRAMES
  {
    var o := SlotOwner(p);
    Proc(slot.info,
         if o in e.spaces then Some(View(m, e.spaces[o])) else None,
         if o in e.saved && e.saved[o] < POOL_FRAMES then Some(RegsAt(m[e.saved[o]])) else None)
  }

  ghost function SnapAt(s: SnapSlot, i: nat, e: Estate, m: seq<Frame>): Option<Snap>
    requires |m| == POOL_FRAMES
  {
    var o := SnapOwner(i);
    if o in e.spaces && o in e.saved && e.saved[o] < POOL_FRAMES
    then Some(Snap(View(m, e.spaces[o]), RegsAt(m[e.saved[o]]), s.caps, s.image)) else None
  }

  ghost function Procs(b: Books, m: seq<Frame>): (r: seq<Proc>)
    requires |m| == POOL_FRAMES
    ensures |r| == |b.table| && forall p: nat :: p < |b.table| ==> r[p] == ProcAt(b.table[p], p, b.estate, m)
  {
    seq(|b.table|, p requires 0 <= p < |b.table| => ProcAt(b.table[p], p, b.estate, m))
  }

  ghost function Snaps(b: Books, m: seq<Frame>): (r: seq<Option<Snap>>)
    requires |m| == POOL_FRAMES
    ensures |r| == |b.snaps| && forall i: nat :: i < |b.snaps| ==> r[i] == SnapAt(b.snaps[i], i, b.estate, m)
  {
    seq(|b.snaps|, i requires 0 <= i < |b.snaps| => SnapAt(b.snaps[i], i, b.estate, m))
  }

  // ---- one owner at a time ------------------------------------------------

  /** Only owner `o` is affected between `(e, m)` and `(e', m')`. */
  ghost predicate AgreeOff(e: Estate, m: seq<Frame>, e': Estate, m': seq<Frame>, o: Owner) {
    && |m| == |m'| == POOL_FRAMES
    && (forall x :: x != o ==> (x in e.spaces <==> x in e'.spaces) && (x in e.saved <==> x in e'.saved))
    && (forall x :: x != o && x in e.spaces ==> e'.spaces[x] == e.spaces[x] && View(m', e.spaces[x]) == View(m, e.spaces[x]))
    && (forall x :: x != o && x in e.saved ==> e'.saved[x] == e.saved[x])
    && (forall x :: x != o && x in e.saved && e.saved[x] < POOL_FRAMES ==> m'[e.saved[x]] == m[e.saved[x]])
  }

  /** Changes outside the allocated set, and to one owner's entries. */
  lemma AgreeByUse(e: Estate, m: seq<Frame>, u: set<nat>, e': Estate, m': seq<Frame>, o: Owner)
    requires Held(e, m, u) && |m'| == POOL_FRAMES && forall f: nat :: f in u && f < POOL_FRAMES ==> m'[f] == m[f]
    requires forall x :: x != o ==> (x in e.spaces <==> x in e'.spaces) && (x in e.saved <==> x in e'.saved)
    requires forall x :: x != o && x in e.spaces ==> e'.spaces[x] == e.spaces[x]
    requires forall x :: x != o && x in e.saved ==> e'.saved[x] == e.saved[x]
    ensures AgreeOff(e, m, e', m', o)
  {
    hide Represents;
    hide SafeSpace;
    hide View;
    forall x | x in e.spaces ensures View(m', e.spaces[x]) == View(m, e.spaces[x]) {
      ViewFrame(m, m', e.spaces[x]);
    }
  }

  /** A write into a frame held by `o`. */
  lemma AgreeByWrite(e: Estate, m: seq<Frame>, u: set<nat>, f: nat, x: Frame, o: Owner)
    requires Held(e, m, u) && f < POOL_FRAMES && f in e.holder && (e.holder[f] == InSpace(o) || e.holder[f] == SavedBy(o))
    ensures AgreeOff(e, m, e, m[f := x], o)
  {
    hide Represents;
    hide SafeSpace;
    hide View;
    forall y | y != o && y in e.spaces ensures View(m[f := x], e.spaces[y]) == View(m, e.spaces[y]) {
      ViewFrame(m, m[f := x], e.spaces[y]);
    }
  }

  /** A change to one process slot changes that process alone. */
  lemma SlotStep(b: Books, m: seq<Frame>, b': Books, m': seq<Frame>, p: nat)
    requires |b.table| == |b'.table| == MAX_PROC && p < MAX_PROC && b'.snaps == b.snaps
    requires AgreeOff(b.estate, m, b'.estate, m', SlotOwner(p)) && b'.table == b.table[p := b'.table[p]]
    ensures Procs(b', m') == Procs(b, m)[p := ProcAt(b'.table[p], p, b'.estate, m')]
    ensures Snaps(b', m') == Snaps(b, m)
  {
    hide View;
    hide Procs;
    hide Snaps;
    forall q: nat | q < MAX_PROC && q != p
      ensures ProcAt(b'.table[q], q, b'.estate, m') == ProcAt(b.table[q], q, b.estate, m)
    {
    }
    forall i: nat | i < |b.snaps| ensures SnapAt(b'.snaps[i], i, b'.estate, m') == SnapAt(b.snaps[i], i, b.estate, m) {
    }
  }

  /** A change to one checkpoint slot changes that checkpoint alone. */
  lemma SnapStep(b: Books, m: seq<Frame>, b': Books, m': seq<Frame>, i: nat)
    requires |b.snaps| == |b'.snaps| == MAX_SNAP && i < MAX_SNAP && b'.table == b.table
    requires AgreeOff(b.estate, m, b'.estate, m', SnapOwner(i)) && b'.snaps == b.snaps[i := b'.snaps[i]]
    ensures Snaps(b', m') == Snaps(b, m)[i := SnapAt(b'.snaps[i], i, b'.estate, m')]
    ensures Procs(b', m') == Procs(b, m)
  {
    hide View;
    hide Procs;
    hide Snaps;
    forall j: nat | j < MAX_SNAP && j != i
      ensures SnapAt(b'.snaps[j], j, b'.estate, m') == SnapAt(b.snaps[j], j, b.estate, m)
    {
    }
    forall q: nat | q < |b.table| ensures ProcAt(b'.table[q], q, b'.estate, m') == ProcAt(b.table[q], q, b.estate, m) {
    }
  }

  lemma LinkedSlot(b: Books, b': Books, p: nat)
    requires Linked(b) && p < MAX_PROC && b'.kernelRoot == b.kernelRoot && b'.snaps == b.snaps
    requires |b'.table| == MAX_PROC && b'.table == b.table[p := b'.table[p]] && SlotLinked(b'.table[p], p, b'.estate)
    requires forall x :: x != SlotOwner(p) ==> (x in b.estate.spaces <==> x in b'.estate.spaces) && (x in b.estate.saved <==> x in b'.estate.saved)
    requires forall x :: x != SlotOwner(p) && x in b.estate.spaces ==> b'.estate.spaces[x] == b.estate.spaces[x]
    requires forall x :: x != SlotOwner(p) && x in b.estate.saved ==> b'.estate.saved[x] == b.estate.saved[x]
    ensures Linked(b')
  {
    hide Pa;
  }

  lemma LinkedSnap(b: Books, b': Books, i: nat)
    requires Linked(b) && i < MAX_SNAP && b'.kernelRoot == b.kernelRoot && b'.table == b.table
    requires |b'.snaps| == MAX_SNAP && b'.snaps == b.snaps[i := b'.snaps[i]] && SnapLinked(b'.snaps[i], i, b'.estate)
    requires forall x :: x != SnapOwner(i) ==> (x in b.estate.spaces <==> x in b'.estate.spaces) && (x in b.estate.saved <==> x in b'.estate.saved)
    requires forall x :: x != SnapOwner(i) && x in b.estate.spaces ==> b'.estate.spaces[x] == b.estate.spaces[x]
    requires forall x :: x != SnapOwner(i) && x in b.estate.saved ==> b'.estate.saved[x] == b.estate.saved[x]
    ensures Linked(b')
  {
    hide Pa;
  }
}
