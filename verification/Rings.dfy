/** Fixed-size rings: the trap ring and the notable-trap ring behind the digest
    (kernel/src/traps.rs), and the window of operation ids that makes mutating calls
    idempotent (kernel/src/rpc.rs). */
module Rings {
  import opened Words
  import opened FramePool

  lemma SlotsDiffer(n: nat, m: nat, size: nat)
    requires n < m < n + size
    ensures SlotOf(n, size) != SlotOf(m, size)
  {
    var q := m / size - n / size;
    assert m - n == size * q + (m % size - n % size);
    WholeSteps(size, q);
  }

  /** The slot that record `n` goes to. */
  function SlotOf(n: nat, size: nat): (i: nat)
    requires size > 0
    ensures i < size && (n < size ==> i == n)
  {
    n % size
  }

  class Ring<T(0, ==)> {
    const slots: array<T>
    const blank: T
    var count: nat
    /** Everything ever recorded. */
    ghost var history: seq<T>

    ghost predicate Valid()
      reads this, slots
    {
      && slots.Length > 0 && |history| == count
      && (forall n: nat :: n < count && count <= n + slots.Length ==> slots[SlotOf(n, slots.Length)] == history[n])
      && (forall i: nat :: count <= i < slots.Length ==> slots[i] == blank)
    }

    /** The most recent records, oldest first. */
    ghost function Last(k: nat): seq<T>
      reads this
    {
      if k < |history| then history[|history| - k..] else history
    }

    constructor (size: nat, empty: T)
      requires size > 0
      ensures Valid() && history == [] && blank == empty && slots.Length == size && fresh(slots)
    {
      slots := new T[size](i => empty);
      blank, count, history := empty, 0, [];
    }

    /** `ring_record`, `op_record`. */
    method Record(x: T)
      requires Valid()
      modifies this, slots
      ensures Valid() && history == old(history) + [x]
    {
      hide SlotOf;
      forall n: nat | n < count && count < n + slots.Length ensures SlotOf(n, slots.Length) != SlotOf(count, slots.Length) {
        SlotsDiffer(n, count, slots.Length);
      }
      slots[SlotOf(count, slots.Length)] := x;
      history := history + [x];
      count := count + 1;
    }

    /** `write_ring`: the ring's records, oldest first. */
    method Dump() returns (r: seq<T>)
      requires Valid()
      ensures |r| == if |history| < slots.Length then |history| else slots.Length
      ensures forall k: nat :: k < |r| ==> r[k] == history[|history| - |r| + k]
    {
      var first := if count < slots.Length then 0 else count - slots.Length;
      r := [];
      for n := first to count
        invariant r == history[first..n]
      {
        r := r + [slots[SlotOf(n, slots.Length)]];
      }
      assert history[first..count] == history[first..];
    }

    /** The item loop of `write_digest`: up to `budget` records, newest first. */
    method Newest(budget: nat) returns (r: seq<T>)
      requires Valid()
      ensures |r| <= budget && |r| <= slots.Length && |r| <= |history| && (|r| == budget || |r| == slots.Length || |r| == |history|)
      ensures forall k: nat :: k < |r| ==> r[k] == history[|history| - 1 - k]
    {
      var show := if count < budget then count else budget;
      show := if show < slots.Length then show else slots.Length;
      r := [];
      for k := 0 to show
        invariant |r| == k && forall j: nat :: j < k ==> r[j] == history[|history| - 1 - j]
      {
        r := r + [slots[SlotOf(count - 1 - k, slots.Length)]];
      }
    }

    /** `op_seen`: some slot holds `x`. */
    method Holds(x: T) returns (b: bool)
      requires Valid()
      ensures b <==> x in Last(slots.Length) || (count < slots.Length && x == blank)
    {
      b := false;
      for i := 0 to slots.Length
        invariant b <==> exists j: nat :: j < i && slots[j] == x
      {
        if slots[i] == x {
          b := true;
        }
      }
      SlotsAre(x);
    }

    lemma SlotsAre(x: T)
      requires Valid()
      ensures (exists j: nat :: j < slots.Length && slots[j] == x) <==> x in Last(slots.Length) || (count < slots.Length && x == blank)
    {
      forall j: nat | j < slots.Length && j < count ensures slots[j] in Last(slots.Length) {
        var n := NewestAt(count, slots.Length, j);
        assert slots[SlotOf(n, slots.Length)] == history[n];
        assert history[n] in Last(slots.Length) by {
          var first := if slots.Length < count then count - slots.Length else 0;
          assert Last(slots.Length)[n - first] == history[n];
        }
      }
      if x in Last(slots.Length) {
        var k :| 0 <= k < |Last(slots.Length)| && Last(slots.Length)[k] == x;
        var n := if slots.Length < count then count - slots.Length + k else k;
        assert slots[SlotOf(n, slots.Length)] == history[n] == x;
      }
      if count < slots.Length {
        assert slots[count] == blank;
      }
    }
  }

  /** The latest of the first `count` records that went to slot `j`. */
  lemma NewestAt(count: nat, size: nat, j: nat) returns (n: nat)
    requires j < size && j < count
    ensures n < count <= n + size && n % size == j
  {
    var d := (count - 1 - j) % size;
    n := count - 1 - d;
    var q := (count - 1 - j) / size;
    assert n == size * q + j;
    DivMod(size, q, j);
  }

  // ---- traps --------------------------------------------------------------

  datatype Trap = Trap(id: nat, scause: nat, sepc: Word, stval: Word)

  /** Supervisor timer interrupt. */
  const CAUSE_S_TIMER: nat := 0x8000_0000_0000_0005
  /** Environment call from U-mode. */
  const CAUSE_U_ECALL: nat := 8
  const RING_SIZE: nat := 8
  const NOTABLE_SIZE: nat := 4

  predicate IsNotable(t: Trap) { t.scause != CAUSE_S_TIMER }

  function Notables(ts: seq<Trap>): seq<Trap> {
    if ts == [] then [] else Notables(ts[..|ts| - 1]) + if IsNotable(ts[|ts| - 1]) then [ts[|ts| - 1]] else []
  }

  /** How many of the traps are system calls, or faults. */
  function CountOf(ts: seq<Trap>, ecall: bool): nat {
    if ts == [] then 0
    else CountOf(ts[..|ts| - 1], ecall) + var t := ts[|ts| - 1]; if IsNotable(t) && (t.scause == CAUSE_U_ECALL) == ecall then 1 else 0
  }

  /** One more trap: it is notable unless it is a timer interrupt, and counts as a system call
      or as a fault. */
  lemma LogStep(ts: seq<Trap>, t: Trap)
    ensures Notables(ts + [t]) == Notables(ts) + if t.scause == 0x8000_0000_0000_0005 then [] else [t]
    ensures CountOf(ts + [t], true) == CountOf(ts, true) + if t.scause == 8 then 1 else 0
    ensures CountOf(ts + [t], false) == CountOf(ts, false) + if t.scause == 8 || t.scause == 0x8000_0000_0000_0005 then 0 else 1
  {
    assert (ts + [t])[..|ts|] == ts;
  }

  /** The two counters account for every notable trap. */
  lemma {:induction false} CountsAll(ts: seq<Trap>)
    ensures CountOf(ts, true) + CountOf(ts, false) == |Notables(ts)|
  {
    if ts != [] {
      CountsAll(ts[..|ts| - 1]);
    }
  }

  /** A run of ticks, however long, evicts nothing. */
  lemma {:induction false} TicksNotNotable(ts: seq<Trap>, ticks: seq<Trap>)
    requires forall i :: 0 <= i < |ticks| ==> !IsNotable(ticks[i])
    ensures Notables(ts + ticks) == Notables(ts)
  {
    if ticks == [] {
      assert ts + ticks == ts;
    } else {
      assert (ts + ticks)[..|ts + ticks| - 1] == ts + ticks[..|ticks| - 1];
      TicksNotNotable(ts, ticks[..|ticks| - 1]);
    }
  }

  /** All traps, and the notable ones apart. */
  class TrapLog {
    const ring: Ring<Trap>
    const notable: Ring<Trap>
    var ecalls: nat
    var faults: nat

    ghost predicate Valid()
      reads this, ring, ring.slots, notable, notable.slots
    {
      && ring.Valid() && notable.Valid() && ring != notable && ring.slots != notable.slots
      && ring.slots.Length == RING_SIZE && notable.slots.Length == NOTABLE_SIZE
      && notable.history == Notables(ring.history)
      && ecalls == CountOf(ring.history, true) && faults == CountOf(ring.history, false)
    }

    constructor ()
      ensures Valid() && ring.history == [] && fresh(ring) && fresh(notable) && fresh(ring.slots) && fresh(notable.slots)
    {
      var none := Trap(0, 0, 0, 0);
      ring := new Ring<Trap>(RING_SIZE, none);
      notable := new Ring<Trap>(NOTABLE_SIZE, none);
      ecalls, faults := 0, 0;
    }

    /** `ring_record`. */
    method Record(t: Trap)
      requires Valid()
      modifies this, ring, ring.slots, notable, notable.slots
      ensures Valid() && ring.history == old(ring.history) + [t]
    {
      hide Ring.Valid;
      hide Notables;
      hide CountOf;
      LogStep(ring.history, t);
      ring.Record(t);
      if IsNotable(t) {
        if t.scause == CAUSE_U_ECALL {
          ecalls := ecalls + 1;
        } else {
          faults := faults + 1;
        }
        notable.Record(t);
      }
    }

    /** What the digest shows: the newest notable traps, however many ticks came since, and
        the counters, which add up to all notable traps ever. */
    method Digest(budget: nat) returns (r: seq<Trap>, calls: nat, bad: nat)
      requires Valid()
      ensures calls + bad == |Notables(ring.history)| && calls == CountOf(ring.history, true)
      ensures var ns := Notables(ring.history);
        && |r| <= budget && |r| <= 4 && |r| <= |ns| && (|r| == budget || |r| == 4 || |r| == |ns|)
        && forall k: nat :: k < |r| ==> r[k] == ns[|ns| - 1 - k]
    {
      CountsAll(ring.history);
      r := notable.Newest(budget);
      calls, bad := ecalls, faults;
    }
  }

  // ---- idempotent calls ---------------------------------------------------

  const OP_SLOTS: nat := 8

  /** No operation id comes back within the window. */
  ghost predicate Spaced(ids: seq<Word>) {
    forall i: nat, j: nat :: i < j < |ids| && ids[i] == ids[j] ==> j - i > 8
  }

  class OpWindow {
    const ring: Ring<Word>

    /** Calls executed under one id are always more than eight recorded ids apart. */
    ghost predicate Valid()
      reads this, ring, ring.slots
    {
      ring.Valid() && ring.slots.Length == OP_SLOTS && ring.blank == 0 && Spaced(ring.history)
    }

    constructor ()
      ensures Valid() && ring.history == [] && fresh(ring) && fresh(ring.slots)
    {
      ring := new Ring<Word>(OP_SLOTS, 0);
    }

    /** The idempotency gate of a mutating tool call, for the hash of its id if it has one:
        should the call be executed? Hashes are never 0. */
    method Admit(op: Option<Word>) returns (execute: bool)
      requires Valid() && op != Some(0)
      modifies ring, ring.slots
      ensures Valid()
      ensures execute <==> op.None? || op.value !in old(ring.Last(8))
      ensures ring.history == old(ring.history) + if execute && op.Some? then [op.value] else []
    {
      if op.None? {
        return true;
      }
      var seen := ring.Holds(op.value);
      if seen {
        return false;
      }
      ghost var was := ring.history;
      NotRecent(was, ring.Last(OP_SLOTS), op.value);
      ring.Record(op.value);
      return true;
    }
  }

  lemma NotRecent(was: seq<Word>, last: seq<Word>, h: Word)
    requires Spaced(was) && h !in last && last == if OP_SLOTS < |was| then was[|was| - OP_SLOTS..] else was
    ensures Spaced(was + [h])
  {
    var first := if OP_SLOTS < |was| then |was| - OP_SLOTS else 0;
    forall i: nat | first <= i < |was| ensures was[i] in last {
      assert last[i - first] == was[i];
    }
  }
}
