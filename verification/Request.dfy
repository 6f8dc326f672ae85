/** The kernel's request reader (kernel/src/rpc.rs, `getc_stall` and `read_request`): a frame
    is read byte by byte from a console that may have nothing to give, and a sender that
    stalls is abandoned. */
module Request {
  import opened Words
  import opened FramePool
  import opened Framing

  const MAX_REQ: nat := 512
  const MAX_STALL_WAITS: nat := 16

  /** What successive polls of the console return; afterwards, nothing. */
  type Polls = seq<Option<Byte>>

  /** One byte, after at most `patience` more empty polls. */
  function Await(polls: Polls, patience: nat): (Option<Byte>, Polls)
    decreases patience
  {
    if polls != [] && polls[0].Some? then (polls[0], polls[1..])
    else
      var rest := if polls == [] then [] else polls[1..];
      if patience == 0 then (None, rest) else Await(rest, patience - 1)
  }

  /** `n` bytes, none of them after more than sixteen empty polls, and what is left. */
  function AwaitAll(polls: Polls, n: nat): (r: Option<(Bytes, Polls)>)
    ensures r.Some? ==> |r.value.0| == n
  {
    if n == 0 then Some(([], polls))
    else match AwaitAll(polls, n - 1)
      case None => None
      case Some((w, rest)) =>
        match Await(rest, MAX_STALL_WAITS)
        case (None, _) => None
        case (Some(b), left) => Some((w + [b], left))
  }

  // ---- when a sender is heard ---------------------------------------------

  function Idle(n: nat): Polls { seq(n, i => None) }

  /** A sender's bytes, each after some number of empty polls. */
  function Sent(w: Bytes, gaps: seq<nat>): Polls
    requires |gaps| == |w|
  {
    if w == [] then [] else Sent(w[..|w| - 1], gaps[..|w| - 1]) + (Idle(gaps[|w| - 1]) + [Some(w[|w| - 1])])
  }

  lemma {:induction false} AwaitGap(gap: nat, b: Byte, rest: Polls, patience: nat)
    ensures gap <= patience ==> Await(Idle(gap) + [Some(b)] + rest, patience) == (Some(b), rest)
    ensures gap > patience ==> Await(Idle(gap) + [Some(b)] + rest, patience).0 == None
    decreases gap
  {
    var polls := Idle(gap) + [Some(b)] + rest;
    if gap == 0 {
      assert polls[1..] == rest;
    } else {
      assert polls[1..] == Idle(gap - 1) + [Some(b)] + rest;
      if patience > 0 {
        AwaitGap(gap - 1, b, rest, patience - 1);
      }
    }
  }

  /** A message is heard, to its last byte and no further, exactly when no byte keeps the
      kernel waiting for more than sixteen polls. */
  lemma {:induction false} Heard(w: Bytes, gaps: seq<nat>, rest: Polls)
    requires |gaps| == |w|
    ensures (forall i :: 0 <= i < |w| ==> gaps[i] <= 16) ==> AwaitAll(Sent(w, gaps) + rest, |w|) == Some((w, rest))
    ensures AwaitAll(Sent(w, gaps) + rest, |w|).Some? ==> forall i :: 0 <= i < |w| ==> gaps[i] <= 16
    decreases |w|
  {
    hide Await;
    hide Idle;
    if w == [] {
      assert Sent(w, gaps) + rest == rest;
    } else {
      var n := |w| - 1;
      var last := Idle(gaps[n]) + [Some(w[n])];
      Assoc(Sent(w[..n], gaps[..n]), last, rest);
      Heard(w[..n], gaps[..n], last + rest);
      AwaitGap(gaps[n], w[n], rest, MAX_STALL_WAITS);
      assert w[..n] + [w[n]] == w;
      assert gaps == gaps[..n] + [gaps[n]];
    }
  }

  // ---- the reader ---------------------------------------------------------

  /** What follows the first magic byte of a frame. */
  function Remainder(payload: Bytes): (r: Bytes)
    requires |payload| < 0x1_0000_0000
    ensures |r| == 5 + |payload|
  {
    [MAGIC1] + LengthBytes(|payload|) + payload
  }

  class Serial {
    var polls: Polls

    constructor (input: Polls)
      ensures polls == input
    {
      polls := input;
    }

    method GetChar() returns (b: Option<Byte>)
      modifies this
      ensures b == if old(polls) == [] then None else old(polls)[0]
      ensures polls == if old(polls) == [] then [] else old(polls)[1..]
    {
      if polls == [] {
        return None;
      }
      b := polls[0];
      polls := polls[1..];
    }

    /** `getc_stall`. */
    method GetcStall() returns (b: Option<Byte>)
      modifies this
      ensures (b, polls) == Await(old(polls), MAX_STALL_WAITS)
    {
      var idle := 0;
      while true
        invariant idle <= MAX_STALL_WAITS
        invariant Await(polls, MAX_STALL_WAITS - idle) == Await(old(polls), MAX_STALL_WAITS)
        decreases MAX_STALL_WAITS - idle
      {
        b := GetChar();
        if b.Some? {
          return;
        }
        idle := idle + 1;
        if idle > MAX_STALL_WAITS {
          return None;
        }
      }
    }

    /** `n` bytes into a buffer, continuing a read of `have` begun at `start`. */
    method Fill(n: nat, ghost start: Polls, ghost have: Bytes) returns (buf: Option<Bytes>)
      requires AwaitAll(start, |have|) == Some((have, polls))
      modifies this
      ensures buf.Some? ==> |buf.value| == n && AwaitAll(start, |have| + n) == Some((have + buf.value, polls))
      ensures buf.None? ==> AwaitAll(start, |have| + n) == None
    {
      hide Await;
      var got: Bytes := [];
      assert have + got == have;
      for i := 0 to n
        invariant |got| == i && AwaitAll(start, |have| + i) == Some((have + got, polls))
      {
        var b := GetcStall();
        if b.None? {
          StaysNone(start, |have| + i + 1, |have| + n);
          return None;
        }
        assert have + (got + [b.value]) == have + got + [b.value];
        got := got + [b.value];
      }
      return Some(got);
    }

    /** `read_request`, entered after the byte 0xAA: the payload that goes on to the
        dispatcher, exactly when a whole frame of 1 to 512 bytes arrives without a stall.
        Exactly the frame is consumed. A wrong second byte or an implausible length is
        dropped without draining anything more. */
    method ReadRequest() returns (r: Option<Bytes>)
      modifies this
      ensures r.Some? ==> Arrives(old(polls), r.value) && AwaitAll(old(polls), 5 + |r.value|).value.1 == polls
      ensures forall p: Bytes :: Arrives(old(polls), p) ==> r == Some(p)
      ensures var one := AwaitAll(old(polls), 1); one.Some? && one.value.0 != [MAGIC1] ==> r.None? && polls == one.value.1
      ensures var head := AwaitAll(old(polls), 5);
        head.Some? && head.value.0[0] == MAGIC1 && !(1 <= LengthOf(head.value.0[1..]) <= MAX_REQ) ==> r.None? && polls == head.value.1
    {
      hide AwaitAll;
      hide LengthOf;
      hide LengthBytes;
      ghost var start := polls;
      AwaitNone(start);
      RequestPrefix(start);
      var magic := Fill(1, start, []);
      if magic.None? {
        return None;
      }
      assert [] + magic.value == magic.value;
      if magic.value != [MAGIC1] {
        return None;
      }
      var lenb := Fill(4, start, magic.value);
      if lenb.None? {
        return None;
      }
      var len := LengthOf(lenb.value);
      ghost var head := magic.value + lenb.value;
      assert head[1..] == lenb.value;
      LengthUnique(lenb.value);
      if len == 0 || len > MAX_REQ {
        return None;
      }
      var body := Fill(len, start, head);
      if body.Some? {
        assert Remainder(body.value) == head + body.value;
        forall p: Bytes | Arrives(start, p) ensures p == body.value {
          assert Remainder(p)[5..] == p && Remainder(body.value)[5..] == body.value;
        }
      }
      return body;
    }
  }

  /** The rest of a frame with payload `p` of 1 to 512 bytes is what comes next. */
  predicate Arrives(polls: Polls, p: Bytes) {
    1 <= |p| <= MAX_REQ && AwaitAll(polls, 5 + |p|).Some? && AwaitAll(polls, 5 + |p|).value.0 == Remainder(p)
  }

  lemma {:induction false} AwaitPrefix(polls: Polls, n: nat, k: nat)
    requires k <= n && AwaitAll(polls, n).Some?
    ensures AwaitAll(polls, k).Some? && AwaitAll(polls, k).value.0 == AwaitAll(polls, n).value.0[..k]
    decreases n
  {
    hide Await;
    if k < n {
      AwaitPrefix(polls, n - 1, k);
    }
  }

  lemma RequestPrefix(polls: Polls)
    ensures AwaitAll(polls, 5).Some? ==> AwaitAll(polls, 1).Some? && AwaitAll(polls, 1).value.0 == [AwaitAll(polls, 5).value.0[0]]
    ensures forall p: Bytes :: Arrives(polls, p) ==> AwaitAll(polls, 1).Some? && AwaitAll(polls, 1).value.0 == [MAGIC1]
    ensures forall p: Bytes :: Arrives(polls, p) ==>
      AwaitAll(polls, 5).Some? && AwaitAll(polls, 5).value.0[1..] == LengthBytes(|p|) && LengthOf(AwaitAll(polls, 5).value.0[1..]) == |p|
  {
    hide AwaitAll;
    hide LengthOf;
    hide LengthBytes;
    if AwaitAll(polls, 5).Some? {
      AwaitPrefix(polls, 5, 1);
    }
    forall p: Bytes | Arrives(polls, p)
      ensures AwaitAll(polls, 1).Some? && AwaitAll(polls, 1).value.0 == [MAGIC1]
      ensures AwaitAll(polls, 5).Some? && AwaitAll(polls, 5).value.0[1..] == LengthBytes(|p|) && LengthOf(AwaitAll(polls, 5).value.0[1..]) == |p|
    {
      AwaitPrefix(polls, 5 + |p|, 1);
      AwaitPrefix(polls, 5 + |p|, 5);
      LengthReadsBack(|p|);
      assert Remainder(p)[..5][1..] == LengthBytes(|p|);
    }
  }

  lemma AwaitNone(polls: Polls)
    ensures AwaitAll(polls, 0) == Some(([], polls))
  {
  }

  /** A stalled read stays stalled. */
  lemma {:induction false} StaysNone(polls: Polls, i: nat, n: nat)
    requires i <= n && AwaitAll(polls, i).None?
    ensures AwaitAll(polls, n).None?
    decreases n
  {
    if i < n {
      StaysNone(polls, i, n - 1);
    }
  }

  /** A request frame whose bytes, after the first, come without a stall is returned whole:
      the second magic byte, the length, and a payload of 1 to 512 bytes, with no more than
      sixteen empty polls before any byte. */
  lemma RequestArrives(p: Bytes, w: Bytes, gaps: seq<nat>, rest: Polls)
    requires 1 <= |p| <= 512 && |w| == 5 + |p| && w[0] == 0x99 && w[5..] == p
    requires w[1] as int + 0x100 * w[2] as int + 0x1_0000 * w[3] as int + 0x100_0000 * w[4] as int == |p|
    requires |gaps| == |w| && forall i :: 0 <= i < |w| ==> gaps[i] <= 16
    ensures Arrives(Sent(w, gaps) + rest, p)
  {
    hide Sent;
    hide AwaitAll;
    Heard(w, gaps, rest);
    var l := w[1..5];
    LengthUnique(l);
    assert w == [w[0]] + l + w[5..];
  }
}
