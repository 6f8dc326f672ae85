/** Building and sending frames (kernel/src/console.rs): the bounded buffer, and escaping
    bytes so that they can be read back from a JSON string. */
module Console {
  import opened Words
  import opened FramePool
  import opened Framing

  const CAPACITY: nat := 2048

  /** ASCII text as bytes. */
  function Text(s: string): (r: Bytes)
    requires forall i :: 0 <= i < |s| ==> s[i] < 128 as char
    ensures |r| == |s|
  {
    seq(|s|, i requires 0 <= i < |s| => s[i] as int)
  }

  // ---- escaping -----------------------------------------------------------

  function HexDigit(n: nat): Byte
    requires n < 16
  {
    if n < 10 then 48 + n else 87 + n
  }

  /** One byte of payload output inside a JSON string. */
  function EscapeByte(b: Byte): (r: Bytes)
    ensures 1 <= |r| <= 6
  {
    if b == QUOTE then [BACKSLASH, QUOTE]
    else if b == BACKSLASH then [BACKSLASH, BACKSLASH]
    else if 0x20 <= b <= 0x7E then [b]
    else [BACKSLASH, 117, 48, 48, HexDigit(b / 16), HexDigit(b % 16)]
  }

  function Escape(bytes: Bytes): Bytes {
    if bytes == [] then [] else EscapeByte(bytes[0]) + Escape(bytes[1..])
  }

  lemma {:induction false} EscapeJoin(a: Bytes, b: Bytes)
    ensures Escape(a + b) == Escape(a) + Escape(b)
  {
    if a == [] {
      assert a + b == b;
    } else {
      assert (a + b)[1..] == a[1..] + b;
      EscapeJoin(a[1..], b);
      Assoc(EscapeByte(a[0]), Escape(a[1..]), Escape(b));
    }
  }

  /** Only printable ASCII comes out, at most six bytes for one. */
  lemma {:induction false} EscapeIsPrintable(bytes: Bytes)
    ensures |bytes| <= |Escape(bytes)| <= 6 * |bytes|
    ensures forall i :: 0 <= i < |Escape(bytes)| ==> 0x20 <= Escape(bytes)[i] <= 0x7E
  {
    if bytes != [] {
      EscapeIsPrintable(bytes[1..]);
    }
  }

  /** Printable bytes stand for themselves, quote and backslash get a backslash, and any other
      byte becomes a backslash, `u00` and two lower-case hexadecimal digits. */
  lemma EscapeExact(b: Byte)
    ensures b == 0x22 || b == 0x5C ==> EscapeByte(b) == [0x5C, b]
    ensures 0x20 <= b <= 0x7E && b != 0x22 && b != 0x5C ==> EscapeByte(b) == [b]
    ensures b < 0x20 || 0x7E < b ==>
      var e := EscapeByte(b);
      && |e| == 6 && e[..4] == [0x5C, 0x75, 0x30, 0x30]
      && (0x30 <= e[4] <= 0x39 || 0x61 <= e[4] <= 0x66) && (0x30 <= e[5] <= 0x39 || 0x61 <= e[5] <= 0x66)
      && HexFour(e[2], e[3], e[4], e[5]) == Some(b as nat)
  {
  }

  // ---- reading a string back (section 7 of RFC 8259) ----------------------

  function HexValue(b: Byte): Option<nat> {
    if 48 <= b <= 57 then Some(b - 48)
    else if 97 <= b <= 102 then Some(b - 87)
    else if 65 <= b <= 70 then Some(b - 55)
    else None
  }

  function HexFour(a: Byte, b: Byte, c: Byte, d: Byte): Option<nat> {
    if HexValue(a).Some? && HexValue(b).Some? && HexValue(c).Some? && HexValue(d).Some?
    then Some(((HexValue(a).value * 16 + HexValue(b).value) * 16 + HexValue(c).value) * 16 + HexValue(d).value) else None
  }

  /** The character an escape stands for, and the length of the escape. */
  function Unescaped(t: Bytes): (r: Option<(nat, nat)>)
    requires |t| >= 1 && t[0] == BACKSLASH
    ensures r.Some? ==> 2 <= r.value.1 <= |t|
  {
    if |t| < 2 then None
    else match t[1]
      case 0x22 => Some((0x22, 2))
      case 0x5C => Some((0x5C, 2))
      case 0x2F => Some((0x2F, 2))
      case 98 => Some((8, 2))
      case 102 => Some((12, 2))
      case 110 => Some((10, 2))
      case 114 => Some((13, 2))
      case 116 => Some((9, 2))
      case 117 => if |t| >= 6 && HexFour(t[2], t[3], t[4], t[5]).Some? then Some((HexFour(t[2], t[3], t[4], t[5]).value, 6)) else None
      case _ => None
  }

  /** Read ASCII string content up to the closing quote: the characters, and what follows. */
  function ReadString(t: Bytes): Option<(seq<nat>, Bytes)>
    decreases |t|
  {
    if t == [] || t[0] < 0x20 || t[0] >= 0x80 then None
    else if t[0] == QUOTE then Some(([], t[1..]))
    else if t[0] != BACKSLASH then Before(t[0], ReadString(t[1..]))
    else match Unescaped(t)
      case Some((c, n)) => Before(c, ReadString(t[n..]))
      case None => None
  }

  function Before(c: nat, r: Option<(seq<nat>, Bytes)>): Option<(seq<nat>, Bytes)> {
    match r
    case Some((cs, rest)) => Some(([c] + cs, rest))
    case None => None
  }

  lemma EscapeReads(b: Byte, tail: Bytes)
    ensures ReadString(EscapeByte(b) + tail) == Before(b, ReadString(tail))
  {
    var t := EscapeByte(b) + tail;
    assert t[|EscapeByte(b)|..] == tail;
    if b != QUOTE && b != BACKSLASH && !(0x20 <= b <= 0x7E) {
      assert HexFour(48, 48, HexDigit(b / 16), HexDigit(b % 16)) == Some(b);
    }
  }

  /** Payload output is lossless and confined: a reader of the string gets the very bytes and
      stops at the kernel's closing quote, whatever the bytes are and whatever follows. */
  lemma {:induction false} EscapedReadsBack(bytes: Bytes, tail: Bytes)
    ensures ReadString(Escape(bytes) + [QUOTE] + tail) == Some((bytes, tail))
  {
    hide EscapeByte;
    if bytes == [] {
      var t := Escape(bytes) + [QUOTE] + tail;
      assert t[1..] == tail;
    } else {
      hide ReadString;
      var rest := Escape(bytes[1..]) + [QUOTE] + tail;
      assert Escape(bytes) + [QUOTE] + tail == EscapeByte(bytes[0]) + rest;
      EscapedReadsBack(bytes[1..], tail);
      EscapeReads(bytes[0], rest);
      assert [bytes[0]] + bytes[1..] == bytes;
    }
  }

  // ---- the frame buffer ---------------------------------------------------

  class FrameBuf {
    const buf: array<Byte>
    var len: nat
    var overflow: bool

    ghost predicate Valid()
      reads this
    {
      buf.Length == CAPACITY && len <= CAPACITY
    }

    ghost function Contents(): Bytes
      reads this, buf
      requires Valid()
    {
      buf[..len]
    }

    constructor ()
      ensures Valid() && fresh(buf) && Contents() == [] && !overflow
    {
      buf := new Byte[CAPACITY](i => 0);
      len, overflow := 0, false;
    }

    /** `write_str`: all of it, or none of it and the frame is poisoned. */
    method Write(s: Bytes) returns (ok: bool)
      requires Valid()
      modifies this, buf
      ensures Valid()
      ensures ok <==> |old(Contents())| + |s| <= 2048
      ensures Contents() == if ok then old(Contents()) + s else old(Contents())
      ensures overflow <==> old(overflow) || !ok
    {
      if len + |s| > CAPACITY {
        overflow := true;
        return false;
      }
      for i := 0 to |s|
        modifies buf
        invariant buf[..len] == old(Contents())
        invariant buf[len..len + i] == s[..i]
      {
        buf[len + i] := s[i];
      }
      len := len + |s|;
      return true;
    }

    /** `write_json_escaped_bytes`: stops at the first byte whose escape does not fit. */
    method WriteEscaped(bytes: Bytes) returns (ok: bool)
      requires Valid()
      modifies this, buf
      ensures Valid()
      ensures ok <==> |old(Contents())| + |Escape(bytes)| <= 2048
      ensures ok ==> Contents() == old(Contents()) + Escape(bytes)
      ensures overflow <==> old(overflow) || !ok
    {
      hide EscapeByte;
      ghost var was := Contents();
      for i := 0 to |bytes|
        invariant Valid() && Contents() == was + Escape(bytes[..i]) && overflow == old(overflow)
      {
        EscapeStep(bytes, i);
        ok := Write(EscapeByte(bytes[i]));
        if !ok {
          return;
        }
      }
      assert bytes[..|bytes|] == bytes;
      return true;
    }

    /** `emit`: the bytes sent; a poisoned frame sends nothing. */
    method Emit() returns (sent: Bytes)
      requires Valid()
      ensures sent == if overflow then [] else Wire(Contents())
    {
      if overflow {
        return [];
      }
      sent := [MAGIC0, MAGIC1] + LengthBytes(len);
      for i := 0 to len
        invariant sent == [MAGIC0, MAGIC1] + LengthBytes(len) + buf[..i]
      {
        sent := sent + [buf[i]];
      }
    }
  }

  lemma EscapeStep(bytes: Bytes, i: nat)
    requires i < |bytes|
    ensures Escape(bytes[..i + 1]) == Escape(bytes[..i]) + EscapeByte(bytes[i])
    ensures |Escape(bytes[..i + 1])| <= |Escape(bytes)|
  {
    hide EscapeByte;
    assert bytes[..i + 1] == bytes[..i] + [bytes[i]];
    assert bytes == bytes[..i + 1] + bytes[i + 1..];
    EscapeJoin(bytes[..i], [bytes[i]]);
    EscapeJoin(bytes[..i + 1], bytes[i + 1..]);
    assert Escape([bytes[i]]) == EscapeByte(bytes[i]);
  }
}
