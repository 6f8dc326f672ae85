/** The structural JSON reader (kernel/src/rpc.rs, `skip_*` and `object_get`). Each function
    here says how many bytes of a text the kernel's scanner passes over. */
module Json {
  import opened Words
  import opened FramePool
  import opened Framing

  const COMMA: Byte := 0x2C
  const COLON: Byte := 0x3A

  predicate IsWs(b: Byte) { b == 0x20 || b == 0x09 || b == 0x0A || b == 0x0D }
  predicate IsOpen(b: Byte) { b == 0x7B || b == 0x5B }
  predicate IsClose(b: Byte) { b == 0x7D || b == 0x5D }

  function WsLen(t: Bytes): (n: nat)
    ensures n <= |t| && (n < |t| ==> !IsWs(t[n])) && forall i :: 0 <= i < n ==> IsWs(t[i])
  {
    if t == [] || !IsWs(t[0]) then 0 else 1 + WsLen(t[1..])
  }

  /** The rest of a string after its opening quote. */
  function BodyLen(t: Bytes): (n: nat)
    ensures n <= |t|
    decreases |t|
  {
    if t == [] then 0
    else if t[0] == BACKSLASH then if |t| == 1 then 1 else 2 + BodyLen(t[2..])
    else if t[0] == QUOTE then 1
    else 1 + BodyLen(t[1..])
  }

  function StringLen(t: Bytes): (n: nat)
    requires t != []
    ensures 1 <= n <= |t|
  {
    1 + BodyLen(t[1..])
  }

  function ContainerLen(t: Bytes, depth: int): (n: nat)
    ensures n <= |t|
    decreases |t|
  {
    if t == [] then 0
    else if t[0] == QUOTE then StringLen(t) + ContainerLen(t[StringLen(t)..], depth)
    else if IsOpen(t[0]) then 1 + ContainerLen(t[1..], depth + 1)
    else if IsClose(t[0]) then if depth == 1 then 1 else 1 + ContainerLen(t[1..], depth - 1)
    else 1 + ContainerLen(t[1..], depth)
  }

  predicate EndsScalar(b: Byte) { b == COMMA || IsClose(b) }

  function ScalarLen(t: Bytes): (n: nat)
    ensures n <= |t|
  {
    if t == [] || EndsScalar(t[0]) then 0 else 1 + ScalarLen(t[1..])
  }

  function ValueLen(t: Bytes): (n: nat)
    ensures n <= |t|
  {
    var w := WsLen(t);
    var v := t[w..];
    if v == [] then |t|
    else if v[0] == QUOTE then w + StringLen(v)
    else if IsOpen(v[0]) then w + ContainerLen(v, 0)
    else w + ScalarLen(v)
  }

  function Skip(t: Bytes): (r: Bytes)
    ensures |r| <= |t|
  {
    t[WsLen(t)..]
  }

  /** `str::trim` on ASCII text. */
  predicate IsSpace(b: Byte) { b == 0x20 || 0x09 <= b <= 0x0D }

  function Trim(b: Bytes): Bytes
    decreases |b|
  {
    if b != [] && IsSpace(b[0]) then Trim(b[1..])
    else if b != [] && IsSpace(b[|b| - 1]) then Trim(b[..|b| - 1])
    else b
  }

  datatype Found = Found(key: Bytes, value: Bytes, rest: Bytes)

  /** One member: raw key, the text of the value, and what follows it. */
  function Member(t: Bytes): (r: Option<Found>)
    ensures r.Some? ==> |r.value.rest| < |t|
  {
    var k := Skip(t);
    if k == [] || k[0] != QUOTE || StringLen(k) < 2 then None
    else
      var c := Skip(k[StringLen(k)..]);
      if c == [] || c[0] != COLON then None
      else
        var v := Skip(c[1..]);
        Some(Found(k[1..StringLen(k) - 1], v[..ValueLen(v)], v[ValueLen(v)..]))
  }

  /** The members of an object, from the start of one of them. */
  function GetFrom(t: Bytes, key: Bytes): Option<Bytes>
    decreases |t|
  {
    match Member(t)
    case None => None
    case Some(found) =>
      if found.key == key then Some(Trim(found.value))
      else
        var m := Skip(found.rest);
        if m != [] && m[0] == COMMA then GetFrom(m[1..], key) else None
  }

  function Get(obj: Bytes, key: Bytes): Option<Bytes> {
    var t := Skip(obj);
    if t == [] || t[0] != 0x7B then None else GetFrom(t[1..], key)
  }

  // ---- the scanner --------------------------------------------------------

  method SkipWs(s: Bytes, i: nat) returns (r: nat)
    requires i <= |s|
    ensures r == i + WsLen(s[i..]) && i <= r <= |s| && s[r..] == Skip(s[i..])
  {
    r := i;
    while r < |s| && IsWs(s[r])
      invariant i <= r <= |s| && r + WsLen(s[r..]) == i + WsLen(s[i..])
    {
      assert s[r..][1..] == s[r + 1..];
      r := r + 1;
    }
  }

  method SkipString(s: Bytes, i: nat) returns (r: nat)
    requires i < |s|
    ensures r == i + StringLen(s[i..]) && s[r..] == s[i..][StringLen(s[i..])..]
  {
    var j := i + 1;
    assert s[i..][1..] == s[j..];
    while j < |s|
      invariant i < j <= |s| + 1
      invariant j <= |s| ==> j + BodyLen(s[j..]) == i + StringLen(s[i..])
      invariant j > |s| ==> |s| == i + StringLen(s[i..])
    {
      if s[j] == BACKSLASH {
        assert j + 2 <= |s| ==> s[j..][2..] == s[j + 2..];
        j := j + 2;
      } else if s[j] == QUOTE {
        return j + 1;
      } else {
        assert s[j..][1..] == s[j + 1..];
        j := j + 1;
      }
    }
    return |s|;
  }

  lemma ContainerStep(s: Bytes, j: nat, depth: int)
    requires j < |s|
    ensures var n, d := StringLen(s[j..]), ContainerLen(s[j..], depth);
      && j + n <= |s|
      && (s[j] == QUOTE ==> d == n + ContainerLen(s[j + n..], depth))
      && (s[j] != QUOTE && IsOpen(s[j]) ==> d == 1 + ContainerLen(s[j + 1..], depth + 1))
      && (s[j] != QUOTE && !IsOpen(s[j]) && IsClose(s[j]) ==> d == if depth == 1 then 1 else 1 + ContainerLen(s[j + 1..], depth - 1))
      && (s[j] != QUOTE && !IsOpen(s[j]) && !IsClose(s[j]) ==> d == 1 + ContainerLen(s[j + 1..], depth))
  {
    var t, n := s[j..], StringLen(s[j..]);
    hide StringLen;
    assert t[n..] == s[j + n..] && t[1..] == s[j + 1..];
  }

  method SkipContainer(s: Bytes, i: nat) returns (r: nat)
    requires i <= |s|
    ensures r == i + ContainerLen(s[i..], 0)
  {
    hide ContainerLen;
    hide StringLen;
    var depth: int, j := 0, i;
    while j < |s|
      invariant i <= j <= |s| && j + ContainerLen(s[j..], depth) == i + ContainerLen(s[i..], 0)
    {
      ContainerStep(s, j, depth);
      if s[j] == QUOTE {
        j := SkipString(s, j);
      } else if IsOpen(s[j]) {
        depth := depth + 1;
        j := j + 1;
      } else if IsClose(s[j]) {
        depth := depth - 1;
        j := j + 1;
        if depth == 0 {
          return j;
        }
      } else {
        j := j + 1;
      }
    }
    assert s[j..] == [];
    NoContainer(depth);
    return |s|;
  }

  lemma NoContainer(depth: int)
    ensures ContainerLen([], depth) == 0
  {
  }

  method SkipValue(s: Bytes, at: nat) returns (r: nat)
    requires at <= |s|
    ensures r == at + ValueLen(s[at..]) && s[r..] == s[at..][ValueLen(s[at..])..]
  {
    hide StringLen;
    hide ContainerLen;
    hide ScalarLen;
    var i := SkipWs(s, at);
    ghost var t := s[at..];
    assert t[i - at..] == s[i..];
    if i >= |s| {
      return |s|;
    }
    if s[i] == QUOTE {
      r := SkipString(s, i);
    } else if IsOpen(s[i]) {
      r := SkipContainer(s, i);
    } else {
      r := SkipScalar(s, i);
    }
    assert s[at..][r - at..] == s[r..];
  }

  /** A number or literal name: to the next structural byte. */
  method SkipScalar(s: Bytes, i: nat) returns (r: nat)
    requires i <= |s|
    ensures r == i + ScalarLen(s[i..])
  {
    r := i;
    while r < |s| && !EndsScalar(s[r])
      invariant i <= r <= |s| && r + ScalarLen(s[r..]) == i + ScalarLen(s[i..])
    {
      assert s[r..][1..] == s[r + 1..];
      r := r + 1;
    }
  }

  /** One turn of the member loop: key, and where the value starts and ends. */
  method ReadMember(s: Bytes, at: nat) returns (r: Option<(Bytes, nat, nat)>)
    requires at <= |s|
    ensures r.None? <==> Member(s[at..]).None?
    ensures r.Some? ==>
      && at < r.value.1 <= r.value.2 <= |s|
      && Member(s[at..]) == Some(Found(r.value.0, s[r.value.1..r.value.2], s[r.value.2..]))
  {
    hide StringLen;
    hide ValueLen;
    hide WsLen;
    hide Skip;
    var i := SkipWs(s, at);
    if i >= |s| || s[i] != QUOTE {
      return None;
    }
    ghost var k := s[i..];
    var keyEnd := SkipString(s, i);
    if keyEnd - 1 < i + 1 {
      return None;
    }
    var thisKey := s[i + 1..keyEnd - 1];
    assert k[1..StringLen(k) - 1] == thisKey;
    i := SkipWs(s, keyEnd);
    if i >= |s| || s[i] != COLON {
      return None;
    }
    assert s[i..][1..] == s[i + 1..];
    var valStart := SkipWs(s, i + 1);
    ghost var v := s[valStart..];
    var valEnd := SkipValue(s, valStart);
    assert v[..ValueLen(v)] == s[valStart..valEnd];
    return Some((thisKey, valStart, valEnd));
  }

  /** `object_get`: total, and in bounds, on every byte string. */
  method ObjectGet(s: Bytes, key: Bytes) returns (r: Option<Bytes>)
    ensures r == Get(s, key)
  {
    hide Member;
    hide Skip;
    hide Trim;
    assert s[0..] == s;
    var i := SkipWs(s, 0);
    if i >= |s| || s[i] != 0x7B {
      return None;
    }
    assert s[i..][1..] == s[i + 1..];
    i := i + 1;
    while true
      invariant i <= |s| && GetFrom(s[i..], key) == Get(s, key)
      decreases |s| - i
    {
      var found := ReadMember(s, i);
      if found.None? {
        return None;
      }
      var (thisKey, valStart, valEnd) := found.value;
      if thisKey == key {
        return Some(Trim(s[valStart..valEnd]));
      }
      i := SkipWs(s, valEnd);
      if i >= |s| || s[i] != COMMA {
        return None;
      }
      assert s[i..][1..] == s[i + 1..];
      i := i + 1;
    }
  }

  // ---- well-formed texts (sections 2, 4 and 7 of RFC 8259) ----------------

  /** A value as written, with its white space. Arrays and objects are both containers; an
      object's entries have keys. */
  datatype Value = Scalar(text: Bytes) | Str(raw: Bytes) | Container(isObject: bool, entries: Entries)
  datatype Entries = Void(pad: Bytes) | Single(first: Entry) | Many(first: Entry, rest: Entries)
  datatype Entry = Entry(before: Bytes, key: Option<Key>, value: Value, after: Bytes)
  datatype Key = Key(raw: Bytes, mid: Bytes, gap: Bytes)

  predicate AllWs(b: Bytes) { forall i :: 0 <= i < |b| ==> b[i] == 0x20 || b[i] == 0x09 || b[i] == 0x0A || b[i] == 0x0D }

  /** String content: no bare quote, and a backslash always escapes something. */
  predicate RawOk(raw: Bytes)
    decreases |raw|
  {
    raw == [] || (if raw[0] == 0x5C then |raw| >= 2 && RawOk(raw[2..]) else raw[0] != 0x22 && RawOk(raw[1..]))
  }

  /** Numbers and the literal names: no white space and no structural byte. */
  predicate ScalarOk(text: Bytes) {
    text != [] && forall i :: 0 <= i < |text| ==> Plain(text[i]) && text[i] != 0x20 && !(0x09 <= text[i] <= 0x0D) && text[i] != 0x2C && text[i] != 0x3A
  }

  /** No quote, brace or bracket. */
  predicate Plain(b: Byte) { b != 0x22 && b != 0x7B && b != 0x5B && b != 0x7D && b != 0x5D }

  predicate Good(v: Value) {
    match v
    case Scalar(text) => ScalarOk(text)
    case Str(raw) => RawOk(raw)
    case Container(isObject, entries) => GoodEntries(entries, isObject)
  }

  predicate GoodEntries(es: Entries, keyed: bool) {
    match es
    case Void(pad) => AllWs(pad)
    case Single(e) => GoodEntry(e, keyed)
    case Many(e, rest) => GoodEntry(e, keyed) && !rest.Void? && GoodEntries(rest, keyed)
  }

  predicate GoodEntry(e: Entry, keyed: bool) {
    && AllWs(e.before) && AllWs(e.after) && Good(e.value) && (e.key.Some? <==> keyed)
    && (e.key.Some? ==> RawOk(e.key.value.raw) && AllWs(e.key.value.mid) && AllWs(e.key.value.gap))
  }

  /** The text of a value, followed by `tail`. */
  function TextOn(v: Value, tail: Bytes): Bytes {
    match v
    case Scalar(text) => text + tail
    case Str(raw) => [0x22] + (raw + ([0x22] + tail))
    case Container(isObject, entries) => [if isObject then 0x7B else 0x5B] + EntriesOn(entries, [if isObject then 0x7D else 0x5D] + tail)
  }

  function EntriesOn(es: Entries, tail: Bytes): Bytes {
    match es
    case Void(pad) => pad + tail
    case Single(e) => EntryOn(e, tail)
    case Many(e, rest) => EntryOn(e, [0x2C] + EntriesOn(rest, tail))
  }

  function EntryOn(e: Entry, tail: Bytes): Bytes {
    e.before + KeyOn(e.key, TextOn(e.value, e.after + tail))
  }

  function KeyOn(k: Option<Key>, tail: Bytes): Bytes {
    match k
    case None => tail
    case Some(key) => [0x22] + (key.raw + ([0x22] + (key.mid + ([0x3A] + (key.gap + tail)))))
  }

  function Text(v: Value): Bytes { TextOn(v, []) }

  /** The first entry with a given key. */
  function FirstMember(es: Entries, key: Bytes): Option<Value> {
    match es
    case Void(_) => None
    case Single(e) => if e.key.Some? && e.key.value.raw == key then Some(e.value) else None
    case Many(e, rest) => if e.key.Some? && e.key.value.raw == key then Some(e.value) else FirstMember(rest, key)
  }

  // ---- scanning well-formed texts -----------------------------------------

  lemma {:induction false} BodyPasses(raw: Bytes, tail: Bytes)
    requires RawOk(raw)
    ensures BodyLen(raw + ([QUOTE] + tail)) == |raw| + 1
    decreases |raw|
  {
    var t := raw + ([QUOTE] + tail);
    if raw != [] {
      var n := if raw[0] == BACKSLASH then 2 else 1;
      assert t[n..] == raw[n..] + ([QUOTE] + tail);
      BodyPasses(raw[n..], tail);
    }
  }

  /** A quoted string is passed over whole. */
  lemma StringPasses(raw: Bytes, tail: Bytes)
    requires RawOk(raw)
    ensures var t := [QUOTE] + (raw + ([QUOTE] + tail));
      StringLen(t) == |raw| + 2 && t[|raw| + 2..] == tail && t[1..|raw| + 1] == raw
  {
    hide BodyLen;
    hide RawOk;
    BodyPasses(raw, tail);
    var t := [QUOTE] + (raw + ([QUOTE] + tail));
    assert t[1..] == raw + ([QUOTE] + tail);
    var u := [QUOTE] + raw;
    assert t == u + ([QUOTE] + tail) && u[1..] == raw;
    assert t[1..|raw| + 1] == raw;
    assert t == (u + [QUOTE]) + tail;
  }

  lemma {:induction false} PlainPasses(x: Bytes, tail: Bytes, d: int)
    requires forall i :: 0 <= i < |x| ==> Plain(x[i])
    ensures ContainerLen(x + tail, d) == |x| + ContainerLen(tail, d)
  {
    if x == [] {
      assert x + tail == tail;
    } else {
      assert (x + tail)[1..] == x[1..] + tail;
      PlainPasses(x[1..], tail, d);
    }
  }

  lemma QuotedPasses(raw: Bytes, tail: Bytes, d: int)
    requires RawOk(raw)
    ensures ContainerLen([QUOTE] + (raw + ([QUOTE] + tail)), d) == |raw| + 2 + ContainerLen(tail, d)
  {
    hide RawOk;
    hide StringLen;
    StringPasses(raw, tail);
  }

  lemma KeyPasses(k: Option<Key>, tail: Bytes, d: int)
    requires k.Some? ==> RawOk(k.value.raw) && AllWs(k.value.mid) && AllWs(k.value.gap)
    ensures |KeyOn(k, tail)| >= |tail|
    ensures ContainerLen(KeyOn(k, tail), d) == |KeyOn(k, tail)| - |tail| + ContainerLen(tail, d)
  {
    hide ContainerLen;
    hide RawOk;
    if k.Some? {
      var key := k.value;
      var t1 := key.gap + tail;
      var t2 := key.mid + ([COLON] + t1);
      QuotedPasses(key.raw, t2, d);
      PlainPasses(key.mid, [COLON] + t1, d);
      PlainPasses([COLON], t1, d);
      PlainPasses(key.gap, tail, d);
    }
  }

  /** At any depth, a well-formed value leaves the depth as it found it. */
  lemma {:induction false} ValuePasses(v: Value, tail: Bytes, d: int)
    requires Good(v) && d >= 1
    ensures |TextOn(v, tail)| >= |tail|
    ensures ContainerLen(TextOn(v, tail), d) == |TextOn(v, tail)| - |tail| + ContainerLen(tail, d)
    decreases v
  {
    match v
    case Scalar(text) => PlainPasses(text, tail, d);
    case Str(raw) => QuotedPasses(raw, tail, d);
    case Container(isObject, entries) => ContainerPasses(isObject, entries, tail, d);
  }

  lemma {:induction false} ContainerPasses(isObject: bool, es: Entries, tail: Bytes, d: int)
    requires GoodEntries(es, isObject) && d >= 0
    ensures var t := TextOn(Container(isObject, es), tail);
      && |t| >= |tail|
      && ContainerLen(t, d) == |t| - |tail| + if d == 0 then 0 else ContainerLen(tail, d)
    decreases es, 1
  {
    hide EntriesOn;
    hide GoodEntries;
    var t := TextOn(Container(isObject, es), tail);
    var close := [if isObject then 0x7D else 0x5D] + tail;
    assert t[1..] == EntriesOn(es, close);
    EntriesPass(es, isObject, close, d + 1);
    assert close[1..] == tail;
  }

  lemma {:induction false} EntriesPass(es: Entries, keyed: bool, tail: Bytes, d: int)
    requires GoodEntries(es, keyed) && d >= 1
    ensures |EntriesOn(es, tail)| >= |tail|
    ensures ContainerLen(EntriesOn(es, tail), d) == |EntriesOn(es, tail)| - |tail| + ContainerLen(tail, d)
    decreases es, 0
  {
    hide ContainerLen;
    match es
    case Void(pad) => PlainPasses(pad, tail, d);
    case Single(e) => EntryPasses(e, keyed, tail, d);
    case Many(e, rest) =>
      var more := EntriesOn(rest, tail);
      EntriesPass(rest, keyed, tail, d);
      PlainPasses([COMMA], more, d);
      EntryPasses(e, keyed, [COMMA] + more, d);
  }

  lemma {:induction false} EntryPasses(e: Entry, keyed: bool, tail: Bytes, d: int)
    requires GoodEntry(e, keyed) && d >= 1
    ensures |EntryOn(e, tail)| >= |tail|
    ensures ContainerLen(EntryOn(e, tail), d) == |EntryOn(e, tail)| - |tail| + ContainerLen(tail, d)
    decreases e
  {
    hide ContainerLen;
    hide TextOn;
    hide KeyOn;
    var t1 := e.after + tail;
    var t2 := TextOn(e.value, t1);
    PlainPasses(e.before, KeyOn(e.key, t2), d);
    KeyPasses(e.key, t2, d);
    ValuePasses(e.value, t1, d);
    PlainPasses(e.after, tail, d);
  }

  // ---- finding a member ---------------------------------------------------

  lemma {:induction false} WsPasses(ws: Bytes, tail: Bytes)
    requires AllWs(ws) && (tail != [] ==> !IsWs(tail[0]))
    ensures WsLen(ws + tail) == |ws| && Skip(ws + tail) == tail
  {
    if ws == [] {
      assert ws + tail == tail;
    } else {
      assert (ws + tail)[1..] == ws[1..] + tail;
      WsPasses(ws[1..], tail);
    }
  }

  /** A text followed by `tail` is the text, then `tail`. */
  lemma {:induction false} TextAppends(v: Value, tail: Bytes)
    ensures TextOn(v, tail) == Text(v) + tail
    decreases v
  {
    match v
    case Scalar(text) =>
      assert text + [] == text;
    case Str(raw) =>
      assert [QUOTE] + (raw + ([QUOTE] + tail)) == [QUOTE] + (raw + ([QUOTE] + [])) + tail;
    case Container(isObject, entries) =>
      var close: Bytes := [if isObject then 0x7D else 0x5D];
      EntriesAppend(entries, close + tail);
      EntriesAppend(entries, close + []);
      hide EntriesOn;
      var inner := EntriesOn(entries, []);
      assert inner + (close + tail) == (inner + (close + [])) + tail;
      assert [if isObject then 0x7B else 0x5B] + ((inner + (close + [])) + tail) == [if isObject then 0x7B else 0x5B] + (inner + (close + [])) + tail;
  }

  lemma {:induction false} EntriesAppend(es: Entries, tail: Bytes)
    ensures EntriesOn(es, tail) == EntriesOn(es, []) + tail
    decreases es
  {
    hide EntryOn;
    match es
    case Void(pad) =>
      assert pad + [] == pad;
    case Single(e) =>
      EntryAppends(e, tail);
    case Many(e, rest) =>
      EntriesAppend(rest, tail);
      EntryAppends(e, [COMMA] + EntriesOn(rest, tail));
      EntryAppends(e, [COMMA] + EntriesOn(rest, []));
      var x, r := EntryOn(e, []), EntriesOn(rest, []);
      Assoc([COMMA], r, tail);
      Assoc(x, [COMMA] + r, tail);
  }

  lemma {:induction false} EntryAppends(e: Entry, tail: Bytes)
    ensures EntryOn(e, tail) == EntryOn(e, []) + tail
    decreases e
  {
    hide TextOn;
    TextAppends(e.value, e.after + tail);
    TextAppends(e.value, e.after + []);
    var x := Text(e.value);
    assert x + (e.after + tail) == (x + (e.after + [])) + tail;
    KeyAppends(e.key, x + (e.after + []), tail);
    hide KeyOn;
    assert e.before + (KeyOn(e.key, x + (e.after + [])) + tail) == e.before + KeyOn(e.key, x + (e.after + [])) + tail;
  }

  lemma KeyAppends(k: Option<Key>, x: Bytes, tail: Bytes)
    ensures KeyOn(k, x + tail) == KeyOn(k, x) + tail
  {
    if k.Some? {
      var key := k.value;
      Assoc(key.gap, x, tail);
      Assoc([COLON], key.gap + x, tail);
      Assoc(key.mid, [COLON] + (key.gap + x), tail);
      Assoc([QUOTE], key.mid + ([COLON] + (key.gap + x)), tail);
      Assoc(key.raw, [QUOTE] + (key.mid + ([COLON] + (key.gap + x))), tail);
      Assoc([QUOTE], key.raw + ([QUOTE] + (key.mid + ([COLON] + (key.gap + x)))), tail);
    }
  }

  lemma {:induction false} TrimTail(x: Bytes, ws: Bytes)
    requires x != [] && !IsSpace(x[0]) && !IsSpace(x[|x| - 1]) && AllWs(ws)
    ensures Trim(x + ws) == x
    decreases |ws|
  {
    if ws == [] {
      assert x + ws == x;
    } else {
      var n := |ws| - 1;
      assert (x + ws)[..|x| + n] == x + ws[..n];
      TrimTail(x, ws[..n]);
    }
  }

  /** A value's text starts and ends with something other than white space. */
  lemma TextEdges(v: Value)
    requires Good(v)
    ensures var t := Text(v); t != [] && !IsSpace(t[0]) && !IsSpace(t[|t| - 1])
  {
    match v
    case Scalar(text) =>
      assert text + [] == text;
    case Str(raw) =>
    case Container(isObject, entries) =>
      EntriesAppend(entries, [if isObject then 0x7D else 0x5D] + []);
      hide EntriesOn;
  }

  lemma {:induction false} ScalarPasses(x: Bytes, tail: Bytes)
    requires (forall i :: 0 <= i < |x| ==> !EndsScalar(x[i])) && tail != [] && EndsScalar(tail[0])
    ensures ScalarLen(x + tail) == |x|
  {
    if x != [] {
      assert (x + tail)[1..] == x[1..] + tail;
      ScalarPasses(x[1..], tail);
    } else {
      assert x + tail == tail;
    }
  }

  /** The scanner finds the end of a value, white space aside. */
  lemma ValueFound(v: Value, after: Bytes, tail: Bytes)
    requires Good(v) && AllWs(after) && tail != [] && EndsScalar(tail[0])
    ensures var t := TextOn(v, after + tail);
      && t != [] && !IsWs(t[0]) && Trim(t[..ValueLen(t)]) == Text(v) && Skip(t[ValueLen(t)..]) == tail
  {
    hide Trim;
    hide ContainerLen;
    hide StringLen;
    hide ScalarLen;
    hide TextOn;
    var t, x := TextOn(v, after + tail), Text(v);
    TextAppends(v, after + tail);
    TextEdges(v);
    NoWsFirst(t);
    WsPasses(after, tail);
    ValueEnd(v, after, tail);
    if v.Scalar? {
      Assoc(x, after, tail);
      assert t[..|x| + |after|] == x + after && t[|x| + |after|..] == tail;
      TrimTail(x, after);
      assert [] + tail == tail;
      WsPasses([], tail);
    } else {
      assert t[..|x|] == x && t[|x|..] == after + tail;
      TrimTail(x, []);
      assert x + [] == x;
    }
  }

  lemma NoWsFirst(t: Bytes)
    requires t != [] && !IsWs(t[0])
    ensures WsLen(t) == 0 && t[WsLen(t)..] == t
  {
  }

  lemma ValueLenBy(t: Bytes)
    requires t != [] && !IsWs(t[0])
    ensures ValueLen(t) == if t[0] == QUOTE then StringLen(t) else if IsOpen(t[0]) then ContainerLen(t, 0) else ScalarLen(t)
  {
    hide ContainerLen;
    hide StringLen;
    hide ScalarLen;
    NoWsFirst(t);
  }

  lemma ValueEnd(v: Value, after: Bytes, tail: Bytes)
    requires Good(v) && AllWs(after) && tail != [] && EndsScalar(tail[0])
    ensures ValueLen(TextOn(v, after + tail)) == |Text(v)| + if v.Scalar? then |after| else 0
  {
    hide ContainerLen;
    hide StringLen;
    hide EntriesOn;
    hide ScalarLen;
    hide ValueLen;
    hide WsLen;
    hide RawOk;
    TextAppends(v, after + tail);
    match v
    case Scalar(text) =>
      ScalarEnd(text, after, tail);
      assert text + [] == text;
    case Str(raw) =>
      ValueLenBy([QUOTE] + (raw + ([QUOTE] + (after + tail))));
      StringPasses(raw, after + tail);
    case Container(isObject, entries) =>
      ValueLenBy(TextOn(v, after + tail));
      ContainerPasses(isObject, entries, after + tail, 0);
  }

  lemma ScalarEnd(text: Bytes, after: Bytes, tail: Bytes)
    requires ScalarOk(text) && AllWs(after) && tail != [] && EndsScalar(tail[0])
    ensures ValueLen(text + (after + tail)) == |text| + |after|
  {
    hide ContainerLen;
    hide StringLen;
    hide ScalarLen;
    hide ValueLen;
    hide WsLen;
    ValueLenBy(text + (after + tail));
    Assoc(text, after, tail);
    ScalarPasses(text + after, tail);
  }

  /** One member of an object is read for what it is. */
  lemma MemberFound(e: Entry, tail: Bytes)
    requires GoodEntry(e, true) && tail != [] && EndsScalar(tail[0])
    ensures var r := Member(EntryOn(e, tail));
      r.Some? && r.value.key == e.key.value.raw && Trim(r.value.value) == Text(e.value) && Skip(r.value.rest) == tail
  {
    hide Skip;
    hide StringLen;
    hide ValueLen;
    hide TextOn;
    hide Trim;
    hide RawOk;
    var key := e.key.value;
    var v := TextOn(e.value, e.after + tail);
    ValueFound(e.value, e.after, tail);
    var c := [COLON] + (key.gap + v);
    var k := [QUOTE] + (key.raw + ([QUOTE] + (key.mid + c)));
    assert EntryOn(e, tail) == e.before + k;
    WsPasses(e.before, k);
    StringPasses(key.raw, key.mid + c);
    WsPasses(key.mid, c);
    assert c[1..] == key.gap + v;
    WsPasses(key.gap, v);
  }

  lemma {:induction false} EntriesFound(es: Entries, key: Bytes, tail: Bytes)
    requires GoodEntries(es, true) && tail != [] && IsClose(tail[0])
    ensures GetFrom(EntriesOn(es, tail), key) == match FirstMember(es, key) case Some(v) => Some(Text(v)) case None => None
  {
    hide Member;
    hide Skip;
    hide TextOn;
    hide EntryOn;
    hide Trim;
    match es
    case Void(pad) =>
      WsPasses(pad, tail);
      NoMember(pad + tail);
    case Single(e) =>
      MemberFound(e, tail);
    case Many(e, rest) =>
      var more := [COMMA] + EntriesOn(rest, tail);
      MemberFound(e, more);
      assert more[1..] == EntriesOn(rest, tail);
      EntriesFound(rest, key, tail);
  }

  lemma NoMember(t: Bytes)
    requires Skip(t) == [] || Skip(t)[0] != QUOTE
    ensures Member(t).None?
  {
  }

  /** On the text of any well-formed object, whatever its nesting, white space or quoted
      brackets, `object_get` returns the text of the first top-level member with that raw
      key, and nothing when there is none. */
  lemma ObjectFound(lead: Bytes, es: Entries, tail: Bytes, key: Bytes)
    requires AllWs(lead) && Good(Container(true, es))
    ensures Get(lead + (Text(Container(true, es)) + tail), key)
            == match FirstMember(es, key) case Some(v) => Some(Text(v)) case None => None
  {
    hide GetFrom;
    hide Skip;
    hide EntriesOn;
    var obj := Container(true, es);
    TextAppends(obj, tail);
    var t := TextOn(obj, tail);
    WsPasses(lead, t);
    assert t[1..] == EntriesOn(es, [0x7D] + tail);
    EntriesFound(es, key, [0x7D] + tail);
  }

  /** A member as it is written. */
  lemma MemberText(before: Bytes, raw: Bytes, gap: Bytes, v: Value, tail: Bytes)
    ensures EntryOn(Entry(before, Some(Key(raw, [], gap)), v, []), tail) == before + [0x22] + raw + [0x22, 0x3A] + gap + TextOn(v, tail)
  {
    assert [] + tail == tail;
    Regroup(before, raw, gap, TextOn(v, tail));
    hide TextOn;
  }

  lemma Regroup(before: Bytes, raw: Bytes, gap: Bytes, t: Bytes)
    ensures before + ([0x22] + (raw + ([0x22] + ([] + ([0x3A] + (gap + t)))))) == before + [0x22] + raw + [0x22, 0x3A] + gap + t
  {
    var x := gap + t;
    assert [0x22] + ([] + ([0x3A] + x)) == [0x22, 0x3A] + x;
    var y := raw + ([0x22, 0x3A] + x);
    assert y == raw + [0x22, 0x3A] + x;
    assert before + ([0x22] + y) == before + [0x22] + y;
    var z := before + [0x22];
    assert z + (raw + [0x22, 0x3A] + x) == z + raw + [0x22, 0x3A] + x;
    var w := z + raw + [0x22, 0x3A];
    assert w + (gap + t) == w + gap + t;
  }

  lemma ScalarMember(before: Bytes, raw: Bytes, gap: Bytes, text: Bytes, tail: Bytes)
    ensures EntryOn(Entry(before, Some(Key(raw, [], gap)), Scalar(text), []), tail) == before + [0x22] + raw + [0x22, 0x3A] + gap + text + tail
  {
    MemberText(before, raw, gap, Scalar(text), tail);
    assert TextOn(Scalar(text), tail) == text + tail;
    hide EntryOn;
  }

  lemma ShortKey(raw: Bytes)
    requires 1 <= |raw| <= 2 && forall i :: 0 <= i < |raw| ==> raw[i] != 0x5C && raw[i] != 0x22
    ensures RawOk(raw)
  {
    assert raw[1..] == [] || raw[1..][1..] == [];
  }

  /** For one, `{"p": {"id": 7}, "id": 1}` with a space after every comma and colon, as the
      host writes it: the top-level id is found, not the nested one. */
  lemma RequestRead()
    ensures Get([0x7B, 0x22, 0x70, 0x22, 0x3A, 0x20, 0x7B, 0x22, 0x69, 0x64, 0x22, 0x3A, 0x20, 0x37, 0x7D, 0x2C,
                 0x20, 0x22, 0x69, 0x64, 0x22, 0x3A, 0x20, 0x31, 0x7D], [0x69, 0x64]) == Some([0x31])
  {
    hide Get;
    hide EntryOn;
    hide RawOk;
    var id: Bytes, p: Bytes, sp: Bytes, close: Bytes := [0x69, 0x64], [0x70], [0x20], [0x7D];
    var inner := Single(Entry([], Some(Key(id, [], sp)), Scalar([0x37]), []));
    var last := Single(Entry(sp, Some(Key(id, [], sp)), Scalar([0x31]), []));
    var es := Many(Entry([], Some(Key(p, [], sp)), Container(true, inner), []), last);
    ShortKey(id);
    ShortKey(p);
    ScalarMember(sp, id, sp, [0x31], close);
    var rest := [0x2C] + EntriesOn(last, close);
    ScalarMember([], id, sp, [0x37], close + rest);
    MemberText([], p, sp, Container(true, inner), rest);
    var text := [0x7B] + EntriesOn(es, close);
    assert Text(Container(true, es)) == text by {
      assert close + [] == close;
    }
    assert [] + (text + []) == text;
    ObjectFound([], es, [], id);
    assert Text(Scalar([0x31])) == [0x31];
    OneMember(text, inner, last, es);
  }

  lemma OneMember(text: Bytes, inner: Entries, last: Entries, es: Entries)
    requires EntriesOn(last, [0x7D]) == [0x20] + [0x22] + [0x69, 0x64] + [0x22, 0x3A] + [0x20] + [0x31] + [0x7D]
    requires var rest := [0x2C] + EntriesOn(last, [0x7D]);
      && EntriesOn(inner, [0x7D] + rest) == [] + [0x22] + [0x69, 0x64] + [0x22, 0x3A] + [0x20] + [0x37] + ([0x7D] + rest)
      && EntriesOn(es, [0x7D]) == [] + [0x22] + [0x70] + [0x22, 0x3A] + [0x20] + ([0x7B] + EntriesOn(inner, [0x7D] + rest))
    requires text == [0x7B] + EntriesOn(es, [0x7D])
    ensures text == [0x7B, 0x22, 0x70, 0x22, 0x3A, 0x20, 0x7B, 0x22, 0x69, 0x64, 0x22, 0x3A, 0x20, 0x37, 0x7D, 0x2C,
                     0x20, 0x22, 0x69, 0x64, 0x22, 0x3A, 0x20, 0x31, 0x7D]
  {
    hide EntriesOn;
  }
}
