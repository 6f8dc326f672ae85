/** What the host finds in the frames of `Output`: each is one JSON object whose members are
    the values it was made from. */
module Members {
  import opened Words
  import opened FramePool
  import opened Framing
  import opened Console
  import opened Output
  import J = Json

  // ---- numbers ------------------------------------------------------------

  /** The number some digits stand for, most significant first. */
  function Number(b: Bytes, base: nat): nat {
    if b == [] then 0
    else base * Number(b[..|b| - 1], base) + (if HexValue(b[|b| - 1]).Some? then HexValue(b[|b| - 1]).value else 0)
  }

  /** Numbers are written so that they read back, in decimal or hexadecimal. */
  lemma {:induction false} DigitsRead(n: nat, base: nat)
    requires base == 10 || base == 16
    ensures Number(Digits(n, base), base) == n
    decreases n
  {
    var d := n % base;
    assert HexValue(HexDigit(d)) == Some(d);
    if n < base {
      assert Digits(n, base)[..0] == [];
    } else {
      DigitsRead(n / base, base);
      var high := Digits(n / base, base);
      assert (high + [HexDigit(d)])[..|high|] == high;
    }
  }

  lemma {:induction false} DigitsPlain(n: nat, base: nat)
    requires base == 10 || base == 16
    ensures J.ScalarOk(Digits(n, base)) && forall i :: 0 <= i < |Digits(n, base)| ==> Digits(n, base)[i] != 0x5C && Digits(n, base)[i] != 0x22
    decreases n
  {
    if n >= base {
      DigitsPlain(n / base, base);
    }
  }

  // ---- strings ------------------------------------------------------------

  lemma {:induction false} PlainRaw(raw: Bytes)
    requires forall i :: 0 <= i < |raw| ==> raw[i] != 0x5C && raw[i] != 0x22
    ensures J.RawOk(raw)
    decreases |raw|
  {
    if raw != [] {
      PlainRaw(raw[1..]);
    }
  }

  lemma {:induction false} RawJoin(a: Bytes, b: Bytes)
    requires J.RawOk(a) && J.RawOk(b)
    ensures J.RawOk(a + b)
    decreases |a|
  {
    if a == [] {
      assert a + b == b;
    } else {
      var n := if a[0] == 0x5C then 2 else 1;
      RawJoin(a[n..], b);
      assert (a + b)[n..] == a[n..] + b;
    }
  }

  lemma EscapeRaw(b: Byte)
    ensures J.RawOk(EscapeByte(b))
  {
    var e := EscapeByte(b);
    if b == QUOTE || b == BACKSLASH {
      assert e[2..] == [];
    } else if 0x20 <= b <= 0x7E {
      assert e[1..] == [];
    } else {
      PlainRaw(e[2..]);
    }
  }

  lemma {:induction false} EscapedRaw(bytes: Bytes)
    ensures J.RawOk(Escape(bytes))
  {
    hide J.RawOk;
    hide EscapeByte;
    if bytes == [] {
      PlainRaw([]);
    } else {
      EscapeRaw(bytes[0]);
      EscapedRaw(bytes[1..]);
      RawJoin(EscapeByte(bytes[0]), Escape(bytes[1..]));
    }
  }

  // ---- members ------------------------------------------------------------

  function Field(raw: Bytes, v: J.Value): J.Entry { J.Entry([], Some(J.Key(raw, [], [])), v, []) }

  function Num(n: nat): J.Value { J.Scalar(Digits(n, 10)) }

  lemma NumField(raw: Bytes, n: nat, tail: Bytes)
    ensures J.EntryOn(Field(raw, Num(n)), tail) == [0x22] + raw + [0x22, 0x3A] + Digits(n, 10) + tail
  {
    hide Digits;
    J.ScalarMember([], raw, [], Digits(n, 10), tail);
    assert [] + [0x22] == [0x22];
    var x := [0x22] + raw + [0x22, 0x3A];
    assert x + [] == x;
    hide J.EntryOn;
  }

  lemma StrField(raw: Bytes, s: Bytes, tail: Bytes)
    ensures J.EntryOn(Field(raw, J.Str(s)), tail) == [0x22] + raw + [0x22, 0x3A] + ([0x22] + s + [0x22]) + tail
  {
    J.MemberText([], raw, [], J.Str(s), tail);
    assert [] + [0x22] == [0x22];
    var x := [0x22] + raw + [0x22, 0x3A];
    assert x + [] == x;
    assert [0x22] + (s + ([0x22] + tail)) == ([0x22] + s + [0x22]) + tail;
    hide J.EntryOn;
  }

  lemma FlagField(raw: Bytes, text: Bytes, tail: Bytes)
    ensures J.EntryOn(Field(raw, J.Scalar(text)), tail) == [0x22] + raw + [0x22, 0x3A] + text + tail
  {
    J.ScalarMember([], raw, [], text, tail);
    assert [] + [0x22] == [0x22];
    var x := [0x22] + raw + [0x22, 0x3A];
    assert x + [] == x;
    hide J.EntryOn;
  }

  const ID: Bytes := [0x69, 0x64]
  const TYPE: Bytes := [0x74, 0x79, 0x70, 0x65]
  const PID: Bytes := [0x70, 0x69, 0x64]
  const UNTRUSTED: Bytes := [0x75, 0x6E, 0x74, 0x72, 0x75, 0x73, 0x74, 0x65, 0x64]
  const CAUSED_BY: Bytes := [0x63, 0x61, 0x75, 0x73, 0x65, 0x64, 0x5F, 0x62, 0x79]
  const LEN: Bytes := [0x6C, 0x65, 0x6E]
  const DATA: Bytes := [0x64, 0x61, 0x74, 0x61]
  const TRUE: Bytes := [0x74, 0x72, 0x75, 0x65]
  const PAYLOAD_OUTPUT: Bytes := [0x70, 0x61, 0x79, 0x6C, 0x6F, 0x61, 0x64, 0x5F, 0x6F, 0x75, 0x74, 0x70, 0x75, 0x74]

  function OutputFields(id: Word, pid: Word, cause: Word, data: Bytes): J.Entries {
    J.Many(Field(ID, Num(id)),
    J.Many(Field(TYPE, J.Str(PAYLOAD_OUTPUT)),
    J.Many(Field(PID, Num(pid)),
    J.Many(Field(UNTRUSTED, J.Scalar(TRUE)),
    J.Many(Field(CAUSED_BY, Num(cause)),
    J.Many(Field(LEN, Num(|data|)),
    J.Single(Field(DATA, J.Str(Escape(data))))))))))
  }

  lemma OutputGood(id: Word, pid: Word, cause: Word, data: Bytes)
    ensures J.Good(J.Container(true, OutputFields(id, pid, cause, data)))
  {
    hide J.RawOk;
    hide Digits;
    hide Escape;
    DigitsPlain(id, 10);
    DigitsPlain(pid, 10);
    DigitsPlain(cause, 10);
    DigitsPlain(|data|, 10);
    EscapedRaw(data);
    PlainRaw(ID);
    PlainRaw(TYPE);
    PlainRaw(PID);
    PlainRaw(UNTRUSTED);
    PlainRaw(CAUSED_BY);
    PlainRaw(LEN);
    PlainRaw(DATA);
    PlainRaw(PAYLOAD_OUTPUT);
    assert J.ScalarOk(TRUE);
    hide J.ScalarOk;
    var e7 := J.Single(Field(DATA, J.Str(Escape(data))));
    GoodLast(DATA, J.Str(Escape(data)));
    var e6 := J.Many(Field(LEN, Num(|data|)), e7);
    GoodMore(LEN, Num(|data|), e7);
    var e5 := J.Many(Field(CAUSED_BY, Num(cause)), e6);
    GoodMore(CAUSED_BY, Num(cause), e6);
    var e4 := J.Many(Field(UNTRUSTED, J.Scalar(TRUE)), e5);
    GoodMore(UNTRUSTED, J.Scalar(TRUE), e5);
    var e3 := J.Many(Field(PID, Num(pid)), e4);
    GoodMore(PID, Num(pid), e4);
    var e2 := J.Many(Field(TYPE, J.Str(PAYLOAD_OUTPUT)), e3);
    GoodMore(TYPE, J.Str(PAYLOAD_OUTPUT), e3);
    GoodMore(ID, Num(id), e2);
    hide J.GoodEntries;
  }

  lemma GoodLast(raw: Bytes, v: J.Value)
    requires J.RawOk(raw) && J.Good(v)
    ensures J.GoodEntries(J.Single(Field(raw, v)), true)
  {
    hide J.RawOk;
  }

  lemma GoodMore(raw: Bytes, v: J.Value, rest: J.Entries)
    requires J.RawOk(raw) && J.Good(v) && J.GoodEntries(rest, true) && !rest.Void?
    ensures J.GoodEntries(J.Many(Field(raw, v), rest), true)
  {
    hide J.RawOk;
  }

  // ---- the text of an output frame ----------------------------------------

  /** How a key is written. */
  function Name(raw: Bytes): Bytes { [0x22] + raw + [0x22, 0x3A] }

  lemma IdPart()
    ensures Text("{\"id\":") == [0x7B] + Name(ID)
  {
  }

  lemma TypePart()
    ensures Text(",\"type\":\"payload_output\",\"pid\":") == [0x2C] + (Name(TYPE) + ([0x22] + PAYLOAD_OUTPUT + [0x22])) + ([0x2C] + Name(PID))
  {
  }

  lemma CausePart()
    ensures Text(",\"untrusted\":true,\"caused_by\":") == [0x2C] + (Name(UNTRUSTED) + TRUE) + ([0x2C] + Name(CAUSED_BY))
  {
  }

  lemma LenPart()
    ensures Text(",\"len\":") == [0x2C] + Name(LEN)
  {
  }

  lemma DataPart()
    ensures Text(",\"data\":\"") == [0x2C] + Name(DATA) + [0x22]
    ensures Text("\"}") == [0x22] + [0x7D]
  {
  }

  /** Text by text, the frame and the object are the same. */
  lemma OutputJoins(q1: Bytes, d1: Bytes, q2: Bytes, s2: Bytes, q3: Bytes, d3: Bytes, q4: Bytes, s4: Bytes, q5: Bytes, d5: Bytes,
                    q6: Bytes, d6: Bytes, q7: Bytes, s7: Bytes)
    ensures var t7 := q7 + ([0x22] + s7 + [0x22]) + [0x7D];
      var t5 := q5 + d5 + ([0x2C] + (q6 + d6 + ([0x2C] + t7)));
      var t3 := q3 + d3 + ([0x2C] + (q4 + s4 + ([0x2C] + t5)));
      var t1 := q1 + d1 + ([0x2C] + (q2 + s2 + ([0x2C] + t3)));
      ([0x7B] + q1) + d1 + ([0x2C] + (q2 + s2) + ([0x2C] + q3)) + d3 + ([0x2C] + (q4 + s4) + ([0x2C] + q5)) + d5 + ([0x2C] + q6) + d6
        + ([0x2C] + q7 + [0x22]) + s7 + ([0x22] + [0x7D]) == [0x7B] + t1
  {
    var t7 := q7 + ([0x22] + s7 + [0x22]) + [0x7D];
    var t6 := q6 + d6 + ([0x2C] + t7);
    var t5 := q5 + d5 + ([0x2C] + t6);
    var t4 := q4 + s4 + ([0x2C] + t5);
    var t3 := q3 + d3 + ([0x2C] + t4);
    var t2 := q2 + s2 + ([0x2C] + t3);
    var a1 := ([0x7B] + q1) + d1;
    var a2 := a1 + ([0x2C] + (q2 + s2) + ([0x2C] + q3)) + d3;
    var a3 := a2 + ([0x2C] + (q4 + s4) + ([0x2C] + q5)) + d5;
    var a4 := a3 + ([0x2C] + q6) + d6;
    assert a4 + ([0x2C] + q7 + [0x22]) + s7 + ([0x22] + [0x7D]) == a4 + ([0x2C] + t7);
    assert a4 + ([0x2C] + t7) == a3 + ([0x2C] + t6);
    assert a3 + ([0x2C] + t6) == a2 + ([0x2C] + (q4 + s4)) + ([0x2C] + t5);
    assert a2 + ([0x2C] + (q4 + s4)) + ([0x2C] + t5) == a2 + ([0x2C] + t4);
    assert a2 + ([0x2C] + t4) == a1 + ([0x2C] + (q2 + s2)) + ([0x2C] + t3);
    assert a1 + ([0x2C] + (q2 + s2)) + ([0x2C] + t3) == a1 + ([0x2C] + t2);
    assert a1 + ([0x2C] + t2) == [0x7B] + (q1 + d1 + ([0x2C] + t2));
  }

  lemma OutputIsObject(id: Word, pid: Word, cause: Word, data: Bytes)
    ensures J.Text(J.Container(true, OutputFields(id, pid, cause, data))) == OutputText(id, pid, cause, data)
  {
    hide Digits;
    hide Escape;
    hide Text;
    hide J.EntryOn;
    hide Name;
    var d1, d3, d5, d6, s7 := Digits(id, 10), Digits(pid, 10), Digits(cause, 10), Digits(|data|, 10), Escape(data);
    var s2 := [0x22] + PAYLOAD_OUTPUT + [0x22];
    var close: Bytes := [0x7D];
    var e7 := J.Single(Field(DATA, J.Str(s7)));
    var e6 := J.Many(Field(LEN, Num(|data|)), e7);
    var e5 := J.Many(Field(CAUSED_BY, Num(cause)), e6);
    var e4 := J.Many(Field(UNTRUSTED, J.Scalar(TRUE)), e5);
    var e3 := J.Many(Field(PID, Num(pid)), e4);
    var e2 := J.Many(Field(TYPE, J.Str(PAYLOAD_OUTPUT)), e3);
    var e1 := J.Many(Field(ID, Num(id)), e2);
    LastStr(DATA, s7, close);
    NumThen(LEN, |data|, e7, close);
    NumThen(CAUSED_BY, cause, e6, close);
    TextThen(UNTRUSTED, TRUE, e5, close);
    NumThen(PID, pid, e4, close);
    StrThen(TYPE, PAYLOAD_OUTPUT, e3, close);
    NumThen(ID, id, e2, close);
    IdPart();
    TypePart();
    CausePart();
    LenPart();
    DataPart();
    OutputJoins(Name(ID), d1, Name(TYPE), s2, Name(PID), d3, Name(UNTRUSTED), TRUE, Name(CAUSED_BY), d5, Name(LEN), d6, Name(DATA), s7);
    assert close + [] == close;
    assert J.Text(J.Container(true, e1)) == [0x7B] + J.EntriesOn(e1, close);
    hide J.EntriesOn;
  }

  lemma LastStr(raw: Bytes, s: Bytes, close: Bytes)
    ensures J.EntriesOn(J.Single(Field(raw, J.Str(s))), close) == Name(raw) + ([0x22] + s + [0x22]) + close
  {
    StrField(raw, s, close);
    hide J.EntryOn;
  }

  lemma NumThen(raw: Bytes, n: nat, rest: J.Entries, close: Bytes)
    ensures J.EntriesOn(J.Many(Field(raw, Num(n)), rest), close) == Name(raw) + Digits(n, 10) + ([0x2C] + J.EntriesOn(rest, close))
  {
    NumField(raw, n, [0x2C] + J.EntriesOn(rest, close));
    hide J.EntryOn;
    hide Digits;
  }

  lemma TextThen(raw: Bytes, text: Bytes, rest: J.Entries, close: Bytes)
    ensures J.EntriesOn(J.Many(Field(raw, J.Scalar(text)), rest), close) == Name(raw) + text + ([0x2C] + J.EntriesOn(rest, close))
  {
    FlagField(raw, text, [0x2C] + J.EntriesOn(rest, close));
    hide J.EntryOn;
  }

  lemma StrThen(raw: Bytes, s: Bytes, rest: J.Entries, close: Bytes)
    ensures J.EntriesOn(J.Many(Field(raw, J.Str(s)), rest), close) == Name(raw) + ([0x22] + s + [0x22]) + ([0x2C] + J.EntriesOn(rest, close))
  {
    StrField(raw, s, [0x2C] + J.EntriesOn(rest, close));
    hide J.EntryOn;
  }

  /** An output frame is one JSON object. Its members, found by their keys, are the numbers it
      was made from and the payload's bytes, marked as not to be trusted. */
  lemma OutputMembers(id: Word, pid: Word, cause: Word, data: Bytes)
    ensures var text := OutputText(id, pid, cause, data);
      && (exists n: Bytes :: J.Get(text, [0x69, 0x64]) == Some(n) && Number(n, 10) == id)
      && (exists n: Bytes :: J.Get(text, [0x70, 0x69, 0x64]) == Some(n) && Number(n, 10) == pid)
      && (exists n: Bytes :: J.Get(text, [0x63, 0x61, 0x75, 0x73, 0x65, 0x64, 0x5F, 0x62, 0x79]) == Some(n) && Number(n, 10) == cause)
      && (exists n: Bytes :: J.Get(text, [0x6C, 0x65, 0x6E]) == Some(n) && Number(n, 10) == |data|)
      && J.Get(text, [0x75, 0x6E, 0x74, 0x72, 0x75, 0x73, 0x74, 0x65, 0x64]) == Some([0x74, 0x72, 0x75, 0x65])
      && J.Get(text, [0x64, 0x61, 0x74, 0x61]) == Some([0x22] + Escape(data) + [0x22])
  {
    hide J.Get;
    hide Digits;
    hide Escape;
    hide OutputText;
    hide Number;
    var text := OutputText(id, pid, cause, data);
    OutputMember(id, pid, cause, data, ID);
    OutputMember(id, pid, cause, data, PID);
    OutputMember(id, pid, cause, data, CAUSED_BY);
    OutputMember(id, pid, cause, data, LEN);
    OutputMember(id, pid, cause, data, UNTRUSTED);
    OutputMember(id, pid, cause, data, DATA);
    DigitsRead(id, 10);
    DigitsRead(pid, 10);
    DigitsRead(cause, 10);
    DigitsRead(|data|, 10);
  }

  lemma OutputMember(id: Word, pid: Word, cause: Word, data: Bytes, key: Bytes)
    ensures J.Get(OutputText(id, pid, cause, data), key) ==
      if key == ID then Some(Digits(id, 10))
      else if key == TYPE then Some([0x22] + PAYLOAD_OUTPUT + [0x22])
      else if key == PID then Some(Digits(pid, 10))
      else if key == UNTRUSTED then Some(TRUE)
      else if key == CAUSED_BY then Some(Digits(cause, 10))
      else if key == LEN then Some(Digits(|data|, 10))
      else if key == DATA then Some([0x22] + Escape(data) + [0x22])
      else None
  {
    hide J.Get;
    hide Digits;
    hide Escape;
    hide OutputText;
    var es := OutputFields(id, pid, cause, data);
    var text := OutputText(id, pid, cause, data);
    OutputGood(id, pid, cause, data);
    OutputIsObject(id, pid, cause, data);
    hide J.Good;
    J.ObjectFound([], es, [], key);
    assert [] + (text + []) == text;
    StrText(PAYLOAD_OUTPUT);
    StrText(Escape(data));
    ScalarText(TRUE);
    ScalarText(Digits(id, 10));
    ScalarText(Digits(pid, 10));
    ScalarText(Digits(cause, 10));
    ScalarText(Digits(|data|, 10));
    hide J.Text;
    OutputFirst(id, pid, cause, data, key);
  }

  lemma OutputFirst(id: Word, pid: Word, cause: Word, data: Bytes, key: Bytes)
    ensures J.FirstMember(OutputFields(id, pid, cause, data), key) ==
      if key == ID then Some(Num(id))
      else if key == TYPE then Some(J.Str(PAYLOAD_OUTPUT))
      else if key == PID then Some(Num(pid))
      else if key == UNTRUSTED then Some(J.Scalar(TRUE))
      else if key == CAUSED_BY then Some(Num(cause))
      else if key == LEN then Some(Num(|data|))
      else if key == DATA then Some(J.Str(Escape(data)))
      else None
  {
    hide Digits;
    hide Escape;
    var e7 := J.Single(Field(DATA, J.Str(Escape(data))));
    var e6 := J.Many(Field(LEN, Num(|data|)), e7);
    var e5 := J.Many(Field(CAUSED_BY, Num(cause)), e6);
    var e4 := J.Many(Field(UNTRUSTED, J.Scalar(TRUE)), e5);
    var e3 := J.Many(Field(PID, Num(pid)), e4);
    var e2 := J.Many(Field(TYPE, J.Str(PAYLOAD_OUTPUT)), e3);
    assert J.FirstMember(e6, key) == if key == LEN then Some(Num(|data|)) else J.FirstMember(e7, key);
    assert J.FirstMember(e4, key) == if key == UNTRUSTED then Some(J.Scalar(TRUE)) else J.FirstMember(e5, key);
    assert J.FirstMember(e2, key) == if key == TYPE then Some(J.Str(PAYLOAD_OUTPUT)) else J.FirstMember(e3, key);
  }

  lemma StrText(s: Bytes)
    ensures J.Text(J.Str(s)) == [0x22] + s + [0x22]
  {
  }

  lemma ScalarText(s: Bytes)
    ensures J.Text(J.Scalar(s)) == s
  {
  }

  // ---- pictures -----------------------------------------------------------

  /** Ten brightness levels, from space to `@`. */
  lemma GlyphLevels(v: Byte)
    ensures Glyph(v) ==
      if v < 29 then 0x20 else if v < 57 then 0x2E else if v < 85 then 0x3A else if v < 114 then 0x2D else if v < 142 then 0x3D
      else if v < 170 then 0x2B else if v < 199 then 0x2A else if v < 227 then 0x23 else if v < 255 then 0x25 else 0x40
  {
  }

  /** The checksum is 64-bit FNV-1a: its published values for the empty string and for "a". */
  lemma FnvVectors()
    ensures Fnv([]) == 0xcbf2_9ce4_8422_2325
    ensures Fnv([[0x61]]) == 0xaf63_dc4c_8601_ec8c
  {
    var row: Bytes, none: seq<Bytes>, empty: Bytes := [0x61], [], [];
    assert [row][..0] == none && row[..0] == empty;
    assert Fnv([row]) == FnvRow(Fnv(none), row);
    assert FnvRow(Fnv(none), row) == FnvByte(Fnv(none), 0x61);
  }

  /** The rows as the elements of an array. */
  function RowEntries(rows: seq<Bytes>): J.Entries {
    if rows == [] then J.Void([])
    else
      var first := J.Entry([], None, J.Str(Glyphs(rows[0])), []);
      if |rows| == 1 then J.Single(first) else J.Many(first, RowEntries(rows[1..]))
  }

  lemma {:induction false} RowsGood(rows: seq<Bytes>)
    ensures J.GoodEntries(RowEntries(rows), false)
  {
    if rows != [] {
      RowsGood(rows[1..]);
      RowGood(rows[0]);
      hide J.RawOk;
      hide Glyphs;
      assert |rows| > 1 ==> !RowEntries(rows[1..]).Void?;
    }
  }

  lemma RowGood(row: Bytes)
    ensures J.GoodEntry(J.Entry([], None, J.Str(Glyphs(row)), []), false)
  {
    PlainRaw(Glyphs(row));
    hide J.RawOk;
  }

  /** Every row but the first, with its comma. */
  function Commas(rows: seq<Bytes>): Bytes {
    if rows == [] then [] else Commas(rows[..|rows| - 1]) + RowText(false, rows[|rows| - 1])
  }

  lemma {:induction false} RowsSplit(rows: seq<Bytes>)
    requires rows != []
    ensures RowsText(rows) == RowText(true, rows[0]) + Commas(rows[1..])
  {
    hide RowText;
    var n := |rows| - 1;
    if n == 0 {
      assert rows[..0] == [] && rows[1..] == [];
    } else {
      RowsSplit(rows[..n]);
      assert rows[..n][1..] == rows[1..][..n - 1];
      assert Commas(rows[1..]) == Commas(rows[1..][..n - 1]) + RowText(false, rows[n]);
    }
  }

  lemma {:induction false} CommasFirst(rows: seq<Bytes>)
    requires rows != []
    ensures Commas(rows) == RowText(false, rows[0]) + Commas(rows[1..])
  {
    hide RowText;
    var n := |rows| - 1;
    if n == 0 {
      assert rows[..0] == [] && rows[1..] == [];
    } else {
      CommasFirst(rows[..n]);
      var mid := rows[1..n];
      assert rows[..n][1..] == mid && rows[1..][..n - 1] == mid;
      var first, last := RowText(false, rows[0]), RowText(false, rows[n]);
      assert Commas(rows[1..]) == Commas(mid) + last;
      assert Commas(rows) == (first + Commas(mid)) + last;
      assert (first + Commas(mid)) + last == first + (Commas(mid) + last);
    }
  }

  lemma RowEntry(row: Bytes, tail: Bytes)
    ensures J.EntryOn(J.Entry([], None, J.Str(Glyphs(row)), []), tail) == [0x22] + Glyphs(row) + [0x22] + tail
    ensures RowText(true, row) == [0x22] + Glyphs(row) + [0x22]
    ensures RowText(false, row) == [0x2C] + ([0x22] + Glyphs(row) + [0x22])
  {
    var g := Glyphs(row);
    hide Glyphs;
    assert Text(",") == [0x2C];
    assert [] + tail == tail;
    assert [0x22] + (g + ([0x22] + tail)) == [0x22] + g + [0x22] + tail;
  }

  lemma {:induction false} RowsOn(rows: seq<Bytes>, tail: Bytes)
    requires rows != []
    ensures [0x2C] + J.EntriesOn(RowEntries(rows), tail) == Commas(rows) + tail
  {
    hide Glyphs;
    hide RowText;
    hide J.EntryOn;
    CommasFirst(rows);
    var one := RowText(true, rows[0]);
    if |rows| == 1 {
      RowEntry(rows[0], tail);
      assert rows[1..] == [];
    } else {
      RowsOn(rows[1..], tail);
      var more := [0x2C] + J.EntriesOn(RowEntries(rows[1..]), tail);
      RowEntry(rows[0], more);
      assert [0x2C] + (one + more) == ([0x2C] + one) + more;
      assert ([0x2C] + one) + (Commas(rows[1..]) + tail) == Commas(rows) + tail;
    }
  }

  /** The rows' text is that of the array's elements. */
  lemma RowsAre(rows: seq<Bytes>, tail: Bytes)
    requires rows != []
    ensures J.EntriesOn(RowEntries(rows), tail) == RowsText(rows) + tail
  {
    hide RowsText;
    hide J.EntriesOn;
    hide RowEntries;
    hide Commas;
    hide RowText;
    hide Glyphs;
    hide J.EntryOn;
    RowsOn(rows, tail);
    RowsSplit(rows);
    CommasFirst(rows);
    RowEntry(rows[0], tail);
    var one, rest, es := RowText(true, rows[0]), Commas(rows[1..]), J.EntriesOn(RowEntries(rows), tail);
    assert [0x2C] + es == [0x2C] + (one + rest + tail);
    assert es == ([0x2C] + es)[1..];
    assert one + rest + tail == ([0x2C] + (one + rest + tail))[1..];
  }

  const WIDTH: Bytes := [0x77]
  const HEIGHT: Bytes := [0x68]
  const ROWS: Bytes := [0x72, 0x6F, 0x77, 0x73]
  const CHECKSUM: Bytes := [0x63, 0x68, 0x65, 0x63, 0x6B, 0x73, 0x75, 0x6D]
  const FRAME: Bytes := [0x66, 0x72, 0x61, 0x6D, 0x65]
  const HEX: Bytes := [0x30, 0x78]

  function BlitFields(id: Word, pid: Word, w: nat, h: nat, rows: seq<Bytes>): J.Entries {
    J.Many(Field(ID, Num(id)),
    J.Many(Field(TYPE, J.Str(FRAME)),
    J.Many(Field(PID, Num(pid)),
    J.Many(Field(UNTRUSTED, J.Scalar(TRUE)),
    J.Many(Field(WIDTH, Num(w)),
    J.Many(Field(HEIGHT, Num(h)),
    J.Many(Field(ROWS, J.Container(false, RowEntries(rows))),
    J.Single(Field(CHECKSUM, J.Str(HEX + Digits(Fnv(rows) as nat, 16)))))))))))
  }

  lemma BlitGood(id: Word, pid: Word, w: nat, h: nat, rows: seq<Bytes>)
    ensures J.Good(J.Container(true, BlitFields(id, pid, w, h, rows)))
  {
    hide J.RawOk;
    hide Digits;
    hide RowEntries;
    hide Fnv;
    var c := Fnv(rows) as nat;
    DigitsPlain(id, 10);
    DigitsPlain(pid, 10);
    DigitsPlain(w, 10);
    DigitsPlain(h, 10);
    DigitsPlain(c, 16);
    PlainRaw(HEX + Digits(c, 16));
    PlainRaw(ID);
    PlainRaw(TYPE);
    PlainRaw(PID);
    PlainRaw(UNTRUSTED);
    PlainRaw(WIDTH);
    PlainRaw(HEIGHT);
    PlainRaw(ROWS);
    PlainRaw(CHECKSUM);
    PlainRaw(FRAME);
    RowsGood(rows);
    assert J.ScalarOk(TRUE);
    hide J.ScalarOk;
    var e8 := J.Single(Field(CHECKSUM, J.Str(HEX + Digits(c, 16))));
    GoodLast(CHECKSUM, J.Str(HEX + Digits(c, 16)));
    var e7 := J.Many(Field(ROWS, J.Container(false, RowEntries(rows))), e8);
    GoodMore(ROWS, J.Container(false, RowEntries(rows)), e8);
    var e6 := J.Many(Field(HEIGHT, Num(h)), e7);
    GoodMore(HEIGHT, Num(h), e7);
    var e5 := J.Many(Field(WIDTH, Num(w)), e6);
    GoodMore(WIDTH, Num(w), e6);
    var e4 := J.Many(Field(UNTRUSTED, J.Scalar(TRUE)), e5);
    GoodMore(UNTRUSTED, J.Scalar(TRUE), e5);
    var e3 := J.Many(Field(PID, Num(pid)), e4);
    GoodMore(PID, Num(pid), e4);
    var e2 := J.Many(Field(TYPE, J.Str(FRAME)), e3);
    GoodMore(TYPE, J.Str(FRAME), e3);
    GoodMore(ID, Num(id), e2);
    hide J.GoodEntries;
  }

  lemma FramePart()
    ensures Text(",\"type\":\"frame\",\"pid\":") == [0x2C] + (Name(TYPE) + ([0x22] + FRAME + [0x22])) + ([0x2C] + Name(PID))
  {
  }

  lemma WidthPart()
    ensures Text(",\"untrusted\":true,\"w\":") == [0x2C] + (Name(UNTRUSTED) + TRUE) + ([0x2C] + Name(WIDTH))
  {
  }

  lemma HeightPart()
    ensures Text(",\"h\":") == [0x2C] + Name(HEIGHT)
    ensures Text(",\"rows\":[") == [0x2C] + Name(ROWS) + [0x5B]
  {
  }

  lemma ChecksumPart()
    ensures Text("],\"checksum\":\"0x") == [0x5D] + ([0x2C] + Name(CHECKSUM) + ([0x22] + HEX))
    ensures Text("\"}") == [0x22] + [0x7D]
  {
  }

  lemma BlitJoins(q1: Bytes, d1: Bytes, q2: Bytes, s2: Bytes, q3: Bytes, d3: Bytes, q4: Bytes, s4: Bytes, q5: Bytes, d5: Bytes,
                  q6: Bytes, d6: Bytes, q7: Bytes, s7: Bytes, q8: Bytes, x: Bytes, d8: Bytes)
    ensures var t8 := q8 + ([0x22] + (x + d8) + [0x22]) + [0x7D];
      var t7 := q7 + ([0x5B] + (s7 + ([0x5D] + ([0x2C] + t8))));
      var t5 := q5 + d5 + ([0x2C] + (q6 + d6 + ([0x2C] + t7)));
      var t3 := q3 + d3 + ([0x2C] + (q4 + s4 + ([0x2C] + t5)));
      var t1 := q1 + d1 + ([0x2C] + (q2 + s2 + ([0x2C] + t3)));
      (([0x7B] + q1) + d1 + ([0x2C] + (q2 + s2) + ([0x2C] + q3)) + d3 + ([0x2C] + (q4 + s4) + ([0x2C] + q5)) + d5 + ([0x2C] + q6) + d6
        + ([0x2C] + q7 + [0x5B])) + s7 + (([0x5D] + ([0x2C] + q8 + ([0x22] + x))) + d8 + ([0x22] + [0x7D])) == [0x7B] + t1
  {
    var t8 := q8 + ([0x22] + (x + d8) + [0x22]) + [0x7D];
    var t7 := q7 + ([0x5B] + (s7 + ([0x5D] + ([0x2C] + t8))));
    var t6 := q6 + d6 + ([0x2C] + t7);
    var t5 := q5 + d5 + ([0x2C] + t6);
    var t4 := q4 + s4 + ([0x2C] + t5);
    var t3 := q3 + d3 + ([0x2C] + t4);
    var t2 := q2 + s2 + ([0x2C] + t3);
    var a1 := ([0x7B] + q1) + d1;
    var a2 := a1 + ([0x2C] + (q2 + s2) + ([0x2C] + q3)) + d3;
    var a3 := a2 + ([0x2C] + (q4 + s4) + ([0x2C] + q5)) + d5;
    var a4 := a3 + ([0x2C] + q6) + d6;
    assert ([0x5D] + ([0x2C] + q8 + ([0x22] + x))) + d8 + ([0x22] + [0x7D]) == [0x5D] + ([0x2C] + t8);
    assert (a4 + ([0x2C] + q7 + [0x5B])) + s7 + ([0x5D] + ([0x2C] + t8)) == a4 + ([0x2C] + t7);
    assert a4 + ([0x2C] + t7) == a3 + ([0x2C] + t6);
    assert a3 + ([0x2C] + t6) == a2 + ([0x2C] + (q4 + s4)) + ([0x2C] + t5);
    assert a2 + ([0x2C] + (q4 + s4)) + ([0x2C] + t5) == a2 + ([0x2C] + t4);
    assert a2 + ([0x2C] + t4) == a1 + ([0x2C] + (q2 + s2)) + ([0x2C] + t3);
    assert a1 + ([0x2C] + (q2 + s2)) + ([0x2C] + t3) == a1 + ([0x2C] + t2);
    assert a1 + ([0x2C] + t2) == [0x7B] + (q1 + d1 + ([0x2C] + t2));
  }

  lemma RowsThen(rows: seq<Bytes>, rest: J.Entries, close: Bytes)
    requires rows != []
    ensures J.EntriesOn(J.Many(Field(ROWS, J.Container(false, RowEntries(rows))), rest), close)
         == Name(ROWS) + ([0x5B] + (RowsText(rows) + ([0x5D] + ([0x2C] + J.EntriesOn(rest, close)))))
  {
    hide RowEntries;
    hide RowsText;
    var tail := [0x2C] + J.EntriesOn(rest, close);
    J.MemberText([], ROWS, [], J.Container(false, RowEntries(rows)), tail);
    RowsAre(rows, [0x5D] + tail);
    assert [] + [0x22] == [0x22];
    assert Name(ROWS) + [] == Name(ROWS);
    hide J.EntryOn;
  }

  lemma BlitIsObject(id: Word, pid: Word, w: nat, h: nat, rows: seq<Bytes>)
    requires rows != []
    ensures J.Text(J.Container(true, BlitFields(id, pid, w, h, rows))) == BlitText(id, pid, w, h, rows)
  {
    hide Digits;
    hide Text;
    hide J.EntryOn;
    hide Name;
    hide RowEntries;
    hide RowsText;
    hide Fnv;
    var d1, d3, d5, d6, d8 := Digits(id, 10), Digits(pid, 10), Digits(w, 10), Digits(h, 10), Digits(Fnv(rows) as nat, 16);
    var s2 := [0x22] + FRAME + [0x22];
    var close: Bytes := [0x7D];
    var e8 := J.Single(Field(CHECKSUM, J.Str(HEX + d8)));
    var e7 := J.Many(Field(ROWS, J.Container(false, RowEntries(rows))), e8);
    var e6 := J.Many(Field(HEIGHT, Num(h)), e7);
    var e5 := J.Many(Field(WIDTH, Num(w)), e6);
    var e4 := J.Many(Field(UNTRUSTED, J.Scalar(TRUE)), e5);
    var e3 := J.Many(Field(PID, Num(pid)), e4);
    var e2 := J.Many(Field(TYPE, J.Str(FRAME)), e3);
    var e1 := J.Many(Field(ID, Num(id)), e2);
    LastStr(CHECKSUM, HEX + d8, close);
    RowsThen(rows, e8, close);
    NumThen(HEIGHT, h, e7, close);
    NumThen(WIDTH, w, e6, close);
    TextThen(UNTRUSTED, TRUE, e5, close);
    NumThen(PID, pid, e4, close);
    StrThen(TYPE, FRAME, e3, close);
    NumThen(ID, id, e2, close);
    IdPart();
    FramePart();
    WidthPart();
    HeightPart();
    ChecksumPart();
    BlitJoins(Name(ID), d1, Name(TYPE), s2, Name(PID), d3, Name(UNTRUSTED), TRUE, Name(WIDTH), d5, Name(HEIGHT), d6,
              Name(ROWS), RowsText(rows), Name(CHECKSUM), HEX, d8);
    assert close + [] == close;
    assert J.Text(J.Container(true, e1)) == [0x7B] + J.EntriesOn(e1, close);
    hide J.EntriesOn;
  }

  lemma BlitMember(id: Word, pid: Word, w: nat, h: nat, rows: seq<Bytes>, key: Bytes)
    requires rows != []
    ensures J.Get(BlitText(id, pid, w, h, rows), key) ==
      if key == ID then Some(Digits(id, 10))
      else if key == TYPE then Some([0x22] + FRAME + [0x22])
      else if key == PID then Some(Digits(pid, 10))
      else if key == UNTRUSTED then Some(TRUE)
      else if key == WIDTH then Some(Digits(w, 10))
      else if key == HEIGHT then Some(Digits(h, 10))
      else if key == ROWS then Some(J.Text(J.Container(false, RowEntries(rows))))
      else if key == CHECKSUM then Some([0x22] + (HEX + Digits(Fnv(rows) as nat, 16)) + [0x22])
      else None
  {
    hide J.Get;
    hide Digits;
    hide BlitText;
    hide RowEntries;
    hide Fnv;
    var es := BlitFields(id, pid, w, h, rows);
    var text := BlitText(id, pid, w, h, rows);
    BlitGood(id, pid, w, h, rows);
    BlitIsObject(id, pid, w, h, rows);
    hide J.Good;
    J.ObjectFound([], es, [], key);
    assert [] + (text + []) == text;
    StrText(FRAME);
    StrText(HEX + Digits(Fnv(rows) as nat, 16));
    ScalarText(TRUE);
    ScalarText(Digits(id, 10));
    ScalarText(Digits(pid, 10));
    ScalarText(Digits(w, 10));
    ScalarText(Digits(h, 10));
    hide J.Text;
    BlitFirst(id, pid, w, h, rows, key);
  }

  lemma BlitFirst(id: Word, pid: Word, w: nat, h: nat, rows: seq<Bytes>, key: Bytes)
    ensures J.FirstMember(BlitFields(id, pid, w, h, rows), key) ==
      if key == ID then Some(Num(id))
      else if key == TYPE then Some(J.Str(FRAME))
      else if key == PID then Some(Num(pid))
      else if key == UNTRUSTED then Some(J.Scalar(TRUE))
      else if key == WIDTH then Some(Num(w))
      else if key == HEIGHT then Some(Num(h))
      else if key == ROWS then Some(J.Container(false, RowEntries(rows)))
      else if key == CHECKSUM then Some(J.Str(HEX + Digits(Fnv(rows) as nat, 16)))
      else None
  {
    hide Digits;
    hide RowEntries;
    hide Fnv;
    var e8 := J.Single(Field(CHECKSUM, J.Str(HEX + Digits(Fnv(rows) as nat, 16))));
    var e7 := J.Many(Field(ROWS, J.Container(false, RowEntries(rows))), e8);
    var e6 := J.Many(Field(HEIGHT, Num(h)), e7);
    var e5 := J.Many(Field(WIDTH, Num(w)), e6);
    var e4 := J.Many(Field(UNTRUSTED, J.Scalar(TRUE)), e5);
    var e3 := J.Many(Field(PID, Num(pid)), e4);
    var e2 := J.Many(Field(TYPE, J.Str(FRAME)), e3);
    assert J.FirstMember(e7, key) == if key == ROWS then Some(J.Container(false, RowEntries(rows))) else J.FirstMember(e8, key);
    assert J.FirstMember(e5, key) == if key == WIDTH then Some(Num(w)) else J.FirstMember(e6, key);
    assert J.FirstMember(e3, key) == if key == PID then Some(Num(pid)) else J.FirstMember(e4, key);
  }

  /** A picture frame is one JSON object: its size, its rows as strings of glyphs in order, and
      the checksum of the pixels. */
  lemma BlitMembers(id: Word, pid: Word, w: nat, h: nat, rows: seq<Bytes>)
    requires rows != []
    ensures var text := BlitText(id, pid, w, h, rows);
      && (exists n: Bytes :: J.Get(text, [0x69, 0x64]) == Some(n) && Number(n, 10) == id)
      && (exists n: Bytes :: J.Get(text, [0x70, 0x69, 0x64]) == Some(n) && Number(n, 10) == pid)
      && (exists n: Bytes :: J.Get(text, [0x77]) == Some(n) && Number(n, 10) == w)
      && (exists n: Bytes :: J.Get(text, [0x68]) == Some(n) && Number(n, 10) == h)
      && J.Get(text, [0x75, 0x6E, 0x74, 0x72, 0x75, 0x73, 0x74, 0x65, 0x64]) == Some([0x74, 0x72, 0x75, 0x65])
      && J.Get(text, [0x72, 0x6F, 0x77, 0x73]) == Some(J.Text(J.Container(false, RowEntries(rows))))
      && (exists n: Bytes :: J.Get(text, [0x63, 0x68, 0x65, 0x63, 0x6B, 0x73, 0x75, 0x6D]) == Some([0x22] + ([0x30, 0x78] + n) + [0x22])
                             && Number(n, 16) == Fnv(rows) as nat)
  {
    hide J.Get;
    hide J.Text;
    hide Digits;
    hide BlitText;
    hide RowEntries;
    hide Fnv;
    hide Number;
    BlitMember(id, pid, w, h, rows, ID);
    BlitMember(id, pid, w, h, rows, PID);
    BlitMember(id, pid, w, h, rows, WIDTH);
    BlitMember(id, pid, w, h, rows, HEIGHT);
    BlitMember(id, pid, w, h, rows, UNTRUSTED);
    BlitMember(id, pid, w, h, rows, ROWS);
    BlitMember(id, pid, w, h, rows, CHECKSUM);
    DigitsRead(id, 10);
    DigitsRead(pid, 10);
    DigitsRead(w, 10);
    DigitsRead(h, 10);
    DigitsRead(Fnv(rows) as nat, 16);
  }
}
