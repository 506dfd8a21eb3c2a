/** Table and trigger descriptions and their byte forms (src/catalog/meta.rs). */
module MetaCodec {
  import opened Keys
  import opened Wire

  datatype DataType = Integer | Text | Boolean | Float

  /** A column; its default expression has no byte form, so only its presence matters. */
  datatype Column = Column(name: string, dataType: DataType, nullable: bool, autoinc: bool, hasDefault: bool)

  datatype TableMeta = TableMeta(name: string, columns: seq<Column>, root: nat, rows: nat, autoincLast: U64)

  datatype Timing = Before | After | InsteadOf

  datatype Event = Delete | Insert | Update(columns: Option<seq<string>>)

  datatype TriggerMeta = TriggerMeta(name: string, table: string, timing: Timing, event: Event,
                                     forEachRow: bool, condition: Option<string>, body: string)

  const NONE_LEN: U32 := 0xFFFF_FFFF

  function PutStr(s: string): Bytes { PutBytes(Utf8(s)) }

  predicate ShortStr(s: string) { |Utf8(s)| < 0x1_0000_0000 }

  /** The string at the front of `buf`; None is a panic. */
  function GetStr(buf: Bytes): (r: Option<(string, nat)>)
    ensures r.Some? ==> 0 < r.value.1 <= |buf|
  {
    var b := GetBytes(buf);
    if b.None? then None
    else
      var s := FromUtf8(b.value.0);
      if s.None? then None else Some((s.value, b.value.1))
  }

  lemma {:induction false} StrRoundTrip(s: string, rest: Bytes)
    requires ShortStr(s)
    ensures GetStr(PutStr(s) + rest) == Some((s, |PutStr(s)|)) && |PutStr(s)| >= 4
  {
    hide PutU32, GetU32, Utf8, FromUtf8;
    BytesRoundTrip(Utf8(s), rest);
    Utf8RoundTrip(s);
  }

  function Flag(b: bool): Byte { if b then 1 else 0 }

  function TypeTag(dt: DataType): Byte {
    match dt
    case Integer => 0
    case Text => 1
    case Boolean => 2
    case Float => 3
  }

  function TagType(tag: Byte): Option<DataType> {
    match tag
    case 0 => Some(DataType.Integer)
    case 1 => Some(DataType.Text)
    case 2 => Some(Boolean)
    case 3 => Some(Float)
    case _ => None
  }

  // ------------------------------------------------------------------
  // Tables.
  // ------------------------------------------------------------------

  function ColumnBytes(c: Column): Bytes {
    PutStr(c.name) + [TypeTag(c.dataType), Flag(c.nullable), Flag(c.autoinc)]
  }

  function GetColumn(buf: Bytes): (r: Option<(Column, nat)>)
    ensures r.Some? ==> 0 < r.value.1 <= |buf|
  {
    var s := GetStr(buf);
    if s.None? || s.value.1 + 3 > |buf| then None
    else
      var n := s.value.1;
      var dt := TagType(buf[n]);
      if dt.None? then None else Some((Column(s.value.0, dt.value, buf[n + 1] != 0, buf[n + 2] != 0, false), n + 3))
  }

  function ColumnsBytes(cs: seq<Column>): Bytes {
    if cs == [] then [] else ColumnBytes(cs[0]) + ColumnsBytes(cs[1..])
  }

  function GetColumns(buf: Bytes, n: nat): (r: Option<(seq<Column>, nat)>)
    ensures r.Some? ==> r.value.1 <= |buf| && |r.value.0| == n
    decreases n
  {
    if n == 0 then Some(([], 0))
    else
      var c := GetColumn(buf);
      if c.None? then None
      else
        var rest := GetColumns(buf[c.value.1..], n - 1);
        if rest.None? then None else Some(([c.value.0] + rest.value.0, c.value.1 + rest.value.1))
  }

  function MetaBytes(m: TableMeta): Bytes {
    PutStr(m.name) + (PutU32(AsU32(|m.columns|)) + (ColumnsBytes(m.columns) +
      (PutU32(AsU32(m.root)) + (PutU32(AsU32(m.rows)) + PutU64(m.autoincLast)))))
  }

  function GetMeta(buf: Bytes): Option<TableMeta> {
    var name := GetStr(buf);
    if name.None? then None
    else
      var b1 := buf[name.value.1..];
      var count := GetU32(b1);
      if count.None? then None
      else
        var b2 := b1[4..];
        var cs := GetColumns(b2, count.value);
        if cs.None? then None
        else
          var b3 := b2[cs.value.1..];
          if |b3| < 16 then None
          else Some(TableMeta(name.value.0, cs.value.0, GetU32(b3).value, GetU32(b3[4..]).value, GetU64(b3[8..]).value))
  }

  /** What survives: defaults are dropped, and the two counters keep their low 32 bits. */
  function Stripped(m: TableMeta): TableMeta {
    m.(columns := NoDefaults(m.columns), root := AsU32(m.root), rows := AsU32(m.rows))
  }

  function NoDefaults(cs: seq<Column>): seq<Column> {
    if cs == [] then [] else [cs[0].(hasDefault := false)] + NoDefaults(cs[1..])
  }

  predicate ShortNames(cs: seq<Column>) { forall i :: 0 <= i < |cs| ==> ShortStr(cs[i].name) }

  lemma {:induction false} ColumnRoundTrip(c: Column, rest: Bytes)
    requires ShortStr(c.name)
    ensures GetColumn(ColumnBytes(c) + rest) == Some((c.(hasDefault := false), |ColumnBytes(c)|))
  {
    hide PutStr, GetStr;
    var buf := ColumnBytes(c) + rest;
    var tags := [TypeTag(c.dataType), Flag(c.nullable), Flag(c.autoinc)];
    assert buf == PutStr(c.name) + (tags + rest);
    StrRoundTrip(c.name, tags + rest);
  }

  lemma {:induction false} ColumnsRoundTrip(cs: seq<Column>, rest: Bytes)
    requires ShortNames(cs)
    ensures GetColumns(ColumnsBytes(cs) + rest, |cs|) == Some((NoDefaults(cs), |ColumnsBytes(cs)|))
  {
    hide ColumnBytes, GetColumn, ShortStr;
    if cs != [] {
      var tail := ColumnsBytes(cs[1..]) + rest;
      assert ColumnsBytes(cs) + rest == ColumnBytes(cs[0]) + tail;
      ColumnRoundTrip(cs[0], tail);
      ColumnsRoundTrip(cs[1..], rest);
      assert (ColumnBytes(cs[0]) + tail)[|ColumnBytes(cs[0])|..] == tail;
    }
  }

  lemma {:induction false} NoDefaultsIs(cs: seq<Column>)
    ensures NoDefaults(cs) == cs <==> forall i :: 0 <= i < |cs| ==> !cs[i].hasDefault
  {
    if cs != [] {
      NoDefaultsIs(cs[1..]);
      assert cs == [cs[0]] + cs[1..];
      if NoDefaults(cs) == cs {
        assert NoDefaults(cs)[0] == cs[0] && NoDefaults(cs)[1..] == NoDefaults(cs[1..]);
      }
    }
  }

  /** Reading a description back gives it without defaults and with 32-bit counters, hence the
      description itself if and only if no column has a default and the counters fit. */
  lemma {:induction false} MetaRoundTrip(m: TableMeta)
    requires ShortStr(m.name) && ShortNames(m.columns) && |m.columns| < 0x1_0000_0000
    ensures GetMeta(MetaBytes(m)) == Some(Stripped(m))
    ensures GetMeta(MetaBytes(m)) == Some(m) <==>
      m.root < 0x1_0000_0000 && m.rows < 0x1_0000_0000 && forall i :: 0 <= i < |m.columns| ==> !m.columns[i].hasDefault
  {
    hide PutStr, GetStr, PutU32, GetU32, PutU64, GetU64, ColumnsBytes, GetColumns, NoDefaults;
    var t5 := PutU64(m.autoincLast) + [];
    var t4 := PutU32(AsU32(m.rows)) + t5;
    var t3 := PutU32(AsU32(m.root)) + t4;
    var t2 := ColumnsBytes(m.columns) + t3;
    var t1 := PutU32(AsU32(|m.columns|)) + t2;
    assert t5 == PutU64(m.autoincLast) && MetaBytes(m) == PutStr(m.name) + t1;
    StrRoundTrip(m.name, t1);
    U32RoundTrip(|m.columns|, t2);
    ColumnsRoundTrip(m.columns, t3);
    U32RoundTrip(AsU32(m.root), t4);
    U32RoundTrip(AsU32(m.rows), t5);
    U64RoundTrip(m.autoincLast, []);
    assert MetaBytes(m)[|PutStr(m.name)|..] == t1 && t1[4..] == t2 && t2[|ColumnsBytes(m.columns)|..] == t3;
    assert t3[4..] == t4 && t4[4..] == t5 && t3[8..] == t5;
    NoDefaultsIs(m.columns);
  }

  method EncodeColumns(head: Bytes, cs: seq<Column>) returns (buf: Bytes)
    ensures buf == head + ColumnsBytes(cs)
  {
    hide ColumnBytes;
    buf := head;
    assert head + ColumnsBytes(cs[..0]) == head;
    for i := 0 to |cs|
      invariant buf == head + ColumnsBytes(cs[..i])
    {
      ColumnsSnoc(cs[..i], cs[i]);
      assert cs[..i + 1] == cs[..i] + [cs[i]];
      buf := buf + ColumnBytes(cs[i]);
    }
    assert cs[..|cs|] == cs;
  }

  method EncodeMeta(m: TableMeta) returns (buf: Bytes)
    ensures buf == MetaBytes(m)
  {
    hide PutStr, ColumnsBytes;
    buf := PutStr(m.name) + PutU32(AsU32(|m.columns|));
    buf := EncodeColumns(buf, m.columns);
    buf := buf + PutU32(AsU32(m.root)) + PutU32(AsU32(m.rows)) + PutU64(m.autoincLast);
  }

  lemma {:induction false} ColumnsSnoc(cs: seq<Column>, c: Column)
    ensures ColumnsBytes(cs + [c]) == ColumnsBytes(cs) + ColumnBytes(c)
  {
    hide ColumnBytes;
    if cs != [] {
      ColumnsSnoc(cs[1..], c);
      assert (cs + [c])[1..] == cs[1..] + [c];
    }
  }

  // ------------------------------------------------------------------
  // Triggers.
  // ------------------------------------------------------------------

  function StrsBytes(ss: seq<string>): Bytes {
    if ss == [] then [] else PutStr(ss[0]) + StrsBytes(ss[1..])
  }

  function GetStrs(buf: Bytes, n: nat): (r: Option<(seq<string>, nat)>)
    ensures r.Some? ==> r.value.1 <= |buf|
    decreases n
  {
    if n == 0 then Some(([], 0))
    else
      var s := GetStr(buf);
      if s.None? then None
      else
        var rest := GetStrs(buf[s.value.1..], n - 1);
        if rest.None? then None else Some(([s.value.0] + rest.value.0, s.value.1 + rest.value.1))
  }

  function EventBytes(e: Event): Bytes {
    match e
    case Delete => [0]
    case Insert => [1]
    case Update(None) => [2] + PutU32(NONE_LEN)
    case Update(Some(cs)) => [2] + (PutU32(AsU32(|cs|)) + StrsBytes(cs))
  }

  function GetEvent(buf: Bytes): (r: Option<(Event, nat)>)
    ensures r.Some? ==> 0 < r.value.1 <= |buf|
  {
    if buf == [] then None
    else if buf[0] == 0 then Some((Delete, 1))
    else if buf[0] == 1 then Some((Insert, 1))
    else
      var n := GetU32(buf[1..]);
      if n.None? then None
      else if n.value == NONE_LEN then Some((Update(None), 5))
      else
        var cs := GetStrs(buf[5..], n.value);
        if cs.None? then None else Some((Update(Some(cs.value.0)), 5 + cs.value.1))
  }

  function ConditionBytes(w: Option<string>): Bytes {
    if w.None? then PutU32(NONE_LEN) else PutU32(AsU32(|Utf8(w.value)|)) + Utf8(w.value)
  }

  function GetCondition(buf: Bytes): (r: Option<(Option<string>, nat)>)
    ensures r.Some? ==> 0 < r.value.1 <= |buf|
  {
    var n := GetU32(buf);
    if n.None? then None
    else if n.value == NONE_LEN then Some((None, 4))
    else if |buf| < 4 + n.value then None
    else
      var s := FromUtf8(buf[4..4 + n.value]);
      if s.None? then None else Some((Some(s.value), 4 + n.value))
  }

  function TimingTag(t: Timing): Byte { if t == Before then 0 else if t == After then 1 else 2 }

  function TriggerBytes(t: TriggerMeta): Bytes {
    PutStr(t.name) + (PutStr(t.table) + ([TimingTag(t.timing)] + (EventBytes(t.event) +
      ([Flag(t.forEachRow)] + (ConditionBytes(t.condition) + PutStr(t.body))))))
  }

  function GetTrigger(buf: Bytes): Option<TriggerMeta> {
    var name := GetStr(buf);
    if name.None? then None
    else
      var b1 := buf[name.value.1..];
      var table := GetStr(b1);
      if table.None? || |b1| <= table.value.1 then None
      else
        var b2 := b1[table.value.1..];
        var timing := if b2[0] == 0 then Before else if b2[0] == 1 then After else InsteadOf;
        var event := GetEvent(b2[1..]);
        if event.None? || |b2| <= 1 + event.value.1 then None
        else
          var b3 := b2[1 + event.value.1..];
          var condition := GetCondition(b3[1..]);
          if condition.None? then None
          else
            var body := GetStr(b3[1 + condition.value.1..]);
            if body.None? then None
            else Some(TriggerMeta(name.value.0, table.value.0, timing, event.value.0, b3[0] != 0, condition.value.0,
                body.value.0))
  }

  lemma {:induction false} StrsRoundTrip(ss: seq<string>, rest: Bytes)
    requires forall i :: 0 <= i < |ss| ==> ShortStr(ss[i])
    ensures GetStrs(StrsBytes(ss) + rest, |ss|) == Some((ss, |StrsBytes(ss)|))
  {
    hide PutStr, GetStr, ShortStr;
    if ss != [] {
      var tail := StrsBytes(ss[1..]) + rest;
      assert StrsBytes(ss) + rest == PutStr(ss[0]) + tail;
      StrRoundTrip(ss[0], tail);
      StrsRoundTrip(ss[1..], rest);
      assert (PutStr(ss[0]) + tail)[|PutStr(ss[0])|..] == tail;
      assert ss == [ss[0]] + ss[1..];
    }
  }

  /** A list of 2^32 - 1 columns would read back as none. */
  predicate ShortEvent(e: Event) {
    e.Update? && e.columns.Some? ==>
      |e.columns.value| < NONE_LEN && forall i :: 0 <= i < |e.columns.value| ==> ShortStr(e.columns.value[i])
  }

  predicate ShortCondition(w: Option<string>) { w.Some? ==> |Utf8(w.value)| < NONE_LEN }

  lemma {:induction false} EventRoundTrip(e: Event, rest: Bytes)
    requires ShortEvent(e)
    ensures GetEvent(EventBytes(e) + rest) == Some((e, |EventBytes(e)|))
  {
    hide PutStr, GetStr, PutU32, GetU32, StrsBytes, GetStrs, ShortStr;
    var buf := EventBytes(e) + rest;
    if e.Update? {
      if e.columns.None? {
        assert buf[1..] == PutU32(NONE_LEN) + rest;
        U32RoundTrip(NONE_LEN, rest);
      } else {
        var cs := e.columns.value;
        var tail := StrsBytes(cs) + rest;
        assert buf[1..] == PutU32(|cs|) + tail;
        U32RoundTrip(|cs|, tail);
        assert buf[5..] == tail;
        StrsRoundTrip(cs, rest);
      }
    }
  }

  lemma {:induction false} ConditionRoundTrip(w: Option<string>, rest: Bytes)
    requires ShortCondition(w)
    ensures GetCondition(ConditionBytes(w) + rest) == Some((w, |ConditionBytes(w)|))
  {
    hide PutU32, GetU32, Utf8, FromUtf8;
    var buf := ConditionBytes(w) + rest;
    if w.None? {
      U32RoundTrip(NONE_LEN, rest);
    } else {
      var u := Utf8(w.value);
      assert buf == PutU32(|u|) + (u + rest);
      U32RoundTrip(|u|, u + rest);
      assert buf[4..4 + |u|] == u;
      Utf8RoundTrip(w.value);
    }
  }

  /** Reading a trigger undoes writing it. */
  lemma {:induction false} TriggerRoundTrip(t: TriggerMeta)
    requires ShortStr(t.name) && ShortStr(t.table) && ShortStr(t.body) && ShortEvent(t.event)
        && ShortCondition(t.condition)
    ensures GetTrigger(TriggerBytes(t)) == Some(t)
  {
    hide PutStr, GetStr, EventBytes, GetEvent, ConditionBytes, GetCondition, ShortStr, ShortEvent, ShortCondition;
    var t6 := PutStr(t.body) + [];
    var t5 := ConditionBytes(t.condition) + t6;
    var t4 := [Flag(t.forEachRow)] + t5;
    var t3 := EventBytes(t.event) + t4;
    var t2 := [TimingTag(t.timing)] + t3;
    var t1 := PutStr(t.table) + t2;
    assert t6 == PutStr(t.body) && TriggerBytes(t) == PutStr(t.name) + t1;
    StrRoundTrip(t.name, t1);
    StrRoundTrip(t.table, t2);
    EventRoundTrip(t.event, t4);
    ConditionRoundTrip(t.condition, t6);
    StrRoundTrip(t.body, []);
    assert TriggerBytes(t)[|PutStr(t.name)|..] == t1 && t1[|PutStr(t.table)|..] == t2 && t2[1..] == t3;
    assert t2[1 + |EventBytes(t.event)|..] == t4 && t4[1..] == t5 && t4[1 + |ConditionBytes(t.condition)|..] == t6;
  }

  // ------------------------------------------------------------------
  // The loops of the codec.
  // ------------------------------------------------------------------

  method DecodeColumns(buf: Bytes, n: nat) returns (r: Option<(seq<Column>, nat)>)
    ensures r == GetColumns(buf, n)
  {
    hide GetColumn;
    var cs: seq<Column>, cur: nat := [], 0;
    assert buf[0..] == buf;
    ThenNone(GetColumns(buf, n));
    for i := 0 to n
      invariant cur <= |buf| && GetColumns(buf, n) == Then(cs, cur, GetColumns(buf[cur..], n - i))
    {
      var c := GetColumn(buf[cur..]);
      if c.None? {
        return None;
      }
      assert buf[cur..][c.value.1..] == buf[cur + c.value.1..];
      ThenOne(cs, cur, c.value.0, c.value.1, GetColumns(buf[cur + c.value.1..], n - i - 1));
      cs, cur := cs + [c.value.0], cur + c.value.1;
    }
    ThenEnd(cs, cur);
    return Some((cs, cur));
  }

  method DecodeMeta(buf: Bytes) returns (m: Option<TableMeta>)
    ensures m == GetMeta(buf)
  {
    hide GetStr, GetU32, GetU64, GetColumns;
    var name := GetStr(buf);
    if name.None? {
      return None;
    }
    var rest := buf[name.value.1..];
    var count := GetU32(rest);
    if count.None? {
      return None;
    }
    rest := rest[4..];
    var cs := DecodeColumns(rest, count.value);
    if cs.None? {
      return None;
    }
    rest := rest[cs.value.1..];
    if |rest| < 16 {
      return None;
    }
    return Some(TableMeta(name.value.0, cs.value.0, GetU32(rest).value, GetU32(rest[4..]).value,
        GetU64(rest[8..]).value));
  }

  lemma {:induction false} StrsSnoc(ss: seq<string>, s: string)
    ensures StrsBytes(ss + [s]) == StrsBytes(ss) + PutStr(s)
  {
    hide PutStr;
    if ss == [] {
      assert StrsBytes([s][1..]) == [] && PutStr(s) + [] == PutStr(s) == [] + PutStr(s);
    } else {
      StrsSnoc(ss[1..], s);
      assert (ss + [s])[1..] == ss[1..] + [s];
    }
  }

  method EncodeEvent(buf: Bytes, e: Event) returns (r: Bytes)
    ensures r == buf + EventBytes(e)
  {
    hide PutStr, PutU32;
    match e {
      case Delete => r := buf + [0];
      case Insert => r := buf + [1];
      case Update(None) => r := buf + [2] + PutU32(NONE_LEN);
      case Update(Some(cs)) =>
        var head := buf + [2] + PutU32(AsU32(|cs|));
        r := head;
        assert head + StrsBytes(cs[..0]) == head;
        for i := 0 to |cs|
          invariant r == head + StrsBytes(cs[..i])
        {
          StrsSnoc(cs[..i], cs[i]);
          assert cs[..i + 1] == cs[..i] + [cs[i]];
          r := r + PutStr(cs[i]);
        }
        assert cs[..|cs|] == cs;
    }
  }

  method EncodeTrigger(t: TriggerMeta) returns (buf: Bytes)
    ensures buf == TriggerBytes(t)
  {
    hide PutStr, EventBytes, ConditionBytes;
    buf := PutStr(t.name) + PutStr(t.table) + [TimingTag(t.timing)];
    buf := EncodeEvent(buf, t.event);
    buf := buf + [Flag(t.forEachRow)] + ConditionBytes(t.condition) + PutStr(t.body);
  }

  method DecodeStrs(buf: Bytes, n: nat) returns (r: Option<(seq<string>, nat)>)
    ensures r == GetStrs(buf, n)
  {
    hide GetStr;
    var ss: seq<string>, cur: nat := [], 0;
    assert buf[0..] == buf;
    ThenNone(GetStrs(buf, n));
    for i := 0 to n
      invariant cur <= |buf| && GetStrs(buf, n) == Then(ss, cur, GetStrs(buf[cur..], n - i))
    {
      var s := GetStr(buf[cur..]);
      if s.None? {
        return None;
      }
      assert buf[cur..][s.value.1..] == buf[cur + s.value.1..];
      ThenOne(ss, cur, s.value.0, s.value.1, GetStrs(buf[cur + s.value.1..], n - i - 1));
      ss, cur := ss + [s.value.0], cur + s.value.1;
    }
    ThenEnd(ss, cur);
    return Some((ss, cur));
  }

  method DecodeEvent(buf: Bytes) returns (r: Option<(Event, nat)>)
    ensures r == GetEvent(buf)
  {
    hide GetU32, GetStrs;
    if |buf| == 0 {
      return None;
    } else if buf[0] == 0 {
      return Some((Delete, 1));
    } else if buf[0] == 1 {
      return Some((Insert, 1));
    }
    var n := GetU32(buf[1..]);
    if n.None? {
      return None;
    } else if n.value == NONE_LEN {
      return Some((Update(None), 5));
    }
    var cs := DecodeStrs(buf[5..], n.value);
    return if cs.None? then None else Some((Update(Some(cs.value.0)), 5 + cs.value.1));
  }

  method DecodeTrigger(buf: Bytes) returns (t: Option<TriggerMeta>)
    ensures t == GetTrigger(buf)
  {
    hide GetStr, GetEvent, GetCondition;
    var name := GetStr(buf);
    if name.None? {
      return None;
    }
    var rest := buf[name.value.1..];
    var table := GetStr(rest);
    if table.None? || |rest| <= table.value.1 {
      return None;
    }
    rest := rest[table.value.1..];
    var timing := if rest[0] == 0 then Before else if rest[0] == 1 then After else InsteadOf;
    var event := DecodeEvent(rest[1..]);
    if event.None? || |rest| <= 1 + event.value.1 {
      return None;
    }
    rest := rest[1 + event.value.1..];
    var condition := GetCondition(rest[1..]);
    if condition.None? {
      return None;
    }
    var body := GetStr(rest[1 + condition.value.1..]);
    return if body.None? then None
      else Some(TriggerMeta(name.value.0, table.value.0, timing, event.value.0, rest[0] != 0, condition.value.0,
          body.value.0));
  }
}
