/** Rows and their byte form (src/table/row.rs, src/table/serialize.rs). */
module RowCodec {
  import opened Keys
  import opened Wire

  /** A float is its 64 bits. */
  datatype Value = Int(v: I64) | Str(s: string) | Bool(b: bool) | Float(bits: U64) | Null

  type Row = seq<Value>

  /** Texts fit their 32-bit length field. */
  predicate Storable(row: Row) {
    forall i :: 0 <= i < |row| && row[i].Str? ==> |Utf8(row[i].s)| < 0x1_0000_0000
  }

  function ValueBytes(v: Value): Bytes {
    match v
    case Null => [0]
    case Int(i) => [1] + PutI64(i)
    case Str(s) => [2] + PutBytes(Utf8(s))
    case Bool(b) => [3, if b then 1 else 0]
    case Float(bits) => [4] + PutU64(bits)
  }

  function RowBytes(row: Row): Bytes {
    if row == [] then [] else RowBytes(row[..|row| - 1]) + ValueBytes(row[|row| - 1])
  }

  /** The value at the front of `buf` and its length; None is a panic. */
  function GetValue(buf: Bytes): (r: Option<(Value, nat)>)
    ensures r.Some? ==> 0 < r.value.1 <= |buf|
  {
    if buf == [] then None
    else if buf[0] == 0 then Some((Null, 1))
    else if buf[0] == 1 then
      var v := GetI64(buf[1..]);
      if v.None? then None else Some((Int(v.value), 9))
    else if buf[0] == 2 then
      var b := GetBytes(buf[1..]);
      if b.None? then None
      else
        var s := FromUtf8(b.value.0);
        if s.None? then None else Some((Str(s.value), 1 + b.value.1))
    else if buf[0] == 3 then
      if |buf| < 2 then None else Some((Bool(buf[1] != 0), 2))
    else if buf[0] == 4 then
      var v := GetU64(buf[1..]);
      if v.None? then None else Some((Float(v.value), 9))
    else None
  }

  /** `n` values from the front of `buf`, and the length of their bytes. */
  function GetValues(buf: Bytes, n: nat): (r: Option<(Row, nat)>)
    ensures r.Some? ==> |r.value.0| == n && r.value.1 <= |buf|
  {
    if n == 0 then Some(([], 0))
    else
      var v := GetValue(buf);
      if v.None? then None
      else
        var rest := GetValues(buf[v.value.1..], n - 1);
        if rest.None? then None else Some(([v.value.0] + rest.value.0, v.value.1 + rest.value.1))
  }

  function GetRow(buf: Bytes, n: nat): (r: Option<Row>)
    ensures r.Some? ==> |r.value| == n
  {
    var vs := GetValues(buf, n);
    if vs.None? then None else Some(vs.value.0)
  }

  /** Reading a value back, whatever follows it. */
  lemma {:induction false} ValueRoundTrip(v: Value, rest: Bytes)
    requires v.Str? ==> |Utf8(v.s)| < 0x1_0000_0000
    ensures GetValue(ValueBytes(v) + rest) == Some((v, |ValueBytes(v)|))
  {
    hide PutI64, GetI64, PutU64, GetU64, PutBytes, GetBytes, Utf8, FromUtf8;
    var buf := ValueBytes(v) + rest;
    match v {
      case Int(i) =>
        assert buf[1..] == PutI64(i) + rest;
        I64RoundTrip(i, rest);
        WordWidths(i, 0);
      case Str(s) =>
        assert buf[1..] == PutBytes(Utf8(s)) + rest;
        BytesRoundTrip(Utf8(s), rest);
        Utf8RoundTrip(s);
        PrefixWidth(Utf8(s));
      case Float(bits) =>
        assert buf[1..] == PutU64(bits) + rest;
        U64RoundTrip(bits, rest);
        WordWidths(0, bits);
      case _ =>
    }
  }

  lemma {:induction false} WordWidths(i: I64, u: U64)
    ensures |PutI64(i)| == 8 && |PutU64(u)| == 8
  {
  }

  lemma {:induction false} PrefixWidth(data: Bytes)
    requires |data| < 0x1_0000_0000
    ensures |PutBytes(data)| == 4 + |data|
  {
  }

  lemma {:induction false} FrontValue(row: Row)
    requires row != []
    ensures RowBytes(row) == ValueBytes(row[0]) + RowBytes(row[1..])
  {
    hide ValueBytes, RowBytes;
    var n := |row| - 1;
    LastValue(row);
    if n > 0 {
      FrontValue(row[..n]);
      LastValue(row[1..]);
      assert row[..n][1..] == row[1..][..n - 1];
      Associates(ValueBytes(row[0]), RowBytes(row[..n][1..]), ValueBytes(row[n]));
    } else {
      NoValues(row[..0]);
      NoValues(row[1..]);
    }
  }

  lemma {:induction false} LastValue(row: Row)
    requires row != []
    ensures RowBytes(row) == RowBytes(row[..|row| - 1]) + ValueBytes(row[|row| - 1])
  {
  }

  lemma {:induction false} NoValues(row: Row)
    requires row == []
    ensures RowBytes(row) == []
  {
  }

  lemma {:induction false} Associates(a: Bytes, b: Bytes, c: Bytes)
    ensures (a + b) + c == a + (b + c)
  {
  }

  /** Reading a row back with the column count of its schema. */
  lemma {:induction false} RowRoundTrip(row: Row, rest: Bytes)
    requires Storable(row)
    ensures GetRow(RowBytes(row) + rest, |row|) == Some(row)
  {
    hide GetValues, RowBytes, Storable;
    ValuesRoundTrip(row, rest);
  }

  lemma {:induction false} ValuesRoundTrip(row: Row, rest: Bytes)
    requires Storable(row)
    ensures GetValues(RowBytes(row) + rest, |row|) == Some((row, |RowBytes(row)|))
  {
    hide ValueBytes, GetValue, RowBytes, Utf8;
    NoValues([]);
    if row != [] {
      FrontValue(row);
      var tail := RowBytes(row[1..]) + rest;
      assert RowBytes(row) + rest == ValueBytes(row[0]) + tail;
      ValueRoundTrip(row[0], tail);
      ValuesRoundTrip(row[1..], rest);
      assert (ValueBytes(row[0]) + tail)[|ValueBytes(row[0])|..] == tail;
      assert row == [row[0]] + row[1..];
    }
  }

  /** Two rows of one schema with the same bytes are the same row. */
  lemma {:induction false} RowBytesInjective(a: Row, b: Row)
    requires Storable(a) && Storable(b) && |a| == |b| && RowBytes(a) == RowBytes(b)
    ensures a == b
  {
    hide RowBytes, Storable;
    RowRoundTrip(a, []);
    RowRoundTrip(b, []);
  }

  method Serialize(row: Row) returns (buf: Bytes)
    ensures buf == RowBytes(row)
  {
    buf := [];
    for i := 0 to |row|
      invariant buf == RowBytes(row[..i])
    {
      assert row[..i + 1][..i] == row[..i];
      buf := buf + ValueBytes(row[i]);
    }
    assert row[..|row|] == row;
  }

  /** The cursor loop. */
  method Deserialize(columns: nat, bytes: Bytes) returns (row: Option<Row>)
    ensures row == GetRow(bytes, columns)
  {
    hide GetValue, Then;
    var values: Row, cur := [], 0;
    assert bytes[0..] == bytes;
    ThenNone(GetValues(bytes, columns));
    for i := 0 to columns
      invariant 0 <= cur <= |bytes| && |values| == i
      invariant GetValues(bytes, columns) == Then(values, cur, GetValues(bytes[cur..], columns - i))
    {
      var v := GetValue(bytes[cur..]);
      if v.None? {
        ThenFails(values, cur);
        return None;
      }
      assert bytes[cur..][v.value.1..] == bytes[cur + v.value.1..];
      ValuesOn(bytes[cur..], columns - i);
      ThenOne(values, cur, v.value.0, v.value.1, GetValues(bytes[cur + v.value.1..], columns - i - 1));
      values, cur := values + [v.value.0], cur + v.value.1;
    }
    ThenEnd(values, cur);
    return Some(values);
  }

  lemma {:induction false} ValuesOn(buf: Bytes, n: nat)
    requires n > 0
    ensures var v := GetValue(buf);
      GetValues(buf, n) == if v.None? then None else Then([v.value.0], v.value.1, GetValues(buf[v.value.1..], n - 1))
  {
    hide GetValue;
  }
}
