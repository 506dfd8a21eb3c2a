/** Byte-level building blocks shared by the encodings: little-endian integers,
    length-prefixed byte strings and UTF-8. */
module Wire {
  import opened Keys

  function Pow256(k: nat): nat { if k == 0 then 1 else 256 * Pow256(k - 1) }

  /** The low `k` bytes of `n`, least significant first. */
  function Le(n: nat, k: nat): (bs: Bytes)
    ensures |bs| == k
  {
    if k == 0 then [] else [n % 256] + Le(n / 256, k - 1)
  }

  function UnLe(bs: Bytes): nat {
    if bs == [] then 0 else bs[0] + 256 * UnLe(bs[1..])
  }

  lemma {:induction false} UnLeLe(n: nat, k: nat)
    requires n < Pow256(k)
    ensures UnLe(Le(n, k)) == n
  {
    if k > 0 {
      assert n / 256 < Pow256(k - 1);
      UnLeLe(n / 256, k - 1);
      assert Le(n, k)[1..] == Le(n / 256, k - 1);
    }
  }

  lemma {:induction false} LeUnLe(bs: Bytes)
    ensures Le(UnLe(bs), |bs|) == bs && UnLe(bs) < Pow256(|bs|)
  {
    if bs != [] {
      LeUnLe(bs[1..]);
      var n := UnLe(bs);
      assert n % 256 == bs[0] && n / 256 == UnLe(bs[1..]);
      assert bs == [bs[0]] + bs[1..];
    }
  }

  lemma {:induction false} Widths()
    ensures Pow256(4) == 0x1_0000_0000 && Pow256(8) == 0x1_0000_0000_0000_0000
  {
    assert Pow256(1) == 256 && Pow256(2) == 0x1_0000 && Pow256(3) == 0x100_0000;
    assert Pow256(5) == 0x100_0000_0000 && Pow256(6) == 0x1_0000_0000_0000 && Pow256(7) == 0x100_0000_0000_0000;
  }

  type U32 = x: int | 0 <= x < 0x1_0000_0000
  type U64 = x: int | 0 <= x < 0x1_0000_0000_0000_0000

  /** `as u32` keeps the low 32 bits. */
  function AsU32(n: nat): U32 { n % 0x1_0000_0000 }

  function PutU32(n: U32): (bs: Bytes)
    ensures |bs| == 4
  {
    Le(n, 4)
  }

  function GetU32(buf: Bytes): (r: Option<U32>)
    ensures r.Some? <==> |buf| >= 4
  {
    if |buf| >= 4 then
      LeUnLe(buf[..4]);
      Widths();
      Some(UnLe(buf[..4]))
    else None
  }

  function PutU64(n: U64): (bs: Bytes)
    ensures |bs| == 8
  {
    Le(n, 8)
  }

  function GetU64(buf: Bytes): (r: Option<U64>)
    ensures r.Some? <==> |buf| >= 8
  {
    if |buf| >= 8 then
      LeUnLe(buf[..8]);
      Widths();
      Some(UnLe(buf[..8]))
    else None
  }

  function PutI64(v: I64): (bs: Bytes)
    ensures |bs| == 8
  {
    PutU64(if v >= 0 then v else v + 0x1_0000_0000_0000_0000)
  }

  function GetI64(buf: Bytes): (r: Option<I64>)
    ensures r.Some? <==> |buf| >= 8
  {
    var u := GetU64(buf);
    if u.None? then None
    else if u.value < 0x8000_0000_0000_0000 then Some(u.value)
    else Some(u.value - 0x1_0000_0000_0000_0000)
  }

  lemma {:induction false} U32RoundTrip(n: U32, rest: Bytes)
    ensures GetU32(PutU32(n) + rest) == Some(n)
  {
    Widths();
    UnLeLe(n, 4);
    assert (PutU32(n) + rest)[..4] == PutU32(n);
  }

  lemma {:induction false} U64RoundTrip(n: U64, rest: Bytes)
    ensures GetU64(PutU64(n) + rest) == Some(n)
  {
    Widths();
    UnLeLe(n, 8);
    assert (PutU64(n) + rest)[..8] == PutU64(n);
  }

  lemma {:induction false} I64RoundTrip(v: I64, rest: Bytes)
    ensures GetI64(PutI64(v) + rest) == Some(v)
  {
    U64RoundTrip(if v >= 0 then v else v + 0x1_0000_0000_0000_0000, rest);
  }

  // ------------------------------------------------------------------
  // Length-prefixed byte strings.
  // ------------------------------------------------------------------

  function PutBytes(data: Bytes): Bytes {
    PutU32(AsU32(|data|)) + data
  }

  /** The byte string at the front of `buf` and the number of bytes it takes; None is a panic. */
  function GetBytes(buf: Bytes): (r: Option<(Bytes, nat)>)
    ensures r.Some? ==> r.value.1 == 4 + |r.value.0| <= |buf|
  {
    var len := GetU32(buf);
    if len.Some? && 4 + len.value <= |buf| then Some((buf[4..4 + len.value], 4 + len.value)) else None
  }

  lemma {:induction false} BytesRoundTrip(data: Bytes, rest: Bytes)
    requires |data| < 0x1_0000_0000
    ensures GetBytes(PutBytes(data) + rest) == Some((data, 4 + |data|))
  {
    var buf := PutBytes(data) + rest;
    assert buf == PutU32(|data|) + (data + rest);
    U32RoundTrip(|data|, data + rest);
    assert buf[4..4 + |data|] == data;
  }

  // ------------------------------------------------------------------
  // UTF-8.
  // ------------------------------------------------------------------

  function Utf8Char(c: char): (bs: Bytes)
    ensures 1 <= |bs| <= 4
  {
    var v := c as int;
    if v < 0x80 then [v]
    else if v < 0x800 then [0xC0 + v / 64, 0x80 + v % 64]
    else if v < 0x1_0000 then [0xE0 + v / 4096, 0x80 + v / 64 % 64, 0x80 + v % 64]
    else [0xF0 + v / 262144, 0x80 + v / 4096 % 64, 0x80 + v / 64 % 64, 0x80 + v % 64]
  }

  function Utf8(s: string): Bytes {
    if s == [] then [] else Utf8Char(s[0]) + Utf8(s[1..])
  }

  predicate Tail(b: Byte) { 0x80 <= b < 0xC0 }

  predicate Scalar(v: int) { 0 <= v < 0xD800 || 0xE000 <= v < 0x11_0000 }

  function Two(a: int, b: int): int { (a - 0xC0) * 64 + (b - 0x80) }

  function Three(a: int, b: int, c: int): int { (a - 0xE0) * 4096 + (b - 0x80) * 64 + (c - 0x80) }

  function Four(a: int, b: int, c: int, d: int): int {
    (a - 0xF0) * 262144 + (b - 0x80) * 4096 + (c - 0x80) * 64 + (d - 0x80)
  }

  /** The character at the front of `bs`; None where the bytes are not well-formed UTF-8. */
  function FirstChar(bs: Bytes): Option<(char, nat)> {
    if bs == [] then None
    else if bs[0] < 0x80 then Some((bs[0] as char, 1))
    else if 0xC0 <= bs[0] < 0xE0 && |bs| >= 2 && Tail(bs[1]) then
      var v := Two(bs[0], bs[1]);
      if 0x80 <= v then Some((v as char, 2)) else None
    else if 0xE0 <= bs[0] < 0xF0 && |bs| >= 3 && Tail(bs[1]) && Tail(bs[2]) then
      var v := Three(bs[0], bs[1], bs[2]);
      if 0x800 <= v && Scalar(v) then Some((v as char, 3)) else None
    else if 0xF0 <= bs[0] < 0xF8 && |bs| >= 4 && Tail(bs[1]) && Tail(bs[2]) && Tail(bs[3]) then
      var v := Four(bs[0], bs[1], bs[2], bs[3]);
      if 0x1_0000 <= v && Scalar(v) then Some((v as char, 4)) else None
    else None
  }

  function FromUtf8(bs: Bytes): Option<string>
    decreases |bs|
  {
    if bs == [] then Some([])
    else
      var c := FirstChar(bs);
      if c.None? || c.value.1 == 0 || c.value.1 > |bs| then None
      else
        var rest := FromUtf8(bs[c.value.1..]);
        if rest.None? then None else Some([c.value.0] + rest.value)
  }

  lemma {:induction false} ThreeParts(a: int, b: int, c: int)
    requires 0xE0 <= a < 0xF0 && 0x80 <= b < 0xC0 && 0x80 <= c < 0xC0
    ensures var v := Three(a, b, c);
      v / 4096 == a - 0xE0 && v / 64 % 64 == b - 0x80 && v % 64 == c - 0x80
  {
    var v := Three(a, b, c);
    assert v / 64 == (a - 0xE0) * 64 + (b - 0x80);
  }

  lemma {:induction false} FourParts(a: int, b: int, c: int, d: int)
    requires 0xF0 <= a < 0xF8 && 0x80 <= b < 0xC0 && 0x80 <= c < 0xC0 && 0x80 <= d < 0xC0
    ensures var v := Four(a, b, c, d);
      v / 262144 == a - 0xF0 && v / 4096 % 64 == b - 0x80 && v / 64 % 64 == c - 0x80 && v % 64 == d - 0x80
  {
    var v := Four(a, b, c, d);
    assert v / 4096 == (a - 0xF0) * 64 + (b - 0x80);
    assert v / 64 == (a - 0xF0) * 4096 + (b - 0x80) * 64 + (c - 0x80);
  }

  lemma {:induction false} Parted(v: int)
    requires 0 <= v < 0x11_0000
    ensures v < 0x800 ==> Two(0xC0 + v / 64, 0x80 + v % 64) == v
    ensures v < 0x1_0000 ==> Three(0xE0 + v / 4096, 0x80 + v / 64 % 64, 0x80 + v % 64) == v
    ensures Four(0xF0 + v / 262144, 0x80 + v / 4096 % 64, 0x80 + v / 64 % 64, 0x80 + v % 64) == v
  {
    assert v / 64 / 64 == v / 4096 && v / 4096 / 64 == v / 262144;
  }

  lemma {:induction false} CharRoundTrip(c: char, rest: Bytes)
    ensures FirstChar(Utf8Char(c) + rest) == Some((c, |Utf8Char(c)|))
  {
    hide Two, Three, Four;
    var v := c as int;
    Parted(v);
    assert Scalar(v);
  }

  lemma {:induction false} CharCanonical(bs: Bytes)
    requires FirstChar(bs).Some?
    ensures var (c, n) := FirstChar(bs).value; 1 <= n <= |bs| && bs[..n] == Utf8Char(c)
  {
    hide Three, Four;
    var (c, n) := FirstChar(bs).value;
    if n == 3 {
      ThreeParts(bs[0], bs[1], bs[2]);
    } else if n == 4 {
      FourParts(bs[0], bs[1], bs[2], bs[3]);
    }
  }

  lemma {:induction false} Utf8RoundTrip(s: string)
    ensures FromUtf8(Utf8(s)) == Some(s)
  {
    if s != [] {
      CharRoundTrip(s[0], Utf8(s[1..]));
      Utf8RoundTrip(s[1..]);
      var bs := Utf8(s);
      assert bs[|Utf8Char(s[0])|..] == Utf8(s[1..]);
      assert s == [s[0]] + s[1..];
    }
  }

  /** Decoding accepts only the encoding itself. */
  lemma {:induction false} Utf8Canonical(bs: Bytes)
    requires FromUtf8(bs).Some?
    ensures Utf8(FromUtf8(bs).value) == bs
    decreases |bs|
  {
    hide FirstChar, Utf8Char;
    if bs != [] {
      CharCanonical(bs);
      var (c, n) := FirstChar(bs).value;
      Utf8Canonical(bs[n..]);
      var s := FromUtf8(bs).value;
      assert s[1..] == FromUtf8(bs[n..]).value;
      assert bs == bs[..n] + bs[n..];
    }
  }

  // ------------------------------------------------------------------
  // Lists, read one element after the other.
  // ------------------------------------------------------------------

  /** A list already read, followed by the reading of the rest. */
  function Then<T>(done: seq<T>, taken: nat, rest: Option<(seq<T>, nat)>): Option<(seq<T>, nat)> {
    if rest.None? then None else Some((done + rest.value.0, taken + rest.value.1))
  }

  lemma {:induction false} ThenOne<T>(done: seq<T>, taken: nat, x: T, more: nat, rest: Option<(seq<T>, nat)>)
    ensures Then(done, taken, Then([x], more, rest)) == Then(done + [x], taken + more, rest)
  {
    if rest.Some? {
      assert done + ([x] + rest.value.0) == (done + [x]) + rest.value.0;
    }
  }

  lemma {:induction false} ThenNone<T>(r: Option<(seq<T>, nat)>)
    ensures Then([], 0, r) == r
  {
    if r.Some? {
      assert [] + r.value.0 == r.value.0;
    }
  }

  lemma {:induction false} ThenEnd<T>(done: seq<T>, taken: nat)
    ensures Then(done, taken, Some(([], 0))) == Some((done, taken))
  {
    assert done + [] == done;
  }

  lemma {:induction false} ThenFails<T>(done: seq<T>, taken: nat)
    ensures Then(done, taken, None) == None
  {
  }
}
