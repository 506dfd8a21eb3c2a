/** Comparing texts by code points, as the key order here does, is comparing their UTF-8 bytes, as
    the source's strings do. */
module TextOrder {
  import opened Keys
  import opened Wire

  predicate BytesLess(a: Bytes, b: Bytes) {
    b != [] && (a == [] || a[0] < b[0] || (a[0] == b[0] && BytesLess(a[1..], b[1..])))
  }

  lemma {:induction false} SharedFront(u: Bytes, a: Bytes, b: Bytes)
    ensures BytesLess(u + a, u + b) <==> BytesLess(a, b)
  {
    if u == [] {
      assert u + a == a && u + b == b;
    } else {
      assert (u + a)[1..] == u[1..] + a && (u + b)[1..] == u[1..] + b;
      SharedFront(u[1..], a, b);
    }
  }

  /** The first byte at which two encodings differ decides. */
  lemma {:induction false} FirstDifference(u: Bytes, v: Bytes, k: nat, a: Bytes, b: Bytes)
    requires k < |u| && k < |v| && u[..k] == v[..k] && u[k] < v[k]
    ensures BytesLess(u + a, v + b) && !BytesLess(v + b, u + a)
  {
    if k == 0 {
      assert (u + a)[0] == u[0] && (v + b)[0] == v[0];
    } else {
      assert u[0] == u[..k][0] && v[0] == v[..k][0];
      assert (u + a)[1..] == u[1..] + a && (v + b)[1..] == v[1..] + b;
      assert u[1..][..k - 1] == u[..k][1..] && v[1..][..k - 1] == v[..k][1..];
      FirstDifference(u[1..], v[1..], k - 1, a, b);
    }
  }

  /** Of two different characters the smaller has the smaller encoding. */
  lemma {:induction false} CharOrder(c: char, d: char, a: Bytes, b: Bytes)
    requires c < d
    ensures BytesLess(Utf8Char(c) + a, Utf8Char(d) + b) && !BytesLess(Utf8Char(d) + b, Utf8Char(c) + a)
  {
    var k := Difference(c, d);
    FirstDifference(Utf8Char(c), Utf8Char(d), k, a, b);
  }

  lemma {:induction false} Difference(c: char, d: char) returns (k: nat)
    requires c < d
    ensures k < |Utf8Char(c)| && k < |Utf8Char(d)| && Utf8Char(c)[..k] == Utf8Char(d)[..k]
        && Utf8Char(c)[k] < Utf8Char(d)[k]
  {
    var v, w := c as int, d as int;
    if |Utf8Char(c)| < |Utf8Char(d)| {
      k := 0;
      ShorterFirst(c, d);
    } else {
      Digits(v, w);
      SameLength(c, d);
      k := DigitPlace(c, d);
    }
  }

  lemma {:induction false} ShorterFirst(c: char, d: char)
    requires |Utf8Char(c)| < |Utf8Char(d)|
    ensures Utf8Char(c)[0] < Utf8Char(d)[0]
  {
  }

  lemma {:induction false} SameLength(c: char, d: char)
    requires c < d
    ensures |Utf8Char(c)| <= |Utf8Char(d)|
  {
  }

  /** The same number of bytes: the first digit that differs. */
  lemma {:induction false} DigitPlace(c: char, d: char) returns (k: nat)
    requires c < d && |Utf8Char(c)| == |Utf8Char(d)|
    ensures k < |Utf8Char(c)| && Utf8Char(c)[..k] == Utf8Char(d)[..k] && Utf8Char(c)[k] < Utf8Char(d)[k]
  {
    var x, y := Utf8Char(c), Utf8Char(d);
    Digits(c as int, d as int);
    if x[0] < y[0] {
      k := 0;
    } else if x[1] < y[1] {
      k := 1;
    } else if x[2] < y[2] {
      k := 2;
    } else {
      k := 3;
    }
  }

  /** The first base-64 digit that differs, from the top, is smaller in the smaller number. */
  lemma {:induction false} Digits(v: int, w: int)
    requires 0 <= v < w < 0x11_0000
    ensures v / 64 <= w / 64 && (v / 64 == w / 64 ==> v % 64 < w % 64)
    ensures v / 4096 <= w / 4096 && (v / 4096 == w / 4096 && v / 64 % 64 == w / 64 % 64 ==> v % 64 < w % 64)
    ensures v / 4096 == w / 4096 ==> v / 64 % 64 <= w / 64 % 64
    ensures v / 262144 <= w / 262144
    ensures v / 262144 == w / 262144 ==> v / 4096 % 64 <= w / 4096 % 64
    ensures v / 262144 == w / 262144 && v / 4096 % 64 == w / 4096 % 64 ==> v / 4096 == w / 4096
  {
    assert v == v / 64 * 64 + v % 64 && w == w / 64 * 64 + w % 64;
    assert v / 64 / 64 == v / 4096 && w / 64 / 64 == w / 4096;
    assert v / 4096 / 64 == v / 262144 && w / 4096 / 64 == w / 262144;
  }

  /** Texts compare as their UTF-8 encodings do. */
  lemma {:induction false} TextsAsBytes(s: string, t: string)
    ensures TextLess(s, t) <==> BytesLess(Utf8(s), Utf8(t))
  {
    hide Utf8Char;
    if s != [] && t != [] {
      if s[0] == t[0] {
        TextsAsBytes(s[1..], t[1..]);
        SharedFront(Utf8Char(s[0]), Utf8(s[1..]), Utf8(t[1..]));
      } else if s[0] < t[0] {
        CharOrder(s[0], t[0], Utf8(s[1..]), Utf8(t[1..]));
      } else {
        CharOrder(t[0], s[0], Utf8(t[1..]), Utf8(s[1..]));
      }
    }
  }

  /** The order of keys, said of numbers and bytes. */
  lemma {:induction false} KeyOrder(a: Key, b: Key)
    ensures Less(a, b) <==>
      || (a.Integer? && b.Integer? && a.v < b.v)
      || (a.Integer? && b.Text?)
      || (a.Text? && b.Text? && BytesLess(Utf8(a.s), Utf8(b.s)))
  {
    hide TextLess, Utf8, BytesLess;
    KindsOrdered(a, b);
    KindsOrdered(b, a);
    if a.Text? && b.Text? {
      TextsAsBytes(a.s, b.s);
    }
  }
}
