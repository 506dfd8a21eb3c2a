/** The byte forms themselves, byte by byte: what a file written by one build and read by another
    depends on (src/pager/codec.rs, src/table/serialize.rs, src/catalog/meta.rs, src/fts/index.rs). */
module Layouts {
  import opened Keys
  import opened Records
  import opened Trees
  import opened Wire
  import Codec
  import RowCodec
  import MetaCodec
  import Postings

  // ------------------------------------------------------------------
  // Integers and characters.
  // ------------------------------------------------------------------

  /** Four bytes, the least significant first. */
  lemma {:induction false} FourBytes(n: U32)
    ensures PutU32(n) == [n % 256, n / 0x100 % 256, n / 0x1_0000 % 256, n / 0x100_0000]
  {
    var a, b, c := n / 256, n / 256 / 256, n / 256 / 256 / 256;
    assert b == n / 0x1_0000 && c == n / 0x100_0000;
    assert Le(c, 1) == [c % 256] + Le(c / 256, 0) == [c];
    assert Le(b, 2) == [b % 256] + Le(c, 1);
    assert Le(a, 3) == [a % 256] + Le(b, 2);
    assert Le(n, 4) == [n % 256] + Le(a, 3);
  }

  /** Eight bytes, the least significant first. */
  lemma {:induction false} EightBytes(n: U64)
    ensures PutU64(n) == [n % 0x100, n / 0x100 % 0x100, n / 0x1_0000 % 0x100, n / 0x100_0000 % 0x100,
                          n / 0x1_0000_0000 % 0x100, n / 0x100_0000_0000 % 0x100, n / 0x1_0000_0000_0000 % 0x100,
                          n / 0x100_0000_0000_0000]
  {
    var a, b := n / 256, n / 256 / 256;
    var c, d := b / 256, b / 256 / 256;
    var e, f := d / 256, d / 256 / 256;
    var g := f / 256;
    Powers(n);
    assert Le(g, 1) == [g % 256] + Le(g / 256, 0) == [g];
    assert Le(f, 2) == [f % 256] + Le(g, 1) == [f % 256, g];
    assert Le(e, 3) == [e % 256] + Le(f, 2) == [e % 256, f % 256, g];
    assert Le(d, 4) == [d % 256] + Le(e, 3) == [d % 256, e % 256, f % 256, g];
    assert Le(c, 5) == [c % 256] + Le(d, 4) == [c % 256, d % 256, e % 256, f % 256, g];
    assert Le(b, 6) == [b % 256] + Le(c, 5) == [b % 256, c % 256, d % 256, e % 256, f % 256, g];
    assert Le(a, 7) == [a % 256] + Le(b, 6);
    assert Le(n, 8) == [n % 256] + Le(a, 7);
  }

  lemma {:induction false} Powers(n: nat)
    ensures n / 256 / 256 == n / 0x1_0000
    ensures n / 0x1_0000 / 256 == n / 0x100_0000
    ensures n / 0x100_0000 / 256 == n / 0x1_0000_0000
    ensures n / 0x1_0000_0000 / 256 == n / 0x100_0000_0000
    ensures n / 0x100_0000_0000 / 256 == n / 0x1_0000_0000_0000
    ensures n / 0x1_0000_0000_0000 / 256 == n / 0x100_0000_0000_0000
  {
  }

  /** A negative number is its two's complement. */
  lemma {:induction false} Negatives(v: I64)
    ensures PutI64(v) == PutU64(if v >= 0 then v else 0x1_0000_0000_0000_0000 + v)
  {
  }

  function Over(b: int, base: int): int { b - base }

  /** UTF-8 as section 3 of RFC 3629 lays it out: the bits of the character, from the top, in one to
      four bytes. */
  lemma {:induction false} CharBytes(c: char)
    ensures var v, bs := c as int, Utf8Char(c);
      && (v <= 0x7F ==> bs == [v])
      && (0x80 <= v <= 0x7FF ==>
          |bs| == 2 && v == Over(bs[0], 0xC0) * 0x40 + Over(bs[1], 0x80) && 0x80 <= bs[1] <= 0xBF)
      && (0x800 <= v <= 0xFFFF ==>
          && |bs| == 3 && v == Over(bs[0], 0xE0) * 0x1000 + Over(bs[1], 0x80) * 0x40 + Over(bs[2], 0x80)
          && 0x80 <= bs[1] <= 0xBF && 0x80 <= bs[2] <= 0xBF)
      && (0x1_0000 <= v ==>
          && |bs| == 4
          && v == Over(bs[0], 0xF0) * 0x4_0000 + Over(bs[1], 0x80) * 0x1000 + Over(bs[2], 0x80) * 0x40
              + Over(bs[3], 0x80)
          && 0x80 <= bs[1] <= 0xBF && 0x80 <= bs[2] <= 0xBF && 0x80 <= bs[3] <= 0xBF)
  {
    Parted(c as int);
  }

  /** A text is its characters one after the other, behind its length in bytes. */
  lemma {:induction false} Texts(s: string)
    ensures Utf8("") == [] && (s != "" ==> Utf8(s) == Utf8Char(s[0]) + Utf8(s[1..]))
    ensures |Utf8(s)| < 0x1_0000_0000 ==> PutBytes(Utf8(s)) == PutU32(|Utf8(s)|) + Utf8(s)
  {
  }

  // ------------------------------------------------------------------
  // Whole forms, on values that use every field.
  // ------------------------------------------------------------------

  lemma {:induction false} Small(n: Byte)
    ensures PutU32(n) == [n, 0, 0, 0] && PutU64(n) == [n, 0, 0, 0, 0, 0, 0, 0]
    ensures PutI64(n) == [n, 0, 0, 0, 0, 0, 0, 0]
  {
    hide Le, PutU64, PutU32;
    FourBytes(n);
    EightBytes(n);
  }

  lemma {:induction false} MinusOne()
    ensures PutI64(-1) == [255, 255, 255, 255, 255, 255, 255, 255] && PutU32(0xFFFF_FFFF) == [255, 255, 255, 255]
  {
    hide Le, PutU64, PutU32;
    FourBytes(0xFFFF_FFFF);
    EightBytes(0xFFFF_FFFF_FFFF_FFFF);
  }

  lemma {:induction false} OneChar(c: char)
    requires c as int < 0x80
    ensures Utf8([c]) == [c as int]
  {
    var s := [c];
    assert s[1..] == [] && Utf8(s[1..]) == [];
    assert Utf8(s) == Utf8Char(s[0]) + Utf8(s[1..]) == [c as int] + [];
  }

  lemma {:induction false} Letter(c: char)
    requires c as int < 0x80
    ensures Utf8([c]) == [c as int] && PutBytes(Utf8([c])) == [1, 0, 0, 0, c as int]
  {
    hide PutU32, Utf8;
    Small(1);
    OneChar(c);
  }

  lemma {:induction false} TwoKeys(a: Key, b: Key)
    ensures Codec.KeysBytes([a]) == Codec.KeyBytes(a)
    ensures Codec.KeysBytes([a, b]) == Codec.KeyBytes(a) + Codec.KeyBytes(b)
  {
    hide Codec.KeyBytes;
    assert [a, b][1..] == [b] && [b][1..] == [] && [a][1..] == [];
    assert Codec.KeysBytes([b]) == Codec.KeyBytes(b) + [];
    assert Codec.KeysBytes([a]) == Codec.KeyBytes(a) + [];
  }

  lemma {:induction false} TwoValues(a: Record, b: Record)
    ensures Codec.ValuesBytes([a, b]) == PutBytes(a.value) + PutBytes(b.value)
  {
    hide PutBytes;
    assert [a, b][1..] == [b] && [b][1..] == [];
    assert Codec.ValuesBytes([b]) == PutBytes(b.value) + [];
  }

  lemma {:induction false} TwoChildren(a: nat, b: nat)
    ensures Codec.ChildrenBytes([a, b]) == PutU32(AsU32(a)) + PutU32(AsU32(b))
  {
    hide PutU32;
    assert [a, b][1..] == [b] && [b][1..] == [];
    assert Codec.ChildrenBytes([b]) == PutU32(AsU32(b)) + [];
  }

  lemma {:induction false} KeyForms()
    ensures Codec.KeyBytes(Integer(-1)) == [0] + [255, 255, 255, 255, 255, 255, 255, 255]
    ensures Codec.KeyBytes(Integer(6)) == [0] + [6, 0, 0, 0, 0, 0, 0, 0]
    ensures Codec.KeyBytes(Text("b")) == [1] + [1, 0, 0, 0, 98]
  {
    hide PutI64, PutBytes, Utf8;
    Small(6);
    MinusOne();
    Letter('b');
  }

  lemma {:induction false} ValueForms()
    ensures PutBytes([7]) == [1, 0, 0, 0, 7] && PutBytes([8, 9]) == [2, 0, 0, 0, 8, 9]
  {
    hide PutU32;
    Small(1);
    Small(2);
  }

  /** A leaf: kind, key count, next leaf, keys, then the values in the same order. */
  lemma {:induction false} LeafBytes(node: Node)
    requires node == Node(LeafNode, [Integer(-1), Text("b")], [],
        [Record(Integer(-1), [7]), Record(Text("b"), [8, 9])], Some(5))
    ensures Codec.NodeBytes(node) ==
      [1] + [2, 0, 0, 0] + [5, 0, 0, 0]
      + (([0] + [255, 255, 255, 255, 255, 255, 255, 255]) + ([1] + [1, 0, 0, 0, 98]))
      + ([1, 0, 0, 0, 7] + [2, 0, 0, 0, 8, 9])
  {
    hide PutU32, Codec.NodeBytes, Codec.Head, Codec.KeyBytes, Codec.KeysBytes, Codec.ValuesBytes, PutBytes;
    HeadForms(node);
    KeyForms();
    ValueForms();
    TwoKeys(Integer(-1), Text("b"));
    TwoValues(Record(Integer(-1), [7]), Record(Text("b"), [8, 9]));
    NodeParts(node);
  }

  lemma {:induction false} NodeParts(node: Node)
    ensures Codec.NodeBytes(node) == Codec.Head(node) + Codec.KeysBytes(node.keys)
      + (if node.IsLeaf() then Codec.ValuesBytes(node.records) else Codec.ChildrenBytes(node.children))
  {
    hide Codec.Head, Codec.KeysBytes, Codec.ValuesBytes, Codec.ChildrenBytes;
  }

  lemma {:induction false} HeadForms(node: Node)
    ensures node.IsLeaf() && |node.keys| == 2 && node.nextLeaf == Some(5) ==>
      Codec.Head(node) == [1] + [2, 0, 0, 0] + [5, 0, 0, 0]
    ensures !node.IsLeaf() && |node.keys| == 1 && node.nextLeaf == None ==>
      Codec.Head(node) == [0] + [1, 0, 0, 0] + [255, 255, 255, 255]
  {
    hide PutU32;
    Small(1);
    Small(2);
    Small(5);
    MinusOne();
  }

  /** A branch: no next leaf, the keys, and then one child more than keys. */
  lemma {:induction false} BranchBytes(node: Node)
    requires node == Node(InternalNode, [Integer(6)], [3, 4], [], None)
    ensures Codec.NodeBytes(node) ==
      [0] + [1, 0, 0, 0] + [255, 255, 255, 255] + ([0] + [6, 0, 0, 0, 0, 0, 0, 0]) + ([3, 0, 0, 0] + [4, 0, 0, 0])
  {
    hide Codec.NodeBytes, Codec.Head, Codec.KeyBytes, Codec.KeysBytes, Codec.ChildrenBytes;
    HeadForms(node);
    SixKey();
    ThreeAndFour();
    NodeParts(node);
  }

  /** A page is 4096 bytes: what was written, cut off there or followed by zeros. */
  lemma {:induction false} Padding(bs: Bytes)
    ensures |Codec.Resized(bs)| == 4096
    ensures forall i :: 0 <= i < 4096 ==> Codec.Resized(bs)[i] == if i < |bs| then bs[i] else 0
  {
  }

  lemma {:induction false} SixKey()
    ensures Codec.KeysBytes([Integer(6)]) == [0] + [6, 0, 0, 0, 0, 0, 0, 0]
  {
    hide Codec.KeysBytes, Codec.KeyBytes;
    KeyForms();
    TwoKeys(Integer(6), Integer(6));
  }

  lemma {:induction false} Within(n: U32)
    ensures AsU32(n) == n
  {
  }

  lemma {:induction false} ThreeAndFour()
    ensures Codec.ChildrenBytes([3, 4]) == [3, 0, 0, 0] + [4, 0, 0, 0]
  {
    hide Codec.ChildrenBytes, PutU32, PutU64, PutI64, AsU32;
    Small(3);
    Small(4);
    TwoChildren(3, 4);
    Within(3);
    Within(4);
  }

  /** Each kind of value behind its tag, and a row as its values one after the other. */
  lemma {:induction false} RowLayout()
    ensures RowCodec.ValueBytes(RowCodec.Null) == [0]
    ensures RowCodec.ValueBytes(RowCodec.Int(-1)) == [1, 255, 255, 255, 255, 255, 255, 255, 255]
    ensures RowCodec.ValueBytes(RowCodec.Str("a")) == [2, 1, 0, 0, 0, 97]
    ensures RowCodec.ValueBytes(RowCodec.Bool(true)) == [3, 1] && RowCodec.ValueBytes(RowCodec.Bool(false)) == [3, 0]
    ensures RowCodec.ValueBytes(RowCodec.Float(2)) == [4, 2, 0, 0, 0, 0, 0, 0, 0]
  {
    hide PutI64, PutU64, PutBytes, Utf8;
    MinusOne();
    Letter('a');
    Small(2);
  }

  lemma {:induction false} RowGrows(row: RowCodec.Row, v: RowCodec.Value)
    ensures RowCodec.RowBytes([]) == []
    ensures RowCodec.RowBytes(row + [v]) == RowCodec.RowBytes(row) + RowCodec.ValueBytes(v)
  {
    hide RowCodec.ValueBytes;
    assert (row + [v])[..|row|] == row;
  }

  /** A table description: name, columns with type, nullability and autoincrement, root page, row count
      and the last number given. */
  lemma {:induction false} TableBytes()
    ensures var m := MetaCodec.TableMeta("t",
        [MetaCodec.Column("a", MetaCodec.DataType.Integer, true, false, false),
         MetaCodec.Column("b", MetaCodec.DataType.Float, false, true, false)], 5, 6, 7);
      MetaCodec.MetaBytes(m) ==
        [1, 0, 0, 0, 116] + [2, 0, 0, 0] + [1, 0, 0, 0, 97, 0, 1, 0] + [1, 0, 0, 0, 98, 3, 0, 1]
        + [5, 0, 0, 0] + [6, 0, 0, 0] + [7, 0, 0, 0, 0, 0, 0, 0]
  {
    hide PutU32, PutU64, Utf8, PutBytes;
    Letter('t');
    Letter('a');
    Letter('b');
    Small(2);
    Small(5);
    Small(6);
    Small(7);
    var cs := [MetaCodec.Column("a", MetaCodec.DataType.Integer, true, false, false),
               MetaCodec.Column("b", MetaCodec.DataType.Float, false, true, false)];
    assert cs[1..] == [cs[1]] && cs[1..][1..] == [];
    assert MetaCodec.ColumnsBytes(cs[1..]) == MetaCodec.ColumnBytes(cs[1]) + [];
    assert MetaCodec.ColumnsBytes(cs) == MetaCodec.ColumnBytes(cs[0]) + MetaCodec.ColumnsBytes(cs[1..]);
  }

  /** The tags of column types, timings and events. */
  lemma {:induction false} Tags()
    ensures MetaCodec.TypeTag(MetaCodec.DataType.Integer) == 0 && MetaCodec.TypeTag(MetaCodec.DataType.Text) == 1
    ensures MetaCodec.TypeTag(MetaCodec.Boolean) == 2 && MetaCodec.TypeTag(MetaCodec.DataType.Float) == 3
    ensures MetaCodec.TimingTag(MetaCodec.Before) == 0 && MetaCodec.TimingTag(MetaCodec.After) == 1
    ensures MetaCodec.TimingTag(MetaCodec.InsteadOf) == 2
    ensures MetaCodec.EventBytes(MetaCodec.Delete) == [0] && MetaCodec.EventBytes(MetaCodec.Insert) == [1]
    ensures MetaCodec.EventBytes(MetaCodec.Update(None)) == [2, 255, 255, 255, 255]
  {
    hide PutU32;
    MinusOne();
  }

  lemma {:induction false} FiveLetters()
    ensures MetaCodec.PutStr("t") == [1, 0, 0, 0, 116] && MetaCodec.PutStr("u") == [1, 0, 0, 0, 117]
    ensures PutBytes(Utf8("c")) == [1, 0, 0, 0, 99] && MetaCodec.PutStr("d") == [1, 0, 0, 0, 100]
    ensures MetaCodec.StrsBytes(["a"]) == [1, 0, 0, 0, 97]
  {
    hide PutU32, Utf8, PutBytes;
    Letter('t');
    Letter('u');
    Letter('a');
    Letter('c');
    Letter('d');
    assert ["a"][1..] == [];
    assert MetaCodec.StrsBytes(["a"]) == MetaCodec.PutStr("a") + [];
  }

  /** A trigger: name, table, timing, event with its columns, for each row or not, condition, body. */
  lemma {:induction false} TriggerLayout()
    ensures MetaCodec.TriggerBytes(MetaCodec.TriggerMeta("t", "u", MetaCodec.After,
        MetaCodec.Update(Some(["a"])), true, Some("c"), "d")) ==
      [1, 0, 0, 0, 116] + [1, 0, 0, 0, 117] + [1] + [2, 1, 0, 0, 0, 1, 0, 0, 0, 97] + [1]
      + [1, 0, 0, 0, 99] + [1, 0, 0, 0, 100]
  {
    hide PutU32, Utf8, PutBytes, MetaCodec.StrsBytes, MetaCodec.PutStr, MetaCodec.ConditionBytes, MetaCodec.EventBytes;
    FiveLetters();
    UpdateOfOne();
    Condition("c");
    Regroup([1, 0, 0, 0, 116], [1, 0, 0, 0, 117], [1], [2, 1, 0, 0, 0, 1, 0, 0, 0, 97], [1], [1, 0, 0, 0, 99],
            [1, 0, 0, 0, 100]);
  }

  lemma {:induction false} UpdateOfOne()
    ensures MetaCodec.EventBytes(MetaCodec.Update(Some(["a"]))) == [2, 1, 0, 0, 0, 1, 0, 0, 0, 97]
  {
    hide PutU32, MetaCodec.StrsBytes, MetaCodec.PutStr;
    FiveLetters();
    Small(1);
  }

  lemma {:induction false} Condition(s: string)
    ensures MetaCodec.ConditionBytes(Some(s)) == PutBytes(Utf8(s))
  {
  }

  lemma {:induction false} Regroup(a: Bytes, b: Bytes, c: Bytes, d: Bytes, e: Bytes, f: Bytes, g: Bytes)
    ensures a + (b + (c + (d + (e + (f + g))))) == a + b + c + d + e + f + g
  {
  }

  /** A posting list: document frequency, count, and for each document its number, the term frequency
      and the counted positions. */
  lemma {:induction false} PostingBytes()
    ensures Postings.ListBytes(Postings.PostingList(1, [Postings.Posting(2, 3, [4, 5])])) ==
      [1, 0, 0, 0] + [1, 0, 0, 0] + [2, 0, 0, 0, 0, 0, 0, 0] + [3, 0, 0, 0] + [2, 0, 0, 0] + [4, 0, 0, 0] + [5, 0, 0, 0]
  {
    hide PutU32, PutU64;
    Small(1);
    Small(2);
    Small(3);
    Small(4);
    Small(5);
    var ps, xs := [Postings.Posting(2, 3, [4, 5])], [4, 5];
    assert ps[1..] == [] && xs[1..] == [5] && xs[1..][1..] == [];
    assert Postings.PositionsBytes(xs[1..]) == PutU32(5) + [];
    assert Postings.PositionsBytes(xs) == PutU32(4) + Postings.PositionsBytes(xs[1..]);
    assert Postings.PostingsBytes(ps) == Postings.PostingBytes(ps[0]) + [];
  }
}
