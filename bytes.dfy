/** Fixed-width unsigned integers, byte orders and the optional-value type
    shared by every other module. Go's `uint8`/`uint16`/`uint32` and C's
    `__u8`/`__u16`/`__u32` are ranges of the unbounded `int`; a conversion
    that truncates in the source is written out with `Wrap16`/`Wrap32`. */
module Bytes {

  type u8 = x: int | 0 <= x < 0x100
  type u16 = x: int | 0 <= x < 0x1_0000
  type u32 = x: int | 0 <= x < 0x1_0000_0000

  datatype Option<+T> = None | Some(value: T)

  /** Byte order of a multi-byte field in memory. */
  datatype ByteOrder = BigEndian | LittleEndian

  /** Go's `uint16(x)` / C's truncation to 16 bits: two's-complement wrap. */
  function Wrap16(x: int): (r: u16)
    ensures (x - r) % 0x1_0000 == 0
    ensures 0 <= x < 0x1_0000 ==> r == x
  {
    x % 0x1_0000
  }

  /** Go's `uint32(x)`: two's-complement wrap. */
  function Wrap32(x: int): (r: u32)
    ensures (x - r) % 0x1_0000_0000 == 0
    ensures 0 <= x < 0x1_0000_0000 ==> r == x
  {
    x % 0x1_0000_0000
  }

  /** `binary.BigEndian.PutUint16`. */
  function Be16(x: u16): (r: seq<u8>)
    ensures |r| == 2
  {
    [x / 0x100, x % 0x100]
  }

  /** `binary.BigEndian.PutUint32`. */
  function Be32(x: u32): (r: seq<u8>)
    ensures |r| == 4
  {
    Be16(x / 0x1_0000) + Be16(x % 0x1_0000)
  }

  /** `binary.BigEndian.Uint16`. */
  function ReadBe16(b: seq<u8>): u16
    requires |b| >= 2
  {
    (b[0] as int) * 0x100 + b[1] as int
  }

  /** `binary.BigEndian.Uint32`. */
  function ReadBe32(b: seq<u8>): u32
    requires |b| >= 4
  {
    ReadBe16(b) * 0x1_0000 + ReadBe16(b[2..])
  }

  lemma SplitJoin(hi: nat, lo: nat)
    requires lo < 0x1_0000
    ensures (hi * 0x1_0000 + lo) / 0x1_0000 == hi && (hi * 0x1_0000 + lo) % 0x1_0000 == lo
  {
    var n := hi * 0x1_0000 + lo;
    var q, m := n / 0x1_0000, n % 0x1_0000;
    assert q * 0x1_0000 + m == n;
  }

  lemma Be16Inverse(x: u16)
    ensures ReadBe16(Be16(x)) == x
  {
  }

  lemma Be32Inverse(x: u32)
    ensures ReadBe32(Be32(x)) == x
  {
    var b := Be32(x);
    assert b[2..] == Be16(x % 0x1_0000);
  }

  /** Reading two bytes and writing them back gives the same two bytes. */
  lemma ReadBe16Inverse(b: seq<u8>)
    requires |b| >= 2
    ensures Be16(ReadBe16(b)) == b[..2]
  {
  }

  lemma ReadBe32Inverse(b: seq<u8>)
    requires |b| >= 4
    ensures Be32(ReadBe32(b)) == b[..4]
  {
    var hi, lo := ReadBe16(b), ReadBe16(b[2..]);
    SplitJoin(hi, lo);
    ReadBe16Inverse(b);
    ReadBe16Inverse(b[2..]);
    assert b[..4] == b[..2] + b[2..][..2];
  }

  function Reverse<T>(s: seq<T>): (r: seq<T>)
    ensures |r| == |s|
  {
    if s == [] then [] else Reverse(s[1..]) + [s[0]]
  }

  lemma {:induction false} ReverseAt<T>(s: seq<T>)
    ensures forall i :: 0 <= i < |s| ==> Reverse(s)[i] == s[|s| - 1 - i]
  {
    if s != [] {
      ReverseAt(s[1..]);
    }
  }

  lemma ReverseReverse<T>(s: seq<T>)
    ensures Reverse(Reverse(s)) == s
  {
    ReverseAt(s);
    ReverseAt(Reverse(s));
  }

  /** Memory image of a 16-bit value stored in the given byte order. */
  function Encode16(x: u16, order: ByteOrder): (r: seq<u8>)
    ensures |r| == 2
  {
    if order == BigEndian then Be16(x) else Reverse(Be16(x))
  }

  /** Memory image of a 32-bit value stored in the given byte order. */
  function Encode32(x: u32, order: ByteOrder): (r: seq<u8>)
    ensures |r| == 4
  {
    if order == BigEndian then Be32(x) else Reverse(Be32(x))
  }

  /** A 16-bit value loaded from memory in the given byte order. */
  function Decode16(b: seq<u8>, order: ByteOrder): u16
    requires |b| >= 2
  {
    if order == BigEndian then ReadBe16(b) else ReadBe16(Reverse(b[..2]))
  }

  /** A 32-bit value loaded from memory in the given byte order. */
  function Decode32(b: seq<u8>, order: ByteOrder): u32
    requires |b| >= 4
  {
    if order == BigEndian then ReadBe32(b) else ReadBe32(Reverse(b[..4]))
  }

  lemma Decode16Encode16(x: u16, order: ByteOrder)
    ensures Decode16(Encode16(x, order), order) == x
  {
    Be16Inverse(x);
    if order == LittleEndian {
      var w := Reverse(Be16(x));
      assert w[..2] == w;
      ReverseReverse(Be16(x));
    }
  }

  lemma Decode32Encode32(x: u32, order: ByteOrder)
    ensures Decode32(Encode32(x, order), order) == x
  {
    Be32Inverse(x);
    if order == LittleEndian {
      var w := Reverse(Be32(x));
      assert w[..4] == w;
      ReverseReverse(Be32(x));
    }
  }

  /** Storing a loaded value writes back the bytes it was loaded from. */
  lemma Encode16Decode16(b: seq<u8>, order: ByteOrder)
    requires |b| >= 2
    ensures Encode16(Decode16(b, order), order) == b[..2]
  {
    if order == BigEndian {
      ReadBe16Inverse(b);
    } else {
      var v := Reverse(b[..2]);
      ReadBe16Inverse(v);
      assert v[..2] == v;
      ReverseReverse(b[..2]);
    }
  }

  lemma Encode32Decode32(b: seq<u8>, order: ByteOrder)
    requires |b| >= 4
    ensures Encode32(Decode32(b, order), order) == b[..4]
  {
    if order == BigEndian {
      ReadBe32Inverse(b);
    } else {
      var v := Reverse(b[..4]);
      ReadBe32Inverse(v);
      assert v[..4] == v;
      ReverseReverse(b[..4]);
    }
  }

  /** Overwrite `b[off..off + |w|]` with `w`, one byte at a time. */
  function Splice(b: seq<u8>, off: nat, w: seq<u8>): (r: seq<u8>)
    requires off + |w| <= |b|
    ensures |r| == |b|
    decreases |w|
  {
    if w == [] then b else Splice(b[off := w[0]], off + 1, w[1..])
  }

  /** Each byte of a splice comes from `w` inside the window and from `b`
      outside it. */
  lemma {:induction false} SpliceAt(b: seq<u8>, off: nat, w: seq<u8>)
    requires off + |w| <= |b|
    ensures forall i :: off <= i < off + |w| ==> Splice(b, off, w)[i] == w[i - off]
    ensures forall i :: 0 <= i < |b| && !(off <= i < off + |w|) ==> Splice(b, off, w)[i] == b[i]
    decreases |w|
  {
    if w != [] {
      var b' := b[off := w[0]];
      SpliceAt(b', off + 1, w[1..]);
      var r := Splice(b, off, w);
      assert r == Splice(b', off + 1, w[1..]);
      forall i | off < i < off + |w| ensures r[i] == w[i - off] {
        assert w[1..][i - (off + 1)] == w[i - off];
      }
    }
  }

  /** A decoded value depends on the bytes it reads and on nothing else. */
  lemma Decode32Local(b: seq<u8>, c: seq<u8>, order: ByteOrder)
    requires |b| >= 4 && |c| >= 4 && b[..4] == c[..4]
    ensures Decode32(b, order) == Decode32(c, order)
  {
    var x, y := Decode32(b, order), Decode32(c, order);
    Encode32Decode32(b, order);
    Encode32Decode32(c, order);
    Decode32Encode32(x, order);
    Decode32Encode32(y, order);
  }

  lemma Decode16Local(b: seq<u8>, c: seq<u8>, order: ByteOrder)
    requires |b| >= 2 && |c| >= 2 && b[..2] == c[..2]
    ensures Decode16(b, order) == Decode16(c, order)
  {
    var x, y := Decode16(b, order), Decode16(c, order);
    Encode16Decode16(b, order);
    Encode16Decode16(c, order);
    Decode16Encode16(x, order);
    Decode16Encode16(y, order);
  }

  /** A value encoded at the front of a sequence decodes back. */
  lemma DecodeFront32(x: u32, rest: seq<u8>, order: ByteOrder)
    ensures Decode32(Encode32(x, order) + rest, order) == x
  {
    var w := Encode32(x, order);
    assert (w + rest)[..4] == w[..4];
    Decode32Local(w + rest, w, order);
    Decode32Encode32(x, order);
  }

  lemma DecodeFront16(x: u16, rest: seq<u8>, order: ByteOrder)
    ensures Decode16(Encode16(x, order) + rest, order) == x
  {
    var w := Encode16(x, order);
    assert (w + rest)[..2] == w[..2];
    Decode16Local(w + rest, w, order);
    Decode16Encode16(x, order);
  }

  /** A spliced-in encoding reads back as the encoded value. */
  lemma SpliceRead32(b: seq<u8>, off: nat, x: u32, order: ByteOrder)
    requires off + 4 <= |b|
    ensures Decode32(Splice(b, off, Encode32(x, order))[off..], order) == x
  {
    var w := Encode32(x, order);
    var r := Splice(b, off, w);
    SpliceAt(b, off, w);
    assert r[off..][..4] == w by {
      forall j | 0 <= j < 4 ensures r[off..][..4][j] == w[j] {
        assert r[off..][..4][j] == r[off + j];
      }
    }
    Decode32Encode32(x, order);
    Decode32Local(r[off..], w, order);
  }

  lemma SpliceRead16(b: seq<u8>, off: nat, x: u16, order: ByteOrder)
    requires off + 2 <= |b|
    ensures Decode16(Splice(b, off, Encode16(x, order))[off..], order) == x
  {
    var w := Encode16(x, order);
    var r := Splice(b, off, w);
    SpliceAt(b, off, w);
    assert r[off..][..2] == w by {
      forall j | 0 <= j < 2 ensures r[off..][..2][j] == w[j] {
        assert r[off..][..2][j] == r[off + j];
      }
    }
    Decode16Encode16(x, order);
    Decode16Local(r[off..], w, order);
  }

  /** A splice leaves a 4-byte window before it readable as before. */
  lemma SpliceKeeps32(b: seq<u8>, off: nat, w: seq<u8>, at: nat, order: ByteOrder)
    requires off + |w| <= |b| && at + 4 <= off
    ensures Decode32(Splice(b, off, w)[at..], order) == Decode32(b[at..], order)
  {
    var r := Splice(b, off, w);
    SpliceAt(b, off, w);
    assert r[at..][..4] == b[at..][..4] by {
      forall j | 0 <= j < 4 ensures r[at..][j] == b[at..][j] {
        assert r[at..][j] == r[at + j];
      }
    }
    Decode32Local(r[at..], b[at..], order);
  }

  /** Splicing the same two windows again erases the first pair of writes. */
  lemma SplicePairAbsorbs(b: seq<u8>, da: nat, dp: nat, w1: seq<u8>, w2: seq<u8>, v1: seq<u8>, v2: seq<u8>)
    requires da + |w1| <= dp && dp + |w2| <= |b| && |v1| == |w1| && |v2| == |w2|
    ensures Splice(Splice(Splice(Splice(b, da, w1), dp, w2), da, v1), dp, v2) == Splice(Splice(b, da, v1), dp, v2)
  {
    var x0 := Splice(b, da, w1);
    var x := Splice(x0, dp, w2);
    var y := Splice(x, da, v1);
    var z := Splice(b, da, v1);
    var l, r := Splice(y, dp, v2), Splice(z, dp, v2);
    SpliceAt(b, da, w1);
    SpliceAt(x0, dp, w2);
    SpliceAt(x, da, v1);
    SpliceAt(b, da, v1);
    SpliceAt(y, dp, v2);
    SpliceAt(z, dp, v2);
  }
}
