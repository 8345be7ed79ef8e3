/** Memory of a loader as bytes by address, read and written in little-endian words. */
module SparseMemory {
  import opened Basics

  type Bytes = map<int, byte>

  function ByteAt(m: Bytes, a: int): byte { if a in m then m[a] else 0 }

  function ReadBytes(m: Bytes, a: int, n: nat): (bs: seq<byte>)
    ensures |bs| == n
    decreases n
  {
    if n == 0 then [] else [ByteAt(m, a)] + ReadBytes(m, a + 1, n - 1)
  }

  /** memcpy of `bs` to address `a`. */
  function WriteBytes(m: Bytes, a: int, bs: seq<byte>): Bytes
    decreases |bs|
  {
    if bs == [] then m else WriteBytes(m[a := bs[0]], a + 1, bs[1..])
  }

  /** The number in little-endian bytes, and the bytes of a number. */
  function Value(bs: seq<byte>): (v: int)
    ensures 0 <= v < Range(|bs|)
  {
    if bs == [] then 0 else bs[0] + 0x100 * Value(bs[1..])
  }

  function Digits(v: int, n: nat): (bs: seq<byte>)
    ensures |bs| == n
    decreases n
  {
    if n == 0 then [] else [v % 0x100] + Digits(v / 0x100, n - 1)
  }

  function Range(n: nat): int { if n == 0 then 1 else 0x100 * Range(n - 1) }

  lemma WordRange()
    ensures Range(4) == 0x1_0000_0000
  {
    assert Range(2) == 0x1_0000;
  }

  /** The byte at the lowest address is the least significant one. */
  lemma {:induction false} LittleEndian(m: Bytes, a: int)
    ensures Read(m, a) == ByteAt(m, a) + 0x100 * ByteAt(m, a + 1) + 0x1_0000 * ByteAt(m, a + 2) + 0x100_0000 * ByteAt(m, a + 3)
  {
    var b0, b1, b2, b3 := ByteAt(m, a), ByteAt(m, a + 1), ByteAt(m, a + 2), ByteAt(m, a + 3);
    assert ReadBytes(m, a + 3, 1) == [b3] + ReadBytes(m, a + 4, 0) == [b3];
    assert ReadBytes(m, a + 2, 2) == [b2] + [b3] == [b2, b3];
    assert ReadBytes(m, a + 1, 3) == [b1] + [b2, b3] == [b1, b2, b3];
    assert ReadBytes(m, a, 4) == [b0] + [b1, b2, b3] == [b0, b1, b2, b3];
    assert [b3][1..] == [] && [b2, b3][1..] == [b3] && [b1, b2, b3][1..] == [b2, b3] && [b0, b1, b2, b3][1..] == [b1, b2, b3];
    var x1: int, x2: int, x3: int := b1, b2, b3;
    assert Value([b3]) == x3;
    assert Value([b2, b3]) == x2 + 0x100 * x3;
    assert Value([b1, b2, b3]) == x1 + 0x100 * (x2 + 0x100 * x3);
  }

  function Read(m: Bytes, a: int): word { WordRange(); Value(ReadBytes(m, a, 4)) }

  function Write(m: Bytes, a: int, w: word): Bytes { WriteBytes(m, a, Digits(w, 4)) }

  /** The words at `a` and `b` share a byte. */
  predicate Near(a: int, b: int) { -4 < a - b < 4 }

  lemma {:induction false} ValueDigits(v: int, n: nat)
    requires 0 <= v < Range(n)
    ensures Value(Digits(v, n)) == v
    decreases n
  {
    if n > 0 {
      ValueDigits(v / 0x100, n - 1);
      var bs := Digits(v, n);
      assert bs[0] == v % 0x100 && bs[1..] == Digits(v / 0x100, n - 1);
    }
  }

  lemma {:induction false} ReadBytesAt(m: Bytes, a: int, n: nat, i: nat)
    requires i < n
    ensures ReadBytes(m, a, n)[i] == ByteAt(m, a + i)
    decreases n
  {
    if i > 0 {
      ReadBytesAt(m, a + 1, n - 1, i - 1);
      assert a + 1 + (i - 1) == a + i;
    }
  }

  lemma {:induction false} BytesOutside(m: Bytes, a: int, bs: seq<byte>, b: int)
    requires b < a || a + |bs| <= b
    ensures ByteAt(WriteBytes(m, a, bs), b) == ByteAt(m, b)
    decreases |bs|
  {
    if bs != [] { BytesOutside(m[a := bs[0]], a + 1, bs[1..], b); }
  }

  lemma {:induction false} BytesWritten(m: Bytes, a: int, bs: seq<byte>, i: nat)
    requires i < |bs|
    ensures ByteAt(WriteBytes(m, a, bs), a + i) == bs[i]
    decreases |bs|
  {
    if i == 0 {
      BytesOutside(m[a := bs[0]], a + 1, bs[1..], a);
    } else {
      BytesWritten(m[a := bs[0]], a + 1, bs[1..], i - 1);
      assert a + 1 + (i - 1) == a + i;
    }
  }

  /** What was copied is read back, and what lies elsewhere is read as before. */
  lemma {:induction false} ReadBytesWritten(m: Bytes, a: int, bs: seq<byte>)
    ensures ReadBytes(WriteBytes(m, a, bs), a, |bs|) == bs
  {
    var r := ReadBytes(WriteBytes(m, a, bs), a, |bs|);
    forall i | 0 <= i < |bs| ensures r[i] == bs[i] {
      ReadBytesAt(WriteBytes(m, a, bs), a, |bs|, i);
      BytesWritten(m, a, bs, i);
    }
  }

  lemma {:induction false} ReadBytesOutside(m: Bytes, a: int, bs: seq<byte>, b: int, n: nat)
    requires b + n <= a || a + |bs| <= b
    ensures ReadBytes(WriteBytes(m, a, bs), b, n) == ReadBytes(m, b, n)
    decreases n
  {
    if n > 0 {
      BytesOutside(m, a, bs, b);
      ReadBytesOutside(m, a, bs, b + 1, n - 1);
    }
  }

  lemma {:induction false} ReadWritten(m: Bytes, a: int, w: word)
    ensures Read(Write(m, a, w), a) == w
  {
    ReadBytesWritten(m, a, Digits(w, 4));
    WordRange();
    ValueDigits(w, 4);
  }

  lemma {:induction false} ReadApart(m: Bytes, a: int, w: word, b: int)
    requires !Near(a, b)
    ensures Read(Write(m, a, w), b) == Read(m, b)
  {
    ReadBytesOutside(m, a, Digits(w, 4), b, 4);
  }
}
