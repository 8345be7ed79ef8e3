/** Byte-addressed memory holding little-endian 32-bit words, as the EE sees it. */
module ByteMemory {
  import opened Basics

  function Compose(b0: int, b1: int, b2: int, b3: int): int {
    b0 + 0x100 * b1 + 0x1_0000 * b2 + 0x100_0000 * b3
  }

  /** The word stored in the four bytes at address `a`. */
  function Word(m: seq<byte>, a: int): (w: word)
    requires 0 <= a && a + 4 <= |m|
  {
    Compose(m[a], m[a + 1], m[a + 2], m[a + 3])
  }

  /** The map `words` lists the aligned words of `m`, by address. */
  ghost predicate WordsOf(words: map<int, word>, m: seq<byte>) {
    forall a {:trigger Word(m, a)} :: Addressable(|m|, a) ==> a in words && words[a] == Word(m, a)
  }

  ghost function AllWords(m: seq<byte>): (words: map<int, word>)
    ensures WordsOf(words, m)
  {
    var words := map a: int | 0 <= a < |m| && Addressable(|m|, a) :: Word(m, a);
    assert forall a :: Addressable(|m|, a) ==> a in words;
    words
  }

  predicate Addressable(size: int, a: int) {
    0 <= a && a + 4 <= size && a % 4 == 0
  }

  /** The bytes `lo..hi` of two memories agree. */
  ghost predicate Agree(m: seq<byte>, m': seq<byte>, lo: int, hi: int) {
    |m| == |m'| && forall i :: 0 <= i < |m| && lo <= i < hi ==> m'[i] == m[i]
  }

  method LoadWord(mem: array<byte>, a: int, ghost words: map<int, word>) returns (w: word)
    requires WordsOf(words, mem[..]) && Addressable(mem.Length, a)
    ensures a in words && w == words[a]
  {
    w := Compose(mem[a], mem[a + 1], mem[a + 2], mem[a + 3]);
    assert w == Word(mem[..], a);
  }

  lemma WordsAfterStore(words: map<int, word>, m: seq<byte>, m': seq<byte>, a: int)
    requires WordsOf(words, m) && Addressable(|m|, a)
    requires Agree(m, m', 0, a) && Agree(m, m', a + 4, |m|)
    ensures WordsOf(words[a := Word(m', a)], m')
  {
    forall b: int | Addressable(|m'|, b) ensures b in words[a := Word(m', a)] && words[a := Word(m', a)][b] == Word(m', b) {
      if b != a {
        assert b + 4 <= a || a + 4 <= b;
        assert Word(m', b) == Word(m, b);
      }
    }
  }

  /** Stores an aligned word; no byte and no other word outside the four written bytes changes. */
  method StoreWord(mem: array<byte>, a: int, w: word, ghost words: map<int, word>)
    requires WordsOf(words, mem[..]) && Addressable(mem.Length, a)
    modifies mem
    ensures WordsOf(words[a := w], mem[..])
    ensures Agree(old(mem[..]), mem[..], 0, a)
    ensures Agree(old(mem[..]), mem[..], a + 4, mem.Length)
  {
    var q1 := w / 0x100;
    var q2 := q1 / 0x100;
    var q3 := q2 / 0x100;
    mem[a], mem[a + 1], mem[a + 2], mem[a + 3] := w % 0x100, q1 % 0x100, q2 % 0x100, q3;
    assert Word(mem[..], a) == w;
    WordsAfterStore(words, old(mem[..]), mem[..], a);
  }
}
