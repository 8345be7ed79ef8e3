/** MIPS relocation arithmetic and section layout of ee/erl/src/erl.c. */
module Relocation {
  import opened Arithmetic
  import opened Basics
  import opened BitMask

  const R_MIPS_32 := 2
  const R_MIPS_26 := 4
  const R_MIPS_HI16 := 5
  const R_MIPS_LO16 := 6

  datatype Patch = Patched(w: word) | BadType

  /** The signed value of a 16-bit field: `(x << 16) >> 16`. */
  function Sext(x: int): (r: int)
    requires 0 <= x < 0x1_0000
    ensures -0x8000 <= r < 0x8000 && r % 0x1_0000 == x
  {
    if x < 0x8000 then x else x - 0x1_0000
  }

  /** A word with its low `size` units replaced. */
  function WithLow(w: word, low: int, size: int): (r: word)
    requires (size == 0x1_0000 || size == 0x400_0000) && 0 <= low < size
    ensures r / size == w / size && r % size == low
  {
    w - w % size + low
  }

  /** apply_reloc: what the instruction word `w` becomes. */
  function ApplyReloc(w: word, kind: int, addr: word): Patch {
    if kind == R_MIPS_32 then Patched((w + addr) % 0x1_0000_0000)
    else if kind == R_MIPS_26 then Patched(WithLow(w, (w % 0x400_0000 + addr / 4) % 0x400_0000, 0x400_0000))
    else if kind == R_MIPS_HI16 then
      Patched(WithLow(w, (Sext(w % 0x1_0000) + addr / 0x1_0000 + (if addr % 0x1_0000 >= 0x8000 then 1 else 0)) % 0x1_0000, 0x1_0000))
    else if kind == R_MIPS_LO16 then Patched(WithLow(w, (Sext(w % 0x1_0000) + addr % 0x1_0000) % 0x1_0000, 0x1_0000))
    else BadType
  }

  /** The address a lui/addiu pair forms: the high half plus the sign-extended low half. */
  function Effective(hi: word, lo: word): (a: word) {
    (hi % 0x1_0000 * 0x1_0000 + Sext(lo % 0x1_0000)) % 0x1_0000_0000
  }

  /** The address a jump instruction holds, relative to its 256 MB segment. */
  function JumpTarget(w: word): int { w % 0x400_0000 * 4 }

  // Below, relocation types are the numbers of the MIPS ELF format: 2 is a whole word, 4 a jump, 5 and 6 a HI16/LO16 pair.

  /** These four types are patched and no others; a whole word moves by the address, the others keep their opcode bits. */
  lemma PatchExact(w: word, kind: int, addr: word)
    ensures ApplyReloc(w, kind, addr).Patched? <==> kind == 2 || kind == 4 || kind == 5 || kind == 6
    ensures ApplyReloc(w, 2, addr).w == (w + addr) % 0x1_0000_0000
    ensures ApplyReloc(w, 4, addr).w / 0x400_0000 == w / 0x400_0000
    ensures kind == 5 || kind == 6 ==> ApplyReloc(w, kind, addr).w / 0x1_0000 == w / 0x1_0000
  {
  }

  /** For example 0x3C020000, lui $2, 0, relocated to 0x00123456 is lui $2, 0x12. */
  lemma LuiPatched()
    ensures ApplyReloc(0x3C02_0000, 5, 0x0012_3456) == Patched(0x3C02_0012)
  {
  }

  /**
   * Relocating a HI16/LO16 pair moves the effective address by exactly the symbol address if and only if the
   * signed low halves do not overflow 16 bits when added. The high half is patched without looking at the low
   * addend, so a carry out of that addition is lost.
   */
  lemma HiLoExact(hi: word, lo: word, addr: word)
    ensures var hi' := ApplyReloc(hi, 5, addr).w;
            var lo' := ApplyReloc(lo, 6, addr).w;
            Effective(hi', lo') == (Effective(hi, lo) + addr) % 0x1_0000_0000
            <==> -0x8000 <= Sext(lo % 0x1_0000) + Sext(addr % 0x1_0000) < 0x8000
  {
    var c := if addr % 0x1_0000 >= 0x8000 then 1 else 0;
    var h, l := hi % 0x1_0000, Sext(lo % 0x1_0000);
    var h' := (Sext(h) + addr / 0x1_0000 + c) % 0x1_0000;
    var l' := Sext((l + addr % 0x1_0000) % 0x1_0000);
    HighHalf(h, addr / 0x1_0000 + c);
    LowHalf(l, addr);
    PairSum(h, l, h', l', addr, c);
  }

  lemma HighHalf(h: int, a: int)
    requires 0 <= h < 0x1_0000
    ensures (Sext(h) + a) % 0x1_0000 == (h + a) % 0x1_0000
  {
  }

  /** The new low half is the signed sum, off by one or no 16-bit turn. */
  lemma LowHalf(l: int, addr: word)
    requires -0x8000 <= l < 0x8000
    ensures var s := l + Sext(addr % 0x1_0000);
            var l' := Sext((l + addr % 0x1_0000) % 0x1_0000);
            l' == (if s < -0x8000 then s + 0x1_0000 else if s >= 0x8000 then s - 0x1_0000 else s)
  {
  }

  lemma PairSum(h: int, l: int, h': int, l': int, addr: word, c: int)
    requires 0 <= h < 0x1_0000 && -0x8000 <= l < 0x8000 && c == if addr % 0x1_0000 >= 0x8000 then 1 else 0
    requires h' == (h + addr / 0x1_0000 + c) % 0x1_0000
    requires var s := l + Sext(addr % 0x1_0000); l' == (if s < -0x8000 then s + 0x1_0000 else if s >= 0x8000 then s - 0x1_0000 else s)
    ensures (h' * 0x1_0000 + l') % 0x1_0000_0000 == ((h * 0x1_0000 + l) % 0x1_0000_0000 + addr) % 0x1_0000_0000
            <==> -0x8000 <= l + Sext(addr % 0x1_0000) < 0x8000
  {
    var s := l + Sext(addr % 0x1_0000);
    var a := addr / 0x1_0000 + c;
    var q := (h + a) / 0x1_0000;
    assert addr == a * 0x1_0000 + Sext(addr % 0x1_0000);
    assert h + a == h' + q * 0x1_0000;
    var x := h' * 0x1_0000 + s;
    assert h * 0x1_0000 + l + addr == x + q * 0x1_0000_0000;
    DropTurns(h * 0x1_0000 + l, addr, x, q);
    ShiftByHalf(x, l' - s);
  }

  lemma DropTurns(y: int, addr: int, x: int, q: int)
    requires y + addr == x + q * 0x1_0000_0000
    ensures (y % 0x1_0000_0000 + addr) % 0x1_0000_0000 == x % 0x1_0000_0000
  {
    var p := y / 0x1_0000_0000;
    assert y % 0x1_0000_0000 + addr == x + (q - p) * 0x1_0000_0000;
  }

  lemma ShiftByHalf(x: int, d: int)
    requires d == 0 || d == 0x1_0000 || d == -0x1_0000
    ensures (x + d) % 0x1_0000_0000 == x % 0x1_0000_0000 <==> d == 0
  {
    var p, q := x / 0x1_0000_0000, (x + d) / 0x1_0000_0000;
    assert x == p * 0x1_0000_0000 + x % 0x1_0000_0000;
    assert x + d == q * 0x1_0000_0000 + (x + d) % 0x1_0000_0000;
  }

  /** With a zero low addend, which is what compilers emit for a plain symbol, the pair is always exact. */
  lemma HiLoExactForSymbols(hi: word, lo: word, addr: word)
    requires lo % 0x1_0000 == 0
    ensures Effective(ApplyReloc(hi, 5, addr).w, ApplyReloc(lo, 6, addr).w)
            == (Effective(hi, lo) + addr) % 0x1_0000_0000
  {
    HiLoExact(hi, lo, addr);
  }

  /** For example a low addend of 0x7fff and a symbol address ending in 0001: the pair misses the symbol. */
  lemma HiLoCarryLost(hi: word, lo: word, addr: word)
    requires lo % 0x1_0000 == 0x7fff && addr % 0x1_0000 == 1
    ensures Effective(ApplyReloc(hi, 5, addr).w, ApplyReloc(lo, 6, addr).w)
            != (Effective(hi, lo) + addr) % 0x1_0000_0000
  {
    HiLoExact(hi, lo, addr);
  }

  /** A jump relocation adds the address exactly when it is word aligned, within the 28-bit segment. */
  lemma JumpExact(w: word, addr: word)
    ensures var w' := ApplyReloc(w, 4, addr).w;
            && w' / 0x400_0000 == w / 0x400_0000
            && (JumpTarget(w') == (JumpTarget(w) + addr) % (0x1000_0000) <==> addr % 4 == 0)
  {
    var t := w % 0x400_0000 + addr / 4;
    assert (4 * t) % (0x1000_0000) == 4 * (t % 0x400_0000);
  }

  /** For example an address of 2 does not move the jump at all. */
  lemma JumpHalfWord(w: word)
    ensures JumpTarget(ApplyReloc(w, 4, 2).w) == JumpTarget(w)
  {
  }

  // ---- Section layout, lines 286-300 and 687-701 ----

  const PROGBITS := 1
  const NOBITS := 8

  datatype Section = Section(kind: int, size: word, addralign: word) {
    predicate Loads() { kind == PROGBITS || kind == NOBITS }

    /** FORCE_ALIGN: at least 16; the alignment is compared as a signed number. */
    function Align(): (a: nat)
      ensures 16 <= a < 0x8000_0000
    {
      if addralign < 16 || addralign >= 0x8000_0000 then 16 else addralign
    }
  }

  /** align() before the result is cut to 32 bits. */
  function RaiseTo(x: nat, a: nat): nat
    requires a > 0
  {
    if BitAnd(x, a - 1) != 0 then BitOr(x, a - 1) + 1 else x
  }

  /** align() */
  function AlignTo(x: word, a: nat): word
    requires a > 0
  {
    RaiseTo(x, a) % 0x1_0000_0000
  }

  lemma RaiseBounds(x: nat, a: nat)
    requires a > 0
    ensures x <= RaiseTo(x, a) <= x + a
  {
    AndOrSum(x, a - 1);
    AndBound(x, a - 1);
  }

  lemma {:induction false} AndPower(x: nat, a: nat)
    requires PowerOfTwo(a)
    ensures a > 0 && BitAnd(x, a - 1) == x % a && BitOr(x, a - 1) == x + a - 1 - x % a
  {
    var k := PowerIsPow2(a);
    MaskIsRemainder(x, k);
    AndOrSum(x, a - 1);
  }

  lemma NextMultiple(x: nat, a: nat)
    requires a > 0
    ensures (x - x % a + a) % a == 0
  {
    var q := x / a;
    assert x == a * q + x % a;
    assert x - x % a + a == a * (q + 1) + 0;
    Quotient(x - x % a + a, a, q + 1, 0);
  }

  /** For a power of two the result is the least multiple not below `x`. */
  lemma {:induction false} RaisePower(x: nat, a: nat)
    requires PowerOfTwo(a)
    ensures a > 0 && RaiseTo(x, a) % a == 0 && x <= RaiseTo(x, a) < x + a
  {
    AndPower(x, a);
    NextMultiple(x, a);
  }

  /** align() reaches a multiple of the alignment from everywhere if and only if the alignment is a power of two. */
  lemma {:induction false} AlignExact(a: nat)
    requires 1 < a
    ensures PowerOfTwo(a) <==> forall x: nat :: RaiseTo(x, a) % a == 0
  {
    if PowerOfTwo(a) {
      forall x: nat ensures RaiseTo(x, a) % a == 0 {
        RaisePower(x, a);
      }
    } else {
      var x := BitMissing(a);
      Quotient(x, a, 0, x);
      assert RaiseTo(x, a) % a == x;
    }
  }

  /** For example 8 is not raised to a multiple of 24. */
  lemma AlignOddAlignment()
    ensures AlignTo(8, 24) == 8
  {
    assert BitAnd(1, 2) == 0;
    assert BitAnd(2, 5) == 0;
    assert BitAnd(4, 11) == 0;
    assert BitAnd(8, 23) == 0;
  }

  /** Where the first `n` sections end when nothing is cut to 32 bits. */
  function EndOf(secs: seq<Section>, n: nat): nat
    requires n <= |secs|
  {
    if n <= 1 then 0
    else if secs[n - 1].Loads() then RaiseTo(EndOf(secs, n - 1), secs[n - 1].Align()) + secs[n - 1].size
    else EndOf(secs, n - 1)
  }

  /** Code, data (1, SHT_PROGBITS) or zeros (8, SHT_NOBITS). */
  predicate Occupies(sec: Section) { sec.kind == 1 || sec.kind == 8 }

  /** The place is a multiple of a power of two that the section asks for, and of 16 when it asks for less. */
  predicate AlignedFor(sec: Section, addr: int) {
    if sec.addralign < 16 || sec.addralign >= 0x8000_0000 then addr % 16 == 0
    else PowerOfTwo(sec.addralign) ==> addr % sec.addralign == 0
  }

  /** The sections before `n` that occupy memory are in order, disjoint, aligned, and end by `full`. */
  ghost predicate LaidOut(secs: seq<Section>, addrs: seq<word>, n: int, full: int) {
    && |addrs| == |secs| && 1 <= n <= |secs|
    && (forall i {:trigger Occupies(secs[i])} :: 1 <= i < n && Occupies(secs[i]) ==>
          AlignedFor(secs[i], addrs[i]) && addrs[i] + secs[i].size <= full)
    && (forall i, j {:trigger Occupies(secs[i]), Occupies(secs[j])} :: 1 <= i < j < n && Occupies(secs[i]) && Occupies(secs[j]) ==>
          addrs[i] + secs[i].size <= addrs[j])
  }

  /** The alignment a section gets. */
  function Wanted(sec: Section): nat {
    if sec.addralign < 16 || sec.addralign >= 0x8000_0000 then 16 else sec.addralign
  }

  /** Sections that occupy memory follow each other as closely as their alignments allow, and the others take nothing. */
  lemma {:induction false} SectionsTight(secs: seq<Section>, n: nat)
    requires 1 <= n < |secs|
    ensures !Occupies(secs[n]) ==> EndOf(secs, n + 1) == EndOf(secs, n)
    ensures Occupies(secs[n]) && PowerOfTwo(Wanted(secs[n])) ==>
              EndOf(secs, n) <= EndOf(secs, n + 1) - secs[n].size < EndOf(secs, n) + Wanted(secs[n])
  {
    if PowerOfTwo(Wanted(secs[n])) { RaisePower(EndOf(secs, n), secs[n].Align()); }
  }

  /**
   * read_erl, lines 687-701: where each section that loads goes, and how much memory that takes, in 32-bit arithmetic. It
   * is a layout, and the size is right, exactly when the sections end below 2^32.
   */
  method LayOutSections(secs: seq<Section>) returns (addrs: seq<word>, full: word)
    requires |secs| >= 1
    ensures full == EndOf(secs, |secs|) <==> EndOf(secs, |secs|) < 0x1_0000_0000
    ensures full == EndOf(secs, |secs|) ==> LaidOut(secs, addrs, |secs|, full)
  {
    addrs, full := seq(|secs|, _ => 0), 0;
    var i := 1;
    while i < |secs|
      invariant 1 <= i <= |secs| && |addrs| == |secs|
      invariant EndOf(secs, i) < 0x1_0000_0000 ==> full == EndOf(secs, i) && LaidOut(secs, addrs, i, full)
    {
      if secs[i].Loads() {
        ghost var before, laid := full, addrs;
        full := AlignTo(full, secs[i].Align());
        addrs := addrs[i := full];
        full := (full + secs[i].size) % 0x1_0000_0000;
        if EndOf(secs, i + 1) < 0x1_0000_0000 { Placed(secs, laid, i, before, addrs, full); }
      }
      i := i + 1;
    }
  }

  lemma {:induction false} PlaceAligned(sec: Section, x: nat)
    ensures AlignedFor(sec, RaiseTo(x, sec.Align()))
  {
    assert PowerOfTwo(4);
    if PowerOfTwo(sec.Align()) { RaisePower(x, sec.Align()); }
  }

  lemma {:induction false} Placed(secs: seq<Section>, laid: seq<word>, i: nat, before: word, addrs: seq<word>, full: word)
    requires 1 <= i < |secs| == |laid| && secs[i].Loads() && EndOf(secs, i + 1) < 0x1_0000_0000
    requires EndOf(secs, i) < 0x1_0000_0000 ==> before == EndOf(secs, i) && LaidOut(secs, laid, i, before)
    requires addrs == laid[i := AlignTo(before, secs[i].Align())]
    requires full == (AlignTo(before, secs[i].Align()) + secs[i].size) % 0x1_0000_0000
    ensures full == EndOf(secs, i + 1) && LaidOut(secs, addrs, i + 1, full)
  {
    var x, a := EndOf(secs, i), secs[i].Align();
    RaiseBounds(x, a);
    var at := RaiseTo(x, a);
    assert at + secs[i].size == EndOf(secs, i + 1);
    InRange(at);
    InRange(at + secs[i].size);
    PlaceAligned(secs[i], x);
  }

  /** Two sections of 2^31 bytes end at 2^32, for which 32 bits leave the size 0. */
  lemma ImageTooLarge(none: Section)
    ensures var half := Section(PROGBITS, 0x8000_0000, 16); EndOf([none, half, half], 3) == 0x1_0000_0000
  {
    var half := Section(PROGBITS, 0x8000_0000, 16);
    var secs := [none, half, half];
    Multiple16(0);
    Multiple16(0x8000_0000);
    assert EndOf(secs, 1) == 0;
    assert EndOf(secs, 2) == 0x8000_0000;
  }

  lemma {:induction false} Multiple16(x: nat)
    requires x % 16 == 0
    ensures RaiseTo(x, 16) == x
  {
    assert PowerOfTwo(4);
    AndPower(x, 16);
  }

  lemma InRange(x: nat)
    requires x < 0x1_0000_0000
    ensures x % 0x1_0000_0000 == x
  {
  }
}
