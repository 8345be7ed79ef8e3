/** Walking the chain of TextureChain: what reaches the GIF, and what the GIF does with it. */
module TextureMeaning {
  import opened Arithmetic
  import opened Basics
  import opened TextureChain

  /** Memory by quadword: the quadword at byte address 16 * a. */
  type Memory = int -> Qword

  // ---- Reading tags ----

  datatype DmaView = DmaView(qwc: nat, id: nat, addr: nat)
  datatype GifView = GifView(nloop: nat, eop: bool, flg: nat, nreg: nat, reg: nat)

  /** How a word of the chain is packed, and how the two devices read it. */
  datatype Codec = Codec(pack: Word -> Qword, dma: Qword -> DmaView, gif: Qword -> GifView)

  function DmaFields(q: Qword): DmaView { DmaView(TagQwc(q.lo), TagId(q.lo), TagAddr(q.lo)) }
  function GifFields(q: Qword): GifView { GifView(GifNloop(q.lo), GifEop(q.lo), GifFlg(q.lo), GifNreg(q.lo), q.hi % 16) }

  /** The bit layout of the hardware. */
  function Bits(): Codec { Codec(Pack, DmaFields, GifFields) }

  /** The devices read back what was packed, as long as every field fits. */
  ghost predicate Faithful(c: Codec) { FaithfulDma(c) && FaithfulGif(c) && FaithfulReg(c) }

  ghost predicate FaithfulDma(c: Codec) {
    forall qwc: nat, id: nat, addr: nat {:trigger c.pack(Dma(qwc, id, addr))} ::
      qwc < 0x1_0000 && id < 8 && addr < 0x8000_0000 ==> c.dma(c.pack(Dma(qwc, id, addr))) == DmaView(qwc, id, addr)
  }

  ghost predicate FaithfulGif(c: Codec) {
    forall nloop: nat, eop: nat, flg: nat, nreg: nat, regs: nat {:trigger c.pack(Gif(nloop, eop, flg, nreg, regs))} ::
      nloop < 0x8000 && eop < 2 && flg < 4 && nreg < 16 && regs < 16 ==>
      c.gif(c.pack(Gif(nloop, eop, flg, nreg, regs))) == GifView(nloop, eop == 1, flg, nreg, regs)
  }

  ghost predicate FaithfulReg(c: Codec) {
    forall value, reg {:trigger c.pack(Reg(value, reg))} :: c.pack(Reg(value, reg)) == Qword(value, reg)
  }

  lemma DmaReadBack(qwc: nat, id: nat, addr: nat)
    requires qwc < 0x1_0000 && id < 8 && addr < 0x8000_0000
    ensures Bits().dma(Bits().pack(Dma(qwc, id, addr))) == DmaView(qwc, id, addr) && Bits().pack(Dma(qwc, id, addr)).hi == 0
  {
    DmaTagSum(qwc, id, addr);
    DmaTagFields(DmaTag(qwc, id, addr), qwc, id, addr);
    DmaViewOf(DmaTag(qwc, id, addr), qwc, id, addr);
  }

  lemma DmaViewOf(t: nat, qwc: nat, id: nat, addr: nat)
    requires TagQwc(t) == qwc && TagId(t) == id && TagAddr(t) == addr
    ensures DmaFields(Qword(t, 0)) == DmaView(qwc, id, addr)
  {
  }

  lemma GifReadBack(nloop: nat, eop: nat, flg: nat, nreg: nat, regs: nat)
    requires nloop < 0x8000 && eop < 2 && flg < 4 && nreg < 16 && regs < 16
    ensures Bits().gif(Bits().pack(Gif(nloop, eop, flg, nreg, regs))) == GifView(nloop, eop == 1, flg, nreg, regs)
  {
    GifTagSum(nloop, eop, flg, nreg);
    GifTagFields(GifTag(nloop, eop, flg, nreg), nloop, eop, flg, nreg);
    GifViewOf(GifTag(nloop, eop, flg, nreg), regs, nloop, eop == 1, flg, nreg);
  }

  lemma GifViewOf(t: nat, regs: nat, nloop: nat, eop: bool, flg: nat, nreg: nat)
    requires regs < 16 && GifNloop(t) == nloop && GifEop(t) == eop && GifFlg(t) == flg && GifNreg(t) == nreg
    ensures GifFields(Qword(t, regs)) == GifView(nloop, eop, flg, nreg, regs)
  {
  }

  /** The bit layout loses nothing: every word of a chain is read back field by field. */
  lemma BitsFaithful()
    ensures Faithful(Bits())
  {
    assert FaithfulDma(Bits()) by {
      forall qwc: nat, id: nat, addr: nat | qwc < 0x1_0000 && id < 8 && addr < 0x8000_0000
        ensures Bits().dma(Bits().pack(Dma(qwc, id, addr))) == DmaView(qwc, id, addr)
      {
        DmaReadBack(qwc, id, addr);
      }
    }
    assert FaithfulGif(Bits()) by {
      forall nloop: nat, eop: nat, flg: nat, nreg: nat, regs: nat | nloop < 0x8000 && eop < 2 && flg < 4 && nreg < 16 && regs < 16
        ensures Bits().gif(Bits().pack(Gif(nloop, eop, flg, nreg, regs))) == GifView(nloop, eop == 1, flg, nreg, regs)
      {
        GifReadBack(nloop, eop, flg, nreg, regs);
      }
    }
  }

  // ---- The DMA channel ----

  function Slice(mem: Memory, a: int, n: nat): (r: seq<Qword>)
    ensures |r| == n && forall k :: 0 <= k < n ==> r[k] == mem(a + k)
  {
    seq(n, k => mem(a + k))
  }

  /** What the channel has sent when it meets an END tag within `n` tags of the one at `d`; ids are those of the DMA controller. */
  function Walk(c: Codec, mem: Memory, d: int, n: nat): Option<seq<Qword>>
    decreases n
  {
    if n == 0 then None
    else
      var t := c.dma(mem(d));
      if t.id == 1 then After(Slice(mem, d + 1, t.qwc), Walk(c, mem, d + 1 + t.qwc, n - 1))
      else if t.id == 3 then After(Slice(mem, t.addr / 16, t.qwc), Walk(c, mem, d + 1, n - 1))
      else if t.id == 7 then Some(Slice(mem, d + 1, t.qwc))
      else None
  }

  function After(sent: seq<Qword>, rest: Option<seq<Qword>>): Option<seq<Qword>> {
    if rest.Some? then Some(sent + rest.value) else None
  }

  ghost predicate Placed(c: Codec, mem: Memory, d: int, chain: seq<Word>) {
    forall k {:trigger chain[k]} :: 0 <= k < |chain| ==> mem(d + k) == c.pack(chain[k])
  }

  // ---- The GIF ----

  datatype Event = Write(reg: nat, value: nat) | Image(data: seq<Qword>) | EndOfPacket | Bad

  /** What a stream of quadwords makes the GIF do: formats 0 (packed, here only address and data) and 2 (image). */
  function Decode(c: Codec, stream: seq<Qword>): seq<Event>
    decreases |stream|
  {
    if stream == [] then []
    else
      var t := c.gif(stream[0]);
      var n := t.nloop;
      var end := if t.eop then [EndOfPacket] else [];
      if n + 1 > |stream| then [Bad]
      else if t.flg == 2 then [Image(stream[1..n + 1])] + end + Decode(c, stream[n + 1..])
      else if t.flg == 0 && t.nreg == 1 && t.reg == 0x0E then
        Writes(stream[1..n + 1]) + end + Decode(c, stream[n + 1..])
      else [Bad]
  }

  function Writes(qs: seq<Qword>): seq<Event> {
    if qs == [] then [] else [Write(qs[0].hi % 256, qs[0].lo)] + Writes(qs[1..])
  }

  // ---- One tag ----

  lemma WalkCnt(c: Codec, mem: Memory, d: int, n: nat, qwc: nat)
    requires Faithful(c) && qwc < 0x1_0000 && mem(d) == c.pack(Dma(qwc, DMA_CNT, 0))
    ensures Walk(c, mem, d, n + 1) == After(Slice(mem, d + 1, qwc), Walk(c, mem, d + 1 + qwc, n))
  {
  }

  lemma WalkRef(c: Codec, mem: Memory, d: int, n: nat, qwc: nat, addr: nat)
    requires Faithful(c) && qwc < 0x1_0000 && addr < 0x8000_0000 && mem(d) == c.pack(Dma(qwc, DMA_REF, addr))
    ensures Walk(c, mem, d, n + 1) == After(Slice(mem, addr / 16, qwc), Walk(c, mem, d + 1, n))
  {
  }

  lemma WalkEnd(c: Codec, mem: Memory, d: int, n: nat, qwc: nat)
    requires Faithful(c) && qwc < 0x1_0000 && mem(d) == c.pack(Dma(qwc, DMA_END, 0))
    ensures Walk(c, mem, d, n + 1) == Some(Slice(mem, d + 1, qwc))
  {
  }

  // ---- The image ----

  /** The source quadwords, cut as the chain cuts them. */
  function Cut(mem: Memory, a: int, n: int): (r: seq<seq<Qword>>)
    decreases n
  {
    if n <= 0 then [] else [Slice(mem, a, Min(n, 0x7FFF))] + Cut(mem, a + Min(n, 0x7FFF), n - Min(n, 0x7FFF))
  }

  function Flatten(ps: seq<seq<Qword>>): seq<Qword> {
    if ps == [] then [] else ps[0] + Flatten(ps[1..])
  }

  function ImageTag(c: Codec, n: nat): seq<Qword> { [c.pack(Gif(n, 0, FLG_IMAGE, 0, 0))] }

  /** An IMAGE tag before every piece. */
  function Tagged(c: Codec, ps: seq<seq<Qword>>): seq<Qword> {
    if ps == [] then [] else ImageTag(c, |ps[0]|) + ps[0] + Tagged(c, ps[1..])
  }

  function Images(ps: seq<seq<Qword>>): seq<Event> {
    if ps == [] then [] else [Image(ps[0])] + Images(ps[1..])
  }

  /** The pieces are the source from first to last, nothing twice and nothing left out, none over a GIF tag's count. */
  lemma {:induction false} CutWhole(mem: Memory, a: int, n: nat)
    ensures Flatten(Cut(mem, a, n)) == Slice(mem, a, n)
    ensures forall p :: p in Cut(mem, a, n) ==> 0 < |p| <= 0x7FFF
    decreases n
  {
    if n > 0 {
      var m := Min(n, 0x7FFF);
      CutWhole(mem, a + m, n - m);
      var ps := Cut(mem, a, n);
      assert ps[0] == Slice(mem, a, m) && ps[1..] == Cut(mem, a + m, n - m);
      assert Slice(mem, a, m) + Slice(mem, a + m, n - m) == Slice(mem, a, n);
      forall p | p in ps ensures 0 < |p| <= 0x7FFF {
        if p != ps[0] { assert p in ps[1..]; }
      }
    }
  }

  /** Tags walked over the image. */
  function Tags(n: int): nat
    decreases n
  {
    if n <= 0 then 0 else 2 + Tags(n - Min(n, 0x7FFF))
  }

  lemma WalkPiece(c: Codec, mem: Memory, d: int, src: nat, n: nat, m: nat)
    requires Faithful(c) && 0 < n <= 0x7FFF && src < 0x8000_0000 && Placed(c, mem, d, Piece(src, n))
    requires Walk(c, mem, d + 3, m).Some?
    ensures Walk(c, mem, d, m + 2) == Some(ImageTag(c, n) + Slice(mem, src / 16, n) + Walk(c, mem, d + 3, m).value)
  {
    var p := Piece(src, n);
    assert mem(d + 0) == c.pack(p[0]) && mem(d + 1) == c.pack(p[1]) && mem(d + 2) == c.pack(p[2]);
    WalkCnt(c, mem, d, m + 1, 1);
    WalkRef(c, mem, d + 2, m, n, src);
    var data, rest := Slice(mem, src / 16, n), Walk(c, mem, d + 3, m).value;
    assert Slice(mem, d + 1, 1) == ImageTag(c, n);
    assert ImageTag(c, n) + (data + rest) == ImageTag(c, n) + data + rest;
  }

  lemma PlacedParts(c: Codec, mem: Memory, d: int, x: seq<Word>, y: seq<Word>)
    requires Placed(c, mem, d, x + y)
    ensures Placed(c, mem, d, x) && Placed(c, mem, d + |x|, y)
  {
    forall k | 0 <= k < |x| ensures mem(d + k) == c.pack(x[k]) {
      assert (x + y)[k] == x[k];
    }
    forall k | 0 <= k < |y| ensures mem(d + |x| + k) == c.pack(y[k]) {
      assert (x + y)[|x| + k] == y[k];
      assert d + (|x| + k) == d + |x| + k;
    }
  }

  /** The address of the next piece. */
  lemma Advance(src: int, m: int)
    requires src % 16 == 0
    ensures (src + 16 * m) % 16 == 0 && (src + 16 * m) / 16 == src / 16 + m
  {
  }

  lemma {:induction false} WalkPieces(c: Codec, mem: Memory, d: int, src: nat, n: nat, m: nat, end: int, rest: seq<Qword>)
    requires Faithful(c) && src % 16 == 0 && src + 16 * n <= 0x8000_0000 && Placed(c, mem, d, Pieces(src, n))
    requires end == d + |Pieces(src, n)| && Walk(c, mem, end, m) == Some(rest)
    ensures Walk(c, mem, d, m + Tags(n)) == Some(Tagged(c, Cut(mem, src / 16, n)) + rest)
    decreases n
  {
    if n > 0 {
      var k := Min(n, 0x7FFF);
      var next := src + 16 * k;
      Advance(src, k);
      PlacedParts(c, mem, d, Piece(src, k), Pieces(next, n - k));
      WalkPieces(c, mem, d + 3, next, n - k, m, end, rest);
      WalkPiece(c, mem, d, src, k, m + Tags(n - k));
      TaggedCut(c, mem, src / 16, n, rest);
    } else {
      assert Tagged(c, Cut(mem, src / 16, n)) + rest == rest;
    }
  }

  lemma TaggedCut(c: Codec, mem: Memory, a: int, n: nat, rest: seq<Qword>)
    requires n > 0
    ensures var k := Min(n, 0x7FFF);
            Tagged(c, Cut(mem, a, n)) + rest == ImageTag(c, k) + Slice(mem, a, k) + (Tagged(c, Cut(mem, a + k, n - k)) + rest)
  {
    var k := Min(n, 0x7FFF);
    var ps := Cut(mem, a, n);
    assert ps[0] == Slice(mem, a, k) && ps[1..] == Cut(mem, a + k, n - k);
    Regroup(ImageTag(c, k), ps[0], Tagged(c, ps[1..]), rest);
  }

  // ---- What the GIF does ----

  lemma DecodeImage(c: Codec, data: seq<Qword>, rest: seq<Qword>)
    requires Faithful(c) && |data| <= 0x7FFF
    ensures Decode(c, ImageTag(c, |data|) + data + rest) == [Image(data)] + Decode(c, rest)
  {
    var n := |data|;
    var s := ImageTag(c, n) + data + rest;
    assert s[1..n + 1] == data && s[n + 1..] == rest;
    assert [Image(data)] + [] + Decode(c, rest) == [Image(data)] + Decode(c, rest);
  }

  lemma Regroup<T>(x: seq<T>, y: seq<T>, z: seq<T>, w: seq<T>)
    ensures x + y + z + w == x + y + (z + w)
  {
  }

  lemma {:induction false} TaggedFirst(c: Codec, ps: seq<seq<Qword>>, rest: seq<Qword>, after: seq<Event>)
    requires ps != []
    ensures Tagged(c, ps) + rest == ImageTag(c, |ps[0]|) + ps[0] + (Tagged(c, ps[1..]) + rest)
    ensures Images(ps) + after == [Image(ps[0])] + (Images(ps[1..]) + after)
  {
    Regroup(ImageTag(c, |ps[0]|), ps[0], Tagged(c, ps[1..]), rest);
    Regroup([], [Image(ps[0])], Images(ps[1..]), after);
    assert [] + [Image(ps[0])] == [Image(ps[0])];
  }

  lemma {:induction false} DecodeTagged(c: Codec, ps: seq<seq<Qword>>, rest: seq<Qword>)
    requires Faithful(c) && forall p :: p in ps ==> |p| <= 0x7FFF
    ensures Decode(c, Tagged(c, ps) + rest) == Images(ps) + Decode(c, rest)
  {
    if ps == [] {
      assert Tagged(c, ps) + rest == rest;
    } else {
      DecodeTagged(c, ps[1..], rest);
      TaggedFirst(c, ps, rest, Decode(c, rest));
      DecodeImage(c, ps[0], Tagged(c, ps[1..]) + rest);
    }
  }

  function RegsTag(c: Codec, n: nat, eop: nat): seq<Qword> { [c.pack(Gif(n, eop, FLG_PACKED, 1, REG_AD))] }

  /** A PACKED tag for A+D and the registers after it. */
  lemma DecodeRegs(c: Codec, regs: seq<Qword>, eop: nat, rest: seq<Qword>)
    requires Faithful(c) && |regs| < 0x8000 && eop < 2
    ensures Decode(c, RegsTag(c, |regs|, eop) + regs + rest)
         == Writes(regs) + (if eop == 1 then [EndOfPacket] else []) + Decode(c, rest)
  {
    var n := |regs|;
    var s := RegsTag(c, n, eop) + regs + rest;
    assert s[1..n + 1] == regs && s[n + 1..] == rest;
  }

  // ---- The whole chain ----

  function SetupRegs(width: int, height: int, psm: int, dest: int, destWidth: int): seq<Qword> {
    [Qword(BitBltBuf(dest, destWidth, psm), REG_BITBLTBUF), Qword(0, REG_TRXPOS),
     Qword(TrxReg(width, height), REG_TRXREG), Qword(0, REG_TRXDIR)]
  }

  lemma WalkSetup(c: Codec, mem: Memory, d: int, width: int, height: int, psm: int, dest: int, destWidth: int, m: nat)
    requires Faithful(c) && Placed(c, mem, d, Setup(width, height, psm, dest, destWidth)) && Walk(c, mem, d + 6, m).Some?
    ensures Walk(c, mem, d, m + 1)
         == Some(RegsTag(c, 4, 0) + SetupRegs(width, height, psm, dest, destWidth) + Walk(c, mem, d + 6, m).value)
  {
    var p := Setup(width, height, psm, dest, destWidth);
    assert mem(d + 0) == c.pack(p[0]) && mem(d + 1) == c.pack(p[1]) && mem(d + 2) == c.pack(p[2]);
    assert mem(d + 3) == c.pack(p[3]) && mem(d + 4) == c.pack(p[4]) && mem(d + 5) == c.pack(p[5]);
    WalkCnt(c, mem, d, m, 5);
    assert Slice(mem, d + 1, 5) == RegsTag(c, 4, 0) + SetupRegs(width, height, psm, dest, destWidth);
  }

  function FlushRegs(): seq<Qword> { [Qword(1, REG_TEXFLUSH)] }

  lemma WalkFlush(c: Codec, mem: Memory, d: int)
    requires Faithful(c) && Placed(c, mem, d, Flush())
    ensures Walk(c, mem, d, 1) == Some(RegsTag(c, 1, 1) + FlushRegs())
  {
    var p := Flush();
    assert mem(d + 0) == c.pack(p[0]) && mem(d + 1) == c.pack(p[1]) && mem(d + 2) == c.pack(p[2]);
    WalkEnd(c, mem, d, 0, 2);
    assert Slice(mem, d + 1, 2) == RegsTag(c, 1, 1) + FlushRegs();
  }

  /**
   * BITBLTBUF, TRXPOS, TRXREG and TRXDIR are set up, the image comes in pieces, then TEXFLUSH and the end of the packet;
   * registers are the GS's own numbers.
   */
  ghost predicate Meaning(mem: Memory, events: seq<Event>, pieces: seq<seq<Qword>>, src: int, qwords: nat,
                          bitBltBuf: nat, trxReg: nat) {
    && Flatten(pieces) == Slice(mem, src / 16, qwords)
    && (forall p :: p in pieces ==> 0 < |p| <= 0x7FFF)
    && events == [Write(0x50, bitBltBuf), Write(0x51, 0), Write(0x52, trxReg), Write(0x53, 0)]
               + Images(pieces)
               + [Write(0x3F, 1), EndOfPacket]
  }

  /** The bits of the image data are those of the pixels that TRXREG announces. */
  predicate AllArrives(pieces: seq<seq<Qword>>, trxReg: nat, psm: int) {
    128 * |Flatten(pieces)| == Announced(trxReg) * PixelBits(psm)
  }

  lemma WalkChain(c: Codec, mem: Memory, d: int, src: nat, q: nat, width: int, height: int, psm: int, dest: int, destWidth: int)
    requires Faithful(c) && src % 16 == 0 && src + 16 * q <= 0x8000_0000
    requires Placed(c, mem, d, Setup(width, height, psm, dest, destWidth) + Pieces(src, q) + Flush())
    ensures Walk(c, mem, d, 2 + Tags(q))
         == Some(RegsTag(c, 4, 0) + SetupRegs(width, height, psm, dest, destWidth)
                 + (Tagged(c, Cut(mem, src / 16, q)) + (RegsTag(c, 1, 1) + FlushRegs())))
  {
    var setup, image := Setup(width, height, psm, dest, destWidth), Pieces(src, q);
    PlacedParts(c, mem, d, setup + image, Flush());
    PlacedParts(c, mem, d, setup, image);
    assert d + |setup + image| == d + 6 + |image|;
    WalkFlush(c, mem, d + 6 + |image|);
    WalkPieces(c, mem, d + 6, src, q, 1, d + 6 + |image|, RegsTag(c, 1, 1) + FlushRegs());
    WalkSetup(c, mem, d, width, height, psm, dest, destWidth, 1 + Tags(q));
  }

  lemma DecodeFlush(c: Codec)
    requires Faithful(c)
    ensures Decode(c, RegsTag(c, 1, 1) + FlushRegs()) == [Write(REG_TEXFLUSH, 1), EndOfPacket]
  {
    DecodeRegs(c, FlushRegs(), 1, []);
    assert RegsTag(c, 1, 1) + FlushRegs() + [] == RegsTag(c, 1, 1) + FlushRegs();
    assert FlushRegs()[1..] == [];
    assert Writes(FlushRegs()) + [EndOfPacket] + [] == [Write(REG_TEXFLUSH, 1), EndOfPacket];
  }

  lemma DecodeChain(c: Codec, regs: seq<Qword>, pieces: seq<seq<Qword>>, flush: seq<Qword>)
    requires Faithful(c) && |regs| == 4 && forall p :: p in pieces ==> 0 < |p| <= 0x7FFF
    ensures Decode(c, RegsTag(c, 4, 0) + regs + (Tagged(c, pieces) + flush)) == Writes(regs) + Images(pieces) + Decode(c, flush)
  {
    DecodeRegs(c, regs, 0, Tagged(c, pieces) + flush);
    DecodeTagged(c, pieces, flush);
    Joined(Writes(regs), Images(pieces), Decode(c, flush));
  }

  lemma Joined(x: seq<Event>, y: seq<Event>, z: seq<Event>)
    ensures x + [] + (y + z) == x + y + z
  {
  }

  lemma SetupWrites(width: int, height: int, psm: int, dest: int, destWidth: int)
    ensures Writes(SetupRegs(width, height, psm, dest, destWidth))
         == [Write(REG_BITBLTBUF, BitBltBuf(dest, destWidth, psm)), Write(REG_TRXPOS, 0),
             Write(REG_TRXREG, TrxReg(width, height)), Write(REG_TRXDIR, 0)]
  {
    var r := SetupRegs(width, height, psm, dest, destWidth);
    assert r[3..][1..] == [];
    assert Writes(r[3..]) == [Write(REG_TRXDIR, 0)];
    assert r[2..][1..] == r[3..];
    assert Writes(r[2..]) == [Write(REG_TRXREG, TrxReg(width, height))] + Writes(r[3..]);
    assert r[1..][1..] == r[2..];
    assert Writes(r[1..]) == [Write(REG_TRXPOS, 0)] + Writes(r[2..]);
  }

  /**
   * A channel that walks the chain of a transfer and a flush reaches its END tag; the GIF then has written the transfer
   * registers, received the whole quadwords of the source image in order, flushed the texture buffer and seen the end of the
   * packet. These are all the pixels that it was told to expect if and only if the size fits.
   */
  lemma ChainMeaning(mem: Memory, d: int, src: nat, width: int, height: int, psm: int, dest: int, destWidth: int)
    returns (n: nat, stream: seq<Qword>, pieces: seq<seq<Qword>>)
    requires 0 <= Qwords(psm, width * height) && src % 16 == 0 && src + 16 * Qwords(psm, width * height) <= 0x8000_0000
    requires Placed(Bits(), mem, d, Transfer(src, width, height, psm, dest, destWidth) + Flush())
    ensures Walk(Bits(), mem, d, n) == Some(stream)
    ensures Meaning(mem, Decode(Bits(), stream), pieces, src, Qwords(psm, width * height),
                    BitBltBuf(dest, destWidth, psm), TrxReg(width, height))
    ensures 0 <= width && 0 <= height ==> (AllArrives(pieces, TrxReg(width, height), psm) <==> SizeFits(psm, width, height))
  {
    BitsFaithful();
    n, stream, pieces := CodecMeaning(Bits(), mem, d, src, Qwords(psm, width * height), width, height, psm, dest, destWidth);
    if 0 <= width && 0 <= height { SizeExact(psm, width, height); }
  }

  lemma CodecMeaning(c: Codec, mem: Memory, d: int, src: nat, q: nat, width: int, height: int, psm: int, dest: int, destWidth: int)
    returns (n: nat, stream: seq<Qword>, pieces: seq<seq<Qword>>)
    requires Faithful(c) && src % 16 == 0 && src + 16 * q <= 0x8000_0000
    requires Placed(c, mem, d, Setup(width, height, psm, dest, destWidth) + Pieces(src, q) + Flush())
    ensures Walk(c, mem, d, n) == Some(stream)
    ensures Meaning(mem, Decode(c, stream), pieces, src, q, BitBltBuf(dest, destWidth, psm), TrxReg(width, height))
  {
    WalkChain(c, mem, d, src, q, width, height, psm, dest, destWidth);
    n := 2 + Tags(q);
    stream := Walk(c, mem, d, n).value;
    pieces := Cut(mem, src / 16, q);
    CutWhole(mem, src / 16, q);
    DecodeChain(c, SetupRegs(width, height, psm, dest, destWidth), pieces, RegsTag(c, 1, 1) + FlushRegs());
    DecodeFlush(c);
    SetupWrites(width, height, psm, dest, destWidth);
  }

  /** The chain the two drawing calls leave in a buffer, one after the other, means the same from the buffer's place in memory. */
  lemma BufferMeaning(a: seq<Qword>, b: seq<Qword>, z: seq<Qword>, q: nat, mem: Memory, base: int,
                      src: nat, width: int, height: int, psm: int, dest: int, destWidth: int)
    returns (n: nat, stream: seq<Qword>, pieces: seq<seq<Qword>>)
    requires 0 <= Qwords(psm, width * height) && src % 16 == 0 && src + 16 * Qwords(psm, width * height) <= 0x8000_0000
    requires Written(a, b, q, Transfer(src, width, height, psm, dest, destWidth))
    requires Written(b, z, q + |Transfer(src, width, height, psm, dest, destWidth)|, Flush())
    requires forall k :: 0 <= k < |z| ==> mem(base + k) == z[k]
    ensures Walk(Bits(), mem, base + q, n) == Some(stream)
    ensures Meaning(mem, Decode(Bits(), stream), pieces, src, Qwords(psm, width * height),
                    BitBltBuf(dest, destWidth, psm), TrxReg(width, height))
    ensures 0 <= width && 0 <= height ==> (AllArrives(pieces, TrxReg(width, height), psm) <==> SizeFits(psm, width, height))
  {
    var chain := Transfer(src, width, height, psm, dest, destWidth) + Flush();
    WrittenThen(a, b, z, q, Transfer(src, width, height, psm, dest, destWidth), Flush(), chain);
    WrittenPlaced(a, z, q, chain, mem, base);
    n, stream, pieces := ChainMeaning(mem, base + q, src, width, height, psm, dest, destWidth);
  }

  lemma WrittenPlaced(a: seq<Qword>, z: seq<Qword>, q: nat, chain: seq<Word>, mem: Memory, base: int)
    requires Written(a, z, q, chain) && forall k :: 0 <= k < |z| ==> mem(base + k) == z[k]
    ensures Placed(Bits(), mem, base + q, chain)
  {
    forall k | 0 <= k < |chain| ensures mem(base + q + k) == Bits().pack(chain[k]) {
      assert z[q + k] == Pack(chain[k]);
      assert mem(base + (q + k)) == z[q + k];
    }
  }

  /** The transfer registers carry what their fields hold of the destination page, its width in pages, the format and the size. */
  lemma RegisterFields(width: int, height: int, psm: int, dest: int, destWidth: int)
    ensures var v := BitBltBuf(dest, destWidth, psm);
            && v % 0x1_0000_0000 == 0
            && v / 0x1_0000_0000 % 0x4000 == dest / 64 % 0x4000
            && v / 0x1_0000_0000_0000 % 0x40 == destWidth / 64 % 0x40
            && v / 0x100_0000_0000_0000 % 0x40 == psm % 0x40
    ensures TrxReg(width, height) % 0x1000 == width % 0x1000 && TrxReg(width, height) / 0x1_0000_0000 % 0x1000 == height % 0x1000
  {
    BltFields(BitBltBuf(dest, destWidth, psm), dest / 64 % 0x4000, destWidth / 64 % 0x40, psm % 0x40);
    var t, w, h := TrxReg(width, height), width % 0x1000, height % 0x1000;
    Quotient(t, 0x1000, h * 0x10_0000, w);
    Quotient(t, 0x1_0000_0000, h, w);
  }

  lemma BltFields(v: nat, page: int, pages: int, psm: int)
    requires 0 <= page < 0x4000 && 0 <= pages < 0x40 && 0 <= psm < 0x40
    requires v == page * 0x1_0000_0000 + pages * 0x1_0000_0000_0000 + psm * 0x100_0000_0000_0000
    ensures v % 0x1_0000_0000 == 0 && v / 0x1_0000_0000 % 0x4000 == page
    ensures v / 0x1_0000_0000_0000 % 0x40 == pages && v / 0x100_0000_0000_0000 % 0x40 == psm
  {
    var h := page + pages * 0x1_0000 + psm * 0x100_0000;
    Quotient(v, 0x1_0000_0000, h, 0);
    Quotient(h, 0x4000, pages * 4 + psm * 0x400, page);
    Quotient(v, 0x1_0000_0000_0000, pages + psm * 0x100, page * 0x1_0000_0000);
    Quotient(pages + psm * 0x100, 0x40, psm * 4, pages);
    Quotient(v, 0x100_0000_0000_0000, psm, page * 0x1_0000_0000 + pages * 0x1_0000_0000_0000);
  }
}
