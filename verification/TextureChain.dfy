/**
 * The DMA chain that draw_texture_transfer and draw_texture_flush build (ee/draw/src/draw.c), down to the bits of its
 * tags.
 */
module TextureChain {
  import opened Arithmetic

  /** A quadword as its two 64-bit halves. */
  datatype Qword = Qword(lo: nat, hi: nat)

  /** A quadword of the chain before its fields are packed. */
  datatype Word =
    | Dma(qwc: int, id: int, addr: int)
    | Gif(nloop: int, eop: int, flg: int, nreg: int, regs: nat)
    | Reg(value: nat, reg: nat)

  // ---- Tags ----

  const DMA_CNT := 1
  const DMA_REF := 3
  const DMA_END := 7
  const FLG_PACKED := 0
  const FLG_IMAGE := 2
  const REG_AD := 0x0E
  const REG_TEXFLUSH := 0x3F
  const REG_BITBLTBUF := 0x50
  const REG_TRXPOS := 0x51
  const REG_TRXREG := 0x52
  const REG_TRXDIR := 0x53

  /** DMATAG with PCE, IRQ and SPR zero: the fields do not overlap, so or is sum. */
  function DmaTag(qwc: int, id: int, addr: int): (t: nat)
  {
    qwc % 0x1_0000 + id % 8 * 0x1000_0000 + addr % 0x8000_0000 * 0x1_0000_0000
  }

  function TagQwc(t: nat): nat { t % 0x1_0000 }
  function TagId(t: nat): nat { t / 0x1000_0000 % 8 }
  function TagAddr(t: nat): nat { t / 0x1_0000_0000 % 0x8000_0000 }

  /** GIF_SET_TAG with PRE and PRIM zero. */
  function GifTag(nloop: int, eop: int, flg: int, nreg: int): (t: nat)
  {
    nloop % 0x8000 + eop % 2 * 0x8000 + flg % 4 * 0x0400_0000_0000_0000 + nreg % 16 * 0x1000_0000_0000_0000
  }

  function GifNloop(t: nat): nat { t % 0x8000 }
  predicate GifEop(t: nat) { t / 0x8000 % 2 == 1 }
  function GifFlg(t: nat): nat { t / 0x0400_0000_0000_0000 % 4 }
  function GifNreg(t: nat): nat { t / 0x1000_0000_0000_0000 % 16 }

  /** DMATAG_CNT, DMATAG_REF, DMATAG_END and PACK_GIFTAG. */
  function Pack(w: Word): Qword {
    match w
    case Dma(qwc, id, addr) => Qword(DmaTag(qwc, id, addr), 0)
    case Gif(nloop, eop, flg, nreg, regs) => Qword(GifTag(nloop, eop, flg, nreg), regs)
    case Reg(value, reg) => Qword(value, reg)
  }

  /** A field that fits is not changed by its mask. */
  lemma Fits(x: int, m: int)
    requires 0 <= x < m
    ensures x % m == x
  {
    Quotient(x, m, 0, x);
  }

  lemma DmaTagSum(qwc: int, id: int, addr: int)
    requires 0 <= qwc < 0x1_0000 && 0 <= id < 8 && 0 <= addr < 0x8000_0000
    ensures DmaTag(qwc, id, addr) == qwc + id * 0x1000_0000 + addr * 0x1_0000_0000
  {
    Fits(qwc, 0x1_0000);
    Fits(id, 8);
    Fits(addr, 0x8000_0000);
  }

  /** A DMA tag is read back field by field. */
  lemma DmaTagFields(t: nat, qwc: int, id: int, addr: int)
    requires 0 <= qwc < 0x1_0000 && 0 <= id < 8 && 0 <= addr < 0x8000_0000
    requires t == qwc + id * 0x1000_0000 + addr * 0x1_0000_0000
    ensures TagQwc(t) == qwc && TagId(t) == id && TagAddr(t) == addr
  {
    Quotient(t, 0x1_0000, id * 0x1000 + addr * 0x1_0000, qwc);
    Quotient(t, 0x1000_0000, id + 16 * addr, qwc);
    Quotient(id + 16 * addr, 8, 2 * addr, id);
    Quotient(t, 0x1_0000_0000, addr, qwc + id * 0x1000_0000);
    Fits(addr, 0x8000_0000);
  }

  lemma GifTagSum(nloop: int, eop: int, flg: int, nreg: int)
    requires 0 <= nloop < 0x8000 && 0 <= eop < 2 && 0 <= flg < 4 && 0 <= nreg < 16
    ensures GifTag(nloop, eop, flg, nreg) == nloop + eop * 0x8000 + (flg + 4 * nreg) * 0x0400_0000_0000_0000
  {
    Fits(nloop, 0x8000);
    Fits(eop, 2);
    Fits(flg, 4);
    Fits(nreg, 16);
  }

  /** A GIF tag is read back field by field. */
  lemma GifTagFields(t: nat, nloop: int, eop: int, flg: int, nreg: int)
    requires 0 <= nloop < 0x8000 && 0 <= eop < 2 && 0 <= flg < 4 && 0 <= nreg < 16
    requires t == nloop + eop * 0x8000 + (flg + 4 * nreg) * 0x0400_0000_0000_0000
    ensures GifNloop(t) == nloop && (GifEop(t) <==> eop == 1) && GifFlg(t) == flg && GifNreg(t) == nreg
  {
    GifLow(t, nloop, eop, flg + 4 * nreg);
    GifHigh(t, nloop + eop * 0x8000, flg, nreg);
  }

  lemma GifLow(t: nat, nloop: int, eop: int, high: int)
    requires 0 <= nloop < 0x8000 && 0 <= eop < 2 && t == nloop + eop * 0x8000 + high * 0x0400_0000_0000_0000
    ensures GifNloop(t) == nloop && (GifEop(t) <==> eop == 1)
  {
    Quotient(t, 0x8000, eop + high * 0x0800_0000_0000, nloop);
    Quotient(eop + high * 0x0800_0000_0000, 2, high * 0x0400_0000_0000, eop);
  }

  lemma GifHigh(t: nat, low: int, flg: int, nreg: int)
    requires 0 <= low < 0x1_0000 && 0 <= flg < 4 && 0 <= nreg < 16 && t == low + (flg + 4 * nreg) * 0x0400_0000_0000_0000
    ensures GifFlg(t) == flg && GifNreg(t) == nreg
  {
    Quotient(t, 0x0400_0000_0000_0000, flg + 4 * nreg, low);
    Quotient(flg + 4 * nreg, 4, nreg, flg);
    Quotient(t, 0x1000_0000_0000_0000, nreg, low + flg * 0x0400_0000_0000_0000);
    Fits(nreg, 16);
  }

  // ---- The size of the image ----

  /** Quadwords an image of `area` pixels takes, by pixel format; an unknown format takes none. */
  function Qwords(psm: int, area: int): int {
    match psm
    case 0x13 => area / 16    // GS_PSM_8
    case 0x1B => area / 16    // GS_PSM_8H
    case 0x00 => area / 4     // GS_PSM_32
    case 0x01 => area / 4     // GS_PSM_24
    case 0x30 => area / 4     // GS_PSMZ_32
    case 0x31 => area / 4     // GS_PSMZ_24
    case 0x14 => area / 32    // GS_PSM_4
    case 0x24 => area / 32    // GS_PSM_4HL
    case 0x2C => area / 32    // GS_PSM_4HH
    case 0x02 => area / 8     // GS_PSM_16
    case 0x0A => area / 8     // GS_PSM_16S
    case 0x32 => area / 8     // GS_PSMZ_16
    case 0x3A => area / 8     // GS_PSMZ_16S
    case _ => 0
  }

  /** Bits a pixel takes in the source image, by format. */
  function PixelBits(psm: int): int {
    if psm in {0x00, 0x01, 0x30, 0x31} then 32
    else if psm in {0x02, 0x0A, 0x32, 0x3A} then 16
    else if psm in {0x13, 0x1B} then 8
    else if psm in {0x14, 0x24, 0x2C} then 4
    else 0
  }

  /** The size is the image's bits in whole quadwords; every pixel is covered exactly when they fill the last one. */
  lemma QwordsExact(psm: int, area: int)
    ensures Qwords(psm, area) == area * PixelBits(psm) / 128
    ensures 128 * Qwords(psm, area) == area * PixelBits(psm) <==> area * PixelBits(psm) % 128 == 0
  {
    match PixelBits(psm) {
      case 32 => assert area * 32 / 128 == area / 4;
      case 16 => assert area * 16 / 128 == area / 8;
      case 8 => assert area * 8 / 128 == area / 16;
      case 4 => assert area * 4 / 128 == area / 32;
      case _ => assert area * 0 == 0;
    }
  }

  // ---- The chain ----

  function BitBltBuf(dest: int, destWidth: int, psm: int): nat {
    dest / 64 % 0x4000 * 0x1_0000_0000 + destWidth / 64 % 0x40 * 0x1_0000_0000_0000 + psm % 0x40 * 0x100_0000_0000_0000
  }

  function TrxReg(width: int, height: int): nat { width % 0x1000 + height % 0x1000 * 0x1_0000_0000 }

  /** The pixels that a TRXREG value announces: its width field times its height field. */
  function Announced(trxReg: nat): nat { trxReg % 0x1000 * (trxReg / 0x1_0000_0000 % 0x1000) }

  lemma AnnouncedSize(width: int, height: int)
    ensures Announced(TrxReg(width, height)) == width % 0x1000 * (height % 0x1000)
  {
    var t, w, h := TrxReg(width, height), width % 0x1000, height % 0x1000;
    Quotient(t, 0x1000, h * 0x10_0000, w);
    Quotient(t, 0x1_0000_0000, h, w);
  }

  /** `a` is what 12 bits keep of the side `w`. */
  predicate Kept(w: int, a: int) { 0 <= a && if w < 0x1000 then a == w else a <= w - 0x1000 }

  lemma SideKept(w: int)
    requires 0 <= w
    ensures Kept(w, w % 0x1000)
  {
  }

  /** A side of 4096 or more loses at least 4096 pixels. */
  lemma SideLost(w: int, h: int, a: int, b: int)
    requires 0 <= a <= w - 0x1000 && 0 <= b <= h && 1 <= h
    ensures a * b <= w * h - 0x1000
  {
    assert a * b <= a * h;
    assert a * h <= (w - 0x1000) * h;
    assert (w - 0x1000) * h == w * h - 0x1000 * h;
  }

  lemma AreaKept(w: int, h: int, a: int, b: int)
    requires 0 <= w && 0 <= h && Kept(w, a) && Kept(h, b)
    ensures if w == 0 || h == 0 || (w < 0x1000 && h < 0x1000) then a * b == w * h else a * b <= w * h - 0x1000
  {
    if w == 0 || h == 0 {
      assert a == 0 || b == 0;
    } else if w >= 0x1000 {
      SideLost(w, h, a, b);
    } else if h >= 0x1000 {
      SideLost(h, w, b, a);
    }
  }

  lemma AnnouncedExact(width: int, height: int)
    requires 0 <= width && 0 <= height
    ensures var n := Announced(TrxReg(width, height));
            if width == 0 || height == 0 || (width < 0x1000 && height < 0x1000) then n == width * height
            else n <= width * height - 0x1000
  {
    AnnouncedSize(width, height);
    SideKept(width);
    SideKept(height);
    AreaKept(width, height, width % 0x1000, height % 0x1000);
  }

  /** The size fits the fields of TRXREG, and the pixels fill whole quadwords. */
  predicate SizeFits(psm: int, width: int, height: int) {
    && (width == 0 || height == 0 || PixelBits(psm) == 0 || (width < 0x1000 && height < 0x1000))
    && width * height * PixelBits(psm) % 128 == 0
  }

  /** The quadwords sent are the bits of the announced pixels if and only if the size fits. */
  lemma SizeExact(psm: int, width: int, height: int)
    requires 0 <= width && 0 <= height
    ensures 128 * Qwords(psm, width * height) == Announced(TrxReg(width, height)) * PixelBits(psm) <==> SizeFits(psm, width, height)
  {
    QwordsExact(psm, width * height);
    AnnouncedExact(width, height);
    BitsExact(128 * Qwords(psm, width * height), width * height, Announced(TrxReg(width, height)), PixelBits(psm));
  }

  lemma BitsExact(sent: int, area: int, announced: int, bits: int)
    requires announced == area || announced <= area - 0x1000
    requires bits == 0 || bits >= 4
    requires area * bits - 128 < sent <= area * bits
    ensures sent == announced * bits <==> (announced == area || bits == 0) && sent == area * bits
  {
    if announced < area && bits != 0 {
      assert announced * bits <= (area - 0x1000) * bits;
      assert (area - 0x1000) * bits == area * bits - 0x1000 * bits;
    }
  }

  /** A single 32-bit pixel is announced and nothing is sent. */
  lemma OnePixelUnsent(psm: int)
    requires psm == 0x00
    ensures Announced(TrxReg(1, 1)) == 1 && Qwords(psm, 1 * 1) == 0
  {
    AnnouncedSize(1, 1);
  }

  /** An image 4096 pixels wide is sent and nothing is announced. */
  lemma WideUnannounced(psm: int, height: int)
    requires psm == 0x00 && 0 < height
    ensures Announced(TrxReg(4096, height)) == 0 && Qwords(psm, 4096 * height) == 1024 * height
  {
    AnnouncedSize(4096, height);
  }

  function Setup(width: int, height: int, psm: int, dest: int, destWidth: int): seq<Word> {
    [Dma(5, DMA_CNT, 0),
     Gif(4, 0, FLG_PACKED, 1, REG_AD),
     Reg(BitBltBuf(dest, destWidth, psm), REG_BITBLTBUF),
     Reg(0, REG_TRXPOS),
     Reg(TrxReg(width, height), REG_TRXREG),
     Reg(0, REG_TRXDIR)]
  }

  /** One piece of the image: an IMAGE tag, then a reference to `n` quadwords of source. */
  function Piece(src: int, n: int): seq<Word> {
    [Dma(1, DMA_CNT, 0), Gif(n, 0, FLG_IMAGE, 0, 0), Dma(n, DMA_REF, src)]
  }

  function Min(a: int, b: int): int { if a < b then a else b }

  /** The image in pieces of at most GIF_BLOCK_SIZE quadwords. */
  function Pieces(src: int, n: int): seq<Word>
    decreases n
  {
    if n <= 0 then [] else Piece(src, Min(n, 0x7FFF)) + Pieces(src + 16 * Min(n, 0x7FFF), n - Min(n, 0x7FFF))
  }

  function Flush(): seq<Word> {
    [Dma(2, DMA_END, 0), Gif(1, 1, FLG_PACKED, 1, REG_AD), Reg(1, REG_TEXFLUSH)]
  }

  function Transfer(src: int, width: int, height: int, psm: int, dest: int, destWidth: int): seq<Word> {
    Setup(width, height, psm, dest, destWidth) + Pieces(src, Qwords(psm, width * height))
  }

  // ---- Building it ----

  /** `b` is `a` with `chain` written at `q`. */
  ghost predicate Written(a: seq<Qword>, b: seq<Qword>, q: nat, chain: seq<Word>) {
    && q + |chain| <= |a| == |b|
    && (forall k {:trigger b[k]} :: 0 <= k < |b| && !(q <= k < q + |chain|) ==> b[k] == a[k])
    && forall k {:trigger chain[k]} :: 0 <= k < |chain| ==> b[q + k] == Pack(chain[k])
  }

  lemma WrittenThen(a: seq<Qword>, b: seq<Qword>, c: seq<Qword>, q: nat, x: seq<Word>, y: seq<Word>, z: seq<Word>)
    requires Written(a, b, q, x) && Written(b, c, q + |x|, y) && z == x + y
    ensures Written(a, c, q, z)
  {
    forall k | 0 <= k < |z| ensures c[q + k] == Pack(z[k]) {
      if k < |x| { assert b[q + k] == Pack(x[k]); } else { assert c[q + |x| + (k - |x|)] == Pack(y[k - |x|]); }
    }
  }

  method PutSetup(buf: array<Qword>, q: nat, width: int, height: int, psm: int, dest: int, destWidth: int) returns (r: nat)
    requires q + 6 <= buf.Length
    modifies buf
    ensures r == q + 6 && Written(old(buf[..]), buf[..], q, Setup(width, height, psm, dest, destWidth))
  {
    buf[q] := Pack(Dma(5, DMA_CNT, 0));
    buf[q + 1] := Pack(Gif(4, 0, FLG_PACKED, 1, REG_AD));
    buf[q + 2] := Pack(Reg(BitBltBuf(dest, destWidth, psm), REG_BITBLTBUF));
    buf[q + 3] := Pack(Reg(0, REG_TRXPOS));
    buf[q + 4] := Pack(Reg(TrxReg(width, height), REG_TRXREG));
    buf[q + 5] := Pack(Reg(0, REG_TRXDIR));
    r := q + 6;
  }

  method PutPiece(buf: array<Qword>, q: nat, src: int, n: int) returns (r: nat)
    requires q + 3 <= buf.Length
    modifies buf
    ensures r == q + 3 && Written(old(buf[..]), buf[..], q, Piece(src, n))
  {
    buf[q] := Pack(Dma(1, DMA_CNT, 0));
    buf[q + 1] := Pack(Gif(n, 0, FLG_IMAGE, 0, 0));
    buf[q + 2] := Pack(Dma(n, DMA_REF, src));
    r := q + 3;
  }

  method DrawTextureFlush(buf: array<Qword>, q: nat) returns (r: nat)
    requires q + 3 <= buf.Length
    modifies buf
    ensures r == q + 3 && Written(old(buf[..]), buf[..], q, Flush())
  {
    buf[q] := Pack(Dma(2, DMA_END, 0));
    buf[q + 1] := Pack(Gif(1, 1, FLG_PACKED, 1, REG_AD));
    buf[q + 2] := Pack(Reg(1, REG_TEXFLUSH));
    r := q + 3;
  }

  lemma PiecesFirst(done: seq<Word>, src: int, n: int)
    requires n >= 0x7FFF
    ensures done + Pieces(src, n) == done + Piece(src, 0x7FFF) + Pieces(src + 16 * 0x7FFF, n - 0x7FFF)
  {
  }

  lemma PiecesLast(done: seq<Word>, src: int, n: int)
    requires 0 <= n < 0x7FFF
    ensures done + Pieces(src, n) == if n == 0 then done else done + Piece(src, n)
  {
  }

  /** The loop over whole blocks and what is left after them. */
  method PutPieces(buf: array<Qword>, q: nat, src: int, qwords: int) returns (r: nat)
    requires 0 <= qwords && q + |Pieces(src, qwords)| <= buf.Length
    modifies buf
    ensures r == q + |Pieces(src, qwords)| && Written(old(buf[..]), buf[..], q, Pieces(src, qwords))
  {
    var i := qwords / 0x7FFF;
    var remaining := qwords % 0x7FFF;
    ghost var start, whole, done, left := buf[..], Pieces(src, qwords), [], qwords;
    var from := src;
    r := q;
    assert done + Pieces(from, left) == whole;
    while i > 0
      invariant 0 <= i && 0 <= remaining < 0x7FFF && left == 0x7FFF * i + remaining
      invariant r == q + |done| && q + |whole| <= buf.Length
      invariant done + Pieces(from, left) == whole
      invariant Written(start, buf[..], q, done)
    {
      PiecesFirst(done, from, left);
      ghost var before := buf[..];
      r := PutPiece(buf, r, from, 0x7FFF);
      WrittenThen(start, before, buf[..], q, done, Piece(from, 0x7FFF), done + Piece(from, 0x7FFF));
      done := done + Piece(from, 0x7FFF);
      from := from + 16 * 0x7FFF;
      i := i - 1;
      left := left - 0x7FFF;
    }
    PiecesLast(done, from, remaining);
    assert whole == if remaining == 0 then done else done + Piece(from, remaining);
    if remaining != 0 {
      ghost var before := buf[..];
      r := PutPiece(buf, r, from, remaining);
      WrittenThen(start, before, buf[..], q, done, Piece(from, remaining), whole);
    }
  }

  method DrawTextureTransfer(buf: array<Qword>, q: nat, src: int, width: int, height: int, psm: int, dest: int, destWidth: int)
    returns (r: nat)
    requires 0 <= width * height
    requires q + |Transfer(src, width, height, psm, dest, destWidth)| <= buf.Length
    modifies buf
    ensures r == q + |Transfer(src, width, height, psm, dest, destWidth)|
    ensures Written(old(buf[..]), buf[..], q, Transfer(src, width, height, psm, dest, destWidth))
  {
    var qwords := Qwords(psm, width * height);
    r := PutSetup(buf, q, width, height, psm, dest, destWidth);
    ghost var before := buf[..];
    r := PutPieces(buf, r, src, qwords);
    WrittenThen(old(buf[..]), before, buf[..], q, Setup(width, height, psm, dest, destWidth), Pieces(src, qwords),
                Transfer(src, width, height, psm, dest, destWidth));
  }
}
