/** How driver_write cuts one user write into page-program frames, and what those frames do to the
    memory. */
module FlashSplit {
  import opened FlashChip
  import opened Modular

  /** The driver as built. The repository's build is Build(4096, false): addresses are masked to 12
      bits. A repaired build accumulates tmp_index, lays each header over the bytes sent so far, and
      advances the file position by the byte count. */
  datatype Build = Build(window: nat, repaired: bool)

  const SHIPPED := Build(4096, false)

  /** A window is whole pages and lies inside the chip; the shipped position advance adds two masked
      values, so it also needs two windows of room. */
  ghost predicate GoodBuild(b: Build) {
    && b.window > 0 && Offset(b.window) == 0 && b.window <= TOTAL
    && (!b.repaired ==> 2 * b.window <= TOTAL)
  }

  lemma ShippedIsGood()
    ensures GoodBuild(SHIPPED)
  {
    MaskIsRemainder(PAGE, 4096);
  }

  /** The transfer is cut so that it ends at least one byte short of the end of the chip. */
  function Clamp(pos: nat, count: nat): (n: nat)
    requires pos < TOTAL
    ensures n <= count && pos + n < TOTAL
    ensures if pos + count < TOTAL then n == count else pos + n == TOTAL - 1
  {
    if count + pos >= TOTAL then TOTAL - pos - 1 else count
  }

  // ----- The cut: which bytes go in which frame -----

  /** Pages touched by [off, off + n); the loop sends one frame even for no bytes. */
  function PagesSpanned(off: nat, n: nat): (k: nat)
    ensures k >= 1
  {
    if off + n <= PAGE then 1 else (off + n - 1) / PAGE + 1
  }

  lemma SpannedExact(off: nat, n: nat, k: nat)
    ensures k < PagesSpanned(off, n) <==> k == 0 || PAGE * k < off + n
  {
  }

  /** Bytes sent before frame k, when the first frame starts off bytes into its page. */
  function Sent(off: nat, k: nat): nat
    requires off < PAGE
  {
    if k == 0 then 0 else PAGE * k - off
  }

  /** Payload length of frame k: up to the page end, or what is left. */
  function ChunkLen(off: nat, n: nat, k: nat): (len: nat)
    requires off < PAGE && Sent(off, k) <= n
    ensures Sent(off, k) + len <= n && len <= PAGE
  {
    if Sent(off, k + 1) < n then Sent(off, k + 1) - Sent(off, k) else n - Sent(off, k)
  }

  /** Where frame k's payload starts in the user's bytes: the shipped loop keeps the last roll_count. */
  function PayloadStart(b: Build, off: nat, k: nat): nat
    requires off < PAGE
  {
    if b.repaired || k <= 1 then Sent(off, k) else PAGE
  }

  /** Frame k of a write of data (already clamped) at file position pos. */
  function FrameAt(b: Build, pos: nat, data: seq<bv8>, k: nat): (f: Frame)
    requires b.window > 0 && Sent(Offset(pos), k) <= |data|
    ensures f.addr < b.window
    ensures |f.payload| == ChunkLen(Offset(pos), |data|, k)
  {
    var off := Offset(pos);
    var start := PayloadStart(b, off, k);
    Frame(Mask(b.window, pos + Sent(off, k)), data[start..start + ChunkLen(off, |data|, k)])
  }

  /** All frames of one write. */
  function Frames(b: Build, pos: nat, data: seq<bv8>): (fs: seq<Frame>)
    requires b.window > 0
    ensures |fs| == PagesSpanned(Offset(pos), |data|)
  {
    seq(PagesSpanned(Offset(pos), |data|),
        k requires 0 <= k < PagesSpanned(Offset(pos), |data|) =>
          SpannedExact(Offset(pos), |data|, k); FrameAt(b, pos, data, k))
  }

  /** Payload lengths of all frames. */
  function Chunks(off: nat, n: nat): (cs: seq<nat>)
    requires off < PAGE
    ensures |cs| == PagesSpanned(off, n)
  {
    seq(PagesSpanned(off, n),
        k requires 0 <= k < PagesSpanned(off, n) => SpannedExact(off, n, k); ChunkLen(off, n, k))
  }

  /** The payload of frame k starts right after the bytes already sent exactly for the first two
      frames of the shipped loop, and always once tmp_index accumulates. The header in front of it,
      the four cells that end where the payload starts, never reaches past the bytes already sent. */
  lemma PayloadStartExact(b: Build, off: nat, k: nat)
    requires off < PAGE
    ensures PayloadStart(b, off, k) <= Sent(off, k)
    ensures PayloadStart(b, off, k) == Sent(off, k) <==> b.repaired || k <= 1
  {
  }

  /** Every frame stays inside its page, and every frame after the first starts a page. */
  lemma FrameStaysInPage(b: Build, pos: nat, data: seq<bv8>, k: nat)
    requires GoodBuild(b) && k < |Frames(b, pos, data)|
    ensures var f := Frames(b, pos, data)[k];
      && f.addr == Mask(b.window, pos + Sent(Offset(pos), k)) < b.window
      && Offset(f.addr) + |f.payload| <= PAGE
      && (k > 0 ==> Offset(f.addr) == 0)
  {
    hide Mask;
    var off := Offset(pos);
    SpannedExact(off, |data|, k);
    MaskKeepsOffset(PAGE, b.window, pos + Sent(off, k));
    MaskAdd(PAGE, pos, Sent(off, k));
    if k > 0 {
      PageMultiple(k);
      assert off + Sent(off, k) == PAGE * k;
    }
  }

  lemma {:induction false} PageMultiple(k: nat)
    ensures Offset(PAGE * k) == 0
  {
    if k > 0 {
      PageMultiple(k - 1);
    }
  }

  // ----- The cut is as coarse as pages allow -----

  function Sum(cs: seq<nat>): nat {
    if cs == [] then 0 else Sum(cs[..|cs| - 1]) + cs[|cs| - 1]
  }

  /** Laid end to end from off, no chunk crosses a page boundary. */
  ghost predicate PageRespecting(off: nat, cs: seq<nat>) {
    forall k :: 0 <= k < |cs| ==> Offset(off + Sum(cs[..k])) + cs[k] <= PAGE
  }

  lemma {:induction false} ChunkPrefix(off: nat, n: nat, k: nat)
    requires off < PAGE && k <= PagesSpanned(off, n)
    ensures Sum(Chunks(off, n)[..k]) == if k < PagesSpanned(off, n) then Sent(off, k) else n
  {
    if k > 0 {
      var cs := Chunks(off, n);
      assert cs[..k][..k - 1] == cs[..k - 1];
      ChunkPrefix(off, n, k - 1);
      SpannedExact(off, n, k - 1);
      SpannedExact(off, n, k);
    }
  }

  /** The chunks add up to the whole transfer and none crosses a page. */
  lemma ChunksFitPages(off: nat, n: nat)
    requires off < PAGE
    ensures Sum(Chunks(off, n)) == n
    ensures PageRespecting(off, Chunks(off, n))
  {
    var cs := Chunks(off, n);
    ChunkPrefix(off, n, |cs|);
    assert cs[..|cs|] == cs;
    forall k | 0 <= k < |cs| ensures Offset(off + Sum(cs[..k])) + cs[k] <= PAGE {
      ChunkPrefix(off, n, k);
      SpannedExact(off, n, k);
      if k > 0 {
        PageMultiple(k);
      }
    }
  }

  lemma {:induction false} PagesNeeded(off: nat, cs: seq<nat>)
    requires off < PAGE && PageRespecting(off, cs)
    ensures off + Sum(cs) <= PAGE * |cs| || cs == []
  {
    if |cs| > 0 {
      var m := |cs| - 1;
      var init := cs[..m];
      assert PageRespecting(off, init) by {
        forall k | 0 <= k < m ensures Offset(off + Sum(init[..k])) + init[k] <= PAGE {
          assert init[..k] == cs[..k];
        }
      }
      PagesNeeded(off, init);
      var x := off + Sum(init);
      assert Offset(x) + cs[m] <= PAGE;
      if x < PAGE * m {
        RoundUp(x, m);
      } else if m > 0 {
        PageMultiple(m);
      }
    }
  }

  /** Any way of sending the same bytes in at least one frame that respects pages needs at least as
      many frames as the loop. */
  lemma {:induction false} OptimalSplit(off: nat, cs: seq<nat>)
    requires off < PAGE && cs != [] && PageRespecting(off, cs)
    ensures |Chunks(off, Sum(cs))| <= |cs|
  {
    PagesNeeded(off, cs);
    SpannedExact(off, Sum(cs), |cs|);
  }

  // ----- Meaning: what the frames leave in memory -----

  /** One page program; the chip takes no address beyond its end. */
  function ApplyFrame(mem: seq<bv8>, f: Frame): (r: seq<bv8>)
    requires |mem| == TOTAL
    ensures |r| == TOTAL
  {
    if f.addr < TOTAL then ProgramPage(mem, f.addr, f.payload) else mem
  }

  /** The first k page programs of fs, one after the other. */
  function ApplyFirst(mem: seq<bv8>, fs: seq<Frame>, k: nat): (r: seq<bv8>)
    requires |mem| == TOTAL && k <= |fs|
    ensures |r| == TOTAL
  {
    if k == 0 then mem else ApplyFrame(ApplyFirst(mem, fs, k - 1), fs[k - 1])
  }

  /** The reference: a flat byte-by-byte AND of the first k bytes, running through addresses modulo
      the window. */
  function FlatFirst(mem: seq<bv8>, window: nat, addr: nat, data: seq<bv8>, k: nat): (r: seq<bv8>)
    requires 0 < window <= |mem| && k <= |data|
    ensures |r| == |mem|
  {
    if k == 0 then mem
    else
      var m, a := FlatFirst(mem, window, addr, data, k - 1), Mask(window, addr + k - 1);
      m[a := m[a] & data[k - 1]]
  }

  function Flat(mem: seq<bv8>, window: nat, addr: nat, data: seq<bv8>): (r: seq<bv8>)
    requires 0 < window <= |mem|
    ensures |r| == |mem|
  {
    FlatFirst(mem, window, addr, data, |data|)
  }

  lemma {:induction false} FlatPrefix(mem: seq<bv8>, window: nat, addr: nat, x: seq<bv8>, y: seq<bv8>, k: nat)
    requires 0 < window <= |mem| && k <= |x|
    ensures FlatFirst(mem, window, addr, x + y, k) == FlatFirst(mem, window, addr, x, k)
  {
    if k > 0 {
      FlatPrefix(mem, window, addr, x, y, k - 1);
    }
  }

  lemma {:induction false} FlatRest(mem: seq<bv8>, window: nat, addr: nat, x: seq<bv8>, y: seq<bv8>, k: nat)
    requires 0 < window <= |mem| && k <= |y|
    ensures FlatFirst(mem, window, addr, x + y, |x| + k)
         == FlatFirst(Flat(mem, window, addr, x), window, Mask(window, addr + |x|), y, k)
  {
    hide Mask;
    if k == 0 {
      FlatPrefix(mem, window, addr, x, y, |x|);
    } else {
      FlatRest(mem, window, addr, x, y, k - 1);
      MaskAdd(window, addr + |x|, k - 1);
      assert addr + |x| + (k - 1) == addr + (|x| + k) - 1;
    }
  }

  lemma FlatConcat(mem: seq<bv8>, window: nat, addr: nat, x: seq<bv8>, y: seq<bv8>)
    requires 0 < window <= |mem|
    ensures Flat(mem, window, addr, x + y)
         == Flat(Flat(mem, window, addr, x), window, Mask(window, addr + |x|), y)
  {
    FlatRest(mem, window, addr, x, y, |y|);
  }

  /** Inside its page, a byte of a page program goes where the flat write puts it. */
  lemma SamePlace(window: nat, addr: nat, i: nat)
    requires addr < window && Offset(window) == 0 && Offset(addr) + i < PAGE
    ensures InPage(addr, i) == addr + i == Mask(window, addr + i)
  {
    MaskIsMultiple(window);
    RoundUp(addr, window / PAGE);
  }

  lemma MaskIsMultiple(window: nat)
    requires Offset(window) == 0
    ensures window == PAGE * (window / PAGE)
  {
    MaskIsRemainder(PAGE, window);
  }

  /** A page program that stays inside its page is a flat AND. */
  lemma {:induction false} ProgramPageIsFlat(mem: seq<bv8>, window: nat, addr: nat, data: seq<bv8>, k: nat)
    requires addr < window <= |mem| == TOTAL && Offset(window) == 0
    requires Offset(addr) + |data| <= PAGE && k <= |data|
    ensures ProgramFirst(mem, addr, data, k) == FlatFirst(mem, window, addr, data, k)
  {
    if k > 0 {
      ProgramPageIsFlat(mem, window, addr, data, k - 1);
      SamePlace(window, addr, k - 1);
    }
  }

  /** Which user byte the loop sends as its i-th byte. */
  function SourceIndex(b: Build, off: nat, i: nat): nat {
    if b.repaired || i + off < 2 * PAGE then i else PAGE + Offset(i + off)
  }

  /** From the third page on the shipped loop sends earlier bytes again. */
  lemma SourceExact(b: Build, off: nat, i: nat)
    requires off < PAGE
    ensures SourceIndex(b, off, i) <= i
    ensures SourceIndex(b, off, i) == i <==> b.repaired || i + off < 2 * PAGE
  {
    if i + off >= 2 * PAGE {
      var x := i + off;
      assert Offset(x) == Offset(x - PAGE) == Offset(x - 2 * PAGE);
      OffsetBelow(x - 2 * PAGE);
    }
  }

  /** The bytes the loop sends, in sending order. */
  function Source(b: Build, pos: nat, data: seq<bv8>): (s: seq<bv8>)
    ensures |s| == |data|
  {
    seq(|data|, i requires 0 <= i < |data| =>
      SourceExact(b, Offset(pos), i); data[SourceIndex(b, Offset(pos), i)])
  }

  lemma SourceOfFrame(b: Build, off: nat, k: nat, j: nat)
    requires off < PAGE && (if k == 0 then j + off < PAGE else j < PAGE)
    ensures SourceIndex(b, off, Sent(off, k) + j) == PayloadStart(b, off, k) + j
  {
    if k >= 2 {
      PageMultiple(k);
      MaskAdd(PAGE, PAGE * k, j);
      assert Sent(off, k) + j + off == PAGE * k + j;
    }
  }

  lemma FramePayload(b: Build, pos: nat, data: seq<bv8>, k: nat)
    requires b.window > 0 && k < PagesSpanned(Offset(pos), |data|)
    ensures Sent(Offset(pos), k) <= |data|
    ensures var sent := Sent(Offset(pos), k);
      Frames(b, pos, data)[k].payload
      == Source(b, pos, data)[sent..sent + ChunkLen(Offset(pos), |data|, k)]
  {
    hide Mask, SourceIndex;
    var off, n := Offset(pos), |data|;
    SpannedExact(off, n, k);
    var sent, len := Sent(off, k), ChunkLen(off, n, k);
    var p, q := Frames(b, pos, data)[k].payload, Source(b, pos, data)[sent..sent + len];
    forall j | 0 <= j < len ensures p[j] == q[j] {
      SourceOfFrame(b, off, k, j);
    }
    assert p == q;
  }

  /** Bytes carried by the first k frames. */
  function SentBytes(off: nat, n: nat, k: nat): (s: nat)
    requires off < PAGE && k <= PagesSpanned(off, n)
    ensures s <= n
  {
    SpannedExact(off, n, k);
    if k < PagesSpanned(off, n) then Sent(off, k) else n
  }

  lemma SentBytesStep(off: nat, n: nat, k: nat)
    requires off < PAGE && k < PagesSpanned(off, n)
    ensures SentBytes(off, n, k) == Sent(off, k) <= n
    ensures SentBytes(off, n, k + 1) == Sent(off, k) + ChunkLen(off, n, k)
  {
  }

  /** The first k frames, each with its page-wrapping AND, leave the memory as one flat AND of the bytes
      they carry. */
  ghost predicate PrefixActsFlat(b: Build, mem: seq<bv8>, pos: nat, data: seq<bv8>, k: nat)
    requires GoodBuild(b) && |mem| == TOTAL && k <= |Frames(b, pos, data)|
  {
    ApplyFirst(mem, Frames(b, pos, data), k)
    == Flat(mem, b.window, Mask(b.window, pos), Source(b, pos, data)[..SentBytes(Offset(pos), |data|, k)])
  }

  lemma {:induction false} FramesActFlat(b: Build, mem: seq<bv8>, pos: nat, data: seq<bv8>, k: nat)
    requires GoodBuild(b) && |mem| == TOTAL && k <= |Frames(b, pos, data)|
    ensures PrefixActsFlat(b, mem, pos, data, k)
  {
    hide Mask, Offset, Frames, Source, ApplyFrame;
    if k == 0 {
      assert Source(b, pos, data)[..0] == [];
    } else {
      FramesActFlat(b, mem, pos, data, k - 1);
      OneMoreFrame(b, mem, pos, data, k - 1);
    }
  }

  lemma NextFrame(b: Build, pos: nat, data: seq<bv8>, k: nat)
    requires GoodBuild(b) && k < |Frames(b, pos, data)|
    ensures var f := Frames(b, pos, data)[k];
      var m, m' := SentBytes(Offset(pos), |data|, k), SentBytes(Offset(pos), |data|, k + 1);
      && m <= m'
      && f.payload == Source(b, pos, data)[m..m']
      && f.addr == Mask(b.window, Mask(b.window, pos) + m)
      && Offset(f.addr) + |f.payload| <= PAGE
  {
    hide Mask, Offset, Source, Frames, ChunkLen, SentBytes;
    SentBytesStep(Offset(pos), |data|, k);
    FramePayload(b, pos, data, k);
    FrameStaysInPage(b, pos, data, k);
    MaskAdd(b.window, pos, Sent(Offset(pos), k));
  }

  lemma OneMoreFrame(b: Build, mem: seq<bv8>, pos: nat, data: seq<bv8>, k: nat)
    requires GoodBuild(b) && |mem| == TOTAL && k < |Frames(b, pos, data)|
    requires PrefixActsFlat(b, mem, pos, data, k)
    ensures PrefixActsFlat(b, mem, pos, data, k + 1)
  {
    hide Mask, Frames, Source, Flat, ApplyFrame;
    var src := Source(b, pos, data);
    var m, m' := SentBytes(Offset(pos), |data|, k), SentBytes(Offset(pos), |data|, k + 1);
    NextFrame(b, pos, data, k);
    assert src[..m'] == src[..m] + src[m..m'];
    FrameExtendsFlat(b.window, mem, Mask(b.window, pos), src[..m], Frames(b, pos, data)[k]);
  }

  lemma FrameExtendsFlat(window: nat, mem: seq<bv8>, addr: nat, x: seq<bv8>, f: Frame)
    requires |mem| == TOTAL && addr < window <= TOTAL && Offset(window) == 0
    requires f.addr == Mask(window, addr + |x|) && Offset(f.addr) + |f.payload| <= PAGE
    ensures ApplyFrame(Flat(mem, window, addr, x), f) == Flat(mem, window, addr, x + f.payload)
  {
    FlatConcat(mem, window, addr, x, f.payload);
    ProgramPageIsFlat(Flat(mem, window, addr, x), window, f.addr, f.payload, |f.payload|);
  }
}
