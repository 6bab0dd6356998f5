/** Whole runs of seeks, reads and writes on an open flash file, bus failures included. */
module FlashRuns {
  import opened Common
  import opened FlashChip
  import opened FlashSplit
  import opened FlashTheorems
  import opened Modular

  /** The memory and the write-enable latch of the chip, between two transfers while it is idle. */
  datatype Flash = Flash(mem: seq<bv8>, wel: bool)

  datatype FileState = FileState(pos: nat, flash: Flash)

  /** One file operation. ok says whether the kernel calls of a read succeed; started whether a write gets
      past its allocation and copy, delivered how many of its frames get through before one fails, and lost
      in which passes of the loop the Write Enable does not get through, which the driver does not notice. */
  datatype Access =
    | SeekTo(offset: int, whence: Whence)
    | ReadOf(count: nat, ok: bool)
    | WriteOf(data: seq<bv8>, started: bool, delivered: nat, lost: set<nat>)

  ghost predicate Good(s: FileState) {
    s.pos < TOTAL && |s.flash.mem| == TOTAL
  }

  function AllFrames(b: Build, pos: nat, data: seq<bv8>): seq<Frame>
    requires b.window > 0 && pos < TOTAL
  {
    Frames(b, pos, data[..Clamp(pos, |data|)])
  }

  function Arrived(delivered: nat, fs: seq<Frame>): (k: nat)
    ensures k <= |fs|
  {
    if delivered < |fs| then delivered else |fs|
  }

  /** After a Write Enable that did or did not get through. */
  function Armed(m: Flash, enabled: bool): Flash {
    m.(wel := m.wel || enabled)
  }

  /** After a page program: ignored while WEL is clear or when it carries no byte. */
  function Programmed(m: Flash, f: Frame): (r: Flash)
    requires |m.mem| == TOTAL
    ensures |r.mem| == TOTAL
  {
    if m.wel && f.payload != [] then Flash(ApplyFrame(m.mem, f), false) else m
  }

  /** After the first k passes of the write loop. */
  function AfterPasses(m: Flash, fs: seq<Frame>, lost: set<nat>, k: nat): (r: Flash)
    requires |m.mem| == TOTAL && k <= |fs|
    ensures |r.mem| == TOTAL
  {
    if k == 0 then m else Programmed(Armed(AfterPasses(m, fs, lost, k - 1), k - 1 !in lost), fs[k - 1])
  }

  /** The pass whose frame fails still sends its Write Enable. */
  function AfterWrite(m: Flash, fs: seq<Frame>, lost: set<nat>, delivered: nat): (r: Flash)
    requires |m.mem| == TOTAL
    ensures |r.mem| == TOTAL
  {
    if delivered < |fs| then Armed(AfterPasses(m, fs, lost, delivered), delivered !in lost)
    else AfterPasses(m, fs, lost, |fs|)
  }

  /** The state after one operation. */
  function Do(b: Build, s: FileState, a: Access): (r: FileState)
    requires GoodBuild(b) && Good(s)
    ensures Good(r)
  {
    match a
    case SeekTo(offset, whence) =>
      var to := SeekTarget(TOTAL, s.pos, offset, whence);
      if to.Some? then s.(pos := to.value) else s
    case ReadOf(count, ok) =>
      var n := Clamp(s.pos, count);
      AdvanceStaysOnChip(b, s.pos, n);
      if ok then s.(pos := PosAfterRead(b, s.pos, n)) else s
    case WriteOf(data, started, delivered, lost) =>
      var n, fs := Clamp(s.pos, |data|), AllFrames(b, s.pos, data);
      AdvanceStaysOnChip(b, s.pos, n);
      if !started then s
      else FileState(if delivered < |fs| then s.pos else PosAfterWrite(b, s.pos, n),
                     AfterWrite(s.flash, fs, lost, delivered))
  }

  datatype Run = Start | Then(before: Run, access: Access)

  function After(b: Build, s: FileState, run: Run): (r: FileState)
    requires GoodBuild(b) && Good(s)
    ensures Good(r)
  {
    match run
    case Start => s
    case Then(before, a) => Do(b, After(b, s, before), a)
  }

  /** Where the file position goes, in plain arithmetic: a completed shipped read counts its bytes from the old
      position modulo 4096, a completed shipped write adds the position modulo 4096 to the masked end address;
      failing operations leave it. */
  lemma {:induction false} ShippedPositions(s: FileState, a: Access)
    requires Good(s)
    ensures GoodBuild(SHIPPED)
    ensures var r, start := Do(SHIPPED, s, a).pos, s.pos % 4096;
      match a
      case SeekTo(offset, whence) =>
        var to := SeekBase(TOTAL, s.pos, whence) + offset;
        r == if whence != Other && 0 <= to < TOTAL then to else s.pos
      case ReadOf(count, ok) =>
        r == if !ok then s.pos else start + if s.pos + count < TOTAL then count else TOTAL - 1 - s.pos
      case WriteOf(data, started, delivered, _) =>
        var n := if s.pos + |data| < TOTAL then |data| else TOTAL - 1 - s.pos;
        var frames := if s.pos % 256 + n <= 256 then 1 else (s.pos % 256 + n - 1) / 256 + 1;
        r == if !started || delivered < frames then s.pos else start + (start + n) % 4096
  {
    hide Mask, AfterWrite;
    ShippedIsGood();
    MaskIsRemainder(4096, s.pos);
    MaskIsRemainder(PAGE, s.pos);
    if a.WriteOf? {
      MaskIsRemainder(4096, s.pos % 4096 + Clamp(s.pos, |a.data|));
    }
  }

  // ----- Lost write enables -----

  /** Pass k programs its frame: its Write Enable gets through, or an earlier failed write left WEL set. */
  predicate CarriedOut(lost: set<nat>, wel: bool, k: nat) {
    k !in lost || (k == 0 && wel)
  }

  lemma LaterFramesCarry(b: Build, pos: nat, data: seq<bv8>, k: nat)
    requires b.window > 0 && k + 1 < |Frames(b, pos, data)|
    ensures Frames(b, pos, data)[k].payload != []
  {
    SpannedExact(Offset(pos), |data|, k);
    SpannedExact(Offset(pos), |data|, k + 1);
  }

  /** WEL when pass k sends its frame, in closed form. */
  lemma {:induction false} ArmedExact(b: Build, pos: nat, data: seq<bv8>, m: Flash, lost: set<nat>, k: nat)
    requires b.window > 0 && |m.mem| == TOTAL && k < |Frames(b, pos, data)|
    ensures Armed(AfterPasses(m, Frames(b, pos, data), lost, k), k !in lost).wel <==> CarriedOut(lost, m.wel, k)
  {
    if k > 0 {
      LaterFramesCarry(b, pos, data, k - 1);
    }
  }

  // ----- What reaches a cell -----

  /** What a page program that stays in its page delivers to cell c. */
  function FrameByte(f: Frame, c: nat): bv8 {
    if f.addr <= c < f.addr + |f.payload| then f.payload[c - f.addr] else 0xFF
  }

  lemma FrameCell(mem: seq<bv8>, f: Frame, c: nat)
    requires |mem| == TOTAL && c < TOTAL && f.addr < TOTAL && Offset(f.addr) + |f.payload| <= PAGE
    ensures ApplyFrame(mem, f)[c] == mem[c] & FrameByte(f, c)
  {
    hide Mask, ProgramFirst, FlatFirst;
    assert Offset(TOTAL) == 0 by { MaskIsRemainder(PAGE, TOTAL); }
    RoundUp(f.addr, TOTAL / PAGE);
    ProgramPageIsFlat(mem, TOTAL, f.addr, f.payload, |f.payload|);
    FlatCell(mem, TOTAL, f.addr, f.payload, |f.payload|, c);
  }

  /** x with the bits cleared that y lacks. */
  function Cleared(x: bv8, y: bv8): bv8 {
    x & y
  }

  /** was, ANDed with every byte that the first k passes deliver to cell c. */
  function Landed(was: bv8, fs: seq<Frame>, lost: set<nat>, wel: bool, k: nat, c: nat): bv8
    requires k <= |fs|
  {
    if k == 0 then was
    else if CarriedOut(lost, wel, k - 1) then Cleared(Landed(was, fs, lost, wel, k - 1, c), FrameByte(fs[k - 1], c))
    else Landed(was, fs, lost, wel, k - 1, c)
  }

  lemma {:induction false} PassesDeliver(b: Build, m: Flash, pos: nat, data: seq<bv8>, lost: set<nat>, k: nat, c: nat)
    requires GoodBuild(b) && |m.mem| == TOTAL && c < TOTAL && k <= |Frames(b, pos, data)|
    ensures var fs := Frames(b, pos, data);
      AfterPasses(m, fs, lost, k).mem[c] == Landed(m.mem[c], fs, lost, m.wel, k, c)
  {
    hide Mask, Frames, ApplyFrame, CarriedOut, FrameByte, Cleared;
    if k > 0 {
      PassesDeliver(b, m, pos, data, lost, k - 1, c);
      PassDelivers(b, m, pos, data, lost, k - 1, c);
    }
  }

  lemma AllOnes(x: bv8)
    ensures x & 0xFF == x == Cleared(x, 0xFF)
  {
  }

  lemma ProgrammedCell(m: Flash, f: Frame, c: nat)
    requires |m.mem| == TOTAL && c < TOTAL && f.addr < TOTAL && Offset(f.addr) + |f.payload| <= PAGE
    ensures Programmed(m, f).mem[c] == if m.wel then Cleared(m.mem[c], FrameByte(f, c)) else m.mem[c]
  {
    hide Mask, Offset, ApplyFrame;
    FrameCell(m.mem, f, c);
    if f.payload == [] {
      AllOnes(m.mem[c]);
    }
  }

  lemma PassDelivers(b: Build, m: Flash, pos: nat, data: seq<bv8>, lost: set<nat>, k: nat, c: nat)
    requires GoodBuild(b) && |m.mem| == TOTAL && c < TOTAL && k < |Frames(b, pos, data)|
    ensures var fs := Frames(b, pos, data);
      var was := AfterPasses(m, fs, lost, k).mem[c];
      AfterPasses(m, fs, lost, k + 1).mem[c]
      == if CarriedOut(lost, m.wel, k) then Cleared(was, FrameByte(fs[k], c)) else was
  {
    hide Mask, Offset, Frames, Programmed, CarriedOut, FrameByte, Cleared;
    var fs := Frames(b, pos, data);
    ArmedExact(b, pos, data, m, lost, k);
    FrameStaysInPage(b, pos, data, k);
    ProgrammedCell(Armed(AfterPasses(m, fs, lost, k), k !in lost), fs[k], c);
  }

  /** was, ANDed with every byte that one access, or all accesses of a run, deliver to cell c. */
  function AccessLanded(was: bv8, b: Build, s: FileState, a: Access, c: nat): bv8
    requires b.window > 0 && s.pos < TOTAL
  {
    if a.WriteOf? && a.started then
      var fs := AllFrames(b, s.pos, a.data);
      Landed(was, fs, a.lost, s.flash.wel, Arrived(a.delivered, fs), c)
    else was
  }

  function RunLanded(was: bv8, b: Build, s: FileState, run: Run, c: nat): bv8
    requires GoodBuild(b) && Good(s)
  {
    match run
    case Start => was
    case Then(before, a) => AccessLanded(RunLanded(was, b, s, before, c), b, After(b, s, before), a, c)
  }

  lemma AccessDelivers(b: Build, s: FileState, a: Access, c: nat)
    requires GoodBuild(b) && Good(s) && c < TOTAL
    ensures Do(b, s, a).flash.mem[c] == AccessLanded(s.flash.mem[c], b, s, a, c)
  {
    hide Mask, Frames, PosAfterRead, PosAfterWrite, Clamp, AfterPasses, Landed;
    if a.WriteOf? {
      PassesDeliver(b, s.flash, s.pos, a.data[..Clamp(s.pos, |a.data|)], a.lost,
                    Arrived(a.delivered, AllFrames(b, s.pos, a.data)), c);
    }
  }

  /** Over every run of seeks, reads and writes, with any transfers failing or lost, each cell is its first
      value ANDed with every byte delivered to it. */
  lemma {:induction false} RunDelivers(b: Build, s: FileState, run: Run, c: nat)
    requires GoodBuild(b) && Good(s) && c < TOTAL
    ensures After(b, s, run).flash.mem[c] == RunLanded(s.flash.mem[c], b, s, run, c)
  {
    hide Do, AccessLanded;
    if run.Then? {
      RunDelivers(b, s, run.before, c);
      AccessDelivers(b, After(b, s, run.before), run.access, c);
    }
  }

  /** And that is what a read after the run returns, byte by byte. */
  lemma {:induction false} RunReadsBack(b: Build, s: FileState, run: Run, count: nat, i: nat)
    requires GoodBuild(b) && Good(s) && i < Clamp(After(b, s, run).pos, count)
    ensures var t := After(b, s, run);
      var c := Mask(b.window, t.pos) + i;
      && c < TOTAL
      && ReadBack(b, t.flash.mem, t.pos, count)[i] == RunLanded(s.flash.mem[c], b, s, run, c)
  {
    hide Mask, After, RunLanded;
    var t := After(b, s, run);
    MaskBelow(b.window, t.pos);
    ReadAt(t.flash.mem, Mask(b.window, t.pos), Clamp(t.pos, count), i);
    RunDelivers(b, s, run, Mask(b.window, t.pos) + i);
  }

  // ----- What a lost Write Enable costs -----

  /** A write that reports success has stored all it should have, whatever the contents. */
  ghost predicate AllStored(b: Build, pos: nat, count: nat, lost: set<nat>, wel: bool)
    requires GoodBuild(b) && pos < TOTAL
  {
    forall mem: seq<bv8>, data: seq<bv8> | |mem| == TOTAL && |data| == count ::
      AfterPasses(Flash(mem, wel), AllFrames(b, pos, data), lost, |AllFrames(b, pos, data)|).mem
      == Written(b, mem, pos, data)
  }

  /** Frame j of a write of n bytes puts at least the bytes of frame k where frame k puts them. */
  predicate SameBytes(b: Build, pos: nat, n: nat, j: nat, k: nat)
    requires b.window > 0
  {
    var off := Offset(pos);
    && Sent(off, j) <= n && Sent(off, k) <= n
    && Mask(b.window, pos + Sent(off, j)) == Mask(b.window, pos + Sent(off, k))
    && PayloadStart(b, off, j) == PayloadStart(b, off, k)
    && ChunkLen(off, n, j) >= ChunkLen(off, n, k)
  }

  /** Some pass, k itself perhaps, stores the bytes of frame k. */
  ghost predicate MadeUp(b: Build, pos: nat, n: nat, lost: set<nat>, wel: bool, k: nat)
    requires b.window > 0
  {
    exists j: nat :: j < PagesSpanned(Offset(pos), n) && CarriedOut(lost, wel, j) && SameBytes(b, pos, n, j, k)
  }

  /** Frame k as a piece of the user's bytes. */
  lemma FramePiece(b: Build, pos: nat, data: seq<bv8>, k: nat)
    requires b.window > 0 && k < |Frames(b, pos, data)|
    ensures var f, off := Frames(b, pos, data)[k], Offset(pos);
      && Sent(off, k) <= |data| && (data != [] ==> Sent(off, k) < |data|)
      && f.addr == Mask(b.window, pos + Sent(off, k)) && |f.payload| == ChunkLen(off, |data|, k)
      && (data != [] ==> f.payload != [])
      && PayloadStart(b, off, k) + |f.payload| <= |data|
      && forall i :: 0 <= i < |f.payload| ==> f.payload[i] == data[PayloadStart(b, off, k) + i]
  {
    hide Mask, Offset;
    SpannedExact(Offset(pos), |data|, k);
    SpannedExact(Offset(pos), |data|, k + 1);
  }

  /** x has no bit that y lacks. */
  predicate Below(x: bv8, y: bv8) {
    x & y == x
  }

  lemma BelowAnd(x: bv8, y: bv8, z: bv8)
    ensures Below(Cleared(x, y), y)
    ensures Below(x, z) ==> Below(Cleared(x, y), z)
    ensures Below(x, y) && Below(x, z) ==> Below(x, Cleared(y, z))
    ensures Below(x, x) && Below(x, 0xFF)
    ensures Below(x, y) && Below(y, x) ==> x == y
  {
  }

  /** Every byte that was delivered to a cell has been ANDed into it. */
  lemma {:induction false} LandedAbsorbs(was: bv8, fs: seq<Frame>, lost: set<nat>, wel: bool, i: nat, j: nat, c: nat)
    requires j < i <= |fs| && CarriedOut(lost, wel, j)
    ensures Below(Landed(was, fs, lost, wel, i, c), FrameByte(fs[j], c))
  {
    hide FrameByte, CarriedOut, Below, Cleared;
    BelowAnd(Landed(was, fs, lost, wel, i - 1, c), FrameByte(fs[i - 1], c), FrameByte(fs[j], c));
    if j < i - 1 {
      LandedAbsorbs(was, fs, lost, wel, i - 1, j, c);
    }
  }

  lemma {:induction false} LandedBelow(was: bv8, fs: seq<Frame>, lost: set<nat>, wel: bool, i: nat, c: nat)
    requires i <= |fs|
    ensures Below(Landed(was, fs, lost, wel, i, c), was)
  {
    hide FrameByte, CarriedOut, Below, Cleared;
    if i == 0 {
      BelowAnd(was, was, was);
    } else {
      LandedBelow(was, fs, lost, wel, i - 1, c);
      BelowAnd(Landed(was, fs, lost, wel, i - 1, c), FrameByte(fs[i - 1], c), was);
    }
  }

  /** What is below the start value and each byte of some passes is below what they leave. */
  lemma {:induction false} BelowLanded(x: bv8, was: bv8, fs: seq<Frame>, lost: set<nat>, wel: bool, i: nat, c: nat)
    requires i <= |fs| && Below(x, was)
    requires forall j :: 0 <= j < i && CarriedOut(lost, wel, j) ==> Below(x, FrameByte(fs[j], c))
    ensures Below(x, Landed(was, fs, lost, wel, i, c))
  {
    hide FrameByte, CarriedOut, Below, Cleared;
    if i > 0 {
      BelowLanded(x, was, fs, lost, wel, i - 1, c);
      if CarriedOut(lost, wel, i - 1) {
        BelowAnd(x, Landed(was, fs, lost, wel, i - 1, c), FrameByte(fs[i - 1], c));
      }
    }
  }

  lemma SameByte(b: Build, pos: nat, data: seq<bv8>, j: nat, k: nat, c: nat, x: bv8)
    requires b.window > 0 && j < |Frames(b, pos, data)| && k < |Frames(b, pos, data)|
    requires SameBytes(b, pos, |data|, j, k) && Below(x, FrameByte(Frames(b, pos, data)[j], c))
    ensures Below(x, FrameByte(Frames(b, pos, data)[k], c))
  {
    hide Mask, Offset, Frames, Below;
    FramePiece(b, pos, data, j);
    FramePiece(b, pos, data, k);
    BelowAnd(x, x, x);
  }

  lemma MadeUpBelow(b: Build, pos: nat, data: seq<bv8>, lost: set<nat>, wel: bool, was: bv8, k: nat, c: nat)
    requires b.window > 0 && k < |Frames(b, pos, data)| && MadeUp(b, pos, |data|, lost, wel, k)
    ensures var fs := Frames(b, pos, data);
      Below(Landed(was, fs, lost, wel, |fs|, c), FrameByte(fs[k], c))
  {
    hide Mask, Offset, Frames, FrameByte, Landed, SameBytes, CarriedOut, PagesSpanned, Below;
    var fs := Frames(b, pos, data);
    var j: nat :| j < PagesSpanned(Offset(pos), |data|) && CarriedOut(lost, wel, j) && SameBytes(b, pos, |data|, j, k);
    LandedAbsorbs(was, fs, lost, wel, |fs|, j, c);
    SameByte(b, pos, data, j, k, c, Landed(was, fs, lost, wel, |fs|, c));
  }

  /** With every frame made up for, a cell ends as if none had been lost. */
  lemma SameLanded(b: Build, pos: nat, data: seq<bv8>, lost: set<nat>, wel: bool, was: bv8, c: nat)
    requires b.window > 0
    requires forall k: nat :: k < |Frames(b, pos, data)| ==> MadeUp(b, pos, |data|, lost, wel, k)
    ensures var fs := Frames(b, pos, data);
      Landed(was, fs, lost, wel, |fs|, c) == Landed(was, fs, {}, wel, |fs|, c)
  {
    hide Mask, Offset, Frames, FrameByte, Landed, MadeUp, CarriedOut, Below;
    var fs := Frames(b, pos, data);
    var some, all := Landed(was, fs, lost, wel, |fs|, c), Landed(was, fs, {}, wel, |fs|, c);
    LandedBelow(was, fs, lost, wel, |fs|, c);
    LandedBelow(was, fs, {}, wel, |fs|, c);
    forall k: nat | k < |fs| ensures Below(some, FrameByte(fs[k], c)) {
      MadeUpBelow(b, pos, data, lost, wel, was, k, c);
    }
    forall k: nat | k < |fs| ensures Below(all, FrameByte(fs[k], c)) {
      NoneLost(wel, k);
      LandedAbsorbs(was, fs, {}, wel, |fs|, k, c);
    }
    BelowLanded(some, was, fs, {}, wel, |fs|, c);
    BelowLanded(all, was, fs, lost, wel, |fs|, c);
    BelowAnd(some, all, all);
  }

  lemma NoneLost(wel: bool, k: nat)
    ensures CarriedOut({}, wel, k)
  {
  }

  lemma StoredAnyway(b: Build, m: Flash, pos: nat, data: seq<bv8>, lost: set<nat>)
    requires GoodBuild(b) && |m.mem| == TOTAL
    requires data == [] || forall k: nat :: k < |Frames(b, pos, data)| ==> MadeUp(b, pos, |data|, lost, m.wel, k)
    ensures var fs := Frames(b, pos, data);
      AfterPasses(m, fs, lost, |fs|).mem == ApplyFirst(m.mem, fs, |fs|)
  {
    hide Mask, Offset, Frames, MadeUp, Landed, ApplyFirst, AfterPasses;
    var fs := Frames(b, pos, data);
    if data == [] {
      CarriedAll(b, pos, data, m, lost, |fs|);
    } else {
      CarriedAll(b, pos, data, m, {}, |fs|);
      forall c | 0 <= c < TOTAL ensures AfterPasses(m, fs, lost, |fs|).mem[c] == AfterPasses(m, fs, {}, |fs|).mem[c] {
        PassesDeliver(b, m, pos, data, lost, |fs|, c);
        PassesDeliver(b, m, pos, data, {}, |fs|, c);
        SameLanded(b, pos, data, lost, m.wel, m.mem[c], c);
      }
    }
  }

  lemma {:induction false} CarriedAll(b: Build, pos: nat, data: seq<bv8>, m: Flash, lost: set<nat>, k: nat)
    requires GoodBuild(b) && |m.mem| == TOTAL && k <= |Frames(b, pos, data)|
    requires data == [] || forall i :: 0 <= i < k ==> CarriedOut(lost, m.wel, i)
    ensures AfterPasses(m, Frames(b, pos, data), lost, k).mem == ApplyFirst(m.mem, Frames(b, pos, data), k)
  {
    hide Mask, Offset, Frames, CarriedOut, ApplyFrame;
    if k > 0 {
      CarriedAll(b, pos, data, m, lost, k - 1);
      ArmedExact(b, pos, data, m, lost, k - 1);
      EmptyFrames(b, ApplyFirst(m.mem, Frames(b, pos, data), k - 1), pos, data, k - 1);
    }
  }

  lemma EmptyFrames(b: Build, mem: seq<bv8>, pos: nat, data: seq<bv8>, k: nat)
    requires GoodBuild(b) && |mem| == TOTAL && k < |Frames(b, pos, data)|
    ensures var f := Frames(b, pos, data)[k];
      && (data == [] ==> f.payload == [])
      && (f.payload == [] ==> ApplyFrame(mem, f) == mem)
  {
    hide Mask;
    SpannedExact(Offset(pos), |data|, k);
  }

  /** Which user byte frame k puts last, and where. */
  function LastByte(b: Build, off: nat, n: nat, k: nat): int
    requires off < PAGE && Sent(off, k) <= n
  {
    PayloadStart(b, off, k) + ChunkLen(off, n, k) - 1
  }

  /** A frame that puts that byte there too has all the bytes of frame k in their places. */
  lemma OnlySameBytes(b: Build, pos: nat, data: seq<bv8>, j: nat, k: nat)
    requires GoodBuild(b) && data != [] && j < |Frames(b, pos, data)| && k < |Frames(b, pos, data)|
    requires !SameBytes(b, pos, |data|, j, k)
    ensures Sent(Offset(pos), k) <= |data|
    ensures var f, g, off := Frames(b, pos, data)[j], Frames(b, pos, data)[k], Offset(pos);
      var c := g.addr + |g.payload| - 1;
      f.addr <= c < f.addr + |f.payload| ==>
        PayloadStart(b, off, j) + (c - f.addr) != LastByte(b, off, |data|, k)
  {
    hide Mask, Offset, Frames;
    FramePiece(b, pos, data, j);
    FramePiece(b, pos, data, k);
    FrameStaysInPage(b, pos, data, j);
    FrameStaysInPage(b, pos, data, k);
    var f, g := Frames(b, pos, data)[j], Frames(b, pos, data)[k];
    var c := g.addr + |g.payload| - 1;
    if f.addr <= c < f.addr + |f.payload| {
      PageOf(f.addr, c - f.addr);
      PageOf(g.addr, c - g.addr);
    }
  }

  /** Addresses in one page have the same page start. */
  lemma PageOf(a: nat, i: nat)
    requires Offset(a) + i < PAGE
    ensures a + i - Offset(a + i) == a - Offset(a)
  {
    MaskAdd(PAGE, a, i);
  }

  lemma {:induction false} NeverLanded(fs: seq<Frame>, lost: set<nat>, wel: bool, i: nat, c: nat)
    requires i <= |fs| && forall j :: 0 <= j < i && CarriedOut(lost, wel, j) ==> FrameByte(fs[j], c) == 0xFF
    ensures Landed(0xFF, fs, lost, wel, i, c) == 0xFF
  {
    hide FrameByte, CarriedOut, Cleared;
    if i > 0 {
      NeverLanded(fs, lost, wel, i - 1, c);
      AllOnes(0xFF);
    }
  }

  lemma {:induction false} LandedZero(fs: seq<Frame>, wel: bool, k: nat, c: nat)
    requires k < |fs| && FrameByte(fs[k], c) == 0
    ensures Landed(0xFF, fs, {}, wel, |fs|, c) == 0
  {
    hide FrameByte, Landed;
    LandedAbsorbs(0xFF, fs, {}, wel, |fs|, k, c);
    BelowZero(Landed(0xFF, fs, {}, wel, |fs|, c));
  }

  lemma BelowZero(x: bv8)
    ensures Below(x, 0) ==> x == 0
  {
  }

  /** The byte that tells whether frame k was stored. */
  lemma TellingByte(b: Build, pos: nat, data: seq<bv8>, lost: set<nat>, wel: bool, k: nat)
    requires GoodBuild(b) && data != [] && k < |Frames(b, pos, data)| && !MadeUp(b, pos, |data|, lost, wel, k)
    requires Sent(Offset(pos), k) <= |data|
    requires forall i :: 0 <= i < |data| ==> data[i] == if i == LastByte(b, Offset(pos), |data|, k) then 0 else 0xFF
    ensures var fs := Frames(b, pos, data);
      var c := fs[k].addr + |fs[k].payload| - 1;
      && 0 <= c < TOTAL
      && Landed(0xFF, fs, lost, wel, |fs|, c) == 0xFF
      && Landed(0xFF, fs, {}, wel, |fs|, c) == 0
  {
    hide Mask, Offset, Frames, SameBytes, CarriedOut, Landed;
    var fs := Frames(b, pos, data);
    FramePiece(b, pos, data, k);
    FrameStaysInPage(b, pos, data, k);
    var c := fs[k].addr + |fs[k].payload| - 1;
    SamePlace(b.window, fs[k].addr, |fs[k].payload| - 1);
    LandedZero(fs, wel, k, c);
    forall j | 0 <= j < |fs| && CarriedOut(lost, wel, j) ensures FrameByte(fs[j], c) == 0xFF {
      FramePiece(b, pos, data, j);
      OnlySameBytes(b, pos, data, j, k);
    }
    NeverLanded(fs, lost, wel, |fs|, c);
  }

  lemma LostBreaks(b: Build, pos: nat, count: nat, lost: set<nat>, wel: bool, k: nat)
    requires GoodBuild(b) && pos < TOTAL && 0 < Clamp(pos, count)
    requires k < PagesSpanned(Offset(pos), Clamp(pos, count))
    requires !MadeUp(b, pos, Clamp(pos, count), lost, wel, k)
    ensures !AllStored(b, pos, count, lost, wel)
  {
    hide Mask, Offset, Frames, AfterPasses, MadeUp, Landed, ApplyFirst;
    var n := Clamp(pos, count);
    SpannedExact(Offset(pos), n, k);
    var last := LastByte(b, Offset(pos), n, k);
    var mem, data := Probe(TOTAL, TOTAL), Probe(count, if last >= 0 then last else count);
    var d, m := data[..n], Flash(mem, wel);
    var fs := AllFrames(b, pos, data);
    assert |Frames(b, pos, d)| == PagesSpanned(Offset(pos), n);
    TellingByte(b, pos, d, lost, wel, k);
    var c := fs[k].addr + |fs[k].payload| - 1;
    PassesDeliver(b, m, pos, d, lost, |fs|, c);
    PassesDeliver(b, m, pos, d, {}, |fs|, c);
    CarriedAll(b, pos, d, m, {}, |fs|);
    assert AfterPasses(m, fs, lost, |fs|).mem != Written(b, mem, pos, data);
  }

  /** The driver does not see a Write Enable fail. A write that reports success has stored its bytes, for all
      contents, exactly when it sends none, or the bytes of every frame are stored by some pass whose Write
      Enable got through (in the first pass, WEL left set by an earlier failed write will do). */
  lemma {:induction false} LostExact(b: Build, pos: nat, count: nat, lost: set<nat>, wel: bool)
    requires GoodBuild(b) && pos < TOTAL
    ensures var n := Clamp(pos, count);
      AllStored(b, pos, count, lost, wel)
      <==> n == 0 || forall k: nat :: k < PagesSpanned(Offset(pos), n) ==> MadeUp(b, pos, n, lost, wel, k)
  {
    hide Mask, Offset, AllStored, MadeUp, Clamp;
    var n := Clamp(pos, count);
    if n > 0 && exists k: nat :: k < PagesSpanned(Offset(pos), n) && !MadeUp(b, pos, n, lost, wel, k) {
      var k: nat :| k < PagesSpanned(Offset(pos), n) && !MadeUp(b, pos, n, lost, wel, k);
      LostBreaks(b, pos, count, lost, wel, k);
    } else {
      AllStoredWhen(b, pos, count, lost, wel);
    }
  }

  lemma AllStoredWhen(b: Build, pos: nat, count: nat, lost: set<nat>, wel: bool)
    requires GoodBuild(b) && pos < TOTAL
    requires var n := Clamp(pos, count);
      n == 0 || forall k: nat :: k < PagesSpanned(Offset(pos), n) ==> MadeUp(b, pos, n, lost, wel, k)
    ensures AllStored(b, pos, count, lost, wel)
  {
    hide Mask, Offset, AfterPasses, MadeUp, ApplyFirst;
    forall mem: seq<bv8>, data: seq<bv8> | |mem| == TOTAL && |data| == count
      ensures AfterPasses(Flash(mem, wel), AllFrames(b, pos, data), lost, |AllFrames(b, pos, data)|).mem
           == Written(b, mem, pos, data)
    {
      StoredAnyway(b, Flash(mem, wel), pos, data[..Clamp(pos, count)], lost);
    }
  }

  /** Inside the window, and in a repaired build anywhere, no frame makes up for another. */
  lemma {:induction false} MadeUpExact(b: Build, pos: nat, n: nat, lost: set<nat>, wel: bool, k: nat)
    requires GoodBuild(b) && n > 0 && (b.repaired || Mask(b.window, pos) + n <= b.window)
    requires k < PagesSpanned(Offset(pos), n)
    ensures MadeUp(b, pos, n, lost, wel, k) <==> CarriedOut(lost, wel, k)
  {
    hide Mask, Offset, CarriedOut;
    SpannedExact(Offset(pos), n, k);
    assert SameBytes(b, pos, n, k, k);
    forall j: nat | j < PagesSpanned(Offset(pos), n) && SameBytes(b, pos, n, j, k) ensures j == k {
      SpannedExact(Offset(pos), n, j);
      MaskAdd(b.window, pos, Sent(Offset(pos), j));
      MaskAdd(b.window, pos, Sent(Offset(pos), k));
      if !b.repaired {
        MaskShift(b.window, Mask(b.window, pos), Sent(Offset(pos), j), Sent(Offset(pos), k));
      }
    }
  }

  // ----- What no run changes -----

  /** No frame of a write reaches beyond the window, nor to the chip's last cell. */
  lemma FrameEnds(b: Build, pos: nat, data: seq<bv8>, k: nat)
    requires GoodBuild(b) && pos + |data| < TOTAL && k < |Frames(b, pos, data)|
    ensures var f := Frames(b, pos, data)[k];
      f.payload != [] ==> f.addr + |f.payload| <= b.window && f.addr + |f.payload| < TOTAL
  {
    var f := Frames(b, pos, data)[k];
    if f.payload != [] {
      var i, sent := |f.payload| - 1, Sent(Offset(pos), k);
      FrameStaysInPage(b, pos, data, k);
      SpannedExact(Offset(pos), |data|, k);
      SamePlace(b.window, f.addr, i);
      MaskAdd(b.window, pos + sent, i);
      MaskBelow(b.window, pos + sent + i);
    }
  }

  /** now is was with bits cleared, and not even that beyond the window or in the chip's last cell. */
  ghost predicate Sealed(b: Build, c: nat, was: bv8, now: bv8) {
    Below(now, was) && (c >= b.window || c == TOTAL - 1 ==> now == was)
  }

  lemma SealedAnd(b: Build, c: nat, was: bv8, now: bv8, x: bv8)
    requires Sealed(b, c, was, now) && (c >= b.window || c == TOTAL - 1 ==> x == 0xFF)
    ensures Sealed(b, c, was, Cleared(now, x))
  {
  }

  lemma {:induction false} WriteSealed(b: Build, pos: nat, data: seq<bv8>, lost: set<nat>, wel: bool, k: nat, c: nat,
                                       was: bv8, now: bv8)
    requires GoodBuild(b) && pos < TOTAL && k <= |AllFrames(b, pos, data)| && Sealed(b, c, was, now)
    ensures Sealed(b, c, was, Landed(now, AllFrames(b, pos, data), lost, wel, k, c))
  {
    hide Mask, Frames, Sealed, CarriedOut, Cleared;
    if k > 0 {
      var fs := AllFrames(b, pos, data);
      WriteSealed(b, pos, data, lost, wel, k - 1, c, was, now);
      FrameEnds(b, pos, data[..Clamp(pos, |data|)], k - 1);
      SealedAnd(b, c, was, Landed(now, fs, lost, wel, k - 1, c), FrameByte(fs[k - 1], c));
    }
  }

  /** Over every run, failing operations included: the position stays on the chip, no bit is ever set, no
      cell beyond the address window changes (for the shipped build: nothing beyond the first 4096 cells of
      4194304), and the chip's last cell never changes. */
  lemma {:induction false} RunSealed(b: Build, s: FileState, run: Run, c: nat)
    requires GoodBuild(b) && Good(s) && c < TOTAL
    ensures After(b, s, run).pos < TOTAL
    ensures Sealed(b, c, s.flash.mem[c], After(b, s, run).flash.mem[c])
  {
    hide Do, Frames, AccessLanded, Sealed;
    if run.Start? {
      SealedStart(b, c, s.flash.mem[c]);
    } else {
      RunSealed(b, s, run.before, c);
      AccessSealed(b, After(b, s, run.before), run.access, c, s.flash.mem[c]);
    }
  }

  lemma SealedStart(b: Build, c: nat, was: bv8)
    ensures Sealed(b, c, was, was)
  {
  }

  lemma AccessSealed(b: Build, s: FileState, a: Access, c: nat, was: bv8)
    requires GoodBuild(b) && Good(s) && c < TOTAL && Sealed(b, c, was, s.flash.mem[c])
    ensures Sealed(b, c, was, Do(b, s, a).flash.mem[c])
  {
    hide Do, Mask, Frames, Sealed, Landed;
    AccessDelivers(b, s, a, c);
    if a.WriteOf? && a.started {
      WriteSealed(b, s.pos, a.data, a.lost, s.flash.wel, Arrived(a.delivered, AllFrames(b, s.pos, a.data)), c,
                  was, s.flash.mem[c]);
    }
  }
}
