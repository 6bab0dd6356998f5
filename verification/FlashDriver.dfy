/** The flash driver's file operations on an open file, over the assumed chip. */
module FlashDriver {
  import opened Common
  import opened FlashChip
  import opened FlashSplit
  import opened FlashRuns
  import opened FlashTheorems
  import opened Modular

  datatype Errno = EINVAL | ENOMEM | EFAULT

  datatype Outcome = Done(value: nat) | Fail(errno: Errno)

  /** The buffer is ready to send d from idx on: a header for addr, then every byte of d from idx. */
  ghost predicate TxReady(tx: seq<Cell>, d: seq<bv8>, idx: nat, addr: nat) {
    && |tx| == |d| + 4 && idx <= |d|
    && tx[idx..idx + 4] == HeaderCells(PAGE_PROGRAM, addr)
    && forall j :: idx <= j < |d| ==> tx[j + 4] == Payload(d[j])
  }

  lemma ReadySlice(tx: seq<Cell>, d: seq<bv8>, idx: nat, addr: nat, len: nat)
    requires TxReady(tx, d, idx, addr) && idx + len <= |d|
    ensures tx[idx..idx + len + 4] == Encode(Frame(addr, d[idx..idx + len]))
  {
  }

  /** Laying the next header over sent bytes keeps every byte that is still to be sent. */
  lemma NextReady(tx: seq<Cell>, tx': seq<Cell>, d: seq<bv8>, idx: nat, addr: nat, at: nat, addr': nat)
    requires TxReady(tx, d, idx, addr) && idx <= at <= |d|
    requires tx' == tx[..at] + HeaderCells(PAGE_PROGRAM, addr') + tx[at + 4..]
    ensures TxReady(tx', d, at, addr')
  {
  }

  /** tmp_index, tmp_addr, tmp_count and offset of the write loop. */
  datatype LoopVars = LoopVars(index: nat, addr: nat, left: nat, offset: nat)

  /** Their values before frame k. */
  function LoopAt(b: Build, pos: nat, d: seq<bv8>, k: nat): (v: LoopVars)
    requires b.window > 0 && k < |Frames(b, pos, d)|
  {
    SpannedExact(Offset(pos), |d|, k);
    LoopVars(PayloadStart(b, Offset(pos), k), Mask(b.window, pos + Sent(Offset(pos), k)),
             |d| - Sent(Offset(pos), k), if k == 0 then Offset(pos) else 0)
  }

  function ChunkOf(v: LoopVars): (len: nat)
    requires v.offset < PAGE
    ensures len <= v.left
  {
    if v.offset + v.left > PAGE then PAGE - v.offset else v.left
  }

  lemma LoopStart(b: Build, pos: nat, d: seq<bv8>)
    requires GoodBuild(b)
    ensures LoopAt(b, pos, d, 0) == LoopVars(0, Mask(b.window, pos), |d|, Offset(Mask(b.window, pos)))
  {
    MaskKeepsOffset(PAGE, b.window, pos);
  }

  lemma LoopBounds(b: Build, pos: nat, d: seq<bv8>, k: nat)
    requires GoodBuild(b) && k < |Frames(b, pos, d)|
    ensures var v := LoopAt(b, pos, d, k);
      && v.offset < PAGE
      && v.index + ChunkOf(v) <= |d|
      && (v.offset + v.left > PAGE <==> k + 1 < |Frames(b, pos, d)|)
  {
  }

  /** The slice of txbuff the loop sends is exactly frame k. */
  lemma SliceIsFrame(b: Build, pos: nat, d: seq<bv8>, k: nat, tx: seq<Cell>)
    requires GoodBuild(b) && k < |Frames(b, pos, d)|
    requires TxReady(tx, d, LoopAt(b, pos, d, k).index, LoopAt(b, pos, d, k).addr)
    ensures var v := LoopAt(b, pos, d, k);
      && v.offset < PAGE && v.index + ChunkOf(v) <= |d|
      && tx[v.index..v.index + ChunkOf(v) + 4] == Encode(Frames(b, pos, d)[k])
  {
    var v := LoopAt(b, pos, d, k);
    LoopBounds(b, pos, d, k);
    ReadySlice(tx, d, v.index, v.addr, ChunkOf(v));
    SpannedExact(Offset(pos), |d|, k);
    SpannedExact(Offset(pos), |d|, k + 1);
    assert ChunkOf(v) == ChunkLen(Offset(pos), |d|, k);
    assert Frames(b, pos, d)[k] == Frame(v.addr, d[v.index..v.index + ChunkOf(v)]);
  }

  /** tmp_index for the next frame: the shipped code takes roll_count, the repaired one accumulates. */
  function NextIndex(b: Build, v: LoopVars): nat
    requires v.offset < PAGE
  {
    if b.repaired then v.index + ChunkOf(v) else ChunkOf(v)
  }

  lemma LoopNext(b: Build, pos: nat, d: seq<bv8>, k: nat)
    requires GoodBuild(b) && k + 1 < |Frames(b, pos, d)|
    ensures var v := LoopAt(b, pos, d, k);
      && v.offset < PAGE && v.index <= NextIndex(b, v) <= |d|
      && LoopAt(b, pos, d, k + 1)
         == LoopVars(NextIndex(b, v), Mask(b.window, v.addr + ChunkOf(v)), v.left - ChunkOf(v), 0)
  {
    hide Frames, Mask, Offset;
    LoopBounds(b, pos, d, k);
    SpannedExact(Offset(pos), |d|, k);
    SpannedExact(Offset(pos), |d|, k + 1);
    MaskAdd(b.window, pos + Sent(Offset(pos), k), ChunkOf(LoopAt(b, pos, d, k)));
  }

  lemma LoopEnd(b: Build, pos: nat, d: seq<bv8>, k: nat)
    requires GoodBuild(b) && k < |Frames(b, pos, d)|
    ensures var v := LoopAt(b, pos, d, k);
      Mask(b.window, v.addr + v.left) == Mask(b.window, Mask(b.window, pos) + |d|)
  {
    hide Mask, Offset, Frames;
    SpannedExact(Offset(pos), |d|, k);
    var v := LoopAt(b, pos, d, k);
    MaskAdd(b.window, pos + Sent(Offset(pos), k), v.left);
    MaskAdd(b.window, pos, |d|);
  }

  /** The raw cells of the first k frames. */
  function FirstCells(fs: seq<Frame>, k: nat): (cells: seq<seq<Cell>>)
    requires k <= |fs|
    ensures |cells| == k
    ensures forall i :: 0 <= i < k ==> cells[i] == Encode(fs[i])
  {
    if k == 0 then [] else FirstCells(fs, k - 1) + [Encode(fs[k - 1])]
  }

  lemma NoneSent(m: Flash, fs: seq<Frame>, lost: set<nat>, cells: seq<seq<Cell>>)
    requires |m.mem| == TOTAL
    ensures AfterPasses(m, fs, lost, 0) == m && cells + FirstCells(fs, 0) == cells
  {
  }

  class FlashFile {
    const build: Build
    ghost const chip0: Chip
    /** filp->f_pos */
    var pos: nat
    /** The chip at the other end of the bus, and all that was sent to it. */
    var chip: Chip
    ghost var wire: Log

    ghost predicate Valid()
      reads this
    {
      && GoodBuild(build) && pos < TOTAL
      && WellFormed(chip0) && chip == Replay(chip0, wire)
      && Handshake(chip0, wire)
    }

    ghost function View(): FileState
      reads this
    {
      FileState(pos, State())
    }

    ghost function State(): Flash
      reads this
    {
      Flash(chip.mem, chip.wel)
    }

    constructor (build: Build, chip: Chip)
      requires GoodBuild(build) && WellFormed(chip)
      ensures Valid() && pos == 0 && this.build == build && this.chip == chip && wire == Silent
    {
      this.build := build;
      chip0 := chip;
      pos := 0;
      this.chip := chip;
      wire := Silent;
    }

    method Llseek(offset: int, whence: Whence) returns (r: Outcome)
      requires Valid()
      modifies this`pos
      ensures Valid() && View() == Do(build, old(View()), SeekTo(offset, whence))
      ensures var target := SeekTarget(TOTAL, old(pos), offset, whence);
        if target.Some? then r == Done(target.value) && pos == target.value
        else r == Fail(EINVAL) && pos == old(pos)
    {
      match whence {
        case Set =>
          if offset > TOTAL - 1 || offset < 0 {
            return Fail(EINVAL);
          }
          pos := offset;
        case Cur =>
          var temp := pos + offset;
          if temp > TOTAL - 1 || temp < 0 {
            return Fail(EINVAL);
          }
          pos := temp;
        case End =>
          var temp := TOTAL - 1 + offset;
          if temp > TOTAL - 1 || temp < 0 {
            return Fail(EINVAL);
          }
          pos := temp;
        case Other =>
          return Fail(EINVAL);
      }
      return Done(pos);
    }

    method Send(t: Transfer) returns (rx: seq<bv8>)
      requires Valid() && Obeys(chip0, wire, t)
      modifies this`chip, this`wire
      ensures Valid() && chip == Step(old(chip), t) && wire == Entry(old(wire), t)
      ensures rx == Answer(old(chip), t)
    {
      rx := Answer(chip, t);
      chip := Step(chip, t);
      wire := Entry(wire, t);
    }

    /** One status transfer. A failing one leaves busy as it was. */
    method ReadStatus(busy: int, answered: bool) returns (busy': int)
      requires Valid()
      modifies this`chip, this`wire
      ensures Valid()
      ensures if answered then
                && wire == Entry(old(wire), Status)
                && busy' == (if old(chip).busy > 0 then 1 else 0)
                && chip == old(chip).(busy := old(chip).busy - busy')
              else wire == Entry(old(wire), Lost(READ_STATUS)) && busy' == busy && chip == old(chip)
    {
      if !answered {
        var _ := Send(Lost(READ_STATUS));
        return busy;
      }
      busy' := if chip.busy > 0 then 1 else 0;
      var _ := Send(Status);
    }

    /** w25q32_check_busy: polls until the chip reports idle. Any number of the transfers may fail, at any
        points, as long as that number is finite. */
    method CheckBusy()
      requires Valid()
      modifies this`chip, this`wire
      ensures Valid()
      ensures chip == old(chip).(busy := 0)
      ensures wire.Entry? && wire.last == Status && Polled(old(wire), wire, old(chip).busy + 1)
    {
      ghost var n := 0;
      var failures: nat := *;
      var busy := 1;
      while busy == 1
        invariant Valid() && 0 <= busy <= 1
        invariant n == old(chip).busy - chip.busy + 1 - busy
        invariant chip == old(chip).(busy := chip.busy)
        invariant busy == 0 ==> chip.busy == 0 && wire.Entry? && wire.last == Status
        invariant Polled(old(wire), wire, n)
        decreases busy, chip.busy, failures
      {
        var fails: bool := *;
        if fails && failures > 0 {
          busy := ReadStatus(busy, false);
          failures := failures - 1;
        } else {
          busy := ReadStatus(busy, true);
          n := n + 1;
        }
      }
    }

    /** w25q32_write_instruction: whether or not the transfer gets through, the caller is told nothing. */
    method WriteInstruction(instruction: nat, delivered: bool)
      requires Valid() && chip.busy == 0
      modifies this`chip, this`wire
      ensures Valid()
      ensures var t := if delivered then Instruction(instruction) else Lost(instruction);
        chip == Step(old(chip), t) && wire == Entry(old(wire), t)
    {
      if delivered {
        var _ := Send(Instruction(instruction));
      } else {
        var _ := Send(Lost(instruction));
      }
    }

    /** The triple the write loop runs for every frame. enabled says whether the Write Enable gets through,
        delivered whether the frame itself does. */
    method ProgramFrame(cells: seq<Cell>, enabled: bool, delivered: bool) returns (ret: int)
      requires Valid()
      modifies this`chip, this`wire
      ensures Valid()
      ensures ret == 0 <==> delivered
      ensures delivered ==> ProgramCells(wire) == ProgramCells(old(wire)) + [cells]
      ensures forall f :: delivered && cells == Encode(f) && f.addr < TOTAL ==>
                State() == Programmed(Armed(old(State()), enabled), f)
      ensures !delivered ==> State() == Armed(old(State()), enabled) && ProgramCells(wire) == ProgramCells(old(wire))
    {
      CheckBusy();
      PollsSendNoFrame(old(wire), wire, old(chip).busy + 1);
      WriteInstruction(WRITE_EN, enabled);
      if !delivered {
        var _ := Send(Lost(PAGE_PROGRAM));
        return -1;
      }
      var busyFor: nat := *;
      forall f | cells == Encode(f) ensures Decode(cells) == Some(f) {
        DecodeEncode(f);
      }
      var _ := Send(Program(cells, busyFor));
      return 0;
    }

    /** The bus half of driver_read: wait until idle, then one read command. */
    method ReadChip(caddr: nat, count: nat, delivered: bool) returns (ret: int, rxbuff: seq<bv8>)
      requires Valid()
      modifies this`chip, this`wire
      ensures Valid()
      ensures ret == 0 <==> delivered
      ensures State() == old(State()) && ProgramCells(wire) == ProgramCells(old(wire))
      ensures delivered ==> wire.Entry? && wire.last == ReadData(caddr, count)
      ensures delivered ==> rxbuff == ReadBytes(old(chip).mem, caddr, count)
    {
      CheckBusy();
      PollsSendNoFrame(old(wire), wire, old(chip).busy + 1);
      if !delivered {
        var _ := Send(Lost(READ_DATA));
        return -1, [];
      }
      ret := 0;
      rxbuff := Send(ReadData(caddr, count));
    }

    /** driver_read. noMem, spiFails and copyFails say how the kernel calls it makes turn out. */
    method Read(count: nat, noMem: bool, spiFails: bool, copyFails: bool)
      returns (r: Outcome, data: seq<bv8>)
      requires Valid()
      modifies this`pos, this`chip, this`wire
      ensures Valid() && View() == Do(build, old(View()), ReadOf(count, !noMem && !spiFails && !copyFails))
      ensures ProgramCells(wire) == ProgramCells(old(wire))
      ensures if noMem then r == Fail(ENOMEM)
              else if spiFails || copyFails then r == Fail(EFAULT)
              else r == Done(|data|) && data == ReadBack(build, old(chip).mem, old(pos), count)
      ensures State() == old(State())
      ensures r.Done? ==> wire.Entry? && wire.last == ReadData(Mask(build.window, old(pos)), Clamp(old(pos), count))
      ensures pos == if r.Fail? then old(pos)
                     else if build.repaired then old(pos) + |data| else Mask(build.window, old(pos)) + |data|
    {
      hide Mask, Replay, Handshake, ProgramCells, ReadBytes;
      var caddr := Mask(build.window, pos);
      var tmpCount := count;
      if count + pos >= TOTAL {
        tmpCount := TOTAL - pos - 1;
      }
      if noMem {
        return Fail(ENOMEM), [];
      }
      var ret, rxbuff := ReadChip(caddr, tmpCount, !spiFails);
      if ret != 0 {
        return Fail(EFAULT), [];
      }
      if copyFails {
        return Fail(EFAULT), [];
      }
      AdvanceStaysOnChip(build, pos, tmpCount);
      pos := if build.repaired then pos + tmpCount else Mask(build.window, pos) + tmpCount;
      return Done(tmpCount), rxbuff;
    }

    /** The do-while loop of driver_write, entered with the first header and the user's bytes d in
        txbuff. The first delivered frames reach the chip; the next spi_write, if any, fails. In the passes
        in lost the Write Enable fails, which the loop does not see. */
    method SendFrames(txbuff: array<Cell>, ghost d: seq<bv8>, count: nat, delivered: nat, lost: set<nat>)
      returns (ret: int, endAddr: nat)
      requires Valid() && count == |d| && pos + count < TOTAL
      requires TxReady(txbuff[..], d, 0, Mask(build.window, pos))
      modifies this`chip, this`wire, txbuff
      ensures Valid()
      ensures var fs := Frames(build, pos, d);
        && (ret == 0 <==> delivered >= |fs|)
        && State() == AfterWrite(old(State()), fs, lost, delivered)
        && ProgramCells(wire) == ProgramCells(old(wire)) + FirstCells(fs, Arrived(delivered, fs))
      ensures ret == 0 ==> endAddr == Mask(build.window, Mask(build.window, pos) + count)
    {
      hide Mask, Frames, LoopAt, AfterPasses, FirstCells, Replay, Handshake, ProgramCells, TxReady;
      ghost var fs := Frames(build, pos, d);
      NoneSent(State(), fs, lost, ProgramCells(wire));
      var v := LoopVars(0, Mask(build.window, pos), count, Offset(Mask(build.window, pos)));
      LoopStart(build, pos, d);
      var k := 0;  // frames sent, so that the bus fails at the right one
      while true
        invariant Valid() && k < |fs| && k <= delivered
        invariant v == LoopAt(build, pos, d, k)
        invariant TxReady(txbuff[..], d, v.index, v.addr)
        invariant State() == AfterPasses(old(State()), fs, lost, k)
        invariant ProgramCells(wire) == ProgramCells(old(wire)) + FirstCells(fs, k)
        decreases |fs| - k
      {
        LoopBounds(build, pos, d, k);
        ret := SendFrame(txbuff, d, v, k, lost, k < delivered, old(State()), ProgramCells(old(wire)));
        if ret != 0 {
          return ret, v.addr;
        }
        k := k + 1;
        if v.offset + v.left <= PAGE {
          LoopEnd(build, pos, d, k - 1);
          return 0, Mask(build.window, v.addr + v.left);
        }
        LoopNext(build, pos, d, k - 1);
        v := NextChunk(txbuff, d, v);
      }
    }

    /** One pass of the loop up to the error check: frame k goes out as the slice at tmp_index. */
    method SendFrame(txbuff: array<Cell>, ghost d: seq<bv8>, v: LoopVars, k: nat, lost: set<nat>, delivered: bool,
                     ghost m0: Flash, ghost cells0: seq<seq<Cell>>) returns (ret: int)
      requires Valid() && k < |Frames(build, pos, d)| && |m0.mem| == TOTAL
      requires v == LoopAt(build, pos, d, k) && TxReady(txbuff[..], d, v.index, v.addr)
      requires State() == AfterPasses(m0, Frames(build, pos, d), lost, k)
      requires ProgramCells(wire) == cells0 + FirstCells(Frames(build, pos, d), k)
      modifies this`chip, this`wire
      ensures Valid()
      ensures ret == 0 <==> delivered
      ensures var fs := Frames(build, pos, d);
        && State() == (if delivered then AfterPasses(m0, fs, lost, k + 1)
                       else Armed(AfterPasses(m0, fs, lost, k), k !in lost))
        && ProgramCells(wire) == cells0 + FirstCells(fs, if delivered then k + 1 else k)
    {
      hide Mask, Offset, Frames, LoopAt, Encode, Programmed, Armed, Replay, Handshake, ProgramCells;
      ghost var fs := Frames(build, pos, d);
      LoopBounds(build, pos, d, k);
      SliceIsFrame(build, pos, d, k, txbuff[..]);
      FrameStaysInPage(build, pos, d, k);
      assert txbuff[v.index..v.index + ChunkOf(v) + 4] == txbuff[..][v.index..v.index + ChunkOf(v) + 4];
      ret := ProgramFrame(txbuff[v.index..v.index + ChunkOf(v) + 4], k !in lost, delivered);
      assert cells0 + FirstCells(fs, k + 1) == cells0 + FirstCells(fs, k) + [Encode(fs[k])];
    }

    /** The tail of the roll-over branch: lay the next header and move tmp_index, tmp_addr, tmp_count
        and offset on. */
    method NextChunk(txbuff: array<Cell>, ghost d: seq<bv8>, v: LoopVars) returns (v': LoopVars)
      requires GoodBuild(build) && v.offset < PAGE && v.offset + v.left > PAGE
      requires TxReady(txbuff[..], d, v.index, v.addr) && v.index <= NextIndex(build, v) <= |d|
      modifies txbuff
      ensures v' == LoopVars(NextIndex(build, v), Mask(build.window, v.addr + ChunkOf(v)), v.left - ChunkOf(v), 0)
      ensures TxReady(txbuff[..], d, v'.index, v'.addr)
    {
      var rollCount := PAGE - v.offset;
      var tmpAddr := Mask(build.window, v.addr + rollCount);
      var at := if build.repaired then v.index + rollCount else rollCount;
      ghost var tx := txbuff[..];
      PutHeader(txbuff, at, tmpAddr);
      NextReady(tx, txbuff[..], d, v.index, v.addr, at, tmpAddr);
      return LoopVars(at, tmpAddr, v.left - rollCount, 0);
    }

    /** driver_write of the user's bytes. noMem and copyFails say how kzalloc and copy_from_user turn
        out, delivered how many frames get through before spi_write fails, lost in which passes the Write
        Enable does not. */
    method Write(buf: seq<bv8>, noMem: bool, copyFails: bool, delivered: nat, lost: set<nat>) returns (r: Outcome)
      requires Valid()
      modifies this`pos, this`chip, this`wire
      ensures Valid()
      ensures View() == Do(build, old(View()), WriteOf(buf, !noMem && !copyFails, delivered, lost))
      ensures var fs := AllFrames(build, old(pos), buf);
        var started := !noMem && !copyFails;
        && ProgramCells(wire)
           == ProgramCells(old(wire)) + (if started then FirstCells(fs, Arrived(delivered, fs)) else [])
        && (if noMem then r == Fail(ENOMEM)
            else if copyFails || delivered < |fs| then r == Fail(EFAULT)
            else r == Done(Clamp(old(pos), |buf|)))
        && (r.Done? && lost == {} ==> chip.mem == Written(build, old(chip).mem, old(pos), buf))
        && (!started ==> State() == old(State()))
      ensures var n, start := Clamp(old(pos), |buf|), Mask(build.window, old(pos));
        pos == if r.Fail? then old(pos)
               else if build.repaired then old(pos) + n else start + Mask(build.window, start + n)
    {
      hide Mask, Frames, ApplyFirst, AfterPasses, FirstCells, Replay, Handshake, ProgramCells, TxReady;
      var count := |buf|;
      if count + pos >= TOTAL {
        count := TOTAL - pos - 1;
      }
      if noMem {
        return Fail(ENOMEM);
      }
      if copyFails {
        return Fail(EFAULT);
      }
      var txbuff := LoadBuffer(buf[..count], Mask(build.window, pos));
      var ret, endAddr := SendFrames(txbuff, buf[..count], count, delivered, lost);
      if ret != 0 {
        return Fail(EFAULT);
      }
      if lost == {} {
        CarriedAll(build, pos, buf[..count], old(State()), lost, |AllFrames(build, pos, buf)|);
      }
      AdvanceStaysOnChip(build, pos, count);
      pos := if build.repaired then pos + count else Mask(build.window, pos) + endAddr;
      return Done(count);
    }
  }

  /** Every transfer a driver in use has ever sent kept the handshake at its time: each page program directly
      followed its own Write Enable and found BUSY clear, and WEL set unless that Write Enable was lost; each
      read found BUSY clear. */
  lemma {:induction false} WireObeyed(file: FlashFile, at: Log)
    requires file.Valid() && Within(at, file.wire) && at.Entry?
    ensures Obeys(file.chip0, at.before, at.last)
  {
    AlwaysObeyed(file.chip0, file.wire, at);
  }

  /** The driver's calls as a user makes them: write over erased cells, seek back, read as much. The bytes
      come back through the frames, the handshake and the bus; RoundTripExact says that no other start and
      length would do. */
  method WriteSeekRead(file: FlashFile, buf: seq<bv8>) returns (written: Outcome, data: seq<bv8>)
    requires file.Valid()
    requires var n := Clamp(file.pos, |buf|);
      Mask(file.build.window, file.pos) + n <= file.build.window
      && (file.build.repaired || Offset(file.pos) + n <= 2 * PAGE)
    requires Erased(file.chip.mem, Mask(file.build.window, file.pos), Clamp(file.pos, |buf|))
    modifies file`pos, file`chip, file`wire
    ensures file.Valid() && written == Done(|data|) && data == buf[..Clamp(old(file.pos), |buf|)]
    ensures file.pos == PosAfterRead(file.build, old(file.pos), |data|)
  {
    hide Mask, AllFrames, AfterWrite, Written, ReadBack, PosAfterRead, PosAfterWrite, Handshake, Replay;
    var start := file.pos;
    ghost var mem := file.chip.mem;
    written := file.Write(buf, false, false, |AllFrames(file.build, start, buf)|, {});
    var back := file.Llseek(start, Set);
    var got;
    got, data := file.Read(|buf|, false, false, false);
    RoundTripHolds(file.build, mem, start, buf);
  }

  /** kzalloc, the first header, and copy_from_user. */
  method LoadBuffer(d: seq<bv8>, addr: nat) returns (tx: array<Cell>)
    ensures fresh(tx) && TxReady(tx[..], d, 0, addr)
  {
    tx := new Cell[|d| + 4](_ => Payload(0));
    PutHeader(tx, 0, addr);
    forall j | 0 <= j < |d| {
      tx[j + 4] := Payload(d[j]);
    }
  }

  method PutHeader(tx: array<Cell>, at: nat, addr: nat)
    requires at + 4 <= tx.Length
    modifies tx
    ensures tx[..] == old(tx[..])[..at] + HeaderCells(PAGE_PROGRAM, addr) + old(tx[..])[at + 4..]
  {
    tx[at] := Header(PAGE_PROGRAM, addr, 0);
    tx[at + 1] := Header(PAGE_PROGRAM, addr, 1);
    tx[at + 2] := Header(PAGE_PROGRAM, addr, 2);
    tx[at + 3] := Header(PAGE_PROGRAM, addr, 3);
  }
}
