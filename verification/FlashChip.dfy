/** The W25Q32 as the driver sees it over SPI: an environment assumption taken from the chip's
    Page Program, Write Enable, Read Status Register and Read Data instructions. */
module FlashChip {
  import opened Common
  import opened Modular

  const PAGE: nat := 256
  const TOTAL: nat := 4194304

  const WRITE_EN: nat := 0x06
  const PAGE_PROGRAM: nat := 0x02
  const READ_STATUS: nat := 0x05
  const READ_DATA: nat := 0x03

  /** A cell of a transmit buffer. The four header bytes of a frame are kept abstract: Header(op, a, k)
      is byte k of the word that carries opcode op and address a. */
  datatype Cell = Header(opcode: nat, addr: nat, part: nat) | Payload(b: bv8)

  /** One SPI transfer. A program frame also records how many status polls the chip stays busy for,
      which the chip decides. Lost is a transfer that failed and never reached the chip. */
  datatype Transfer =
    | Status
    | Instruction(opcode: nat)
    | Program(cells: seq<Cell>, busyFor: nat)
    | ReadData(addr: nat, count: nat)
    | Lost(opcode: nat)

  /** busy is the number of further status polls that will still report BUSY. */
  datatype Chip = Chip(mem: seq<bv8>, busy: nat, wel: bool)

  datatype Frame = Frame(addr: nat, payload: seq<bv8>)

  function HeaderCells(opcode: nat, addr: nat): (h: seq<Cell>)
    ensures |h| == 4
  {
    [Header(opcode, addr, 0), Header(opcode, addr, 1), Header(opcode, addr, 2), Header(opcode, addr, 3)]
  }

  function PayloadCells(data: seq<bv8>): (cells: seq<Cell>) {
    seq(|data|, i requires 0 <= i < |data| => Payload(data[i]))
  }

  function Encode(f: Frame): seq<Cell> {
    HeaderCells(PAGE_PROGRAM, f.addr) + PayloadCells(f.payload)
  }

  /** What the chip makes of the cells it receives; anything that is not one header followed by data
      bytes is no page program. */
  function Decode(cells: seq<Cell>): Option<Frame> {
    if |cells| >= 4 && cells[0].Header? && cells[..4] == HeaderCells(PAGE_PROGRAM, cells[0].addr)
       && forall i :: 4 <= i < |cells| ==> cells[i].Payload?
    then Some(Frame(cells[0].addr,
                    seq(|cells| - 4, i requires 0 <= i < |cells| - 4 && cells[i + 4].Payload? => cells[i + 4].b)))
    else None
  }

  lemma DecodeEncode(f: Frame)
    ensures Decode(Encode(f)) == Some(f)
  {
    var cells := Encode(f);
    assert cells[..4] == HeaderCells(PAGE_PROGRAM, f.addr);
    assert Decode(cells).value.payload == f.payload;
  }

  /** Offset of an address in its page. */
  function Offset(a: nat): (o: nat)
    ensures o < PAGE
  {
    Mask(PAGE, a)
  }

  /** Where byte i of a page program at addr goes: the address wraps inside its 256-byte page. */
  function InPage(addr: nat, i: nat): int {
    addr - Offset(addr) + Offset(Offset(addr) + i)
  }

  lemma OffsetBelow(a: nat)
    ensures Offset(a) <= a
    decreases a
  {
  }

  lemma InPageStaysOnChip(addr: nat, i: nat)
    requires addr < TOTAL
    ensures 0 <= InPage(addr, i) < TOTAL
  {
    OffsetBelow(addr);
    RoundUp(addr, TOTAL / PAGE);
  }

  /** The page of an address below a page boundary ends by that boundary. */
  lemma {:induction false} RoundUp(x: nat, m: nat)
    requires x < PAGE * m
    ensures x + PAGE - Offset(x) <= PAGE * m
    decreases m
  {
    if x >= PAGE {
      RoundUp(x - PAGE, m - 1);
    }
  }

  /** The first k bytes of a page program. Programming can only clear bits, so each byte is ANDed into
      its cell. */
  function ProgramFirst(mem: seq<bv8>, addr: nat, data: seq<bv8>, k: nat): (r: seq<bv8>)
    requires addr < |mem| == TOTAL && k <= |data|
    ensures |r| == |mem|
  {
    if k == 0 then mem
    else
      InPageStaysOnChip(addr, k - 1);
      var m, a := ProgramFirst(mem, addr, data, k - 1), InPage(addr, k - 1);
      m[a := m[a] & data[k - 1]]
  }

  function ProgramPage(mem: seq<bv8>, addr: nat, data: seq<bv8>): (r: seq<bv8>)
    requires addr < |mem| == TOTAL
    ensures |r| == |mem|
  {
    ProgramFirst(mem, addr, data, |data|)
  }

  ghost predicate WellFormed(c: Chip) {
    |c.mem| == TOTAL
  }

  /** The chip ignores Write Enable and Page Program while BUSY, and Page Program while WEL is clear. */
  function Step(c: Chip, t: Transfer): (r: Chip)
    requires WellFormed(c)
    ensures WellFormed(r)
  {
    match t
    case Status => c.(busy := if c.busy > 0 then c.busy - 1 else 0)
    case Instruction(op) => if op == WRITE_EN && c.busy == 0 then c.(wel := true) else c
    case Program(cells, busyFor) =>
      var d := Decode(cells);
      if c.busy == 0 && c.wel && d.Some? && d.value.addr < TOTAL && d.value.payload != []
      then Chip(ProgramPage(c.mem, d.value.addr, d.value.payload), busyFor, false)
      else c
    case ReadData(_, _) => c
    case Lost(_) => c
  }

  /** Sequential read: the address counter runs through the whole memory. */
  function ReadBytes(mem: seq<bv8>, addr: nat, count: nat): (r: seq<bv8>)
    requires |mem| == TOTAL
    ensures |r| == count
  {
    seq(count, i requires 0 <= i < count => mem[Mask(TOTAL, addr + i)])
  }

  /** The data bytes the chip sends back during a transfer. */
  function Answer(c: Chip, t: Transfer): seq<bv8>
    requires WellFormed(c)
  {
    match t
    case ReadData(addr, count) => ReadBytes(c.mem, addr, count)
    case _ => []
  }

  /** All transfers so far, latest last. */
  datatype Log = Silent | Entry(before: Log, last: Transfer)

  function Replay(c: Chip, log: Log): (r: Chip)
    requires WellFormed(c)
    ensures WellFormed(r)
  {
    match log
    case Silent => c
    case Entry(before, t) => Step(Replay(c, before), t)
  }

  /** What the driver owes the chip for transfer t sent after the log: a page program directly follows
      its own Write Enable, which directly follows a status poll, and it finds BUSY clear, and WEL set unless
      that Write Enable was lost on the way; a read directly follows a status poll and finds BUSY clear; no
      instruction is sent to a busy chip. */
  ghost predicate Obeys(c: Chip, log: Log, t: Transfer)
    requires WellFormed(c)
  {
    match t
    case Status => true
    case Instruction(_) => Replay(c, log).busy == 0
    case Program(_, _) =>
      && log.Entry? && (log.last == Lost(WRITE_EN) || (log.last == Instruction(WRITE_EN) && Replay(c, log).wel))
      && log.before.Entry? && log.before.last == Status
      && Replay(c, log).busy == 0
    case ReadData(_, _) => log.Entry? && log.last == Status && Replay(c, log).busy == 0
    case Lost(_) => true
  }

  /** The handshake was kept by every transfer of the log. */
  ghost predicate Handshake(c: Chip, log: Log)
    requires WellFormed(c)
  {
    log.Entry? ==> Handshake(c, log.before) && Obeys(c, log.before, log.last)
  }

  /** at is log, or log as it was at an earlier time. */
  ghost predicate Within(at: Log, log: Log) {
    at == log || (log.Entry? && Within(at, log.before))
  }

  /** A log that keeps the handshake kept it at every earlier time. */
  lemma {:induction false} AlwaysObeyed(c: Chip, log: Log, at: Log)
    requires WellFormed(c) && Handshake(c, log) && Within(at, log) && at.Entry?
    ensures Handshake(c, at) && Obeys(c, at.before, at.last)
  {
    if at != log {
      AlwaysObeyed(c, log.before, at);
    }
  }

  /** Under the handshake the chip carries out a page program it is sent, wherever in the log, exactly when
      WEL is set; so always when its own Write Enable got through. */
  lemma {:induction false} CarriedOutExact(c: Chip, log: Log, at: Log, f: Frame)
    requires WellFormed(c) && Handshake(c, log) && Within(at, log)
    requires at.Entry? && at.last.Program? && at.last.cells == Encode(f) && f.addr < TOTAL
    ensures Replay(c, at).mem
         == if Replay(c, at.before).wel then ProgramPage(Replay(c, at.before).mem, f.addr, f.payload)
            else Replay(c, at.before).mem
    ensures at.before.Entry? && (at.before.last == Instruction(WRITE_EN) ==> Replay(c, at.before).wel)
  {
    AlwaysObeyed(c, log, at);
    DecodeEncode(f);
  }

  /** The raw page-program frames of a log, in order. */
  ghost function ProgramCells(log: Log): seq<seq<Cell>> {
    match log
    case Silent => []
    case Entry(before, t) => if t.Program? then ProgramCells(before) + [t.cells] else ProgramCells(before)
  }

  /** log is before, followed by n answered status polls and any number of lost ones. */
  ghost predicate Polled(before: Log, log: Log, n: nat) {
    || (log == before && n == 0)
    || (log.Entry? && log.last == Lost(READ_STATUS) && Polled(before, log.before, n))
    || (log.Entry? && log.last == Status && n > 0 && Polled(before, log.before, n - 1))
  }

  lemma {:induction false} PollsSendNoFrame(before: Log, log: Log, n: nat)
    requires Polled(before, log, n)
    ensures ProgramCells(log) == ProgramCells(before)
    decreases log
  {
    if log == before && n == 0 {
    } else if log.last == Lost(READ_STATUS) {
      PollsSendNoFrame(before, log.before, n);
    } else {
      PollsSendNoFrame(before, log.before, n - 1);
    }
  }
}
