/** The AT24C256 driver: a cursor, byte transfers behind a two-byte address, and text in sysfs. */
module Eeprom {
  import opened Common
  import opened HexText

  const CELLS: nat := 32768

  type uint16 = x: int | 0 <= x < 65536

  /** sysfs hands over a zero-filled page, so reading past the text finds '\0'. */
  function CharAt(text: string, i: nat): char {
    if i < |text| then text[i] else '\0'
  }

  predicate Prefixed(text: string) {
    CharAt(text, 0) == '0' && (CharAt(text, 1) == 'x' || CharAt(text, 1) == 'X')
  }

  /** The w characters after the prefix. */
  function Field(text: string, w: nat): (f: string)
    ensures |f| == w
  {
    seq(w, i requires 0 <= i < w => CharAt(text, i + 2))
  }

  datatype Parse = NoPrefix | BadDigit | Value(v: nat)

  /** How a store reads its text. */
  ghost function ParseText(repaired: bool, text: string, w: nat): Parse {
    if !Prefixed(text) then NoPrefix
    else if !AllHex(Field(text, w), w) then BadDigit
    else Value(Positional(repaired, Field(text, w), w))
  }

  /** "0x", w hex digits, newline. */
  function Line(v: nat, w: nat): string {
    "0x" + Hex(v, w) + "\n"
  }

  /** What a sysfs access returns: a store's count, an error, or the text shown. */
  datatype Reply = Accepted | Invalid | Failed | Shown(text: string)

  datatype Ee = Ee(cells: seq<byte>, reg: uint16)

  ghost predicate WellFormed(e: Ee) {
    |e.cells| == CELLS
  }

  /** The address bytes on the wire: the top bit is dropped. */
  function HighByte(addr: uint16): byte {
    addr / 256 % 128
  }

  function LowByte(addr: uint16): byte {
    addr % 256
  }

  /** How the chip reads the two address bytes. */
  function Select(high: byte, low: byte): (a: nat)
    ensures a < CELLS
  {
    (high * 256 + low) % CELLS
  }

  /** The encoding loses nothing below 32768 and drops the top bit above; the high byte goes first. */
  lemma SelectEncoded(addr: uint16)
    ensures HighByte(addr) * 256 + LowByte(addr) == addr % CELLS
    ensures Select(HighByte(addr), LowByte(addr)) == addr % CELLS
  {
  }

  /** One sysfs access; ok says whether the bus transfer it makes, if any, succeeds. */
  datatype Op =
    | StoreAddr(text: string)
    | ShowAddr
    | ReadByte(ok: bool)
    | WriteByte(text: string, ok: bool)

  function Advance(reg: uint16): (r: uint16)
    ensures r < CELLS
  {
    (reg + 1) % CELLS
  }

  ghost function Do(repaired: bool, e: Ee, op: Op): (r: (Ee, Reply))
    requires WellFormed(e)
    ensures WellFormed(r.0)
  {
    match op
    case StoreAddr(text) =>
      var p := ParseText(repaired, text, 4);
      if p.Value? then (if p.v < CELLS then e.(reg := p.v) else e, Accepted)
      else (e, if p.NoPrefix? then Accepted else Invalid)
    case ShowAddr => (e, Shown(Line(e.reg, 4)))
    case ReadByte(ok) =>
      if ok then (e.(reg := Advance(e.reg)), Shown(Line(e.cells[e.reg % CELLS], 2))) else (e, Failed)
    case WriteByte(text, ok) =>
      var p := ParseText(repaired, text, 2);
      if p.NoPrefix? then (e.(reg := Advance(e.reg)), Accepted)
      else if p.BadDigit? then (e, Invalid)
      else if !ok then (e, Failed)
      else (Ee(e.cells[e.reg % CELLS := p.v % 256], Advance(e.reg)), Accepted)
  }

  /** The driver's private data, with the chip it talks to. */
  class At24c256 {
    const repaired: bool
    var regAddr: uint16
    var cells: seq<byte>

    ghost predicate Valid()
      reads this
    {
      |cells| == CELLS
    }

    ghost function View(): Ee
      reads this
    {
      Ee(cells, regAddr)
    }

    /** kmalloc leaves reg_addr as it finds it. */
    constructor (repaired: bool, garbage: uint16, cells: seq<byte>)
      requires |cells| == CELLS
      ensures Valid() && View() == Ee(cells, garbage) && this.repaired == repaired
    {
      this.repaired, regAddr, this.cells := repaired, garbage, cells;
    }

    /** i2c_transfer of one write message: two address bytes, then perhaps a byte to store. */
    method SendMessage(msg: seq<byte>, ok: bool) returns (ret: int)
      requires Valid() && 2 <= |msg| <= 3
      modifies this`cells
      ensures Valid() && (ret >= 0 <==> ok)
      ensures cells == if ok && |msg| == 3 then old(cells)[Select(msg[0], msg[1]) := msg[2]] else old(cells)
    {
      if !ok {
        return -1;
      }
      if |msg| == 3 {
        cells := cells[Select(msg[0], msg[1]) := msg[2]];
      }
      return 0;
    }

    method ByteRead(addr: uint16, ok: bool) returns (ret: int, data: byte)
      requires Valid()
      ensures ret == if ok then 0 else -1
      ensures ok ==> data == cells[addr % CELLS]
    {
      var reg := new byte[2](_ => 0);
      reg[0] := HighByte(addr);
      reg[1] := LowByte(addr);
      SelectEncoded(addr);
      if !ok {
        return -1, 0;
      }
      return 0, cells[Select(reg[0], reg[1])];
    }

    method ByteWrite(addr: uint16, data: byte, ok: bool) returns (ret: int)
      requires Valid()
      modifies this`cells
      ensures Valid() && ret == if ok then 0 else -1
      ensures cells == if ok then old(cells)[addr % CELLS := data] else old(cells)
    {
      var reg := new byte[3](_ => 0);
      reg[0] := HighByte(addr);
      reg[1] := LowByte(addr);
      reg[2] := data;
      SelectEncoded(addr);
      var sent := SendMessage(reg[..], ok);
      return if sent < 0 then -1 else 0;
    }

    method StoreRegAddr(buf: string) returns (r: Reply)
      requires Valid()
      modifies this`regAddr
      ensures Valid() && (View(), r) == Do(repaired, old(View()), StoreAddr(buf))
      ensures if !(CharAt(buf, 0) == '0' && (CharAt(buf, 1) == 'x' || CharAt(buf, 1) == 'X'))
              then r == Accepted && regAddr == old(regAddr)
              else if exists i :: 0 <= i < 4 && !IsHex(Field(buf, 4)[i]) then r == Invalid && regAddr == old(regAddr)
              else var v := Positional(repaired, Field(buf, 4), 4);
                r == Accepted && regAddr == if v < 32768 then v else old(regAddr)
    {
      if CharAt(buf, 0) == '0' && (CharAt(buf, 1) == 'x' || CharAt(buf, 1) == 'X') {
        var ret, tmpAddr := ConvertCharToHexReg(repaired, Field(buf, 4), 4);
        if ret > -1 {
          if tmpAddr < CELLS {
            regAddr := tmpAddr;
          }
        } else {
          return Invalid;
        }
      }
      return Accepted;
    }

    method ShowRegAddr() returns (r: Reply)
      requires Valid()
      ensures r == Do(repaired, View(), ShowAddr).1 == Shown("0x" + Hex(regAddr, 4) + "\n")
    {
      return Shown("0x" + Hex(regAddr, 4) + "\n");
    }

    method ShowReadByte(ok: bool) returns (r: Reply)
      requires Valid()
      modifies this`regAddr
      ensures Valid() && (View(), r) == Do(repaired, old(View()), ReadByte(ok))
      ensures if ok then r == Shown("0x" + Hex(cells[old(regAddr) % 32768], 2) + "\n")
                         && regAddr == (old(regAddr) + 1) % 32768
              else r == Failed && regAddr == old(regAddr)
    {
      var ret, data := ByteRead(regAddr, ok);
      if ret == -1 {
        return Failed;
      }
      regAddr := (regAddr + 1) % 0x8000;
      return Shown("0x" + Hex(data, 2) + "\n");
    }

    method StoreWriteByte(buf: string, ok: bool) returns (r: Reply)
      requires Valid()
      modifies this`regAddr, this`cells
      ensures Valid() && (View(), r) == Do(repaired, old(View()), WriteByte(buf, ok))
      ensures var next := (old(regAddr) + 1) % 32768;
        if !(CharAt(buf, 0) == '0' && (CharAt(buf, 1) == 'x' || CharAt(buf, 1) == 'X'))
        then r == Accepted && regAddr == next && cells == old(cells)
        else if exists i :: 0 <= i < 2 && !IsHex(Field(buf, 2)[i])
        then r == Invalid && regAddr == old(regAddr) && cells == old(cells)
        else if !ok then r == Failed && regAddr == old(regAddr) && cells == old(cells)
        else r == Accepted && regAddr == next
             && Positional(repaired, Field(buf, 2), 2) < 256
             && cells == old(cells)[old(regAddr) % 32768 := Positional(repaired, Field(buf, 2), 2)]
    {
      hide Positional, IsHex, Pow2;
      if CharAt(buf, 0) == '0' && (CharAt(buf, 1) == 'x' || CharAt(buf, 1) == 'X') {
        var ret, data := ConvertCharToHexReg(repaired, Field(buf, 2), 2);
        if ret > -1 {
          PositionalBound(repaired, Field(buf, 2), 2);
          PowSixteen();
          ret := ByteWrite(regAddr, data % 256, ok);
          if ret == -1 {
            return Failed;
          }
        } else {
          return Invalid;
        }
      }
      regAddr := (regAddr + 1) % 0x8000;
      return Accepted;
    }

    /** dummy_read_write at probe: read cell 0x0011, store 0xF9 in it, read it, store the first byte
        back. garbage is what data holds before the first read; the flags say which transfers succeed. */
    method DummyReadWrite(garbage: byte, read1: bool, write1: bool, read2: bool, write2: bool)
      requires Valid()
      modifies this`cells
      ensures Valid()
      ensures cells == old(cells)[0x11 :=
        if write2 then (if read1 then old(cells)[0x11] else garbage)
        else if write1 then 0xF9 else old(cells)[0x11]]
    {
      var reg := new byte[3](_ => 0);
      reg[0], reg[1], reg[2] := 0x00, 0x11, 0xF9;
      var data := garbage;
      if read1 {
        data := cells[Select(reg[0], reg[1])];
      }
      var dataOld := data;
      var ret := SendMessage(reg[..], write1);
      if read2 {
        data := cells[Select(reg[0], reg[1])];
      }
      reg[2] := dataOld;
      ret := SendMessage(reg[..], write2);
    }
  }
}
