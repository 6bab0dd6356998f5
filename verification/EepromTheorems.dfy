/** Whole runs of sysfs accesses against the EEPROM. */
module EepromTheorems {
  import opened Common
  import opened HexText
  import opened Eeprom

  /** Accesses so far, latest last. */
  datatype Run = Start | Then(before: Run, op: Op)

  ghost function After(repaired: bool, e: Ee, run: Run): (r: Ee)
    requires WellFormed(e)
    ensures WellFormed(r)
  {
    match run
    case Start => e
    case Then(before, op) => Do(repaired, After(repaired, e, before), op).0
  }

  // ----- What the accesses say they do, without running the driver -----

  /** The address an access sets the cursor to. */
  ghost function SetsCursor(repaired: bool, op: Op): (a: Option<nat>)
    ensures a.Some? ==> a.value < CELLS
  {
    if op.StoreAddr? then
      var p := ParseText(repaired, op.text, 4);
      if p.Value? && p.v < CELLS then Some(p.v) else None
    else None
  }

  /** The byte an access stores. */
  ghost function StoresByte(repaired: bool, op: Op): Option<byte> {
    if op.WriteByte? && op.ok then
      var p := ParseText(repaired, op.text, 2);
      if p.Value? then Some(p.v % 256) else None
    else None
  }

  /** Successful reads and writes advance the cursor, and so does a write without the 0x prefix, which
      transfers nothing. */
  ghost predicate Advances(repaired: bool, op: Op) {
    || (op.ReadByte? && op.ok)
    || StoresByte(repaired, op).Some?
    || (op.WriteByte? && !Prefixed(op.text))
  }

  /** The last address accepted, or what reg_addr held at probe. */
  ghost function LastAddress(repaired: bool, start: nat, run: Run): nat {
    match run
    case Start => start
    case Then(before, op) =>
      var a := SetsCursor(repaired, op);
      if a.Some? then a.value else LastAddress(repaired, start, before)
  }

  /** Advancing accesses since then. */
  ghost function AdvancesSince(repaired: bool, run: Run): nat {
    match run
    case Start => 0
    case Then(before, op) =>
      if SetsCursor(repaired, op).Some? then 0
      else AdvancesSince(repaired, before) + if Advances(repaired, op) then 1 else 0
  }

  ghost function Cursor(repaired: bool, start: nat, run: Run): (c: nat)
    ensures c < CELLS
  {
    (LastAddress(repaired, start, run) + AdvancesSince(repaired, run)) % CELLS
  }

  /** The last byte the run stored in cell a, if any. */
  ghost function LastStored(repaired: bool, start: nat, run: Run, a: nat): Option<byte> {
    match run
    case Start => None
    case Then(before, op) =>
      var b := StoresByte(repaired, op);
      if b.Some? && Cursor(repaired, start, before) == a then b else LastStored(repaired, start, before, a)
  }

  lemma AdvanceFrom(reg: uint16, x: nat)
    requires reg % CELLS == x % CELLS
    ensures Advance(reg) % CELLS == (x + 1) % CELLS
  {
  }

  lemma {:induction false} CursorRefines(repaired: bool, e: Ee, run: Run)
    requires WellFormed(e)
    ensures After(repaired, e, run).reg % CELLS == Cursor(repaired, e.reg, run)
    ensures e.reg < CELLS ==> After(repaired, e, run).reg < CELLS
  {
    hide Do, ParseText, SetsCursor, Advances, Advance;
    if run.Then? {
      CursorRefines(repaired, e, run.before);
      var before := After(repaired, e, run.before);
      AdvanceFrom(before.reg, LastAddress(repaired, e.reg, run.before) + AdvancesSince(repaired, run.before));
      StepCursor(repaired, before, run.op);
    }
  }

  lemma StepCursor(repaired: bool, e: Ee, op: Op)
    requires WellFormed(e)
    ensures var reg' := Do(repaired, e, op).0.reg;
      reg' == if SetsCursor(repaired, op).Some? then SetsCursor(repaired, op).value
              else if Advances(repaired, op) then Advance(e.reg) else e.reg
  {
  }

  lemma StepCells(repaired: bool, e: Ee, op: Op)
    requires WellFormed(e)
    ensures var cells' := Do(repaired, e, op).0.cells;
      cells' == if StoresByte(repaired, op).Some? then e.cells[e.reg % CELLS := StoresByte(repaired, op).value]
                else e.cells
  {
  }

  /** Refinement. After any run of address stores, reads, writes, failed transfers and malformed texts: the
      cursor is the last accepted address plus the advancing accesses since (modulo the memory size where
      reg_addr was left at an impossible address at probe), and every cell holds the last byte stored in it. */
  lemma {:induction false} EepromRefines(repaired: bool, e: Ee, run: Run, a: nat)
    requires WellFormed(e) && a < CELLS
    ensures After(repaired, e, run).reg % CELLS == Cursor(repaired, e.reg, run)
    ensures e.reg < CELLS ==> After(repaired, e, run).reg == Cursor(repaired, e.reg, run)
    ensures var b := LastStored(repaired, e.reg, run, a);
      After(repaired, e, run).cells[a] == if b.Some? then b.value else e.cells[a]
  {
    CursorRefines(repaired, e, run);
    if run.Then? {
      EepromRefines(repaired, e, run.before, a);
      StepCells(repaired, After(repaired, e, run.before), run.op);
    }
  }

  // ----- Writing around the ring -----

  /** Texts that each parse to a byte. */
  ghost predicate Parses(repaired: bool, texts: seq<string>, bytes: seq<byte>) {
    |texts| == |bytes| && forall i :: 0 <= i < |texts| ==> ParseText(repaired, texts[i], 2) == Value(bytes[i])
  }

  /** State after writing the first k texts, every transfer succeeding. */
  ghost function Wrote(repaired: bool, e: Ee, texts: seq<string>, k: nat): (r: Ee)
    requires WellFormed(e) && k <= |texts|
    ensures WellFormed(r)
  {
    if k == 0 then e else Do(repaired, Wrote(repaired, e, texts, k - 1), WriteByte(texts[k - 1], true)).0
  }

  ghost predicate Holds(cells: seq<byte>, c: nat, bytes: seq<byte>, k: nat)
    requires |cells| == CELLS && k <= |bytes|
  {
    forall i {:trigger bytes[i]} :: 0 <= i < k ==> cells[(c + i) % CELLS] == bytes[i]
  }

  lemma {:induction false} WritesFill(repaired: bool, e: Ee, texts: seq<string>, bytes: seq<byte>, k: nat)
    requires WellFormed(e) && Parses(repaired, texts, bytes) && k <= |texts| <= CELLS
    ensures var w := Wrote(repaired, e, texts, k);
      w.reg % CELLS == (e.reg + k) % CELLS && Holds(w.cells, e.reg, bytes, k)
  {
    hide Do, ParseText, Advance;
    if k > 0 {
      WritesFill(repaired, e, texts, bytes, k - 1);
      var before := Wrote(repaired, e, texts, k - 1);
      WriteOne(repaired, before, texts[k - 1], bytes[k - 1]);
      AdvanceFrom(before.reg, e.reg + (k - 1));
      OneMoreHeld(before.cells, e.reg, bytes, k - 1);
    }
  }

  lemma OneMoreHeld(cells: seq<byte>, c: nat, bytes: seq<byte>, k: nat)
    requires |cells| == CELLS && k < |bytes| <= CELLS && Holds(cells, c, bytes, k)
    ensures Holds(cells[(c + k) % CELLS := bytes[k]], c, bytes, k + 1)
  {
  }

  lemma WriteOne(repaired: bool, e: Ee, text: string, b: byte)
    requires WellFormed(e) && ParseText(repaired, text, 2) == Value(b)
    ensures Do(repaired, e, WriteByte(text, true)).0 == Ee(e.cells[e.reg % CELLS := b], Advance(e.reg))
  {
  }

  /** State after k successful reads. */
  ghost function ReadOn(repaired: bool, e: Ee, k: nat): (r: Ee)
    requires WellFormed(e)
    ensures WellFormed(r) && r.cells == e.cells
  {
    if k == 0 then e else Do(repaired, ReadOn(repaired, e, k - 1), ReadByte(true)).0
  }

  lemma {:induction false} ReadsWalk(repaired: bool, e: Ee, k: nat)
    requires WellFormed(e)
    ensures ReadOn(repaired, e, k).reg % CELLS == (e.reg + k) % CELLS
  {
    if k > 0 {
      ReadsWalk(repaired, e, k - 1);
      AdvanceFrom(ReadOn(repaired, e, k - 1).reg, e.reg + (k - 1));
    }
  }

  lemma ReadShows(repaired: bool, e: Ee)
    requires WellFormed(e)
    ensures Do(repaired, e, ReadByte(true)).1 == Shown(Line(e.cells[e.reg % CELLS], 2))
  {
  }

  /** Ring write-back. Setting the cursor, writing up to 32768 bytes, setting the cursor back and reading
      as many shows the bytes in order, also across the end of the memory. */
  lemma {:induction false} RingWriteBack(repaired: bool, e: Ee, addr: string, texts: seq<string>,
                                         bytes: seq<byte>, i: nat)
    requires WellFormed(e) && SetsCursor(repaired, StoreAddr(addr)).Some?
    requires Parses(repaired, texts, bytes) && i < |texts| <= CELLS
    ensures var set1 := Do(repaired, e, StoreAddr(addr)).0;
      var written := Wrote(repaired, set1, texts, |texts|);
      var set2 := Do(repaired, written, StoreAddr(addr)).0;
      Do(repaired, ReadOn(repaired, set2, i), ReadByte(true)).1 == Shown(Line(bytes[i], 2))
  {
    hide Do, ParseText, SetsCursor, Line, Wrote, ReadOn;
    var a := SetsCursor(repaired, StoreAddr(addr)).value;
    var set1 := Do(repaired, e, StoreAddr(addr)).0;
    StepCursor(repaired, e, StoreAddr(addr));
    WritesFill(repaired, set1, texts, bytes, |texts|);
    var written := Wrote(repaired, set1, texts, |texts|);
    StepCursor(repaired, written, StoreAddr(addr));
    StepCells(repaired, written, StoreAddr(addr));
    var set2 := Do(repaired, written, StoreAddr(addr)).0;
    ReadsWalk(repaired, set2, i);
    ReadShows(repaired, ReadOn(repaired, set2, i));
    assert written.cells[(a + i) % CELLS] == bytes[i];
  }

  // ----- Text the driver prints, given back to it -----

  lemma PrintedField(v: nat, w: nat)
    requires v < Pow2(4 * w)
    ensures Prefixed(Line(v, w)) && Field(Line(v, w), w) == Hex(v, w)
  {
  }

  /** A shown line is 0x, w lower-case hex digits and a newline, and means the number shown. */
  ghost predicate Shows(text: string, v: nat, w: nat) {
    && |text| == w + 3 && text[0] == '0' && text[1] == 'x' && text[w + 2] == '\n'
    && (forall i :: 2 <= i < w + 2 ==> text[i] in LOWER)
    && ParseText(true, text, w) == Value(v)
  }

  lemma LineShows(v: nat, w: nat)
    requires v < Pow2(4 * w)
    ensures Shows(Line(v, w), v, w)
  {
    hide Positional, Pow2;
    PrintedField(v, w);
    ParsePrinted(v, w);
    HexInLower(v, w);
  }

  lemma {:induction false} HexInLower(v: nat, w: nat)
    ensures forall i :: 0 <= i < w ==> Hex(v, w)[i] in LOWER
  {
    if w > 0 {
      HexInLower(v / 16, w - 1);
    }
  }

  /** Only one text shows a number. */
  lemma ShowsOne(s: string, t: string, v: nat, w: nat)
    requires Shows(s, v, w) && Shows(t, v, w)
    ensures s == t
  {
    hide Positional, Hex;
    PrintParsed(Field(s, w), w);
    PrintParsed(Field(t, w), w);
    LowerStays(s, w);
    LowerStays(t, w);
    forall i | 0 <= i < |s| ensures s[i] == t[i] {
      if 2 <= i < w + 2 {
        assert Field(s, w)[i - 2] == s[i] && Field(t, w)[i - 2] == t[i];
      }
    }
    assert s == t;
  }

  lemma LowerStays(s: string, w: nat)
    requires |s| == w + 3 && forall i :: 2 <= i < w + 2 ==> s[i] in LOWER
    ensures Lower(Field(s, w)[..w]) == Field(s, w)
  {
    forall i | 0 <= i < w ensures Lower(Field(s, w)[..w])[i] == Field(s, w)[i] {
      assert s[i + 2] in LOWER;
    }
    assert Lower(Field(s, w)[..w]) == Field(s, w);
  }

  /** The case of a text, prefix included, does not matter to a store. */
  lemma {:induction false} StoreCaseBlind(repaired: bool, text: string, w: nat)
    ensures ParseText(repaired, Upper(text), w) == ParseText(repaired, text, w)
  {
    hide Positional, IsHex;
    UpperField(text, w);
    CaseBlind(repaired, Field(text, w), w);
    assert Prefixed(Upper(text)) <==> Prefixed(text);
  }

  lemma UpperField(text: string, w: nat)
    ensures Field(Upper(text), w) == Upper(Field(text, w))
    ensures forall i: nat :: CharAt(Upper(text), i) == UpperChar(CharAt(text, i))
  {
  }

  /** In every state, show_reg_addr prints the cursor and changes nothing; a successful read prints the byte
      under the cursor. */
  lemma {:induction false} ShowsState(repaired: bool, e: Ee)
    requires WellFormed(e)
    ensures var r := Do(repaired, e, ShowAddr);
      r.0 == e && r.1.Shown? && Shows(r.1.text, e.reg, 4)
    ensures var r := Do(repaired, e, ReadByte(true));
      r.1.Shown? && Shows(r.1.text, e.cells[e.reg % CELLS], 2)
  {
    hide Shows, Pow2, Line;
    PowSixteen();
    LineShows(e.reg, 4);
    LineShows(e.cells[e.reg % CELLS], 2);
  }

  /** Some address has been accepted. */
  ghost predicate HasAddress(repaired: bool, run: Run) {
    run.Then? && (HasAddress(repaired, run.before) || SetsCursor(repaired, run.op).Some?)
  }

  lemma {:induction false} AddressInRange(repaired: bool, e: Ee, run: Run)
    requires WellFormed(e) && HasAddress(repaired, run)
    ensures After(repaired, e, run).reg < CELLS
  {
    hide Do, ParseText, SetsCursor, Advances, Advance;
    StepCursor(repaired, After(repaired, e, run.before), run.op);
    if HasAddress(repaired, run.before) {
      AddressInRange(repaired, e, run.before);
    }
  }

  /** After every run in which an address was accepted, whatever reg_addr held at probe, show_reg_addr prints the
      last accepted address plus the advancing accesses since, around the ring. */
  lemma {:induction false} ShownAfterRun(repaired: bool, e: Ee, run: Run)
    requires WellFormed(e) && HasAddress(repaired, run)
    ensures var r := Do(repaired, After(repaired, e, run), ShowAddr).1;
      r.Shown? && Shows(r.text, Cursor(repaired, e.reg, run), 4)
  {
    hide Do, Shows, HasAddress, After;
    CursorRefines(repaired, e, run);
    AddressInRange(repaired, e, run);
    ShowsState(repaired, After(repaired, e, run));
  }

  /** Show and store are inverse: the text one state shows brings the cursor of any other state to the same
      address, always with the repaired digit map and with the shipped map exactly when no digit is a letter. */
  lemma {:induction false} ShowThenStore(repaired: bool, e: Ee, f: Ee)
    requires WellFormed(e) && WellFormed(f) && e.reg < CELLS
    ensures var r := Do(repaired, e, ShowAddr).1;
      && r.Shown?
      && Do(repaired, f, StoreAddr(r.text)).1 == Accepted
      && (Do(repaired, f, StoreAddr(r.text)).0.reg == e.reg <==> repaired || DecimalDigits(e.reg, 4))
  {
    hide Shows, ParseText, DecimalDigits, Line;
    ShownLine(repaired, e);
    AddressTextExact(repaired, f, e.reg);
  }

  lemma ShownLine(repaired: bool, e: Ee)
    requires WellFormed(e)
    ensures Do(repaired, e, ShowAddr).1 == Shown(Line(e.reg, 4))
  {
    hide Shows;
    PowSixteen();
    ShowsState(repaired, e);
    LineShows(e.reg, 4);
    ShowsOne(Do(repaired, e, ShowAddr).1.text, Line(e.reg, 4), e.reg, 4);
  }

  /** Storing the line that shows address v leaves the cursor at v: always with the repaired digit map, and
      with the shipped map exactly when no digit of v is a letter. */
  lemma AddressTextExact(repaired: bool, e: Ee, v: nat)
    requires WellFormed(e) && v < CELLS
    ensures Do(repaired, e, StoreAddr(Line(v, 4))).1 == Accepted
    ensures Do(repaired, e, StoreAddr(Line(v, 4))).0.reg == v <==> repaired || DecimalDigits(v, 4)
  {
    hide Positional, Hex, Line, Field, Prefixed, Pow2, DecimalDigits;
    PowSixteen();
    PrintedField(v, 4);
    ParsePrinted(v, 4);
  }

  /** Writing back the line that shows a byte stores that byte: always with the repaired digit map, and with
      the shipped map exactly when neither digit is a letter. */
  lemma ByteTextExact(repaired: bool, e: Ee, b: byte)
    requires WellFormed(e)
    ensures StoresByte(repaired, WriteByte(Line(b, 2), true)) == Some(b) <==> repaired || DecimalDigits(b, 2)
    ensures repaired || DecimalDigits(b, 2) ==>
      Do(repaired, e, WriteByte(Line(b, 2), true)) == (Ee(e.cells[e.reg % CELLS := b], Advance(e.reg)), Accepted)
  {
    hide Positional, Hex, Line, Field, Prefixed, Pow2, DecimalDigits;
    PowSixteen();
    PrintedField(b, 2);
    ParsePrinted(b, 2);
  }
}
