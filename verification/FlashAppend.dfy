/** Two writes in a row against one write of both parts: the repaired driver appends, and the shipped loop and
    position advance do exactly when these lemmas say. */
module FlashAppend {
  import opened FlashChip
  import opened FlashSplit
  import opened FlashTheorems
  import opened Modular

  /** A build with the shipped index and advance, whose window has room for four pages and is small against
      the chip. */
  ghost predicate ShippedStyle(b: Build) {
    GoodBuild(b) && !b.repaired && b.window >= 4 * PAGE && 4 * b.window <= TOTAL
  }

  ghost predicate Considered(b: Build) {
    GoodBuild(b) && (b.repaired || ShippedStyle(b))
  }

  /** The file position, and the first cell, of a write that follows one of m bytes at pos. */
  function NextPos(b: Build, pos: nat, m: nat): (r: nat)
    requires b.window > 0 && pos < TOTAL
    ensures !b.repaired ==> r < 2 * b.window
    ensures b.repaired ==> r == pos + Clamp(pos, m)
  {
    PosAfterWrite(b, pos, Clamp(pos, m))
  }

  function NextCell(b: Build, pos: nat, m: nat): nat
    requires b.window > 0 && pos < TOTAL
  {
    Mask(b.window, NextPos(b, pos, m))
  }

  ghost predicate MemoryAppends(b: Build, pos: nat, m: nat, n: nat)
    requires Considered(b) && pos < TOTAL
  {
    forall mem: seq<bv8>, x: seq<bv8>, y: seq<bv8> | |mem| == TOTAL && |x| == m && |y| == n ::
      Written(b, Written(b, mem, pos, x), NextPos(b, pos, m), y) == Written(b, mem, pos, x + y)
  }

  ghost predicate PositionAppends(b: Build, pos: nat, m: nat, n: nat)
    requires Considered(b) && pos < TOTAL
  {
    NextPos(b, NextPos(b, pos, m), n) == NextPos(b, pos, m + n)
  }

  // ----- Where the second write starts -----

  lemma NextCellIs(b: Build, pos: nat, m: nat)
    requires ShippedStyle(b) && pos < TOTAL
    ensures var s := Mask(b.window, pos);
      NextCell(b, pos, m) == Mask(b.window, s + Clamp(pos, m) + s)
  {
    var s := Mask(b.window, pos);
    MaskAdd(b.window, s + Clamp(pos, m), s);
  }

  /** The second write starts in the cell after the first exactly when the first started the window. */
  lemma {:induction false} NextCellExact(b: Build, pos: nat, m: nat)
    requires ShippedStyle(b) && pos + m < TOTAL
    ensures NextCell(b, pos, m) == Mask(b.window, pos + m) <==> Mask(b.window, pos) == 0
  {
    hide Mask;
    var s := Mask(b.window, pos);
    NextCellIs(b, pos, m);
    MaskAdd(b.window, pos, m);
    if NextCell(b, pos, m) == Mask(b.window, pos + m) {
      MaskShift(b.window, s + m, s, 0);
    }
  }

  // ----- Single cells of one write -----

  /** None of the first k bytes of a write at pos takes user byte i to cell c. */
  ghost predicate Misses(b: Build, pos: nat, k: nat, c: nat, i: nat)
    requires b.window > 0
  {
    forall t :: 0 <= t < k && Mask(b.window, Mask(b.window, pos) + t) == c ==> SourceIndex(b, Offset(pos), t) != i
  }

  /** All bytes but byte i are 0xFF. */
  ghost predicate AllOnesBut(data: seq<bv8>, i: nat) {
    forall j :: 0 <= j < |data| && j != i ==> data[j] == 0xFF
  }

  lemma Keeps(b: Build, mem: seq<bv8>, pos: nat, data: seq<bv8>, i: nat, c: nat)
    requires GoodBuild(b) && |mem| == TOTAL && pos < TOTAL && c < TOTAL && mem[c] == 0xFF
    requires AllOnesBut(data, i) && Misses(b, pos, Clamp(pos, |data|), c, i)
    ensures Written(b, mem, pos, data)[c] == 0xFF
  {
    hide Mask, Offset, SourceIndex, Frames;
    var n := Clamp(pos, |data|);
    WrittenIsFlat(b, mem, pos, data);
    var src := Source(b, pos, data[..n]);
    forall t | 0 <= t < n && Mask(b.window, Mask(b.window, pos) + t) == c ensures src[t] == 0xFF {
      SourceExact(b, Offset(pos), t);
    }
    FlatKeeps(mem, b.window, Mask(b.window, pos), src, n, c);
  }

  lemma KeepsAll(b: Build, mem: seq<bv8>, pos: nat, data: seq<bv8>, c: nat)
    requires GoodBuild(b) && |mem| == TOTAL && pos < TOTAL && c < TOTAL && mem[c] == 0xFF
    requires AllOnesBut(data, |data|)
    ensures Written(b, mem, pos, data)[c] == 0xFF
  {
    hide Mask, Offset, SourceIndex, Written;
    forall t | 0 <= t < Clamp(pos, |data|) ensures SourceIndex(b, Offset(pos), t) != |data| {
      SourceExact(b, Offset(pos), t);
    }
    Keeps(b, mem, pos, data, |data|, c);
  }

  // ----- Contents that tell two writes from one -----

  /** Cell c comes out differently when both parts together are 0xFF but for a zero at byte i. */
  ghost predicate Told(b: Build, pos: nat, m: nat, n: nat, i: nat, c: nat)
    requires ShippedStyle(b) && pos < TOTAL && c < TOTAL
  {
    var mem, all := Probe(TOTAL, TOTAL), Probe(m + n, i);
    Written(b, Written(b, mem, pos, all[..m]), NextPos(b, pos, m), all[m..])[c] != Written(b, mem, pos, all)[c]
  }

  lemma {:induction false} ToldBreaks(b: Build, pos: nat, m: nat, n: nat, i: nat, c: nat)
    requires ShippedStyle(b) && pos < TOTAL && c < TOTAL && Told(b, pos, m, n, i, c)
    ensures !MemoryAppends(b, pos, m, n)
  {
    hide Mask, Written, NextPos;
    var mem, all := Probe(TOTAL, TOTAL), Probe(m + n, i);
    assert all[..m] + all[m..] == all;
    assert Written(b, Written(b, mem, pos, all[..m]), NextPos(b, pos, m), all[m..]) != Written(b, mem, pos, all);
  }

  /** The second write sends its byte j to a cell to which the one write does not send byte m + j. */
  lemma {:induction false} SecondOnly(b: Build, pos: nat, m: nat, n: nat, j: nat, t: nat)
    requires ShippedStyle(b) && pos < TOTAL && j < n
    requires var pos' := NextPos(b, pos, m);
      t < Clamp(pos', n) && SourceIndex(b, Offset(pos'), t) == j
    requires Misses(b, pos, Clamp(pos, m + n), Mask(b.window, NextCell(b, pos, m) + t), m + j)
    ensures Told(b, pos, m, n, m + j, Mask(b.window, NextCell(b, pos, m) + t))
  {
    hide Mask, Offset, SourceIndex, Written, PosAfterWrite, Misses;
    var mem, all := Probe(TOTAL, TOTAL), Probe(m + n, m + j);
    var c := Mask(b.window, NextCell(b, pos, m) + t);
    Clears(b, Written(b, mem, pos, all[..m]), NextPos(b, pos, m), all[m..], t);
    Keeps(b, mem, pos, all, m + j, c);
  }

  /** The first byte of the second part goes to the cell after the first part when written at once, and
      elsewhere when written second: unless the first write started the window. */
  lemma {:induction false} StartsElsewhere(b: Build, pos: nat, m: nat, n: nat)
    requires ShippedStyle(b) && pos < TOTAL && n > 0
    requires Mask(b.window, pos) != 0 && m < Clamp(pos, m + n) && m + Offset(pos) < 2 * PAGE
    ensures Told(b, pos, m, n, m, Mask(b.window, Mask(b.window, pos) + m))
  {
    hide Mask, Offset, Written, PosAfterWrite, Misses;
    var mem, all := Probe(TOTAL, TOTAL), Probe(m + n, m);
    var c := Mask(b.window, Mask(b.window, pos) + m);
    Clears(b, mem, pos, all, m);
    KeepsAll(b, mem, pos, all[..m], c);
    SecondMisses(b, pos, m, n);
    Keeps(b, Written(b, mem, pos, all[..m]), NextPos(b, pos, m), all[m..], 0, c);
  }

  lemma SecondMisses(b: Build, pos: nat, m: nat, n: nat)
    requires ShippedStyle(b) && pos < TOTAL && Mask(b.window, pos) != 0 && m == Clamp(pos, m)
    ensures var pos' := NextPos(b, pos, m);
      Misses(b, pos', Clamp(pos', n), Mask(b.window, Mask(b.window, pos) + m), 0)
  {
    hide Mask, Offset, PosAfterWrite;
    var s := Mask(b.window, pos);
    NextCellIs(b, pos, m);
    if NextCell(b, pos, m) == Mask(b.window, s + m) {
      MaskShift(b.window, s + m, s, 0);
    }
    assert Mask(b.window, NextCell(b, pos, m) + 0) == NextCell(b, pos, m) by {
      MaskAdd(b.window, NextPos(b, pos, m), 0);
    }
  }

  // ----- When the memory differs -----

  /** The one write never sends byte i: it ends before it, or is on its third page. */
  lemma NeverSent(b: Build, pos: nat, k: nat, c: nat, i: nat)
    requires ShippedStyle(b) && (i >= k || i >= 2 * PAGE)
    ensures Misses(b, pos, k, c, i)
  {
    forall t | 0 <= t < k ensures SourceIndex(b, Offset(pos), t) != i {
      SourceExact(b, Offset(pos), t);
    }
  }

  /** The first part ends on a third page. The bytes of the second part are repeats of earlier bytes in the
      one write, if they are sent at all. */
  lemma LateSecond(b: Build, pos: nat, m: nat, n: nat)
    requires ShippedStyle(b) && pos < TOTAL && n > 0
    requires m >= Clamp(pos, m + n) || m + Offset(pos) >= 2 * PAGE
    ensures !MemoryAppends(b, pos, m, n)
  {
    hide Mask, Offset, SourceIndex, MemoryAppends, Told, Misses;
    var pos', n' := NextPos(b, pos, m), Clamp(NextPos(b, pos, m), n);
    var cell := NextCell(b, pos, m);
    if m < Clamp(pos, m + n) && m < 2 * PAGE && n' > 2 * PAGE - m {
      var j := 2 * PAGE - m;
      NeverSent(b, pos, Clamp(pos, m + n), Mask(b.window, cell + j), 2 * PAGE);
      SourceExact(b, Offset(pos'), j);
      SecondOnly(b, pos, m, n, j, j);
      ToldBreaks(b, pos, m, n, 2 * PAGE, Mask(b.window, cell + j));
    } else {
      if m >= Clamp(pos, m + n) || m >= 2 * PAGE {
        NeverSent(b, pos, Clamp(pos, m + n), Mask(b.window, cell + 0), m);
      } else {
        ShortSecond(b, pos, m, n);
      }
      SourceExact(b, Offset(pos'), 0);
      SecondOnly(b, pos, m, n, 0, 0);
      ToldBreaks(b, pos, m, n, m, Mask(b.window, cell + 0));
    }
  }

  /** On its third page the one write repeats byte m, but not in the cell where the second write starts. */
  lemma RepeatElsewhere(b: Build, pos: nat, m: nat, t: nat)
    requires ShippedStyle(b)
    requires m + Offset(pos) >= 2 * PAGE && m < 2 * PAGE && t < 2 * PAGE && t < m + Offset(pos)
    requires SourceIndex(b, Offset(pos), t) == m
    ensures var s := Mask(b.window, pos);
      Mask(b.window, s + t) != Mask(b.window, s + m + s)
  {
    hide Mask;
    var w, s, off := b.window, Mask(b.window, pos), Offset(pos);
    OffsetPastPages(t + off);
    assert t == m + (PAGE - off);
    if Mask(w, s + t) == Mask(w, s + m + s) {
      MaskKeepsOffset(PAGE, w, pos);
      MaskKeepsOffset(PAGE, w, s + t);
      MaskKeepsOffset(PAGE, w, s + m + s);
      MaskAdd(PAGE, s, s + m);
      assert Mask(PAGE, s + m + (PAGE - off)) == Mask(PAGE, s + m + off);
      MaskShift(PAGE, s + m, PAGE - off, off);
    }
  }

  lemma OffsetPastPages(x: nat)
    requires 2 * PAGE <= x < 3 * PAGE
    ensures Offset(x) == x - 2 * PAGE
  {
    assert Offset(x) == Offset(x - PAGE) == Offset(x - 2 * PAGE);
  }

  lemma ShortSecond(b: Build, pos: nat, m: nat, n: nat)
    requires ShippedStyle(b) && pos < TOTAL && m < Clamp(pos, m + n)
    requires m + Offset(pos) >= 2 * PAGE && m < 2 * PAGE && Clamp(NextPos(b, pos, m), n) <= 2 * PAGE - m
    ensures Misses(b, pos, Clamp(pos, m + n), Mask(b.window, NextCell(b, pos, m) + 0), m)
  {
    hide Mask, Offset, PosAfterWrite, SourceIndex;
    var w, s, off, k := b.window, Mask(b.window, pos), Offset(pos), Clamp(pos, m + n);
    NextCellIs(b, pos, m);
    assert Mask(w, NextCell(b, pos, m) + 0) == NextCell(b, pos, m) by { MaskAdd(w, NextPos(b, pos, m), 0); }
    forall t | 0 <= t < k && SourceIndex(b, off, t) == m ensures Mask(w, s + t) != NextCell(b, pos, m) {
      RepeatElsewhere(b, pos, m, t);
    }
  }

  /** From the start of the window: the two parts together pass the second page. */
  lemma LongSecond(b: Build, pos: nat, m: nat, n: nat)
    requires ShippedStyle(b) && pos < TOTAL && Mask(b.window, pos) == 0
    requires 0 < m < 2 * PAGE && m < Clamp(pos, m + n) && m + n > 2 * PAGE
    ensures !MemoryAppends(b, pos, m, n)
  {
    hide Mask, Offset, SourceIndex, MemoryAppends, Told, Misses;
    FromStart(b, pos, m);
    var j := if m < PAGE then PAGE else 2 * PAGE - m;
    var t := 2 * PAGE - m;
    if m < PAGE {
      ThirdPageShifted(b, pos, m, Clamp(pos, m + n));
      SourceOfThird(b, m);
    } else {
      NeverSent(b, pos, Clamp(pos, m + n), Mask(b.window, m + t), 2 * PAGE);
      SourceExact(b, Offset(m), t);
    }
    SecondOnly(b, pos, m, n, j, t);
    ToldBreaks(b, pos, m, n, m + j, Mask(b.window, m + t));
  }

  lemma SourceOfThird(b: Build, m: nat)
    requires ShippedStyle(b) && m < PAGE
    ensures SourceIndex(b, Offset(m), 2 * PAGE - m) == PAGE
  {
    OffsetPastPages(2 * PAGE);
  }

  /** Where the second write starts after m bytes from the start of the window. */
  lemma FromStart(b: Build, pos: nat, m: nat)
    requires ShippedStyle(b) && pos < TOTAL && Mask(b.window, pos) == 0 && Clamp(pos, m) == m < b.window
    ensures NextPos(b, pos, m) == NextCell(b, pos, m) == m && Offset(pos) == 0
  {
    MaskKeepsOffset(PAGE, b.window, pos);
  }

  /** In the first cell of the third page the one write does not store byte PAGE + m. */
  lemma ThirdPageShifted(b: Build, pos: nat, m: nat, k: nat)
    requires ShippedStyle(b) && Mask(b.window, pos) == 0 && Offset(pos) == 0 && 0 < m < PAGE
    ensures Misses(b, pos, k, Mask(b.window, m + (2 * PAGE - m)), m + PAGE)
  {
    hide Mask;
    var w := b.window;
    assert Mask(w, 2 * PAGE) == 2 * PAGE;
    forall t | 0 <= t < k && Mask(w, 0 + t) == 2 * PAGE ensures SourceIndex(b, 0, t) != m + PAGE {
      MaskKeepsOffset(PAGE, w, t);
      OffsetPastPages(2 * PAGE);
    }
  }

  /** From the start of the window: the one write is cut short by the end of the chip, the second is not. */
  lemma CutShort(b: Build, pos: nat, m: nat, n: nat)
    requires ShippedStyle(b) && pos < TOTAL && Mask(b.window, pos) == 0
    requires m < Clamp(pos, m + n) < m + n <= 2 * PAGE
    ensures !MemoryAppends(b, pos, m, n)
  {
    hide Mask, SourceIndex, MemoryAppends, Told, Misses;
    FromStart(b, pos, m);
    var i := Clamp(pos, m + n);
    var j := i - m;
    OffsetBelow(m);
    NeverSent(b, pos, i, Mask(b.window, m + j), i);
    SourceExact(b, Offset(m), j);
    SecondOnly(b, pos, m, n, j, j);
    ToldBreaks(b, pos, m, n, i, Mask(b.window, m + j));
  }

  /** An empty first part sends the position back to the first window; a second part long enough to be cut
      short by the end of the chip before filling the window then sends more bytes. */
  lemma FilledLess(b: Build, pos: nat, n: nat)
    requires ShippedStyle(b) && pos < TOTAL && Mask(b.window, pos) == 0
    requires Clamp(pos, n) < Clamp(0, n) && Clamp(pos, n) < b.window + PAGE
    ensures !MemoryAppends(b, pos, 0, n)
  {
    hide Mask, Offset, SourceIndex, MemoryAppends, Told, Misses;
    FromStart(b, pos, 0);
    var k := Clamp(pos, n);
    assert Mask(b.window, 0 + k) == Mask(b.window, k);
    OffsetBelow(0);
    var j := SourceIndex(b, 0, k);
    SourceExact(b, 0, k);
    NewPair(b, pos, k);
    SecondOnly(b, pos, 0, n, j, k);
    ToldBreaks(b, pos, 0, n, 0 + j, Mask(b.window, 0 + k));
  }

  /** Until the window has been filled and its first page sent again, each byte sent puts something new in
      its cell. */
  lemma NewPair(b: Build, pos: nat, k: nat)
    requires ShippedStyle(b) && Mask(b.window, pos) == 0 && Offset(pos) == 0 && k < b.window + PAGE
    ensures Misses(b, pos, k, Mask(b.window, k), SourceIndex(b, 0, k))
  {
    var w := b.window;
    if k < w {
      assert Mask(w, k) == k;
    } else {
      assert Mask(w, k) == k - w;
      MaskKeepsOffset(PAGE, w, k);
      assert Offset(k) == k - w;
    }
  }

  // ----- When the memory agrees -----

  lemma NothingSecond(b: Build, pos: nat, m: nat)
    requires ShippedStyle(b) && pos < TOTAL
    ensures MemoryAppends(b, pos, m, 0)
  {
    hide Mask, Written, NextPos;
    forall mem: seq<bv8>, x: seq<bv8>, y: seq<bv8> | |mem| == TOTAL && |x| == m && |y| == 0
      ensures Written(b, Written(b, mem, pos, x), NextPos(b, pos, m), y) == Written(b, mem, pos, x + y)
    {
      assert x + y == x;
      WritesNothing(b, Written(b, mem, pos, x), NextPos(b, pos, m), y);
    }
  }

  lemma WritesNothing(b: Build, mem: seq<bv8>, pos: nat, data: seq<bv8>)
    requires GoodBuild(b) && |mem| == TOTAL && pos < TOTAL && data == []
    ensures Written(b, mem, pos, data) == mem
  {
    hide Mask, Written, Frames;
    WrittenIsFlat(b, mem, pos, data);
    assert Source(b, pos, data[..0]) == [];
  }

  /** From the start of the window and within its first two pages the second write goes on where the first
      ended. */
  lemma TwoPagesAppend(b: Build, pos: nat, m: nat, n: nat)
    requires ShippedStyle(b) && Mask(b.window, pos) == 0 && m + n <= 2 * PAGE && pos + m + n < TOTAL
    ensures MemoryAppends(b, pos, m, n)
  {
    hide Mask, Offset, Written, Flat, Source;
    FromStart(b, pos, m);
    forall mem: seq<bv8>, x: seq<bv8>, y: seq<bv8> | |mem| == TOTAL && |x| == m && |y| == n
      ensures Written(b, Written(b, mem, pos, x), m, y) == Written(b, mem, pos, x + y)
    {
      TwoPageWrite(b, mem, pos, x);
      TwoPageWrite(b, Written(b, mem, pos, x), m, y);
      TwoPageWrite(b, mem, pos, x + y);
      FlatConcat(mem, b.window, 0, x, y);
    }
  }

  lemma TwoPageWrite(b: Build, mem: seq<bv8>, pos: nat, data: seq<bv8>)
    requires ShippedStyle(b) && |mem| == TOTAL && pos + |data| < TOTAL && Mask(b.window, pos) + |data| <= 2 * PAGE
    ensures Written(b, mem, pos, data) == Flat(mem, b.window, Mask(b.window, pos), data)
  {
    hide Mask, Written, Flat, Source;
    WrittenIsFlat(b, mem, pos, data);
    assert Offset(pos) <= Mask(b.window, pos) by {
      MaskKeepsOffset(PAGE, b.window, pos);
      OffsetBelow(Mask(b.window, pos));
    }
    SourceIsData(b, pos, data);
    assert data[..|data|] == data;
  }

  /** Every byte sent earlier to a cell has been ANDed into it. */
  lemma {:induction false} FlatAbsorbs(mem: seq<bv8>, window: nat, addr: nat, data: seq<bv8>, k: nat, i: nat)
    requires 0 < window <= |mem| && i < k <= |data|
    ensures var r := FlatFirst(mem, window, addr, data, k)[Mask(window, addr + i)];
      r & data[i] == r
  {
    if i < k - 1 {
      FlatAbsorbs(mem, window, addr, data, k - 1, i);
    }
  }

  /** Once the window has been filled and its first page sent again, sending on changes nothing. */
  lemma {:induction false} Saturated(b: Build, mem: seq<bv8>, data: seq<bv8>, k: nat)
    requires ShippedStyle(b) && |mem| == TOTAL && b.window + PAGE <= k <= |data|
    ensures FlatFirst(mem, b.window, 0, Source(b, 0, data), k)
         == FlatFirst(mem, b.window, 0, Source(b, 0, data), b.window + PAGE)
  {
    hide Mask, Source;
    if k > b.window + PAGE {
      Saturated(b, mem, data, k - 1);
      Repeats(b, data, k - 1);
      FlatAbsorbs(mem, b.window, 0, Source(b, 0, data), k - 1, k - 1 - b.window);
    }
  }

  lemma Repeats(b: Build, data: seq<bv8>, k: nat)
    requires ShippedStyle(b) && b.window + PAGE <= k < |data|
    ensures Source(b, 0, data)[k] == Source(b, 0, data)[k - b.window]
    ensures Mask(b.window, 0 + k) == Mask(b.window, 0 + (k - b.window))
  {
    var w := b.window;
    MaskAdd(PAGE, w, k - w);
    SourceExact(b, 0, k);
    SourceExact(b, 0, k - w);
    if k - w < 2 * PAGE {
      assert Offset(k - w) == k - w - PAGE;
    }
  }

  /** An empty first part: the second sends as much from the first window, or fills the window anyway. */
  lemma EmptyFirst(b: Build, pos: nat, n: nat)
    requires ShippedStyle(b) && pos < TOTAL && Mask(b.window, pos) == 0
    requires Clamp(pos, n) == Clamp(0, n) || Clamp(pos, n) >= b.window + PAGE
    ensures MemoryAppends(b, pos, 0, n)
  {
    hide Mask, Offset, Written;
    FromStart(b, pos, 0);
    forall mem: seq<bv8>, x: seq<bv8>, y: seq<bv8> | |mem| == TOTAL && |x| == 0 && |y| == n
      ensures Written(b, Written(b, mem, pos, x), 0, y) == Written(b, mem, pos, x + y)
    {
      assert x + y == y;
      WritesNothing(b, mem, pos, x);
      SameFromStart(b, mem, pos, y);
    }
  }

  lemma SameFromStart(b: Build, mem: seq<bv8>, pos: nat, data: seq<bv8>)
    requires ShippedStyle(b) && |mem| == TOTAL && pos < TOTAL && Mask(b.window, pos) == 0 && Offset(pos) == 0
    requires Clamp(pos, |data|) == Clamp(0, |data|) || Clamp(pos, |data|) >= b.window + PAGE
    ensures Written(b, mem, 0, data) == Written(b, mem, pos, data)
  {
    hide Mask, Written, SourceIndex, FlatFirst;
    var w, k, n := b.window, Clamp(pos, |data|), Clamp(0, |data|);
    assert Offset(0) == 0 && Mask(w, 0) == 0;
    WrittenIsFlat(b, mem, 0, data);
    WrittenIsFlat(b, mem, pos, data);
    var long, short, rest := Source(b, 0, data[..n]), Source(b, pos, data[..k]), Source(b, 0, data[..n])[k..];
    forall i | 0 <= i < k ensures long[i] == short[i] {
      SourceExact(b, 0, i);
    }
    assert long == short + rest;
    FlatPrefix(mem, w, 0, short, rest, k);
    if k < n {
      Saturated(b, mem, data[..n], n);
      Saturated(b, mem, data[..n], k);
    }
  }

  // ----- Main results -----

  /** Two writes leave the memory of one, for all contents, exactly when the second part is empty, or the first
      write starts the window and
        - the first part is not empty and both together stay within two pages and the chip, or
        - the first part is empty, and the second is cut no shorter by the end of the chip than it would be
          from position 0, or has filled the window and sent its first page again before it is cut. */
  predicate MemoryCondition(b: Build, pos: nat, m: nat, n: nat)
    requires b.window > 0 && pos < TOTAL
  {
    n == 0 ||
    (Mask(b.window, pos) == 0 &&
     if m > 0 then m + n <= 2 * PAGE && pos + m + n < TOTAL
     else Clamp(pos, n) == Clamp(0, n) || Clamp(pos, n) >= b.window + PAGE)
  }

  lemma {:induction false} MemoryAppendsExact(b: Build, pos: nat, m: nat, n: nat)
    requires ShippedStyle(b) && pos < TOTAL
    ensures MemoryAppends(b, pos, m, n) <==> MemoryCondition(b, pos, m, n)
  {
    hide Mask, Offset, MemoryAppends, Told;
    if n == 0 {
      NothingSecond(b, pos, m);
    } else if m >= Clamp(pos, m + n) || m + Offset(pos) >= 2 * PAGE {
      LateSecond(b, pos, m, n);
      if Mask(b.window, pos) == 0 {
        LateStart(b, pos);
      }
    } else if Mask(b.window, pos) != 0 {
      StartsElsewhere(b, pos, m, n);
      ToldBreaks(b, pos, m, n, m, Mask(b.window, Mask(b.window, pos) + m));
    } else if m == 0 {
      if Clamp(pos, n) == Clamp(0, n) || Clamp(pos, n) >= b.window + PAGE {
        EmptyFirst(b, pos, n);
      } else {
        FilledLess(b, pos, n);
      }
    } else if m + n > 2 * PAGE {
      LongSecond(b, pos, m, n);
    } else if pos + m + n < TOTAL {
      TwoPagesAppend(b, pos, m, n);
    } else {
      CutShort(b, pos, m, n);
    }
  }

  lemma LateStart(b: Build, pos: nat)
    requires ShippedStyle(b) && Mask(b.window, pos) == 0
    ensures Offset(pos) == 0
  {
    MaskKeepsOffset(PAGE, b.window, pos);
  }

  /** Two writes leave the position of one exactly when
        - no write is cut short by the end of the chip, the second starts in the window's first cell, and the
          masked end of the one write lies beyond its masked start without leaving the window;
        - or both the one and the second are cut short, and the first ends at the end of the window;
        - or only one of them is cut short, and it ends as far from the other's end as their starts differ. */
  predicate PositionCondition(b: Build, pos: nat, m: nat, n: nat)
    requires b.window > 0 && pos < TOTAL
  {
    var w, s, s' := b.window, Mask(b.window, pos), NextCell(b, pos, m);
    var oneCut, secondCut := pos + m + n >= TOTAL, NextPos(b, pos, m) + n >= TOTAL;
    if !oneCut && !secondCut then s' == 0 && s + Mask(w, s + m + n) < w
    else if oneCut && secondCut then Mask(w, pos + Clamp(pos, m)) == 0
    else if oneCut then s' + Mask(w, s' + n) == s + Mask(w, TOTAL - 1)
    else s' + Mask(w, TOTAL - 1) == s + Mask(w, s + m + n)
  }

  lemma NextPosIs(b: Build, pos: nat, m: nat)
    requires ShippedStyle(b) && pos < TOTAL
    ensures var w, s := b.window, Mask(b.window, pos);
      NextPos(b, pos, m) == s + if pos + m < TOTAL then Mask(w, s + m) else Mask(w, TOTAL - 1)
  {
    hide Mask;
    MaskAdd(b.window, pos, Clamp(pos, m));
  }

  lemma {:induction false} PositionAppendsExact(b: Build, pos: nat, m: nat, n: nat)
    requires ShippedStyle(b) && pos < TOTAL
    ensures PositionAppends(b, pos, m, n) <==> PositionCondition(b, pos, m, n)
  {
    hide Mask, NextPos, NextCell, Clamp;
    NextPosIs(b, pos, m + n);
    NextPosIs(b, NextPos(b, pos, m), n);
    NextCellMask(b, pos, m);
    if pos + m + n < TOTAL {
      UncutEnds(b, pos, m, n);
    } else {
      CutStarts(b, pos, m);
    }
  }

  lemma NextCellMask(b: Build, pos: nat, m: nat)
    requires b.window > 0 && pos < TOTAL
    ensures NextCell(b, pos, m) == Mask(b.window, NextPos(b, pos, m))
  {
  }

  lemma UncutEnds(b: Build, pos: nat, m: nat, n: nat)
    requires ShippedStyle(b) && pos + m + n < TOTAL
    ensures var w, s, s' := b.window, Mask(b.window, pos), NextCell(b, pos, m);
      s' + Mask(w, s' + n) == s + Mask(w, s + m + n) <==> s' == 0 && s + Mask(w, s + m + n) < w
  {
    hide Mask;
    NextCellIs(b, pos, m);
    EndsAgree(b.window, Mask(b.window, pos), m, n);
  }

  lemma CutStarts(b: Build, pos: nat, m: nat)
    requires ShippedStyle(b) && pos < TOTAL
    ensures NextCell(b, pos, m) == Mask(b.window, pos) <==> Mask(b.window, pos + Clamp(pos, m)) == 0
  {
    hide Mask;
    NextCellIs(b, pos, m);
    MaskAdd(b.window, pos, Clamp(pos, m));
    StartsAgree(b.window, Mask(b.window, pos), Clamp(pos, m));
  }

  lemma WholeClamp(pos: nat, m: nat, n: nat)
    requires pos + m + n < TOTAL
    ensures Clamp(pos, m) == m
  {
  }

  /** Masked start plus masked end, of a second write from 2s + m and of one write from s, all modulo w. */
  lemma EndsAgree(w: nat, s: nat, m: nat, n: nat)
    requires s < w
    ensures var s' := Mask(w, s + m + s);
      s' + Mask(w, s' + n) == s + Mask(w, s + m + n) <==> s' == 0 && s + Mask(w, s + m + n) < w
  {
    hide Mask;
    var a, e := Mask(w, s + m), Mask(w, s + m + n);
    MaskAdd(w, s + m, s);
    MaskAdd(w, s + m + s, n);
    MaskAdd(w, s + m + n, s);
    assert s + m + s + n == s + m + n + s;
    MaskTwice(w, a + s);
    MaskTwice(w, e + s);
  }

  lemma MaskTwice(w: nat, x: nat)
    requires w > 0 && x < 2 * w
    ensures Mask(w, x) == if x < w then x else x - w
  {
  }

  lemma StartsAgree(w: nat, s: nat, m: nat)
    requires s < w
    ensures Mask(w, s + m + s) == s <==> Mask(w, s + m) == 0
  {
    MaskAdd(w, s + m, s);
    MaskTwice(w, Mask(w, s + m) + s);
  }

  lemma {:induction false} RepairedAppends(b: Build, pos: nat, m: nat, n: nat)
    requires GoodBuild(b) && b.repaired && pos < TOTAL
    ensures MemoryAppends(b, pos, m, n) && PositionAppends(b, pos, m, n)
  {
    hide Mask, Written, Clamp;
    forall mem: seq<bv8>, x: seq<bv8>, y: seq<bv8> | |mem| == TOTAL && |x| == m && |y| == n
      ensures Written(b, Written(b, mem, pos, x), NextPos(b, pos, m), y) == Written(b, mem, pos, x + y)
    {
      WritesAppend(b, mem, pos, x, y);
    }
    WritesAppend(b, Probe(TOTAL, TOTAL), pos, Probe(m, m), Probe(n, n));
  }

  /** Two writes against one, for every start and both lengths: when they leave the same memory for all
      contents, and when they leave the same position. */
  lemma {:induction false} AppendExact(b: Build, pos: nat, m: nat, n: nat)
    requires Considered(b) && pos < TOTAL
    ensures MemoryAppends(b, pos, m, n) <==> b.repaired || MemoryCondition(b, pos, m, n)
    ensures PositionAppends(b, pos, m, n) <==> b.repaired || PositionCondition(b, pos, m, n)
  {
    hide MemoryAppends, PositionAppends, MemoryCondition, PositionCondition;
    if b.repaired {
      RepairedAppends(b, pos, m, n);
    } else {
      MemoryAppendsExact(b, pos, m, n);
      PositionAppendsExact(b, pos, m, n);
    }
  }

  /** The build as shipped, in plain arithmetic: two writes leave the memory of one exactly when the second
      part is empty, or the position is a multiple of 4096 and both parts fit in two pages (an empty first
      part: unless the end of the chip cuts the second short in the last 4096 bytes). */
  lemma {:induction false} ShippedMemoryExact(pos: nat, m: nat, n: nat)
    requires pos < TOTAL
    ensures ShippedStyle(SHIPPED)
    ensures MemoryAppends(SHIPPED, pos, m, n)
       <==> n == 0 || (pos % 4096 == 0
                       && if m > 0 then m + n <= 512 else pos + n < TOTAL || pos != TOTAL - 4096)
  {
    hide Mask, MemoryAppends, PositionAppends, PositionCondition, Offset;
    ShippedIsGood();
    AppendExact(SHIPPED, pos, m, n);
    MaskIsRemainder(4096, pos);
  }

  /** Away from the end of the chip they leave the position of one exactly when the second starts in the
      window's first cell and the masked start and end of the one write add up to less than the window. */
  lemma {:induction false} ShippedPositionExact(pos: nat, m: nat, n: nat)
    requires pos + m + n < TOTAL - 2 * 4096
    ensures ShippedStyle(SHIPPED)
    ensures PositionAppends(SHIPPED, pos, m, n)
       <==> (2 * pos + m) % 4096 == 0 && pos % 4096 + (pos + m + n) % 4096 < 4096
  {
    hide Mask, PositionAppends, MemoryAppends, MemoryCondition, Offset, NextPos;
    ShippedIsGood();
    AppendExact(SHIPPED, pos, m, n);
    WholeClamp(pos, m, n);
    NextCellIs(SHIPPED, pos, m);
    MaskAdd(4096, pos, m);
    MaskAdd(4096, pos, m + n);
    var s := Mask(4096, pos);
    MaskAdd(4096, pos, s + m);
    MaskAdd(4096, pos, pos + m);
    MaskIsRemainder(4096, 2 * pos + m);
    MaskIsRemainder(4096, pos);
    MaskIsRemainder(4096, pos + m + n);
  }

  /** One input on which they differ: bytes 0xFF and 0x00 written to erased memory at position 10. Written
      at once the second lands in cell 11; written second it does not, and the position differs as well. */
  lemma {:induction false} ShippedAppendFails()
    ensures GoodBuild(SHIPPED)
    ensures var mem := Probe(TOTAL, TOTAL);
      && NextPos(SHIPPED, 10, 1) == 21
      && Written(SHIPPED, Written(SHIPPED, mem, 10, [0xFF]), 21, [0x00])[11] == 0xFF
      && Written(SHIPPED, mem, 10, [0xFF] + [0x00])[11] == 0
      && NextPos(SHIPPED, 21, 1) == 43 && NextPos(SHIPPED, 10, 2) == 22
  {
    hide Written, Frames;
    ShippedIsGood();
    var mem := Probe(TOTAL, TOTAL);
    KeepsAll(SHIPPED, mem, 10, [0xFF], 11);
    Keeps(SHIPPED, Written(SHIPPED, mem, 10, [0xFF]), 21, [0x00], 0, 11);
    Clears(SHIPPED, mem, 10, [0xFF] + [0x00], 1);
  }
}
