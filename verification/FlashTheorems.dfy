/** What a user of the flash driver gets: how split writes relate to one flat write, to the intended
    addresses, and to reading back. */
module FlashTheorems {
  import opened FlashChip
  import opened FlashSplit
  import opened Modular

  /** Memory after driver_write of data at file position pos, when every transfer succeeds. */
  function Written(b: Build, mem: seq<bv8>, pos: nat, data: seq<bv8>): (r: seq<bv8>)
    requires GoodBuild(b) && |mem| == TOTAL && pos < TOTAL
    ensures |r| == TOTAL
  {
    var fs := Frames(b, pos, data[..Clamp(pos, |data|)]);
    ApplyFirst(mem, fs, |fs|)
  }

  /** What driver_read returns for count bytes at pos. */
  function ReadBack(b: Build, mem: seq<bv8>, pos: nat, count: nat): (r: seq<bv8>)
    requires b.window > 0 && |mem| == TOTAL && pos < TOTAL
    ensures |r| == Clamp(pos, count)
  {
    ReadBytes(mem, Mask(b.window, pos), Clamp(pos, count))
  }

  /** The user's view of a write: byte i is ANDed into cell pos + i and nothing else changes. */
  function Intended(mem: seq<bv8>, pos: nat, data: seq<bv8>): (r: seq<bv8>)
    requires pos + |data| <= |mem|
    ensures |r| == |mem|
  {
    seq(|mem|, c requires 0 <= c < |mem| => if pos <= c < pos + |data| then mem[c] & data[c - pos] else mem[c])
  }

  // ----- Cells of a flat write -----

  /** A cell is unchanged when every byte that lands on it is 0xFF, in particular when none does. */
  lemma {:induction false} FlatKeeps(mem: seq<bv8>, window: nat, addr: nat, data: seq<bv8>, k: nat, c: nat)
    requires 0 < window <= |mem| && c < |mem| && k <= |data|
    requires forall i :: 0 <= i < k && Mask(window, addr + i) == c ==> data[i] == 0xFF
    ensures FlatFirst(mem, window, addr, data, k)[c] == mem[c]
  {
    if k > 0 {
      FlatKeeps(mem, window, addr, data, k - 1, c);
      assert Mask(window, addr + (k - 1)) == c ==> data[k - 1] == 0xFF;
    }
  }

  lemma {:induction false} FlatZero(mem: seq<bv8>, window: nat, addr: nat, data: seq<bv8>, k: nat, i: nat)
    requires 0 < window <= |mem| && i < k <= |data| && data[i] == 0
    ensures FlatFirst(mem, window, addr, data, k)[Mask(window, addr + i)] == 0
  {
    if i < k - 1 {
      FlatZero(mem, window, addr, data, k - 1, i);
    }
  }

  /** A flat write that fits between addr and the end of the window is what the user means. */
  lemma {:induction false} FlatCell(mem: seq<bv8>, window: nat, addr: nat, data: seq<bv8>, k: nat, c: nat)
    requires 0 < window <= |mem| && addr + |data| <= window && c < |mem| && k <= |data|
    ensures FlatFirst(mem, window, addr, data, k)[c]
         == if addr <= c < addr + k then mem[c] & data[c - addr] else mem[c]
  {
    if k > 0 {
      FlatCell(mem, window, addr, data, k - 1, c);
    }
  }

  lemma FlatInWindow(mem: seq<bv8>, window: nat, addr: nat, data: seq<bv8>)
    requires 0 < window <= |mem| && addr + |data| <= window
    ensures Flat(mem, window, addr, data) == Intended(mem, addr, data)
  {
    forall c | 0 <= c < |mem| ensures Flat(mem, window, addr, data)[c] == Intended(mem, addr, data)[c] {
      FlatCell(mem, window, addr, data, |data|, c);
    }
  }

  // ----- Split writes against one flat write -----

  /** Every write, whatever its start and length, acts as one flat AND of the bytes the loop sends. */
  lemma {:induction false} WrittenIsFlat(b: Build, mem: seq<bv8>, pos: nat, data: seq<bv8>)
    requires GoodBuild(b) && |mem| == TOTAL && pos < TOTAL
    ensures Written(b, mem, pos, data)
         == Flat(mem, b.window, Mask(b.window, pos), Source(b, pos, data[..Clamp(pos, |data|)]))
  {
    var d := data[..Clamp(pos, |data|)];
    var fs := Frames(b, pos, d);
    FramesActFlat(b, mem, pos, d, |fs|);
    assert Source(b, pos, d)[..|d|] == Source(b, pos, d);
  }

  /** The cell that the t-th byte is sent to is cleared when that byte is zero. */
  lemma Clears(b: Build, mem: seq<bv8>, pos: nat, data: seq<bv8>, t: nat)
    requires GoodBuild(b) && |mem| == TOTAL && pos < TOTAL && t < Clamp(pos, |data|)
    requires SourceIndex(b, Offset(pos), t) < |data| && data[SourceIndex(b, Offset(pos), t)] == 0
    ensures Written(b, mem, pos, data)[Mask(b.window, Mask(b.window, pos) + t)] == 0
  {
    hide Mask, Offset, SourceIndex, Written, Flat;
    var n := Clamp(pos, |data|);
    var src := Source(b, pos, data[..n]);
    WrittenIsFlat(b, mem, pos, data);
    assert src[t] == 0 by { SourceExact(b, Offset(pos), t); }
    FlatClears(mem, b.window, Mask(b.window, pos), src, t);
  }

  lemma FlatClears(mem: seq<bv8>, window: nat, addr: nat, data: seq<bv8>, i: nat)
    requires 0 < window <= |mem| && i < |data| && data[i] == 0
    ensures Flat(mem, window, addr, data)[Mask(window, addr + i)] == 0
  {
    FlatZero(mem, window, addr, data, |data|, i);
  }

  /** Within two pages, or with a tmp_index that accumulates, the loop sends exactly the user's bytes. */
  lemma SourceIsData(b: Build, pos: nat, data: seq<bv8>)
    requires b.repaired || Offset(pos) + |data| <= 2 * PAGE
    ensures Source(b, pos, data) == data
  {
  }

  ghost predicate SplitCorrect(b: Build, pos: nat, count: nat)
    requires GoodBuild(b) && pos < TOTAL
  {
    forall mem: seq<bv8>, data: seq<bv8> | |mem| == TOTAL && |data| == count ::
      Written(b, mem, pos, data) == Flat(mem, b.window, Mask(b.window, pos), data[..Clamp(pos, count)])
  }

  /** All 0xFF except a zero at j. */
  function Probe(count: nat, j: nat): (d: seq<bv8>)
    ensures |d| == count
    ensures forall i :: 0 <= i < count ==> d[i] == if i == j then 0 else 0xFF
  {
    seq(count, i => if i == j then 0 else 0xFF)
  }

  /** On the third page the shipped loop repeats byte 256 where the first byte of that page belongs. */
  lemma ThirdPageLost(b: Build, pos: nat, count: nat)
    requires GoodBuild(b) && !b.repaired && pos < TOTAL
    requires Offset(pos) + Clamp(pos, count) > 2 * PAGE
    ensures var j := 2 * PAGE - Offset(pos);
      var c := Mask(b.window, Mask(b.window, pos) + j);
      var mem := Probe(TOTAL, TOTAL);
      && j < Clamp(pos, count)
      && Written(b, mem, pos, Probe(count, j))[c] == 0xFF
      && Flat(mem, b.window, Mask(b.window, pos), Probe(count, j)[..Clamp(pos, count)])[c] == 0
  {
    hide Mask, Written, FlatFirst, Frames, Source;
    var w, off, s, n := b.window, Offset(pos), Mask(b.window, pos), Clamp(pos, count);
    var j := 2 * PAGE - off;
    var mem := Probe(TOTAL, TOTAL);
    var d := Probe(count, j)[..n];
    FlatZero(mem, w, s, d, n, j);
    ZeroNeverSent(b, pos, d);
    WrittenIsFlat(b, mem, pos, Probe(count, j));
    FlatKeeps(mem, w, s, Source(b, pos, d), n, Mask(w, s + j));
  }

  /** The first byte of the third page is never sent to its place. */
  lemma ZeroNeverSent(b: Build, pos: nat, d: seq<bv8>)
    requires b.window > 0 && Offset(b.window) == 0 && !b.repaired
    requires Offset(pos) + |d| > 2 * PAGE
    requires forall i :: 0 <= i < |d| && i != 2 * PAGE - Offset(pos) ==> d[i] == 0xFF
    ensures var s := Mask(b.window, pos);
      forall i :: 0 <= i < |d| && Mask(b.window, s + i) == Mask(b.window, s + (2 * PAGE - Offset(pos)))
                  ==> Source(b, pos, d)[i] == 0xFF
  {
    hide Mask;
    var w, s, off, j := b.window, Mask(b.window, pos), Offset(pos), 2 * PAGE - Offset(pos);
    forall i | 0 <= i < |d| && Mask(w, s + i) == Mask(w, s + j) ensures Source(b, pos, d)[i] == 0xFF {
      if i + off >= 2 * PAGE {
        SameOffset(w, pos, i, j);
        PageMultiple(2);
      }
    }
  }

  lemma SameOffset(w: nat, pos: nat, i: nat, j: nat)
    requires w > 0 && Offset(w) == 0 && Mask(w, Mask(w, pos) + i) == Mask(w, Mask(w, pos) + j)
    ensures Offset(Offset(pos) + i) == Offset(Offset(pos) + j)
  {
    hide Mask;
    MaskAdd(w, pos, i);
    MaskAdd(w, pos, j);
    MaskKeepsOffset(PAGE, w, pos + i);
    MaskKeepsOffset(PAGE, w, pos + j);
    MaskAdd(PAGE, pos, i);
    MaskAdd(PAGE, pos, j);
  }

  /** The split frames leave the memory as one flat write of the user's bytes, for all contents,
      exactly when the transfer spans at most two pages or tmp_index accumulates. */
  lemma SplitExact(b: Build, pos: nat, count: nat)
    requires GoodBuild(b) && pos < TOTAL
    ensures SplitCorrect(b, pos, count) <==> b.repaired || Offset(pos) + Clamp(pos, count) <= 2 * PAGE
  {
    var n := Clamp(pos, count);
    if b.repaired || Offset(pos) + n <= 2 * PAGE {
      forall mem: seq<bv8>, data: seq<bv8> | |mem| == TOTAL && |data| == count
        ensures Written(b, mem, pos, data) == Flat(mem, b.window, Mask(b.window, pos), data[..n])
      {
        WrittenIsFlat(b, mem, pos, data);
        SourceIsData(b, pos, data[..n]);
      }
    } else {
      ThirdPageLost(b, pos, count);
      var mem, data := Probe(TOTAL, TOTAL), Probe(count, 2 * PAGE - Offset(pos));
      assert Written(b, mem, pos, data) != Flat(mem, b.window, Mask(b.window, pos), data[..n]);
    }
  }

  // ----- Writes against the addresses the user asked for -----

  ghost predicate WriteCorrect(b: Build, pos: nat, count: nat)
    requires GoodBuild(b) && pos < TOTAL
  {
    forall mem: seq<bv8>, data: seq<bv8> | |mem| == TOTAL && |data| == count ::
      Written(b, mem, pos, data) == Intended(mem, pos, data[..Clamp(pos, count)])
  }

  lemma BeyondWindowUntouched(b: Build, mem: seq<bv8>, pos: nat, data: seq<bv8>, c: nat)
    requires GoodBuild(b) && |mem| == TOTAL && pos < TOTAL && b.window <= c < TOTAL
    ensures Written(b, mem, pos, data)[c] == mem[c]
  {
    WrittenIsFlat(b, mem, pos, data);
    FlatKeeps(mem, b.window, Mask(b.window, pos), Source(b, pos, data[..Clamp(pos, |data|)]), Clamp(pos, |data|), c);
  }

  /** A write lands where the user asked, for all contents, exactly when it sends nothing, or it ends
      inside the address window and (in the shipped build) spans at most two pages. */
  lemma WriteExact(b: Build, pos: nat, count: nat)
    requires GoodBuild(b) && pos < TOTAL
    ensures var n := Clamp(pos, count);
      WriteCorrect(b, pos, count)
      <==> n == 0 || (pos + n <= b.window && (b.repaired || Offset(pos) + n <= 2 * PAGE))
  {
    var n := Clamp(pos, count);
    if n == 0 || (pos + n <= b.window && (b.repaired || Offset(pos) + n <= 2 * PAGE)) {
      forall mem: seq<bv8>, data: seq<bv8> | |mem| == TOTAL && |data| == count
        ensures Written(b, mem, pos, data) == Intended(mem, pos, data[..n])
      {
        WriteGoesWhereAsked(b, mem, pos, data);
      }
    } else if pos + n > b.window {
      var mem, data := Probe(TOTAL, TOTAL), seq(count, i => 0 as bv8);
      var c := pos + n - 1;
      BeyondWindowUntouched(b, mem, pos, data, c);
      assert Intended(mem, pos, data[..n])[c] == 0;
      assert Written(b, mem, pos, data) != Intended(mem, pos, data[..n]);
    } else {
      ThirdPageLost(b, pos, count);
      var mem, data := Probe(TOTAL, TOTAL), Probe(count, 2 * PAGE - Offset(pos));
      FlatInWindow(mem, b.window, pos, data[..n]);
      assert Written(b, mem, pos, data) != Intended(mem, pos, data[..n]);
    }
  }

  lemma WriteGoesWhereAsked(b: Build, mem: seq<bv8>, pos: nat, data: seq<bv8>)
    requires GoodBuild(b) && |mem| == TOTAL && pos < TOTAL
    requires var n := Clamp(pos, |data|);
      n == 0 || (pos + n <= b.window && (b.repaired || Offset(pos) + n <= 2 * PAGE))
    ensures Written(b, mem, pos, data) == Intended(mem, pos, data[..Clamp(pos, |data|)])
  {
    var n := Clamp(pos, |data|);
    WrittenIsFlat(b, mem, pos, data);
    if n == 0 {
      assert Source(b, pos, data[..n]) == [];
    } else {
      SourceIsData(b, pos, data[..n]);
      FlatInWindow(mem, b.window, pos, data[..n]);
    }
  }

  // ----- Round trip -----

  ghost predicate Erased(mem: seq<bv8>, addr: nat, n: nat)
    requires addr + n <= |mem|
  {
    forall c :: addr <= c < addr + n ==> mem[c] == 0xFF
  }

  /** Writing at pos over erased cells, seeking back and reading as much returns the bytes written. */
  ghost predicate RoundTrips(b: Build, pos: nat, count: nat)
    requires GoodBuild(b) && pos < TOTAL && Mask(b.window, pos) + Clamp(pos, count) <= TOTAL
  {
    forall mem: seq<bv8>, data: seq<bv8>
      | |mem| == TOTAL && |data| == count && Erased(mem, Mask(b.window, pos), Clamp(pos, count)) ::
      ReadBack(b, Written(b, mem, pos, data), pos, count) == data[..Clamp(pos, count)]
  }

  lemma MaskBelow(w: nat, x: nat)
    requires w > 0
    ensures Mask(w, x) <= x
    ensures x >= w ==> Mask(w, x) + w <= x
    decreases x
  {
  }

  /** The round trip holds for all contents exactly when the masked range ends inside the window and
      (in the shipped build) spans at most two pages. */
  lemma {:induction false} RoundTripExact(b: Build, pos: nat, count: nat)
    requires GoodBuild(b) && pos < TOTAL
    ensures Mask(b.window, pos) + Clamp(pos, count) < TOTAL
    ensures var n := Clamp(pos, count);
      RoundTrips(b, pos, count)
      <==> Mask(b.window, pos) + n <= b.window && (b.repaired || Offset(pos) + n <= 2 * PAGE)
  {
    MaskBelow(b.window, pos);
    var s, n := Mask(b.window, pos), Clamp(pos, count);
    if s + n > b.window {
      LostBeyondWindow(b, pos, count);
    } else if !b.repaired && Offset(pos) + n > 2 * PAGE {
      LostOnThirdPage(b, pos, count);
    } else {
      forall mem: seq<bv8>, data: seq<bv8> | |mem| == TOTAL && |data| == count && Erased(mem, s, n)
        ensures ReadBack(b, Written(b, mem, pos, data), pos, count) == data[..n]
      {
        RoundTripHolds(b, mem, pos, data);
      }
    }
  }

  lemma {:induction false} LostBeyondWindow(b: Build, pos: nat, count: nat)
    requires GoodBuild(b) && pos < TOTAL && Mask(b.window, pos) + Clamp(pos, count) < TOTAL
    requires Mask(b.window, pos) + Clamp(pos, count) > b.window
    ensures !RoundTrips(b, pos, count)
  {
    hide Written, Mask;
    var s, n := Mask(b.window, pos), Clamp(pos, count);
    var mem, data := Probe(TOTAL, TOTAL), seq(count, i => 0 as bv8);
    var mem' := Written(b, mem, pos, data);
    assert mem'[b.window] == 0xFF by {
      BeyondWindowUntouched(b, mem, pos, data, b.window);
    }
    ReadAt(mem', s, n, b.window - s);
    assert Erased(mem, s, n);
    assert ReadBack(b, mem', pos, count)[b.window - s] != data[..n][b.window - s];
  }

  lemma {:induction false} LostOnThirdPage(b: Build, pos: nat, count: nat)
    requires GoodBuild(b) && !b.repaired && pos < TOTAL && Mask(b.window, pos) + Clamp(pos, count) < TOTAL
    requires Mask(b.window, pos) + Clamp(pos, count) <= b.window
    requires Offset(pos) + Clamp(pos, count) > 2 * PAGE
    ensures !RoundTrips(b, pos, count)
  {
    hide Mask, Written, Flat, Frames;
    var s, n, j := Mask(b.window, pos), Clamp(pos, count), 2 * PAGE - Offset(pos);
    var mem, data := Probe(TOTAL, TOTAL), Probe(count, j);
    ThirdPageLost(b, pos, count);
    ReadAt(Written(b, mem, pos, data), s, n, j);
    assert Erased(mem, s, n);
    assert ReadBack(b, Written(b, mem, pos, data), pos, count)[j] != data[..n][j];
  }

  lemma ReadAt(mem: seq<bv8>, addr: nat, n: nat, i: nat)
    requires addr + n <= |mem| == TOTAL && i < n
    ensures ReadBytes(mem, addr, n)[i] == mem[addr + i]
  {
    assert Mask(TOTAL, addr + i) == addr + i;
  }

  lemma {:induction false} RoundTripHolds(b: Build, mem: seq<bv8>, pos: nat, data: seq<bv8>)
    requires GoodBuild(b) && |mem| == TOTAL && pos < TOTAL
    requires var n := Clamp(pos, |data|);
      Mask(b.window, pos) + n <= b.window && (b.repaired || Offset(pos) + n <= 2 * PAGE)
    requires Erased(mem, Mask(b.window, pos), Clamp(pos, |data|))
    ensures ReadBack(b, Written(b, mem, pos, data), pos, |data|) == data[..Clamp(pos, |data|)]
  {
    hide Mask, Written, Flat, Frames, Source;
    var s, n := Mask(b.window, pos), Clamp(pos, |data|);
    WrittenIsFlat(b, mem, pos, data);
    SourceIsData(b, pos, data[..n]);
    FlatInWindow(mem, b.window, s, data[..n]);
    var mem' := Intended(mem, s, data[..n]);
    forall i | 0 <= i < n ensures ReadBytes(mem', s, n)[i] == data[..n][i] {
      ReadAt(mem', s, n, i);
    }
  }

  // ----- File positions -----

  /** *f_pos after driver_read has returned n bytes. */
  function PosAfterRead(b: Build, pos: nat, n: nat): nat
    requires b.window > 0
  {
    if b.repaired then pos + n else Mask(b.window, pos) + n
  }

  /** *f_pos after driver_write has sent n bytes: the shipped build adds the masked end address to the
      masked start. */
  function PosAfterWrite(b: Build, pos: nat, n: nat): nat
    requires b.window > 0
  {
    if b.repaired then pos + n else Mask(b.window, pos) + Mask(b.window, Mask(b.window, pos) + n)
  }

  /** However oddly it advances, the position stays on the chip. */
  lemma AdvanceStaysOnChip(b: Build, pos: nat, n: nat)
    requires GoodBuild(b) && pos + n < TOTAL
    ensures PosAfterRead(b, pos, n) < TOTAL && PosAfterWrite(b, pos, n) < TOTAL
  {
  }

  /** The shipped read advance is right exactly below the window, the shipped write advance exactly for
      a write at position 0 that is shorter than the window. */
  lemma AdvanceExact(b: Build, pos: nat, n: nat)
    requires GoodBuild(b) && pos + n < TOTAL
    ensures PosAfterRead(b, pos, n) == pos + n <==> b.repaired || pos < b.window
    ensures PosAfterWrite(b, pos, n) == pos + n <==> b.repaired || (pos == 0 && n < b.window)
  {
  }

  /** Repaired builds act as one flat write of the user's bytes, for every start and length. */
  lemma {:induction false} RepairedIsFlat(b: Build, mem: seq<bv8>, pos: nat, data: seq<bv8>)
    requires GoodBuild(b) && b.repaired && |mem| == TOTAL && pos < TOTAL
    ensures Written(b, mem, pos, data) == Flat(mem, b.window, Mask(b.window, pos), data[..Clamp(pos, |data|)])
  {
    WrittenIsFlat(b, mem, pos, data);
    SourceIsData(b, pos, data[..Clamp(pos, |data|)]);
  }

  lemma ClampSplit(pos: nat, x: seq<bv8>, y: seq<bv8>)
    requires pos < TOTAL
    ensures var n := Clamp(pos, |x|);
      && Clamp(pos, |x + y|) == n + Clamp(pos + n, |y|)
      && (x + y)[..Clamp(pos, |x + y|)] == x[..n] + y[..Clamp(pos + n, |y|)]
  {
  }

  /** Repaired builds append: two consecutive writes are one write of both parts, with the same final
      position. */
  lemma WritesAppend(b: Build, mem: seq<bv8>, pos: nat, x: seq<bv8>, y: seq<bv8>)
    requires GoodBuild(b) && b.repaired && |mem| == TOTAL && pos < TOTAL
    ensures var pos' := PosAfterWrite(b, pos, Clamp(pos, |x|));
      && pos' < TOTAL
      && Written(b, Written(b, mem, pos, x), pos', y) == Written(b, mem, pos, x + y)
      && PosAfterWrite(b, pos', Clamp(pos', |y|)) == PosAfterWrite(b, pos, Clamp(pos, |x + y|))
  {
    hide Written, Mask;
    var pos' := pos + Clamp(pos, |x|);
    var x', y', mem' := x[..Clamp(pos, |x|)], y[..Clamp(pos', |y|)], Written(b, mem, pos, x);
    assert mem' == Flat(mem, b.window, Mask(b.window, pos), x') by { RepairedIsFlat(b, mem, pos, x); }
    assert Written(b, mem', pos', y) == Flat(mem', b.window, Mask(b.window, pos'), y') by {
      RepairedIsFlat(b, mem', pos', y);
    }
    assert Written(b, mem, pos, x + y) == Flat(mem, b.window, Mask(b.window, pos), x' + y') by {
      RepairedIsFlat(b, mem, pos, x + y);
      ClampSplit(pos, x, y);
    }
    FlatConcatAt(mem, b.window, pos, x', y');
    ClampSplit(pos, x, y);
  }

  lemma FlatConcatAt(mem: seq<bv8>, window: nat, pos: nat, x: seq<bv8>, y: seq<bv8>)
    requires 0 < window <= |mem|
    ensures Flat(mem, window, Mask(window, pos), x + y)
         == Flat(Flat(mem, window, Mask(window, pos), x), window, Mask(window, pos + |x|), y)
  {
    FlatConcat(mem, window, Mask(window, pos), x, y);
    MaskAdd(window, pos, |x|);
  }

  // ----- Two reads in a row -----

  /** Reading m bytes and then n returns what reading m + n does, whatever the memory holds. */
  ghost predicate ReadsAppend(b: Build, pos: nat, m: nat, n: nat)
    requires GoodBuild(b) && pos < TOTAL
  {
    var pos' := SecondRead(b, pos, m);
    forall mem: seq<bv8> | |mem| == TOTAL ::
      ReadBack(b, mem, pos, m) + ReadBack(b, mem, pos', n) == ReadBack(b, mem, pos, m + n)
  }

  /** Where a read that follows one of m bytes finds the file position. */
  function SecondRead(b: Build, pos: nat, m: nat): (r: nat)
    requires GoodBuild(b) && pos < TOTAL
    ensures r < TOTAL
  {
    AdvanceStaysOnChip(b, pos, Clamp(pos, m));
    PosAfterRead(b, pos, Clamp(pos, m))
  }

  lemma ReadCell(b: Build, mem: seq<bv8>, pos: nat, count: nat, i: nat)
    requires GoodBuild(b) && |mem| == TOTAL && pos < TOTAL && i < Clamp(pos, count)
    ensures Mask(b.window, pos) + i < TOTAL && ReadBack(b, mem, pos, count)[i] == mem[Mask(b.window, pos) + i]
  {
    hide Mask, Clamp;
    MaskBelow(b.window, pos);
    ReadAt(mem, Mask(b.window, pos), Clamp(pos, count), i);
  }

  /** The second read goes on in the cell after the first exactly inside the window. */
  lemma SecondCell(b: Build, pos: nat, m: nat)
    requires GoodBuild(b) && pos < TOTAL
    ensures var s, n := Mask(b.window, pos), Clamp(pos, m);
      Mask(b.window, SecondRead(b, pos, m)) == s + n <==> s + n < b.window
  {
    MaskAdd(b.window, pos, Clamp(pos, m));
  }

  lemma ReadsDiffer(b: Build, pos: nat, m: nat, n: nat)
    requires GoodBuild(b) && pos < TOTAL && Clamp(SecondRead(b, pos, m), n) > 0
    requires Clamp(pos, m + n) == Clamp(pos, m) + Clamp(SecondRead(b, pos, m), n)
    requires Mask(b.window, pos) + Clamp(pos, m) >= b.window
    ensures !ReadsAppend(b, pos, m, n)
  {
    hide Mask, Clamp, ReadBack, SecondRead;
    var k, c := Clamp(pos, m), Mask(b.window, pos) + Clamp(pos, m);
    var mem := Probe(TOTAL, c);
    SecondCell(b, pos, m);
    ReadCell(b, mem, pos, m + n, k);
    ReadCell(b, mem, SecondRead(b, pos, m), n, 0);
    assert (ReadBack(b, mem, pos, m) + ReadBack(b, mem, SecondRead(b, pos, m), n))[k] == 0xFF;
  }

  lemma ReadsAgree(b: Build, mem: seq<bv8>, pos: nat, m: nat, n: nat)
    requires GoodBuild(b) && |mem| == TOTAL && pos < TOTAL
    requires Clamp(pos, m + n) == Clamp(pos, m) + Clamp(SecondRead(b, pos, m), n)
    requires Clamp(SecondRead(b, pos, m), n) == 0 || Mask(b.window, pos) + Clamp(pos, m) < b.window
    ensures ReadBack(b, mem, pos, m) + ReadBack(b, mem, SecondRead(b, pos, m), n) == ReadBack(b, mem, pos, m + n)
  {
    hide Mask, Clamp, ReadBack, SecondRead;
    var pos', k := SecondRead(b, pos, m), Clamp(pos, m);
    SecondCell(b, pos, m);
    var two, one := ReadBack(b, mem, pos, m) + ReadBack(b, mem, pos', n), ReadBack(b, mem, pos, m + n);
    forall i | 0 <= i < |one| ensures two[i] == one[i] {
      ReadCell(b, mem, pos, m + n, i);
      if i < k {
        ReadCell(b, mem, pos, m, i);
      } else {
        ReadCell(b, mem, pos', n, i - k);
      }
    }
    assert two == one;
  }

  /** Whether the two reads together are as long as the one: they are unless the end of the chip cuts the one
      short and the position has fallen back. */
  lemma ReadLengths(b: Build, pos: nat, m: nat, n: nat)
    requires GoodBuild(b) && pos < TOTAL
    ensures Clamp(pos, m + n) == Clamp(pos, m) + Clamp(SecondRead(b, pos, m), n)
       <==> n == 0 || b.repaired || pos < b.window || pos + m + n < TOTAL
  {
    MaskBelow(b.window, pos);
  }

  /** Two reads return what one read of both counts does, for all contents, exactly when they are as long as it
      and the second returns nothing or starts inside the address window. */
  lemma {:induction false} ReadsAppendExact(b: Build, pos: nat, m: nat, n: nat)
    requires GoodBuild(b) && pos < TOTAL
    ensures ReadsAppend(b, pos, m, n)
       <==> && (n == 0 || b.repaired || pos < b.window || pos + m + n < TOTAL)
            && (Clamp(SecondRead(b, pos, m), n) == 0 || Mask(b.window, pos) + Clamp(pos, m) < b.window)
  {
    hide Mask, Clamp, ReadBack, SecondRead;
    ReadLengths(b, pos, m, n);
    if Clamp(pos, m + n) != Clamp(pos, m) + Clamp(SecondRead(b, pos, m), n) {
      var mem := Probe(TOTAL, TOTAL);
      assert |ReadBack(b, mem, pos, m) + ReadBack(b, mem, SecondRead(b, pos, m), n)| != |ReadBack(b, mem, pos, m + n)|;
    } else if Clamp(SecondRead(b, pos, m), n) == 0 || Mask(b.window, pos) + Clamp(pos, m) < b.window {
      forall mem: seq<bv8> | |mem| == TOTAL
        ensures ReadBack(b, mem, pos, m) + ReadBack(b, mem, SecondRead(b, pos, m), n) == ReadBack(b, mem, pos, m + n)
      {
        ReadsAgree(b, mem, pos, m, n);
      }
    } else {
      ReadsDiffer(b, pos, m, n);
    }
  }

  // ----- The build as shipped -----

  /** The results above for the shipped driver, in plain arithmetic. */
  lemma {:induction false} ShippedExact(pos: nat, count: nat)
    requires pos < TOTAL
    ensures GoodBuild(SHIPPED) && Mask(4096, pos) == pos % 4096 && pos % 4096 + Clamp(pos, count) < TOTAL
    ensures var n := Clamp(pos, count);
      && (SplitCorrect(SHIPPED, pos, count) <==> pos % 256 + n <= 512)
      && (WriteCorrect(SHIPPED, pos, count) <==> n == 0 || (pos + n <= 4096 && pos % 256 + n <= 512))
      && (RoundTrips(SHIPPED, pos, count) <==> pos % 4096 + n <= 4096 && pos % 256 + n <= 512)
  {
    hide Mask, Clamp, SplitCorrect, WriteCorrect, RoundTrips;
    ShippedIsGood();
    MaskIsRemainder(4096, pos);
    MaskIsRemainder(PAGE, pos);
    SplitExact(SHIPPED, pos, count);
    WriteExact(SHIPPED, pos, count);
    RoundTripExact(SHIPPED, pos, count);
  }
}
