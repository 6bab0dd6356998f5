/** What one psd_read or psd_write does when nothing else runs: the sequential meaning of the pseudo
    character device. */
module PseudoSpec {
  import opened Common

  /** A call with the user access fault it may hit: Some(k) faults when k bytes are across, if the call
      gets that far. */
  datatype Call = Read(count: nat, fault: Option<nat>) | Write(data: seq<byte>, fault: Option<nat>)

  datatype Reply = Got(bytes: seq<byte>) | Put(n: nat) | NoSpace | Fault

  datatype Outcome = Outcome(buf: seq<byte>, pos: nat, reply: Reply)

  function Clamp(size: nat, pos: nat, count: nat): (n: nat)
    requires pos <= size
    ensures n <= count && pos + n <= size
    ensures n < count ==> pos + n == size
  {
    if pos + count > size then size - pos else count
  }

  function Length(call: Call): nat {
    match call
    case Read(count, _) => count
    case Write(data, _) => |data|
  }

  predicate Faults(fault: Option<nat>, n: nat) {
    fault.Some? && fault.value < n
  }

  /** What copy_from_user leaves in the destination: the bytes before a fault, then zeros. */
  function Delivered(data: seq<byte>, fault: Option<nat>, n: nat): (d: seq<byte>)
    requires n <= |data|
    ensures |d| == n
    ensures Faults(fault, n) ==> d[..fault.value] == data[..fault.value]
    ensures Faults(fault, n) ==> forall i :: fault.value <= i < n ==> d[i] == 0
    ensures !Faults(fault, n) ==> d == data[..n]
  {
    seq(n, i requires 0 <= i < n => if Faults(fault, n) && i >= fault.value then 0 else data[i])
  }

  /** buf with the first k bytes of src laid over it from pos. */
  function Overlay(buf: seq<byte>, pos: nat, src: seq<byte>, k: nat): (r: seq<byte>)
    requires k <= |src| && pos + k <= |buf|
    ensures |r| == |buf|
  {
    seq(|buf|, c requires 0 <= c < |buf| => if pos <= c < pos + k then src[c - pos] else buf[c])
  }

  lemma OverlayStep(buf: seq<byte>, pos: nat, src: seq<byte>, k: nat)
    requires k < |src| && pos + k < |buf|
    ensures Overlay(buf, pos, src, k)[pos + k := src[k]] == Overlay(buf, pos, src, k + 1)
  {
  }

  function Serve(buf: seq<byte>, pos: nat, call: Call): (r: Outcome)
    requires pos <= |buf|
    ensures |r.buf| == |buf| && pos <= r.pos <= |buf|
    ensures r.reply.Fault? || r.reply.NoSpace? ==> r.pos == pos
    ensures call.Read? ==> r.buf == buf
  {
    var n := Clamp(|buf|, pos, Length(call));
    match call
    case Read(_, fault) =>
      if Faults(fault, n) then Outcome(buf, pos, Fault)
      else Outcome(buf, pos + n, Got(buf[pos..pos + n]))
    case Write(data, fault) =>
      if n == 0 then Outcome(buf, pos, NoSpace)
      else
        var buf' := Overlay(buf, pos, Delivered(data, fault, n), n);
        if Faults(fault, n) then Outcome(buf', pos, Fault) else Outcome(buf', pos + n, Put(n))
  }

  /** A read, byte by byte: what lies between the position and the end of the transfer, or a fault inside it,
      after which the position has not moved. */
  lemma ServeReadExact(buf: seq<byte>, pos: nat, count: nat, fault: Option<nat>)
    requires pos <= |buf|
    ensures var o := Serve(buf, pos, Read(count, fault));
      var n := if pos + count <= |buf| then count else |buf| - pos;
      && o.buf == buf
      && if fault.Some? && fault.value < n then o.reply == Fault && o.pos == pos
         else && o.reply.Got? && |o.reply.bytes| == n && o.pos == pos + n
              && forall i :: 0 <= i < n ==> o.reply.bytes[i] == buf[pos + i]
  {
  }

  /** A write, cell by cell: the cells between the position and the end of the transfer take the data, or zeros
      from a fault on; no other cell changes; the position moves unless there was a fault or nothing to write. */
  lemma ServeWriteExact(buf: seq<byte>, pos: nat, data: seq<byte>, fault: Option<nat>)
    requires pos <= |buf|
    ensures var o := Serve(buf, pos, Write(data, fault));
      var n := if pos + |data| <= |buf| then |data| else |buf| - pos;
      var faults := fault.Some? && fault.value < n;
      && |o.buf| == |buf|
      && (forall c :: 0 <= c < |buf| ==>
            o.buf[c] == if pos <= c < pos + n then (if faults && c - pos >= fault.value then 0 else data[c - pos])
                        else buf[c])
      && o.reply == (if data == [] || pos == |buf| then NoSpace else if faults then Fault else Put(n))
      && o.pos == if faults then pos else pos + n
  {
  }

  // ----- Chunking -----

  function Total(counts: seq<nat>, k: nat): nat
    requires k <= |counts|
  {
    if k == 0 then 0 else Total(counts, k - 1) + counts[k - 1]
  }

  datatype Reads = Reads(bytes: seq<byte>, pos: nat)

  /** The bytes and the position after reading counts[0], ..., counts[k - 1] bytes in turn. */
  function ReadEach(buf: seq<byte>, pos: nat, counts: seq<nat>, k: nat): (r: Reads)
    requires pos <= |buf| && k <= |counts|
    ensures r.pos <= |buf|
  {
    if k == 0 then Reads([], pos)
    else
      var before := ReadEach(buf, pos, counts, k - 1);
      var o := Serve(buf, before.pos, Read(counts[k - 1], None));
      Reads(before.bytes + (if o.reply.Got? then o.reply.bytes else []), o.pos)
  }

  lemma ReadsJoin(buf: seq<byte>, pos: nat, x: nat, y: nat)
    requires pos <= |buf|
    ensures var m := Clamp(|buf|, pos, x);
      var n := Clamp(|buf|, pos + m, y);
      Clamp(|buf|, pos, x + y) == m + n
      && buf[pos..pos + m] + buf[pos + m..pos + m + n] == buf[pos..pos + (m + n)]
  {
  }

  lemma ServeRead(buf: seq<byte>, pos: nat, count: nat)
    requires pos <= |buf|
    ensures var n := Clamp(|buf|, pos, count);
      Serve(buf, pos, Read(count, None)) == Outcome(buf, pos + n, Got(buf[pos..pos + n]))
  {
  }

  /** Reading in chunks, of any sizes, gives the bytes and the position of one read of their sum. */
  lemma {:induction false} ChunkedReads(buf: seq<byte>, pos: nat, counts: seq<nat>, k: nat)
    requires pos <= |buf| && k <= |counts|
    ensures var r := ReadEach(buf, pos, counts, k);
      Serve(buf, pos, Read(Total(counts, k), None)) == Outcome(buf, r.pos, Got(r.bytes))
  {
    hide Serve, Clamp;
    if k == 0 {
      ServeRead(buf, pos, 0);
      assert buf[pos..pos] == [];
    } else {
      var t, c := Total(counts, k - 1), counts[k - 1];
      var before := ReadEach(buf, pos, counts, k - 1);
      assert before == Reads(buf[pos..before.pos], pos + Clamp(|buf|, pos, t)) by {
        ChunkedReads(buf, pos, counts, k - 1);
        ServeRead(buf, pos, t);
      }
      ServeRead(buf, before.pos, c);
      ReadsJoin(buf, pos, t, c);
      ServeRead(buf, pos, t + c);
    }
  }

  function Joined(chunks: seq<seq<byte>>, k: nat): seq<byte>
    requires k <= |chunks|
  {
    if k == 0 then [] else Joined(chunks, k - 1) + chunks[k - 1]
  }

  /** The buffer, the position, and whether an abandoned psd_mutex keeps every later call out. */
  datatype Writes = Writes(buf: seq<byte>, pos: nat, stuck: bool)

  /** Writing chunks[0], ..., chunks[k - 1] in turn. Unless unlocks, the no-space exit leaves the mutex
      locked, as the shipped code does. */
  function WriteEach(unlocks: bool, buf: seq<byte>, pos: nat, chunks: seq<seq<byte>>, k: nat): (r: Writes)
    requires pos <= |buf| && k <= |chunks|
    ensures r.pos <= |buf| == |r.buf|
    ensures unlocks ==> !r.stuck
  {
    if k == 0 then Writes(buf, pos, false)
    else
      var before := WriteEach(unlocks, buf, pos, chunks, k - 1);
      if before.stuck then before
      else
        var o := Serve(before.buf, before.pos, Write(chunks[k - 1], None));
        Writes(o.buf, o.pos, o.reply.NoSpace? && !unlocks)
  }

  /** Buffer and position after the part of data that fits is written at pos. */
  function WriteFits(buf: seq<byte>, pos: nat, data: seq<byte>): (r: Writes)
    requires pos <= |buf|
  {
    var n := Clamp(|buf|, pos, |data|);
    Writes(Overlay(buf, pos, data, n), pos + n, false)
  }

  lemma ServeWriteFits(buf: seq<byte>, pos: nat, data: seq<byte>)
    requires pos <= |buf|
    ensures var o := Serve(buf, pos, Write(data, None));
      && Writes(o.buf, o.pos, false) == WriteFits(buf, pos, data)
      && (o.reply.NoSpace? <==> data == [] || pos == |buf|)
      && (o.reply.NoSpace? ==> o.buf == buf && o.pos == pos)
  {
  }

  lemma FitsAppend(buf: seq<byte>, pos: nat, x: seq<byte>, y: seq<byte>)
    requires pos <= |buf|
    ensures var w := WriteFits(buf, pos, x);
      WriteFits(w.buf, w.pos, y) == WriteFits(buf, pos, x + y)
  {
  }

  /** With the no-space exit unlocking, writing in chunks of any sizes leaves the buffer and the position
      of one write of their concatenation. */
  lemma {:induction false} ChunkedWrites(buf: seq<byte>, pos: nat, chunks: seq<seq<byte>>, k: nat)
    requires pos <= |buf| && k <= |chunks|
    ensures WriteEach(true, buf, pos, chunks, k) == WriteFits(buf, pos, Joined(chunks, k))
  {
    if k == 0 {
      assert Overlay(buf, pos, [], 0) == buf;
    } else {
      ChunkedWrites(buf, pos, chunks, k - 1);
      var w := WriteEach(true, buf, pos, chunks, k - 1);
      ServeWriteFits(w.buf, w.pos, chunks[k - 1]);
      FitsAppend(buf, pos, Joined(chunks, k - 1), chunks[k - 1]);
    }
  }

  /** The shipped code agrees until the first chunk that finds nothing to write, and takes in nothing
      after it. */
  lemma {:induction false} ShippedWrites(buf: seq<byte>, pos: nat, chunks: seq<seq<byte>>, k: nat) returns (j: nat)
    requires pos <= |buf| && k <= |chunks|
    ensures j <= k
    ensures var w, full := WriteEach(false, buf, pos, chunks, k), WriteEach(true, buf, pos, chunks, j);
      && w.buf == full.buf && w.pos == full.pos
      && w.stuck == (j < k)
      && (j < k ==> chunks[j] == [] || full.pos == |buf|)
    ensures forall i :: 0 <= i < j ==> chunks[i] != []
  {
    hide Serve, Clamp;
    if k == 0 {
      j := 0;
    } else {
      j := ShippedWrites(buf, pos, chunks, k - 1);
      if j == k - 1 {
        var w := WriteEach(true, buf, pos, chunks, k - 1);
        ServeWriteFits(w.buf, w.pos, chunks[k - 1]);
        if !(chunks[k - 1] == [] || w.pos == |buf|) {
          j := k;
        }
      }
    }
  }

  lemma {:induction false} JoinedLength(chunks: seq<seq<byte>>, j: nat, k: nat)
    requires j <= k <= |chunks|
    ensures |Joined(chunks, j)| <= |Joined(chunks, k)|
    ensures |Joined(chunks, j)| == |Joined(chunks, k)| <==> forall i :: j <= i < k ==> chunks[i] == []
    decreases k
  {
    if j < k {
      JoinedLength(chunks, j, k - 1);
    }
  }

  lemma ShippedPositionExact(buf: seq<byte>, pos: nat, chunks: seq<seq<byte>>)
    requires pos <= |buf|
    ensures var whole := WriteFits(buf, pos, Joined(chunks, |chunks|));
      WriteEach(false, buf, pos, chunks, |chunks|).pos == whole.pos
      <==> forall i, j :: 0 <= i < j < |chunks| && chunks[i] == [] && chunks[j] != [] ==>
             pos + |Joined(chunks, i)| >= |buf|
  {
    var k := |chunks|;
    var m := ShippedWrites(buf, pos, chunks, k);
    ChunkedWrites(buf, pos, chunks, m);
    JoinedLength(chunks, m, k);
    var whole := WriteFits(buf, pos, Joined(chunks, k));
    if m < k && chunks[m] == [] && pos + |Joined(chunks, m)| < |buf| {
      if i :| m <= i < k && chunks[i] != [] {
        assert WriteEach(false, buf, pos, chunks, k).pos != whole.pos;
      }
    }
    forall i, j | 0 <= i < j < k && chunks[i] == [] && chunks[j] != [] && pos + |Joined(chunks, i)| < |buf|
      ensures WriteEach(false, buf, pos, chunks, k).pos != whole.pos
    {
      assert m <= i;
      JoinedLength(chunks, m, i);
      JoinedLength(chunks, m, k);
    }
  }

  lemma {:induction false} JoinedPrefix(chunks: seq<seq<byte>>, j: nat, k: nat)
    requires j <= k <= |chunks|
    ensures |Joined(chunks, j)| <= |Joined(chunks, k)| && Joined(chunks, k)[..|Joined(chunks, j)|] == Joined(chunks, j)
    decreases k
  {
    if j < k {
      JoinedPrefix(chunks, j, k - 1);
    }
  }

  /** Writing less of the same data leaves the same buffer exactly when what is missing was there already. */
  lemma FitsPrefix(buf: seq<byte>, pos: nat, x: seq<byte>, y: seq<byte>)
    requires pos <= |buf| && |x| <= |y| && y[..|x|] == x
    ensures var w, v := WriteFits(buf, pos, x), WriteFits(buf, pos, y);
      && pos <= w.pos <= v.pos <= |buf| && v.pos <= pos + |y|
      && (w.buf == v.buf <==> forall c :: w.pos <= c < v.pos ==> buf[c] == y[c - pos])
  {
    var w, v := WriteFits(buf, pos, x), WriteFits(buf, pos, y);
    if c :| w.pos <= c < v.pos && buf[c] != y[c - pos] {
      assert w.buf[c] != v.buf[c];
    } else {
      forall c | 0 <= c < |buf| ensures w.buf[c] == v.buf[c] {
        if pos <= c < w.pos {
          assert x[c - pos] == y[..|x|][c - pos];
        }
      }
      assert w.buf == v.buf;
    }
  }

  /** Chunked writes through the shipped code reach the position of one whole write exactly when no empty
      chunk comes before a non-empty one while there is still room, and then the buffer is the same too. The
      buffer alone is the same exactly when the bytes not taken in were in their places already. */
  lemma {:induction false} ShippedChunksExact(buf: seq<byte>, pos: nat, chunks: seq<seq<byte>>)
    requires pos <= |buf|
    ensures var data := Joined(chunks, |chunks|);
      var whole, w := WriteFits(buf, pos, data), WriteEach(false, buf, pos, chunks, |chunks|);
      && (w.pos == whole.pos
          <==> forall i, j :: 0 <= i < j < |chunks| && chunks[i] == [] && chunks[j] != [] ==>
                 pos + |Joined(chunks, i)| >= |buf|)
      && pos <= w.pos <= whole.pos <= |buf| && whole.pos <= pos + |data|
      && (w.buf == whole.buf <==> forall c :: w.pos <= c < whole.pos ==> buf[c] == data[c - pos])
  {
    hide WriteEach, WriteFits;
    var m := ShippedWrites(buf, pos, chunks, |chunks|);
    ChunkedWrites(buf, pos, chunks, m);
    JoinedPrefix(chunks, m, |chunks|);
    FitsPrefix(buf, pos, Joined(chunks, m), Joined(chunks, |chunks|));
    ShippedPositionExact(buf, pos, chunks);
  }
}
