/** The pseudo character device's file operations, one call at a time. */
module PseudoDevice {
  import opened Common
  import opened PseudoSpec

  /** What a call returns. Hung: psd_mutex was abandoned and no signal comes, so the call never returns. */
  datatype Result = Served(reply: Reply) | Interrupted | Hung

  class Device {
    const buffer: array<byte>
    /** psd_mutex */
    var mutexHeld: bool
    /** Whether the no-space exit of psd_write unlocks; the shipped code does not. */
    const unlocks: bool

    constructor (size: nat, unlocks: bool)
      requires size > 0
      ensures buffer.Length == size && fresh(buffer) && !mutexHeld && this.unlocks == unlocks
      ensures forall i :: 0 <= i < size ==> buffer[i] == 0
    {
      buffer := new byte[size](_ => 0);
      mutexHeld := false;
      this.unlocks := unlocks;
    }
  }

  /** An open file of the device. */
  class Handle {
    const dev: Device
    /** filp->f_pos */
    var pos: nat

    ghost predicate Valid()
      reads this
    {
      pos <= dev.buffer.Length && dev.buffer.Length > 0
    }

    constructor (dev: Device)
      requires dev.buffer.Length > 0
      ensures Valid() && this.dev == dev && pos == 0
    {
      this.dev := dev;
      pos := 0;
    }

    method Llseek(offset: int, whence: Whence) returns (r: Option<nat>)
      requires Valid()
      modifies this
      ensures Valid()
      ensures r == SeekTarget(dev.buffer.Length, old(pos), offset, whence)
      ensures pos == if r.Some? then r.value else old(pos)
    {
      var size := dev.buffer.Length;
      var temp := match whence
        case Set => offset
        case Cur => pos + offset
        case End => size - 1 + offset
        case Other => -1;
      if temp > size - 1 || temp < 0 {
        return None;
      }
      pos := temp;
      return Some(pos);
    }

    /** psd_read. signalled: a signal arrives should the call have to wait for the mutex. */
    method Read(count: nat, fault: Option<nat>, signalled: bool) returns (r: Result)
      requires Valid()
      modifies this, dev
      ensures Valid() && dev.mutexHeld == old(dev.mutexHeld)
      ensures if old(dev.mutexHeld) then r == (if signalled then Interrupted else Hung) && pos == old(pos)
              else
                var o := Serve(dev.buffer[..], old(pos), PseudoSpec.Call.Read(count, fault));
                r == Served(o.reply) && pos == o.pos
    {
      if dev.mutexHeld {
        return if signalled then Interrupted else Hung;
      }
      dev.mutexHeld := true;
      var n := count;
      if pos + n > dev.buffer.Length {
        n := dev.buffer.Length - pos;
      }
      // copy_to_user stops at a fault, and then the bytes it moved are not reported
      if fault.Some? && fault.value < n {
        dev.mutexHeld := false;
        return Served(Fault);
      }
      var bytes := dev.buffer[pos..pos + n];
      pos := pos + n;
      dev.mutexHeld := false;
      return Served(Got(bytes));
    }

    /** psd_write. */
    method Write(data: seq<byte>, fault: Option<nat>, signalled: bool) returns (r: Result)
      requires Valid()
      modifies this, dev, dev.buffer
      ensures Valid()
      ensures if old(dev.mutexHeld) then
                && r == (if signalled then Interrupted else Hung)
                && pos == old(pos) && dev.buffer[..] == old(dev.buffer[..]) && dev.mutexHeld
              else
                var o := Serve(old(dev.buffer[..]), old(pos), PseudoSpec.Call.Write(data, fault));
                && r == Served(o.reply) && pos == o.pos && dev.buffer[..] == o.buf
                && dev.mutexHeld == (o.reply == NoSpace && !dev.unlocks)
    {
      if dev.mutexHeld {
        return if signalled then Interrupted else Hung;
      }
      dev.mutexHeld := true;
      var n := |data|;
      if pos + n > dev.buffer.Length {
        n := dev.buffer.Length - pos;
      }
      if n == 0 {
        // The shipped code returns here with the mutex held.
        dev.mutexHeld := !dev.unlocks;
        return Served(NoSpace);
      }
      CopyFromUser(dev.buffer, pos, data, n, fault);
      dev.mutexHeld := false;
      if fault.Some? && fault.value < n {
        return Served(Fault);
      }
      pos := pos + n;
      return Served(Put(n));
    }
  }

  /** The kernel's copy_from_user: bytes up to a fault, then zeros. */
  method CopyFromUser(buffer: array<byte>, at: nat, data: seq<byte>, n: nat, fault: Option<nat>)
    requires n <= |data| && at + n <= buffer.Length
    modifies buffer
    ensures buffer[..] == Overlay(old(buffer[..]), at, Delivered(data, fault, n), n)
  {
    forall i | 0 <= i < n {
      buffer[at + i] := if fault.Some? && fault.value < n && i >= fault.value then 0 else data[i];
    }
    var d := Delivered(data, fault, n);
    forall c | 0 <= c < buffer.Length
      ensures buffer[c] == Overlay(old(buffer[..]), at, d, n)[c]
    {
      if at <= c < at + n {
        assert buffer[at + (c - at)] == d[c - at];
      }
    }
  }
}
