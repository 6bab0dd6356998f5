/** Any number of open handles calling into the pseudo device at once, one call per handle at a time.
    Every byte copied under psd_mutex is a step of its own. */
module PseudoConcurrent {
  import opened Common
  import opened PseudoSpec

  /** Where a handle's thread stands. Copying: count clamped to n, i bytes across, got is what a read has
      handed over so far. */
  datatype Pc =
    | Idle
    | Waiting(call: Call)
    | Locked(call: Call)
    | Copying(call: Call, n: nat, i: nat, got: seq<byte>)

  datatype Op = Served(h: nat, call: Call, reply: Reply) | Moved(h: nat, offset: int, whence: Whence, to: Option<nat>)

  /** What happened so far, latest last: calls when they return, seeks when they happen. */
  datatype History = Empty | After(before: History, op: Op)

  datatype State = State(
    buf: seq<byte>,
    pos: seq<nat>,
    pc: seq<Pc>,
    lock: Option<nat>,
    acquired: seq<(nat, Call)>,
    done: History)

  datatype Step =
    | Invoke(h: nat, call: Call)
    | Interrupt(h: nat)
    | Seek(h: nat, offset: int, whence: Whence)
    | Acquire(h: nat)
    | Adjust(h: nat)
    | CopyByte(h: nat)
    | Finish(h: nat)

  /** A read stops at its fault; a write goes on, storing zeros. */
  predicate AtFault(call: Call, n: nat, i: nat) {
    call.Read? && Faults(call.fault, n) && i == call.fault.value
  }

  predicate Sized(s: State) {
    |s.buf| > 0 && |s.pos| == |s.pc| && forall h :: 0 <= h < |s.pos| ==> s.pos[h] <= |s.buf|
  }

  /** When a step can be taken. The bounds on positions only make the step's indices meaningful: they always
      hold where a thread stands, or it could not move on (see ProgressExact). */
  predicate Enabled(s: State, st: Step) {
    && st.h < |s.pc| == |s.pos|
    && match st
       case Invoke(h, _) => s.pc[h] == Idle
       case Interrupt(h) => s.pc[h].Waiting? && s.lock.Some?
       case Seek(h, _, _) => s.pc[h] == Idle
       case Acquire(h) => s.pc[h].Waiting? && s.lock == None
       case Adjust(h) => s.pc[h].Locked? && s.pos[h] <= |s.buf|
       case CopyByte(h) =>
         && s.pc[h].Copying? && s.pc[h].i < s.pc[h].n && !AtFault(s.pc[h].call, s.pc[h].n, s.pc[h].i)
         && s.pos[h] + s.pc[h].n <= |s.buf| && s.pc[h].n <= Length(s.pc[h].call)
       case Finish(h) =>
         && s.pc[h].Copying? && (s.pc[h].i == s.pc[h].n || AtFault(s.pc[h].call, s.pc[h].n, s.pc[h].i))
  }

  /** Leave the critical section with a reply and a new position. */
  function Return(s: State, h: nat, call: Call, reply: Reply, pos: nat, lock: Option<nat>): State
    requires h < |s.pc| == |s.pos|
  {
    s.(pos := s.pos[h := pos], pc := s.pc[h := Idle], lock := lock, done := After(s.done, Served(h, call, reply)))
  }

  /** One step. unlocks says whether the no-space exit of psd_write releases the mutex. */
  function Next(unlocks: bool, s: State, st: Step): State
    requires |s.buf| > 0 && Enabled(s, st)
  {
    var h := st.h;
    match st
    case Invoke(_, call) => s.(pc := s.pc[h := Waiting(call)])
    case Interrupt(_) => s.(pc := s.pc[h := Idle])
    case Seek(_, offset, whence) =>
      var to := SeekTarget(|s.buf|, s.pos[h], offset, whence);
      s.(pos := s.pos[h := if to.Some? then to.value else s.pos[h]],
         done := After(s.done, Moved(h, offset, whence, to)))
    case Acquire(_) =>
      var call := s.pc[h].call;
      s.(pc := s.pc[h := Locked(call)], lock := Some(h), acquired := s.acquired + [(h, call)])
    case Adjust(_) =>
      var call := s.pc[h].call;
      var n := Clamp(|s.buf|, s.pos[h], Length(call));
      if call.Write? && n == 0 then Return(s, h, call, NoSpace, s.pos[h], if unlocks then None else s.lock)
      else s.(pc := s.pc[h := Copying(call, n, 0, [])])
    case CopyByte(_) =>
      var Copying(call, n, i, got) := s.pc[h];
      if call.Read? then s.(pc := s.pc[h := Copying(call, n, i + 1, got + [s.buf[s.pos[h] + i]])])
      else s.(buf := s.buf[s.pos[h] + i := Delivered(call.data, call.fault, n)[i]],
              pc := s.pc[h := Copying(call, n, i + 1, got)])
    case Finish(_) =>
      var Copying(call, n, i, got) := s.pc[h];
      if Faults(call.fault, n) then Return(s, h, call, Fault, s.pos[h], None)
      else if call.Read? then Return(s, h, call, Got(got), s.pos[h] + n, None)
      else Return(s, h, call, Put(n), s.pos[h] + n, None)
  }

  // ----- The serial device -----

  datatype Serial = Serial(buf: seq<byte>, pos: seq<nat>)

  /** The same operations, one at a time. */
  function Perform(d: Serial, op: Op): (r: (Serial, bool))
    requires |d.buf| > 0
    ensures |r.0.buf| == |d.buf|
  {
    if op.h >= |d.pos| || d.pos[op.h] > |d.buf| then (d, false)
    else
      match op
      case Served(h, call, reply) =>
        var o := Serve(d.buf, d.pos[h], call);
        (Serial(o.buf, d.pos[h := o.pos]), o.reply == reply)
      case Moved(h, offset, whence, to) =>
        var target := SeekTarget(|d.buf|, d.pos[h], offset, whence);
        (Serial(d.buf, d.pos[h := if target.Some? then target.value else d.pos[h]]), target == to)
  }

  function Replay(d: Serial, done: History): (r: Serial)
    requires |d.buf| > 0
    ensures |r.buf| == |d.buf|
  {
    match done
    case Empty => d
    case After(before, op) => Perform(Replay(d, before), op).0
  }

  /** Every answer in the history is the one the serial device gives at that point. */
  ghost predicate Agrees(d: Serial, done: History)
    requires |d.buf| > 0
  {
    done.After? ==> Agrees(d, done.before) && Perform(Replay(d, done.before), done.op).1
  }

  /** The calls of a history in order, without the seeks. */
  function Calls(done: History): seq<(nat, Call)> {
    match done
    case Empty => []
    case After(before, op) => if op.Served? then Calls(before) + [(op.h, op.call)] else Calls(before)
  }

  // ----- Runs -----

  datatype Run = Begin | Then(before: Run, step: Step)

  function Start(d: Serial): State {
    State(d.buf, d.pos, seq(|d.pos|, _ => Idle), None, [], Empty)
  }

  ghost predicate GoodStart(d: Serial) {
    |d.buf| > 0 && forall h :: 0 <= h < |d.pos| ==> d.pos[h] <= |d.buf|
  }

  /** The state a run ends in, if every step of it was possible. */
  function Exec(unlocks: bool, d: Serial, run: Run): (r: Option<State>)
    requires |d.buf| > 0
    ensures r.Some? ==> |r.value.buf| == |d.buf|
  {
    match run
    case Begin => Some(Start(d))
    case Then(before, st) =>
      var s := Exec(unlocks, d, before);
      if s.Some? && Enabled(s.value, st) then Some(Next(unlocks, s.value, st)) else None
  }

  // ----- The invariant -----

  predicate InFlight(pc: Pc) {
    pc.Locked? || pc.Copying?
  }

  /** The call inside the critical section, if there is one. */
  ghost predicate Busy(s: State) {
    s.lock.Some? && s.lock.value < |s.pc| && InFlight(s.pc[s.lock.value])
  }

  /** How far the holder has come, measured against the serial state before its call. */
  ghost predicate Underway(s: State, q: Serial, h: nat)
    requires h < |s.pc| == |s.pos| && s.pos[h] <= |q.buf|
  {
    match s.pc[h]
    case Copying(call, n, i, got) =>
      && n == Clamp(|q.buf|, s.pos[h], Length(call)) && i <= n
      && (call.Read? ==>
            && s.buf == q.buf && got == q.buf[s.pos[h]..s.pos[h] + i]
            && (Faults(call.fault, n) ==> i <= call.fault.value))
      && (call.Write? ==> n > 0 && s.buf == Overlay(q.buf, s.pos[h], Delivered(call.data, call.fault, n), i))
    case _ => s.buf == q.buf
  }

  ghost predicate Inv(d: Serial, s: State)
    requires |d.buf| > 0
  {
    var q := Replay(d, s.done);
    && Sized(s) && |s.buf| == |d.buf|
    && s.pos == q.pos && Agrees(d, s.done)
    && (forall h :: 0 <= h < |s.pc| && InFlight(s.pc[h]) ==> s.lock == Some(h))
    && (Busy(s) ==> Underway(s, q, s.lock.value)
                    && s.acquired == Calls(s.done) + [(s.lock.value, s.pc[s.lock.value].call)])
    && (!Busy(s) ==> s.buf == q.buf && s.acquired == Calls(s.done))
  }

  lemma StartInv(d: Serial)
    requires GoodStart(d)
    ensures Inv(d, Start(d))
  {
  }

  lemma OutsideStep(unlocks: bool, d: Serial, s: State, st: Step)
    requires |d.buf| > 0 && Inv(d, s) && Enabled(s, st) && (st.Invoke? || st.Interrupt?)
    ensures Inv(d, Next(unlocks, s, st))
  {
  }

  lemma SeekStep(unlocks: bool, d: Serial, s: State, st: Step)
    requires |d.buf| > 0 && Inv(d, s) && Enabled(s, st) && st.Seek?
    ensures Inv(d, Next(unlocks, s, st))
  {
  }

  lemma AcquireStep(unlocks: bool, d: Serial, s: State, st: Step)
    requires |d.buf| > 0 && Inv(d, s) && Enabled(s, st) && st.Acquire?
    ensures Inv(d, Next(unlocks, s, st))
  {
  }

  lemma AdjustStep(unlocks: bool, d: Serial, s: State, st: Step)
    requires |d.buf| > 0 && Inv(d, s) && Enabled(s, st) && st.Adjust?
    ensures Inv(d, Next(unlocks, s, st))
  {
    var q, h, s' := Replay(d, s.done), st.h, Next(unlocks, s, st);
    var call := s.pc[h].call;
    assert Busy(s) && s.lock == Some(h);
    var n := Clamp(|s.buf|, s.pos[h], Length(call));
    if call.Write? && n == 0 {
      assert Serve(q.buf, q.pos[h], call) == Outcome(q.buf, q.pos[h], NoSpace);
      assert q.pos[h := q.pos[h]] == q.pos;
      assert !Busy(s');
    } else {
      assert Busy(s') && s'.pc[h] == Copying(call, n, 0, []);
      assert q.buf[s.pos[h]..s.pos[h]] == [];
      if call.Write? {
        assert Overlay(q.buf, s.pos[h], Delivered(call.data, call.fault, n), 0) == q.buf;
      }
    }
  }

  lemma CopyStep(unlocks: bool, d: Serial, s: State, st: Step)
    requires |d.buf| > 0 && Inv(d, s) && Enabled(s, st) && st.CopyByte?
    ensures Inv(d, Next(unlocks, s, st))
  {
    hide Agrees, Calls, Replay;
    var q, h, s' := Replay(d, s.done), st.h, Next(unlocks, s, st);
    var Copying(call, n, i, got) := s.pc[h];
    var p := s.pos[h];
    assert Busy(s) && s.lock == Some(h) && Busy(s');
    if call.Read? {
      assert q.buf[p..p + i] + [q.buf[p + i]] == q.buf[p..p + (i + 1)];
    } else {
      OverlayStep(q.buf, p, Delivered(call.data, call.fault, n), i);
    }
  }

  lemma FinishStep(unlocks: bool, d: Serial, s: State, st: Step)
    requires |d.buf| > 0 && Inv(d, s) && Enabled(s, st) && st.Finish?
    ensures Inv(d, Next(unlocks, s, st))
  {
  }

  lemma {:induction false} StepKeepsInv(unlocks: bool, d: Serial, s: State, st: Step)
    requires |d.buf| > 0 && Inv(d, s) && Enabled(s, st)
    ensures Inv(d, Next(unlocks, s, st))
  {
    hide *;
    match st
    case Invoke(_, _) => OutsideStep(unlocks, d, s, st);
    case Interrupt(_) => OutsideStep(unlocks, d, s, st);
    case Seek(_, _, _) => SeekStep(unlocks, d, s, st);
    case Acquire(_) => AcquireStep(unlocks, d, s, st);
    case Adjust(_) => AdjustStep(unlocks, d, s, st);
    case CopyByte(_) => CopyStep(unlocks, d, s, st);
    case Finish(_) => FinishStep(unlocks, d, s, st);
  }

  lemma {:induction false} RunKeepsInv(unlocks: bool, d: Serial, run: Run)
    requires GoodStart(d) && Exec(unlocks, d, run).Some?
    ensures Inv(d, Exec(unlocks, d, run).value)
  {
    match run
    case Begin => StartInv(d);
    case Then(before, st) =>
      RunKeepsInv(unlocks, d, before);
      StepKeepsInv(unlocks, d, Exec(unlocks, d, before).value, st);
  }

  // ----- Main results -----

  /** Serialisability. In every run over any number of handles, every call that has returned and every
      seek got the answer of a device that does one operation at a time in the order of the history;
      the calls of that history are the calls in the order they took the mutex; the positions are the
      serial ones; and whenever no call is inside the mutex so is the buffer. */
  lemma {:induction false} Serialisable(unlocks: bool, d: Serial, run: Run)
    requires GoodStart(d) && Exec(unlocks, d, run).Some?
    ensures var s := Exec(unlocks, d, run).value;
      && Agrees(d, s.done)
      && s.pos == Replay(d, s.done).pos
      && (!Busy(s) ==> s.buf == Replay(d, s.done).buf && s.acquired == Calls(s.done))
      && (Busy(s) ==> s.acquired == Calls(s.done) + [(s.lock.value, s.pc[s.lock.value].call)])
  {
    RunKeepsInv(unlocks, d, run);
  }

  /** At most one call is between taking and releasing the mutex. */
  lemma MutualExclusion(unlocks: bool, d: Serial, run: Run, g: nat, h: nat)
    requires GoodStart(d) && Exec(unlocks, d, run).Some?
    requires var s := Exec(unlocks, d, run).value;
      g < |s.pc| && h < |s.pc| && InFlight(s.pc[g]) && InFlight(s.pc[h])
    ensures g == h
  {
    RunKeepsInv(unlocks, d, run);
  }

  /** Positions stay inside the device, ends included, in every run. */
  lemma PositionsStayInside(unlocks: bool, d: Serial, run: Run, h: nat)
    requires GoodStart(d) && Exec(unlocks, d, run).Some? && h < |Exec(unlocks, d, run).value.pos|
    ensures Exec(unlocks, d, run).value.pos[h] <= |d.buf|
  {
    RunKeepsInv(unlocks, d, run);
  }

  /** Some call so far was turned away for want of space. */
  predicate SawNoSpace(done: History) {
    done.After? && (SawNoSpace(done.before) || (done.op.Served? && done.op.reply == NoSpace))
  }

  /** The guard of the no-space exit: a write of no bytes, or at the end of the buffer. */
  predicate NoRoom(q: Serial, op: Op) {
    op.Served? && op.call.Write? && op.h < |q.pos| && (op.call.data == [] || q.pos[op.h] == |q.buf|)
  }

  /** Some call so far met that guard when its turn came. */
  predicate MetNoRoom(d: Serial, done: History)
    requires |d.buf| > 0
  {
    done.After? && (MetNoRoom(d, done.before) || NoRoom(Replay(d, done.before), done.op))
  }

  /** The calls turned away for want of space are those that met the guard. */
  lemma {:induction false} NoSpaceExact(d: Serial, done: History)
    requires |d.buf| > 0 && Agrees(d, done)
    ensures SawNoSpace(done) <==> MetNoRoom(d, done)
  {
    if done.After? {
      NoSpaceExact(d, done.before);
    }
  }

  /** The mutex is held by a thread that has left. */
  ghost predicate Abandoned(s: State) {
    s.lock.Some? && !Busy(s)
  }

  lemma StepAbandons(unlocks: bool, d: Serial, s: State, st: Step)
    requires |d.buf| > 0 && Inv(d, s) && Enabled(s, st)
    requires Abandoned(s) <==> !unlocks && SawNoSpace(s.done)
    ensures var s' := Next(unlocks, s, st);
      Abandoned(s') <==> !unlocks && SawNoSpace(s'.done)
  {
  }

  lemma {:induction false} AbandonedWhen(unlocks: bool, d: Serial, run: Run)
    requires GoodStart(d) && Exec(unlocks, d, run).Some?
    ensures var s := Exec(unlocks, d, run).value;
      Abandoned(s) <==> !unlocks && SawNoSpace(s.done)
  {
    if run.Then? {
      RunKeepsInv(unlocks, d, run.before);
      AbandonedWhen(unlocks, d, run.before);
      StepAbandons(unlocks, d, Exec(unlocks, d, run.before).value, run.step);
    }
  }

  /** The shipped psd_write abandons the mutex exactly when some write was of no bytes or met the end of the
      buffer; once the no-space exit unlocks, the mutex is never abandoned. */
  lemma {:induction false} AbandonedExact(unlocks: bool, d: Serial, run: Run)
    requires GoodStart(d) && Exec(unlocks, d, run).Some?
    ensures var s := Exec(unlocks, d, run).value;
      Abandoned(s) <==> !unlocks && MetNoRoom(d, s.done)
  {
    hide Abandoned, SawNoSpace, MetNoRoom;
    AbandonedWhen(unlocks, d, run);
    RunKeepsInv(unlocks, d, run);
    NoSpaceExact(d, Exec(unlocks, d, run).value.done);
  }

  /** Some thread can take a step of its own, without a new call, a seek or a signal. */
  ghost predicate CanMove(s: State) {
    exists h: nat :: MovesAt(s, h)
  }

  predicate MovesAt(s: State, h: nat) {
    Enabled(s, Acquire(h)) || Enabled(s, Adjust(h)) || Enabled(s, CopyByte(h)) || Enabled(s, Finish(h))
  }

  /** Deadlock, exactly: with a call outstanding, some thread can move unless, in the shipped code, some
      write was of no bytes or met the end of the buffer. */
  lemma ProgressExact(unlocks: bool, d: Serial, run: Run, w: nat)
    requires GoodStart(d) && Exec(unlocks, d, run).Some?
    requires w < |Exec(unlocks, d, run).value.pc| && Exec(unlocks, d, run).value.pc[w] != Idle
    ensures var s := Exec(unlocks, d, run).value;
      CanMove(s) <==> unlocks || !MetNoRoom(d, s.done)
  {
    hide Exec, Agrees, Calls, Replay, Clamp, Delivered, Overlay, MetNoRoom;
    var s := Exec(unlocks, d, run).value;
    RunKeepsInv(unlocks, d, run);
    AbandonedExact(unlocks, d, run);
    if Busy(s) {
      assert MovesAt(s, s.lock.value);
    } else if s.lock == None {
      assert MovesAt(s, w);
    } else {
      forall h: nat ensures !MovesAt(s, h) {
      }
    }
  }

  /** An earlier point of a run. */
  ghost predicate Earlier(early: Run, run: Run) {
    early == run || (run.Then? && Earlier(early, run.before))
  }

  /** After the shipped no-space exit no call ever takes the mutex again, in any continuation. */
  lemma {:induction false} NeverAgain(d: Serial, early: Run, run: Run)
    requires GoodStart(d) && Earlier(early, run) && Exec(false, d, run).Some?
    requires Exec(false, d, early).Some? && MetNoRoom(d, Exec(false, d, early).value.done)
    ensures var s, s' := Exec(false, d, early).value, Exec(false, d, run).value;
      && MetNoRoom(d, s'.done) && s'.acquired == s.acquired && s'.buf == s.buf
      && Calls(s'.done) == Calls(s.done)
  {
    hide Agrees, Replay, Clamp, Delivered, Overlay;
    if early != run {
      NeverAgain(d, early, run.before);
      RunKeepsInv(false, d, run.before);
      AbandonedExact(false, d, run.before);
    }
  }

  /** And it can happen: from every start, one empty write on any handle leads there, and the next call on
      any handle waits for ever. */
  lemma {:induction false} DeadlockReached(d: Serial, h: nat, g: nat, call: Call) returns (run: Run)
    requires GoodStart(d) && h < |d.pos| && g < |d.pos|
    ensures Exec(false, d, run).Some?
    ensures var s := Exec(false, d, run).value;
      Abandoned(s) && MetNoRoom(d, s.done) && g < |s.pc| && s.pc[g] == Waiting(call) && !CanMove(s)
  {
    hide CanMove, Inv;
    var empty := Write([], None);
    var r1 := Then(Begin, Invoke(h, empty));
    assert Exec(false, d, r1).Some?;
    var r2 := Then(r1, Acquire(h));
    assert Exec(false, d, r2).Some?;
    var r3 := Then(r2, Adjust(h));
    assert Exec(false, d, r3).Some? && Exec(false, d, r3).value.done == After(Empty, Served(h, empty, NoSpace));
    run := Then(r3, Invoke(g, call));
    AbandonedExact(false, d, run);
    ProgressExact(false, d, run, g);
  }
}
