/** Calls on the pseudo device get done: what each thread's own steps lead to, from every reachable state. */
module PseudoProgress {
  import opened Common
  import opened PseudoConcurrent
  import opened PseudoSpec

  /** Steps the holder of the mutex still has to take, at most. */
  function Left(pc: Pc): nat {
    match pc
    case Locked(call) => Length(call) + 2
    case Copying(_, n, i, _) => if i < n then n - i + 1 else 1
    case _ => 0
  }

  /** The holder has returned and nothing else has happened: its call is served last, with the answer and the
      effect it has on the serial device, and the mutex is free unless the shipped no-space exit was taken. */
  ghost predicate Completed(unlocks: bool, d: Serial, s: State, t: State, h: nat, call: Call)
    requires |d.buf| > 0
  {
    var q := Replay(d, s.done);
    && h < |s.pc| == |q.pos| && q.pos[h] <= |q.buf|
    && var o := Serve(q.buf, q.pos[h], call);
       && t.done == After(s.done, Served(h, call, o.reply))
       && t.pc == s.pc[h := Idle] && t.pos == q.pos[h := o.pos] && t.buf == o.buf
       && t.lock == if !unlocks && o.reply == NoSpace then Some(h) else None
  }

  lemma BusyFacts(d: Serial, s: State)
    requires |d.buf| > 0 && Inv(d, s) && Busy(s)
    ensures var h := s.lock.value;
      && h < |s.pc| == |s.pos| && s.pos[h] <= |s.buf| && InFlight(s.pc[h]) && Underway(s, Replay(d, s.done), h)
  {
    hide Replay, Agrees, Calls;
  }

  /** The holder's next step is possible; it brings it nearer to the end, or is its last. */
  function NextOf(s: State): Step
    requires s.lock.Some? && s.lock.value < |s.pc|
  {
    var h := s.lock.value;
    match s.pc[h]
    case Copying(call, n, i, _) => if i == n || AtFault(call, n, i) then Finish(h) else CopyByte(h)
    case _ => Adjust(h)
  }

  lemma HolderSteps(unlocks: bool, d: Serial, s: State)
    requires |d.buf| > 0 && Inv(d, s) && Busy(s)
    ensures Enabled(s, NextOf(s))
    ensures var h, t := s.lock.value, Next(unlocks, s, NextOf(s));
      var call := s.pc[h].call;
      && h < |t.pc|
      && if InFlight(t.pc[h])
         then && Busy(t) && t.lock == s.lock && t.done == s.done && t.pc == s.pc[h := t.pc[h]]
              && t.pc[h].call == call && Left(t.pc[h]) < Left(s.pc[h])
         else && t.pc == s.pc[h := Idle] && t.done.After? && t.done.before == s.done
              && t.done.op.Served? && t.done.op.h == h && t.done.op.call == call
              && t.lock == if !unlocks && t.done.op.reply == NoSpace then Some(h) else None
  {
    hide Replay, Agrees, Calls, Overlay, Delivered;
    BusyFacts(d, s);
  }

  /** With the call answered, the invariant says the rest. */
  lemma AnsweredRight(unlocks: bool, d: Serial, s: State, t: State, h: nat, call: Call, reply: Reply)
    requires |d.buf| > 0 && Inv(d, s) && Inv(d, t) && h < |s.pc|
    requires t.done == After(s.done, Served(h, call, reply)) && t.pc == s.pc[h := Idle]
    requires t.lock == if !unlocks && reply == NoSpace then Some(h) else None
    ensures Completed(unlocks, d, s, t, h, call)
  {
    hide Calls, Serve, Underway;
  }

  /** Whoever holds the mutex can finish on its own. */
  lemma {:induction false} HolderFinishes(unlocks: bool, d: Serial, run: Run, h: nat) returns (run': Run)
    requires GoodStart(d) && Exec(unlocks, d, run).Some?
    requires var s := Exec(unlocks, d, run).value; Busy(s) && s.lock == Some(h)
    ensures Earlier(run, run') && Exec(unlocks, d, run').Some?
    ensures var s := Exec(unlocks, d, run).value;
      h < |s.pc| && InFlight(s.pc[h]) && Completed(unlocks, d, s, Exec(unlocks, d, run').value, h, s.pc[h].call)
    decreases Left(Exec(unlocks, d, run).value.pc[h])
  {
    hide Next, Enabled, NextOf, Left, Inv, Completed;
    var s := Exec(unlocks, d, run).value;
    RunKeepsInv(unlocks, d, run);
    HolderSteps(unlocks, d, s);
    var next := Then(run, NextOf(s));
    RunKeepsInv(unlocks, d, next);
    var t := Exec(unlocks, d, next).value;
    if InFlight(t.pc[h]) {
      run' := HolderFinishes(unlocks, d, next, h);
      SameCompletion(unlocks, d, s, t, Exec(unlocks, d, run').value, h, s.pc[h].call);
      EarlierThen(run, NextOf(s), run');
    } else {
      run' := next;
      AnsweredRight(unlocks, d, s, t, h, s.pc[h].call, t.done.op.reply);
    }
  }

  lemma SameCompletion(unlocks: bool, d: Serial, s: State, s': State, t: State, h: nat, call: Call)
    requires |d.buf| > 0 && h < |s.pc| && h < |s'.pc| && s'.done == s.done && s'.pc == s.pc[h := s'.pc[h]]
    requires Completed(unlocks, d, s', t, h, call)
    ensures Completed(unlocks, d, s, t, h, call)
  {
    assert s.pc[h := s'.pc[h]][h := Idle] == s.pc[h := Idle];
  }

  lemma {:induction false} EarlierThen(run: Run, st: Step, run': Run)
    requires Earlier(Then(run, st), run')
    ensures Earlier(run, run')
  {
    if Then(run, st) != run' {
      EarlierThen(run, st, run'.before);
    }
  }

  /** A call made while the mutex is free can be completed at once, and gets the answer and has the effect of the
      serial device. */
  lemma {:induction false} CallCompletes(unlocks: bool, d: Serial, run: Run, h: nat, call: Call) returns (run': Run)
    requires GoodStart(d) && Exec(unlocks, d, run).Some?
    requires var s := Exec(unlocks, d, run).value; s.lock == None && h < |s.pc| && s.pc[h] == Idle
    ensures Earlier(run, run') && Exec(unlocks, d, run').Some?
    ensures Completed(unlocks, d, Exec(unlocks, d, run).value, Exec(unlocks, d, run').value, h, call)
  {
    hide Inv, Completed;
    var s := Exec(unlocks, d, run).value;
    RunKeepsInv(unlocks, d, run);
    EntersMutex(unlocks, d, run, h, call);
    var held := Then(Then(run, Invoke(h, call)), Acquire(h));
    run' := HolderFinishes(unlocks, d, held, h);
    SameCompletion(unlocks, d, s, Exec(unlocks, d, held).value, Exec(unlocks, d, run').value, h, call);
    EarlierThen(Then(run, Invoke(h, call)), Acquire(h), run');
    EarlierThen(run, Invoke(h, call), run');
  }

  lemma EntersMutex(unlocks: bool, d: Serial, run: Run, h: nat, call: Call)
    requires GoodStart(d) && Exec(unlocks, d, run).Some? && Inv(d, Exec(unlocks, d, run).value)
    requires var s := Exec(unlocks, d, run).value; s.lock == None && h < |s.pc| && s.pc[h] == Idle
    ensures var s, end := Exec(unlocks, d, run).value, Exec(unlocks, d, Then(Then(run, Invoke(h, call)), Acquire(h)));
      && end.Some? && end.value.done == s.done && h < |end.value.pc|
      && end.value.pc == s.pc[h := Locked(call)] && end.value.lock == Some(h) && Busy(end.value)
  {
    hide Replay, Agrees, Calls, Underway;
    var s := Exec(unlocks, d, run).value;
    assert Exec(unlocks, d, Then(run, Invoke(h, call))) == Some(Next(unlocks, s, Invoke(h, call)));
  }

  /** A seek is answered at once, whoever holds the mutex, and moves its own handle alone. */
  lemma SeekCompletes(unlocks: bool, d: Serial, run: Run, h: nat, offset: int, whence: Whence)
    requires GoodStart(d) && Exec(unlocks, d, run).Some?
    requires var s := Exec(unlocks, d, run).value; h < |s.pc| && s.pc[h] == Idle
    ensures var s, end := Exec(unlocks, d, run).value, Exec(unlocks, d, Then(run, Seek(h, offset, whence)));
      && end.Some? && h < |s.pos|
      && var to := SeekTarget(|d.buf|, s.pos[h], offset, whence);
         end.value == s.(pos := s.pos[h := if to.Some? then to.value else s.pos[h]],
                         done := After(s.done, Moved(h, offset, whence, to)))
  {
    hide Inv;
    RunKeepsInv(unlocks, d, run);
    SizedFacts(d, Exec(unlocks, d, run).value);
  }

  lemma SizedFacts(d: Serial, s: State)
    requires |d.buf| > 0 && Inv(d, s)
    ensures |s.pos| == |s.pc| && |s.buf| == |d.buf|
  {
  }

  /** A waiting call always has a way on: the mutex if it is free, and otherwise a signal, which ends the call and
      leaves everything else as it is, even when the mutex has been abandoned. */
  lemma WaiterMovesOn(unlocks: bool, d: Serial, run: Run, h: nat)
    requires GoodStart(d) && Exec(unlocks, d, run).Some?
    requires var s := Exec(unlocks, d, run).value; h < |s.pc| && s.pc[h].Waiting?
    ensures var s := Exec(unlocks, d, run).value;
      if s.lock == None then Exec(unlocks, d, Then(run, Acquire(h))).Some?
      else Exec(unlocks, d, Then(run, Interrupt(h))) == Some(s.(pc := s.pc[h := Idle]))
  {
    hide Inv;
    RunKeepsInv(unlocks, d, run);
    SizedFacts(d, Exec(unlocks, d, run).value);
  }
}
