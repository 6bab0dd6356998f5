/** What a thread in poll() gets done when nothing interrupts it, from every reachable state. */
module PollProgress {
  import opened Common
  import opened PollMachine
  import opened PollTheorems

  // ----- One scan -----

  /** Masks exist only within a scan, and nobody sleeps past its time. */
  ghost predicate Orderly(s: State) {
    forall p {:trigger s.pollers[p]} :: 0 <= p < |s.pollers| ==>
      && (s.pollers[p].maskIn ==> Deciding(s.pollers[p]))
      && (s.pollers[p].maskOut ==> s.pollers[p].stage == Returning)
      && (s.pollers[p].stage == Asleep ==> !s.pollers[p].expired)
  }

  lemma StepOrderly(s: State, st: Step)
    requires Orderly(s) && Enabled(s, st)
    ensures Orderly(Next(s, st))
  {
  }

  lemma {:induction false} RunOrderly(s0: State, run: Run)
    requires Initial(s0) && Exec(s0, run).Some?
    ensures Orderly(Exec(s0, run).value)
  {
    if run.Then? {
      RunOrderly(s0, run.before);
      StepOrderly(Exec(s0, run.before).value, run.step);
    }
  }

  /** Nothing but thread p and the flags differs. */
  ghost predicate Elsewhere(s: State, t: State, p: nat) {
    && t.version == s.version && t.stores == s.stores && t.setters == s.setters
    && |t.pollers| == |s.pollers| && forall i :: 0 <= i < |s.pollers| && i != p ==> t.pollers[i] == s.pollers[i]
  }

  /** From s, where p is about to scan, to t: both flags are cleared; what was set and asked for is reported, each
      once; and p leaves poll() if there was something to report or its time is up, scans again if it was
      triggered before, and sleeps otherwise. */
  ghost predicate ScanResult(s: State, t: State, p: nat) {
    && p < |s.pollers| && Elsewhere(s, t, p) && !t.canRead && !t.canWrite
    && var x, y := s.pollers[p], t.pollers[p];
       var pollIn, pollOut := s.canRead && x.wantIn, s.canWrite && x.wantOut;
       && y.reports == x.reports + (if pollIn then 1 else 0)
       && y.outReports == x.outReports + (if pollOut then 1 else 0)
       && y.wantIn == x.wantIn && y.wantOut == x.wantOut && y.expired == x.expired
       && if pollIn || pollOut || x.expired then y.stage == Out && !y.registered
          else if x.triggered then y.stage == Entered && !y.triggered && y.registered
          else y.stage == Asleep && !y.triggered && y.registered
  }

  lemma ReadHalf(s0: State, run: Run, p: nat)
    requires Exec(s0, run).Some? && At(Exec(s0, run).value, p, TestIn)
    ensures var s := Exec(s0, run).value;
      var end := Exec(s0, ReadTaken(run, p, s.canRead));
      && end.Some? && Elsewhere(s, end.value, p) && !end.value.canRead && end.value.canWrite == s.canWrite
      && var x, y := s.pollers[p], end.value.pollers[p];
         y == x.(stage := TestOut, maskIn := x.maskIn || s.canRead, hits := x.hits + if s.canRead then 1 else 0)
  {
    var s := Exec(s0, run).value;
    var t := Next(s, TestRead(p));
    assert Exec(s0, Then(run, TestRead(p))) == Some(t);
    if s.canRead {
      assert Exec(s0, Then(Then(run, TestRead(p)), ClearRead(p))) == Some(Next(t, ClearRead(p)));
    }
  }

  lemma WriteHalf(s0: State, run: Run, p: nat)
    requires Exec(s0, run).Some? && At(Exec(s0, run).value, p, TestOut)
    ensures var s := Exec(s0, run).value;
      var end := Exec(s0, WriteTaken(run, p, s.canWrite));
      && end.Some? && Elsewhere(s, end.value, p) && !end.value.canWrite && end.value.canRead == s.canRead
      && var x, y := s.pollers[p], end.value.pollers[p];
         y == x.(stage := Returning, maskOut := x.maskOut || s.canWrite)
  {
    var s := Exec(s0, run).value;
    var t := Next(s, TestWrite(p));
    assert Exec(s0, Then(run, TestWrite(p))) == Some(t);
    if s.canWrite {
      assert Exec(s0, Then(Then(run, TestWrite(p)), ClearWrite(p))) == Some(Next(t, ClearWrite(p)));
    }
  }

  /** The step at the end of a run, on its own thread. */
  lemma OneStep(s0: State, run: Run, st: Step, p: nat)
    requires Exec(s0, run).Some? && Enabled(Exec(s0, run).value, st) && Mover(st) == Some(p)
    requires st.Begin? || st.Register? || st.Return? || st.Resume? || st.Expire?
    ensures var s := Exec(s0, run).value;
      var end := Exec(s0, Then(run, st));
      && end.Some? && p < |s.pollers| && Elsewhere(s, end.value, p)
      && end.value.canRead == s.canRead && end.value.canWrite == s.canWrite
      && var x, y := s.pollers[p], end.value.pollers[p];
         y == match st
              case Begin(_, wantIn, wantOut) =>
                x.(stage := Entered, triggered := false, expired := false, wantIn := wantIn, wantOut := wantOut)
              case Register(_) => x.(stage := TestIn, registered := true)
              case Return(_) => Returned(x)
              case Resume(_) => x.(stage := Entered, triggered := false)
              case _ => x.(stage := Entered, triggered := false, expired := true)
  {
  }

  /** A thread about to scan can go through etx_poll on its own, and this is what comes of it. */
  lemma ScanFinishes(s0: State, run: Run, p: nat)
    requires Initial(s0) && Exec(s0, run).Some? && At(Exec(s0, run).value, p, Entered)
    ensures var s := Exec(s0, run).value;
      var end := Exec(s0, Scanned(run, p, s.canRead, s.canWrite));
      end.Some? && ScanResult(s, end.value, p)
  {
    hide Exec, Next, Initial;
    RunOrderly(s0, run);
    var s := Exec(s0, run).value;
    var r1 := Then(run, Register(p));
    OneStep(s0, run, Register(p), p);
    ReadHalf(s0, r1, p);
    var r2 := ReadTaken(r1, p, s.canRead);
    WriteHalf(s0, r2, p);
    var r3 := WriteTaken(r2, p, s.canWrite);
    OneStep(s0, r3, Return(p), p);
  }

  // ----- From outside and from sleep -----

  /** poll() called with nobody else running: it returns what is set and asked for, and sleeps if nothing is. */
  lemma PollOnce(s0: State, run: Run, p: nat, wantIn: bool, wantOut: bool)
    requires Initial(s0) && Exec(s0, run).Some? && At(Exec(s0, run).value, p, Out)
    ensures var s := Exec(s0, run).value;
      var end := Exec(s0, Scanned(Then(run, Begin(p, wantIn, wantOut)), p, s.canRead, s.canWrite));
      && end.Some? && Elsewhere(s, end.value, p) && !end.value.canRead && !end.value.canWrite
      && var x, y := s.pollers[p], end.value.pollers[p];
         && y.reports == x.reports + (if s.canRead && wantIn then 1 else 0)
         && y.outReports == x.outReports + (if s.canWrite && wantOut then 1 else 0)
         && (if (s.canRead && wantIn) || (s.canWrite && wantOut) then y.stage == Out && !y.registered
             else y.stage == Asleep && y.registered && y.wantIn == wantIn && y.wantOut == wantOut)
  {
    hide Exec, Next, Initial;
    OneStep(s0, run, Begin(p, wantIn, wantOut), p);
    ScanFinishes(s0, Then(run, Begin(p, wantIn, wantOut)), p);
  }

  /** A sleeper that was triggered scans again: what is set by then and asked for is reported and cleared, and
      it goes back to sleep only if there is none of it. */
  lemma WokenReports(s0: State, run: Run, p: nat)
    requires Initial(s0) && Exec(s0, run).Some?
    requires At(Exec(s0, run).value, p, Asleep) && Exec(s0, run).value.pollers[p].triggered
    ensures var s := Exec(s0, run).value;
      var end := Exec(s0, Scanned(Then(run, Resume(p)), p, s.canRead, s.canWrite));
      && end.Some? && Elsewhere(s, end.value, p) && !end.value.canRead && !end.value.canWrite
      && var x, y := s.pollers[p], end.value.pollers[p];
         && (s.canRead && x.wantIn ==> y.stage == Out && !y.registered && y.reports == x.reports + 1)
         && (s.canWrite && x.wantOut ==> y.stage == Out && !y.registered && y.outReports == x.outReports + 1)
         && (!(s.canRead && x.wantIn) && !(s.canWrite && x.wantOut) ==>
               y.stage == Asleep && y.registered && y.reports == x.reports && y.outReports == x.outReports)
  {
    hide Exec, Next, Initial;
    RunOrderly(s0, run);
    OneStep(s0, run, Resume(p), p);
    ScanFinishes(s0, Then(run, Resume(p)), p);
  }

  /** A sleeper whose time is up scans once more and leaves poll(), whatever is set. */
  lemma SleeperTimesOut(s0: State, run: Run, p: nat)
    requires Initial(s0) && Exec(s0, run).Some? && At(Exec(s0, run).value, p, Asleep)
    ensures var s := Exec(s0, run).value;
      var end := Exec(s0, Scanned(Then(run, Expire(p)), p, s.canRead, s.canWrite));
      && end.Some? && Elsewhere(s, end.value, p) && !end.value.canRead && !end.value.canWrite
      && var x, y := s.pollers[p], end.value.pollers[p];
         && y.stage == Out && !y.registered
         && y.reports == x.reports + (if s.canRead && x.wantIn then 1 else 0)
         && y.outReports == x.outReports + (if s.canWrite && x.wantOut then 1 else 0)
  {
    hide Exec, Next, Initial;
    OneStep(s0, run, Expire(p), p);
    ScanFinishes(s0, Then(run, Expire(p)), p);
  }

  // ----- From a store to a report -----

  /** sysfs_store by thread q, on its own. */
  function Stored(run: Run, q: nat): Run {
    Then(Then(Then(run, Copy(q)), RaiseRead(q)), Wake(q))
  }

  /** sysfs_show by thread q, on its own. */
  function Shown(run: Run, q: nat): Run {
    Then(Then(run, RaiseWrite(q)), Wake(q))
  }

  lemma StoreWakes(s0: State, run: Run, p: nat, q: nat)
    requires Exec(s0, run).Some? && At(Exec(s0, run).value, p, Asleep) && Exec(s0, run).value.pollers[p].registered
    requires q < |Exec(s0, run).value.setters| && Exec(s0, run).value.setters[q] == Resting
    ensures var s := Exec(s0, run).value;
      var end := Exec(s0, Stored(run, q));
      && end.Some? && end.value.canRead && end.value.canWrite == s.canWrite
      && end.value.version == s.version + 1 && end.value.stores == s.stores + 1
      && p < |end.value.pollers| && end.value.pollers[p] == s.pollers[p].(triggered := true)
  {
    var s := Exec(s0, run).value;
    var s1 := Next(s, Copy(q));
    assert Exec(s0, Then(run, Copy(q))) == Some(s1);
    var s2 := Next(s1, RaiseRead(q));
    assert Exec(s0, Then(Then(run, Copy(q)), RaiseRead(q))) == Some(s2);
  }

  lemma ShowWakes(s0: State, run: Run, p: nat, q: nat)
    requires Exec(s0, run).Some? && At(Exec(s0, run).value, p, Asleep) && Exec(s0, run).value.pollers[p].registered
    requires q < |Exec(s0, run).value.setters| && Exec(s0, run).value.setters[q] == Resting
    ensures var s := Exec(s0, run).value;
      var end := Exec(s0, Shown(run, q));
      && end.Some? && end.value.canWrite && end.value.canRead == s.canRead && end.value.version == s.version
      && p < |end.value.pollers| && end.value.pollers[p] == s.pollers[p].(triggered := true)
  {
    var s := Exec(s0, run).value;
    var s1 := Next(s, RaiseWrite(q));
    assert Exec(s0, Then(run, RaiseWrite(q))) == Some(s1);
  }

  lemma SleeperRegistered(s0: State, run: Run, p: nat)
    requires Initial(s0) && Exec(s0, run).Some? && At(Exec(s0, run).value, p, Asleep)
    ensures Exec(s0, run).value.pollers[p].registered
  {
    RunKeepsAttentive(s0, run);
    assert Attentive(Exec(s0, run).value, p);
  }

  /** From every reachable state: a store by any idle thread reaches a sleeper that asks for POLLIN. It wakes,
      scans and returns POLLIN. */
  lemma {:induction false} StoreReachesSleeper(s0: State, run: Run, p: nat, q: nat)
    requires Initial(s0) && Exec(s0, run).Some? && At(Exec(s0, run).value, p, Asleep)
    requires Exec(s0, run).value.pollers[p].wantIn
    requires q < |Exec(s0, run).value.setters| && Exec(s0, run).value.setters[q] == Resting
    ensures var s := Exec(s0, run).value;
      var end := Exec(s0, Scanned(Then(Stored(run, q), Resume(p)), p, true, s.canWrite));
      && end.Some? && !end.value.canRead && p < |end.value.pollers|
      && end.value.pollers[p].stage == Out && !end.value.pollers[p].registered
      && end.value.pollers[p].reports == s.pollers[p].reports + 1
  {
    hide Exec, Next, Initial, Stored;
    SleeperRegistered(s0, run, p);
    StoreWakes(s0, run, p, q);
    WokenReports(s0, Stored(run, q), p);
  }

  /** And reading the sysfs file reaches a sleeper that asks for POLLOUT. */
  lemma {:induction false} ShowReachesSleeper(s0: State, run: Run, p: nat, q: nat)
    requires Initial(s0) && Exec(s0, run).Some? && At(Exec(s0, run).value, p, Asleep)
    requires Exec(s0, run).value.pollers[p].wantOut
    requires q < |Exec(s0, run).value.setters| && Exec(s0, run).value.setters[q] == Resting
    ensures var s := Exec(s0, run).value;
      var end := Exec(s0, Scanned(Then(Shown(run, q), Resume(p)), p, s.canRead, true));
      && end.Some? && !end.value.canWrite && p < |end.value.pollers|
      && end.value.pollers[p].stage == Out && !end.value.pollers[p].registered
      && end.value.pollers[p].outReports == s.pollers[p].outReports + 1
  {
    hide Exec, Next, Initial, Shown;
    SleeperRegistered(s0, run, p);
    ShowWakes(s0, run, p, q);
    WokenReports(s0, Shown(run, q), p);
  }

  // ----- No wakeup without a cause -----

  lemma TriggeredBy(s: State, st: Step, p: nat)
    requires Enabled(s, st) && p < |Next(s, st).pollers| && Next(s, st).pollers[p].triggered
    ensures p < |s.pollers| && (s.pollers[p].triggered || (st.Wake? && s.pollers[p].registered))
  {
  }

  /** A sleeper resumes only after some wake_up that found it in the queue. */
  lemma {:induction false} WokenBy(s0: State, run: Run, p: nat) returns (w: Run, q: nat)
    requires Initial(s0) && Exec(s0, run).Some? && p < |Exec(s0, run).value.pollers|
    requires Exec(s0, run).value.pollers[p].triggered
    ensures Earlier(Then(w, Wake(q)), run) && Exec(s0, w).Some? && Enabled(Exec(s0, w).value, Wake(q))
    ensures p < |Exec(s0, w).value.pollers| && Exec(s0, w).value.pollers[p].registered
    decreases run
  {
    hide Next;
    TriggeredBy(Exec(s0, run.before).value, run.step, p);
    if Exec(s0, run.before).value.pollers[p].triggered {
      w, q := WokenBy(s0, run.before, p);
    } else {
      w, q := run.before, run.step.q;
    }
  }

  lemma {:induction false} NoSpuriousResume(s0: State, run: Run, p: nat) returns (w: Run, q: nat)
    requires Initial(s0) && Exec(s0, run).Some? && Enabled(Exec(s0, run).value, Resume(p))
    ensures Earlier(Then(w, Wake(q)), run) && Exec(s0, w).Some? && Enabled(Exec(s0, w).value, Wake(q))
    ensures p < |Exec(s0, w).value.pollers| && Exec(s0, w).value.pollers[p].registered
  {
    w, q := WokenBy(s0, run, p);
  }
}
