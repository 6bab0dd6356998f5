/** The poll example's entry points as they run when nothing interrupts them: each updates the driver's
    globals in place, and each extends a run of the step machine. */
module PollDevice {
  import opened Common
  import opened PollMachine
  import opened PollTheorems

  class EtxDevice {
    /** can_read and can_write. */
    var canRead: bool
    var canWrite: bool
    /** Which value etx_value holds. */
    var version: nat
    /** Times can_read was set. */
    var stores: nat
    /** The threads in the driver; registered pollers are the entries of wait_queue_etx_data. */
    var setters: seq<Setter>
    var pollers: seq<Poller>
    /** Everything that has happened since the module was loaded. */
    ghost const start: State
    ghost var run: Run

    ghost function View(): State
      reads this
    {
      State(canRead, canWrite, version, stores, setters, pollers)
    }

    ghost predicate Valid()
      reads this
    {
      Initial(start) && Exec(start, run) == Some(View())
    }

    constructor (threads: nat, pollers: nat)
      ensures Valid() && run == Start && |setters| == threads && |this.pollers| == pollers
    {
      canRead, canWrite, version, stores := false, false, 0, 0;
      setters := seq(threads, _ => Resting);
      this.pollers := seq(pollers, _ => IDLE);
      start := State(false, false, 0, 0, seq(threads, _ => Resting), seq(pollers, _ => IDLE));
      run := Start;
    }

    method WakeUp(q: nat)
      requires Valid() && Enabled(View(), Wake(q))
      modifies this
      ensures Valid() && run == Then(old(run), Wake(q)) && View() == Next(old(View()), Wake(q))
      ensures |setters| == |old(setters)| && setters[q] == Resting
      ensures |pollers| == |old(pollers)|
      ensures forall p :: 0 <= p < |pollers| ==>
                pollers[p] == old(pollers)[p].(triggered := old(pollers)[p].triggered || old(pollers)[p].registered)
      ensures canRead == old(canRead) && canWrite == old(canWrite) && version == old(version)
    {
      setters := setters[q := Resting];
      var queue := pollers;
      pollers := seq(|queue|, p requires 0 <= p < |queue| => Triggered(queue[p]));
      assert View() == Next(old(View()), Wake(q));
      run := Then(run, Wake(q));
    }

    method SysfsShow(q: nat) returns (value: nat)
      requires Valid() && q < |setters| && setters[q] == Resting
      modifies this
      ensures Valid() && run == Then(Then(old(run), RaiseWrite(q)), Wake(q))
      ensures value == version == old(version) && canWrite && canRead == old(canRead)
      ensures forall p :: 0 <= p < |pollers| && pollers[p].registered ==> pollers[p].triggered
    {
      hide Initial;
      canWrite := true;
      setters := setters[q := RaisedWrite];
      run := Then(run, RaiseWrite(q));
      WakeUp(q);
      value := version;
    }

    method SysfsStore(q: nat)
      requires Valid() && q < |setters| && setters[q] == Resting
      modifies this
      ensures Valid() && run == Then(Then(Then(old(run), Copy(q)), RaiseRead(q)), Wake(q))
      ensures version == old(version) + 1 && canRead && canWrite == old(canWrite)
      ensures forall p :: 0 <= p < |pollers| && pollers[p].registered ==> pollers[p].triggered
    {
      hide Initial;
      version := version + 1;
      setters := setters[q := Copied(version)];
      run := Then(run, Copy(q));
      assert Valid();
      canRead, stores := true, stores + 1;
      setters := setters[q := RaisedRead(version)];
      run := Then(run, RaiseRead(q));
      assert Valid();
      WakeUp(q);
    }

    /** etx_read. The value is that of the latest write, by sysfs_store or etx_write; whoever was told POLLIN
        before finds one at least as new as that of a store it was told about. */
    method EtxRead() returns (value: nat)
      requires Valid()
      ensures value == version == start.version + ValueWrites(run)
      ensures forall early, w, st :: Earlier(early, w) && Earlier(Then(w, st), run) && WritesValue(st) ==>
                WrittenAfter(start, early, Then(w, st), value)
      ensures forall r, p :: Announces(start, r, p, run) ==> FreshFor(start, r, p, value)
    {
      value := version;
      VersionExact(start, run);
      forall early, w, st | Earlier(early, w) && Earlier(Then(w, st), run) && WritesValue(st)
        ensures WrittenAfter(start, early, Then(w, st), value)
      {
        WritesAreNew(start, early, w, st, run);
      }
      forall r, p | Announces(start, r, p, run) ensures FreshFor(start, r, p, value) {
        ReportsAreFresh(start, r, p, run);
      }
    }

    method EtxWrite()
      requires Valid()
      modifies this
      ensures Valid() && run == Then(old(run), DeviceWrite) && version == old(version) + 1
      ensures canRead == old(canRead) && canWrite == old(canWrite) && stores == old(stores)
      ensures setters == old(setters) && pollers == old(pollers)
    {
      version := version + 1;
      run := Then(run, DeviceWrite);
    }

    /** What poll() itself does for thread p around etx_poll: start, act on the mask, wake up. A woken thread
        goes back to etx_poll. */
    method PollStep(st: Step)
      requires Valid() && Enabled(View(), st) && (st.Begin? || st.Return? || st.Resume? || st.Expire?)
      modifies this`pollers, this`run
      ensures Valid() && run == Then(old(run), st)
      ensures st.p < |pollers| == |old(pollers)|
      ensures forall i :: 0 <= i < |pollers| && i != st.p ==> pollers[i] == old(pollers)[i]
      ensures var x, y := old(pollers)[st.p], pollers[st.p];
        match st
        case Begin(_, wantIn, wantOut) =>
          y == x.(stage := Entered, triggered := false, expired := false, wantIn := wantIn, wantOut := wantOut)
        case Resume(_) => y == x.(stage := Entered, triggered := false)
        case Expire(_) => y == x.(stage := Entered, triggered := false, expired := true)
        case _ =>
          var pollIn, pollOut := x.maskIn && x.wantIn, x.maskOut && x.wantOut;
          && !y.maskIn && !y.maskOut && y.wantIn == x.wantIn && y.wantOut == x.wantOut && y.expired == x.expired
          && y.reports == x.reports + (if pollIn then 1 else 0)
          && y.outReports == x.outReports + (if pollOut then 1 else 0)
          && (if pollIn || pollOut || x.expired then y.stage == Out && !y.registered
              else if x.triggered then y.stage == Entered && !y.triggered && y.registered == x.registered
              else y.stage == Asleep && !y.triggered && y.registered == x.registered)
    {
      match st {
        case Begin(p, wantIn, wantOut) =>
          pollers := pollers[p := pollers[p].(stage := Entered, triggered := false, expired := false,
                                              wantIn := wantIn, wantOut := wantOut)];
        case Return(p) => pollers := pollers[p := Returned(pollers[p])];
        case Resume(p) => pollers := pollers[p := pollers[p].(stage := Entered, triggered := false)];
        case Expire(p) =>
          pollers := pollers[p := pollers[p].(stage := Entered, triggered := false, expired := true)];
      }
      run := Then(run, st);
    }

    /** The can_read half of etx_poll: test, then clear and put POLLIN in the mask. */
    method TakeRead(p: nat) returns (pollIn: bool)
      requires Valid() && At(View(), p, TestIn)
      modifies this`canRead, this`pollers, this`run
      ensures Valid() && run == ReadTaken(old(run), p, pollIn)
      ensures pollIn == old(canRead) && !canRead
      ensures At(View(), p, TestOut) && pollers[p].registered == old(pollers[p].registered)
      ensures pollers[p].maskIn == (pollIn || old(pollers[p].maskIn)) && pollers[p].maskOut == old(pollers[p].maskOut)
    {
      hide Initial;
      pollIn := false;
      if canRead {
        pollers := pollers[p := pollers[p].(stage := ClearIn, hits := pollers[p].hits + 1)];
        run := Then(run, TestRead(p));
        assert Valid();
        canRead := false;
        pollIn := true;
        pollers := pollers[p := pollers[p].(stage := TestOut, maskIn := true)];
        run := Then(run, ClearRead(p));
      } else {
        pollers := pollers[p := pollers[p].(stage := TestOut)];
        run := Then(run, TestRead(p));
      }
    }

    /** The can_write half. */
    method TakeWrite(p: nat) returns (pollOut: bool)
      requires Valid() && At(View(), p, TestOut)
      modifies this`canWrite, this`pollers, this`run
      ensures Valid() && run == WriteTaken(old(run), p, pollOut)
      ensures pollOut == old(canWrite) && !canWrite
      ensures At(View(), p, Returning) && pollers[p].registered == old(pollers[p].registered)
      ensures pollers[p].maskIn == old(pollers[p].maskIn) && pollers[p].maskOut == (pollOut || old(pollers[p].maskOut))
    {
      hide Initial;
      pollOut := false;
      if canWrite {
        pollers := pollers[p := pollers[p].(stage := ClearOut)];
        run := Then(run, TestWrite(p));
        assert Valid();
        canWrite := false;
        pollOut := true;
        pollers := pollers[p := pollers[p].(stage := Returning, maskOut := true)];
        run := Then(run, ClearWrite(p));
      } else {
        pollers := pollers[p := pollers[p].(stage := Returning)];
        run := Then(run, TestWrite(p));
      }
    }

    /** etx_poll, called by poll() for the thread p. */
    method EtxPoll(p: nat) returns (pollIn: bool, pollOut: bool)
      requires Valid() && At(View(), p, Entered)
      modifies this`canRead, this`canWrite, this`pollers, this`run
      ensures Valid()
      ensures run == WriteTaken(ReadTaken(Then(old(run), Register(p)), p, pollIn), p, pollOut)
      ensures pollIn == old(canRead) && pollOut == old(canWrite)
      ensures !canRead && !canWrite
      ensures At(View(), p, Returning) && pollers[p].registered
      ensures pollers[p].maskIn == (pollIn || old(pollers[p].maskIn))
      ensures pollers[p].maskOut == (pollOut || old(pollers[p].maskOut))
    {
      pollers := pollers[p := pollers[p].(stage := TestIn, registered := true)];
      run := Then(run, Register(p));
      pollIn := TakeRead(p);
      pollOut := TakeWrite(p);
    }
  }

  /** value is newer than the value at point early, and at least as new as the one at point written. */
  ghost predicate WrittenAfter(s0: State, early: Run, written: Run, value: nat) {
    && Exec(s0, early).Some? && Exec(s0, written).Some?
    && Exec(s0, early).value.version < Exec(s0, written).value.version <= value
  }
}
