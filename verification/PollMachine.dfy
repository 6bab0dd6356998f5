/** The poll example under sequential consistency: any number of threads storing to or showing the sysfs
    file, any number of threads in poll(), no lock. Each access to a shared flag is a step of its own. */
module PollMachine {
  import opened Common

  /** A thread in sysfs_store (Copied, RaisedRead, carrying the version it stored) or sysfs_show
      (RaisedWrite). */
  datatype Setter = Resting | Copied(version: nat) | RaisedRead(version: nat) | RaisedWrite

  datatype Stage = Out | Entered | TestIn | ClearIn | TestOut | ClearOut | Returning | Asleep

  /** A thread in poll(): registered and triggered are its wait queue entry, wantIn and wantOut the events it
      asks for, maskIn and maskOut the mask etx_poll builds. hits counts tests that found can_read set,
      reports the POLLIN returns, outReports the POLLOUT returns, and swallowed the times can_read was cleared
      for a thread that had not asked for POLLIN. */
  datatype Poller = Poller(stage: Stage, registered: bool, triggered: bool, expired: bool,
                           wantIn: bool, wantOut: bool, maskIn: bool, maskOut: bool,
                           hits: nat, reports: nat, swallowed: nat, outReports: nat)

  /** version counts the values etx_value has had; stores counts the settings of can_read. */
  datatype State = State(canRead: bool, canWrite: bool, version: nat, stores: nat,
                         setters: seq<Setter>, pollers: seq<Poller>)

  datatype Step =
    | Copy(q: nat)        // sysfs_store: strcpy into etx_value
    | RaiseRead(q: nat)   // sysfs_store: can_read = true
    | RaiseWrite(q: nat)  // sysfs_show: can_write = true
    | Wake(q: nat)        // wake_up, in either
    | DeviceWrite         // etx_write
    | Begin(p: nat, wantIn: bool, wantOut: bool)  // poll() starts
    | Register(p: nat)    // etx_poll: poll_wait
    | TestRead(p: nat)    // etx_poll: if (can_read)
    | ClearRead(p: nat)   // etx_poll: can_read = false, mask |= POLLIN
    | TestWrite(p: nat)   // etx_poll: if (can_write)
    | ClearWrite(p: nat)  // etx_poll: can_write = false, mask |= POLLOUT
    | Return(p: nat)      // etx_poll returns; poll() reports, sleeps or scans again
    | Resume(p: nat)      // poll() wakes because it was triggered
    | Expire(p: nat)      // poll() wakes because its time is up

  predicate At(s: State, p: nat, stage: Stage) {
    p < |s.pollers| && s.pollers[p].stage == stage
  }

  predicate Enabled(s: State, st: Step) {
    match st
    case Copy(q) => q < |s.setters| && s.setters[q] == Resting
    case RaiseRead(q) => q < |s.setters| && s.setters[q].Copied?
    case RaiseWrite(q) => q < |s.setters| && s.setters[q] == Resting
    case Wake(q) => q < |s.setters| && (s.setters[q].RaisedRead? || s.setters[q].RaisedWrite?)
    case DeviceWrite => true
    case Begin(p, _, _) => At(s, p, Out)
    case Register(p) => At(s, p, Entered)
    case TestRead(p) => At(s, p, TestIn)
    case ClearRead(p) => At(s, p, ClearIn)
    case TestWrite(p) => At(s, p, TestOut)
    case ClearWrite(p) => At(s, p, ClearOut)
    case Return(p) => At(s, p, Returning)
    case Resume(p) => At(s, p, Asleep) && s.pollers[p].triggered
    case Expire(p) => At(s, p, Asleep)
  }

  function Put(s: State, p: nat, poller: Poller): State
    requires p < |s.pollers|
  {
    s.(pollers := s.pollers[p := poller])
  }

  function Triggered(poller: Poller): Poller {
    if poller.registered then poller.(triggered := true) else poller
  }

  /** What poll() does with the mask etx_poll returns: keep the events asked for, report them if there are any,
      give up when its time is over, scan again if it was triggered meanwhile, or sleep. */
  function Returned(poller: Poller): Poller {
    var x := poller.(maskIn := false, maskOut := false,
                     reports := poller.reports + if poller.maskIn && poller.wantIn then 1 else 0,
                     swallowed := poller.swallowed + if poller.maskIn && !poller.wantIn then 1 else 0,
                     outReports := poller.outReports + if poller.maskOut && poller.wantOut then 1 else 0);
    if (poller.maskIn && poller.wantIn) || (poller.maskOut && poller.wantOut) || poller.expired then
      x.(stage := Out, registered := false)
    else if poller.triggered then x.(stage := Entered, triggered := false)
    else x.(stage := Asleep)
  }

  function Next(s: State, st: Step): State
    requires Enabled(s, st)
  {
    match st
    case Copy(q) => s.(version := s.version + 1, setters := s.setters[q := Copied(s.version + 1)])
    case RaiseRead(q) =>
      s.(canRead := true, stores := s.stores + 1, setters := s.setters[q := RaisedRead(s.setters[q].version)])
    case RaiseWrite(q) => s.(canWrite := true, setters := s.setters[q := RaisedWrite])
    case Wake(q) =>
      s.(setters := s.setters[q := Resting],
         pollers := seq(|s.pollers|, p requires 0 <= p < |s.pollers| => Triggered(s.pollers[p])))
    case DeviceWrite => s.(version := s.version + 1)
    case Begin(p, wantIn, wantOut) =>
      Put(s, p, s.pollers[p].(stage := Entered, triggered := false, expired := false,
                              wantIn := wantIn, wantOut := wantOut))
    case Register(p) => Put(s, p, s.pollers[p].(stage := TestIn, registered := true))
    case TestRead(p) =>
      if s.canRead then Put(s, p, s.pollers[p].(stage := ClearIn, hits := s.pollers[p].hits + 1))
      else Put(s, p, s.pollers[p].(stage := TestOut))
    case ClearRead(p) => Put(s, p, s.pollers[p].(stage := TestOut, maskIn := true)).(canRead := false)
    case TestWrite(p) => Put(s, p, s.pollers[p].(stage := if s.canWrite then ClearOut else Returning))
    case ClearWrite(p) => Put(s, p, s.pollers[p].(stage := Returning, maskOut := true)).(canWrite := false)
    case Return(p) => Put(s, p, Returned(s.pollers[p]))
    case Resume(p) => Put(s, p, s.pollers[p].(stage := Entered, triggered := false))
    case Expire(p) => Put(s, p, s.pollers[p].(stage := Entered, triggered := false, expired := true))
  }

  /** The steps taken so far, latest last. */
  datatype Run = Start | Then(before: Run, step: Step)

  /** The state a run from s ends in, if every step of it was possible. */
  function Exec(s: State, run: Run): Option<State> {
    match run
    case Start => Some(s)
    case Then(before, st) =>
      var t := Exec(s, before);
      if t.Some? && Enabled(t.value, st) then Some(Next(t.value, st)) else None
  }

  /** The run once p has tested can_read and, if it was set, cleared it. */
  function ReadTaken(run: Run, p: nat, wasSet: bool): Run {
    if wasSet then Then(Then(run, TestRead(p)), ClearRead(p)) else Then(run, TestRead(p))
  }

  function WriteTaken(run: Run, p: nat, wasSet: bool): Run {
    if wasSet then Then(Then(run, TestWrite(p)), ClearWrite(p)) else Then(run, TestWrite(p))
  }

  /** The run once p has gone through etx_poll on its own and finished. */
  function Scanned(run: Run, p: nat, readSet: bool, writeSet: bool): Run {
    Then(WriteTaken(ReadTaken(Then(run, Register(p)), p, readSet), p, writeSet), Return(p))
  }

  /** An earlier point of a run, itself included. */
  ghost predicate Earlier(early: Run, run: Run) {
    early == run || (run.Then? && Earlier(early, run.before))
  }

  lemma {:induction false} EarlierTrans(x: Run, y: Run, z: Run)
    requires Earlier(x, y) && Earlier(y, z)
    ensures Earlier(x, z)
  {
    if y != z {
      EarlierTrans(x, y, z.before);
    }
  }

  const IDLE := Poller(Out, false, false, false, false, false, false, false, 0, 0, 0, 0)

  /** Module load: both flags clear, nobody in the driver. */
  ghost predicate Initial(s: State) {
    && !s.canRead && !s.canWrite && s.stores == 0
    && (forall q :: 0 <= q < |s.setters| ==> s.setters[q] == Resting)
    && (forall p :: 0 <= p < |s.pollers| ==> s.pollers[p] == IDLE)
  }
}
