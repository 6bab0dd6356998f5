/** Wakeups, events and values in the poll example, over all runs. */
module PollTheorems {
  import opened Common
  import opened PollMachine

  // ----- No lost wakeup -----

  /** Some store has set can_read and not called wake_up yet. */
  ghost predicate ReadWakePending(s: State) {
    exists q :: 0 <= q < |s.setters| && s.setters[q].RaisedRead?
  }

  ghost predicate WriteWakePending(s: State) {
    exists q :: 0 <= q < |s.setters| && s.setters[q] == RaisedWrite
  }

  /** The poller is done with can_read in this scan. */
  predicate PastRead(x: Poller) {
    x.stage == TestOut || x.stage == ClearOut || x.stage == Returning || x.stage == Asleep
  }

  predicate PastWrite(x: Poller) {
    x.stage == Returning || x.stage == Asleep
  }

  /** A poller beyond its test of can_read is registered, and has not overlooked the flag: it was
      triggered, or the wake-up is still to come. Likewise for can_write. */
  ghost predicate Attentive(s: State, p: nat)
    requires p < |s.pollers|
  {
    var x := s.pollers[p];
    && (x.stage != Out && x.stage != Entered ==> x.registered)
    && (PastRead(x) && s.canRead && !x.triggered ==> ReadWakePending(s))
    && (PastWrite(x) && s.canWrite && !x.triggered ==> WriteWakePending(s))
  }

  ghost predicate AllAttentive(s: State) {
    forall p {:trigger Attentive(s, p)} :: 0 <= p < |s.pollers| ==> Attentive(s, p)
  }

  /** Only wake_up itself ends the time between setting a flag and waking. */
  lemma PendingMoves(s: State, st: Step)
    requires Enabled(s, st) && !st.Wake?
    ensures ReadWakePending(s) ==> ReadWakePending(Next(s, st))
    ensures WriteWakePending(s) ==> WriteWakePending(Next(s, st))
  {
    if ReadWakePending(s) {
      var q :| 0 <= q < |s.setters| && s.setters[q].RaisedRead?;
      assert Next(s, st).setters[q].RaisedRead?;
    }
    if WriteWakePending(s) {
      var q :| 0 <= q < |s.setters| && s.setters[q] == RaisedWrite;
      assert Next(s, st).setters[q] == RaisedWrite;
    }
  }

  /** The thread a step of poll() belongs to. */
  function Mover(st: Step): Option<nat> {
    match st
    case Begin(p, _, _) => Some(p)
    case Register(p) => Some(p)
    case TestRead(p) => Some(p)
    case ClearRead(p) => Some(p)
    case TestWrite(p) => Some(p)
    case ClearWrite(p) => Some(p)
    case Return(p) => Some(p)
    case Resume(p) => Some(p)
    case Expire(p) => Some(p)
    case _ => None
  }

  /** A step of a thread in sysfs_store, sysfs_show or etx_write, other than wake_up. */
  lemma SetterAttentive(s: State, st: Step, p: nat)
    requires AllAttentive(s) && Enabled(s, st) && Mover(st) == None && !st.Wake? && p < |s.pollers|
    ensures p < |Next(s, st).pollers| && Attentive(Next(s, st), p)
  {
    var s' := Next(s, st);
    assert Attentive(s, p);
    PendingMoves(s, st);
    if st.RaiseRead? {
      assert s'.setters[st.q].RaisedRead?;
    } else if st.RaiseWrite? {
      assert s'.setters[st.q] == RaisedWrite;
    }
  }

  /** wake_up triggers every registered thread. */
  lemma WakeAttentive(s: State, st: Step, p: nat)
    requires AllAttentive(s) && Enabled(s, st) && st.Wake? && p < |s.pollers|
    ensures p < |Next(s, st).pollers| && Attentive(Next(s, st), p)
  {
    assert Attentive(s, p);
  }

  /** A step of poll() seen by another thread. */
  lemma BystanderAttentive(s: State, st: Step, p: nat)
    requires AllAttentive(s) && Enabled(s, st) && Mover(st).Some? && Mover(st).value != p && p < |s.pollers|
    ensures p < |Next(s, st).pollers| && Attentive(Next(s, st), p)
  {
    assert Attentive(s, p);
    PendingMoves(s, st);
    assert Next(s, st).pollers[p] == s.pollers[p];
  }

  /** A step of poll() for its own thread. */
  lemma MoverAttentive(s: State, st: Step, p: nat)
    requires AllAttentive(s) && Enabled(s, st) && Mover(st) == Some(p)
    ensures p < |Next(s, st).pollers| && Attentive(Next(s, st), p)
  {
    assert Attentive(s, p);
    PendingMoves(s, st);
  }

  lemma SameCount(s: State, st: Step)
    requires Enabled(s, st)
    ensures |Next(s, st).pollers| == |s.pollers|
  {
  }

  lemma StepKeepsAttentive(s: State, st: Step)
    requires AllAttentive(s) && Enabled(s, st)
    ensures AllAttentive(Next(s, st))
  {
    hide Attentive, Enabled, Next, Mover;
    SameCount(s, st);
    forall p | 0 <= p < |s.pollers| ensures Attentive(Next(s, st), p) {
      if st.Wake? {
        WakeAttentive(s, st, p);
      } else if Mover(st) == None {
        SetterAttentive(s, st, p);
      } else if Mover(st) == Some(p) {
        MoverAttentive(s, st, p);
      } else {
        BystanderAttentive(s, st, p);
      }
    }
  }

  lemma {:induction false} RunKeepsAttentive(s0: State, run: Run)
    requires Initial(s0) && Exec(s0, run).Some?
    ensures AllAttentive(Exec(s0, run).value)
  {
    if run.Then? {
      RunKeepsAttentive(s0, run.before);
      StepKeepsAttentive(Exec(s0, run.before).value, run.step);
    }
  }

  /** No lost wakeup. In every reachable state, if a flag is set while a poller sleeps untriggered, some
      thread stands between setting that flag and its wake_up, and that wake_up triggers the poller, which
      can then scan again. */
  lemma NoLostWakeup(s0: State, run: Run, p: nat)
    requires Initial(s0) && Exec(s0, run).Some? && At(Exec(s0, run).value, p, Asleep)
    requires !Exec(s0, run).value.pollers[p].triggered
    ensures var s := Exec(s0, run).value;
      && (s.canRead ==> ReadWakePending(s))
      && (s.canWrite ==> WriteWakePending(s))
      && forall q: nat :: Enabled(s, Wake(q)) ==> Enabled(Next(s, Wake(q)), Resume(p))
  {
    RunKeepsAttentive(s0, run);
    var s := Exec(s0, run).value;
    assert Attentive(s, p);
    forall q: nat | Enabled(s, Wake(q)) ensures Enabled(Next(s, Wake(q)), Resume(p)) {
      WakeReaches(s, q, p);
    }
  }

  lemma WakeReaches(s: State, q: nat, p: nat)
    requires Enabled(s, Wake(q)) && At(s, p, Asleep) && s.pollers[p].registered
    ensures Enabled(Next(s, Wake(q)), Resume(p))
  {
  }

  // ----- Reports against stores -----

  /** Every test that found can_read set is matched by a report made, an event swallowed or one of them owed,
      and each used up a store. */
  ghost predicate Counted(s: State, x: Poller) {
    && x.hits == x.reports + x.swallowed + (if x.stage == ClearIn || x.maskIn then 1 else 0)
    && (x.maskIn ==> x.stage == TestOut || x.stage == ClearOut || x.stage == Returning)
    && x.hits + (if s.canRead && x.stage != ClearIn then 1 else 0) <= s.stores
  }

  ghost predicate AllCounted(s: State) {
    forall p {:trigger s.pollers[p]} :: 0 <= p < |s.pollers| ==> Counted(s, s.pollers[p])
  }

  lemma {:induction false} RunCounts(s0: State, run: Run)
    requires Initial(s0) && Exec(s0, run).Some?
    ensures AllCounted(Exec(s0, run).value)
  {
    if run.Then? {
      RunCounts(s0, run.before);
      StepCounts(Exec(s0, run.before).value, run.step);
    }
  }

  /** What the end of a scan does to the counts: the mask is settled, as a report or as swallowed. */
  lemma ReturnedSettles(x: Poller)
    ensures var y := Returned(x);
      && !y.maskIn && y.hits == x.hits && (y.stage == Out || y.stage == Entered || y.stage == Asleep)
      && y.reports + y.swallowed == x.reports + x.swallowed + if x.maskIn then 1 else 0
  {
  }

  lemma OthersCount(s: State, st: Step, p: nat)
    requires Enabled(s, st) && Mover(st) != Some(p) && p < |s.pollers| && Counted(s, s.pollers[p])
    ensures p < |Next(s, st).pollers| && Counted(Next(s, st), Next(s, st).pollers[p])
  {
  }

  lemma MoverCounts(s: State, st: Step, p: nat)
    requires Enabled(s, st) && Mover(st) == Some(p) && p < |s.pollers| && Counted(s, s.pollers[p])
    ensures p < |Next(s, st).pollers| && Counted(Next(s, st), Next(s, st).pollers[p])
  {
    hide Returned;
    ReturnedSettles(s.pollers[p]);
  }

  lemma StepCounts(s: State, st: Step)
    requires AllCounted(s) && Enabled(s, st)
    ensures AllCounted(Next(s, st))
  {
    hide Counted, Enabled, Next, Mover;
    SameCount(s, st);
    forall p | 0 <= p < |s.pollers| ensures Counted(Next(s, st), Next(s, st).pollers[p]) {
      if Mover(st) == Some(p) {
        MoverCounts(s, st, p);
      } else {
        OthersCount(s, st, p);
      }
    }
  }

  /** POLLIN reports of the first k pollers together. */
  function Reports(s: State, k: nat): nat
    requires k <= |s.pollers|
  {
    if k == 0 then 0 else Reports(s, k - 1) + s.pollers[k - 1].reports
  }

  lemma {:induction false} SumBound(s: State, k: nat)
    requires AllCounted(s) && k <= |s.pollers|
    ensures Reports(s, k) <= k * s.stores
  {
    if k > 0 {
      SumBound(s, k - 1);
      assert Counted(s, s.pollers[k - 1]);
      assert k * s.stores == (k - 1) * s.stores + s.stores;
    }
  }

  /** Report bound. k pollers together never report POLLIN more than k times per store, and no single
      poller reports more often than there were stores. */
  lemma ReportBound(s0: State, run: Run)
    requires Initial(s0) && Exec(s0, run).Some?
    ensures var s := Exec(s0, run).value;
      && Reports(s, |s.pollers|) <= |s.pollers| * s.stores
      && forall p :: 0 <= p < |s.pollers| ==> s.pollers[p].reports <= s.stores
  {
    RunCounts(s0, run);
    SumBound(Exec(s0, run).value, |Exec(s0, run).value.pollers|);
  }

  // ----- Coverage: no store is dropped -----

  /** can_read is set now and at every point back to from. */
  ghost predicate SetSince(s0: State, from: Run, run: Run) {
    && Exec(s0, run).Some? && Exec(s0, run).value.canRead
    && (from == run || (run.Then? && SetSince(s0, from, run.before)))
  }

  /** can_read stayed set from the store on, until poller p cleared it at the step after c. */
  ghost predicate Taken(s0: State, store: Run, c: Run, p: nat, run: Run) {
    && SetSince(s0, store, c) && Earlier(Then(c, ClearRead(p)), run) && Exec(s0, run).Some?
    && p < |Exec(s0, c).value.pollers| && p < |Exec(s0, run).value.pollers|
  }

  /** Whether poller p asks for POLLIN in the call that clears can_read after c. */
  predicate Asks(s0: State, c: Run, p: nat) {
    Exec(s0, c).Some? && p < |Exec(s0, c).value.pollers| && Exec(s0, c).value.pollers[p].wantIn
  }

  /** Between clearing can_read and the end of the scan. */
  predicate Deciding(x: Poller) {
    x.stage == TestOut || x.stage == ClearOut || x.stage == Returning
  }

  /** At point r, p is still in the scan that cleared can_read after c, with a POLLIN to return. */
  predicate Holding(s0: State, c: Run, p: nat, r: Run) {
    && Exec(s0, c).Some? && p < |Exec(s0, c).value.pollers| && Exec(s0, r).Some? && p < |Exec(s0, r).value.pollers|
    && var x := Exec(s0, r).value.pollers[p];
       Deciding(x) && x.maskIn && x.wantIn && x.hits == Exec(s0, c).value.pollers[p].hits
  }

  /** What became of a store: its flag is still set; p took it at c and owes a POLLIN for it; p took it and
      returned POLLIN for it at the step after r; or p took it without having asked. */
  datatype Fate = Visible | Pending(c: Run, p: nat) | Done(c: Run, r: Run, p: nat) | Swallowed(c: Run, p: nat)

  ghost predicate Covered(s0: State, store: Run, run: Run, fate: Fate) {
    match fate
    case Visible => SetSince(s0, store, run)
    case Pending(c, p) => Taken(s0, store, c, p, run) && Holding(s0, c, p, run)
    case Done(c, r, p) =>
      && Taken(s0, store, c, p, run) && Earlier(Then(c, ClearRead(p)), r) && Earlier(Then(r, Return(p)), run)
      && Holding(s0, c, p, r) && At(Exec(s0, r).value, p, Returning)
    case Swallowed(c, p) => Taken(s0, store, c, p, run) && !Asks(s0, c, p)
  }

  /** Coverage. After the step that sets can_read in a store, at every later point of every run, either
      can_read has stayed set, or the poller that cleared it owes a POLLIN for it, or has returned it, or had
      not asked for POLLIN. */
  lemma {:induction false} EveryStoreCovered(s0: State, a: Run, q: nat, run: Run) returns (fate: Fate)
    requires Exec(s0, run).Some? && Earlier(Then(a, RaiseRead(q)), run)
    ensures Covered(s0, Then(a, RaiseRead(q)), run, fate)
    decreases run
  {
    hide Covered;
    var store := Then(a, RaiseRead(q));
    if run == store {
      fate := Visible;
      assert Covered(s0, store, run, fate) by { StoreVisible(s0, a, q); }
    } else {
      var before := EveryStoreCovered(s0, a, q, run.before);
      fate := NextFate(s0, store, run.before, run.step, before);
    }
  }

  lemma StoreVisible(s0: State, a: Run, q: nat)
    requires Exec(s0, Then(a, RaiseRead(q))).Some?
    ensures Covered(s0, Then(a, RaiseRead(q)), Then(a, RaiseRead(q)), Visible)
  {
  }

  lemma NextFate(s0: State, store: Run, run: Run, st: Step, fate: Fate) returns (fate': Fate)
    requires Exec(s0, Then(run, st)).Some? && Covered(s0, store, run, fate)
    ensures Covered(s0, store, Then(run, st), fate')
    ensures fate != Visible ==>
              && fate' != Visible && fate'.c == fate.c && fate'.p == fate.p
              && (fate'.Swallowed? <==> fate.Swallowed?)
  {
    hide Exec, Earlier, SetSince, Holding, Taken, Asks;
    match fate
    case Visible => fate' := NextVisible(s0, store, run, st);
    case Pending(c, p) =>
      StillTaken(s0, store, c, p, run, st);
      if st == Return(p) {
        fate' := Done(c, run, p);
        HeldReturns(s0, store, c, p, run);
      } else {
        fate' := fate;
        StillHolding(s0, c, p, run, st);
      }
    case Done(c, r, p) =>
      fate' := fate;
      StillTaken(s0, store, c, p, run, st);
      StillEarlier(Then(r, Return(p)), run, st);
    case Swallowed(c, p) =>
      fate' := fate;
      StillTaken(s0, store, c, p, run, st);
  }

  lemma StillEarlier(early: Run, run: Run, st: Step)
    requires Earlier(early, run)
    ensures Earlier(early, Then(run, st))
  {
  }

  lemma StillTaken(s0: State, store: Run, c: Run, p: nat, run: Run, st: Step)
    requires Taken(s0, store, c, p, run) && Exec(s0, Then(run, st)).Some?
    ensures Taken(s0, store, c, p, Then(run, st))
  {
    hide Next, Enabled;
    SameCount(Exec(s0, run).value, st);
  }

  lemma NextVisible(s0: State, store: Run, run: Run, st: Step) returns (fate: Fate)
    requires Exec(s0, Then(run, st)).Some? && SetSince(s0, store, run)
    ensures Covered(s0, store, Then(run, st), fate)
  {
    if st.ClearRead? {
      fate := if Asks(s0, run, st.p) then Pending(run, st.p) else Swallowed(run, st.p);
    } else {
      fate := Visible;
    }
  }

  lemma StillHolding(s0: State, c: Run, p: nat, run: Run, st: Step)
    requires Holding(s0, c, p, run) && Exec(s0, Then(run, st)).Some? && st != Return(p)
    ensures Holding(s0, c, p, Then(run, st))
  {
    KeepsDeciding(Exec(s0, run).value, st, p);
  }

  lemma KeepsDeciding(s: State, st: Step, p: nat)
    requires Enabled(s, st) && p < |s.pollers| && st != Return(p)
    requires Deciding(s.pollers[p]) && s.pollers[p].maskIn
    ensures p < |Next(s, st).pollers|
    ensures var x, y := s.pollers[p], Next(s, st).pollers[p];
      Deciding(y) && y.maskIn && y.wantIn == x.wantIn && y.hits == x.hits
  {
  }

  lemma HeldReturns(s0: State, store: Run, c: Run, p: nat, run: Run)
    requires Taken(s0, store, c, p, run) && Holding(s0, c, p, run) && Exec(s0, Then(run, Return(p))).Some?
    ensures Covered(s0, store, Then(run, Return(p)), Done(c, run, p))
  {
    StillTaken(s0, store, c, p, run, Return(p));
  }

  // ----- Which stores are announced -----

  function Length(run: Run): nat {
    match run
    case Start => 0
    case Then(before, _) => Length(before) + 1
  }

  lemma {:induction false} EarlierShorter(early: Run, run: Run)
    requires Earlier(early, run)
    ensures Length(early) <= Length(run) && (early != run ==> Length(early) < Length(run))
  {
    if early != run {
      EarlierShorter(early, run.before);
    }
  }

  lemma {:induction false} EarlierTotal(x: Run, y: Run, run: Run)
    requires Earlier(x, run) && Earlier(y, run)
    ensures Earlier(x, y) || Earlier(y, x)
  {
    if x != run && y != run {
      EarlierTotal(x, y, run.before);
    }
  }

  lemma {:induction false} SetBetween(s0: State, from: Run, mid: Run, run: Run)
    requires SetSince(s0, from, run) && Earlier(from, mid) && Earlier(mid, run)
    ensures Exec(s0, mid).Some? && Exec(s0, mid).value.canRead
  {
    if mid != run {
      EarlierShorter(from, mid);
      EarlierShorter(mid, run);
      SetBetween(s0, from, mid, run.before);
    }
  }

  lemma {:induction false} SetIsEarlier(s0: State, from: Run, run: Run)
    requires SetSince(s0, from, run)
    ensures Earlier(from, run)
  {
    if from != run {
      SetIsEarlier(s0, from, run.before);
    }
  }

  /** Once can_read has been cleared it has not stayed set. */
  lemma ClearedOnce(s0: State, store: Run, c: Run, p: nat, c': Run)
    requires SetSince(s0, store, c) && SetSince(s0, store, c')
    ensures !Earlier(Then(c, ClearRead(p)), c')
  {
    if Earlier(Then(c, ClearRead(p)), c') {
      SetIsEarlier(s0, store, c);
      SetBetween(s0, store, Then(c, ClearRead(p)), c');
    }
  }

  /** At most one step takes a store. */
  lemma {:induction false} TakenOnce(s0: State, store: Run, c: Run, p: nat, c': Run, p': nat, run: Run)
    requires Taken(s0, store, c, p, run) && Taken(s0, store, c', p', run)
    ensures c == c' && p == p'
  {
    hide Exec, SetSince;
    EarlierTotal(Then(c, ClearRead(p)), Then(c', ClearRead(p')), run);
    ClearedOnce(s0, store, c, p, c');
    ClearedOnce(s0, store, c', p', c);
  }

  /** A poller that asked for POLLIN owes or has returned it. */
  lemma {:induction false} TakenFate(s0: State, store: Run, c: Run, p: nat, run: Run) returns (fate: Fate)
    requires Taken(s0, store, c, p, run) && Asks(s0, c, p)
    ensures (fate.Pending? || fate.Done?) && Covered(s0, store, run, fate)
    decreases run
  {
    hide Covered, Asks;
    if run == Then(c, ClearRead(p)) {
      fate := Pending(c, p);
      JustTaken(s0, store, c, p);
    } else {
      TakenBefore(s0, store, c, p, run);
      var before := TakenFate(s0, store, c, p, run.before);
      fate := NextFate(s0, store, run.before, run.step, before);
    }
  }

  lemma JustTaken(s0: State, store: Run, c: Run, p: nat)
    requires Taken(s0, store, c, p, Then(c, ClearRead(p))) && Asks(s0, c, p)
    ensures Covered(s0, store, Then(c, ClearRead(p)), Pending(c, p))
  {
  }

  lemma TakenBefore(s0: State, store: Run, c: Run, p: nat, run: Run)
    requires Taken(s0, store, c, p, run) && run != Then(c, ClearRead(p))
    ensures run.Then? && Taken(s0, store, c, p, run.before)
  {
    hide Next, Enabled;
    SameCount(Exec(s0, run.before).value, run.step);
  }

  /** No POLLIN can come of the latest test of can_read by then, the h-th. */
  predicate Quiet(x: Poller, h: nat) {
    x.hits > h || (x.hits == h && x.stage != ClearIn && (x.maskIn ==> !x.wantIn))
  }

  lemma StaysQuiet(s: State, st: Step, p: nat, h: nat)
    requires Enabled(s, st) && p < |s.pollers| && Counted(s, s.pollers[p]) && Quiet(s.pollers[p], h)
    ensures p < |Next(s, st).pollers| && Quiet(Next(s, st).pollers[p], h)
  {
    hide Returned;
    ReturnedSettles(s.pollers[p]);
  }

  lemma {:induction false} QuietSince(s0: State, c: Run, p: nat, run: Run)
    requires Initial(s0) && Exec(s0, run).Some? && Earlier(Then(c, ClearRead(p)), run)
    requires Exec(s0, c).Some? && p < |Exec(s0, c).value.pollers| && !Asks(s0, c, p)
    ensures p < |Exec(s0, run).value.pollers|
    ensures Quiet(Exec(s0, run).value.pollers[p], Exec(s0, c).value.pollers[p].hits)
  {
    if run != Then(c, ClearRead(p)) {
      QuietSince(s0, c, p, run.before);
      RunCounts(s0, run.before);
      assert Counted(Exec(s0, run.before).value, Exec(s0, run.before).value.pollers[p]);
      StaysQuiet(Exec(s0, run.before).value, run.step, p, Exec(s0, c).value.pollers[p].hits);
    }
  }

  /** A poller that had not asked for POLLIN neither owes nor has returned it for the store it took. */
  lemma {:induction false} NotAnnounced(s0: State, store: Run, c: Run, p: nat, run: Run, fate: Fate)
    requires Initial(s0) && Taken(s0, store, c, p, run) && !Asks(s0, c, p)
    requires fate.Pending? || fate.Done?
    ensures !Covered(s0, store, run, fate)
  {
    hide Exec, SetSince, Earlier, Quiet;
    if Covered(s0, store, run, fate) {
      TakenOnce(s0, store, c, p, fate.c, fate.p, run);
      HeldNeverQuiet(s0, c, p, if fate.Pending? then run else fate.r);
    }
  }

  lemma HeldNeverQuiet(s0: State, c: Run, p: nat, r: Run)
    requires Initial(s0) && Exec(s0, r).Some? && Earlier(Then(c, ClearRead(p)), r)
    requires Exec(s0, c).Some? && p < |Exec(s0, c).value.pollers| && !Asks(s0, c, p)
    ensures !Holding(s0, c, p, r)
  {
    QuietSince(s0, c, p, r);
  }

  /** A store whose flag has been cleared is announced, that is, POLLIN is owed or has been returned for it,
      exactly when the poller that cleared it asks for POLLIN. */
  lemma {:induction false} AnnouncedExact(s0: State, a: Run, q: nat, run: Run, c: Run, p: nat)
    requires Initial(s0) && Taken(s0, Then(a, RaiseRead(q)), c, p, run)
    ensures (exists fate: Fate :: (fate.Pending? || fate.Done?) && Covered(s0, Then(a, RaiseRead(q)), run, fate))
       <==> Asks(s0, c, p)
  {
    hide Covered, Taken, Asks;
    var store := Then(a, RaiseRead(q));
    if Asks(s0, c, p) {
      var fate := TakenFate(s0, store, c, p, run);
    } else {
      forall fate: Fate | fate.Pending? || fate.Done? ensures !Covered(s0, store, run, fate) {
        NotAnnounced(s0, store, c, p, run, fate);
      }
    }
  }

  /** Every poll() of the run asks for POLLIN. */
  predicate AllAsk(run: Run) {
    run.Then? ==> AllAsk(run.before) && (run.step.Begin? ==> run.step.wantIn)
  }

  ghost predicate Asking(s: State) {
    forall p :: 0 <= p < |s.pollers| && s.pollers[p].stage != Out ==> s.pollers[p].wantIn
  }

  lemma AskingStep(s: State, st: Step)
    requires Asking(s) && Enabled(s, st) && (st.Begin? ==> st.wantIn)
    ensures Asking(Next(s, st))
  {
  }

  lemma {:induction false} AskingRun(s0: State, early: Run, run: Run)
    requires Initial(s0) && Exec(s0, run).Some? && AllAsk(run) && Earlier(early, run)
    ensures Exec(s0, early).Some? && Asking(Exec(s0, early).value)
  {
    if early != run {
      AskingRun(s0, early, run.before);
    } else if run.Then? {
      AskingRun(s0, run.before, run.before);
      AskingStep(Exec(s0, run.before).value, run.step);
    }
  }

  /** If every poll() asks for POLLIN, no store is dropped: its flag is set, or POLLIN is owed or has been
      returned for it. */
  lemma {:induction false} EveryStoreAnnounced(s0: State, a: Run, q: nat, run: Run) returns (fate: Fate)
    requires Initial(s0) && Exec(s0, run).Some? && Earlier(Then(a, RaiseRead(q)), run) && AllAsk(run)
    ensures Covered(s0, Then(a, RaiseRead(q)), run, fate) && !fate.Swallowed?
  {
    fate := EveryStoreCovered(s0, a, q, run);
    if fate.Swallowed? {
      ClearerAsks(s0, fate.c, fate.p, run);
    }
  }

  lemma ClearerAsks(s0: State, c: Run, p: nat, run: Run)
    requires Initial(s0) && Exec(s0, run).Some? && AllAsk(run) && Earlier(Then(c, ClearRead(p)), run)
    ensures Asks(s0, c, p)
  {
    var cleared := Then(c, ClearRead(p));
    AskingRun(s0, cleared, run);
    EarlierTrans(c, cleared, run);
    AskingRun(s0, c, run);
  }

  /** A store can be dropped: a thread that asks for POLLOUT alone clears can_read and goes to sleep. */
  lemma {:induction false} StoreSwallowed() returns (s0: State, a: Run, run: Run)
    ensures Initial(s0) && Exec(s0, run).Some? && Earlier(Then(a, RaiseRead(0)), run)
    ensures var s := Exec(s0, run).value;
      !s.canRead && s.stores == 1 && |s.pollers| == 1 && s.pollers[0].stage == Asleep && s.pollers[0].reports == 0
    ensures forall fate: Fate :: Covered(s0, Then(a, RaiseRead(0)), run, fate) ==> fate.Swallowed?
  {
    hide Exec, Next, Covered;
    s0 := State(false, false, 0, 0, [Resting], [IDLE]);
    var woken: Run;
    a, woken := OnceStored(s0);
    var store := Then(a, RaiseRead(0));
    var c := Unasked(s0, store, woken);
    run := SleepsOn(s0, c);
    SetIsEarlier(s0, store, c);
    EarlierTrans(store, c, run);
    forall fate: Fate | fate.Pending? || fate.Done? ensures !Covered(s0, store, run, fate) {
      NotAnnounced(s0, store, c, 0, run, fate);
    }
    assert !Covered(s0, store, run, Visible) by { NotVisible(s0, store, run); }
  }

  lemma NotVisible(s0: State, store: Run, run: Run)
    requires Exec(s0, run).Some? && !Exec(s0, run).value.canRead
    ensures !Covered(s0, store, run, Visible)
  {
  }

  lemma OnceStored(s0: State) returns (a: Run, woken: Run)
    requires s0 == State(false, false, 0, 0, [Resting], [IDLE])
    ensures SetSince(s0, Then(a, RaiseRead(0)), woken)
    ensures Exec(s0, woken).Some?
    ensures var s := Exec(s0, woken).value; s.canRead && !s.canWrite && s.stores == 1 && s.pollers == [IDLE]
  {
    a := Then(Start, Copy(0));
    var s1 := Next(s0, Copy(0));
    assert Exec(s0, a) == Some(s1) && s1.setters == [Copied(1)];
    var store, s2 := Then(a, RaiseRead(0)), Next(s1, RaiseRead(0));
    assert Exec(s0, store) == Some(s2) && s2.setters == [RaisedRead(1)];
    woken := Then(store, Wake(0));
    var s3 := Next(s2, Wake(0));
    assert Exec(s0, woken) == Some(s3) && s3.pollers == [IDLE];
  }

  /** The thread asks for POLLOUT and finds can_read set. */
  lemma Unasked(s0: State, store: Run, r: Run) returns (c: Run)
    requires SetSince(s0, store, r)
    requires var s := Exec(s0, r).value; !s.canWrite && s.stores == 1 && s.pollers == [IDLE]
    ensures SetSince(s0, store, c) && !Asks(s0, c, 0)
    ensures var s := Exec(s0, c).value;
      !s.canWrite && s.stores == 1
      && s.pollers == [IDLE.(registered := true, wantOut := true, stage := ClearIn, hits := 1)]
  {
    var s := Exec(s0, r).value;
    var x := IDLE.(registered := true, wantOut := true);
    var r1, s1 := Then(r, Begin(0, false, true)), Next(s, Begin(0, false, true));
    assert Exec(s0, r1) == Some(s1) && s1.pollers == [IDLE.(stage := Entered, wantOut := true)];
    assert SetSince(s0, store, r1);
    var r2, s2 := Then(r1, Register(0)), Next(s1, Register(0));
    assert Exec(s0, r2) == Some(s2) && s2.pollers == [x.(stage := TestIn)];
    assert SetSince(s0, store, r2);
    c := Then(r2, TestRead(0));
    var s3 := Next(s2, TestRead(0));
    assert Exec(s0, c) == Some(s3) && s3.pollers == [x.(stage := ClearIn, hits := 1)];
  }

  /** It clears the flag, finds nothing it asked for, and sleeps. */
  lemma SleepsOn(s0: State, c: Run) returns (run: Run)
    requires Exec(s0, c).Some?
    requires var s := Exec(s0, c).value;
      !s.canWrite && s.stores == 1
      && s.pollers == [IDLE.(registered := true, wantOut := true, stage := ClearIn, hits := 1)]
    ensures Earlier(Then(c, ClearRead(0)), run) && Earlier(c, run) && Exec(s0, run).Some?
    ensures var s := Exec(s0, run).value;
      !s.canRead && s.stores == 1 && |s.pollers| == 1 && s.pollers[0].stage == Asleep && s.pollers[0].reports == 0
  {
    var s := Exec(s0, c).value;
    var x := IDLE.(registered := true, wantOut := true, hits := 1);
    var r1, s1 := Then(c, ClearRead(0)), Next(s, ClearRead(0));
    assert Exec(s0, r1) == Some(s1) && s1.pollers == [x.(stage := TestOut, maskIn := true)];
    var r2, s2 := Then(r1, TestWrite(0)), Next(s1, TestWrite(0));
    assert Exec(s0, r2) == Some(s2) && s2.pollers == [x.(stage := Returning, maskIn := true)];
    run := Then(r2, Return(0));
    var s3 := Next(s2, Return(0));
    assert Exec(s0, run) == Some(s3) && s3.pollers == [x.(stage := Asleep, swallowed := 1)];
    assert Earlier(r1, r2) && Earlier(r1, run) && Earlier(c, r1);
    EarlierTrans(c, r1, run);
  }

  // ----- Freshness -----

  /** can_read is set because of a store, and has been set ever since. */
  lemma {:induction false} FlagHasStore(s0: State, run: Run) returns (a: Run, q: nat)
    requires Initial(s0) && Exec(s0, run).Some? && Exec(s0, run).value.canRead
    ensures Earlier(Then(a, RaiseRead(q)), run)
    ensures Exec(s0, a).Some? && Enabled(Exec(s0, a).value, RaiseRead(q))
    ensures SetSince(s0, Then(a, RaiseRead(q)), run)
    decreases run
  {
    if run.step.RaiseRead? {
      return run.before, run.step.q;
    }
    a, q := FlagHasStore(s0, run.before);
  }

  /** sysfs_store and etx_write replace etx_value; no other step touches it. */
  predicate WritesValue(st: Step) {
    st.Copy? || st.DeviceWrite?
  }

  /** How often etx_value has been replaced. */
  function ValueWrites(run: Run): nat {
    match run
    case Start => 0
    case Then(before, st) => ValueWrites(before) + if WritesValue(st) then 1 else 0
  }

  /** The current value is that of the latest write. */
  lemma {:induction false} VersionExact(s0: State, run: Run)
    requires Exec(s0, run).Some?
    ensures Exec(s0, run).value.version == s0.version + ValueWrites(run)
  {
    if run.Then? {
      VersionExact(s0, run.before);
    }
  }

  lemma {:induction false} WritesGrow(early: Run, run: Run)
    requires Earlier(early, run)
    ensures ValueWrites(early) <= ValueWrites(run)
  {
    if early != run {
      WritesGrow(early, run.before);
    }
  }

  lemma {:induction false} EarlierRan(s0: State, early: Run, run: Run)
    requires Earlier(early, run) && Exec(s0, run).Some?
    ensures Exec(s0, early).Some?
  {
    if early != run {
      EarlierRan(s0, early, run.before);
    }
  }

  lemma VersionGrows(s0: State, early: Run, run: Run)
    requires Earlier(early, run) && Exec(s0, run).Some?
    ensures Exec(s0, early).Some? && Exec(s0, early).value.version <= Exec(s0, run).value.version
  {
    hide Exec;
    EarlierRan(s0, early, run);
    VersionExact(s0, early);
    VersionExact(s0, run);
    WritesGrow(early, run);
  }

  /** Every write makes a value newer than all before it, and every later value is at least as new. */
  lemma WritesAreNew(s0: State, early: Run, w: Run, st: Step, run: Run)
    requires Exec(s0, run).Some? && Earlier(early, w) && Earlier(Then(w, st), run) && WritesValue(st)
    ensures Exec(s0, early).Some? && Exec(s0, Then(w, st)).Some?
    ensures Exec(s0, early).value.version < Exec(s0, Then(w, st)).value.version <= Exec(s0, run).value.version
  {
    hide Exec;
    EarlierTrans(w, Then(w, st), run);
    EarlierRan(s0, w, run);
    VersionGrows(s0, early, w);
    VersionGrows(s0, Then(w, st), run);
    VersionExact(s0, w);
    VersionExact(s0, Then(w, st));
  }

  /** At point a, thread q stands between the strcpy at the step after c and setting can_read. */
  ghost predicate StoringSince(s0: State, c: Run, q: nat, a: Run) {
    && Earlier(Then(c, Copy(q)), a) && Exec(s0, a).Some? && Exec(s0, Then(c, Copy(q))).Some?
    && q < |Exec(s0, a).value.setters|
    && Exec(s0, a).value.setters[q] == Copied(Exec(s0, Then(c, Copy(q))).value.version)
  }

  lemma {:induction false} StoreHasCopy(s0: State, a: Run, q: nat) returns (c: Run)
    requires Initial(s0) && Exec(s0, a).Some? && q < |Exec(s0, a).value.setters|
    requires Exec(s0, a).value.setters[q].Copied?
    ensures StoringSince(s0, c, q, a)
    decreases a
  {
    if a.step == Copy(q) {
      return a.before;
    }
    SetterStays(Exec(s0, a.before).value, a.step, q);
    c := StoreHasCopy(s0, a.before, q);
  }

  /** Only its own strcpy brings a thread there. */
  lemma SetterStays(s: State, st: Step, q: nat)
    requires Enabled(s, st) && q < |Next(s, st).setters| && Next(s, st).setters[q].Copied? && st != Copy(q)
    ensures q < |s.setters| && s.setters[q] == Next(s, st).setters[q]
  {
  }

  /** Freshness. If a poller found can_read set at the step after t, then at every later point the value
      read is at least as new as the one some store wrote before it set the flag that was observed: q wrote it
      at the step after c, set can_read at the step after a, and can_read stayed set until t. */
  lemma {:induction false} ReadsAreFresh(s0: State, t: Run, p: nat, run: Run) returns (c: Run, a: Run, q: nat)
    requires Initial(s0) && Exec(s0, run).Some? && Earlier(Then(t, TestRead(p)), run)
    requires Exec(s0, t).Some? && Exec(s0, t).value.canRead
    ensures Earlier(Then(a, RaiseRead(q)), t)
    ensures SetSince(s0, Then(a, RaiseRead(q)), t)
    ensures StoringSince(s0, c, q, a)
    ensures Exec(s0, Then(c, Copy(q))).value.version <= Exec(s0, run).value.version
  {
    hide Next, Enabled, Initial;
    a, q := FlagHasStore(s0, t);
    RaisesCopied(s0, a, q);
    c := StoreHasCopy(s0, a, q);
    var store := Then(a, RaiseRead(q));
    EarlierTrans(store, t, Then(t, TestRead(p)));
    EarlierTrans(store, Then(t, TestRead(p)), run);
    EarlierTrans(a, store, run);
    EarlierTrans(Then(c, Copy(q)), a, run);
    VersionGrows(s0, Then(c, Copy(q)), run);
  }

  lemma RaisesCopied(s0: State, a: Run, q: nat)
    requires Exec(s0, a).Some? && Enabled(Exec(s0, a).value, RaiseRead(q))
    ensures q < |Exec(s0, a).value.setters| && Exec(s0, a).value.setters[q].Copied?
  {
  }

  /** The POLLIN a poller is about to return stems from its latest successful test of can_read. */
  lemma {:induction false} MaskHasTest(s0: State, run: Run, p: nat) returns (t: Run)
    requires Initial(s0) && Exec(s0, run).Some? && p < |Exec(s0, run).value.pollers|
    requires var x := Exec(s0, run).value.pollers[p]; x.maskIn || x.stage == ClearIn
    ensures Earlier(Then(t, TestRead(p)), run)
    ensures Exec(s0, t).Some? && Exec(s0, t).value.canRead && p < |Exec(s0, t).value.pollers|
    ensures Exec(s0, t).value.pollers[p].hits + 1 == Exec(s0, run).value.pollers[p].hits
    decreases run
  {
    hide Next, Enabled, Counted;
    RunCounts(s0, run.before);
    SameCount(Exec(s0, run.before).value, run.step);
    MaskStep(Exec(s0, run.before).value, run.step, p);
    if run.step == TestRead(p) {
      return run.before;
    }
    t := MaskHasTest(s0, run.before, p);
  }

  /** Only a successful test of can_read leads a poller towards POLLIN. */
  lemma MaskStep(s: State, st: Step, p: nat)
    requires Enabled(s, st) && p < |s.pollers| == |Next(s, st).pollers| && Counted(s, s.pollers[p])
    requires var x := Next(s, st).pollers[p]; x.maskIn || x.stage == ClearIn
    ensures if st == TestRead(p) then s.canRead && s.pollers[p].hits + 1 == Next(s, st).pollers[p].hits
            else (s.pollers[p].maskIn || s.pollers[p].stage == ClearIn)
                 && s.pollers[p].hits == Next(s, st).pollers[p].hits
  {
    hide Returned;
    ReturnedSettles(s.pollers[p]);
  }

  /** poll() returns POLLIN to p at the step after r. */
  ghost predicate Announces(s0: State, r: Run, p: nat, run: Run) {
    && Earlier(Then(r, Return(p)), run) && Exec(s0, r).Some? && At(Exec(s0, r).value, p, Returning)
    && Exec(s0, r).value.pollers[p].maskIn && Exec(s0, r).value.pollers[p].wantIn
  }

  /** The store that wrote its value after c and set can_read after a was still visible when p, at the step
      after t, found can_read set for the last time before r. */
  ghost predicate Observed(s0: State, r: Run, p: nat, c: Run, a: Run, q: nat, t: Run) {
    && Earlier(Then(t, TestRead(p)), r) && SetSince(s0, Then(a, RaiseRead(q)), t)
    && Exec(s0, r).Some? && p < |Exec(s0, r).value.pollers| && p < |Exec(s0, t).value.pollers|
    && Exec(s0, t).value.pollers[p].hits + 1 == Exec(s0, r).value.pollers[p].hits
    && StoringSince(s0, c, q, a)
  }

  /** A value at least as new as that of some store p observed before it returned at r. */
  ghost predicate FreshFor(s0: State, r: Run, p: nat, version: nat) {
    exists c: Run, a: Run, q: nat, t: Run ::
      Observed(s0, r, p, c, a, q, t) && Exec(s0, Then(c, Copy(q))).value.version <= version
  }

  /** Freshness of what a report announces. Once poll() has returned POLLIN to p, the value read at every later
      point is at least as new as that of a store whose flag p observed for this report. */
  lemma {:induction false} ReportsAreFresh(s0: State, r: Run, p: nat, run: Run)
    requires Initial(s0) && Exec(s0, run).Some? && Announces(s0, r, p, run)
    ensures FreshFor(s0, r, p, Exec(s0, run).value.version)
  {
    hide Next, Enabled, Counted, Initial;
    var t := MaskHasTest(s0, r, p);
    EarlierTrans(r, Then(r, Return(p)), run);
    EarlierTrans(Then(t, TestRead(p)), r, run);
    var c, a, q := ReadsAreFresh(s0, t, p, run);
    assert Observed(s0, r, p, c, a, q, t);
  }

  // ----- The report bound is attained -----

  /** The steps a poller takes when it finds can_read set and can_write clear. */
  datatype Kind = DoBegin | DoRegister | DoTestRead | DoClearRead | DoTestWrite | DoReturn

  function StepOf(kind: Kind, p: nat): Step {
    match kind
    case DoBegin => Begin(p, true, false)
    case DoRegister => Register(p)
    case DoTestRead => TestRead(p)
    case DoClearRead => ClearRead(p)
    case DoTestWrite => TestWrite(p)
    case DoReturn => Return(p)
  }

  function StageOf(kind: Kind): Stage {
    match kind
    case DoBegin => Out
    case DoRegister => Entered
    case DoTestRead => TestIn
    case DoClearRead => ClearIn
    case DoTestWrite => TestOut
    case DoReturn => Returning
  }

  function Moved(kind: Kind, x: Poller): Poller {
    match kind
    case DoBegin => x.(stage := Entered, triggered := false, expired := false, wantIn := true, wantOut := false)
    case DoRegister => x.(stage := TestIn, registered := true)
    case DoTestRead => x.(stage := ClearIn, hits := x.hits + 1)
    case DoClearRead => x.(stage := TestOut, maskIn := true)
    case DoTestWrite => x.(stage := Returning)
    case DoReturn => Returned(x)
  }

  /** k pollers like x, the first i of which have taken a step of this kind. */
  function Mixed(s: State, kind: Kind, x: Poller, k: nat, i: nat): State {
    s.(pollers := seq(k, p => if p < i then Moved(kind, x) else x),
       canRead := s.canRead && (kind != DoClearRead || i == 0))
  }

  lemma MixedStep(s: State, kind: Kind, x: Poller, k: nat, i: nat)
    requires i < k && x.stage == StageOf(kind) && !s.canWrite && (kind == DoTestRead ==> s.canRead)
    ensures Enabled(Mixed(s, kind, x, k, i), StepOf(kind, i))
    ensures Next(Mixed(s, kind, x, k, i), StepOf(kind, i)) == Mixed(s, kind, x, k, i + 1)
  {
    var m := Mixed(s, kind, x, k, i);
    var a, b := Next(m, StepOf(kind, i)), Mixed(s, kind, x, k, i + 1);
    assert m.pollers[i] == x;
    assert a.pollers[i] == Moved(kind, x);
    forall p | 0 <= p < k ensures a.pollers[p] == b.pollers[p] {
      if p != i {
        assert a.pollers[p] == m.pollers[p];
      }
    }
    assert a.pollers == b.pollers;
  }

  /** All k pollers take the same step, one after the other. */
  lemma {:induction false} Sweep(s0: State, run: Run, s: State, kind: Kind, x: Poller, k: nat, i: nat)
    returns (run': Run)
    requires x.stage == StageOf(kind) && !s.canWrite && (kind == DoTestRead ==> s.canRead) && i <= k
    requires Exec(s0, run) == Some(Mixed(s, kind, x, k, 0))
    ensures Exec(s0, run') == Some(Mixed(s, kind, x, k, i))
  {
    hide Mixed, Next, StepOf, StageOf;
    if i == 0 {
      run' := run;
    } else {
      run' := Sweep(s0, run, s, kind, x, k, i - 1);
      MixedStep(s, kind, x, k, i - 1);
      run' := Then(run', StepOf(kind, i - 1));
    }
  }

  /** One setter at rest, k pollers like x. */
  function Uniform(canRead: bool, m: nat, setter: Setter, x: Poller, k: nat): State {
    State(canRead, false, m, m, [setter], seq(k, _ => x))
  }

  lemma SweepAll(s0: State, run: Run, canRead: bool, m: nat, setter: Setter, kind: Kind, x: Poller, k: nat)
    returns (run': Run)
    requires k > 0 && x.stage == StageOf(kind) && (kind == DoTestRead ==> canRead)
    requires Exec(s0, run) == Some(Uniform(canRead, m, setter, x, k))
    ensures Exec(s0, run') == Some(Uniform(canRead && kind != DoClearRead, m, setter, Moved(kind, x), k))
  {
    var s := Uniform(canRead, m, setter, x, k);
    assert Mixed(s, kind, x, k, 0) == s;
    run' := Sweep(s0, run, s, kind, x, k, k);
    assert Mixed(s, kind, x, k, k) == Uniform(canRead && kind != DoClearRead, m, setter, Moved(kind, x), k);
  }

  /** A poller that has reported m times, outside poll(). */
  function Rested(m: nat): Poller {
    Poller(Out, false, m > 0, false, m > 0, false, false, false, m, m, 0, 0)
  }

  /** One store is reported by all k pollers: all test the flag before any of them clears it. */
  lemma OneRound(s0: State, run: Run, m: nat, k: nat) returns (run': Run)
    requires k > 0 && Exec(s0, run) == Some(Uniform(false, m, Resting, Rested(m), k))
    ensures Exec(s0, run') == Some(Uniform(false, m + 1, Resting, Rested(m + 1), k))
  {
    hide Exec, Uniform;
    var x := Rested(m);
    run' := SweepAll(s0, run, false, m, Resting, DoBegin, x, k);
    x := Moved(DoBegin, x);
    run' := SweepAll(s0, run', false, m, Resting, DoRegister, x, k);
    x := Moved(DoRegister, x);
    run' := OneStore(s0, run', m, x, k);
    x := Triggered(x);
    run' := SweepAll(s0, run', true, m + 1, Resting, DoTestRead, x, k);
    x := Moved(DoTestRead, x);
    run' := SweepAll(s0, run', true, m + 1, Resting, DoClearRead, x, k);
    x := Moved(DoClearRead, x);
    run' := SweepAll(s0, run', false, m + 1, Resting, DoTestWrite, x, k);
    x := Moved(DoTestWrite, x);
    run' := SweepAll(s0, run', false, m + 1, Resting, DoReturn, x, k);
  }

  lemma {:induction false} OneStore(s0: State, run: Run, m: nat, x: Poller, k: nat) returns (run': Run)
    requires Exec(s0, run) == Some(Uniform(false, m, Resting, x, k))
    ensures Exec(s0, run') == Some(Uniform(true, m + 1, Resting, Triggered(x), k))
  {
    var s := Uniform(false, m, Resting, x, k);
    var r1, s1 := Then(run, Copy(0)), Next(s, Copy(0));
    assert Exec(s0, r1) == Some(s1) && s1.setters == [Copied(m + 1)];
    var r2, s2 := Then(r1, RaiseRead(0)), Next(s1, RaiseRead(0));
    assert Exec(s0, r2) == Some(s2) && s2.setters == [RaisedRead(m + 1)];
    var s3 := Next(s2, Wake(0));
    run' := Then(r2, Wake(0));
    assert Exec(s0, run') == Some(s3) && s3.setters == [Resting];
    assert s3.pollers == seq(k, _ => Triggered(x));
  }

  lemma {:induction false} UniformReports(s: State, m: nat, k: nat)
    requires k <= |s.pollers| && forall p :: 0 <= p < k ==> s.pollers[p].reports == m
    ensures Reports(s, k) == k * m
  {
    if k > 0 {
      UniformReports(s, m, k - 1);
      assert k * m == (k - 1) * m + m;
    }
  }

  lemma {:induction false} Rounds(k: nat, m: nat) returns (run: Run)
    requires k > 0
    ensures Exec(Uniform(false, 0, Resting, IDLE, k), run) == Some(Uniform(false, m, Resting, Rested(m), k))
  {
    if m == 0 {
      run := Start;
    } else {
      run := Rounds(k, m - 1);
      run := OneRound(Uniform(false, 0, Resting, IDLE, k), run, m - 1, k);
    }
  }

  /** The report bound is tight: for every number of pollers and of stores there is a run from module
      load in which all the reports the bound allows are made. */
  lemma ReportBoundAttained(k: nat, m: nat) returns (s0: State, run: Run)
    requires k > 0
    ensures Initial(s0) && |s0.pollers| == k && Exec(s0, run).Some?
    ensures var s := Exec(s0, run).value;
      |s.pollers| == k && s.stores == m && Reports(s, k) == k * m
  {
    s0 := Uniform(false, 0, Resting, IDLE, k);
    run := Rounds(k, m);
    UniformReports(Exec(s0, run).value, m, k);
  }
}
