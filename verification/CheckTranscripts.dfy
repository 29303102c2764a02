/** What each transaction of the automatic update check does outside, operation by operation: the log that it
    leaves for every sequence of replies. */
module CheckTranscripts {
  import opened Prelude
  import opened AutomaticCheck

  predicate DoneAt(w: World, i: nat) {
    ReplyAt(w, i) == Done
  }

  /** From `w` to `end` exactly `done` was done. */
  predicate Did(w: World, end: World, done: seq<Event>) {
    end.log == w.log + done
  }

  lemma Snoc(log: seq<Event>, done: seq<Event>, event: Event)
    ensures (log + done) + [event] == log + (done + [event])
  {
  }

  // ---- turning on ----

  /** Turning ON, or repairing ON, succeeds exactly when the task is registered, ON is saved and the checker is
      run, in this order and with nothing else done; a failed step is answered with its own error, and what the
      steps before it did is undone. */
  lemma TurningOnRuns(w: World, previous: Prefs, next: Prefs)
    requires ShouldRegister(previous.automatic, next.automatic, w.notice.needsRepair) && !w.held
    ensures var (applied, on) := (ApplySpec(w, previous, next), Merged(w.disk, next));
            && (applied.r == Ok(None) <==> DoneAt(w, 0) && DoneAt(w, 1) && DoneAt(w, 2))
            && (applied.r == Ok(None) ==>
                  Did(w, applied.w, [Registered(true), Wrote(w.disk, on, true, false), Ran(true, true)]))
            && (applied.r == Err(RegisterFailed) <==> !DoneAt(w, 0))
            && (!DoneAt(w, 0) ==>
                  && Did(w, applied.w, [Registered(false)]) && applied.w.task == w.task
                  && applied.w.notice == Notice(Some([RegisterFailed]), true, true))
            && (DoneAt(w, 0) && (applied.r.Err? || applied.r == Ok(None)) ==> applied.w.notice == w.notice)
            && (applied.r == Err(SaveFailed) <==> DoneAt(w, 0) && !DoneAt(w, 1))
            && (applied.r == Err(SaveFailed) ==>
                  Did(w, applied.w,
                      [Registered(true), Wrote(w.disk, on, false, false), Deleted(DoneAt(w, 2), false, true)]))
            && (applied.r.Ok? && applied.r.value.Some? <==> DoneAt(w, 0) && DoneAt(w, 1) && !DoneAt(w, 2))
  {
    var registered := RegisterSpec(w);
    if registered.ok {
      var saved := SaveSpec(registered.w, Merged(registered.w.disk, next));
      Snoc(w.log, [Registered(true)], Wrote(w.disk, Merged(w.disk, next), saved.ok, false));
      if saved.ok {
        Snoc(w.log, [Registered(true), Wrote(w.disk, Merged(w.disk, next), true, false)], Ran(DoneAt(w, 2), true));
      } else {
        Snoc(w.log, [Registered(true), Wrote(w.disk, Merged(w.disk, next), false, false)],
             Deleted(DoneAt(w, 2), false, true));
      }
    }
  }

  function LeaseError(reply: Reply): Cause {
    if reply == Busy then LeaseBusy else LeaseFailed
  }

  function Complaint(ok: bool, cause: Cause): Message {
    if ok then [] else [cause]
  }

  /** Without the lease the rollback does nothing, and says so. */
  lemma RollbackWithoutLease(w: World, next: Prefs)
    requires !DoneAt(w, 0)
    ensures var (message, end) := RollbackSpec(w, next);
            && Did(w, end, [Acquired(ReplyAt(w, 0))]) && end.disk == w.disk && end.task == w.task
            && message == [RunFailed, LeaseError(ReplyAt(w, 0))]
            && end.notice == Notice(Some(message), true, false)
  {
  }

  /** With the lease the rollback deletes the task and then saves OFF, whether or not the task could be deleted. */
  lemma RollbackWithLease(w: World, next: Prefs)
    requires DoneAt(w, 0)
    ensures var (message, end) := RollbackSpec(w, next);
            var off := Merged(w.disk, TurnedOff(next));
            && Did(w, end, [Acquired(Done), Deleted(DoneAt(w, 1), true, false), Wrote(w.disk, off, DoneAt(w, 2), true),
                            Released])
            && message == [RunFailed] + Complaint(DoneAt(w, 1), DeleteFailed) + Complaint(DoneAt(w, 2), SaveFailed)
            && end.task == (w.task && !DoneAt(w, 1)) && end.disk == if DoneAt(w, 2) then off else w.disk
  {
    var acquired := AcquireSpec(w);
    var deleted := DeleteSpec(acquired, false);
    var saved := SaveSpec(deleted.w, Merged(w.disk, TurnedOff(next)));
    var (leased, dropped) := ([Acquired(Done)], Deleted(DoneAt(w, 1), true, false));
    var wrote := Wrote(w.disk, Merged(w.disk, TurnedOff(next)), DoneAt(w, 2), true);
    Snoc(w.log, leased, dropped);
    Snoc(w.log, leased + [dropped], wrote);
    Snoc(w.log, leased + [dropped] + [wrote], Released);
    assert leased + [dropped] + [wrote] + [Released] == [Acquired(Done), dropped, wrote, Released];
  }

  /** When the run fails, the result says so first, and the rollback follows; its replies come after the first three. */
  lemma FailedRunRollsBack(w: World, previous: Prefs, next: Prefs)
    requires ShouldRegister(previous.automatic, next.automatic, w.notice.needsRepair) && !w.held
    requires DoneAt(w, 0) && DoneAt(w, 1) && !DoneAt(w, 2)
    ensures var (applied, on) := (ApplySpec(w, previous, next), Merged(w.disk, next));
            var off := Merged(w.disk, TurnedOff(next));
            var ran := [Registered(true), Wrote(w.disk, on, true, false), Ran(false, true)];
            && applied.r.Ok? && applied.r.value.Some?
            && (!DoneAt(w, 3) ==>
                  && Did(w, applied.w, ran + [Acquired(ReplyAt(w, 3))])
                  && applied.r.value.value == [RunFailed, LeaseError(ReplyAt(w, 3))]
                  && applied.w.disk == on && applied.w.task)
            && (DoneAt(w, 3) ==>
                  && Did(w, applied.w, ran + [Acquired(Done), Deleted(DoneAt(w, 4), true, false),
                                              Wrote(on, off, DoneAt(w, 5), true), Released])
                  && applied.r.value.value ==
                       [RunFailed] + Complaint(DoneAt(w, 4), DeleteFailed) + Complaint(DoneAt(w, 5), SaveFailed)
                  && applied.w.task == !DoneAt(w, 4) && applied.w.disk == if DoneAt(w, 5) then off else on)
  {
    var on := Merged(w.disk, next);
    var registered := RegisterSpec(w);
    var saved := SaveSpec(registered.w, on);
    var ran := RunSpec(saved.w).w;
    assert ran.log == w.log + [Registered(true), Wrote(w.disk, on, true, false), Ran(false, true)];
    assert forall i: nat :: ReplyAt(ran, i) == ReplyAt(w, i + 3);
    if DoneAt(w, 3) {
      RollbackWithLease(ran, next);
    } else {
      RollbackWithoutLease(ran, next);
    }
  }

  // ---- changes that do not register ----

  /** The change has to hold the lease: it leaves ON, or repairs OFF. */
  predicate NeedsLease(w: World, previous: Prefs, next: Prefs) {
    !next.automatic && (previous.automatic || w.notice.needsRepair)
  }

  /** Without the lease the setting is not turned off. */
  lemma TurningOffWithoutLease(w: World, previous: Prefs, next: Prefs)
    requires NeedsLease(w, previous, next) && !DoneAt(w, 0)
    ensures var applied := ApplySpec(w, previous, next);
            && Did(w, applied.w, [Acquired(ReplyAt(w, 0))])
            && applied.r == Err(LeaseError(ReplyAt(w, 0)))
            && applied.w == w.(script := applied.w.script, log := applied.w.log)
  {
  }

  /** Repairing OFF clears the notice once the task is gone, and warns when nothing else reports the failure. */
  function SettledNotice(w: World, previous: Prefs, repairOff: bool): Notice {
    if !repairOff || !DoneAt(w, 0) then w.notice
    else if DoneAt(w, 1) then NO_NOTICE
    else if previous.automatic then w.notice
    else Notice(Some([DeleteFailed]), true, false)
  }

  lemma SettleTranscript(w: World, previous: Prefs, next: Prefs, repairOff: bool)
    requires w.held && !next.automatic && (previous.automatic || repairOff)
    ensures var (settled, off) := (SettleSpec(w, previous, next, repairOff), Merged(w.disk, next));
            && Did(w, settled.w, [Wrote(w.disk, off, DoneAt(w, 0), true)]
                                 + if DoneAt(w, 0) then [Deleted(DoneAt(w, 1), true, false)] else [])
            && settled.r == (if !DoneAt(w, 0) then Err(SaveFailed)
                             else Ok(if DoneAt(w, 1) then None else Some([DeleteFailed])))
            && settled.w.disk == (if DoneAt(w, 0) then off else w.disk)
            && settled.w.task == (w.task && !(DoneAt(w, 0) && DoneAt(w, 1)))
            && settled.w.notice == SettledNotice(w, previous, repairOff)
  {
    var wrote := Wrote(w.disk, Merged(w.disk, next), DoneAt(w, 0), true);
    Snoc(w.log, [wrote], Deleted(DoneAt(w, 1), true, false));
  }

  /** With the lease, OFF is saved before the task is deleted, and only a saved OFF lets it be deleted. */
  lemma TurningOffWithLease(w: World, previous: Prefs, next: Prefs)
    requires NeedsLease(w, previous, next) && DoneAt(w, 0)
    ensures var (applied, off) := (ApplySpec(w, previous, next), Merged(w.disk, next));
            && Did(w, applied.w, [Acquired(Done)] + ([Wrote(w.disk, off, DoneAt(w, 1), true)]
                                 + if DoneAt(w, 1) then [Deleted(DoneAt(w, 2), true, false)] else []) + [Released])
            && applied.r == (if !DoneAt(w, 1) then Err(SaveFailed)
                             else Ok(if DoneAt(w, 2) then None else Some([DeleteFailed])))
            && applied.w.disk == (if DoneAt(w, 1) then off else w.disk)
            && applied.w.task == (w.task && !(DoneAt(w, 1) && DoneAt(w, 2)))
            && applied.w.notice == SettledNotice(AcquireSpec(w), previous, w.notice.needsRepair)
  {
    var acquired := AcquireSpec(w);
    assert forall i: nat :: ReplyAt(acquired, i) == ReplyAt(w, i + 1);
    SettleTranscript(acquired, previous, next, !next.automatic && w.notice.needsRepair);
    ghost var done := [Wrote(w.disk, Merged(w.disk, next), DoneAt(w, 1), true)]
                      + if DoneAt(w, 1) then [Deleted(DoneAt(w, 2), true, false)] else [];
    Reassociate(w.log, [Acquired(Done)], done);
    Snoc(w.log, [Acquired(Done)] + done, Released);
  }

  /** Any other change that does not register is a single save. */
  lemma SavingTranscript(w: World, previous: Prefs, next: Prefs)
    requires !NeedsLease(w, previous, next) && !w.held
    requires !ShouldRegister(previous.automatic, next.automatic, w.notice.needsRepair)
    ensures var (applied, saved) := (ApplySpec(w, previous, next), Merged(w.disk, next));
            && Did(w, applied.w, [Wrote(w.disk, saved, DoneAt(w, 0), false)])
            && applied.r == (if DoneAt(w, 0) then Ok(None) else Err(SaveFailed))
            && applied.w.disk == (if DoneAt(w, 0) then saved else w.disk) && applied.w.task == w.task
  {
  }

  /** What the user is told stays: a finished change clears the notice, and one with a message leaves that
      message as a warning. */
  lemma ChangeNotice(w: World, enabled: bool)
    ensures var changed := ChangeSpec(w, enabled, true);
            && (changed.r == Ok(None) ==> changed.w.notice == NO_NOTICE)
            && (changed.r.Ok? && changed.r.value.Some? ==>
                  changed.w.notice == Notice(changed.r.value, true, false))
            && changed.r == ApplySpec(w, w.disk, Requested(w.disk, enabled)).r
            && changed.w.log == ApplySpec(w, w.disk, Requested(w.disk, enabled)).w.log
  {
  }

  // ---- starting up ----

  /** What falling back does under the lease: OFF is saved first, and only then is the task deleted. */
  function FallingBack(w: World, off: Prefs, at: nat, cleanUp: bool): seq<Event> {
    [Wrote(w.disk, off, DoneAt(w, at), true)]
    + (if DoneAt(w, at) && cleanUp then [Deleted(DoneAt(w, at + 1), true, false)] else []) + [Released]
  }

  function FallBackMessage(w: World, reason: Message, at: nat, cleanUp: bool): Message {
    reason + if DoneAt(w, at) then Complaint(!cleanUp || DoneAt(w, at + 1), DeleteFailed) else [SaveFailed]
  }

  lemma FallBackTranscript(w: World, settings: Prefs, reason: Message, cleanUp: bool)
    requires w.held
    ensures var end := FallBackSpec(Answer(true, w), settings, reason, cleanUp);
            && Did(w, end, FallingBack(w, TurnedOff(settings), 0, cleanUp))
            && end.notice.error == Some(FallBackMessage(w, reason, 0, cleanUp))
            && end.disk == (if DoneAt(w, 0) then TurnedOff(settings) else w.disk)
            && end.task == (w.task && !(DoneAt(w, 0) && cleanUp && DoneAt(w, 1)))
  {
    var wrote := Wrote(w.disk, TurnedOff(settings), DoneAt(w, 0), true);
    Snoc(w.log, [wrote], Deleted(DoneAt(w, 1), true, false));
    Snoc(w.log, [wrote], Released);
    Snoc(w.log, [wrote] + [Deleted(DoneAt(w, 1), true, false)], Released);
    assert [wrote] + [] + [Released] == [wrote] + [Released];
    assert reason + [] == reason;
  }

  /** With OFF on disk, start-up deletes the task under the lease, once the user is known; any failure becomes the
      error, which keeps the setting shown as OFF. */
  lemma StartupOffTranscript(w: World)
    requires !w.disk.automatic
    ensures var end := StartupSpec(w, true);
            && (!DoneAt(w, 0) ==>
                  && Did(w, end, [Acquired(ReplyAt(w, 0))])
                  && end.notice == Notice(Some([LeaseError(ReplyAt(w, 0))]), true, true))
            && (DoneAt(w, 0) && !DoneAt(w, 1) ==> Did(w, end, [Acquired(Done), Identified(false), Released]))
            && (DoneAt(w, 0) && DoneAt(w, 1) ==>
                  Did(w, end, [Acquired(Done), Identified(true), Deleted(DoneAt(w, 2), true, false), Released]))
            && (DoneAt(w, 0) ==>
                  end.notice ==
                    if DoneAt(w, 1) && DoneAt(w, 2) then NO_NOTICE else Notice(Some([DeleteFailed]), true, true))
  {
    if DoneAt(w, 0) {
      Snoc(w.log, [Acquired(Done)], Identified(DoneAt(w, 1)));
      Snoc(w.log, [Acquired(Done), Identified(false)], Released);
      Snoc(w.log, [Acquired(Done), Identified(true)], Deleted(DoneAt(w, 2), true, false));
      Snoc(w.log, [Acquired(Done), Identified(true), Deleted(DoneAt(w, 2), true, false)], Released);
    }
  }

  /** Settings that cannot be read leave everything as it is, with a warning. */
  lemma UnreadableSettingsDecideNothing(w: World, enabled: bool)
    ensures StartupSpec(w, false) == w.(notice := Notice(Some([Unreadable]), true, false))
    ensures ChangeSpec(w, enabled, false) == Applied(Err(Unreadable), w)
  {
  }

  /** The attempts at the lease that the replies from the given one on allow: up to the first that succeeds. */
  function Attempts(w: World, at: nat, attempts: nat): seq<Event>
    decreases attempts
  {
    if attempts == 0 then []
    else [Acquired(ReplyAt(w, at))] + if DoneAt(w, at) then [] else Attempts(w, at + 1, attempts - 1)
  }

  lemma {:induction false} ShiftAttempts(w: World, w1: World, skip: nat, at: nat, attempts: nat)
    requires forall i: nat :: ReplyAt(w1, i) == ReplyAt(w, i + skip)
    ensures Attempts(w1, at, attempts) == Attempts(w, at + skip, attempts)
    decreases attempts
  {
    if attempts > 0 {
      ShiftAttempts(w, w1, skip, at + 1, attempts - 1);
    }
  }

  lemma LaterReplies(w: World, w1: World, skip: nat)
    requires w1.script == Drop(w.script, skip)
    ensures forall i: nat :: ReplyAt(w1, i) == ReplyAt(w, i + skip)
  {
  }

  /** The retry gives up after so many failures, and does not ask again once it has the lease. */
  lemma {:induction false} RetryTranscript(w: World, attempts: nat)
    ensures var (lease, tries) := (RetriedLeaseSpec(w, attempts), Attempts(w, 0, attempts));
            Did(w, lease.w, tries) && lease.w.script == Drop(w.script, |tries|)
    decreases attempts
  {
    if attempts > 0 && !DoneAt(w, 0) {
      var first := StartupLeaseSpec(w, false).w;
      RetryTranscript(first, attempts - 1);
      LaterReplies(w, first, 1);
      ShiftAttempts(w, first, 1, 0, attempts - 1);
      Reassociate(w.log, [Acquired(ReplyAt(w, 0))], Attempts(w, 1, attempts - 1));
    }
  }

  /** The reply to the last of these attempts. */
  function LastTry(w: World, at: nat, attempts: nat): Reply
    requires attempts > 0
    decreases attempts
  {
    if attempts == 1 || DoneAt(w, at) then ReplyAt(w, at) else LastTry(w, at + 1, attempts - 1)
  }

  /** It is the last of the attempts. */
  lemma {:induction false} LastTryEnds(w: World, at: nat, attempts: nat)
    requires attempts > 0
    ensures var tries := Attempts(w, at, attempts);
            tries != [] && tries[|tries| - 1] == Acquired(LastTry(w, at, attempts))
    decreases attempts
  {
    if attempts > 1 && !DoneAt(w, at) {
      LastTryEnds(w, at + 1, attempts - 1);
    } else if attempts == 1 {
      assert Attempts(w, at + 1, 0) == [];
    }
  }

  lemma {:induction false} ShiftLastTry(w: World, w1: World, skip: nat, at: nat, attempts: nat)
    requires attempts > 0 && forall i: nat :: ReplyAt(w1, i) == ReplyAt(w, i + skip)
    ensures LastTry(w1, at, attempts) == LastTry(w, at + skip, attempts)
    decreases attempts
  {
    if attempts > 1 {
      ShiftLastTry(w, w1, skip, at + 1, attempts - 1);
    }
  }

  /** The lease is held exactly when the last attempt got it; otherwise that attempt's failure is the error. */
  lemma {:induction false} RetryOutcome(w: World, attempts: nat)
    requires !w.held && attempts > 0
    ensures var (lease, last) := (RetriedLeaseSpec(w, attempts), LastTry(w, 0, attempts));
            && lease.ok == lease.w.held == (last == Done)
            && lease.w.disk == w.disk && lease.w.task == w.task
            && (!lease.ok ==> lease.w.notice.error == Some([LeaseError(last)]))
    decreases attempts
  {
    var first := StartupLeaseSpec(w, false).w;
    if attempts == 1 {
      assert RetriedLeaseSpec(first, 0) == Answer(false, first);
    } else if !DoneAt(w, 0) {
      RetryOutcome(first, attempts - 1);
      LaterReplies(w, first, 1);
      ShiftLastTry(w, first, 1, 0, attempts - 1);
    }
  }

  lemma StartupLeaseIsOneAttempt(w: World)
    ensures StartupLeaseSpec(w, false) == RetriedLeaseSpec(w, 1)
  {
    assert RetriedLeaseSpec(StartupLeaseSpec(w, false).w, 0) == Answer(false, StartupLeaseSpec(w, false).w);
  }

  /** A fallback after the operations `done`, which took the first `at` replies: it asks for the lease until it gets
      it, at most so many times, and under the lease turns the setting off; without it nothing is touched. */
  predicate FellBack(w: World, end: World, done: seq<Event>, reason: Message, at: nat, cleanUp: bool, attempts: nat)
    requires attempts > 0
  {
    var (tries, last) := (Attempts(w, at, attempts), LastTry(w, at, attempts));
    var saving := at + |tries|;
    if last != Done then
      && Did(w, end, done + tries) && end.disk == w.disk
      && end.notice.error == Some([LeaseError(last)])
    else
      && Did(w, end, done + tries + FallingBack(w, TurnedOff(w.disk), saving, cleanUp))
      && end.disk == (if DoneAt(w, saving) then TurnedOff(w.disk) else w.disk)
      && end.notice.error == Some(FallBackMessage(w, reason, saving, cleanUp))
  }

  lemma RetryAndFallBack(w: World, reason: Message, cleanUp: bool, attempts: nat)
    requires !w.held && attempts > 0
    ensures FellBack(w, FallBackSpec(RetriedLeaseSpec(w, attempts), w.disk, reason, cleanUp), [], reason, 0, cleanUp,
                     attempts)
  {
    RetryTranscript(w, attempts);
    RetryOutcome(w, attempts);
    var lease := RetriedLeaseSpec(w, attempts);
    var tries := Attempts(w, 0, attempts);
    assert [] + tries == tries;
    if lease.ok {
      LaterReplies(w, lease.w, |tries|);
      FallBackTranscript(lease.w, w.disk, reason, cleanUp);
      Reassociate(w.log, tries, FallingBack(lease.w, TurnedOff(w.disk), 0, cleanUp));
    }
  }

  lemma InThreeParts(log: seq<Event>, done: seq<Event>, tries: seq<Event>, back: seq<Event>)
    ensures log + done + ([] + tries) == log + (done + tries)
    ensures log + done + ([] + tries + back) == log + (done + tries + back)
  {
    assert [] + tries == tries;
    Reassociate(log, done, tries);
    Reassociate(log + done, tries, back);
    Reassociate(log, done + tries, back);
  }

  lemma FellBackLater(w: World, w1: World, end: World, done: seq<Event>, reason: Message, at: nat, cleanUp: bool,
                      attempts: nat)
    requires attempts > 0 && w1.disk == w.disk && w1.script == Drop(w.script, at) && Did(w, w1, done)
    requires FellBack(w1, end, [], reason, 0, cleanUp, attempts)
    ensures FellBack(w, end, done, reason, at, cleanUp, attempts)
  {
    LaterReplies(w, w1, at);
    ShiftAttempts(w, w1, at, 0, attempts);
    ShiftLastTry(w, w1, at, 0, attempts);
    var tries := Attempts(w1, 0, attempts);
    InThreeParts(w.log, done, tries, FallingBack(w1, TurnedOff(w.disk), |tries|, cleanUp));
  }

  lemma RecoveryFallsBack(w: World, w1: World, done: seq<Event>, reason: Message, at: nat, cleanUp: bool, attempts: nat)
    requires !w1.held && attempts > 0 && w1.disk == w.disk && w1.script == Drop(w.script, at) && Did(w, w1, done)
    ensures var end := FallBackSpec(RetriedLeaseSpec(w1, attempts), w.disk, reason, cleanUp);
            FellBack(w, end, done, reason, at, cleanUp, attempts) && end.notice.error.Some?
  {
    RetryAndFallBack(w1, reason, cleanUp, attempts);
    FellBackLater(w, w1, FallBackSpec(RetriedLeaseSpec(w1, attempts), w.disk, reason, cleanUp), done, reason, at,
                  cleanUp, attempts);
  }

  /** An unknown user: the task is kept, because its name is not known either. */
  lemma UnknownUserFallsBack(w: World)
    requires w.disk.automatic && !w.held && !DoneAt(w, 0)
    ensures FellBack(w, StartupSpec(w, true), [Identified(false)], [IdentityFailed], 1, false, 2)
    ensures StartupSpec(w, true).notice.error.Some?
  {
    var w1 := IdentifySpec(w).w;
    RecoveryFallsBack(w, w1, [Identified(false)], [IdentityFailed], 1, false, 2);
  }

  /** A task that is not registered. */
  lemma RefusedTaskFallsBack(w: World)
    requires w.disk.automatic && !w.held && DoneAt(w, 0) && !DoneAt(w, 1)
    ensures FellBack(w, StartupSpec(w, true), [Identified(true), Registered(false)], [RegisterFailed], 2,
                     true, 2)
    ensures StartupSpec(w, true).notice.error.Some?
  {
    var w1 := RegisterSpec(IdentifySpec(w).w).w;
    Snoc(w.log, [Identified(true)], Registered(false));
    assert [Identified(true)] + [Registered(false)] == [Identified(true), Registered(false)];
    RecoveryFallsBack(w, w1, [Identified(true), Registered(false)], [RegisterFailed], 2, true, 2);
  }

  /** A run that fails: the lease is asked for only once. */
  lemma FailedRunFallsBack(w: World)
    requires w.disk.automatic && !w.held && DoneAt(w, 0) && DoneAt(w, 1) && !DoneAt(w, 2)
    ensures FellBack(w, StartupSpec(w, true), [Identified(true), Registered(true), Ran(false, true)], [RunFailed], 3,
                     true, 1)
    ensures StartupSpec(w, true).notice.error.Some?
  {
    var w1 := RunSpec(RegisterSpec(IdentifySpec(w).w).w).w;
    Snoc(w.log, [Identified(true)], Registered(true));
    Snoc(w.log, [Identified(true), Registered(true)], Ran(false, true));
    assert [Identified(true)] + [Registered(true)] + [Ran(false, true)] ==
           [Identified(true), Registered(true), Ran(false, true)];
    StartupLeaseIsOneAttempt(w1);
    RecoveryFallsBack(w, w1, [Identified(true), Registered(true), Ran(false, true)], [RunFailed], 3, true, 1);
  }

  /** With ON on disk, start-up ends without an error exactly when the user is known, the task is registered and
      the checker is run, in this order and with nothing else done. */
  lemma StartupOnRuns(w: World)
    requires w.disk.automatic && !w.held
    ensures var end := StartupSpec(w, true);
            && (end.notice.error.None? <==> DoneAt(w, 0) && DoneAt(w, 1) && DoneAt(w, 2))
            && (end.notice.error.None? ==>
                  Did(w, end, [Identified(true), Registered(true), Ran(true, true)]) && end.task && end.disk == w.disk)
  {
    if DoneAt(w, 0) && DoneAt(w, 1) && DoneAt(w, 2) {
      Snoc(w.log, [Identified(true)], Registered(true));
      Snoc(w.log, [Identified(true), Registered(true)], Ran(true, true));
    } else if !DoneAt(w, 0) {
      UnknownUserFallsBack(w);
    } else if !DoneAt(w, 1) {
      RefusedTaskFallsBack(w);
    } else {
      FailedRunFallsBack(w);
    }
  }

  // ---- what is ever written ----

  /** A step leaves the settings alone or writes one of three values: ON with the question answered, OFF as the user
      asked for it, or OFF with the question answered when the program itself falls back. */
  lemma StepWrites(w: World, step: Step)
    requires !w.held
    ensures var end := Perform(w, step).disk;
            || end == w.disk
            || (step.Change? && step.enabled && end == Prefs(true, true, w.disk.rest))
            || (step.Change? && !step.enabled && end == Prefs(false, w.disk.dismissed, w.disk.rest))
            || ((step.Change? ==> step.enabled) && end == Prefs(false, true, w.disk.rest))
  {
    var w0 := w.(script := step.replies);
    match step
    case Startup(readable, _) =>
      if readable {
        StartupWrites(w0);
      }
    case Change(enabled, readable, _) =>
      ApplyOutcome(w0, w0.disk, Requested(w0.disk, enabled));
      if readable {
        NoticesWriteNothing(w0, enabled);
      }
  }

  lemma NoticesWriteNothing(w: World, enabled: bool)
    ensures var applied := ApplySpec(w, w.disk, Requested(w.disk, enabled));
            ChangeSpec(w, enabled, true).w.disk == applied.w.disk
  {
  }

  lemma StartupWrites(w: World)
    requires !w.held
    ensures StartupSpec(w, true).disk == w.disk || StartupSpec(w, true).disk == Prefs(false, true, w.disk.rest)
  {
    if w.disk.automatic {
      StartupOnRuns(w);
      if !DoneAt(w, 0) {
        UnknownUserFallsBack(w);
      } else if !DoneAt(w, 1) {
        RefusedTaskFallsBack(w);
      } else if !DoneAt(w, 2) {
        FailedRunFallsBack(w);
      }
    }
  }

  /** In every session the other fields stay, and an answered question stays answered. */
  lemma {:induction false} SessionKeepsOthers(w: World, steps: seq<Step>)
    requires LogIsSafe(w.log) && !w.held
    ensures var end := Session(w, steps).disk; end.rest == w.disk.rest && (w.disk.dismissed ==> end.dismissed)
    decreases |steps|
  {
    if steps != [] {
      StepWrites(w, steps[0]);
      StepIsSafe(w, steps[0]);
      SessionKeepsOthers(Perform(w, steps[0]), steps[1..]);
    }
  }
}
