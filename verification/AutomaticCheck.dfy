/** The automatic update check: the settings on disk, the scheduled task and the checker's lease. */
module AutomaticCheck {
  import opened Prelude

  const STARTUP_LEASE_RETRY_ATTEMPTS := 2

  /** The settings involved; `rest` stands for all other fields. */
  datatype Prefs = Prefs(automatic: bool, dismissed: bool, rest: string)

  datatype Cause =
    | LeaseBusy | LeaseFailed | IdentityFailed | RegisterFailed | RunFailed | DeleteFailed | SaveFailed | Unreadable

  type Message = seq<Cause>

  /** `AutomaticCheckReconcileState` */
  datatype Notice = Notice(error: Option<Message>, needsRepair: bool, forceOff: bool)

  const NO_NOTICE := Notice(None, false, false)

  /** How one outside operation ends; `Busy` means something for the lease only. */
  datatype Reply = Done | Busy | Refused

  datatype Event =
    | Acquired(reply: Reply)
    | Released
    | Identified(ok: bool)
    | Registered(ok: bool)
    | Wrote(before: Prefs, after: Prefs, ok: bool, held: bool)
    | Ran(ok: bool, persistedOn: bool)
    | Deleted(ok: bool, held: bool, undo: bool)

  /** Everything a transaction can touch, the replies still to come and what happened so far. */
  datatype World = World(disk: Prefs, task: bool, held: bool, notice: Notice, script: seq<Reply>, log: seq<Event>)

  // ---- outside operations ----

  /** The next reply; once the script is used up everything is refused. */
  function NextReply(w: World): Reply {
    if w.script == [] then Refused else w.script[0]
  }

  function Advance(w: World, event: Event): World {
    w.(script := Drop(w.script, 1), log := w.log + [event])
  }

  datatype Answer = Answer(ok: bool, w: World)

  function AcquireSpec(w: World): World {
    var w1 := Advance(w, Acquired(NextReply(w)));
    if NextReply(w) == Done then w1.(held := true) else w1
  }

  /** Dropping the lease. */
  function ReleaseSpec(w: World): World {
    w.(held := false, log := w.log + [Released])
  }

  function IdentifySpec(w: World): Answer {
    var ok := NextReply(w) == Done;
    Answer(ok, Advance(w, Identified(ok)))
  }

  function RegisterSpec(w: World): Answer {
    var ok := NextReply(w) == Done;
    var w1 := Advance(w, Registered(ok));
    Answer(ok, if ok then w1.(task := true) else w1)
  }

  function SaveSpec(w: World, after: Prefs): Answer {
    var ok := NextReply(w) == Done;
    var w1 := Advance(w, Wrote(w.disk, after, ok, w.held));
    Answer(ok, if ok then w1.(disk := after) else w1)
  }

  function RunSpec(w: World): Answer {
    var ok := NextReply(w) == Done;
    Answer(ok, Advance(w, Ran(ok, w.disk.automatic)))
  }

  /** Deleting the task; `undo` marks the deletion of a task that the same change has just registered. */
  function DeleteSpec(w: World, undo: bool): Answer {
    var ok := NextReply(w) == Done;
    var w1 := Advance(w, Deleted(ok, w.held, undo));
    Answer(ok, if ok then w1.(task := false) else w1)
  }

  // ---- notices ----

  function SetErrorSpec(w: World, message: Message): World {
    w.(notice := Notice(Some(message), true, true))
  }

  function SetWarningSpec(w: World, message: Message): World {
    w.(notice := Notice(Some(message), true, false))
  }

  function ClearSpec(w: World): World {
    w.(notice := NO_NOTICE)
  }

  // ---- changing the setting ----

  datatype Applied = Applied(r: Result<Option<Message>, Cause>, w: World)

  predicate ShouldRegister(previous: bool, next: bool, needsRepair: bool) {
    next && (!previous || needsRepair)
  }

  /** The saved desire: only the two update fields, over the latest settings. */
  function Merged(latest: Prefs, desired: Prefs): Prefs {
    latest.(automatic := desired.automatic, dismissed := desired.dismissed)
  }

  function TurnedOff(p: Prefs): Prefs {
    p.(automatic := false, dismissed := true)
  }

  /** Saving without registering; leaving ON, or repairing OFF, also deletes the task. */
  function SettleSpec(w: World, previous: Prefs, next: Prefs, repairOff: bool): Applied {
    var saved := SaveSpec(w, Merged(w.disk, next));
    if !saved.ok then Applied(Err(SaveFailed), saved.w)
    else if (previous.automatic && !next.automatic) || repairOff then
      var deleted := DeleteSpec(saved.w, false);
      if deleted.ok then Applied(Ok(None), if repairOff then ClearSpec(deleted.w) else deleted.w)
      else if previous.automatic && !next.automatic then Applied(Ok(Some([DeleteFailed])), deleted.w)
      else Applied(Ok(Some([DeleteFailed])), SetWarningSpec(deleted.w, [DeleteFailed]))
    else Applied(Ok(None), saved.w)
  }

  /** `rollback_apply_after_run_failure` */
  function RollbackSpec(w: World, next: Prefs): (Message, World) {
    var acquired := AcquireSpec(w);
    match NextReply(w)
    case Busy => ([RunFailed, LeaseBusy], SetWarningSpec(acquired, [RunFailed, LeaseBusy]))
    case Refused => ([RunFailed, LeaseFailed], SetWarningSpec(acquired, [RunFailed, LeaseFailed]))
    case Done =>
      var deleted := DeleteSpec(acquired, false);
      var reason := if deleted.ok then [RunFailed] else [RunFailed] + [DeleteFailed];
      var saved := SaveSpec(deleted.w, Merged(deleted.w.disk, TurnedOff(next)));
      (if saved.ok then reason else reason + [SaveFailed], ReleaseSpec(saved.w))
  }

  /** Register first, then persist ON, then run. */
  function TurnOnSpec(w: World, next: Prefs): Applied {
    var registered := RegisterSpec(w);
    if !registered.ok then Applied(Err(RegisterFailed), SetErrorSpec(registered.w, [RegisterFailed]))
    else
      var saved := SaveSpec(registered.w, Merged(registered.w.disk, next));
      if !saved.ok then Applied(Err(SaveFailed), DeleteSpec(saved.w, true).w)
      else
        var ran := RunSpec(saved.w);
        if ran.ok then Applied(Ok(None), ran.w)
        else
          var (message, end) := RollbackSpec(ran.w, next);
          Applied(Ok(Some(message)), end)
  }

  /** `apply_automatic_check_transaction_with_lease` */
  function ApplySpec(w: World, previous: Prefs, next: Prefs): Applied {
    var repairOff := !next.automatic && w.notice.needsRepair;
    if (previous.automatic && !next.automatic) || repairOff then
      match NextReply(w)
      case Busy => Applied(Err(LeaseBusy), AcquireSpec(w))
      case Refused => Applied(Err(LeaseFailed), AcquireSpec(w))
      case Done =>
        var settled := SettleSpec(AcquireSpec(w), previous, next, repairOff);
        Applied(settled.r, ReleaseSpec(settled.w))
    else if ShouldRegister(previous.automatic, next.automatic, w.notice.needsRepair) then TurnOnSpec(w, next)
    else SettleSpec(w, previous, next, false)
  }

  function Requested(previous: Prefs, enabled: bool): Prefs {
    previous.(automatic := enabled, dismissed := previous.dismissed || enabled)
  }

  /** `set_automatic_check`: settings that cannot be loaded for mutation end the change before it starts. */
  function ChangeSpec(w: World, enabled: bool, readable: bool): Applied {
    if !readable then Applied(Err(Unreadable), w) else ChangeReadSpec(w, enabled)
  }

  function ChangeReadSpec(w: World, enabled: bool): Applied {
    var applied := ApplySpec(w, w.disk, Requested(w.disk, enabled));
    match applied.r
    case Err(_) => applied
    case Ok(None) => applied.(w := ClearSpec(applied.w))
    case Ok(Some(message)) => applied.(w := SetWarningSpec(applied.w, message))
  }

  // ---- starting up ----

  /** `acquire_startup_state_lease` */
  function StartupLeaseSpec(w: World, forceOff: bool): Answer {
    var acquired := AcquireSpec(w);
    if NextReply(w) == Done then Answer(true, acquired)
    else
      var message := [if NextReply(w) == Busy then LeaseBusy else LeaseFailed];
      Answer(false, if forceOff then SetErrorSpec(acquired, message) else SetWarningSpec(acquired, message))
  }

  /** `acquire_startup_state_lease_with_retry` */
  function RetriedLeaseSpec(w: World, attempts: nat): Answer
    decreases attempts
  {
    if attempts == 0 then Answer(false, w)
    else
      var first := StartupLeaseSpec(w, false);
      if first.ok then first else RetriedLeaseSpec(first.w, attempts - 1)
  }

  /** `save_reconcile_off_with_task_cleanup` */
  function SaveOffSpec(w: World, settings: Prefs, reason: Message, cleanUp: bool): World {
    var saved := SaveSpec(w, TurnedOff(settings));
    if !saved.ok then SetWarningSpec(saved.w, reason + [SaveFailed])
    else if !cleanUp then SetErrorSpec(saved.w, reason)
    else
      var deleted := DeleteSpec(saved.w, false);
      SetErrorSpec(deleted.w, if deleted.ok then reason else reason + [DeleteFailed])
  }

  /** OFF is on disk: the task is deleted, but only under the lease. */
  function ReconcileOffSpec(w: World): World {
    var lease := StartupLeaseSpec(w, true);
    if !lease.ok then lease.w
    else
      var identified := IdentifySpec(lease.w);
      if !identified.ok then ReleaseSpec(SetErrorSpec(identified.w, [DeleteFailed]))
      else
        var deleted := DeleteSpec(identified.w, false);
        ReleaseSpec(if deleted.ok then ClearSpec(deleted.w) else SetErrorSpec(deleted.w, [DeleteFailed]))
  }

  /** ON is on disk and the user is known: register and run, or fall back to OFF. */
  function ReconcileOnSpec(w: World, settings: Prefs): World {
    var registered := RegisterSpec(w);
    if !registered.ok then
      FallBackSpec(RetriedLeaseSpec(registered.w, STARTUP_LEASE_RETRY_ATTEMPTS), settings, [RegisterFailed], true)
    else
      var ran := RunSpec(registered.w);
      if ran.ok then ClearSpec(ran.w)
      else FallBackSpec(StartupLeaseSpec(ran.w, false), settings, [RunFailed], true)
  }

  /** `reconcile_automatic_check_task_with_lease` */
  function ReconcileSpec(w: World, settings: Prefs): World {
    if !settings.automatic then ReconcileOffSpec(w)
    else
      var identified := IdentifySpec(w);
      if identified.ok then ReconcileOnSpec(identified.w, settings)
      else FallBackSpec(RetriedLeaseSpec(identified.w, STARTUP_LEASE_RETRY_ATTEMPTS), settings, [IdentityFailed], false)
  }

  /** Turn the setting off if the lease was granted. */
  function FallBackSpec(lease: Answer, settings: Prefs, reason: Message, cleanUp: bool): World {
    if lease.ok then ReleaseSpec(SaveOffSpec(lease.w, settings, reason, cleanUp)) else lease.w
  }

  /** `reconcile_automatic_check_task`: settings that cannot be read decide nothing. */
  function StartupSpec(w: World, readable: bool): World {
    if readable then ReconcileSpec(w, w.disk) else SetWarningSpec(w, [Unreadable])
  }

  // ---- one transaction ----

  /** An OFF over an ON, and any deletion but the undoing of a registration, is attempted only under the
      lease, and a run only when ON is persisted. */
  predicate EventIsSafe(event: Event) {
    && (event.Deleted? ==> event.held || event.undo)
    && (event.Wrote? && event.before.automatic && !event.after.automatic ==> event.held)
    && (event.Ran? ==> event.persistedOn)
  }

  predicate LogIsSafe(log: seq<Event>) {
    forall event | event in log :: EventIsSafe(event)
  }

  lemma AdvanceLog(w: World, event: Event)
    ensures LogIsSafe(Advance(w, event).log) <==> LogIsSafe(w.log) && EventIsSafe(event)
    ensures LogIsSafe(ReleaseSpec(w).log) <==> LogIsSafe(w.log)
  {
    assert forall e | e in w.log :: e in w.log + [event] && e in w.log + [Released];
    assert event in w.log + [event];
  }

  lemma SaveLog(w: World, after: Prefs)
    ensures LogIsSafe(SaveSpec(w, after).w.log) <==>
              LogIsSafe(w.log) && (w.disk.automatic && !after.automatic ==> w.held)
  {
    AdvanceLog(w, Wrote(w.disk, after, NextReply(w) == Done, w.held));
  }

  /** Every other operation is safe, except a run while OFF is persisted and a deletion without the lease. */
  lemma OtherLogs(w: World)
    ensures LogIsSafe(AcquireSpec(w).log) <==> LogIsSafe(w.log)
    ensures LogIsSafe(IdentifySpec(w).w.log) <==> LogIsSafe(w.log)
    ensures LogIsSafe(RegisterSpec(w).w.log) <==> LogIsSafe(w.log)
    ensures LogIsSafe(DeleteSpec(w, false).w.log) <==> LogIsSafe(w.log) && w.held
    ensures LogIsSafe(DeleteSpec(w, true).w.log) <==> LogIsSafe(w.log)
    ensures LogIsSafe(ReleaseSpec(w).log) <==> LogIsSafe(w.log)
    ensures LogIsSafe(RunSpec(w).w.log) <==> LogIsSafe(w.log) && w.disk.automatic
  {
    var ok := NextReply(w) == Done;
    AdvanceLog(w, Acquired(NextReply(w)));
    AdvanceLog(w, Identified(ok));
    AdvanceLog(w, Registered(ok));
    AdvanceLog(w, Deleted(ok, w.held, false));
    AdvanceLog(w, Deleted(ok, w.held, true));
    AdvanceLog(w, Ran(ok, w.disk.automatic));
  }

  lemma SettleLog(w: World, previous: Prefs, next: Prefs, repairOff: bool)
    requires (previous.automatic && !next.automatic) || repairOff ==> w.held
    ensures var settled := SettleSpec(w, previous, next, repairOff).w;
            && settled.held == w.held
            && (LogIsSafe(settled.log) <==> LogIsSafe(w.log) && (w.disk.automatic && !next.automatic ==> w.held))
  {
    SaveLog(w, Merged(w.disk, next));
    OtherLogs(SaveSpec(w, Merged(w.disk, next)).w);
  }

  lemma RollbackLog(w: World, next: Prefs)
    requires !w.held
    ensures !RollbackSpec(w, next).1.held
    ensures LogIsSafe(RollbackSpec(w, next).1.log) <==> LogIsSafe(w.log)
  {
    OtherLogs(w);
    if NextReply(w) == Done {
      var acquired := AcquireSpec(w);
      var deleted := DeleteSpec(acquired, false).w;
      OtherLogs(acquired);
      SaveLog(deleted, Merged(deleted.disk, TurnedOff(next)));
      OtherLogs(SaveSpec(deleted, Merged(deleted.disk, TurnedOff(next))).w);
    }
  }

  lemma TurnOnLog(w: World, next: Prefs)
    requires !w.held && next.automatic
    ensures !TurnOnSpec(w, next).w.held
    ensures LogIsSafe(TurnOnSpec(w, next).w.log) <==> LogIsSafe(w.log)
  {
    var registered := RegisterSpec(w).w;
    var saved := SaveSpec(registered, Merged(registered.disk, next)).w;
    OtherLogs(w);
    SaveLog(registered, Merged(registered.disk, next));
    OtherLogs(saved);
    RollbackLog(RunSpec(saved).w, next);
  }

  /** Whatever view of the setting a change starts from, it gives the lease back, runs the checker only
      with ON persisted, and writes OFF over ON without the lease in exactly one case: its view was a
      stale OFF and no repair was due. */
  lemma UnleasedOffExactly(w: World, previous: Prefs, next: Prefs)
    requires LogIsSafe(w.log) && !w.held
    ensures !ApplySpec(w, previous, next).w.held
    ensures !LogIsSafe(ApplySpec(w, previous, next).w.log) <==>
              w.disk.automatic && !previous.automatic && !next.automatic && !w.notice.needsRepair
  {
    var repairOff := !next.automatic && w.notice.needsRepair;
    if (previous.automatic && !next.automatic) || repairOff {
      var acquired := AcquireSpec(w);
      OtherLogs(w);
      if NextReply(w) == Done {
        SettleLog(acquired, previous, next, repairOff);
        OtherLogs(SettleSpec(acquired, previous, next, repairOff).w);
      }
    } else if ShouldRegister(previous.automatic, next.automatic, w.notice.needsRepair) {
      TurnOnLog(w, next);
    } else {
      SettleLog(w, previous, next, false);
    }
  }

  /** It happens: a change to OFF that saw OFF while ON had been saved meanwhile. */
  lemma UnleasedOffHappens(rest: string)
    ensures var on := World(Prefs(true, true, rest), true, false, NO_NOTICE, [Done], []);
            var applied := ApplySpec(on, Prefs(false, false, rest), Prefs(false, false, rest));
            && applied.r == Ok(None) && !applied.w.disk.automatic
            && applied.w.log == [Wrote(on.disk, Prefs(false, false, rest), true, false)]
            && !LogIsSafe(applied.w.log)
  {
    var on := World(Prefs(true, true, rest), true, false, NO_NOTICE, [Done], []);
    UnleasedOffExactly(on, Prefs(false, false, rest), Prefs(false, false, rest));
  }

  lemma SettleOutcome(w: World, previous: Prefs, next: Prefs, repairOff: bool)
    ensures var settled := SettleSpec(w, previous, next, repairOff);
            && settled.w.disk == (if settled.r.Ok? then Merged(w.disk, next) else w.disk)
  {
  }

  /** The message of a rollback says exactly what was undone: without the lease nothing was; otherwise
      the task is gone unless deleting it failed, and OFF is stored unless saving it failed. */
  lemma RollbackOutcome(w: World, next: Prefs)
    ensures var (message, end) := RollbackSpec(w, next);
            var leased := LeaseBusy !in message && LeaseFailed !in message;
            && message != [] && message[0] == RunFailed
            && end.task == (w.task && !(leased && DeleteFailed !in message))
            && end.disk == if leased && SaveFailed !in message then Merged(w.disk, TurnedOff(next)) else w.disk
  {
  }

  lemma TurnOnOutcome(w: World, next: Prefs)
    ensures var on := TurnOnSpec(w, next);
            && (on.r.Err? ==> on.w.disk == w.disk)
            && (on.r == Ok(None) ==> on.w.disk == Merged(w.disk, next))
            && (on.r.Ok? && on.r.value.Some? ==>
                  on.r.value.value != [] && on.r.value.value[0] == RunFailed
                  && (on.w.disk == Merged(w.disk, next) || on.w.disk == Merged(w.disk, TurnedOff(next))))
  {
    var registered := RegisterSpec(w).w;
    var saved := SaveSpec(registered, Merged(registered.disk, next));
    if saved.ok {
      RollbackOutcome(RunSpec(saved.w).w, next);
    }
  }

  /** An error leaves the disk as it was; success stores the desired fields, or OFF when the immediate
      run failed; other fields are never touched. */
  lemma ApplyOutcome(w: World, previous: Prefs, next: Prefs)
    ensures var applied := ApplySpec(w, previous, next);
            && (applied.r.Err? ==> applied.w.disk == w.disk)
            && (applied.r == Ok(None) ==> applied.w.disk == Merged(w.disk, next))
            && (applied.r.Ok? && applied.w.disk != Merged(w.disk, next) ==>
                  next.automatic && applied.r.value.Some? && RunFailed in applied.r.value.value
                  && applied.w.disk == Merged(w.disk, TurnedOff(next)))
  {
    var repairOff := !next.automatic && w.notice.needsRepair;
    if (previous.automatic && !next.automatic) || repairOff {
      SettleOutcome(AcquireSpec(w), previous, next, repairOff);
    } else if ShouldRegister(previous.automatic, next.automatic, w.notice.needsRepair) {
      TurnOnOutcome(w, next);
    } else {
      SettleOutcome(w, previous, next, false);
    }
  }

  // ---- starting up ----

  lemma {:induction false} RetriedLease(w: World, attempts: nat)
    requires !w.held
    ensures var lease := RetriedLeaseSpec(w, attempts);
            && lease.ok == lease.w.held && lease.w.disk == w.disk
            && (LogIsSafe(lease.w.log) <==> LogIsSafe(w.log))
            && (!lease.ok && attempts > 0 ==>
                lease.w.notice.error.Some? && lease.w.notice.needsRepair && !lease.w.notice.forceOff)
    decreases attempts
  {
    if attempts > 0 {
      OtherLogs(w);
      var first := StartupLeaseSpec(w, false);
      if !first.ok {
        RetriedLease(first.w, attempts - 1);
      }
    }
  }

  /** What start-up promises: a safe log, the lease given back, a disk that is as it was or turned off; no
      error means that disk and task agree, the force-off flag stands exactly when there is an error and
      the disk holds OFF, and after turning off the task is gone unless the error says why not. */
  predicate Reconciled(before: Prefs, end: World) {
    && LogIsSafe(end.log) && !end.held
    && (end.disk == before || (before.automatic && end.disk == TurnedOff(before)))
    && (end.notice.error.None? ==> end.disk == before && end.task == before.automatic)
    && (end.notice.needsRepair <==> end.notice.error.Some?)
    && (end.notice.forceOff <==> end.notice.error.Some? && !end.disk.automatic)
    && (end.notice.error.Some? && end.disk != before ==>
          !end.task || DeleteFailed in end.notice.error.value || IdentityFailed in end.notice.error.value)
  }

  lemma FallBackReconciles(lease: Answer, settings: Prefs, reason: Message, cleanUp: bool)
    requires lease.ok == lease.w.held && LogIsSafe(lease.w.log)
    requires lease.w.disk == settings && settings.automatic && (cleanUp || IdentityFailed in reason)
    requires !lease.ok ==> lease.w.notice.error.Some? && lease.w.notice.needsRepair && !lease.w.notice.forceOff
    ensures Reconciled(settings, FallBackSpec(lease, settings, reason, cleanUp))
  {
    if lease.ok {
      var saved := SaveSpec(lease.w, TurnedOff(settings));
      SaveLog(lease.w, TurnedOff(settings));
      OtherLogs(saved.w);
      OtherLogs(SaveOffSpec(lease.w, settings, reason, cleanUp));
    }
  }

  lemma OffReconciles(w: World)
    requires LogIsSafe(w.log) && !w.held && !w.disk.automatic
    ensures Reconciled(w.disk, ReconcileOffSpec(w))
  {
    OtherLogs(w);
    var lease := StartupLeaseSpec(w, true).w;
    var identified := IdentifySpec(lease).w;
    OtherLogs(lease);
    OtherLogs(identified);
    OtherLogs(DeleteSpec(identified, false).w);
    OtherLogs(SetErrorSpec(identified, [DeleteFailed]));
  }

  lemma OnReconciles(w: World)
    requires LogIsSafe(w.log) && !w.held && w.disk.automatic
    ensures Reconciled(w.disk, ReconcileOnSpec(w, w.disk))
  {
    var registered := RegisterSpec(w);
    OtherLogs(w);
    if !registered.ok {
      RetriedLease(registered.w, STARTUP_LEASE_RETRY_ATTEMPTS);
      FallBackReconciles(RetriedLeaseSpec(registered.w, STARTUP_LEASE_RETRY_ATTEMPTS), w.disk, [RegisterFailed], true);
    } else {
      var ran := RunSpec(registered.w);
      OtherLogs(registered.w);
      if !ran.ok {
        OtherLogs(ran.w);
        FallBackReconciles(StartupLeaseSpec(ran.w, false), w.disk, [RunFailed], true);
      }
    }
  }

  /** Starting up from settings equal to the disk, whatever fails. */
  lemma StartupReconciles(w: World)
    requires LogIsSafe(w.log) && !w.held
    ensures Reconciled(w.disk, ReconcileSpec(w, w.disk))
  {
    OtherLogs(w);
    if !w.disk.automatic {
      OffReconciles(w);
    } else {
      var identified := IdentifySpec(w);
      if identified.ok {
        OnReconciles(identified.w);
      } else {
        RetriedLease(identified.w, STARTUP_LEASE_RETRY_ATTEMPTS);
        FallBackReconciles(RetriedLeaseSpec(identified.w, STARTUP_LEASE_RETRY_ATTEMPTS), w.disk, [IdentityFailed],
                           false);
      }
    }
  }

  // ---- sessions ----

  /** Unless a repair is due, disk and task agree. */
  predicate Trusted(w: World) {
    !w.notice.needsRepair ==> w.task == w.disk.automatic
  }

  /** The flag that shows the setting as OFF stands while ON is persisted. */
  predicate Deceptive(w: World) {
    w.notice.forceOff && w.disk.automatic
  }

  function ReplyAt(w: World, i: nat): Reply {
    if i < |w.script| then w.script[i] else Refused
  }

  /** Turning ON registers the task, and then neither the save nor the clean-up succeeds. */
  predicate LeavesTaskBehind(w: World, enabled: bool) {
    enabled && !w.disk.automatic && !w.notice.needsRepair
    && ReplyAt(w, 0) == Done && ReplyAt(w, 1) != Done && ReplyAt(w, 2) != Done
  }

  /** A repair of a persisted ON cannot register the task. */
  predicate RepairIsRefused(w: World, enabled: bool) {
    enabled && w.disk.automatic && w.notice.needsRepair && NextReply(w) != Done
  }

  lemma TurnOnTrust(w: World, next: Prefs)
    requires next.automatic
    ensures var on := TurnOnSpec(w, next);
            && (on.r == Err(RegisterFailed) <==> NextReply(w) != Done)
            && (on.r == Err(RegisterFailed) ==> on.w.notice.needsRepair && on.w.notice.forceOff)
            && (on.r.Err? && on.r != Err(RegisterFailed) ==>
                  on.w.notice == w.notice && ReplyAt(w, 1) != Done && on.w.task == (ReplyAt(w, 2) != Done))
            && (on.r == Ok(None) ==> on.w.task)
            && (on.r.Err? && NextReply(w) == Done <==> ReplyAt(w, 0) == Done && ReplyAt(w, 1) != Done)
  {
  }

  lemma SettleTrust(w: World, previous: Prefs, next: Prefs, repairOff: bool)
    ensures var settled := SettleSpec(w, previous, next, repairOff);
            && (settled.r.Err? ==>
                  settled.w.notice == w.notice && settled.w.task == w.task && settled.r == Err(SaveFailed))
            && (settled.r == Ok(None) ==>
                  settled.w.task == if (previous.automatic && !next.automatic) || repairOff then false else w.task)
  {
  }

  /** One change of the setting, seen from outside: the saved setting and the task agree unless a repair
      is marked, and the force-off flag is true to the disk, each with exactly one exception. */
  lemma ChangeVerdict(w: World, enabled: bool, readable: bool)
    requires Trusted(w) && !Deceptive(w)
    ensures var changed := ChangeSpec(w, enabled, readable);
            && (changed.r == Err(Unreadable) <==> !readable) && (!readable ==> changed.w == w)
            && (changed.r.Err? ==> changed.w.disk == w.disk)
            && (changed.r == Ok(None) ==> changed.w.disk.automatic == enabled == changed.w.task)
            && changed.w.disk.rest == w.disk.rest
            && (Trusted(changed.w) <==> !(readable && LeavesTaskBehind(w, enabled)))
            && (Deceptive(changed.w) <==> readable && RepairIsRefused(w, enabled))
  {
    var next := Requested(w.disk, enabled);
    ApplyOutcome(w, w.disk, next);
    var repairOff := !enabled && w.notice.needsRepair;
    if (w.disk.automatic && !enabled) || repairOff {
      SettleTrust(AcquireSpec(w), w.disk, next, repairOff);
    } else if ShouldRegister(w.disk.automatic, enabled, w.notice.needsRepair) {
      TurnOnTrust(w, next);
    } else {
      SettleTrust(w, w.disk, next, false);
    }
  }

  datatype Step =
    | Startup(readable: bool, replies: seq<Reply>)
    | Change(enabled: bool, readable: bool, replies: seq<Reply>)

  function Perform(w: World, step: Step): World {
    var w0 := w.(script := step.replies);
    match step
    case Startup(readable, _) => StartupSpec(w0, readable)
    case Change(enabled, readable, _) => ChangeSpec(w0, enabled, readable).w
  }

  function Session(w: World, steps: seq<Step>): World
    decreases |steps|
  {
    if steps == [] then w else Session(Perform(w, steps[0]), steps[1..])
  }

  /** The step is one of the two that break a promise. */
  predicate Exceptional(w: World, step: Step) {
    step.Change? && step.readable && (LeavesTaskBehind(w.(script := step.replies), step.enabled)
                                      || RepairIsRefused(w.(script := step.replies), step.enabled))
  }

  /** No step of the session is exceptional where it is taken. */
  predicate Ordinary(w: World, steps: seq<Step>)
    decreases |steps|
  {
    steps != [] ==> !Exceptional(w, steps[0]) && Ordinary(Perform(w, steps[0]), steps[1..])
  }

  lemma StepIsSafe(w: World, step: Step)
    requires LogIsSafe(w.log) && !w.held
    ensures LogIsSafe(Perform(w, step).log) && !Perform(w, step).held
  {
    var w0 := w.(script := step.replies);
    match step
    case Startup(readable, _) =>
      if readable {
        StartupReconciles(w0);
      }
    case Change(enabled, _, _) => UnleasedOffExactly(w0, w0.disk, Requested(w0.disk, enabled));
  }

  /** In every session with arbitrary replies, OFF is written over ON only under the checker's lease,
      the checker is run only with ON persisted, and the lease is given back. */
  lemma {:induction false} EverySessionIsSafe(w: World, steps: seq<Step>)
    requires LogIsSafe(w.log) && !w.held
    ensures LogIsSafe(Session(w, steps).log) && !Session(w, steps).held
    decreases |steps|
  {
    if steps != [] {
      StepIsSafe(w, steps[0]);
      EverySessionIsSafe(Perform(w, steps[0]), steps[1..]);
    }
  }

  lemma StepIsHonest(w: World, step: Step)
    requires LogIsSafe(w.log) && !w.held && (step.Startup? || (Trusted(w) && !Deceptive(w)))
    ensures Trusted(Perform(w, step)) && !Deceptive(Perform(w, step)) <==> !Exceptional(w, step)
  {
    var w0 := w.(script := step.replies);
    match step
    case Startup(readable, _) =>
      if readable {
        StartupReconciles(w0);
      }
    case Change(enabled, readable, _) => ChangeVerdict(w0, enabled, readable);
  }

  /** In every session that begins with a start-up, or from a consistent state, and has no exceptional
      step, a missing repair mark means that disk and task agree,
      and the force-off flag never stands for a persisted ON. */
  lemma {:induction false} OrdinarySessionsAreHonest(w: World, steps: seq<Step>)
    requires LogIsSafe(w.log) && !w.held && Ordinary(w, steps)
    requires (steps != [] && steps[0].Startup?) || (Trusted(w) && !Deceptive(w))
    ensures Trusted(Session(w, steps)) && !Deceptive(Session(w, steps))
    decreases |steps|
  {
    if steps != [] {
      StepIsHonest(w, steps[0]);
      StepIsSafe(w, steps[0]);
      OrdinarySessionsAreHonest(Perform(w, steps[0]), steps[1..]);
    }
  }

  /** Both exceptions happen: a save and a clean-up that fail, and a repair whose registration fails. */
  lemma ExceptionsHappen(rest: string)
    ensures var off := World(Prefs(false, false, rest), false, false, NO_NOTICE, [Done, Refused, Refused], []);
            !Trusted(ChangeSpec(off, true, true).w) && ChangeSpec(off, true, true).w.task
    ensures var on := World(Prefs(true, true, rest), true, false, Notice(Some([RunFailed, LeaseBusy]), true, false),
                            [Refused], []);
            Deceptive(ChangeSpec(on, true, true).w)
  {
    var off := World(Prefs(false, false, rest), false, false, NO_NOTICE, [Done, Refused, Refused], []);
    ChangeVerdict(off, true, true);
    assert LeavesTaskBehind(off, true);
    TurnOnTrust(off, Requested(off.disk, true));
  }

  // ---- the transactions ----

  class UpdateTask {
    var disk: Prefs
    var task: bool
    var held: bool
    var notice: Notice
    var script: seq<Reply>
    ghost var log: seq<Event>

    ghost function State(): World
      reads this
    {
      World(disk, task, held, notice, script, log)
    }

    constructor (disk: Prefs, task: bool, script: seq<Reply>)
      ensures State() == World(disk, task, false, NO_NOTICE, script, [])
    {
      this.disk := disk;
      this.task := task;
      this.held := false;
      this.notice := NO_NOTICE;
      this.script := script;
      this.log := [];
    }

    method Next() returns (reply: Reply)
      modifies this`script
      ensures reply == NextReply(old(State())) && script == Drop(old(script), 1)
    {
      if script == [] {
        return Refused;
      }
      reply := script[0];
      script := script[1..];
    }

    method Acquire() returns (reply: Reply)
      modifies this
      ensures reply == NextReply(old(State())) && State() == AcquireSpec(old(State()))
    {
      reply := Next();
      log := log + [Acquired(reply)];
      if reply == Done {
        held := true;
      }
    }

    method Release()
      modifies this
      ensures State() == ReleaseSpec(old(State()))
    {
      held := false;
      log := log + [Released];
    }

    method CurrentIdentity() returns (ok: bool)
      modifies this
      ensures Answer(ok, State()) == IdentifySpec(old(State()))
    {
      var reply := Next();
      ok := reply == Done;
      log := log + [Identified(ok)];
    }

    method Register() returns (ok: bool)
      modifies this
      ensures Answer(ok, State()) == RegisterSpec(old(State()))
    {
      var reply := Next();
      ok := reply == Done;
      log := log + [Registered(ok)];
      if ok {
        task := true;
      }
    }

    method Save(after: Prefs) returns (ok: bool)
      modifies this
      ensures Answer(ok, State()) == SaveSpec(old(State()), after)
    {
      var reply := Next();
      ok := reply == Done;
      log := log + [Wrote(disk, after, ok, held)];
      if ok {
        disk := after;
      }
    }

    method RunNow() returns (ok: bool)
      modifies this
      ensures Answer(ok, State()) == RunSpec(old(State()))
    {
      var reply := Next();
      ok := reply == Done;
      log := log + [Ran(ok, disk.automatic)];
    }

    method Delete(undo: bool) returns (ok: bool)
      modifies this
      ensures Answer(ok, State()) == DeleteSpec(old(State()), undo)
    {
      var reply := Next();
      ok := reply == Done;
      log := log + [Deleted(ok, held, undo)];
      if ok {
        task := false;
      }
    }

    method SetErrorWithForce(message: Message, forceOff: bool)
      modifies this`notice
      ensures notice == Notice(Some(message), true, forceOff)
    {
      notice := Notice(Some(message), true, forceOff);
    }

    method Clear()
      modifies this`notice
      ensures notice == NO_NOTICE
    {
      notice := NO_NOTICE;
    }

    /** The save, and the deletion that leaving ON or repairing OFF calls for. */
    method Settle(previous: Prefs, next: Prefs, repairOff: bool) returns (r: Result<Option<Message>, Cause>)
      modifies this
      ensures Applied(r, State()) == SettleSpec(old(State()), previous, next, repairOff)
    {
      var saved := Save(Merged(disk, next));
      if !saved {
        return Err(SaveFailed);
      }
      r := Ok(None);
      if previous.automatic && !next.automatic {
        var deleted := Delete(false);
        if !deleted {
          r := Ok(Some([DeleteFailed]));
        } else if repairOff {
          Clear();
        }
      } else if repairOff {
        var deleted := Delete(false);
        if deleted {
          Clear();
        } else {
          SetErrorWithForce([DeleteFailed], false);
          r := Ok(Some([DeleteFailed]));
        }
      }
    }

    method RollbackApplyAfterRunFailure(next: Prefs) returns (message: Message)
      modifies this
      ensures (message, State()) == RollbackSpec(old(State()), next)
    {
      var reply := Acquire();
      if reply != Done {
        message := [RunFailed, if reply == Busy then LeaseBusy else LeaseFailed];
        SetErrorWithForce(message, false);
        return;
      }
      message := [RunFailed];
      var deleted := Delete(false);
      if !deleted {
        message := message + [DeleteFailed];
      }
      var saved := Save(Merged(disk, TurnedOff(next)));
      if !saved {
        message := message + [SaveFailed];
      }
      Release();
    }

    method Apply(previous: Prefs, next: Prefs) returns (r: Result<Option<Message>, Cause>)
      modifies this
      ensures Applied(r, State()) == ApplySpec(old(State()), previous, next)
    {
      var repairOff := !next.automatic && notice.needsRepair;
      var leased := (previous.automatic && !next.automatic) || repairOff;
      if leased {
        var reply := Acquire();
        if reply != Done {
          return Err(if reply == Busy then LeaseBusy else LeaseFailed);
        }
      }
      if !ShouldRegister(previous.automatic, next.automatic, notice.needsRepair) {
        r := Settle(previous, next, repairOff);
        if leased {
          Release();
        }
        return;
      }
      var registered := Register();
      if !registered {
        SetErrorWithForce([RegisterFailed], true);
        return Err(RegisterFailed);
      }
      var saved := Save(Merged(disk, next));
      if !saved {
        var _ := Delete(true);
        return Err(SaveFailed);
      }
      var ran := RunNow();
      if !ran {
        var message := RollbackApplyAfterRunFailure(next);
        return Ok(Some(message));
      }
      r := Ok(None);
    }

    method SetAutomaticCheck(enabled: bool, readable: bool) returns (r: Result<Option<Message>, Cause>)
      modifies this
      ensures Applied(r, State()) == ChangeSpec(old(State()), enabled, readable)
    {
      if !readable {
        return Err(Unreadable);
      }
      var previous := disk;
      r := Apply(previous, Requested(previous, enabled));
      if r.Ok? {
        if r.value.Some? {
          SetErrorWithForce(r.value.value, false);
        } else {
          Clear();
        }
      }
    }

    method AcquireStartupLease(forceOff: bool) returns (ok: bool)
      modifies this
      ensures Answer(ok, State()) == StartupLeaseSpec(old(State()), forceOff)
    {
      var reply := Acquire();
      ok := reply == Done;
      if !ok {
        SetErrorWithForce([if reply == Busy then LeaseBusy else LeaseFailed], forceOff);
      }
    }

    method AcquireStartupLeaseWithRetry() returns (ok: bool)
      modifies this
      ensures Answer(ok, State()) == RetriedLeaseSpec(old(State()), STARTUP_LEASE_RETRY_ATTEMPTS)
    {
      ok := false;
      var attempt := 0;
      while attempt < STARTUP_LEASE_RETRY_ATTEMPTS && !ok
        invariant attempt <= STARTUP_LEASE_RETRY_ATTEMPTS
        invariant RetriedLeaseSpec(old(State()), STARTUP_LEASE_RETRY_ATTEMPTS) ==
                    if ok then Answer(true, State())
                    else RetriedLeaseSpec(State(), STARTUP_LEASE_RETRY_ATTEMPTS - attempt)
      {
        ok := AcquireStartupLease(false);
        attempt := attempt + 1;
      }
    }

    method SaveReconcileOff(settings: Prefs, reason: Message, cleanUp: bool)
      modifies this
      ensures State() == SaveOffSpec(old(State()), settings, reason, cleanUp)
    {
      var saved := Save(TurnedOff(settings));
      if !saved {
        SetErrorWithForce(reason + [SaveFailed], false);
        return;
      }
      var message := reason;
      if cleanUp {
        var deleted := Delete(false);
        if !deleted {
          message := message + [DeleteFailed];
        }
      }
      SetErrorWithForce(message, true);
    }

    method FallBack(leased: bool, settings: Prefs, reason: Message, cleanUp: bool)
      modifies this
      ensures State() == FallBackSpec(Answer(leased, old(State())), settings, reason, cleanUp)
    {
      if leased {
        SaveReconcileOff(settings, reason, cleanUp);
        Release();
      }
    }

    method ReconcileOff()
      modifies this
      ensures State() == ReconcileOffSpec(old(State()))
    {
      var leased := AcquireStartupLease(true);
      if !leased {
        return;
      }
      var deleted := CurrentIdentity();
      if deleted {
        deleted := Delete(false);
      }
      if deleted {
        Clear();
      } else {
        SetErrorWithForce([DeleteFailed], true);
      }
      Release();
    }

    method Reconcile(settings: Prefs)
      modifies this
      ensures State() == ReconcileSpec(old(State()), settings)
    {
      if !settings.automatic {
        ReconcileOff();
        return;
      }
      var identified := CurrentIdentity();
      if !identified {
        var leased := AcquireStartupLeaseWithRetry();
        FallBack(leased, settings, [IdentityFailed], false);
        return;
      }
      var registered := Register();
      if !registered {
        var leased := AcquireStartupLeaseWithRetry();
        FallBack(leased, settings, [RegisterFailed], true);
        return;
      }
      var ran := RunNow();
      if !ran {
        var leased := AcquireStartupLease(false);
        FallBack(leased, settings, [RunFailed], true);
      } else {
        Clear();
      }
    }
  }
}
