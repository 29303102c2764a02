/** Enabling a model after its installation while the user keeps changing the same setting: every
    interleaving of one model's installs with settings patches and cancellations. */
module Activation {
  import opened Prelude

  datatype Holder = Nobody | Patch | Install

  /** Where the running install is: outside the settings lock, inside it, or past the check of its intent. */
  datatype Phase = Idle | Outside | Locked | Checked(enable: bool)

  /** The saved setting, the generation counter, the settings lock, the invalidations that the patch
      holding the lock still owes, and the install with its intent. */
  datatype State = State(disk: bool, generation: nat, lock: Holder, owed: nat, phase: Phase, intent: Option<nat>)

  /** One atomic step of some thread. */
  datatype Action =
    | PatchLock
    | PatchSave(values: seq<bool>)   // the patch's changes of this setting, in order; the last one counts
    | PatchInvalidate
    | PatchUnlock
    | Cancel                         // takes no lock
    | InstallBegin(activate: bool)   // takes no lock
    | InstallLock
    | InstallCheck
    | InstallSave
    | InstallEnd                     // also every failure

  predicate Possible(s: State, a: Action) {
    match a
    case PatchLock => s.lock == Nobody
    case PatchSave(_) => s.lock == Patch && s.owed == 0
    case PatchInvalidate => s.lock == Patch && s.owed > 0
    case PatchUnlock => s.lock == Patch && s.owed == 0
    case Cancel => true
    case InstallBegin(_) => s.phase == Idle
    case InstallLock => s.phase == Outside && s.lock == Nobody
    case InstallCheck => s.phase == Locked
    case InstallSave => s.phase == Checked(true)
    case InstallEnd => s.phase != Idle
  }

  function Next(s: State, a: Action): State
    requires Possible(s, a)
  {
    match a
    case PatchLock => s.(lock := Patch)
    case PatchSave(values) => if values == [] then s else s.(disk := values[|values| - 1], owed := |values|)
    case PatchInvalidate => s.(generation := s.generation + 1, owed := s.owed - 1)
    case PatchUnlock => s.(lock := Nobody)
    case Cancel => s.(generation := s.generation + 1)
    case InstallBegin(activate) =>
      if activate then s.(generation := s.generation + 1, phase := Outside, intent := Some(s.generation + 1))
      else s.(phase := Outside, intent := None)
    case InstallLock => s.(lock := Install, phase := Locked)
    case InstallCheck => s.(phase := Checked(s.intent == Some(s.generation)))
    case InstallSave => s.(disk := true, phase := Checked(false))
    case InstallEnd => s.(phase := Idle, intent := None, lock := if s.lock == Install then Nobody else s.lock)
  }

  function Start(disk: bool, generation: nat): State {
    State(disk, generation, Nobody, 0, Idle, None)
  }

  /** An action that is not possible where it stands does nothing. */
  function Step(s: State, a: Action): State {
    if Possible(s, a) then Next(s, a) else s
  }

  /** Run the actions in order. */
  function Run(s: State, actions: seq<Action>): State
    decreases |actions|
  {
    if actions == [] then s else Run(Step(s, actions[0]), actions[1..])
  }

  /** The actions that were possible where they stood, and so happened. */
  function Happened(s: State, actions: seq<Action>): seq<Action>
    decreases |actions|
  {
    if actions == [] then []
    else (if Possible(s, actions[0]) then [actions[0]] else []) + Happened(Step(s, actions[0]), actions[1..])
  }

  // ---- reading what happened ----

  predicate Saves(a: Action) {
    a.PatchSave? && a.values != []
  }

  predicate Withdraws(a: Action) {
    a.PatchInvalidate? || a.Cancel?
  }

  function Last(done: seq<Action>): Action
    requires done != []
  {
    done[|done| - 1]
  }

  /** The latest install was asked to enable. */
  predicate WasToEnable(done: seq<Action>)
    decreases |done|
  {
    done != []
    && if Last(done).InstallBegin? then Last(done).activate else WasToEnable(done[..|done| - 1])
  }

  /** A patch was saved since the latest install began. */
  predicate SavedSince(done: seq<Action>)
    decreases |done|
  {
    done != [] && (Saves(Last(done)) || (!Last(done).InstallBegin? && SavedSince(done[..|done| - 1])))
  }

  /** A patch or a cancellation withdrew the intent since the latest install began. */
  predicate WithdrawnSince(done: seq<Action>)
    decreases |done|
  {
    done != [] && (Withdraws(Last(done)) || (!Last(done).InstallBegin? && WithdrawnSince(done[..|done| - 1])))
  }

  /** The latest install was to enable and not withdrawn when it checked, and has neither written nor ended since. */
  predicate Approved(done: seq<Action>)
    decreases |done|
  {
    done != [] && var before := done[..|done| - 1];
    match Last(done)
    case InstallCheck => WasToEnable(before) && !WithdrawnSince(before)
    case InstallBegin(_) => false
    case InstallSave => false
    case InstallEnd => false
    case _ => Approved(before)
  }

  /** The value of the last patch of the setting. */
  function LastSaved(done: seq<Action>): Option<bool>
    decreases |done|
  {
    if done == [] then None
    else if Saves(Last(done)) then Some(Last(done).values[|Last(done).values| - 1])
    else LastSaved(done[..|done| - 1])
  }

  /** The value of the last write of either kind. */
  function LastWritten(initial: bool, done: seq<Action>): bool
    decreases |done|
  {
    if done == [] then initial
    else if Saves(Last(done)) then Last(done).values[|Last(done).values| - 1]
    else Last(done).InstallSave? || LastWritten(initial, done[..|done| - 1])
  }

  /** Every write of ON by an install was asked for when that install began, was approved by its check, and came
      while no patch had been saved since. */
  predicate EnablesAreFresh(done: seq<Action>) {
    forall i | 0 <= i < |done| && done[i].InstallSave? ::
      WasToEnable(done[..i]) && Approved(done[..i]) && !SavedSince(done[..i])
  }

  /** What one more action does to all of these. */
  lemma SnocUnfolds(initial: bool, done: seq<Action>, a: Action)
    ensures WasToEnable(done + [a]) == if a.InstallBegin? then a.activate else WasToEnable(done)
    ensures SavedSince(done + [a]) == (Saves(a) || (!a.InstallBegin? && SavedSince(done)))
    ensures WithdrawnSince(done + [a]) == (Withdraws(a) || (!a.InstallBegin? && WithdrawnSince(done)))
    ensures Approved(done + [a]) ==
              if a.InstallCheck? then WasToEnable(done) && !WithdrawnSince(done)
              else !a.InstallBegin? && !a.InstallSave? && !a.InstallEnd? && Approved(done)
    ensures LastSaved(done + [a]) == if Saves(a) then Some(a.values[|a.values| - 1]) else LastSaved(done)
    ensures LastWritten(initial, done + [a]) ==
              if Saves(a) then a.values[|a.values| - 1] else a.InstallSave? || LastWritten(initial, done)
  {
    assert (done + [a])[..|done|] == done;
  }

  lemma SnocFresh(done: seq<Action>, a: Action)
    ensures EnablesAreFresh(done + [a]) <==>
              EnablesAreFresh(done) && (a.InstallSave? ==> WasToEnable(done) && Approved(done) && !SavedSince(done))
  {
    var more := done + [a];
    assert more[..|done|] == done;
    forall i | 0 <= i < |done| ensures more[..i] == done[..i] && more[i] == done[i] {
    }
    if EnablesAreFresh(more) {
      forall i | 0 <= i < |done| && done[i].InstallSave?
        ensures WasToEnable(done[..i]) && Approved(done[..i]) && !SavedSince(done[..i])
      {
        assert more[i].InstallSave?;
      }
      if a.InstallSave? {
        assert more[|done|].InstallSave?;
      }
    }
  }

  // ---- the invariant ----

  /** Who holds the lock, and what follows from the phase of the install. */
  predicate LockInv(s: State) {
    && (s.owed > 0 ==> s.lock == Patch)
    && (s.lock == Install <==> s.phase.Locked? || s.phase.Checked?)
    && (s.phase == Idle ==> s.intent == None)
  }

  /** What happened explains the intent and the generation: a saved patch either has moved the generation past
      the intent or still owes that and holds the lock. */
  predicate IntentInv(s: State, done: seq<Action>) {
    && (s.phase != Idle ==> (s.intent.Some? <==> WasToEnable(done)))
    && (s.intent.Some? ==>
          && s.intent.value <= s.generation
          && (s.intent.value == s.generation <==> !WithdrawnSince(done))
          && (SavedSince(done) ==> WithdrawnSince(done) || s.owed > 0))
    && (s.phase == Checked(true) <==> Approved(done))
    && (Approved(done) ==> s.intent.Some? && !SavedSince(done))
  }

  /** What happened explains the disk. */
  predicate Inv(initial: bool, s: State, done: seq<Action>) {
    LockInv(s) && IntentInv(s, done) && s.disk == LastWritten(initial, done) && EnablesAreFresh(done)
  }

  lemma NextKeepsIntent(s: State, done: seq<Action>, a: Action)
    requires LockInv(s) && IntentInv(s, done) && Possible(s, a)
    ensures LockInv(Next(s, a)) && IntentInv(Next(s, a), done + [a])
  {
    SnocUnfolds(true, done, a);
  }

  lemma NextKeepsInv(initial: bool, s: State, done: seq<Action>, a: Action)
    requires Inv(initial, s, done) && Possible(s, a)
    ensures Inv(initial, Next(s, a), done + [a])
  {
    NextKeepsIntent(s, done, a);
    SnocUnfolds(initial, done, a);
    SnocFresh(done, a);
  }

  lemma {:induction false} RunKeepsInv(initial: bool, s: State, done: seq<Action>, actions: seq<Action>)
    requires Inv(initial, s, done)
    ensures Inv(initial, Run(s, actions), done + Happened(s, actions))
    decreases |actions|
  {
    if actions == [] {
      assert done + [] == done;
    } else {
      var a := actions[0];
      var later := Happened(Step(s, a), actions[1..]);
      if Possible(s, a) {
        NextKeepsInv(initial, s, done, a);
        RunKeepsInv(initial, Next(s, a), done + [a], actions[1..]);
        Reassociate(done, [a], later);
      } else {
        RunKeepsInv(initial, s, done, actions[1..]);
        assert [] + later == later;
      }
    }
  }

  // ---- what it gives ----

  lemma {:induction false} FreshEnablesYieldToPatches(initial: bool, done: seq<Action>)
    requires EnablesAreFresh(done) && SavedSince(done)
    ensures LastSaved(done) == Some(LastWritten(initial, done))
    decreases |done|
  {
    var (before, last) := (done[..|done| - 1], Last(done));
    assert before + [last] == done;
    SnocUnfolds(initial, before, last);
    SnocFresh(before, last);
    if !Saves(last) {
      FreshEnablesYieldToPatches(initial, before);
    }
  }

  lemma FromStart(disk: bool, generation: nat, actions: seq<Action>)
    ensures var start := Start(disk, generation); Inv(disk, Run(start, actions), Happened(start, actions))
  {
    var start := Start(disk, generation);
    RunKeepsInv(disk, start, [], actions);
    assert [] + Happened(start, actions) == Happened(start, actions);
  }

  /** In every interleaving an install writes ON only when it was asked to, its check found the intent not
      withdrawn, and no patch of the setting was saved since it began; once such a patch exists the saved value is
      that of the last one. */
  lemma PatchesWin(disk: bool, generation: nat, actions: seq<Action>)
    ensures var (end, done) := (Run(Start(disk, generation), actions), Happened(Start(disk, generation), actions));
            && EnablesAreFresh(done)
            && (SavedSince(done) ==> LastSaved(done) == Some(end.disk))
            && end.disk == LastWritten(disk, done)
  {
    FromStart(disk, generation, actions);
    var done := Happened(Start(disk, generation), actions);
    if SavedSince(done) {
      FreshEnablesYieldToPatches(disk, done);
    }
  }

  /** The check under the lock says yes exactly when the install was asked to enable and neither a patch nor a
      cancellation withdrew that since; and ON can be written exactly after such a check. */
  lemma CheckVerdict(disk: bool, generation: nat, actions: seq<Action>)
    ensures var (s, done) := (Run(Start(disk, generation), actions), Happened(Start(disk, generation), actions));
            && (Possible(s, InstallCheck) ==>
                  Next(s, InstallCheck).phase == Checked(WasToEnable(done) && !WithdrawnSince(done)))
            && (Possible(s, InstallSave) <==> Approved(done))
  {
    FromStart(disk, generation, actions);
  }

  function Installing(activate: bool): seq<Action> {
    [InstallBegin(activate)] + ([InstallLock] + ([InstallCheck] + ([InstallSave] + ([InstallEnd] + []))))
  }

  /** An install that nothing disturbs enables exactly when it was asked to, and leaves everything free; all of its
      steps happen, but for the write when it was not to enable. */
  lemma UndisturbedInstall(s: State, activate: bool)
    requires s.phase == Idle && s.lock == Nobody
    ensures var end := Run(s, Installing(activate));
            end == s.(disk := activate || s.disk, intent := None, generation := end.generation)
    ensures forall a :: a in Happened(s, Installing(activate)) <==>
                        a in Installing(activate) && (a == InstallSave ==> activate)
  {
    var s1 := Step(s, InstallBegin(activate));
    var s3 := Step(Step(s1, InstallLock), InstallCheck);
    assert s3 == s1.(lock := Install, phase := Checked(activate));
    InstallStarts(s, activate, [InstallSave] + ([InstallEnd] + []));
    InstallFinishes(s3);
  }

  lemma InstallStarts(s: State, activate: bool, rest: seq<Action>)
    requires s.phase == Idle && s.lock == Nobody
    ensures var s3 := Step(Step(Step(s, InstallBegin(activate)), InstallLock), InstallCheck);
            var actions := [InstallBegin(activate)] + ([InstallLock] + ([InstallCheck] + rest));
            && Run(s, actions) == Run(s3, rest)
            && Happened(s, actions) ==
                 [InstallBegin(activate)] + ([InstallLock] + ([InstallCheck] + Happened(s3, rest)))
  {
    var s1 := Step(s, InstallBegin(activate));
    OneStep(s, InstallBegin(activate), [InstallLock] + ([InstallCheck] + rest));
    OneStep(s1, InstallLock, [InstallCheck] + rest);
    OneStep(Step(s1, InstallLock), InstallCheck, rest);
  }

  lemma InstallFinishes(s: State)
    requires s.lock == Install && s.phase.Checked?
    ensures var (actions, enable) := ([InstallSave] + ([InstallEnd] + []), s.phase == Checked(true));
            && Run(s, actions) == s.(disk := enable || s.disk, phase := Idle, intent := None, lock := Nobody)
            && Happened(s, actions) == (if enable then [InstallSave] else []) + ([InstallEnd] + [])
  {
    OneStep(s, InstallSave, [InstallEnd] + []);
    OneStep(Step(s, InstallSave), InstallEnd, []);
  }

  lemma OneStep(s: State, a: Action, rest: seq<Action>)
    ensures Run(s, [a] + rest) == Run(Step(s, a), rest)
    ensures Happened(s, [a] + rest) == (if Possible(s, a) then [a] else []) + Happened(Step(s, a), rest)
  {
    assert ([a] + rest)[1..] == rest;
  }

  /** A cancellation is possible at any time, and withdraws the intent of the install that is under way. */
  lemma CancellationWithdraws(s: State, done: seq<Action>)
    requires LockInv(s) && IntentInv(s, done)
    ensures Possible(s, Cancel) && WithdrawnSince(done + [Cancel])
    ensures s.phase == Locked ==> !Possible(Next(Next(s, Cancel), InstallCheck), InstallSave)
  {
    SnocUnfolds(true, done, Cancel);
  }

  function Patching(values: seq<bool>): seq<Action> {
    [PatchLock, PatchSave(values)] + seq(|values|, _ => PatchInvalidate) + [PatchUnlock]
  }

  lemma {:induction false} Invalidating(s: State, n: nat)
    requires s.lock == Patch && s.owed == n
    ensures Run(s, seq(n, _ => PatchInvalidate) + [PatchUnlock]) ==
              s.(owed := 0, generation := s.generation + n, lock := Nobody)
    decreases n
  {
    var actions := seq(n, _ => PatchInvalidate) + [PatchUnlock];
    if n == 0 {
      assert actions == [PatchUnlock];
      assert Run(Step(s, PatchUnlock), []) == Step(s, PatchUnlock);
    } else {
      assert actions[1..] == seq(n - 1, _ => PatchInvalidate) + [PatchUnlock];
      Invalidating(Next(s, PatchInvalidate), n - 1);
    }
  }

  /** A patch that finds the lock free saves the last of its values and moves the generation once for each. */
  lemma UndisturbedPatch(s: State, values: seq<bool>)
    requires s.lock == Nobody && s.owed == 0
    ensures Run(s, Patching(values)) ==
              s.(disk := if values == [] then s.disk else values[|values| - 1],
                 generation := s.generation + |values|)
  {
    var saved := Next(Next(s, PatchLock), PatchSave(values));
    var rest := seq(|values|, _ => PatchInvalidate) + [PatchUnlock];
    assert Patching(values)[1..] == [PatchSave(values)] + rest;
    assert ([PatchSave(values)] + rest)[1..] == rest;
    Invalidating(saved, |values|);
  }
}
