/** Putting a downloaded model in place, with a backup of the old one, and rolling back. */
module ModelPlacement {
  import opened Prelude

  /** The content of a model directory. */
  type Model = string

  /** How saving the enabled setting ends: written, not wanted any more, or failed. */
  datatype Persist = Enabled | Kept | Failed

  /** Which of the file steps fail, and how the settings step ends. */
  datatype Steps = Steps(backupFails: bool, placeFails: bool, restoreFails: bool, removeFails: bool, persist: Persist)

  datatype PlaceError = NoBackup | NotPlaced | NotPlacedNorRestored | NotSaved | NotSavedNorRolledBack

  /** The result, and what is at the destination when the backup directory has been dropped. */
  datatype Placed = Placed(r: Result<bool, PlaceError>, destination: Option<Model>)

  function PlaceSpec(previous: Option<Model>, model: Model, steps: Steps): Placed {
    if previous.Some? && steps.backupFails then Placed(Err(NoBackup), previous)
    else if steps.placeFails then
      if previous.Some? && steps.restoreFails then Placed(Err(NotPlacedNorRestored), None)
      else Placed(Err(NotPlaced), previous)
    else if steps.persist != Failed then Placed(Ok(steps.persist == Enabled), Some(model))
    else if steps.removeFails then Placed(Err(NotSavedNorRolledBack), Some(model))
    else if previous.Some? && steps.restoreFails then Placed(Err(NotSavedNorRolledBack), None)
    else Placed(Err(NotSaved), previous)
  }

  /** No step that puts the old state back fails. */
  predicate Undone(previous: Option<Model>, steps: Steps) {
    if previous.Some? && steps.backupFails then true
    else (steps.placeFails || !steps.removeFails) && (previous.Some? ==> !steps.restoreFails)
  }

  /** The old model has been kept as a backup, or there is none. */
  predicate BackedUp(previous: Option<Model>, steps: Steps) {
    previous.Some? ==> !steps.backupFails
  }

  /** Success means exactly that no step failed; the new model is then in place, and the answer says whether the
      setting was enabled. An error names the step that failed, and leaves the previous model exactly when every
      step back works, which it says too. Otherwise the previous model is gone from the disk, because its backup
      directory is dropped on return: the destination holds the new model when that could not be removed, and
      nothing when the old one could not be restored. */
  lemma PlacementOutcome(previous: Option<Model>, model: Model, steps: Steps)
    ensures var placed := PlaceSpec(previous, model, steps);
            && (placed.r.Ok? <==> BackedUp(previous, steps) && !steps.placeFails && steps.persist != Failed)
            && (placed.r.Ok? ==> placed.r.value == (steps.persist == Enabled) && placed.destination == Some(model))
            && (placed.r == Err(NoBackup) <==> !BackedUp(previous, steps))
            && (placed.r == Err(NotPlaced) || placed.r == Err(NotPlacedNorRestored) <==>
                  BackedUp(previous, steps) && steps.placeFails)
            && (placed.r.Err? ==>
                  && (placed.r.error != NotPlacedNorRestored && placed.r.error != NotSavedNorRolledBack
                      <==> Undone(previous, steps))
                  && placed.destination == if Undone(previous, steps) then previous
                                           else if !steps.placeFails && steps.removeFails then Some(model) else None)
  {
  }

  /** Both ways to lose the previous model happen: it cannot be restored, or the new one cannot be removed. */
  lemma PreviousModelIsLost(previous: Model, model: Model)
    ensures PlaceSpec(Some(previous), model, Steps(false, true, true, false, Enabled)) ==
        Placed(Err(NotPlacedNorRestored), None)
    ensures PlaceSpec(Some(previous), model, Steps(false, false, false, true, Failed)) ==
              Placed(Err(NotSavedNorRolledBack), Some(model))
  {
  }

  /** The model directory and, while an install runs, the backup beside it. */
  class ModelFolder {
    var destination: Option<Model>
    var backup: Option<Model>

    constructor (destination: Option<Model>)
      ensures this.destination == destination && backup == None
    {
      this.destination := destination;
      this.backup := None;
    }

    /** Renaming the backup back into place. */
    method Restore(fails: bool) returns (ok: bool)
      modifies this
      ensures ok == !fails
      ensures if ok then destination == old(backup) && backup == None
              else destination == old(destination) && backup == old(backup)
    {
      ok := !fails;
      if ok {
        destination, backup := backup, None;
      }
    }

    /** `rollback_install`: remove the new model, then put the old one back. */
    method RollbackInstall(steps: Steps) returns (ok: bool)
      requires destination.Some?
      modifies this
      ensures ok == (!steps.removeFails && (old(backup).None? || !steps.restoreFails))
      ensures destination == if steps.removeFails then old(destination)
                             else if steps.restoreFails then None else old(backup)
    {
      if steps.removeFails {
        return false;
      }
      destination := None;
      if backup.Some? {
        ok := Restore(steps.restoreFails);
        return;
      }
      ok := true;
    }

    /** The placement half of a download; the result says whether the setting was enabled. */
    method PlaceAndEnable(model: Model, steps: Steps) returns (r: Result<bool, PlaceError>)
      requires backup == None
      modifies this
      ensures Placed(r, destination) == PlaceSpec(old(destination), model, steps)
      ensures backup == None
    {
      var hadPrevious := destination.Some?;
      if hadPrevious {
        if steps.backupFails {
          return Err(NoBackup);
        }
        destination, backup := None, destination;
      }
      if steps.placeFails {
        var restored := true;
        if hadPrevious {
          restored := Restore(steps.restoreFails);
        }
        backup := None; // the backup directory is dropped with whatever it holds
        return Err(if restored then NotPlaced else NotPlacedNorRestored);
      }
      destination := Some(model);
      if steps.persist == Failed {
        var rolledBack := RollbackInstall(steps);
        backup := None;
        return Err(if rolledBack then NotSaved else NotSavedNorRolledBack);
      }
      backup := None;
      r := Ok(steps.persist == Enabled);
    }
  }
}
