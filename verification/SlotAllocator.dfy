/** The crash-safe RLN slot allocator: any number of `allocate` calls race for one
    cursor file behind a `mkdir` lock, and any of them may die, fail or lose power at
    any point.

    The protocol is a step machine. `Apply` is total: a step that is not enabled leaves
    the system unchanged, so a list of steps is an arbitrary interleaving. */
module SlotAllocator {
  import opened Common

  const MAX_LIMIT: nat := 65535

  /** What the cursor path holds: nothing, something `load` refuses (unparsable, wrong
      shape or wrong version), or a version-1 cursor. */
  datatype File = Absent | Junk | Cursor(epoch: nat, next: nat)

  datatype Error =
    | Unavailable
    | Locked
    | Corrupt
    | EpochRollback(saved: nat, current: nat)
    | InvalidLimit(limit: nat)
    | Exhausted(epoch: nat, limit: nat)

  type Outcome = Result<nat, Error>

  predicate ValidLimit(limit: nat) { 1 <= limit <= MAX_LIMIT }

  /** The decision taken under the lock: the slot to burn, or why there is none. */
  function Decide(file: File, epoch: nat, limit: nat): Outcome {
    if file.Junk? then Err(Corrupt)
    else if file.Cursor? && file.epoch > epoch then Err(EpochRollback(file.epoch, epoch))
    else
      var next := if file.Cursor? && file.epoch == epoch then file.next else 0;
      if next > limit then Err(Corrupt)
      else if next == limit then Err(Exhausted(epoch, limit))
      else Ok(next)
  }

  /** Where one `allocate` call stands. `Load` up to `Dropping` run with the lock held. */
  datatype Pc =
    | Start
    | Acquiring
    | Loading
    | Writing(slot: nat)     // temporary file being created, written and fsynced
    | Renaming(slot: nat)
    | Syncing(slot: nat)     // renamed; parent directory not yet fsynced
    | Unlocking(result: Outcome)
    | Dropping               // remove_dir failed once; `Drop` tries it again
    | Done(result: Outcome)
    | Dead

  datatype Call = Call(epoch: nat, limit: nat, pc: Pc)

  /** `Held(i)` is the lock directory created by call `i`; it outlives a dead call. */
  datatype Lock = Free | Held(owner: int)

  /** `visible` is what readers see now; `disk` is every content the path may have after
      a power loss, i.e. each rename since the last successful parent fsync. */
  datatype System = System(calls: seq<Call>, lock: Lock, visible: File, disk: set<File>)

  datatype Step =
    | Begin(i: nat)
    | TryLock(i: nat)
    | LockTimeout(i: nat)
    | Load(i: nat)
    | WriteTemp(i: nat)
    | Rename(i: nat)
    | SyncParent(i: nat)
    | Release(i: nat)
    | DropLock(i: nat, removed: bool)
    | IoFailure(i: nat)
    | RenameReportsFailure(i: nat)   // the replacement happened, the call sees an error
    | Crash(i: nat)
    | PowerLoss(survivor: File, lockSurvives: bool)

  predicate HoldsLock(pc: Pc) {
    pc.Loading? || pc.Writing? || pc.Renaming? || pc.Syncing? || pc.Unlocking? || pc.Dropping?
  }

  predicate Running(pc: Pc) { pc.Acquiring? || HoldsLock(pc) }

  function Goto(s: System, i: nat, pc: Pc): System
    requires i < |s.calls|
  {
    s.(calls := s.calls[i := s.calls[i].(pc := pc)])
  }

  function Kill(calls: seq<Call>): (r: seq<Call>)
    ensures |r| == |calls|
    ensures forall i :: 0 <= i < |calls| ==>
      r[i] == if Running(calls[i].pc) then calls[i].(pc := Dead) else calls[i]
  {
    seq(|calls|, i requires 0 <= i < |calls| =>
      if Running(calls[i].pc) then calls[i].(pc := Dead) else calls[i])
  }

  function Apply(s: System, step: Step): System {
    if step.PowerLoss? then
      if step.survivor in s.disk then
        System(Kill(s.calls), if step.lockSurvives then s.lock else Free, step.survivor, {step.survivor})
      else s
    else if step.i >= |s.calls| then s
    else
      var c := s.calls[step.i];
      match (step, c.pc)
      case (Begin(i), Start) =>
        Goto(s, i, if ValidLimit(c.limit) then Acquiring else Done(Err(InvalidLimit(c.limit))))
      case (TryLock(i), Acquiring) =>
        if s.lock.Free? then Goto(s, i, Loading).(lock := Held(i)) else s
      case (LockTimeout(i), Acquiring) =>
        if s.lock.Held? then Goto(s, i, Done(Err(Locked))) else s
      case (Load(i), Loading) =>
        var d := Decide(s.visible, c.epoch, c.limit);
        Goto(s, i, if d.Ok? then Writing(d.value) else Unlocking(d))
      case (WriteTemp(i), Writing(slot)) => Goto(s, i, Renaming(slot))
      case (Rename(i), Renaming(slot)) => Replace(s, i, slot, Syncing(slot))
      case (RenameReportsFailure(i), Renaming(slot)) => Replace(s, i, slot, Unlocking(Err(Unavailable)))
      case (SyncParent(i), Syncing(slot)) => Goto(s, i, Unlocking(Ok(slot))).(disk := {s.visible})
      case (Release(i), Unlocking(result)) => Goto(s, i, Done(result)).(lock := Free)
      case (DropLock(i, removed), Dropping) =>
        Goto(s, i, Done(Err(Unavailable))).(lock := if removed then Free else s.lock)
      case (IoFailure(i), pc) =>
        if (pc.Start? && ValidLimit(c.limit)) || pc.Acquiring? then Goto(s, i, Done(Err(Unavailable)))
        else if pc.Unlocking? then Goto(s, i, Dropping)
        else if HoldsLock(pc) && !pc.Dropping? then Goto(s, i, Unlocking(Err(Unavailable)))
        else s
      case (Crash(i), pc) => if Running(pc) then Goto(s, i, Dead) else s
      case _ => s
  }

  /** The atomic replacement of the cursor by the next value of call `i`. */
  function Replace(s: System, i: nat, slot: nat, pc: Pc): System
    requires i < |s.calls|
  {
    var file := Cursor(s.calls[i].epoch, slot + 1);
    Goto(s, i, pc).(visible := file, disk := s.disk + {file})
  }

  function Exec(s: System, steps: seq<Step>): System
    decreases |steps|
  {
    if |steps| == 0 then s
    else Apply(Exec(s, steps[..|steps| - 1]), steps[|steps| - 1])
  }

  /** Any number of calls, none begun; any cursor content; any lock left behind. */
  predicate Init(s: System) {
    && (forall i :: 0 <= i < |s.calls| ==> s.calls[i].pc == Start)
    && s.disk == {s.visible}
    && (s.lock.Held? ==> s.lock.owner < 0)
  }

  // ------------------------------------------------------------------------
  // The invariant
  // ------------------------------------------------------------------------

  /** Slot `slot` of `epoch` can no longer be handed out by a reader of `f`. */
  predicate Burned(f: File, epoch: nat, slot: nat) {
    f.Cursor? && (epoch < f.epoch || (epoch == f.epoch && slot < f.next))
  }

  /** `g` is `f`, or a later cursor than `f`. */
  predicate Later(f: File, g: File) {
    || f == g
    || (f.Absent? && g.Cursor?)
    || (f.Cursor? && g.Cursor? && (f.epoch < g.epoch || (f.epoch == g.epoch && f.next <= g.next)))
  }

  /** The call has durably burned a slot and has returned it or is about to. */
  predicate Claims(c: Call) {
    (c.pc.Unlocking? || c.pc.Done?) && c.pc.result.Ok?
  }

  function Slot(c: Call): nat
    requires Claims(c)
  {
    c.pc.result.value
  }

  predicate SameSlot(c: Call, epoch: nat, slot: nat) {
    Claims(c) && c.epoch == epoch && Slot(c) == slot
  }

  predicate Mutex(s: System) {
    forall i :: 0 <= i < |s.calls| && HoldsLock(s.calls[i].pc) ==> s.lock == Held(i)
  }

  predicate ClaimsBurned(s: System) {
    forall i, f :: 0 <= i < |s.calls| && Claims(s.calls[i]) && f in s.disk ==>
      Burned(f, s.calls[i].epoch, Slot(s.calls[i]))
  }

  predicate ClaimsUnique(s: System) {
    forall i, j :: 0 <= i < |s.calls| && 0 <= j < |s.calls| && i != j && Claims(s.calls[i]) ==>
      !SameSlot(s.calls[j], s.calls[i].epoch, Slot(s.calls[i]))
  }

  predicate WithinLimit(s: System) {
    forall i :: 0 <= i < |s.calls| ==>
      var c := s.calls[i];
      && (Claims(c) ==> Slot(c) < c.limit)
      && (c.pc.Writing? || c.pc.Renaming? || c.pc.Syncing? ==> c.pc.slot < c.limit)
  }

  /** A call between its load and its fsync owns a slot nobody else has claimed. */
  predicate PendingFresh(s: System) {
    forall i :: 0 <= i < |s.calls| ==>
      var c := s.calls[i];
      && (c.pc.Writing? || c.pc.Renaming? ==> Decide(s.visible, c.epoch, c.limit) == Ok(c.pc.slot))
      && (c.pc.Syncing? ==>
          && s.visible == Cursor(c.epoch, c.pc.slot + 1)
          && forall j :: 0 <= j < |s.calls| ==> !SameSlot(s.calls[j], c.epoch, c.pc.slot))
  }

  predicate DiskBehind(s: System) {
    s.visible in s.disk && forall f :: f in s.disk ==> Later(f, s.visible)
  }

  predicate Inv(s: System) {
    && Mutex(s)
    && DiskBehind(s)
    && ClaimsBurned(s)
    && ClaimsUnique(s)
    && WithinLimit(s)
    && PendingFresh(s)
  }

  // ------------------------------------------------------------------------
  // Every step keeps it
  // ------------------------------------------------------------------------

  /** A decided slot is new in the file it was decided on, and the file that burns it
      keeps everything burned so far. */
  lemma DecideAdvances(f: File, epoch: nat, limit: nat)
    requires Decide(f, epoch, limit).Ok?
    ensures var slot := Decide(f, epoch, limit).value;
            && slot < limit && !Burned(f, epoch, slot)
            && Burned(Cursor(epoch, slot + 1), epoch, slot)
            && Later(f, Cursor(epoch, slot + 1))
  {}

  /** The file can be used for `epoch`: readable, and not of a later epoch. */
  predicate Usable(f: File, epoch: nat) { !f.Junk? && (f.Cursor? ==> f.epoch <= epoch) }

  /** Which slot, and which error: the slot decided is the first one not burned, there is none
      exactly when the slots below the limit and no others are burned, and a file that has
      burned more than the limit allows is corrupt. */
  lemma DecidesFirstFree(f: File, epoch: nat, limit: nat, slot: nat)
    ensures Decide(f, epoch, limit) == Ok(slot) <==>
            Usable(f, epoch) && slot < limit && !Burned(f, epoch, slot) && forall t: nat :: t < slot ==> Burned(f, epoch, t)
    ensures Decide(f, epoch, limit) == Err(Exhausted(epoch, limit)) <==>
            Usable(f, epoch) && forall t: nat :: Burned(f, epoch, t) <==> t < limit
    ensures Decide(f, epoch, limit) == Err(Corrupt) <==> f.Junk? || (Usable(f, epoch) && Burned(f, epoch, limit))
    ensures forall saved, current :: Decide(f, epoch, limit) == Err(EpochRollback(saved, current)) <==>
            f.Cursor? && epoch < f.epoch && saved == f.epoch && current == epoch
  {
    if f.Cursor? && f.epoch == epoch {
      assert !Burned(f, epoch, f.next);
      assert f.next > 0 ==> Burned(f, epoch, f.next - 1);
      assert Burned(f, epoch, slot) <==> slot < f.next;
      if f.next < limit { assert !Burned(f, epoch, f.next); }
    } else {
      assert Usable(f, epoch) ==> !Burned(f, epoch, 0) && !Burned(f, epoch, slot);
    }
  }

  lemma ReplaceKeepsInv(s: System, i: nat, pc: Pc)
    requires Inv(s) && i < |s.calls| && s.calls[i].pc.Renaming?
    requires pc == Syncing(s.calls[i].pc.slot) || pc == Unlocking(Err(Unavailable))
    ensures Inv(Replace(s, i, s.calls[i].pc.slot, pc))
  {}

  lemma SyncKeepsInv(s: System, i: nat)
    requires Inv(s) && i < |s.calls| && s.calls[i].pc.Syncing?
    ensures Inv(Apply(s, SyncParent(i)))
  {}

  lemma PowerLossKeepsInv(s: System, f: File, lockSurvives: bool)
    requires Inv(s) && f in s.disk
    ensures Inv(Apply(s, PowerLoss(f, lockSurvives)))
  {}

  /** A move of call `i` that touches neither the file nor the disk, claims nothing new
      and leaves the lock to whoever is inside. */
  lemma MoveKeepsInv(s: System, i: nat, pc: Pc, lock: Lock)
    requires Inv(s) && i < |s.calls|
    requires var c := s.calls[i]; var d := c.(pc := pc);
             && (Claims(d) ==> Claims(c) && Slot(d) == Slot(c))
             && (HoldsLock(pc) ==> lock == Held(i))
             && (lock == s.lock || (HoldsLock(c.pc) && !HoldsLock(pc)) || s.lock.Free?)
             && !pc.Syncing?
             && (pc.Writing? || pc.Renaming? ==>
                 pc.slot < c.limit && Decide(s.visible, c.epoch, c.limit) == Ok(pc.slot))
    ensures Inv(Goto(s, i, pc).(lock := lock))
  {}

  lemma LocalStepKeepsInv(s: System, step: Step)
    requires Inv(s)
    requires !step.PowerLoss? && !step.Rename? && !step.RenameReportsFailure? && !step.SyncParent?
    ensures Inv(Apply(s, step))
  {
    var t := Apply(s, step);
    if t != s {
      var c := s.calls[step.i];
      if step.Load? && Decide(s.visible, c.epoch, c.limit).Ok? {
        DecideAdvances(s.visible, c.epoch, c.limit);
      }
      assert t == Goto(s, step.i, t.calls[step.i].pc).(lock := t.lock);
      MoveKeepsInv(s, step.i, t.calls[step.i].pc, t.lock);
    }
  }

  lemma StepKeepsInv(s: System, step: Step)
    requires Inv(s)
    ensures Inv(Apply(s, step))
  {
    if step.PowerLoss? {
      if step.survivor in s.disk { PowerLossKeepsInv(s, step.survivor, step.lockSurvives); }
    } else if step.i >= |s.calls| {
    } else if step.Rename? && s.calls[step.i].pc.Renaming? {
      ReplaceKeepsInv(s, step.i, Syncing(s.calls[step.i].pc.slot));
    } else if step.RenameReportsFailure? && s.calls[step.i].pc.Renaming? {
      ReplaceKeepsInv(s, step.i, Unlocking(Err(Unavailable)));
    } else if step.SyncParent? && s.calls[step.i].pc.Syncing? {
      SyncKeepsInv(s, step.i);
    } else if !step.Rename? && !step.RenameReportsFailure? && !step.SyncParent? {
      LocalStepKeepsInv(s, step);
    }
  }

  lemma {:induction false} RunKeepsInv(s: System, steps: seq<Step>)
    requires Init(s)
    ensures Inv(Exec(s, steps))
    decreases |steps|
  {
    if |steps| > 0 {
      RunKeepsInv(s, steps[..|steps| - 1]);
      StepKeepsInv(Exec(s, steps[..|steps| - 1]), steps[|steps| - 1]);
    }
  }

  // ------------------------------------------------------------------------
  // What a caller sees, over every run
  // ------------------------------------------------------------------------

  /** Call `i` of `s` returned a slot. */
  predicate Returned(s: System, i: nat) {
    i < |s.calls| && s.calls[i].pc.Done? && s.calls[i].pc.result.Ok?
  }

  /** No interleaving, death, failure or power loss hands out an (epoch, slot) twice, and
      every slot handed out is below its caller's limit. */
  lemma NoSlotTwice(s: System, steps: seq<Step>, i: nat, j: nat)
    requires Init(s)
    requires var t := Exec(s, steps); Returned(t, i) && Returned(t, j) && i != j
    ensures var t := Exec(s, steps);
            (t.calls[i].epoch, Slot(t.calls[i])) != (t.calls[j].epoch, Slot(t.calls[j]))
    ensures var t := Exec(s, steps); Slot(t.calls[i]) < t.calls[i].limit
  {
    RunKeepsInv(s, steps);
    var t := Exec(s, steps);
    assert !SameSlot(t.calls[j], t.calls[i].epoch, Slot(t.calls[i]));
  }

  /** The calls that returned a slot of `epoch`. */
  function Winners(t: System, epoch: nat): set<nat> {
    set i | 0 <= i < |t.calls| && Returned(t, i) && t.calls[i].epoch == epoch
  }

  lemma {:induction false} InjectiveBounded(ids: set<nat>, f: map<nat, nat>, k: nat)
    requires ids <= f.Keys
    requires forall i :: i in ids ==> f[i] < k
    requires forall i, j :: i in ids && j in ids && i != j ==> f[i] != f[j]
    ensures |ids| <= k
    decreases k
  {
    if k == 0 {
      assert ids == {};
    } else if i :| i in ids && f[i] == k - 1 {
      InjectiveBounded(ids - {i}, f, k - 1);
    } else {
      InjectiveBounded(ids, f, k - 1);
    }
  }

  /** With one limit `k`, an epoch yields at most `k` slots however the run goes. */
  lemma AtMostLimitPerEpoch(s: System, steps: seq<Step>, epoch: nat, k: nat)
    requires Init(s)
    requires forall i :: 0 <= i < |s.calls| && s.calls[i].epoch == epoch ==> s.calls[i].limit <= k
    ensures |Winners(Exec(s, steps), epoch)| <= k
  {
    var t := Exec(s, steps);
    RunKeepsInv(s, steps);
    CallsKeepTheirRequest(s, steps);
    var ids := Winners(t, epoch);
    var f := map i | i in ids :: Slot(t.calls[i]);
    forall i, j | i in ids && j in ids && i != j ensures f[i] != f[j] {
      assert !SameSlot(t.calls[j], t.calls[i].epoch, Slot(t.calls[i]));
    }
    InjectiveBounded(ids, f, k);
  }

  lemma {:induction false} CallsKeepTheirRequest(s: System, steps: seq<Step>)
    ensures |Exec(s, steps).calls| == |s.calls|
    ensures forall i :: 0 <= i < |s.calls| ==>
      Exec(s, steps).calls[i].epoch == s.calls[i].epoch && Exec(s, steps).calls[i].limit == s.calls[i].limit
    decreases |steps|
  {
    if |steps| > 0 { CallsKeepTheirRequest(s, steps[..|steps| - 1]); }
  }

  /** A slot once returned stays returned: nothing rewrites a finished call. */
  lemma {:induction false} ReturnedForever(s: System, steps: seq<Step>, i: nat)
    requires Returned(s, i)
    ensures Returned(Exec(s, steps), i) && Exec(s, steps).calls[i] == s.calls[i]
    decreases |steps|
  {
    if |steps| > 0 { ReturnedForever(s, steps[..|steps| - 1], i); }
  }

  /** A returned slot is burned in every content the path can have from then on, so no
      reader, even after a power loss, can decide it again. */
  lemma ReturnedStaysBurned(s: System, before: seq<Step>, after: seq<Step>, i: nat, limit: nat)
    requires Init(s) && Returned(Exec(s, before), i)
    ensures var t := Exec(s, before + after); var c := Exec(s, before).calls[i];
            && Burned(t.visible, c.epoch, Slot(c))
            && Decide(t.visible, c.epoch, limit) != Ok(Slot(c))
  {
    ExecConcat(s, before, after);
    RunKeepsInv(s, before + after);
    ReturnedForever(Exec(s, before), after, i);
  }

  lemma ExecSnoc(s: System, steps: seq<Step>, step: Step)
    ensures Exec(s, steps + [step]) == Apply(Exec(s, steps), step)
  {
    assert (steps + [step])[..|steps + [step]| - 1] == steps;
  }

  lemma {:induction false} ExecConcat(s: System, a: seq<Step>, b: seq<Step>)
    ensures Exec(s, a + b) == Exec(Exec(s, a), b)
    decreases |b|
  {
    if |b| == 0 {
      assert a + b == a;
    } else {
      ExecConcat(s, a, b[..|b| - 1]);
      assert (a + b)[..|a + b| - 1] == a + b[..|b| - 1];
    }
  }

  // ------------------------------------------------------------------------
  // When the file moves backwards
  // ------------------------------------------------------------------------

  predicate EpochDrops(f: File, g: File) {
    f.Cursor? && (g.Cursor? ==> g.epoch < f.epoch)
  }

  /** The content that would certainly survive a power loss now, read off the steps: what the
      path held at first, at the last parent fsync, or after the last power loss. */
  function LastDurable(s: System, steps: seq<Step>): File
    decreases |steps|
  {
    if |steps| == 0 then s.visible
    else
      var before, step := steps[..|steps| - 1], steps[|steps| - 1];
      var t := Exec(s, before);
      if step.PowerLoss? && step.survivor in t.disk then step.survivor
      else if step.SyncParent? && step.i < |t.calls| && t.calls[step.i].pc.Syncing? then t.visible
      else LastDurable(s, before)
  }

  lemma LaterTransitive(f: File, g: File, h: File)
    requires Later(f, g) && Later(g, h)
    ensures Later(f, h)
  {}

  /** Short of a power loss, a step only moves the visible cursor forward. */
  lemma StepMovesForward(t: System, step: Step)
    requires Inv(t) && !step.PowerLoss?
    ensures Later(t.visible, Apply(t, step).visible)
  {
    if (step.Rename? || step.RenameReportsFailure?) && step.i < |t.calls| && t.calls[step.i].pc.Renaming? {
      DecideAdvances(t.visible, t.calls[step.i].epoch, t.calls[step.i].limit);
    }
  }

  /** Between two points of a run with no power loss between them, the cursor only moves
      forward; in particular its epoch never decreases. */
  lemma {:induction false} NoPowerLossNoStepBack(s: System, before: seq<Step>, after: seq<Step>)
    requires Init(s) && forall k :: 0 <= k < |after| ==> !after[k].PowerLoss?
    ensures Later(Exec(s, before).visible, Exec(s, before + after).visible)
    ensures !EpochDrops(Exec(s, before).visible, Exec(s, before + after).visible)
    decreases |after|
  {
    if |after| == 0 {
      assert before + after == before;
    } else {
      var n := |after| - 1;
      NoPowerLossNoStepBack(s, before, after[..n]);
      assert before + after == (before + after[..n]) + [after[n]];
      ExecSnoc(s, before + after[..n], after[n]);
      RunKeepsInv(s, before + after[..n]);
      hide Exec, Inv;
      StepMovesForward(Exec(s, before + after[..n]), after[n]);
      LaterTransitive(Exec(s, before).visible, Exec(s, before + after[..n]).visible, Exec(s, before + after).visible);
    }
  }

  /** The last durable content may survive, and everything else that may is later. */
  lemma {:induction false} DurableIsEarliest(s: System, steps: seq<Step>)
    requires Init(s)
    ensures LastDurable(s, steps) in Exec(s, steps).disk
    ensures forall f :: f in Exec(s, steps).disk ==> Later(LastDurable(s, steps), f)
    decreases |steps|
  {
    if |steps| > 0 {
      var before, step := steps[..|steps| - 1], steps[|steps| - 1];
      var t := Exec(s, before);
      DurableIsEarliest(s, before);
      RunKeepsInv(s, before);
      if !step.PowerLoss? {
        StepMovesForward(t, step);
        LaterTransitive(LastDurable(s, before), t.visible, Apply(t, step).visible);
      }
    }
  }

  /** Exactly when something can move the file back from where a run has left it. The cursor
      can move back if and only if a rename is not yet durable; the epoch can decrease if and
      only if the last durable content has a lower epoch, or no cursor. */
  lemma VisibleMovesBackIff(s: System, steps: seq<Step>)
    requires Init(s)
    ensures var t := Exec(s, steps);
            && ((exists step :: !Later(t.visible, Apply(t, step).visible)) <==> LastDurable(s, steps) != t.visible)
            && ((exists step :: EpochDrops(t.visible, Apply(t, step).visible)) <==> EpochDrops(t.visible, LastDurable(s, steps)))
  {
    var t, f := Exec(s, steps), LastDurable(s, steps);
    RunKeepsInv(s, steps);
    DurableIsEarliest(s, steps);
    assert Apply(t, PowerLoss(f, true)).visible == f;
    forall step ensures Later(t.visible, Apply(t, step).visible) || (f != t.visible && Later(f, Apply(t, step).visible)) {
      var g := Apply(t, step).visible;
      if !step.PowerLoss? {
        StepMovesForward(t, step);
      } else {
        assert g in t.disk && Later(f, g) && Later(g, t.visible);
      }
    }
  }

  /** The durable floor never moves back: what every possible surviving content has burned
      stays burned in every possible surviving content, however the run goes on. */
  lemma {:induction false} DurableFloorNeverDrops(s: System, before: seq<Step>, after: seq<Step>, epoch: nat, slot: nat)
    requires Init(s)
    requires forall f :: f in Exec(s, before).disk ==> Burned(f, epoch, slot)
    ensures forall f :: f in Exec(s, before + after).disk ==> Burned(f, epoch, slot)
    decreases |after|
  {
    if |after| == 0 {
      assert before + after == before;
    } else {
      var n := |after| - 1;
      var past, step := before + after[..n], after[n];
      DurableFloorNeverDrops(s, before, after[..n], epoch, slot);
      assert before + after == past + [step];
      ExecSnoc(s, past, step);
      RunKeepsInv(s, past);
      hide Exec, Inv;
      StepKeepsFloor(Exec(s, past), step, epoch, slot);
    }
  }

  lemma StepKeepsFloor(t: System, step: Step, epoch: nat, slot: nat)
    requires Inv(t) && forall f :: f in t.disk ==> Burned(f, epoch, slot)
    ensures forall f :: f in Apply(t, step).disk ==> Burned(f, epoch, slot)
  {
    assert Burned(t.visible, epoch, slot);
    if !step.PowerLoss? { StepMovesForward(t, step); }
  }

  /** "The file's epoch never decreases" is false of the visible file: a rename not yet
      followed by the parent fsync is undone by a power loss. */
  lemma VisibleEpochCanDrop() returns (s: System, steps: seq<Step>)
    ensures Init(s) && |steps| > 0
    ensures EpochDrops(Exec(s, steps[..|steps| - 1]).visible, Exec(s, steps).visible)
  {
    var stale := Cursor(4, 1);
    s := System([Call(5, 8, Start)], Free, stale, {stale});
    assert Exec(s, []) == s;
    hide Exec;
    var p1 := [] + [Begin(0)];
    ExecSnoc(s, [], Begin(0));
    var p2 := p1 + [TryLock(0)];
    ExecSnoc(s, p1, TryLock(0));
    var p3 := p2 + [Load(0)];
    ExecSnoc(s, p2, Load(0));
    var p4 := p3 + [WriteTemp(0)];
    ExecSnoc(s, p3, WriteTemp(0));
    var p5 := p4 + [Rename(0)];
    ExecSnoc(s, p4, Rename(0));
    assert Exec(s, p5).visible == Cursor(5, 1) && stale in Exec(s, p5).disk;
    steps := p5 + [PowerLoss(stale, false)];
    ExecSnoc(s, p5, PowerLoss(stale, false));
    assert steps[..|steps| - 1] == p5;
  }

  // ------------------------------------------------------------------------
  // The twin in slotcursor.rs
  // ------------------------------------------------------------------------

  /** `allocate_with_timeout` reports exhaustion as a success without a slot. */
  datatype Allocation = Allocation(epoch: nat, slot: Option<nat>, nextSlot: nat)

  function TwinDecide(file: File, epoch: nat, k: nat): Result<Allocation, Error> {
    if file.Junk? then Err(Corrupt)
    else if file.Cursor? && file.epoch > epoch then Err(EpochRollback(file.epoch, epoch))
    else
      var next := if file.Cursor? && file.epoch == epoch then file.next else 0;
      if next > k then Err(Corrupt)
      else if next == k then Ok(Allocation(epoch, None, k))
      else Ok(Allocation(epoch, Some(next), next + 1))
  }

  /** Both clients burn the same slot and write the same cursor on every file, so they may
      share one path: the twin differs only in how it reports exhaustion. */
  lemma TwinAgrees(file: File, epoch: nat, k: nat)
    ensures var a := Decide(file, epoch, k); var b := TwinDecide(file, epoch, k);
            match a
            case Ok(slot) => b == Ok(Allocation(epoch, Some(slot), slot + 1))
            case Err(Exhausted(e, l)) => e == epoch && l == k && b == Ok(Allocation(epoch, None, k))
            case Err(error) => b == Err(error)
  {}
}
