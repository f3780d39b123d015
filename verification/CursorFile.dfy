/** `slot::allocate` itself, statement by statement, on a mutable cursor path. Each contract
    says that steps of the `SlotAllocator` machine lead from the old state of the path to
    the new one: the code is a path through the machine whose safety is proved there. */
module CursorFile {
  import opened Common
  import opened SlotAllocator

  /** The cursor path at some moment: lock directory, visible file, possible survivors. */
  datatype World = World(lock: Lock, visible: File, disk: set<File>)

  /** One turn of the acquire loop: whether `create_dir` fails for another reason than
      existing, whether the deadline has passed, and what the other processes made of the
      path while this one slept. */
  datatype Poll = Poll(fault: bool, expired: bool, after: World)

  /** The result of every other I/O operation of one call. */
  datatype Io = Io(parentFails: bool, readFails: bool, tempFails: bool, renameFails: bool,
                   syncFails: bool, releaseFails: bool, dropFails: bool)

  /** Nothing the call does fails. */
  predicate Smooth(io: Io) { AllSucceed(io) && !io.parentFails && !io.releaseFails }

  /** None of the operations under the lock fails. */
  predicate AllSucceed(io: Io) {
    !io.readFails && !io.tempFails && !io.renameFails && !io.syncFails
  }

  function Moment(w: World, epoch: nat, limit: nat, pc: Pc): System {
    System([Call(epoch, limit, pc)], w.lock, w.visible, w.disk)
  }

  /** Steps of call 0 itself: no one else moves and the power stays on. */
  ghost predicate Own(steps: seq<Step>) {
    forall k :: 0 <= k < |steps| ==> !steps[k].PowerLoss? && steps[k].i == 0
  }

  /** Some list of the call's own protocol steps leads from `s` to `t`. */
  ghost predicate Reaches(s: System, t: System) {
    exists steps :: Own(steps) && Exec(s, steps) == t
  }

  lemma ReachesSelf(s: System)
    ensures Reaches(s, s)
  {
    assert Own([]) && Exec(s, []) == s;
  }

  lemma ReachesTrans(s: System, t: System, u: System)
    requires Reaches(s, t) && Reaches(t, u)
    ensures Reaches(s, u)
  {
    var a :| Own(a) && Exec(s, a) == t;
    var b :| Own(b) && Exec(t, b) == u;
    ExecConcat(s, a, b);
    assert Own(a + b);
  }

  /** One step of the single call takes the path from `w` and `pc` to `v` and `qc`. */
  ghost predicate Moves(w: World, epoch: nat, limit: nat, pc: Pc, step: Step, v: World, qc: Pc) {
    var t := Apply(Moment(w, epoch, limit, pc), step);
    t.lock == v.lock && t.visible == v.visible && t.disk == v.disk && |t.calls| == 1 && t.calls[0] == Call(epoch, limit, qc)
  }

  lemma Take(s: System, w: World, epoch: nat, limit: nat, pc: Pc, step: Step, v: World, qc: Pc)
    requires Reaches(s, Moment(w, epoch, limit, pc)) && Moves(w, epoch, limit, pc, step, v, qc)
    requires !step.PowerLoss? && step.i == 0
    ensures Reaches(s, Moment(v, epoch, limit, qc))
  {
    var steps :| Own(steps) && Exec(s, steps) == Moment(w, epoch, limit, pc);
    assert Own(steps + [step]);
    assert (steps + [step])[..|steps + [step]| - 1] == steps;
    assert Apply(Moment(w, epoch, limit, pc), step).calls == [Call(epoch, limit, qc)];
    assert Exec(s, steps + [step]) == Moment(v, epoch, limit, qc);
  }

  /** What the other client's result says in terms of the protocol. */
  function Reported(epoch: nat, k: nat, r: Result<Allocation, Error>): Outcome {
    match r
    case Err(error) => Err(error)
    case Ok(a) => if a.slot.None? then Err(Exhausted(epoch, k)) else Ok(a.slot.value)
  }

  class CursorPath {
    var lock: Lock
    var visible: File
    var disk: set<File>

    function Now(): World
      reads this
    {
      World(lock, visible, disk)
    }

    constructor (w: World)
      ensures Now() == w
    {
      lock, visible, disk := w.lock, w.visible, w.disk;
    }

    /** `Lock::acquire`: retry `create_dir` until it succeeds, fails or times out. `entry` is
        the path as found by the deciding attempt, which is the path as the other processes
        left it after some sleep. */
    method Acquire(polls: seq<Poll>) returns (r: Result<(), Error>, ghost entry: World)
      modifies this
      ensures entry == old(Now()) || exists k :: 0 <= k < |polls| && entry == polls[k].after
      ensures r.Ok? ==> entry.lock == Free && Now() == entry.(lock := Held(0))
      ensures r.Err? ==> Now() == entry && r.error in {Locked, Unavailable}
      ensures r == Err(Locked) ==> entry.lock.Held?
      ensures |polls| > 0 && !polls[0].fault && old(lock).Free? ==> r.Ok? && entry == old(Now())
    {
      var k := 0;
      entry := Now();
      while k < |polls|
        invariant 0 <= k <= |polls| && Now() == entry
        invariant if k == 0 then entry == old(Now()) else old(lock).Held?
        invariant entry == old(Now()) || exists m :: 0 <= m < |polls| && entry == polls[m].after
      {
        if polls[k].fault {
          return Err(Unavailable), entry;
        }
        if lock.Free? {
          lock := Held(0);
          return Ok(()), entry;
        }
        if polls[k].expired {
          return Err(Locked), entry;
        }
        lock, visible, disk := polls[k].after.lock, polls[k].after.visible, polls[k].after.disk;
        entry := Now();
        k := k + 1;
      }
      r := if lock.Held? then Err(Locked) else Err(Unavailable);
    }

    /** Unix `save`: write and fsync a temporary file, rename it over the cursor, fsync the
        parent. Only a successful parent fsync makes the new cursor certain to survive. */
    method Save(epoch: nat, limit: nat, slot: nat, io: Io) returns (r: Result<(), Error>)
      modifies this
      ensures Reaches(old(Moment(Now(), epoch, limit, Writing(slot))),
                      Moment(Now(), epoch, limit, Unlocking(if r.Ok? then Ok(slot) else Err(Unavailable))))
      ensures r.Ok? <==> !io.tempFails && !io.renameFails && !io.syncFails
      ensures r.Ok? ==> visible == Cursor(epoch, slot + 1) && disk == {visible}
      ensures r.Err? ==> r == Err(Unavailable)
      ensures io.tempFails || io.renameFails ==> visible == old(visible) && disk == old(disk)
      ensures lock == old(lock)
    {
      hide Reaches, Exec;
      ghost var s := Moment(Now(), epoch, limit, Writing(slot));
      ReachesSelf(s);
      if io.tempFails {
        Take(s, Now(), epoch, limit, Writing(slot), IoFailure(0), Now(), Unlocking(Err(Unavailable)));
        return Err(Unavailable);
      }
      Take(s, Now(), epoch, limit, Writing(slot), WriteTemp(0), Now(), Renaming(slot));
      if io.renameFails {
        Take(s, Now(), epoch, limit, Renaming(slot), IoFailure(0), Now(), Unlocking(Err(Unavailable)));
        return Err(Unavailable);
      }
      ghost var before := Now();
      visible, disk := Cursor(epoch, slot + 1), disk + {Cursor(epoch, slot + 1)};
      Take(s, before, epoch, limit, Renaming(slot), Rename(0), Now(), Syncing(slot));
      if io.syncFails {
        Take(s, Now(), epoch, limit, Syncing(slot), IoFailure(0), Now(), Unlocking(Err(Unavailable)));
        return Err(Unavailable);
      }
      before := Now();
      disk := {visible};
      Take(s, before, epoch, limit, Syncing(slot), SyncParent(0), Now(), Unlocking(Ok(slot)));
      r := Ok(());
    }

    /** The closure run under the lock: load, decide, save. */
    method BurnNext(epoch: nat, limit: nat, io: Io) returns (result: Outcome)
      modifies this
      ensures Reaches(old(Moment(Now(), epoch, limit, Loading)), Moment(Now(), epoch, limit, Unlocking(result)))
      ensures result == Decide(old(visible), epoch, limit) || (result == Err(Unavailable) && !AllSucceed(io))
      ensures AllSucceed(io) ==> result == Decide(old(visible), epoch, limit)
      ensures result.Ok? ==> visible == Cursor(epoch, result.value + 1) && disk == {visible}
      ensures AllSucceed(io) && result.Err? ==> visible == old(visible) && disk == old(disk)
      ensures lock == old(lock)
    {
      hide Reaches, Exec;
      ghost var s := Moment(Now(), epoch, limit, Loading);
      ReachesSelf(s);
      if io.readFails {
        Take(s, Now(), epoch, limit, Loading, IoFailure(0), Now(), Unlocking(Err(Unavailable)));
        return Err(Unavailable);
      }
      result := Decide(visible, epoch, limit);
      Take(s, Now(), epoch, limit, Loading, Load(0), Now(),
           if result.Ok? then Writing(result.value) else Unlocking(result));
      if result.Ok? {
        ghost var mid := Moment(Now(), epoch, limit, Writing(result.value));
        var saved := Save(epoch, limit, result.value, io);
        if saved.Err? {
          result := Err(saved.error);
        }
        ReachesTrans(s, mid, Moment(Now(), epoch, limit, Unlocking(result)));
      }
    }

    /** `release`, then `Drop`'s second attempt when the first removal failed. */
    method Unlock(ghost epoch: nat, ghost limit: nat, ghost result: Outcome, io: Io) returns (released: bool)
      modifies this
      ensures Reaches(old(Moment(Now(), epoch, limit, Unlocking(result))),
                      Moment(Now(), epoch, limit, Done(if released then result else Err(Unavailable))))
      ensures visible == old(visible) && disk == old(disk)
      ensures released <==> !io.releaseFails
      ensures released ==> lock == Free
      ensures !io.dropFails ==> lock == Free
    {
      hide Reaches, Exec;
      ghost var s := Moment(Now(), epoch, limit, Unlocking(result));
      ghost var before := Now();
      ReachesSelf(s);
      if !io.releaseFails {
        lock := Free;
        Take(s, before, epoch, limit, Unlocking(result), Release(0), Now(), Done(result));
        return true;
      }
      Take(s, before, epoch, limit, Unlocking(result), IoFailure(0), before, Dropping);
      if !io.dropFails {
        lock := Free;
      }
      Take(s, before, epoch, limit, Dropping, DropLock(0, !io.dropFails), Now(), Done(Err(Unavailable)));
      released := false;
    }

    /** `allocate`. From the moment `entry` at which the call took its decision about the
        lock, its effect is a run of the protocol by one call, ending in the result it
        returns; a slot is returned only when the released path durably burns it. */
    method Allocate(epoch: nat, limit: nat, polls: seq<Poll>, io: Io) returns (r: Outcome, ghost entry: World)
      modifies this
      ensures entry == old(Now()) || exists k :: 0 <= k < |polls| && entry == polls[k].after
      ensures Reaches(Moment(entry, epoch, limit, Start), Moment(Now(), epoch, limit, Done(r)))
      ensures r.Ok? ==> r == Decide(entry.visible, epoch, limit)
      ensures r.Ok? ==> visible == Cursor(epoch, r.value + 1) && disk == {visible} && lock == Free
      ensures !(1 <= limit <= 65535) ==> r == Err(InvalidLimit(limit)) && Now() == old(Now())
      ensures 1 <= limit <= 65535 && |polls| > 0 && !polls[0].fault && old(lock).Free? && Smooth(io) ==>
                entry == old(Now()) && r == Decide(old(visible), epoch, limit) && lock == Free
                && (r.Err? ==> visible == old(visible) && disk == old(disk))
    {
      hide Reaches, Exec;
      entry := Now();
      ghost var s := Moment(entry, epoch, limit, Start);
      ReachesSelf(s);
      if !ValidLimit(limit) {
        Take(s, entry, epoch, limit, Start, Begin(0), entry, Done(Err(InvalidLimit(limit))));
        return Err(InvalidLimit(limit)), entry;
      }
      if io.parentFails {
        Take(s, entry, epoch, limit, Start, IoFailure(0), entry, Done(Err(Unavailable)));
        return Err(Unavailable), entry;
      }
      var locked;
      locked, entry := Acquire(polls);
      s := Moment(entry, epoch, limit, Start);
      ReachesSelf(s);
      Take(s, entry, epoch, limit, Start, Begin(0), entry, Acquiring);
      if locked.Err? {
        Take(s, entry, epoch, limit, Acquiring,
             if locked.error == Locked then LockTimeout(0) else IoFailure(0), entry, Done(Err(locked.error)));
        return Err(locked.error), entry;
      }
      Take(s, entry, epoch, limit, Acquiring, TryLock(0), Now(), Loading);
      ghost var inside := Moment(Now(), epoch, limit, Loading);
      var result := BurnNext(epoch, limit, io);
      ghost var leaving := Moment(Now(), epoch, limit, Unlocking(result));
      ReachesTrans(s, inside, leaving);
      var released := Unlock(epoch, limit, result, io);
      r := if released then result else Err(Unavailable);
      ReachesTrans(s, leaving, Moment(Now(), epoch, limit, Done(r)));
    }

    /** The load, decision and save of the other client under its lock. */
    method TwinBurnNext(epoch: nat, k: nat, io: Io) returns (result: Result<Allocation, Error>)
      modifies this
      ensures Reaches(old(Moment(Now(), epoch, k, Loading)), Moment(Now(), epoch, k, Unlocking(Reported(epoch, k, result))))
      ensures result == TwinDecide(old(visible), epoch, k) || (result == Err(Unavailable) && !AllSucceed(io))
      ensures AllSucceed(io) ==> result == TwinDecide(old(visible), epoch, k)
      ensures AllSucceed(io) && Reported(epoch, k, result).Err? ==> visible == old(visible) && disk == old(disk)
      ensures result.Ok? && result.value.slot.Some? ==> visible == Cursor(epoch, result.value.nextSlot) && disk == {visible}
      ensures lock == old(lock)
    {
      hide Reaches, Exec;
      ghost var s := Moment(Now(), epoch, k, Loading);
      ReachesSelf(s);
      if io.readFails {
        Take(s, Now(), epoch, k, Loading, IoFailure(0), Now(), Unlocking(Err(Unavailable)));
        return Err(Unavailable);
      }
      result := TwinDecide(visible, epoch, k);
      TwinAgrees(visible, epoch, k);
      ghost var d := Decide(visible, epoch, k);
      Take(s, Now(), epoch, k, Loading, Load(0), Now(), if d.Ok? then Writing(d.value) else Unlocking(d));
      if result.Ok? && result.value.slot.Some? {
        ghost var mid := Moment(Now(), epoch, k, Writing(d.value));
        var saved := Save(epoch, k, result.value.slot.value, io);
        if saved.Err? {
          result := Err(saved.error);
        }
        ReachesTrans(s, mid, Moment(Now(), epoch, k, Unlocking(Reported(epoch, k, result))));
      }
    }

    /** `allocate_with_timeout` of the other client: the same lock, save and release, so it is
        a run of the same protocol by one call, exhaustion being reported as a success without
        a slot. */
    method AllocateWithTimeout(epoch: nat, k: nat, polls: seq<Poll>, io: Io) returns (r: Result<Allocation, Error>, ghost entry: World)
      modifies this
      ensures entry == old(Now()) || exists j :: 0 <= j < |polls| && entry == polls[j].after
      ensures Reaches(Moment(entry, epoch, k, Start), Moment(Now(), epoch, k, Done(Reported(epoch, k, r))))
      ensures r.Ok? ==> r == TwinDecide(entry.visible, epoch, k) && lock == Free
      ensures r.Ok? && r.value.slot.Some? ==> visible == Cursor(epoch, r.value.nextSlot) && disk == {visible}
      ensures !(1 <= k <= 65535) ==> r == Err(InvalidLimit(k)) && Now() == old(Now())
      ensures 1 <= k <= 65535 && |polls| > 0 && !polls[0].fault && old(lock).Free? && Smooth(io) ==>
                entry == old(Now()) && r == TwinDecide(old(visible), epoch, k) && lock == Free
                && (Reported(epoch, k, r).Err? ==> visible == old(visible) && disk == old(disk))
    {
      hide Reaches, Exec;
      entry := Now();
      ghost var s := Moment(entry, epoch, k, Start);
      ReachesSelf(s);
      if !ValidLimit(k) {
        Take(s, entry, epoch, k, Start, Begin(0), entry, Done(Err(InvalidLimit(k))));
        return Err(InvalidLimit(k)), entry;
      }
      if io.parentFails {
        Take(s, entry, epoch, k, Start, IoFailure(0), entry, Done(Err(Unavailable)));
        return Err(Unavailable), entry;
      }
      var locked;
      locked, entry := Acquire(polls);
      s := Moment(entry, epoch, k, Start);
      ReachesSelf(s);
      Take(s, entry, epoch, k, Start, Begin(0), entry, Acquiring);
      if locked.Err? {
        Take(s, entry, epoch, k, Acquiring,
             if locked.error == Locked then LockTimeout(0) else IoFailure(0), entry, Done(Err(locked.error)));
        return Err(locked.error), entry;
      }
      Take(s, entry, epoch, k, Acquiring, TryLock(0), Now(), Loading);
      ghost var inside := Moment(Now(), epoch, k, Loading);
      var result := TwinBurnNext(epoch, k, io);
      ghost var reported := Reported(epoch, k, result);
      ghost var leaving := Moment(Now(), epoch, k, Unlocking(reported));
      ReachesTrans(s, inside, leaving);
      var released := Unlock(epoch, k, reported, io);
      r := if released then result else Err(Unavailable);
      ReachesTrans(s, leaving, Moment(Now(), epoch, k, Done(Reported(epoch, k, r))));
    }
  }

  // ------------------------------------------------------------------------
  // A whole epoch
  // ------------------------------------------------------------------------

  /** Nothing has been burned in `epoch` yet. */
  predicate Untouched(f: File, epoch: nat) { f.Absent? || (f.Cursor? && f.epoch < epoch) }

  const QUIET: Io := Io(false, false, false, false, false, false, false)

  /** One allocation after another, with nothing going wrong: the first `limit` of an epoch
      return the slots 0, 1, .., limit - 1 in that order, and the next one is exhausted. */
  method SpendEpoch(path: CursorPath, epoch: nat, limit: nat) returns (slots: seq<nat>, next: Outcome)
    requires ValidLimit(limit) && path.lock.Free? && Untouched(path.visible, epoch)
    modifies path
    ensures |slots| == limit && (forall i :: 0 <= i < limit ==> slots[i] == i)
    ensures next == Err(Exhausted(epoch, limit))
    ensures path.visible == Cursor(epoch, limit) && path.lock.Free?
  {
    var turn := Poll(false, false, path.Now());
    slots := [];
    while |slots| < limit
      invariant |slots| <= limit && path.lock.Free? && forall i :: 0 <= i < |slots| ==> slots[i] == i
      invariant if |slots| == 0 then Untouched(path.visible, epoch) else path.visible == Cursor(epoch, |slots|)
      decreases limit - |slots|
    {
      DecidesFirstFree(path.visible, epoch, limit, |slots|);
      var r, entry := path.Allocate(epoch, limit, [turn], QUIET);
      slots := slots + [r.value];
    }
    DecidesFirstFree(path.visible, epoch, limit, limit);
    ghost var entry;
    next, entry := path.Allocate(epoch, limit, [turn], QUIET);
  }

  // ------------------------------------------------------------------------
  // The same call among others
  // ------------------------------------------------------------------------

  /** Call `i` of a crowd sees the path as the single call of `s` does. */
  ghost predicate Mirrors(crowd: System, i: nat, s: System) {
    && |s.calls| == 1 && i < |crowd.calls| && crowd.calls[i] == s.calls[0]
    && crowd.visible == s.visible && crowd.disk == s.disk
    && (crowd.lock.Free? <==> s.lock.Free?) && (crowd.lock == Held(i) <==> s.lock == Held(0))
  }

  ghost predicate OthersUnmoved(before: System, after: System, i: nat) {
    |after.calls| == |before.calls| && forall j :: 0 <= j < |before.calls| && j != i ==> after.calls[j] == before.calls[j]
  }

  lemma StepMirrors(crowd: System, i: nat, s: System, step: Step)
    requires Mirrors(crowd, i, s) && !step.PowerLoss? && step.i == 0
    ensures Mirrors(Apply(crowd, step.(i := i)), i, Apply(s, step))
    ensures OthersUnmoved(crowd, Apply(crowd, step.(i := i)), i)
  {}

  /** Whatever a call does alone, it does among any number of other calls at any stage, by
      the same steps: so `Allocate` is part of the runs for which `NoSlotTwice` holds. */
  lemma {:induction false} RunsInACrowd(crowd: System, i: nat, s: System, steps: seq<Step>) returns (lifted: seq<Step>)
    requires Mirrors(crowd, i, s) && Own(steps)
    ensures Mirrors(Exec(crowd, lifted), i, Exec(s, steps)) && OthersUnmoved(crowd, Exec(crowd, lifted), i)
    decreases |steps|
  {
    if |steps| == 0 {
      lifted := [];
    } else {
      var n := |steps| - 1;
      var before := RunsInACrowd(crowd, i, s, steps[..n]);
      lifted := before + [steps[n].(i := i)];
      assert lifted[..|before|] == before;
      StepMirrors(Exec(crowd, before), i, Exec(s, steps[..n]), steps[n]);
    }
  }

  /** However the run goes on after `past`, no call but `i` ever returns this slot. */
  ghost predicate OnlyCall(init: System, past: seq<Step>, i: nat, epoch: nat, slot: nat) {
    forall future: seq<Step>, j: nat :: j != i && Returned(Exec(init, past + future), j) ==>
      !SameSlot(Exec(init, past + future).calls[j], epoch, slot)
  }

  /** A call that finds the path as a crowd left it and returns a slot is itself a run of the
      crowd, ending in the path it left; no other call, before or after, in any continuation
      with deaths, failures and power losses, returns the same slot. */
  lemma AllocatedSlotIsUnique(init: System, past: seq<Step>, i: nat, epoch: nat, limit: nat, now: World, slot: nat)
      returns (run: seq<Step>)
    requires Init(init)
    requires var crowd := Exec(init, past);
             && i < |crowd.calls| && crowd.calls[i] == Call(epoch, limit, Start)
             && var entry := World(if crowd.lock.Held? then Held(-1) else Free, crowd.visible, crowd.disk);
             && Reaches(Moment(entry, epoch, limit, Start), Moment(now, epoch, limit, Done(Ok(slot))))
    ensures var t := Exec(init, past + run);
            && t.visible == now.visible && t.disk == now.disk && OthersUnmoved(Exec(init, past), t, i)
            && t.calls[i] == Call(epoch, limit, Done(Ok(slot))) && slot < limit
    ensures OnlyCall(init, past + run, i, epoch, slot)
  {
    var crowd := Exec(init, past);
    var entry := World(if crowd.lock.Held? then Held(-1) else Free, crowd.visible, crowd.disk);
    var s := Moment(entry, epoch, limit, Start);
    var steps :| Own(steps) && Exec(s, steps) == Moment(now, epoch, limit, Done(Ok(slot)));
    LockNotMine(init, past, i);
    run := RunsInACrowd(crowd, i, s, steps);
    ExecConcat(init, past, run);
    RunKeepsInv(init, past + run);
    forall future: seq<Step>, j: nat | j != i && Returned(Exec(init, past + run + future), j)
      ensures !SameSlot(Exec(init, past + run + future).calls[j], epoch, slot)
    {
      ExecConcat(init, past + run, future);
      ReturnedForever(Exec(init, past + run), future, i);
      NoSlotTwice(init, past + run + future, i, j);
    }
  }

  /** A call that has not begun does not own the lock directory. */
  lemma {:induction false} LockNotMine(init: System, past: seq<Step>, i: nat)
    requires Init(init) && i < |Exec(init, past).calls| && Exec(init, past).calls[i].pc.Start?
    ensures Exec(init, past).lock != Held(i)
    decreases |past|
  {
    if |past| > 0 { LockNotMine(init, past[..|past| - 1], i); }
  }
}
