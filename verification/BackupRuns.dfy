/** Backup runs: the persisted record of one operation at a time, through failures,
    crashes and the reconciliation at the next start. */
module BackupRuns {
  import opened Faults
  import opened Wrappers

  type Id = nat

  datatype Status = Running | Completed | FailedRun

  datatype RunStage = Credentials | SnapshotStage | CompletedStage

  datatype Run = Run(status: Status, stage: RunStage, snapshot: Option<string>)

  /** What a request asks for; both lists are required. */
  datatype Request = Request(paths: seq<string>, scopes: seq<string>)

  datatype Answer =
    | Ok(run: Id)
    | PreflightFailed
    | InProgress
    | Refused(run: Id)
    | Broken
    | Stopped

  /** What the error of a failed call says: the backend was never initialised, it already
      is, or anything else. */
  datatype Complaint = MissingBackend | AlreadyThere | OtherTrouble

  /** Where a RunBackup call stands between its steps: before and after its preflight, at
      each stage of its run, about to record a failure, or returned. */
  datatype Flight =
    | Requested(req: Request, attached: bool, says: nat -> Complaint)
    | Preflighted(req: Request)
    | Inserted(id: Id, req: Request)
    | Advanced(id: Id, req: Request)
    | Snapshotted(id: Id, snapshot: string)
    | Recorded(id: Id, snapshot: string)
    | Failing(id: Id)
    | Answered(answer: Answer)

  const LISTING_LIMIT := 500

  ghost predicate Active(runs: map<Id, Run>, id: Id)
  {
    id in runs && runs[id].status == Running
  }

  /** The unique index on running rows: at most one operation is active. */
  ghost predicate SingleActive(runs: map<Id, Run>)
  {
    forall a, b | Active(runs, a) && Active(runs, b) :: a == b
  }

  /** Rows that reached a terminal status are as they were. */
  ghost predicate TerminalKept(was: map<Id, Run>, runs: map<Id, Run>)
  {
    forall id | id in was && was[id].status != Running :: id in runs && runs[id] == was[id]
  }

  /** A completed run names a snapshot whose row was stored by that run. */
  ghost predicate CompletedStored(runs: map<Id, Run>, snapshots: map<string, Id>)
  {
    forall id | id in runs && runs[id].status == Completed ::
      runs[id].stage == CompletedStage && runs[id].snapshot.Some? && runs[id].snapshot.value in snapshots
  }

  /** What an acknowledged backup says is so. */
  ghost predicate Acknowledged(a: Answer, runs: map<Id, Run>, snapshots: map<string, Id>)
  {
    && (a.Ok? ==> a.run in runs && runs[a.run].status == Completed
                  && runs[a.run].snapshot.Some? && runs[a.run].snapshot.value in snapshots)
    && (a.Refused? ==> a.run in runs && runs[a.run].status == FailedRun)
  }

  /** A call that has inserted its run and not returned. */
  predicate Holds(f: Flight)
  {
    f.Inserted? || f.Advanced? || f.Snapshotted? || f.Recorded? || f.Failing?
  }

  /** Such a call owns the active run; one that returned was told the truth. */
  ghost predicate FlightOk(f: Flight, runs: map<Id, Run>, snapshots: map<string, Id>)
  {
    && (Holds(f) ==> Active(runs, f.id))
    && (f.Recorded? ==> f.snapshot in snapshots && snapshots[f.snapshot] == f.id)
    && (f.Answered? ==> Acknowledged(f.answer, runs, snapshots))
  }

  class Service {
    var runs: map<Id, Run>
    /** Snapshot rows, with the run that stored each. */
    var snapshots: map<string, Id>
    var nextId: Id
    var clock: nat
    /** How often a repository was initialised. */
    ghost var inits: nat
    const fault: nat -> Fault
    /** The identifier the n-th call would return as a new snapshot. */
    const produced: nat -> string

    constructor (fault: nat -> Fault, produced: nat -> string)
      ensures Valid() && runs == map[] && this.fault == fault && this.produced == produced && clock == 0
    {
      runs, snapshots, nextId, clock, inits := map[], map[], 0, 0, 0;
      this.fault, this.produced := fault, produced;
    }

    ghost predicate Valid()
      reads this
    {
      && SingleActive(runs) && CompletedStored(runs, snapshots)
      && (forall id | id in runs :: id < nextId)
    }

    ghost predicate Quiet(start: nat)
    {
      forall i: nat | start <= i :: fault(i) == Proceed
    }

    method Call() returns (o: Outcome)
      modifies this`clock
      ensures clock == old(clock) + 1 && o == OutcomeOf(fault(old(clock)))
    {
      o := OutcomeOf(fault(clock));
      clock := clock + 1;
    }

    // ------------------------------------------------------------------------ rows

    /** insertRun: the index refuses a second running row. */
    method InsertRun() returns (o: Outcome, id: Option<Id>)
      requires Valid()
      modifies this`runs, this`nextId, this`clock
      ensures Valid() && clock > old(clock) && TerminalKept(old(runs), runs)
      ensures id.Some? ==> o.Done? && id == Some(old(nextId)) && Active(runs, id.value)
                           && runs == old(runs)[id.value := Run(Running, Credentials, None)]
                           && forall a :: !Active(old(runs), a)
      ensures id.None? ==> runs == old(runs)
      ensures o == OutcomeOf(fault(old(clock)))
      ensures o.Done? && id.None? <==> fault(old(clock)) == Proceed && exists a :: Active(old(runs), a)
      ensures Quiet(old(clock)) ==> o.Done?
    {
      id := None;
      o := Call();
      if !o.Done? || exists a :: a in runs && runs[a].status == Running {
        assert o.Done? ==> exists a :: Active(runs, a) by {
          if o.Done? {
            var a :| a in runs && runs[a].status == Running;
            assert Active(runs, a);
          }
        }
        return;
      }
      id := Some(nextId);
      runs := runs[nextId := Run(Running, Credentials, None)];
      nextId := nextId + 1;
    }

    /** updateRun of the active run. */
    method UpdateRun(id: Id, run: Run) returns (o: Outcome)
      requires Valid() && Active(runs, id)
      requires run.status == Completed ==> run.stage == CompletedStage && run.snapshot.Some? && run.snapshot.value in snapshots
      modifies this`runs, this`clock
      ensures Valid() && clock > old(clock) && TerminalKept(old(runs), runs)
      ensures clock == old(clock) + 1 && o == OutcomeOf(fault(old(clock)))
      ensures runs == if o.Done? then old(runs)[id := run] else old(runs)
      ensures Quiet(old(clock)) ==> o.Done?
    {
      o := Call();
      if o.Done? {
        runs := runs[id := run];
        assert forall a | Active(runs, a) :: Active(old(runs), a);
      }
    }

    /** failRun: the failed status, unless even that cannot be stored. */
    method FailRun(id: Id, stage: RunStage) returns (o: Outcome)
      requires Valid() && Active(runs, id)
      modifies this`runs, this`clock
      ensures Valid() && clock > old(clock) && TerminalKept(old(runs), runs)
      ensures runs == (if o.Done? then old(runs)[id := old(runs)[id].(status := FailedRun, stage := stage)] else old(runs))
      ensures Quiet(old(clock)) ==> o.Done?
    {
      o := UpdateRun(id, runs[id].(status := FailedRun, stage := stage));
    }

    // ------------------------------------------------------------------- preflight

    /** From call `c` on, the credentials resolve and the listing reports no backend. */
    predicate MissingAt(c: nat, says: nat -> Complaint)
    {
      fault(c) == Proceed && fault(c + 1) == Fail && says(c + 1) == MissingBackend
    }

    /** From call `c` on, the repository can be listed, at once or, if it may be made and
        is made or turns out to be there, after that. */
    predicate Reaches(c: nat, attached: bool, says: nat -> Complaint)
    {
      || (fault(c) == Proceed && fault(c + 1) == Proceed)
      || (&& MissingAt(c, says) && !attached && fault(c + 3) == Proceed
          && (fault(c + 2) == Proceed || (fault(c + 2) == Fail && says(c + 2) == AlreadyThere)))
    }

    /** PreflightRepository. `says(n)` is what the n-th call, when it fails, complains
        about. An attached repository is never initialised, and no other one is unless its
        backend was reported missing. */
    method Preflight(attached: bool, says: nat -> Complaint) returns (o: Outcome)
      modifies this`clock, this`inits
      ensures clock >= old(clock)
      ensures attached ==> inits == old(inits)
      ensures inits <= old(inits) + 1
      ensures inits > old(inits) ==> exists n :: old(clock) <= n < clock && fault(n) == Fail && says(n) == MissingBackend
      ensures o.Done? ==> clock > 0 && fault(clock - 1) == Proceed
      ensures Quiet(old(clock)) ==> o.Done? && inits == old(inits)
      ensures o.Done? <==> Reaches(old(clock), attached, says)
      ensures fault(old(clock)) == Proceed && fault(old(clock) + 1) == Fail && says(old(clock) + 1) == MissingBackend
              && !attached && fault(old(clock) + 2) == Proceed && fault(old(clock) + 3) == Proceed ==>
                o.Done? && inits == old(inits) + 1
      ensures inits == old(inits) + 1 <==>
                MissingAt(old(clock), says) && !attached && fault(old(clock) + 2) == Proceed
    {
      o := Call();  // resolve the repository and its credentials
      if !o.Done? {
        return;
      }
      o := Call();  // list snapshots
      if !o.Failed? || says(clock - 1) != MissingBackend || attached {
        return;
      }
      o := Call();  // init
      if o.Crashed? || (o.Failed? && says(clock - 1) != AlreadyThere) {
        return;
      }
      inits := inits + (if o.Done? then 1 else 0);
      o := Call();  // list snapshots again
    }

    // ----------------------------------------------------------------------- backup

    /** RunBackup. A run becomes completed only when its snapshot row is stored; a crash
        leaves it running, and it blocks every other run until it is reconciled. */
    method RunBackup(req: Request, attached: bool, says: nat -> Complaint) returns (r: Answer)
      requires Valid()
      modifies this
      ensures Valid() && clock >= old(clock) && TerminalKept(old(runs), runs)
      ensures r.PreflightFailed? || r.InProgress? ==> runs == old(runs) && snapshots == old(snapshots)
      ensures !Reaches(old(clock), attached, says) ==>
                r in {PreflightFailed, Stopped} && runs == old(runs) && snapshots == old(snapshots)
      ensures Reaches(old(clock), attached, says) ==> !r.PreflightFailed?
      ensures (exists a :: Active(old(runs), a)) ==> runs == old(runs) && !r.Ok? && !r.Refused?
      ensures r.Ok? ==> && r.run == old(nextId) && r.run in runs && runs[r.run].status == Completed
                        && runs[r.run].snapshot.Some? && runs[r.run].snapshot.value in snapshots
                        && snapshots[runs[r.run].snapshot.value] == r.run
                        && req.paths != [] && req.scopes != []
      ensures r.Ok? ==> exists n :: old(clock) <= n < clock && runs[r.run].snapshot == Some(produced(n))
      ensures r.Refused? ==> r.run in runs && runs[r.run].status == FailedRun
      ensures snapshots.Keys >= old(snapshots).Keys
      ensures Quiet(old(clock)) ==>
                if exists a :: Active(old(runs), a) then r.InProgress?
                else if req.paths == [] || req.scopes == [] then r.Refused? else r.Ok?
    {
      var o := Preflight(attached, says);
      if !o.Done? {
        return if o.Crashed? then Stopped else PreflightFailed;
      }
      var inserted;
      o, inserted := InsertRun();
      if inserted.None? {
        return if o.Crashed? then Stopped else if o.Failed? then Broken else InProgress;
      }
      ghost var start := clock;
      r := Capture(inserted.value, req);
      assert r.Ok? ==> runs[r.run].snapshot == Some(produced(start + 1));
    }

    /** The run itself: stage, snapshot, snapshot row, completion. */
    method Capture(id: Id, req: Request) returns (r: Answer)
      requires Valid() && Active(runs, id) && runs[id].snapshot.None?
      modifies this`runs, this`snapshots, this`clock
      ensures Valid() && clock > old(clock) && TerminalKept(old(runs), runs)
      ensures forall a | a != id :: (a in runs <==> a in old(runs)) && (a in runs ==> runs[a] == old(runs)[a])
      ensures r in {Ok(id), Refused(id), Broken, Stopped}
      ensures r.Ok? ==> && id in runs && runs[id].status == Completed
                        && runs[id].snapshot.Some? && runs[id].snapshot.value in snapshots
                        && snapshots[runs[id].snapshot.value] == id
                        && req.paths != [] && req.scopes != []
      ensures r.Ok? ==> runs[id].snapshot == Some(produced(old(clock) + 1)) && old(clock) + 1 < clock
      ensures r.Refused? ==> id in runs && runs[id].status == FailedRun && runs[id].stage == SnapshotStage
      ensures snapshots.Keys >= old(snapshots).Keys
      ensures Quiet(old(clock)) ==> if req.paths == [] || req.scopes == [] then r.Refused? else r.Ok?
    {
      var f := CaptureAndRecord(id, req);
      if f.Recorded? {
        f := Complete(id, f.snapshot);
      }
      if f.Failing? {
        f := Refuse(id);
      }
      r := f.answer;
    }

    /** As far as the snapshot row. */
    method CaptureAndRecord(id: Id, req: Request) returns (f: Flight)
      requires Valid() && Active(runs, id)
      modifies this`runs, this`snapshots, this`clock
      ensures StepOf(id, f)
      ensures f == Recorded(id, produced(old(clock) + 1)) || f in {Failing(id), Answered(Stopped)}
      ensures f.Recorded? ==> req.paths != [] && req.scopes != [] && old(clock) + 1 < clock
      ensures Quiet(old(clock)) ==> if req.paths == [] || req.scopes == [] then f.Failing? else f.Recorded?
    {
      f := Advance(id, req);
      if f.Advanced? {
        f := TakeSnapshot(id, req);
      }
      if f.Snapshotted? {
        f := RecordSnapshot(id, f.snapshot);
      }
    }

    /** What every step of the run keeps. */
    twostate predicate StepOf(id: Id, f: Flight)
      reads this
    {
      && Valid() && clock > old(clock) && TerminalKept(old(runs), runs)
      && (forall a | a != id :: (a in runs <==> a in old(runs)) && (a in runs ==> runs[a] == old(runs)[a]))
      && snapshots.Keys >= old(snapshots).Keys
      && FlightOk(f, runs, snapshots) && (Holds(f) ==> f.id == id)
      && (f.Answered? ==> f.answer in {Ok(id), Refused(id), Broken, Stopped})
    }

    /** advanceRun, to the snapshot stage. */
    method Advance(id: Id, req: Request) returns (f: Flight)
      requires Valid() && Active(runs, id)
      modifies this`runs, this`clock
      ensures StepOf(id, f)
      ensures f in {Advanced(id, req), Failing(id), Answered(Stopped)}
      ensures clock == old(clock) + 1 && (f.Advanced? <==> fault(old(clock)) == Proceed)
      ensures id in runs && runs[id] == if f.Advanced? then old(runs)[id].(stage := SnapshotStage) else old(runs)[id]
      ensures Quiet(old(clock)) ==> f.Advanced?
    {
      var o := UpdateRun(id, runs[id].(stage := SnapshotStage));
      return match o case Done => Advanced(id, req) case Failed => Failing(id) case Crashed => Answered(Stopped);
    }

    /** The request's lists, and the restic backup. */
    method TakeSnapshot(id: Id, req: Request) returns (f: Flight)
      requires Valid() && Active(runs, id)
      modifies this`clock
      ensures clock >= old(clock)
      ensures f.Snapshotted? ==> f.id == id && req.paths != [] && req.scopes != [] && f.snapshot == produced(old(clock))
      ensures f.Snapshotted? <==> req.paths != [] && req.scopes != [] && fault(old(clock)) == Proceed
      ensures clock == old(clock) + (if req.paths == [] || req.scopes == [] then 0 else 1)
      ensures f.Snapshotted? || f in {Failing(id), Answered(Stopped)}
      ensures Quiet(old(clock)) ==> f == Failing(id) || f.Snapshotted?
      ensures Quiet(old(clock)) ==> (f.Snapshotted? <==> req.paths != [] && req.scopes != [])
    {
      if req.paths == [] || req.scopes == [] {
        return Failing(id);
      }
      var o := Call();  // restic backup
      return match o
             case Done => Snapshotted(id, produced(clock - 1))
             case Failed => Failing(id)
             case Crashed => Answered(Stopped);
    }

    /** The upsert of the snapshot row. */
    method RecordSnapshot(id: Id, snapshot: string) returns (f: Flight)
      requires Valid() && Active(runs, id)
      modifies this`snapshots, this`clock
      ensures StepOf(id, f)
      ensures f in {Recorded(id, snapshot), Failing(id), Answered(Stopped)}
      ensures snapshots == if f.Recorded? then old(snapshots)[snapshot := id] else old(snapshots)
      ensures Quiet(old(clock)) ==> f.Recorded?
    {
      var o := Call();
      if o.Done? {
        snapshots := snapshots[snapshot := id];
      }
      return match o case Done => Recorded(id, snapshot) case Failed => Failing(id) case Crashed => Answered(Stopped);
    }

    /** The completed status, once the snapshot row is stored. */
    method Complete(id: Id, snapshot: string) returns (f: Flight)
      requires Valid() && FlightOk(Recorded(id, snapshot), runs, snapshots)
      modifies this`runs, this`clock
      ensures StepOf(id, f)
      ensures f in {Answered(Ok(id)), Answered(Broken), Answered(Stopped)}
      ensures f == Answered(Ok(id)) ==> runs[id] == Run(Completed, CompletedStage, Some(snapshot))
      ensures Quiet(old(clock)) ==> f == Answered(Ok(id))
    {
      var o := UpdateRun(id, Run(Completed, CompletedStage, Some(snapshot)));
      return Answered(match o case Done => Ok(id) case Failed => Broken case Crashed => Stopped);
    }

    method Refuse(id: Id) returns (f: Flight)
      requires Valid() && Active(runs, id)
      modifies this`runs, this`clock
      ensures StepOf(id, f)
      ensures f in {Answered(Refused(id)), Answered(Broken), Answered(Stopped)}
      ensures f == Answered(Refused(id)) ==> runs[id] == old(runs)[id].(status := FailedRun, stage := SnapshotStage)
      ensures Quiet(old(clock)) ==> f == Answered(Refused(id))
    {
      var o := FailRun(id, SnapshotStage);
      return Answered(match o case Done => Refused(id) case Failed => Broken case Crashed => Stopped);
    }

    /** The steps of a call up to the insertion of its run. */
    method Enter(f0: Flight) returns (f: Flight)
      requires Valid() && (f0.Requested? || f0.Preflighted?)
      modifies this`runs, this`nextId, this`clock, this`inits
      ensures Valid() && clock >= old(clock) && TerminalKept(old(runs), runs)
      ensures !Holds(f) ==> runs == old(runs)
      ensures Holds(f) ==> f == Inserted(old(nextId), f0.req) && Active(runs, f.id) && forall a :: !Active(old(runs), a)
      ensures f.Inserted? || f.Answered? || (f0.Requested? && f.Preflighted?)
      ensures f0.Requested? ==> !f.Inserted? && (f.Preflighted? <==> Reaches(old(clock), f0.attached, f0.says))
      ensures f0.Preflighted? ==>
                (f.Inserted? <==> fault(old(clock)) == Proceed && forall a :: !Active(old(runs), a))
      ensures f.Answered? ==> f.answer in {PreflightFailed, InProgress, Broken, Stopped}
    {
      if f0.Requested? {
        var o := Preflight(f0.attached, f0.says);
        return match o
               case Done => Preflighted(f0.req)
               case Failed => Answered(PreflightFailed)
               case Crashed => Answered(Stopped);
      }
      var o, inserted := InsertRun();
      return match inserted
             case Some(id) => Inserted(id, f0.req)
             case None => Answered(match o case Done => InProgress case Failed => Broken case Crashed => Stopped);
    }

    /** The next step of a call that owns the active run. */
    method Continue(f0: Flight) returns (f: Flight)
      requires Valid() && Holds(f0) && FlightOk(f0, runs, snapshots)
      modifies this`runs, this`snapshots, this`clock
      ensures Valid() && clock >= old(clock) && TerminalKept(old(runs), runs)
      ensures snapshots.Keys >= old(snapshots).Keys
      ensures FlightOk(f, runs, snapshots)
      ensures Holds(f) || f.Answered?
    {
      match f0 {
        case Inserted(id, req) => f := Advance(id, req);
        case Advanced(id, req) => f := TakeSnapshot(id, req);
        case Snapshotted(id, snapshot) => f := RecordSnapshot(id, snapshot);
        case Recorded(id, snapshot) => f := Complete(id, snapshot);
        case Failing(id) => f := Refuse(id);
      }
    }

    // ------------------------------------------------------------------ reconciling

    /** listRuns of running rows, bounded: any `LISTING_LIMIT` of them at most. */
    method ListRunning() returns (ids: seq<Id>)
      ensures forall id | id in ids :: Active(runs, id)
      ensures forall i, j | 0 <= i < j < |ids| :: ids[i] != ids[j]
      ensures |ids| < LISTING_LIMIT ==> forall id | Active(runs, id) :: id in ids
      ensures |ids| <= LISTING_LIMIT
    {
      var left := set id | id in runs && runs[id].status == Running;
      ids := [];
      while left != {} && |ids| < LISTING_LIMIT
        invariant forall id :: Active(runs, id) <==> id in ids || id in left
        invariant forall id | id in ids :: id !in left
        invariant forall i, j | 0 <= i < j < |ids| :: ids[i] != ids[j]
        invariant |ids| <= LISTING_LIMIT
        decreases |left|
      {
        var id :| id in left;
        ids, left := ids + [id], left - {id};
      }
    }

    /** ReconcileInterrupted: what a restart left running becomes failed. The bounded
        listing is enough because at most one run is ever active. */
    method Reconcile() returns (o: Outcome, closed: nat)
      requires Valid()
      modifies this`runs, this`clock
      ensures Valid() && clock >= old(clock) && TerminalKept(old(runs), runs)
      ensures runs.Keys == old(runs).Keys
      ensures forall id | id in runs :: runs[id] == old(runs)[id]
                || (Active(old(runs), id) && runs[id] == old(runs)[id].(status := FailedRun))
      ensures closed <= 1 && (o.Done? ==> (closed == 1 <==> exists a :: Active(old(runs), a)))
      ensures Quiet(old(clock)) ==> o.Done? && forall id | id in runs :: runs[id].status != Running
    {
      closed := 0;
      o := Call();  // the query
      if !o.Done? {
        return;
      }
      var ids := ListRunning();
      assert forall i | 0 <= i < |ids| :: ids[i] in ids;
      assert |ids| > 0 ==> ids[0] == ids[|ids| - 1];
      assert forall id | id in runs && runs[id].status == Running :: Active(runs, id);
      assert |ids| == 1 ==> ids[0] in ids && Active(old(runs), ids[0]);
      for i := 0 to |ids|
        invariant Valid() && clock >= old(clock) && TerminalKept(old(runs), runs)
        invariant closed == i && o.Done?
        invariant i == 0 ==> runs == old(runs)
        invariant runs.Keys == old(runs).Keys
        invariant forall id | id in runs :: runs[id] == old(runs)[id]
                    || (Active(old(runs), id) && runs[id] == old(runs)[id].(status := FailedRun))
        invariant Quiet(old(clock)) && i == 1 ==> ids[0] in runs && runs[ids[0]].status != Running
      {
        assert ids[i] in ids;
        var update := FailRun(ids[i], runs[ids[i]].stage);
        if update.Crashed? {
          return Crashed, closed;
        }
        closed := closed + 1;  // a failed update is only reported
      }
    }
  }

  // ------------------------------------------------------------------------- runs

  datatype Op = OpBackup(req: Request, attached: bool, says: nat -> Complaint) | OpReconcile

  /** Any sequence of backups and restarts under any faults: one active run at most,
      terminal runs untouched, so what was acknowledged stays so; and a restart that
      nothing disturbs leaves no run active, so the next backup can start. */
  method RunOps(s: Service, ops: seq<Op>) returns (answers: seq<Answer>, restart: nat)
    requires s.Valid()
    modifies s
    ensures s.Valid() && TerminalKept(old(s.runs), s.runs)
    ensures |answers| == |ops|
    ensures forall a | a in answers :: Acknowledged(a, s.runs, s.snapshots)
    ensures s.Quiet(restart) ==> forall id | id in s.runs :: s.runs[id].status != Running
  {
    answers := [];
    for i := 0 to |ops|
      invariant s.Valid() && TerminalKept(old(s.runs), s.runs)
      invariant |answers| == i
      invariant forall a | a in answers :: Acknowledged(a, s.runs, s.snapshots)
    {
      var answer := Broken;
      match ops[i] {
        case OpBackup(req, attached, says) => answer := s.RunBackup(req, attached, says);
        case OpReconcile => var _, _ := s.Reconcile();
      }
      answers := answers + [answer];
    }
    restart := s.clock;
    var _, _ := s.Reconcile();
  }

  // ----------------------------------------------------------- overlapping calls

  /** A new call, the next step of the k-th one, or a restart. */
  datatype Turn = NewCall(req: Request, attached: bool, says: nat -> Complaint) | Go(k: nat) | Restart

  ghost predicate FlightsOk(flights: seq<Flight>, s: Service)
    reads s
  {
    && (forall k | 0 <= k < |flights| :: FlightOk(flights[k], s.runs, s.snapshots))
    && (forall j, k | 0 <= j < k < |flights| :: !(Holds(flights[j]) && Holds(flights[k])))
  }

  /** A stop of the daemon ends every call that has not returned. */
  function Halted(flights: seq<Flight>): (halted: seq<Flight>)
    ensures |halted| == |flights|
    ensures forall k | 0 <= k < |flights| :: halted[k] == if flights[k].Answered? then flights[k] else Answered(Stopped)
  {
    seq(|flights|, k requires 0 <= k < |flights| => if flights[k].Answered? then flights[k] else Answered(Stopped))
  }

  /** Later rows still bear out a call that does not own the active run. */
  lemma OthersStay(f: Flight, was: map<Id, Run>, runs: map<Id, Run>, snapshots0: map<string, Id>, snapshots: map<string, Id>)
    requires FlightOk(f, was, snapshots0) && !Holds(f)
    requires TerminalKept(was, runs) && snapshots0.Keys <= snapshots.Keys
    ensures FlightOk(f, runs, snapshots)
  {
  }

  /** One step of one call; a stop of the machine ends every other one too. */
  method Step(s: Service, flights: seq<Flight>, k: nat) returns (after: seq<Flight>)
    requires s.Valid() && FlightsOk(flights, s) && k < |flights|
    modifies s
    ensures s.Valid() && FlightsOk(after, s) && |after| == |flights|
    ensures TerminalKept(old(s.runs), s.runs)
    ensures forall j | 0 <= j < |flights| && flights[j].Answered? :: after[j] == flights[j]
    ensures flights[k].Preflighted? && (exists a :: Active(old(s.runs), a)) ==> after[k].Answered? && s.runs == old(s.runs)
  {
    var f := flights[k];
    if f.Answered? {
      return flights;
    }
    ghost var was, snapshots := s.runs, s.snapshots;
    if f.Requested? || f.Preflighted? {
      f := s.Enter(f);
    } else {
      f := s.Continue(f);
    }
    after := flights[k := f];
    forall j | 0 <= j < |flights| && j != k
      ensures FlightOk(flights[j], s.runs, s.snapshots) && !(Holds(flights[j]) && Holds(f))
    {
      if Holds(flights[j]) {
        assert Active(was, flights[j].id) && s.runs == was;
      } else {
        OthersStay(flights[j], was, s.runs, snapshots, s.snapshots);
      }
    }
    if f == Answered(Stopped) {
      after := Halted(after);
    }
  }

  /** Any number of overlapping calls, step by step under every schedule, with crashes
      and restarts: at most one call owns a run, a call that comes meanwhile is refused,
      terminal runs are untouched and what a call was told stays so; a last restart that
      nothing disturbs leaves no run running. */
  method RunTurns(s: Service, turns: seq<Turn>) returns (flights: seq<Flight>, restart: nat)
    requires s.Valid()
    modifies s
    ensures s.Valid() && FlightsOk(flights, s) && TerminalKept(old(s.runs), s.runs)
    ensures forall f | f in flights :: f.Answered? && Acknowledged(f.answer, s.runs, s.snapshots)
    ensures s.Quiet(restart) ==> forall id | id in s.runs :: s.runs[id].status != Running
  {
    flights := [];
    for i := 0 to |turns|
      invariant s.Valid() && FlightsOk(flights, s) && TerminalKept(old(s.runs), s.runs)
    {
      match turns[i] {
        case NewCall(req, attached, says) =>
          flights := flights + [Requested(req, attached, says)];
        case Go(k) =>
          if k < |flights| {
            flights := Step(s, flights, k);
          }
        case Restart =>
          flights := RestartDaemon(s, flights);
      }
    }
    restart := s.clock;
    flights := RestartDaemon(s, flights);
  }

  /** The calls in progress are gone, and the rows are reconciled. */
  method RestartDaemon(s: Service, flights: seq<Flight>) returns (after: seq<Flight>)
    requires s.Valid() && FlightsOk(flights, s)
    modifies s
    ensures s.Valid() && FlightsOk(after, s) && TerminalKept(old(s.runs), s.runs)
    ensures after == Halted(flights)
    ensures s.Quiet(old(s.clock)) ==> forall id | id in s.runs :: s.runs[id].status != Running
  {
    ghost var was, snapshots := s.runs, s.snapshots;
    after := Halted(flights);
    var _, _ := s.Reconcile();
    forall j | 0 <= j < |after|
      ensures FlightOk(after[j], s.runs, s.snapshots)
    {
      OthersStay(after[j], was, s.runs, snapshots, s.snapshots);
    }
  }
}
