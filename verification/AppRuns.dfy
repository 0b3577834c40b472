/** Whole runs of the application controller: any operations in any order, and
    installs with other operations between their steps. */
module AppRuns {
  import opened Wrappers
  import opened AppCatalog
  import opened AppStore
  import opened AppService

  datatype Op =
    | OpInstall(req: Request)
    | OpStart(id: Id)
    | OpStop(id: Id)
    | OpQuiesce(id: Id)
    | OpUpdate(id: Id)
    | OpRollback(id: Id)
    | OpUninstall(id: Id)
    | OpHealth(id: Id)
    | OpPause(bundle: string, reason: Reason)
    | OpResume(bundle: string)
    | OpSetCatalog(next: Option<Catalog>)

  /** A provisioning row other than `except` is as it was, and so is its runner. */
  ghost predicate ProvisioningUntouched(s: Store, log: seq<Action>, s': Store, log': seq<Action>, except: Option<Id>)
  {
    forall id | id in s.apps && s.apps[id].observed == Provisioning && Some(id) != except ::
      id in s'.apps && s'.apps[id] == s.apps[id] && LastVerb(log', id) == LastVerb(log, id)
  }

  ghost predicate OthersSame(s: Store, s': Store, id: Id)
  {
    forall a | a in s.apps && a != id :: a in s'.apps && s'.apps[a] == s.apps[a]
  }

  lemma OneRowChanged(s: Store, log: seq<Action>, s': Store, log': seq<Action>, id: Id, except: Option<Id>)
    requires OthersSame(s, s', id) && OnlyAbout(log, log', id)
    requires id in s.apps && s.apps[id].observed == Provisioning ==>
               except == Some(id) || (id in s'.apps && s'.apps[id] == s.apps[id] && log' == log)
    ensures ProvisioningUntouched(s, log, s', log', except)
  {
  }

  lemma LoggedIsAbout(log: seq<Action>, id: Id, verb: Verb)
    ensures forall done :: OnlyAbout(log, Logged(log, done, id, verb), id)
  {
    LogGrows(log, Action(id, verb));
  }

  /** The row an operation may uninstall: one whose bundle is not native. */
  function Excepted(op: Op, s: Store, catalog: Catalog): Option<Id>
  {
    if op.OpUninstall? && !(op.id in s.apps && Native(catalog, s.apps[op.id].bundle)) then Some(op.id) else None
  }

  /** No row keeps a previous release, so there is nothing to roll back to. */
  ghost predicate NoPrevious(s: Store)
  {
    forall id | id in s.apps :: s.apps[id].previous.None?
  }

  /** A step that leaves every other row alone, and one row with the previous release
      it had, or gone, or new and without one. */
  lemma NoPreviousKept(s: Store, s': Store, id: Id)
    requires NoPrevious(s) && OnlyRows(s, s', id)
    requires id in s'.apps ==> s'.apps[id].previous.None?
    ensures NoPrevious(s')
  {
  }

  ghost predicate OnlyRows(s: Store, s': Store, id: Id)
  {
    forall a | a in s'.apps && a != id :: a in s.apps && s'.apps[a] == s.apps[a]
  }

  lemma RowOthers(s: Store, id: Id, row: App)
    ensures OthersSame(s, WithRow(s, id, row), id)
  {
  }

  /** While its row is provisioning, a start is refused and changes nothing at all. */
  method RunStart(c: Controller, id: Id) returns (r: Result)
    requires c.Valid()
    modifies c`store, c`log, c`calls
    ensures c.Valid() && OnlyRows(old(c.store), c.store, id)
    ensures id in c.store.apps ==> id in old(c.store).apps && c.store.apps[id].previous == old(c.store).apps[id].previous
    ensures ProvisioningUntouched(old(c.store), old(c.log), c.store, c.log, None)
    ensures id in old(c.store).apps && old(c.store).apps[id].observed == Provisioning ==>
              r == Conflict && c.store == old(c.store) && c.log == old(c.log) && c.calls == old(c.calls)
  {
    ghost var s, log := c.store, c.log;
    r := c.StartApp(id);
    if id in s.apps {
      RowAgain(s, id);
      RowOthers(s, id, StartRow(s.apps[id], r, c.Message(Last(c.calls))));
    }
    LoggedIsAbout(log, id, Start);
    OneRowChanged(s, log, c.store, c.log, id, None);
  }

  /** While its row is provisioning, so is a stop. */
  method RunStop(c: Controller, id: Id) returns (r: Result)
    requires c.Valid()
    modifies c`store, c`log, c`calls
    ensures c.Valid() && OnlyRows(old(c.store), c.store, id)
    ensures id in c.store.apps ==> id in old(c.store).apps && c.store.apps[id].previous == old(c.store).apps[id].previous
    ensures ProvisioningUntouched(old(c.store), old(c.log), c.store, c.log, None)
    ensures id in old(c.store).apps && old(c.store).apps[id].observed == Provisioning ==>
              r == Conflict && c.store == old(c.store) && c.log == old(c.log) && c.calls == old(c.calls)
  {
    ghost var s, log := c.store, c.log;
    r := c.StopApp(id);
    if id in s.apps {
      RowAgain(s, id);
      RowOthers(s, id, StopRow(s.apps[id], r, c.Message(Last(c.calls))));
    }
    LoggedIsAbout(log, id, Stop);
    OneRowChanged(s, log, c.store, c.log, id, None);
  }

  /** And so is a quiesce. */
  method RunQuiesce(c: Controller, id: Id) returns (r: Result)
    requires c.Valid()
    modifies c`store, c`log, c`calls
    ensures c.Valid() && OnlyRows(old(c.store), c.store, id)
    ensures id in c.store.apps ==> id in old(c.store).apps && c.store.apps[id].previous == old(c.store).apps[id].previous
    ensures ProvisioningUntouched(old(c.store), old(c.log), c.store, c.log, None)
    ensures id in old(c.store).apps && old(c.store).apps[id].observed == Provisioning ==>
              r == Conflict && c.store == old(c.store) && c.log == old(c.log) && c.calls == old(c.calls)
  {
    ghost var s, log := c.store, c.log;
    r := c.Quiesce(id);
    if id in s.apps {
      RowAgain(s, id);
      RowOthers(s, id, QuiesceRow(s.apps[id], r, c.Message(Last(c.calls))));
    }
    LoggedIsAbout(log, id, Stop);
    OneRowChanged(s, log, c.store, c.log, id, None);
  }

  /** What one operation leaves as it was. */
  ghost predicate Step(op: Op, s: Store, log: seq<Action>, catalog: Catalog, next: Id, s': Store, log': seq<Action>, next': Id, r: Result)
  {
    && next' >= next
    && ProvisioningUntouched(s, log, s', log', Excepted(op, s, catalog))
    && (forall a | a in s'.apps && a !in s.apps :: a >= next)
    && (NoPrevious(s) ==> NoPrevious(s') && (op.OpRollback? ==> r in {NotFound, Conflict, Maintained}))
  }

  method RunInstall(c: Controller, req: Request) returns (r: Result)
    requires c.Valid()
    modifies c`store, c`log, c`calls, c`nextId
    ensures c.Valid()
    ensures Step(OpInstall(req), old(c.store), old(c.log), c.catalog, old(c.nextId), c.store, c.log, c.nextId, r)
  {
    ghost var s, log := c.store, c.log;
    var id;
    r, id := c.Install(req);
    OneRowChanged(s, log, c.store, c.log, id, None);
    if NoPrevious(s) {
      NoPreviousKept(s, c.store, id);
    }
  }

  method RunRollback(c: Controller, id: Id) returns (r: Result)
    requires c.Valid()
    modifies c`store, c`log, c`calls
    ensures c.Valid()
    ensures Step(OpRollback(id), old(c.store), old(c.log), c.catalog, c.nextId, c.store, c.log, c.nextId, r)
  {
    ghost var s, log := c.store, c.log;
    r := c.Rollback(id);
    OneRowChanged(s, log, c.store, c.log, id, None);
  }

  method RunUninstall(c: Controller, id: Id) returns (r: Result)
    requires c.Valid()
    modifies c`store, c`log, c`calls
    ensures c.Valid()
    ensures Step(OpUninstall(id), old(c.store), old(c.log), c.catalog, c.nextId, c.store, c.log, c.nextId, r)
  {
    ghost var s, log := c.store, c.log;
    r := c.Uninstall(id);
    LoggedIsAbout(log, id, Remove);
    OneRowChanged(s, log, c.store, c.log, id, Excepted(OpUninstall(id), s, c.catalog));
    if NoPrevious(s) {
      NoPreviousKept(s, c.store, id);
    }
  }

  method RunHealth(c: Controller, id: Id) returns (r: Result)
    requires c.Valid()
    modifies c`store, c`calls
    ensures c.Valid()
    ensures Step(OpHealth(id), old(c.store), c.log, c.catalog, c.nextId, c.store, c.log, c.nextId, r)
  {
    ghost var s := c.store;
    r := c.CheckHealth(id);
    OneRowChanged(s, c.log, c.store, c.log, id, None);
    if NoPrevious(s) {
      NoPreviousKept(s, c.store, id);
    }
  }

  /** The operations that touch no row. */
  method RunGate(c: Controller, op: Op) returns (r: Result)
    requires c.Valid() && (op.OpUpdate? || op.OpPause? || op.OpResume? || op.OpSetCatalog?)
    modifies c`store, c`catalog
    ensures c.Valid() && c.store == old(c.store).(paused := c.store.paused)
    ensures c.catalog == if op.OpSetCatalog? then CatalogAfter(old(c.catalog), op.next) else old(c.catalog)
  {
    r := Ok;
    match op {
      case OpUpdate(id) => r := c.Update(id);
      case OpPause(bundle, reason) => r := c.Pause(bundle, reason);
      case OpResume(bundle) => r := c.Resume(bundle);
      case OpSetCatalog(next) => c.SetCatalog(next);
    }
  }

  /** One operation keeps the invariant, and every provisioning row stays as it is
      unless the operation uninstalls it, which a native bundle refuses. */
  method RunOp(c: Controller, op: Op) returns (r: Result)
    requires c.Valid()
    modifies c
    ensures c.Valid() && c.doubted == old(c.doubted)
    ensures Step(op, old(c.store), old(c.log), old(c.catalog), old(c.nextId), c.store, c.log, c.nextId, r)
    ensures c.catalog == if op.OpSetCatalog? then CatalogAfter(old(c.catalog), op.next) else old(c.catalog)
  {
    match op {
      case OpStart(id) => r := RunStart(c, id);
      case OpStop(id) => r := RunStop(c, id);
      case OpQuiesce(id) => r := RunQuiesce(c, id);
      case OpInstall(req) => r := RunInstall(c, req);
      case OpRollback(id) => r := RunRollback(c, id);
      case OpUninstall(id) => r := RunUninstall(c, id);
      case OpHealth(id) => r := RunHealth(c, id);
      case _ => r := RunGate(c, op);
    }
  }

  /** `bundle` is native in the catalog and in every one the operations bring. */
  ghost predicate AlwaysNative(bundle: string, catalog: Catalog, ops: seq<Op>)
  {
    && Native(catalog, bundle)
    && forall op | op in ops && op.OpSetCatalog? :: Native(CatalogAfter(catalog, op.next), bundle)
  }

  /** What leaves the row of an install in progress alone: no uninstall of it, or a
      bundle that refuses one whenever it comes. */
  ghost predicate Spared(id: Id, bundle: string, catalog: Catalog, ops: seq<Op>)
  {
    OpUninstall(id) !in ops || AlwaysNative(bundle, catalog, ops)
  }

  /** A spared provisioning row, and what the runner last did for it, are as they were. */
  ghost predicate RowsSpared(s: Store, log: seq<Action>, catalog: Catalog, ops: seq<Op>, s': Store, log': seq<Action>)
  {
    forall id | id in s.apps && s.apps[id].observed == Provisioning && Spared(id, s.apps[id].bundle, catalog, ops) ::
      id in s'.apps && s'.apps[id] == s.apps[id] && LastVerb(log', id) == LastVerb(log, id)
  }

  /** One more operation of `ops` keeps the rows spared. */
  lemma OneMoreSpared(s: Store, log: seq<Action>, catalog: Catalog, ops: seq<Op>, i: nat,
                      t: Store, log1: seq<Action>, catalog1: Catalog, t': Store, log1': seq<Action>)
    requires i < |ops|
    requires RowsSpared(s, log, catalog, ops, t, log1)
    requires forall b | AlwaysNative(b, catalog, ops) :: Native(catalog1, b)
    requires ProvisioningUntouched(t, log1, t', log1', Excepted(ops[i], t, catalog1))
    ensures RowsSpared(s, log, catalog, ops, t', log1')
  {
    assert ops[i] in ops;
  }

  /** Any operations in any order, from any valid state, the empty one included: the
      record stays truthful and the releases stay as they must be. Spared rows are left
      alone, and without previous releases no rollback ever passes its checks. */
  method RunOps(c: Controller, ops: seq<Op>) returns (results: seq<Result>)
    requires c.Valid()
    modifies c
    ensures c.Valid() && |results| == |ops| && c.doubted == old(c.doubted) && c.nextId >= old(c.nextId)
    ensures RowsSpared(old(c.store), old(c.log), old(c.catalog), ops, c.store, c.log)
    ensures forall b | AlwaysNative(b, old(c.catalog), ops) :: Native(c.catalog, b)
    ensures forall a | a in c.store.apps && a !in old(c.store).apps :: a >= old(c.nextId)
    ensures NoPrevious(old(c.store)) ==>
              NoPrevious(c.store)
              && forall i | 0 <= i < |ops| && ops[i].OpRollback? :: results[i] in {NotFound, Conflict, Maintained}
  {
    results := [];
    for i := 0 to |ops|
      invariant c.Valid() && |results| == i && c.doubted == old(c.doubted) && c.nextId >= old(c.nextId)
      invariant RowsSpared(old(c.store), old(c.log), old(c.catalog), ops, c.store, c.log)
      invariant forall b | AlwaysNative(b, old(c.catalog), ops) :: Native(c.catalog, b)
      invariant forall a | a in c.store.apps && a !in old(c.store).apps :: a >= old(c.nextId)
      invariant NoPrevious(old(c.store)) ==>
                  NoPrevious(c.store)
                  && forall j | 0 <= j < i && ops[j].OpRollback? :: results[j] in {NotFound, Conflict, Maintained}
    {
      ghost var t, log, catalog, before := c.store, c.log, c.catalog, results;
      assert ops[i] in ops;
      var r := RunOp(c, ops[i]);
      OneMoreSpared(old(c.store), old(c.log), old(c.catalog), ops, i, t, log, catalog, c.store, c.log);
      results := results + [r];
      assert forall j | 0 <= j < i :: results[j] == before[j];
    }
  }

  /** The row as an install claimed it. */
  ghost predicate Waiting(s: Store, id: Id, req: Request)
  {
    id in s.apps && s.apps[id] == Claimed(id, req)
  }

  /** The install reports success, but the last thing the runner did was no start. */
  ghost predicate Overtaken(r: Result, log: seq<Action>, id: Id)
  {
    r == Ok && !Claims(Running, LastVerb(log, id))
  }

  /** A spared row that was as claimed before operations is so after them. */
  lemma StillWaiting(s: Store, log: seq<Action>, catalog: Catalog, ops: seq<Op>, s': Store, log': seq<Action>, id: Id, req: Request)
    requires RowsSpared(s, log, catalog, ops, s', log')
    requires Waiting(s, id, req) && Spared(id, req.bundle, catalog, ops)
    ensures Waiting(s', id, req) && LastVerb(log', id) == LastVerb(log, id)
  {
  }

  /** The operations before the deploy of a claimed row, and the deploy. */
  method DeployAmong(c: Controller, req: Request, id: Id, first: seq<Op>) returns (ok: bool, message: string)
    requires c.Valid() && id in c.doubted && Waiting(c.store, id, req)
    modifies c
    ensures c.Valid() && c.doubted == old(c.doubted)
    ensures forall b | AlwaysNative(b, old(c.catalog), first) :: Native(c.catalog, b)
    ensures Spared(id, req.bundle, old(c.catalog), first) ==>
              Waiting(c.store, id, req) && (ok ==> LastVerb(c.log, id) == Some(Deploy))
  {
    ghost var s, log, catalog := c.store, c.log, c.catalog;
    var _ := RunOps(c, first);
    if Spared(id, req.bundle, catalog, first) {
      StillWaiting(s, log, catalog, first, c.store, c.log, id, req);
    }
    ok, message := c.DeployInstall(id);
  }

  /** The operations after it, and the last write. */
  method FinishAmong(c: Controller, req: Request, id: Id, ok: bool, message: string, second: seq<Op>) returns (r: Result)
    requires c.Valid() && id in c.doubted
    modifies c
    ensures c.Valid()
    ensures c.doubted == old(c.doubted) - (if Overtaken(r, c.log, id) then {} else {id})
    ensures r in {Ok, RunnerError, NotFound}
    ensures r == NotFound <==> id !in c.store.apps
    ensures r != NotFound ==> c.store.apps[id].observed == if r == Ok then Running else Failed
    ensures && Spared(id, req.bundle, old(c.catalog), second) && Waiting(old(c.store), id, req)
            && (ok ==> LastVerb(old(c.log), id) == Some(Deploy)) ==>
              && r == (if ok then Ok else RunnerError)
              && (r == Ok ==> LastVerb(c.log, id) == Some(Deploy))
              && SameRelease(c.store.apps[id], Claimed(id, req))
  {
    ghost var s, log, catalog := c.store, c.log, c.catalog;
    var _ := RunOps(c, second);
    if Spared(id, req.bundle, catalog, second) && Waiting(s, id, req) {
      StillWaiting(s, log, catalog, second, c.store, c.log, id, req);
    }
    r := c.FinishInstall(id, ok, message);
    if !Overtaken(r, c.log, id) {
      assert id in c.store.apps ==> RowTruthful(c.store, c.log, id);
      c.doubted := c.doubted - {id};
    }
  }

  /** An install holds only the name lock, so anything may run between its steps. It
      keeps every other row truthful. Its own row is false at the end exactly if the
      install claims success over a later stop; and a spared one ends as if alone. */
  method InstallAmong(c: Controller, req: Request, first: seq<Op>, second: seq<Op>) returns (r: Result, id: Id)
    requires c.Valid()
    modifies c
    ensures c.Valid() && id == old(c.nextId)
    ensures Claim(old(c.store), old(c.catalog), req) != Ok ==>
              r == Claim(old(c.store), old(c.catalog), req)
              && c.store == old(c.store) && c.log == old(c.log) && c.doubted == old(c.doubted)
    ensures Claim(old(c.store), old(c.catalog), req) == Ok ==>
              && r in {Ok, RunnerError, NotFound}
              && (r == NotFound <==> id !in c.store.apps)
              && (r != NotFound ==> c.store.apps[id].observed == if r == Ok then Running else Failed)
              && c.doubted == old(c.doubted) + (if Overtaken(r, c.log, id) then {id} else {})
              && (Spared(id, req.bundle, old(c.catalog), first + second) ==>
                    && r != NotFound && !Overtaken(r, c.log, id)
                    && (r == Ok ==> LastVerb(c.log, id) == Some(Deploy))
                    && SameRelease(c.store.apps[id], Claimed(id, req)))
  {
    ghost var catalog := c.catalog;
    r, id := c.ClaimInstall(req);
    if r != Ok {
      return;
    }
    c.doubted := c.doubted + {id};
    var ok, message := DeployAmong(c, req, id, first);
    SparedParts(id, req.bundle, catalog, c.catalog, first, second);
    r := FinishAmong(c, req, id, ok, message, second);
  }

  lemma SparedParts(id: Id, bundle: string, catalog: Catalog, later: Catalog, first: seq<Op>, second: seq<Op>)
    requires AlwaysNative(bundle, catalog, first) ==> Native(later, bundle)
    ensures Spared(id, bundle, catalog, first + second) ==>
              Spared(id, bundle, catalog, first) && Spared(id, bundle, later, second)
  {
    assert forall op | op in first || op in second :: op in first + second;
  }

  // ------------------------------------------------------- overlapping installs

  /** Where a claimed install stands between its steps. */
  datatype Phase = Deploying | Finishing(ok: bool, message: string) | Settled(r: Result)

  datatype Flight = Flight(req: Request, id: Id, phase: Phase)

  /** A whole operation, the claim of an install, or the next step of the k-th install. */
  datatype Turn = Do(op: Op) | Begin(req: Request) | Go(k: nat)

  function OpsOf(turns: seq<Turn>): seq<Op>
  {
    if turns == [] then [] else (if turns[0].Do? then [turns[0].op] else []) + OpsOf(turns[1..])
  }

  lemma {:induction false} OpsOfHas(turns: seq<Turn>, i: nat)
    requires i < |turns| && turns[i].Do?
    ensures turns[i].op in OpsOf(turns)
    decreases |turns|
  {
    if i > 0 {
      OpsOfHas(turns[1..], i - 1);
    }
  }

  /** A spared install finds its row as it left it, and ends in one of its own ways; the
      row of any other one is doubted. */
  ghost predicate FlightOk(f: Flight, s: Store, log: seq<Action>, doubted: set<Id>, spared: bool)
  {
    if !spared then f.id in doubted
    else
      match f.phase
      case Deploying => Waiting(s, f.id, f.req)
      case Finishing(ok, _) => Waiting(s, f.id, f.req) && (ok ==> LastVerb(log, f.id) == Some(Deploy))
      case Settled(r) => r in {Ok, RunnerError}
  }

  ghost predicate SparedFlight(f: Flight, catalog: Catalog, ops: seq<Op>)
  {
    Spared(f.id, f.req.bundle, catalog, ops)
  }

  ghost predicate FlightsOk(flights: seq<Flight>, c: Controller, catalog: Catalog, ops: seq<Op>)
    reads c
  {
    && (forall k | 0 <= k < |flights| ::
          flights[k].id < c.nextId
          && FlightOk(flights[k], c.store, c.log, c.doubted, SparedFlight(flights[k], catalog, ops)))
    && (forall j, k | 0 <= j < k < |flights| :: flights[j].id != flights[k].id)
    && (forall b | AlwaysNative(b, catalog, ops) :: Native(c.catalog, b))
  }

  /** A step that leaves provisioning rows alone, but perhaps one, leaves the other
      installs as they stand. */
  lemma FlightStays(f: Flight, s: Store, log: seq<Action>, s': Store, log': seq<Action>, doubted: set<Id>, spared: bool, except: Option<Id>)
    requires FlightOk(f, s, log, doubted, spared)
    requires ProvisioningUntouched(s, log, s', log', except)
    requires spared && !f.phase.Settled? ==> except != Some(f.id)
    ensures FlightOk(f, s', log', doubted, spared)
  {
  }

  method TurnDo(c: Controller, op: Op, ghost flights: seq<Flight>, ghost catalog: Catalog, ghost ops: seq<Op>)
    requires c.Valid() && FlightsOk(flights, c, catalog, ops) && op in ops
    modifies c
    ensures c.Valid() && FlightsOk(flights, c, catalog, ops) && c.doubted == old(c.doubted)
  {
    ghost var s, log, before := c.store, c.log, c.catalog;
    var _ := RunOp(c, op);
    forall k | 0 <= k < |flights|
      ensures FlightOk(flights[k], c.store, c.log, c.doubted, SparedFlight(flights[k], catalog, ops))
    {
      FlightStays(flights[k], s, log, c.store, c.log, c.doubted, SparedFlight(flights[k], catalog, ops), Excepted(op, s, before));
    }
  }

  method TurnBegin(c: Controller, req: Request, flights: seq<Flight>, ghost catalog: Catalog, ghost ops: seq<Op>)
    returns (more: seq<Flight>)
    requires c.Valid() && FlightsOk(flights, c, catalog, ops)
    modifies c
    ensures c.Valid() && FlightsOk(more, c, catalog, ops)
    ensures Continues(flights, more)
    ensures forall id | id in c.doubted && id !in old(c.doubted) ::
              |more| > |flights| && more[|flights|].id == id && !SparedFlight(more[|flights|], catalog, ops)
  {
    ghost var s := c.store;
    var r, id := c.ClaimInstall(req);
    if r != Ok {
      return flights;
    }
    var f := Flight(req, id, Deploying);
    if !SparedFlight(f, catalog, ops) {
      c.doubted := c.doubted + {id};
    }
    more := flights + [f];
    forall k | 0 <= k < |flights|
      ensures FlightOk(flights[k], c.store, c.log, c.doubted, SparedFlight(flights[k], catalog, ops))
    {
      FlightStays(flights[k], s, c.log, c.store, c.log, old(c.doubted), SparedFlight(flights[k], catalog, ops), Some(id));
    }
  }

  /** The next step of one install; its result is its own if it is spared. */
  method TurnGo(c: Controller, k: nat, flights: seq<Flight>, ghost catalog: Catalog, ghost ops: seq<Op>)
    returns (f: Flight)
    requires c.Valid() && FlightsOk(flights, c, catalog, ops) && k < |flights|
    modifies c
    ensures c.Valid() && FlightsOk(flights[k := f], c, catalog, ops) && c.doubted == old(c.doubted)
    ensures f.req == flights[k].req && f.id == flights[k].id
  {
    f := flights[k];
    ghost var s, log := c.store, c.log;
    match f.phase {
      case Deploying =>
        var ok, message := c.DeployInstall(f.id);
        f := f.(phase := Finishing(ok, message));
      case Finishing(ok, message) =>
        var r := c.FinishInstall(f.id, ok, message);
        f := f.(phase := Settled(r));
      case Settled(_) =>
    }
    forall j | 0 <= j < |flights| && j != k
      ensures FlightOk(flights[j], c.store, c.log, c.doubted, SparedFlight(flights[j], catalog, ops))
    {
      FlightStays(flights[j], s, log, c.store, c.log, c.doubted, SparedFlight(flights[j], catalog, ops), Some(f.id));
    }
  }

  ghost predicate Continues(before: seq<Flight>, after: seq<Flight>)
  {
    && |before| <= |after|
    && forall k | 0 <= k < |before| :: after[k].id == before[k].id && after[k].req == before[k].req
  }

  /** Every row in doubt was so at the start or is that of an install that is not spared. */
  ghost predicate DoubtedOnly(doubted: set<Id>, start: set<Id>, flights: seq<Flight>, catalog: Catalog, ops: seq<Op>)
  {
    forall id | id in doubted && id !in start ::
      exists k :: 0 <= k < |flights| && flights[k].id == id && !SparedFlight(flights[k], catalog, ops)
  }

  lemma DoubtedStays(doubted: set<Id>, start: set<Id>, before: seq<Flight>, after: seq<Flight>, catalog: Catalog, ops: seq<Op>)
    requires DoubtedOnly(doubted, start, before, catalog, ops) && Continues(before, after)
    ensures DoubtedOnly(doubted, start, after, catalog, ops)
  {
    forall id | id in doubted && id !in start
      ensures exists k :: 0 <= k < |after| && after[k].id == id && !SparedFlight(after[k], catalog, ops)
    {
      var k :| 0 <= k < |before| && before[k].id == id && !SparedFlight(before[k], catalog, ops);
      assert after[k].id == id && !SparedFlight(after[k], catalog, ops);
    }
  }

  /** Any number of installs overlapping each other and any other operations, from any
      valid state: the record is truthful for every row but those of installs that were
      not spared, and every spared install that settles ends in one of its own ways. */
  method RunTurns(c: Controller, turns: seq<Turn>) returns (flights: seq<Flight>)
    requires c.Valid()
    modifies c
    ensures c.Valid()
    ensures forall f | f in flights && SparedFlight(f, old(c.catalog), OpsOf(turns)) && f.phase.Settled? :: f.phase.r in {Ok, RunnerError}
    ensures DoubtedOnly(c.doubted, old(c.doubted), flights, old(c.catalog), OpsOf(turns))
  {
    flights := [];
    ghost var catalog, ops, start := c.catalog, OpsOf(turns), c.doubted;
    for i := 0 to |turns|
      invariant c.Valid() && FlightsOk(flights, c, catalog, ops)
      invariant DoubtedOnly(c.doubted, start, flights, catalog, ops)
    {
      ghost var before, doubted := flights, c.doubted;
      match turns[i] {
        case Do(op) =>
          OpsOfHas(turns, i);
          TurnDo(c, op, flights, catalog, ops);
        case Begin(req) =>
          flights := TurnBegin(c, req, flights, catalog, ops);
        case Go(k) =>
          if k < |flights| {
            var f := TurnGo(c, k, flights, catalog, ops);
            flights := flights[k := f];
          }
      }
      DoubtedStays(doubted, start, before, flights, catalog, ops);
    }
  }

  /** The first steps of an install that the outside lets succeed. */
  method ClaimAndDeploy(c: Controller, req: Request) returns (id: Id, ok: bool, message: string)
    requires c.Valid() && Claim(c.store, c.catalog, req) == Ok
    requires c.reply(c.calls).Good? && c.reply(c.calls + 1).Good?
    modifies c
    ensures c.Valid() && ok && id in c.doubted && Waiting(c.store, id, req)
    ensures c.calls == old(c.calls) + 2 && c.catalog == old(c.catalog)
  {
    var r;
    r, id := c.ClaimInstall(req);
    c.doubted := c.doubted + {id};
    ok, message := c.DeployInstall(id);
  }

  /** An uninstall that the runner refuses, then a stop. */
  method FailedUninstallThenStop(c: Controller, id: Id)
    requires c.Valid() && id in c.store.apps && !Native(c.catalog, c.store.apps[id].bundle)
    requires forall i | c.calls <= i < c.calls + 4 :: c.reply(i).Good? <==> i != c.calls + 1
    modifies c`store, c`log, c`calls
    ensures c.Valid() && id in c.store.apps && LastVerb(c.log, id) == Some(Stop)
  {
    var r := c.Uninstall(id);
    assert r == RunnerError;
    ghost var log := c.log;
    r := c.StopApp(id);
    assert r == Ok;
    LogGrows(log, Action(id, Stop));
  }

  /** Native is the exact condition: for any bundle that a catalog swap makes removable
      there is a run, with one failed uninstall between the deploy and the last write of
      an install, that ends with an app recorded as running which the runner stopped. */
  method UninstallDuringInstall(c: Controller, req: Request, swapped: Option<Catalog>) returns (id: Id)
    requires c.Valid() && Claim(c.store, c.catalog, req) == Ok
    requires !Native(CatalogAfter(c.catalog, swapped), req.bundle)
    requires forall i | c.calls <= i < c.calls + 6 :: c.reply(i).Good? <==> i != c.calls + 3
    modifies c
    ensures c.Valid() && id in c.store.apps && id in c.doubted
    ensures c.store.apps[id].observed == Running && LastVerb(c.log, id) == Some(Stop)
    ensures !RowTruthful(c.store, c.log, id)
  {
    var ok, message;
    id, ok, message := ClaimAndDeploy(c, req);
    c.SetCatalog(swapped);
    FailedUninstallThenStop(c, id);
    var _ := c.FinishInstall(id, ok, message);
  }

  /** Two rollbacks that both succeed leave the pointers, the digest and the releases
      as they were. */
  method RollbackTwice(c: Controller, id: Id) returns (r1: Result, r2: Result)
    requires c.Valid()
    modifies c
    ensures c.Valid()
    ensures r1 == Ok && r2 == Ok ==>
              && id in old(c.store).apps && id in c.store.apps
              && SameRelease(c.store.apps[id], old(c.store).apps[id])
              && c.store.releases == old(c.store).releases
  {
    ghost var s := c.store;
    r1 := c.Rollback(id);
    if r1 == Ok {
      RollbackTwiceRestores(s, id);
    }
    r2 := c.Rollback(id);
  }
}
