/** The application lifecycle controller: every operation over the stored rows, a
    runner that may fail at any call, and the log of what the runner really did. */
module AppService {
  import opened Wrappers
  import opened AppCatalog
  import opened AppStore

  datatype Verb = Deploy | Start | Stop | Remove

  /** One runner call that succeeded. */
  datatype Action = Action(app: Id, verb: Verb)

  ghost function LastVerb(log: seq<Action>, id: Id): Option<Verb>
  {
    if log == [] then None
    else if log[|log| - 1].app == id then Some(log[|log| - 1].verb)
    else LastVerb(log[..|log| - 1], id)
  }

  /** The answer of the runner, or of the environment source, to one call. */
  datatype Reply = Good(health: Health) | Bad(message: string)

  /** How far a failed rollback got: the current release is back as desired, or it is not
      (and may be deployed where it should be stopped), or the previous one is deployed
      where it should be stopped. */
  datatype Stage = CurrentRestored | NotRestored | NotStopped

  datatype Result =
    | Ok
    | Invalid
    | NotFound
    | AlreadyExists
    | Conflict
    | Maintained
    | EnvError
    | RunnerError
    | RollbackFailed(stage: Stage)

  ghost predicate RowTruthful(s: Store, log: seq<Action>, id: Id)
    requires id in s.apps
  {
    Claims(s.apps[id].observed, LastVerb(log, id))
  }

  /** The record claims only what the runner reported, except for `doubted` rows. */
  ghost predicate Truthful(s: Store, log: seq<Action>, doubted: set<Id>)
  {
    forall id {:trigger RowTruthful(s, log, id)} | id in s.apps && id !in doubted :: RowTruthful(s, log, id)
  }

  /** Everything the controller keeps: releases, names, the truth of the record, and
      identifiers below `next`. */
  ghost predicate ValidStore(s: Store, log: seq<Action>, next: Id, doubted: set<Id>)
  {
    && ReleasesOk(s) && NamesUnique(s)
    && Truthful(s, log, doubted)
    && (forall id | id in doubted :: id < next)
    && (forall id | id in s.apps :: id < next)
    && (forall r | r in s.releases :: r < next)
  }

  function Logged(log: seq<Action>, done: bool, id: Id, verb: Verb): seq<Action>
  {
    if done then log + [Action(id, verb)] else log
  }

  lemma LogGrows(log: seq<Action>, a: Action)
    ensures forall id :: LastVerb(log + [a], id) == if a.app == id then Some(a.verb) else LastVerb(log, id)
  {
    assert (log + [a])[..|log|] == log;
  }

  ghost predicate Claims(observed: Observed, last: Option<Verb>)
  {
    && (observed == Running ==> last == Some(Deploy) || last == Some(Start))
    && (observed == Stopped ==> last == Some(Stop))
  }

  /** The log gained entries about `id` only. */
  ghost predicate OnlyAbout(log: seq<Action>, log': seq<Action>, id: Id)
  {
    forall a :: a != id ==> LastVerb(log', a) == LastVerb(log, a)
  }

  /** The truth of the record carries over to every row but one that has to be shown. */
  lemma StillTruthful(s: Store, log: seq<Action>, s': Store, log': seq<Action>, id: Id, doubted: set<Id>)
    requires Truthful(s, log, doubted) && OnlyAbout(log, log', id)
    requires forall a | a in s'.apps && a != id :: a in s.apps && s'.apps[a].observed == s.apps[a].observed
    requires id in s'.apps && id !in doubted ==> RowTruthful(s', log', id)
    ensures Truthful(s', log', doubted)
  {
    forall a | a in s'.apps && a !in doubted
      ensures RowTruthful(s', log', a)
    {
      if a != id {
        assert RowTruthful(s, log, a);
      }
    }
  }

  /** A new row for `id` with the same pointers, truthful about the new log. */
  lemma RowStep(s: Store, log: seq<Action>, log': seq<Action>, next: Id, id: Id, row: App, doubted: set<Id>)
    requires ValidStore(s, log, next, doubted) && id in s.apps
    requires SameRelease(row, s.apps[id])
    requires OnlyAbout(log, log', id)
    requires id !in doubted ==> Claims(row.observed, LastVerb(log', id))
    ensures ValidStore(WithRow(s, id, row), log', next, doubted)
  {
    RowUpdateKeeps(s, id, row);
    StillTruthful(s, log, WithRow(s, id, row), log', id, doubted);
  }

  /** What one call, successful or not, does to the log. */
  lemma LoggedFacts(log: seq<Action>, done: bool, id: Id, verb: Verb)
    ensures OnlyAbout(log, Logged(log, done, id, verb), id)
    ensures LastVerb(Logged(log, done, id, verb), id) == if done then Some(verb) else LastVerb(log, id)
  {
    LogGrows(log, Action(id, verb));
  }

  /** A call for `id` and the row it leads to. */
  lemma CallStep(s: Store, log: seq<Action>, next: Id, id: Id, verb: Verb, done: bool, row: App, doubted: set<Id>)
    requires ValidStore(s, log, next, doubted) && id in s.apps
    requires SameRelease(row, s.apps[id])
    requires if done then Claims(row.observed, Some(verb))
             else row.observed == s.apps[id].observed || row.observed == Failed
    ensures ValidStore(WithRow(s, id, row), Logged(log, done, id, verb), next, doubted)
  {
    assert id !in doubted ==> RowTruthful(s, log, id);
    LoggedFacts(log, done, id, verb);
    RowStep(s, log, Logged(log, done, id, verb), next, id, row, doubted);
  }

  class Controller {
    var store: Store
    ghost var log: seq<Action>
    /** Identifiers from here on are unused. */
    var nextId: Id
    /** How many outside calls have been made. */
    var calls: nat
    const reply: nat -> Reply
    var catalog: Catalog
    /** Rows whose truth an install in progress, or one that was overtaken, leaves open. */
    ghost var doubted: set<Id>

    ghost predicate Valid()
      reads this
    {
      ValidStore(store, log, nextId, doubted)
    }

    /** Starts from any stored rows that satisfy the invariant. */
    constructor (store: Store, ghost log: seq<Action>, nextId: Id, reply: nat -> Reply,
                 catalog: Catalog)
      requires ValidStore(store, log, nextId, {})
      ensures Valid() && this.store == store && this.log == log && this.calls == 0 && this.nextId == nextId
      ensures this.reply == reply && this.catalog == catalog && doubted == {}
    {
      this.store, this.log, this.nextId, this.calls := store, log, nextId, 0;
      this.reply, this.catalog, this.doubted := reply, catalog, {};
    }

    /** What an environment call and then a runner call, from call `c` on, lead to. */
    function Attempt(c: nat): (r: Result)
      ensures r in {Ok, EnvError, RunnerError}
      ensures r == Ok <==> reply(c).Good? && reply(c + 1).Good?
      ensures r == EnvError <==> reply(c).Bad?
    {
      if !reply(c).Good? then EnvError else if reply(c + 1).Good? then Ok else RunnerError
    }

    /** Calls spent by such an attempt. */
    function Spent(r: Result): nat
    {
      if r == EnvError then 1 else 2
    }

    // ----------------------------------------------------------- outside calls

    method EnvFor() returns (ok: bool)
      modifies this`calls
      ensures calls == old(calls) + 1 && ok == reply(old(calls)).Good?
    {
      ok := reply(calls).Good?;
      calls := calls + 1;
    }

    method Run(id: Id, verb: Verb) returns (ok: bool)
      modifies this`calls, this`log
      ensures calls == old(calls) + 1 && ok == reply(old(calls)).Good?
      ensures log == Logged(old(log), ok, id, verb)
    {
      ok := reply(calls).Good?;
      calls := calls + 1;
      if ok {
        log := log + [Action(id, verb)];
      }
    }

    function Message(call: nat): string
    {
      match reply(call) case Good(_) => "" case Bad(m) => m
    }

    /** The two calls of a plain transition: the environment, then the runner. The row
        becomes `good` when both succeed and `failed` when the runner refuses. */
    method Transition(id: Id, verb: Verb, good: App, failed: App) returns (r: Result)
      requires Valid() && id in store.apps
      requires SameRelease(good, store.apps[id]) && Claims(good.observed, Some(verb))
      requires SameRelease(failed, store.apps[id])
      requires failed.observed == store.apps[id].observed
      modifies this`store, this`log, this`calls
      ensures Valid()
      ensures r == Attempt(old(calls)) && calls == old(calls) + Spent(r)
      ensures log == Logged(old(log), r == Ok, id, verb)
      ensures store == match r
                       case Ok => WithRow(old(store), id, good)
                       case RunnerError => WithRow(old(store), id, failed.(lastError := Message(calls - 1)))
                       case _ => old(store)
    {
      var ok := EnvFor();
      if !ok {
        return EnvError;
      }
      r := RunAndRecord(id, verb, good, failed);
    }

    /** One runner call and the row it leads to. */
    method RunAndRecord(id: Id, verb: Verb, good: App, failed: App) returns (r: Result)
      requires Valid() && id in store.apps
      requires SameRelease(good, store.apps[id]) && Claims(good.observed, Some(verb))
      requires SameRelease(failed, store.apps[id])
      requires failed.observed == store.apps[id].observed || failed.observed == Failed
      modifies this`store, this`log, this`calls
      ensures Valid() && calls == old(calls) + 1
      ensures r == if reply(old(calls)).Good? then Ok else RunnerError
      ensures log == Logged(old(log), r == Ok, id, verb)
      ensures store == WithRow(old(store), id, if r == Ok then good else failed.(lastError := Message(old(calls))))
    {
      ghost var was := log;
      var ok := Run(id, verb);
      var row := if ok then good else failed.(lastError := Message(calls - 1));
      CallStep(store, was, nextId, id, verb, ok, row, doubted);
      store := WithRow(store, id, row);
      return if ok then Ok else RunnerError;
    }

    method PutDesired(id: Id, desired: Desired)
      requires Valid() && id in store.apps
      modifies this`store
      ensures Valid() && store == WithRow(old(store), id, old(store).apps[id].(desired := desired))
    {
      assert id !in doubted ==> RowTruthful(store, log, id);
      RowStep(store, log, log, nextId, id, store.apps[id].(desired := desired), doubted);
      store := SetDesired(store, id, desired);
    }

    // --------------------------------------------------- start, stop, quiesce, health

    method StartApp(id: Id) returns (r: Result)
      requires Valid()
      modifies this`store, this`log, this`calls
      ensures Valid()
      ensures r == NotFound <==> id !in old(store).apps
      ensures r == Conflict <==> id in old(store).apps && old(store).apps[id].observed == Provisioning
      ensures r == Maintained <==> id in old(store).apps && old(store).apps[id].observed != Provisioning
                                   && old(store).apps[id].bundle in old(store).paused
      ensures r in {Ok, EnvError, RunnerError} || (r in {NotFound, Conflict, Maintained} && calls == old(calls))
      ensures r == NotFound ==> store == old(store)
      ensures r != NotFound ==>
                store == WithRow(old(store), id, StartRow(old(store).apps[id], r, Message(Last(calls))))
      ensures r != NotFound ==> id in store.apps && SameRelease(store.apps[id], old(store).apps[id])
      ensures r in {Ok, EnvError, RunnerError} ==> store.apps[id].desired == WantRunning
      ensures r == Ok ==> store.apps[id].observed == Running
      ensures r in {Conflict, Maintained} ==> store == old(store)
      ensures r in {EnvError, RunnerError} ==>
                store.apps[id].observed == old(store).apps[id].observed && store.apps[id].health == old(store).apps[id].health
                && store.apps[id].lastError == (if r == EnvError then old(store).apps[id].lastError else Message(old(calls) + 1))
      ensures log == Logged(old(log), r == Ok && !IsRunning(old(store), id), id, Start)
      ensures r !in {NotFound, Conflict, Maintained} && !IsRunning(old(store), id) ==>
                r == Attempt(old(calls)) && calls == old(calls) + Spent(r)
    {
      if id !in store.apps {
        return NotFound;
      }
      var rec := store.apps[id];
      RowAgain(store, id);
      if rec.observed == Provisioning {
        return Conflict;
      }
      if rec.bundle in store.paused {
        return Maintained;
      }
      if rec.desired == WantRunning && rec.observed == Running {
        return Ok;
      }
      PutDesired(id, WantRunning);
      var wanted := rec.(desired := WantRunning);
      ghost var was := old(store);
      RowTwice(was, id, wanted);
      r := Transition(id, Start, wanted.(observed := Running, health := Unknown, lastError := ""), wanted);
    }

    method StopApp(id: Id) returns (r: Result)
      requires Valid()
      modifies this`store, this`log, this`calls
      ensures Valid()
      ensures r == NotFound <==> id !in old(store).apps
      ensures r == Conflict <==> id in old(store).apps && old(store).apps[id].observed in {Provisioning, Absent}
      ensures r in {Ok, EnvError, RunnerError} || (r in {NotFound, Conflict} && calls == old(calls))
      ensures r == NotFound ==> store == old(store)
      ensures r != NotFound ==>
                store == WithRow(old(store), id, StopRow(old(store).apps[id], r, Message(Last(calls))))
      ensures r != NotFound ==> id in store.apps && SameRelease(store.apps[id], old(store).apps[id])
      ensures r in {Ok, EnvError, RunnerError} ==> store.apps[id].desired == WantStopped
      ensures r == Ok ==> store.apps[id].observed == Stopped
      ensures r == Conflict ==> store == old(store)
      ensures r in {EnvError, RunnerError} ==>
                store.apps[id].observed == old(store).apps[id].observed && store.apps[id].health == old(store).apps[id].health
                && store.apps[id].lastError == (if r == EnvError then old(store).apps[id].lastError else Message(old(calls) + 1))
      ensures log == Logged(old(log), r == Ok && old(store).apps[id].observed != Stopped, id, Stop)
      ensures r !in {NotFound, Conflict} && old(store).apps[id].observed != Stopped ==>
                r == Attempt(old(calls)) && calls == old(calls) + Spent(r)
    {
      if id !in store.apps {
        return NotFound;
      }
      var rec := store.apps[id];
      RowAgain(store, id);
      if rec.observed == Provisioning || rec.observed == Absent {
        return Conflict;
      }
      if rec.observed == Stopped {
        if rec.desired != WantStopped {
          PutDesired(id, WantStopped);
        }
        return Ok;
      }
      r := StopWanted(id);
    }

    /** The stop of an app that is neither stopped nor absent. */
    method StopWanted(id: Id) returns (r: Result)
      requires Valid() && id in store.apps
      modifies this`store, this`log, this`calls
      ensures Valid()
      ensures r == Attempt(old(calls)) && calls == old(calls) + Spent(r)
      ensures log == Logged(old(log), r == Ok, id, Stop)
      ensures var wanted := old(store).apps[id].(desired := WantStopped);
              store == WithRow(old(store), id, match r
                                               case Ok => wanted.(observed := Stopped, health := Unknown, lastError := "")
                                               case RunnerError => wanted.(lastError := Message(calls - 1))
                                               case _ => wanted)
    {
      ghost var was := store;
      var wanted := store.apps[id].(desired := WantStopped);
      PutDesired(id, WantStopped);
      RowTwice(was, id, wanted);
      r := Transition(id, Stop, wanted.(observed := Stopped, health := Unknown, lastError := ""), wanted);
    }

    /** Stops for maintenance and keeps the desired state. */
    method Quiesce(id: Id) returns (r: Result)
      requires Valid()
      modifies this`store, this`log, this`calls
      ensures Valid()
      ensures r == NotFound <==> id !in old(store).apps
      ensures r == Conflict <==> id in old(store).apps && old(store).apps[id].observed == Provisioning
      ensures r in {Ok, EnvError, RunnerError} || (r in {NotFound, Conflict} && calls == old(calls))
      ensures r == NotFound ==> store == old(store)
      ensures r != NotFound ==>
                store == WithRow(old(store), id, QuiesceRow(old(store).apps[id], r, Message(Last(calls))))
      ensures r != NotFound ==> id in store.apps && SameRelease(store.apps[id], old(store).apps[id])
      ensures r != NotFound ==> store.apps[id].desired == old(store).apps[id].desired
      ensures r == Ok ==> store.apps[id].observed in {Stopped, Absent}
      ensures r == Ok && old(store).apps[id].observed != Absent ==> store.apps[id].observed == Stopped
      ensures r == Conflict ==> store == old(store)
      ensures r in {EnvError, RunnerError} ==>
                store.apps[id].observed == old(store).apps[id].observed && store.apps[id].health == old(store).apps[id].health
                && store.apps[id].lastError == (if r == EnvError then old(store).apps[id].lastError else Message(old(calls) + 1))
      ensures log == Logged(old(log), r == Ok && old(store).apps[id].observed !in {Stopped, Absent}, id, Stop)
      ensures r !in {NotFound, Conflict} && old(store).apps[id].observed !in {Stopped, Absent} ==>
                r == Attempt(old(calls)) && calls == old(calls) + Spent(r)
    {
      if id !in store.apps {
        return NotFound;
      }
      var rec := store.apps[id];
      RowAgain(store, id);
      match rec.observed {
        case Provisioning => return Conflict;
        case Stopped => return Ok;
        case Absent => return Ok;
        case _ =>
      }
      r := Transition(id, Stop, rec.(observed := Stopped, health := Unknown, lastError := ""), rec);
    }

    /** Observes health; neither the state nor the runner changes. */
    method CheckHealth(id: Id) returns (r: Result)
      requires Valid()
      modifies this`store, this`calls
      ensures Valid()
      ensures r == NotFound <==> id !in old(store).apps
      ensures r == Maintained <==> id in old(store).apps && old(store).apps[id].bundle in old(store).paused
      ensures r == Conflict <==> id in old(store).apps && old(store).apps[id].bundle !in old(store).paused
                                 && old(store).apps[id].observed != Running
      ensures r in {Ok, EnvError, RunnerError} || (r in {NotFound, Conflict, Maintained} && calls == old(calls))
      ensures r == Ok ==> reply(old(calls) + 1).Good?
                          && store == SetHealth(old(store), id, reply(old(calls) + 1).health)
                          && id in store.apps
                          && store.apps[id] == old(store).apps[id].(health := reply(old(calls) + 1).health)
      ensures r != Ok ==> store == old(store)
      ensures r !in {NotFound, Conflict, Maintained} ==>
                r == Attempt(old(calls)) && calls == old(calls) + Spent(r)
    {
      if id !in store.apps {
        return NotFound;
      }
      var rec := store.apps[id];
      if rec.bundle in store.paused {
        return Maintained;
      }
      if rec.observed != Running {
        return Conflict;
      }
      r := Observe(id);
    }

    /** The environment, the health check and the row it leads to. */
    method Observe(id: Id) returns (r: Result)
      requires Valid() && id in store.apps
      modifies this`store, this`calls
      ensures Valid()
      ensures r == Attempt(old(calls)) && calls == old(calls) + Spent(r)
      ensures store == if r == Ok then SetHealth(old(store), id, reply(old(calls) + 1).health) else old(store)
    {
      var rec := store.apps[id];
      RowAgain(store, id);
      var ok := EnvFor();
      if !ok {
        return EnvError;
      }
      calls := calls + 1;
      match reply(calls - 1) {
        case Bad(_) => return RunnerError;
        case Good(health) =>
          if health != rec.health {
            assert id !in doubted ==> RowTruthful(store, log, id);
            RowStep(store, log, log, nextId, id, rec.(health := health), doubted);
            store := SetHealth(store, id, health);
          } else {
            assert rec.(health := health) == rec;
          }
          return Ok;
      }
    }

    /** Bundles are updated by the system image: never here, whatever the store, and the
        two gates of the other operations come first. */
    method Update(id: Id) returns (r: Result)
      ensures r in {NotFound, Conflict, Maintained, Invalid}
      ensures r == NotFound <==> id !in store.apps
      ensures id in store.apps && store.apps[id].observed == Provisioning ==> r == Conflict
      ensures r == Maintained <==> id in store.apps && store.apps[id].observed != Provisioning
                                   && store.apps[id].bundle in store.paused
      ensures r == Invalid <==> id in store.apps && store.apps[id].observed != Provisioning
                                && store.apps[id].bundle !in store.paused && store.apps[id].bundle in catalog
    {
      if id !in store.apps {
        return NotFound;
      }
      var rec := store.apps[id];
      if rec.observed == Provisioning {
        return Conflict;
      }
      if rec.bundle in store.paused {
        return Maintained;
      }
      return if rec.bundle in catalog then Invalid else Conflict;
    }

    /** Tears the stack down and removes the row with its releases. */
    method Uninstall(id: Id) returns (r: Result)
      requires Valid()
      modifies this`store, this`log, this`calls
      ensures Valid()
      ensures r == NotFound <==> id !in old(store).apps
      ensures r == Invalid <==> id in old(store).apps && Native(catalog, old(store).apps[id].bundle)
      ensures r == Invalid <==>
                && id in old(store).apps && old(store).apps[id].bundle in catalog
                && catalog[old(store).apps[id].bundle].units != []
                && !exists before, after :: old(store).apps[id].bundle == before + "non-native" + after
      ensures r == Ok ==>
                && id !in store.apps && (forall rel | rel in store.releases :: store.releases[rel].app != id)
                && (forall a | a in old(store).apps && a != id :: a in store.apps && store.apps[a] == old(store).apps[a])
                && (forall rel | rel in old(store).releases && old(store).releases[rel].app != id ::
                      rel in store.releases && store.releases[rel] == old(store).releases[rel])
      ensures r == RunnerError ==>
                && id in store.apps && SameRelease(store.apps[id], old(store).apps[id])
                && store.apps[id].observed == Failed && store.apps[id].desired == old(store).apps[id].desired
                && store.apps[id].health == old(store).apps[id].health && store.apps[id].lastError == Message(old(calls) + 1)
      ensures r in {Ok, EnvError, RunnerError} || (r in {NotFound, Invalid} && calls == old(calls))
      ensures r == Ok ==> store == DeleteApp(old(store), id)
      ensures r == RunnerError ==>
                store == SetObserved(old(store), id, Failed, old(store).apps[id].health, Message(Last(calls)))
      ensures r != Ok && r != RunnerError ==> store == old(store)
      ensures log == Logged(old(log), r == Ok, id, Remove)
      ensures r !in {NotFound, Invalid} ==>
                r == Attempt(old(calls)) && calls == old(calls) + Spent(r)
    {
      if id !in store.apps {
        return NotFound;
      }
      var rec := store.apps[id];
      NativeIs(catalog, rec.bundle);
      if Native(catalog, rec.bundle) {
        return Invalid;
      }
      var ok := EnvFor();
      if !ok {
        return EnvError;
      }
      r := RemoveUnits(id);
    }

    method RemoveUnits(id: Id) returns (r: Result)
      requires Valid() && id in store.apps
      modifies this`store, this`log, this`calls
      ensures Valid() && calls == old(calls) + 1
      ensures r == if reply(old(calls)).Good? then Ok else RunnerError
      ensures log == Logged(old(log), r == Ok, id, Remove)
      ensures store == if r == Ok then DeleteApp(old(store), id)
                       else SetObserved(old(store), id, Failed, old(store).apps[id].health, Message(old(calls)))
    {
      ghost var was := log;
      var ok := Run(id, Remove);
      LoggedFacts(was, ok, id, Remove);
      if ok {
        DeleteStep(store, was, log, nextId, id, doubted);
        store := DeleteApp(store, id);
        return Ok;
      }
      var row := store.apps[id].(observed := Failed, lastError := Message(calls - 1));
      RowStep(store, was, log, nextId, id, row, doubted);
      store := WithRow(store, id, row);
      return RunnerError;
    }

    // ------------------------------------------------------------------ maintenance

    method Pause(bundle: string, reason: Reason) returns (r: Result)
      requires Valid()
      modifies this`store
      ensures Valid()
      ensures r == if bundle !in catalog then NotFound else if reason.Other? then Invalid else Ok
      ensures store == if r == Ok then old(store).(paused := old(store).paused[bundle := reason]) else old(store)
    {
      if bundle !in catalog {
        return NotFound;
      }
      if reason.Other? {
        return Invalid;
      }
      PauseStep(store, log, nextId, store.paused[bundle := reason], doubted);
      store := store.(paused := store.paused[bundle := reason]);
      return Ok;
    }

    /** A generic resume: pauses owned by a restore or a storage move stay. */
    method Resume(bundle: string) returns (r: Result)
      requires Valid()
      modifies this`store
      ensures Valid()
      ensures r == if bundle in old(store).paused && old(store).paused[bundle] in {Restore, Storage} then Conflict else Ok
      ensures store == if r == Ok then old(store).(paused := old(store).paused - {bundle}) else old(store)
    {
      if bundle in store.paused && store.paused[bundle] in {Restore, Storage} {
        return Conflict;
      }
      PauseStep(store, log, nextId, store.paused - {bundle}, doubted);
      store := store.(paused := store.paused - {bundle});
      return Ok;
    }

    // ---------------------------------------------------------------------- install

    /** SetCatalog: a freshly merged catalog, unless there is none. */
    method SetCatalog(next: Option<Catalog>)
      modifies this`catalog
      ensures catalog == CatalogAfter(old(catalog), next)
      ensures if next.Some? then catalog == next.value else catalog == old(catalog)
    {
      if next.Some? {
        catalog := next.value;
      }
    }

    /** The first part of an install: the checks and the claim of the name. */
    method ClaimInstall(req: Request) returns (r: Result, id: Id)
      requires Valid()
      modifies this`store, this`nextId
      ensures Valid() && id == old(nextId)
      ensures r == Claim(old(store), catalog, req)
      ensures nextId == old(nextId) + (if r == Ok then 2 else 0)
      ensures store == if r == Ok then CreateApp(old(store), id, id + 1, InstallName(req), req.bundle)
                       else old(store)
      ensures r == Ok ==>
                && req.bundle in catalog && req.bundle !in old(store).paused
                && (forall a | a in old(store).apps :: old(store).apps[a].name != InstallName(req))
                && id in store.apps && id + 1 in store.releases && store.releases[id + 1] == Release(id, "")
                && store.apps[id] == App(if req.name == "" then req.bundle else req.name, req.bundle, "", WantRunning,
                                         Provisioning, Unknown, "", id + 1, None)
    {
      id := nextId;
      if req.bundle !in catalog {
        return Invalid, id;
      }
      var bundle := catalog[req.bundle];
      if req.bundle in store.paused {
        return Maintained, id;
      }
      var name := InstallName(req);
      if !ValidSlug(name) {
        return Invalid, id;
      }
      var exposure := InstallExposure(req, bundle);
      if Rank(exposure) < 0 || Rank(exposure) > Rank(bundle.maxExposure) {
        return Invalid, id;
      }
      if req.hostname == "" && Rank(exposure) > 0 {
        return Invalid, id;
      }
      if req.hostname != "" && !ValidHostname(req.hostname) {
        return Invalid, id;
      }
      if exists a :: a in store.apps && store.apps[a].name == name {
        return AlreadyExists, id;
      }
      CreateStep(store, log, id, name, req.bundle, doubted);
      store := CreateApp(store, id, id + 1, name, req.bundle);
      nextId := nextId + 2;
      r := Ok;
    }

    /** The outside calls of an install: deploy, and on failure a best-effort removal. */
    method DeployInstall(id: Id) returns (ok: bool, message: string)
      requires Valid() && (id in store.apps ==> id in doubted || store.apps[id].observed == Provisioning)
      modifies this`log, this`calls
      ensures Valid() && OnlyAbout(old(log), log, id)
      ensures calls > old(calls) && (ok ==> calls == old(calls) + 2)
      ensures ok ==> LastVerb(log, id) == Some(Deploy)
      ensures ok <==> reply(old(calls)).Good? && reply(old(calls) + 1).Good?
      ensures !ok ==>
                && calls == DeployCall(old(calls)) + 2 && message == Message(DeployCall(old(calls)))
                && LastVerb(log, id) == (if reply(calls - 1).Good? then Some(Remove) else LastVerb(old(log), id))
    {
      ghost var was := log;
      ok := EnvFor();
      if ok {
        ok := Run(id, Deploy);
      }
      LoggedFacts(was, ok, id, Deploy);
      message := Message(Last(calls));
      if !ok {
        var removed := Run(id, Remove);
        LoggedFacts(was, removed, id, Remove);
      }
      LogStep(store, was, log, nextId, id, doubted);
    }

    /** A health probe that fails reports an unknown health. */
    function Probed(call: nat): Health
    {
      match reply(call) case Good(h) => h case Bad(_) => Unknown
    }

    /** The last part of an install: the health probe and the final row. */
    method FinishInstall(id: Id, ok: bool, message: string) returns (r: Result)
      requires Valid()
      requires id in store.apps && ok ==> id in doubted || Claims(Running, LastVerb(log, id))
      modifies this`store, this`calls
      ensures Valid()
      ensures r == if id !in old(store).apps then NotFound else if ok then Ok else RunnerError
      ensures id !in old(store).apps ==> store == old(store)
      ensures r == Ok ==> id in store.apps
                          && store == SetObserved(old(store), id, Running, Probed(old(calls)), "")
                          && store.apps[id] == old(store).apps[id].(observed := Running, lastError := "",
                               health := if reply(old(calls)).Good? then reply(old(calls)).health else Unknown)
      ensures r == RunnerError ==>
                id in store.apps
                && store.apps[id] == old(store).apps[id].(observed := Failed, health := Unknown, lastError := message)
      ensures r == RunnerError ==> store == SetObserved(old(store), id, Failed, Unknown, message)
    {
      var health := Unknown;
      if ok {
        calls := calls + 1;
        health := Probed(calls - 1);
      }
      if id !in store.apps {
        return NotFound;
      }
      var row := if ok then store.apps[id].(observed := Running, health := health, lastError := "")
                 else store.apps[id].(observed := Failed, health := Unknown, lastError := message);
      RowStep(store, log, log, nextId, id, row, doubted);
      store := WithRow(store, id, row);
      return if ok then Ok else RunnerError;
    }

    /** An install that nothing interleaves with. */
    method Install(req: Request) returns (r: Result, id: Id)
      requires Valid()
      modifies this`store, this`log, this`calls, this`nextId
      ensures Valid() && id == old(nextId)
      ensures Claim(old(store), catalog, req) != Ok ==>
                r == Claim(old(store), catalog, req)
                && store == old(store) && log == old(log) && nextId == old(nextId)
      ensures Claim(old(store), catalog, req) == Ok ==>
                && r == (if reply(old(calls)).Good? && reply(old(calls) + 1).Good? then Ok else RunnerError)
                && OnlyAbout(old(log), log, id)
                && id in store.apps
                && store.apps[id].observed == (if r == Ok then Running else Failed)
                && store == WithRow(CreateApp(old(store), id, id + 1, InstallName(req), req.bundle), id, store.apps[id])
                && SameRelease(store.apps[id], Claimed(id, req))
                && nextId == old(nextId) + 2
    {
      r, id := ClaimInstall(req);
      if r != Ok {
        return;
      }
      ghost var claimed := store;
      var ok, message := DeployInstall(id);
      r := FinishInstall(id, ok, message);
    }

    // --------------------------------------------------------------------- rollback

    /** Restores the current release after a failed deploy. */
    method RedeployCurrent(id: Id, desired: Desired) returns (ok: bool)
      requires Valid() && id in store.apps && store.apps[id].observed == Provisioning
      modifies this`log, this`calls
      ensures Valid() && OnlyAbout(old(log), log, id)
      ensures ok ==> Claims(Matching(desired), LastVerb(log, id))
      ensures ok <==> Deploys(old(calls), desired)
      ensures LastVerb(log, id) == VerbAfterDeploy(old(calls), desired, LastVerb(old(log), id))
    {
      ok := DeployAgain(id);
      if ok && desired == WantStopped {
        ghost var deployed := log;
        ok := Run(id, Stop);
        LoggedFacts(deployed, ok, id, Stop);
        LogStep(store, deployed, log, nextId, id, doubted);
      }
    }

    method PutObserved(id: Id, observed: Observed, lastError: string)
      requires Valid() && id in store.apps && Claims(observed, LastVerb(log, id))
      modifies this`store
      ensures Valid() && store == SetObserved(old(store), id, observed, Unknown, lastError)
    {
      RowStep(store, log, log, nextId, id, store.apps[id].(observed := observed, health := Unknown, lastError := lastError), doubted);
      store := SetObserved(store, id, observed, Unknown, lastError);
    }

    /** After a failed deploy: the current release again, as far as the outside lets it. */
    method RecoverCurrent(id: Id, failure: string) returns (r: Result)
      requires Valid() && id in store.apps && store.apps[id].observed == Provisioning
      modifies this`store, this`log, this`calls
      ensures Valid() && OnlyAbout(old(log), log, id)
      ensures r == RollbackFailed(CurrentRestored) || r == RollbackFailed(NotRestored)
      ensures id in store.apps
              && store == WithRow(old(store), id, RollbackRow(old(store).apps[id], r.stage, store.apps[id].lastError))
              && (r.stage == CurrentRestored <==> Deploys(old(calls), old(store).apps[id].desired))
              && (r.stage == NotRestored ==> failure < store.apps[id].lastError)
              && (r.stage == CurrentRestored ==> store.apps[id].lastError == failure)
              && LastVerb(log, id) == VerbAfterDeploy(old(calls), old(store).apps[id].desired, LastVerb(old(log), id))
    {
      var desired := store.apps[id].desired;
      var restored := RedeployCurrent(id, desired);
      if restored {
        PutObserved(id, Matching(desired), failure);
      } else {
        PutObserved(id, Failed, failure + "; restoring current release also failed: " + Message(Last(calls)));
      }
      return RollbackFailed(if restored then CurrentRestored else NotRestored);
    }

    /** reconcileStoppedDesired: after a good deploy, stop an app that should be stopped. */
    method ReconcileStopped(id: Id) returns (r: Result)
      requires Valid() && id in store.apps && store.apps[id].observed == Provisioning
      requires LastVerb(log, id) == Some(Deploy)
      modifies this`store, this`log, this`calls
      ensures Valid() && OnlyAbout(old(log), log, id)
      ensures r == if old(store).apps[id].desired == WantStopped && !reply(old(calls)).Good?
                   then RollbackFailed(NotStopped) else Ok
      ensures LastVerb(log, id) == Some(if old(store).apps[id].desired == WantStopped && r == Ok then Stop else Deploy)
      ensures r != Ok ==> id in store.apps && store.apps[id].lastError == Message(old(calls))
      ensures r == Ok ==> store == old(store) && Claims(Matching(store.apps[id].desired), LastVerb(log, id))
      ensures r != Ok ==> id in store.apps
                          && store == WithRow(old(store), id, RollbackRow(old(store).apps[id], NotStopped, store.apps[id].lastError))
    {
      if store.apps[id].desired != WantStopped {
        return Ok;
      }
      ghost var was := log;
      var ok := Run(id, Stop);
      LoggedFacts(was, ok, id, Stop);
      LogStep(store, was, log, nextId, id, doubted);
      if ok {
        return Ok;
      }
      PutObserved(id, Running, Message(calls - 1));
      return RollbackFailed(NotStopped);
    }

    /** The environment and a deploy, on a row marked provisioning. */
    method DeployAgain(id: Id) returns (ok: bool)
      requires Valid() && id in store.apps && store.apps[id].observed == Provisioning
      modifies this`log, this`calls
      ensures Valid() && OnlyAbout(old(log), log, id)
      ensures ok <==> Attempt(old(calls)) == Ok
      ensures LastVerb(log, id) == if ok then Some(Deploy) else LastVerb(old(log), id)
      ensures calls == DeployCall(old(calls)) + 1
    {
      ghost var was := log;
      ok := EnvFor();
      if ok {
        ok := Run(id, Deploy);
      }
      LoggedFacts(was, ok, id, Deploy);
      LogStep(store, was, log, nextId, id, doubted);
    }

    /** The outside calls of a rollback, on a row marked provisioning, and the row they
        lead to; the release pointers are not its business. */
    method RollbackCalls(id: Id) returns (r: Result)
      requires Valid() && id in store.apps && store.apps[id].observed == Provisioning
      modifies this`store, this`log, this`calls
      ensures Valid() && OnlyAbout(old(log), log, id)
      ensures r == Ok || r.RollbackFailed?
      ensures Calls(old(calls), old(store).apps[id].desired, r)
      ensures LastVerb(log, id) == VerbAfterRollback(old(calls), old(store).apps[id].desired, LastVerb(old(log), id))
      ensures r == Ok ==> store == old(store) && Claims(Matching(store.apps[id].desired), LastVerb(log, id))
      ensures r != Ok ==> id in store.apps
                          && store == WithRow(old(store), id, RollbackRow(old(store).apps[id], r.stage, store.apps[id].lastError))
                          && Recorded(old(calls), r.stage, store.apps[id].lastError)
    {
      var ok := DeployAgain(id);
      if ok {
        r := ReconcileStopped(id);
      } else {
        r := RecoverCurrent(id, Message(calls - 1));
      }
    }

    /** From call `c` on, the outside deploys and, for an app that should be stopped,
        stops again. */
    predicate Deploys(c: nat, desired: Desired)
    {
      Attempt(c) == Ok && (desired == WantStopped ==> reply(c + 2).Good?)
    }

    /** The last outside call of an environment and a deploy call from `c` on. */
    function DeployCall(c: nat): nat
    {
      if reply(c).Good? then c + 1 else c
    }

    /** The runner's last verb after a deploy, and for an app that should be stopped a
        stop, from call `c` on. */
    ghost function VerbAfterDeploy(c: nat, desired: Desired, before: Option<Verb>): Option<Verb>
    {
      if Attempt(c) != Ok then before
      else if desired == WantStopped && reply(c + 2).Good? then Some(Stop)
      else Some(Deploy)
    }

    /** And after a rollback, which goes back to the current release if it cannot deploy
        the previous one. */
    ghost function VerbAfterRollback(c: nat, desired: Desired, before: Option<Verb>): Option<Verb>
    {
      VerbAfterDeploy(if Attempt(c) == Ok then c else DeployCall(c) + 1, desired, before)
    }

    /** Of the two deploys of a rollback from call `c` on, the one that succeeded, if one
        did, was not followed by a stop that succeeded. */
    predicate LeftDeployed(c: nat)
    {
      if Attempt(c) == Ok then !reply(c + 2).Good?
      else Attempt(DeployCall(c) + 1) == Ok && !reply(DeployCall(c) + 3).Good?
    }

    /** Neither deploy succeeded. */
    predicate NeverDeployed(c: nat)
    {
      Attempt(c) != Ok && Attempt(DeployCall(c) + 1) != Ok
    }

    /** The message of a failed rollback from call `c` on: what refused the deploy, and
        more if the current release could not be restored; or what refused the stop. */
    predicate Recorded(c: nat, stage: Stage, message: string)
    {
      match stage
      case CurrentRestored => message == Message(DeployCall(c))
      case NotRestored => Message(DeployCall(c)) < message
      case NotStopped => message == Message(c + 2)
    }

    /** Which outside answers lead to which result of a rollback. */
    ghost predicate Calls(c: nat, desired: Desired, r: Result)
    {
      && (r == Ok <==> Deploys(c, desired))
      && (r == RollbackFailed(NotStopped) <==> Attempt(c) == Ok && !Deploys(c, desired))
      && (r == RollbackFailed(CurrentRestored) <==> Attempt(c) != Ok && Deploys(DeployCall(c) + 1, desired))
    }

    method RollbackAllowedApp(id: Id) returns (r: Result)
      requires Valid() && RollbackAllowed(store, id)
      modifies this`store, this`log, this`calls
      ensures Valid()
      ensures r == Ok || r.RollbackFailed?
      ensures Calls(old(calls), old(store).apps[id].desired, r)
      ensures LastVerb(log, id) == VerbAfterRollback(old(calls), old(store).apps[id].desired, LastVerb(old(log), id))
      ensures OnlyAbout(old(log), log, id)
      ensures r == Ok ==> store == RolledBack(old(store), id)
      ensures r != Ok ==> id in store.apps
                          && store == WithRow(old(store), id, RollbackRow(old(store).apps[id], r.stage, store.apps[id].lastError))
                          && Recorded(old(calls), r.stage, store.apps[id].lastError)
    {
      ghost var was := store;
      var rec := store.apps[id];
      var prev := store.releases[rec.previous.value];
      PutObserved(id, Provisioning, "");
      RowTwice(was, id, store.apps[id]);
      ActivateTwice(was, id, store.apps[id]);
      r := RollbackCalls(id);
      if r == Ok {
        RollbackStep(was, old(log), log, nextId, id, doubted);
        store := ActivateRelease(store, id, rec.previous.value, rec.current, prev.digest, Matching(rec.desired));
      }
    }

    /** Rollback: pointers move only when everything succeeded. A failed one keeps both
        releases, and records the desired state or failed, unless the only call that
        failed was the stop of a stack deployed for an app that should be stopped. What
        the runner did last is stated for every outcome; in particular, when exactly an
        app that should be stopped is left running. */
    method Rollback(id: Id) returns (r: Result)
      requires Valid()
      modifies this`store, this`log, this`calls
      ensures Valid()
      ensures RollbackAllowed(old(store), id) <==> r == Ok || r.RollbackFailed?
      ensures !RollbackAllowed(old(store), id) ==>
                r in {NotFound, Conflict, Maintained} && store == old(store) && log == old(log) && calls == old(calls)
      ensures id in old(store).apps && old(store).apps[id].observed == Provisioning ==> r == Conflict
      ensures r == Ok || r.RollbackFailed? <==>
                id in old(store).apps && old(store).apps[id].observed != Provisioning
                && old(store).apps[id].bundle !in old(store).paused && old(store).apps[id].previous.Some?
      ensures r == Ok ==> store == RolledBack(old(store), id)
      ensures r == Ok ==>
                && id in store.apps && Some(store.apps[id].current) == old(store).apps[id].previous
                && store.apps[id].previous == Some(old(store).apps[id].current)
                && store.apps[id].current in old(store).releases
                && store.apps[id].digest == old(store).releases[store.apps[id].current].digest
                && store.apps[id].desired == old(store).apps[id].desired
                && store.apps[id].observed == (if store.apps[id].desired.WantRunning? then Running else Stopped)
      ensures r.RollbackFailed? ==>
                && id in store.apps && SameRelease(store.apps[id], old(store).apps[id])
                && store.apps[id].desired == old(store).apps[id].desired && store.releases == old(store).releases
                && store.apps[id].observed == (match r.stage
                                               case CurrentRestored => (if store.apps[id].desired.WantRunning? then Running else Stopped)
                                               case NotRestored => Failed
                                               case NotStopped => Running)
      ensures r.RollbackFailed? ==>
                && id in store.apps
                && store == WithRow(old(store), id, RollbackRow(old(store).apps[id], r.stage, store.apps[id].lastError))
                && store.apps[id].observed != Provisioning
                && Recorded(old(calls), r.stage, store.apps[id].lastError)
                && (store.apps[id].observed in {Matching(store.apps[id].desired), Failed} <==> r.stage != NotStopped)
      ensures RollbackAllowed(old(store), id) ==> Calls(old(calls), old(store).apps[id].desired, r)
      ensures RollbackAllowed(old(store), id) ==>
                LastVerb(log, id) == VerbAfterRollback(old(calls), old(store).apps[id].desired, LastVerb(old(log), id))
      ensures RollbackAllowed(old(store), id) && old(store).apps[id].desired == WantStopped ==>
                (Claims(Running, LastVerb(log, id)) <==>
                   LeftDeployed(old(calls)) || (NeverDeployed(old(calls)) && Claims(Running, LastVerb(old(log), id))))
      ensures OnlyAbout(old(log), log, id)
    {
      if id !in store.apps {
        return NotFound;
      }
      var rec := store.apps[id];
      assert PointersOk(store, id);
      if rec.observed == Provisioning {
        return Conflict;
      }
      if rec.bundle in store.paused {
        return Maintained;
      }
      if rec.previous.None? {
        return Conflict;
      }
      ghost var was := store;
      r := RollbackAllowedApp(id);
      if r == Ok {
        RolledBackIs(was, id);
      } else {
        RollbackRowIs(was.apps[id], r.stage, store.apps[id].lastError);
      }
    }
  }

  function CatalogAfter(catalog: Catalog, next: Option<Catalog>): Catalog
  {
    if next.Some? then next.value else catalog
  }

  /** What the checks of an install say before anything is claimed. */
  ghost function Claim(s: Store, catalog: Catalog, req: Request): Result
  {
    if req.bundle !in catalog then Invalid
    else if req.bundle in s.paused then Maintained
    else if !WellFormed(req, catalog[req.bundle]) then Invalid
    else if exists a :: a in s.apps && s.apps[a].name == InstallName(req) then AlreadyExists
    else Ok
  }

  /** The row an install claims. */
  function Claimed(id: Id, req: Request): App
  {
    App(InstallName(req), req.bundle, "", WantRunning, Provisioning, Unknown, "", id + 1, None)
  }

  predicate RollbackAllowed(s: Store, id: Id)
  {
    && id in s.apps && s.apps[id].observed != Provisioning
    && s.apps[id].bundle !in s.paused && s.apps[id].previous.Some?
    && s.apps[id].previous.value in s.releases
  }

  function RollbackRow(a: App, stage: Stage, message: string): App
  {
    a.(observed := match stage
                   case CurrentRestored => Matching(a.desired)
                   case NotRestored => Failed
                   case NotStopped => Running,
       health := Unknown, lastError := message)
  }

  /** A successful rollback, field by field. */
  lemma RolledBackIs(s: Store, id: Id)
    requires ReleasesOk(s) && RollbackAllowed(s, id)
    ensures var a, b := s.apps[id], RolledBack(s, id).apps[id];
            && id in RolledBack(s, id).apps
            && Some(b.current) == a.previous && b.previous == Some(a.current)
            && b.current in s.releases && b.digest == s.releases[b.current].digest
            && b.desired == a.desired && b.observed == (if a.desired.WantRunning? then Running else Stopped)
  {
    assert PointersOk(s, id);
  }

  /** The row after a failed one, field by field. */
  lemma RollbackRowIs(a: App, stage: Stage, message: string)
    ensures var b := RollbackRow(a, stage, message);
            && SameRelease(b, a) && b.desired == a.desired && b.lastError == message
            && b.observed == (match stage
                              case CurrentRestored => (if a.desired.WantRunning? then Running else Stopped)
                              case NotRestored => Failed
                              case NotStopped => Running)
  {
  }

  lemma CreateStep(s: Store, log: seq<Action>, id: Id, name: string, bundle: string, doubted: set<Id>)
    requires ValidStore(s, log, id, doubted)
    requires forall a | a in s.apps :: s.apps[a].name != name
    ensures ValidStore(CreateApp(s, id, id + 1, name, bundle), log, id + 2, doubted)
  {
    CreateKeeps(s, id, id + 1, name, bundle);
    StillTruthful(s, log, CreateApp(s, id, id + 1, name, bundle), log, id, doubted);
  }

  /** While a row claims neither running nor stopped, calls for it leave the record true. */
  lemma LogStep(s: Store, log: seq<Action>, log': seq<Action>, next: Id, id: Id, doubted: set<Id>)
    requires ValidStore(s, log, next, doubted) && OnlyAbout(log, log', id)
    requires id in s.apps ==> id in doubted || s.apps[id].observed == Provisioning
    ensures ValidStore(s, log', next, doubted)
  {
    StillTruthful(s, log, s, log', id, doubted);
  }

  lemma RollbackStep(s: Store, log: seq<Action>, log': seq<Action>, next: Id, id: Id, doubted: set<Id>)
    requires ValidStore(s, log, next, doubted) && RollbackAllowed(s, id) && OnlyAbout(log, log', id)
    requires Claims(Matching(s.apps[id].desired), LastVerb(log', id))
    ensures ValidStore(RolledBack(s, id), log', next, doubted)
  {
    RolledBackKeeps(s, id);
    StillTruthful(s, log, RolledBack(s, id), log', id, doubted);
  }

  lemma ActivateTwice(s: Store, id: Id, row: App)
    requires RollbackAllowed(s, id)
    requires row == s.apps[id].(observed := row.observed, health := row.health, lastError := row.lastError)
    ensures var a := s.apps[id];
            ActivateRelease(WithRow(s, id, row), id, a.previous.value, a.current,
                            s.releases[a.previous.value].digest, Matching(a.desired)) == RolledBack(s, id)
  {
    RowTwice(s, id, row);
    var a, t := s.apps[id], WithRow(s, id, row);
    var digest := s.releases[a.previous.value].digest;
    var left := ActivateRelease(t, id, a.previous.value, a.current, digest, Matching(a.desired));
    assert left.apps == RolledBack(s, id).apps;
  }

  // ------------------------------------------------------------- row specifications

  function WithRow(s: Store, id: Id, row: App): Store
  {
    s.(apps := s.apps[id := row])
  }

  predicate SameRelease(a: App, b: App)
  {
    && a.name == b.name && a.bundle == b.bundle
    && a.current == b.current && a.previous == b.previous && a.digest == b.digest
  }

  function Last(calls: nat): nat
  {
    if calls == 0 then 0 else calls - 1
  }

  predicate IsRunning(s: Store, id: Id)
  {
    id in s.apps && s.apps[id].desired == WantRunning && s.apps[id].observed == Running
  }

  function StartRow(a: App, r: Result, message: string): App
  {
    match r
    case Ok =>
      if a.desired == WantRunning && a.observed == Running then a
      else a.(desired := WantRunning, observed := Running, health := Unknown, lastError := "")
    case EnvError => a.(desired := WantRunning)
    case RunnerError => a.(desired := WantRunning, lastError := message)
    case _ => a
  }

  function StopRow(a: App, r: Result, message: string): App
  {
    match r
    case Ok =>
      if a.observed == Stopped then a.(desired := WantStopped)
      else a.(desired := WantStopped, observed := Stopped, health := Unknown, lastError := "")
    case EnvError => a.(desired := WantStopped)
    case RunnerError => a.(desired := WantStopped, lastError := message)
    case _ => a
  }

  function QuiesceRow(a: App, r: Result, message: string): App
  {
    match r
    case Ok =>
      if a.observed == Stopped || a.observed == Absent then a
      else a.(observed := Stopped, health := Unknown, lastError := "")
    case RunnerError => a.(lastError := message)
    case _ => a
  }

  lemma RowAgain(s: Store, id: Id)
    requires id in s.apps
    ensures WithRow(s, id, s.apps[id]) == s
  {
    assert s.apps[id := s.apps[id]] == s.apps;
  }

  lemma RowTwice(s: Store, id: Id, first: App)
    ensures forall row :: WithRow(WithRow(s, id, first), id, row) == WithRow(s, id, row)
  {
    forall row
      ensures WithRow(WithRow(s, id, first), id, row) == WithRow(s, id, row)
    {
      assert s.apps[id := first][id := row] == s.apps[id := row];
    }
  }

  lemma DeleteStep(s: Store, log: seq<Action>, log': seq<Action>, next: Id, id: Id, doubted: set<Id>)
    requires ValidStore(s, log, next, doubted) && OnlyAbout(log, log', id)
    ensures ValidStore(DeleteApp(s, id), log', next, doubted)
  {
    DeleteKeeps(s, id);
    StillTruthful(s, log, DeleteApp(s, id), log', id, doubted);
  }

  lemma PauseStep(s: Store, log: seq<Action>, next: Id, paused: map<string, Reason>, doubted: set<Id>)
    requires ValidStore(s, log, next, doubted)
    ensures ValidStore(s.(paused := paused), log, next, doubted)
  {
    var t := s.(paused := paused);
    forall id | id in t.apps
      ensures PointersOk(t, id) && (id !in doubted ==> RowTruthful(t, log, id))
    {
      assert PointersOk(s, id) && (id !in doubted ==> RowTruthful(s, log, id));
    }
    forall r | r in t.releases
      ensures ReleaseOwned(t, r)
    {
      assert ReleaseOwned(s, r);
    }
  }
}
