/** The system upgrade: a staged source tree, a switch to a generation built from it,
    a health gate, and the exchange that makes the staged tree the canonical one. */
module Upgrade {
  import opened Wrappers

  /** Relative path to contents. */
  type Tree = map<string, string>
  type Generation = nat

  const FLAKE := "flake.nix"
  const HARDWARE := "nix/installed-hardware.nix"
  const LOCAL := "nix/install-local.nix"

  /** Seconds the panel may take, and seconds between two probes. */
  const HEALTH_TIMEOUT := 120
  const HEALTH_INTERVAL := 5

  datatype Probe = Probe(took: nat, up: bool)

  datatype Switching = SwitchOk | SwitchFails(activated: bool)

  /** A rollback reactivates the generation that was active before the switch, or the one
      numbered just below the active one, or some other one, or fails. */
  datatype RollingBack = RollsToPrior | RollsOneBack | RollsTo(generation: Generation) | RollbackError

  /** The generation a rollback from `active` ends on; it stays where it is on an error. */
  function RolledTo(how: RollingBack, prior: Generation, active: Generation): Generation
  {
    match how
    case RollsToPrior => prior
    case RollsOneBack => if active == 0 then 0 else active - 1
    case RollsTo(generation) => generation
    case RollbackError => active
  }

  /** How the outside answers during one run. */
  datatype Env = Env(
    store: Option<Tree>,        // what the flake reference resolves to
    mkdirOk: bool,              // whether a staging directory can be made
    copied: Option<Tree>,       // None: the copy completes; otherwise what it left
    overlayOk: bool,            // whether the two modules can be written
    readBefore: bool,           // whether the profile can be read before the switch,
    readAfter: bool,            // after a failed switch,
    readRestored: bool,         // and after a rollback
    switching: Switching,
    rollingBack: RollingBack,
    probes: nat -> Probe,
    exchangeOk: bool,
    cleanupOk: bool,            // whether the staging directory can be removed
    clearsCandidate: bool,      // whether the two markers can be removed
    clearsAvailable: bool)

  datatype Candidate = Candidate(version: string, flakeRef: string) | Unreadable

  datatype Result =
    | Refused
    | NoPending
    | Healthy
    | SwitchFailed
    | SwitchFailedUnhealthy
    | RollbackFailed
    | RollbackMismatch
    | RolledBack
    | RolledBackUnhealthy
    | HealthRolledBack
    | HealthRollbackFailed
    | PromotionRolledBack
    | PromotionRollbackFailed

  // ---------------------------------------------------------------- health gate

  /** When probe `k` starts, in seconds after the wait began. */
  function ProbeStart(probes: nat -> Probe, k: nat): nat
  {
    if k == 0 then 0 else ProbeStart(probes, k - 1) + probes(k - 1).took + HEALTH_INTERVAL
  }

  /** Some probe that starts before the deadline finds the panel up. */
  ghost predicate PanelComesUp(probes: nat -> Probe)
  {
    exists k: nat :: ProbeStart(probes, k) < HEALTH_TIMEOUT && probes(k).up
  }

  lemma {:induction false} ProbesAdvance(probes: nat -> Probe, j: nat, k: nat)
    requires j <= k
    ensures ProbeStart(probes, j) + (k - j) * HEALTH_INTERVAL <= ProbeStart(probes, k)
    decreases k
  {
    if j < k {
      ProbesAdvance(probes, j, k - 1);
    }
  }

  /** Probes that answer at once start every five seconds; slower ones push the later
      ones back by as much as they take. */
  lemma {:induction false} ProbeTimes(probes: nat -> Probe, delay: nat, k: nat)
    requires forall i: nat | i < k :: probes(i).took == delay
    ensures ProbeStart(probes, k) == k * (delay + 5)
  {
    if k > 0 {
      ProbeTimes(probes, delay, k - 1);
      assert k * (delay + 5) == (k - 1) * (delay + 5) + (delay + 5);
    }
  }

  /** waitPanelHealthy, with the number of probes it made. */
  method WaitPanelHealthy(probes: nat -> Probe) returns (healthy: bool, made: nat)
    ensures healthy <==> PanelComesUp(probes)
    ensures made <= 24
    ensures forall k: nat | k + 1 < made :: !probes(k).up
    ensures if healthy then made > 0 && probes(made - 1).up && ProbeStart(probes, made - 1) < 120
            else (made > 0 ==> !probes(made - 1).up) && ProbeStart(probes, made) >= 120
  {
    var now, deadline := 0, HEALTH_TIMEOUT;
    made := 0;
    while now < deadline
      invariant now == ProbeStart(probes, made) && made * HEALTH_INTERVAL <= now && made <= 24
      invariant forall k: nat | k < made :: !probes(k).up
      decreases deadline - now
    {
      var p := probes(made);
      made := made + 1;
      if p.up {
        assert ProbeStart(probes, made - 1) < HEALTH_TIMEOUT && probes(made - 1).up;
        return true, made;
      }
      now := now + p.took + HEALTH_INTERVAL;
    }
    forall k: nat | ProbeStart(probes, k) < HEALTH_TIMEOUT
      ensures !probes(k).up
    {
      if k >= made {
        ProbesAdvance(probes, made, k);
      }
    }
    healthy := false;
  }

  // ------------------------------------------------------------------------ host

  /** The two machine modules of `current` over the tree `store`. */
  function Overlay(store: Tree, current: Tree): Tree
    requires HARDWARE in current && LOCAL in current
  {
    store[HARDWARE := current[HARDWARE]][LOCAL := current[LOCAL]]
  }

  /** `tree` is the release `store` with the two machine modules of `current`, path by path. */
  ghost predicate HoldsRelease(tree: Tree, store: Tree, current: Tree)
  {
    && (forall p | p != "nix/installed-hardware.nix" && p != "nix/install-local.nix" ::
          (p in tree <==> p in store) && (p in tree ==> tree[p] == store[p]))
    && (forall p | p in {"nix/installed-hardware.nix", "nix/install-local.nix"} ::
          p in tree && p in current && tree[p] == current[p])
  }

  lemma OverlayHolds(store: Tree, current: Tree)
    requires HARDWARE in current && LOCAL in current
    ensures HoldsRelease(Overlay(store, current), store, current)
  {
  }

  predicate Complete(tree: Tree)
  {
    FLAKE in tree && HARDWARE in tree && LOCAL in tree
  }

  class Host {
    var canonical: Option<Tree>
    /** Staging directories that could not be removed. */
    var leftovers: seq<Tree>
    /** The source tree each generation was built from. */
    var builtFrom: map<Generation, Tree>
    var active: Generation
    var nextGeneration: Generation
    var candidate: Option<Candidate>
    var available: bool
    ghost var rollbacks: nat

    constructor (canonical: Option<Tree>, builtFrom: map<Generation, Tree>, active: Generation, next: Generation,
                 candidate: Option<Candidate>, available: bool)
      requires 0 < next && forall g | g in builtFrom :: g < next
      ensures Valid() && this.canonical == canonical && this.builtFrom == builtFrom && this.active == active
      ensures this.nextGeneration == next && this.candidate == candidate && this.available == available
      ensures leftovers == [] && rollbacks == 0
    {
      this.canonical, this.leftovers, this.builtFrom, this.active := canonical, [], builtFrom, active;
      this.nextGeneration, this.candidate, this.available, this.rollbacks := next, candidate, available, 0;
    }

    /** Generation numbers start at one and are never reused. */
    ghost predicate Valid()
      reads this
    {
      0 < nextGeneration && forall g | g in builtFrom :: g < nextGeneration
    }

    /** The running generation was built from the canonical tree. */
    ghost predicate Agrees()
      reads this
    {
      AgreesWith(canonical, builtFrom, active)
    }

    ghost function Stands(): Standing
      reads this
    {
      StandingAt(canonical, builtFrom, active, nextGeneration)
    }

    /** nixos-rebuild switch. */
    method Switch(tree: Tree, how: Switching) returns (ok: bool)
      requires Valid()
      modifies this`builtFrom, this`active, this`nextGeneration
      ensures Valid()
      ensures ok == how.SwitchOk?
      ensures if how == SwitchFails(false)
              then active == old(active) && builtFrom == old(builtFrom) && nextGeneration == old(nextGeneration)
              else active == old(nextGeneration) && nextGeneration == old(nextGeneration) + 1
                   && builtFrom == old(builtFrom)[old(nextGeneration) := tree]
    {
      ok := how.SwitchOk?;
      if how != SwitchFails(false) {
        builtFrom := builtFrom[nextGeneration := tree];
        active := nextGeneration;
        nextGeneration := nextGeneration + 1;
      }
    }

    /** nixos-rebuild switch --rollback; `prior` was active before the switch. */
    method RollBack(how: RollingBack, prior: Generation) returns (ok: bool)
      modifies this`active, this`rollbacks
      ensures ok == !how.RollbackError?
      ensures active == RolledTo(how, prior, old(active))
      ensures rollbacks == old(rollbacks) + 1
    {
      rollbacks := rollbacks + 1;
      ok := !how.RollbackError?;
      active := RolledTo(how, prior, active);
    }

    /** rollbackToPriorGeneration, after a failed switch. `captured` is the generation
        read before the switch, if it could be read. */
    method RollbackToPrior(captured: Option<Generation>, env: Env, prior: Generation) returns (r: Result)
      modifies this`active, this`rollbacks
      ensures r in {SwitchFailed, SwitchFailedUnhealthy, RollbackFailed, RollbackMismatch, RolledBack, RolledBackUnhealthy}
      ensures r == SwitchFailed ==> active == old(active) && rollbacks == old(rollbacks) && PanelComesUp(env.probes)
      ensures r == SwitchFailedUnhealthy ==> active == old(active) && rollbacks == old(rollbacks) && !PanelComesUp(env.probes)
      ensures r in {SwitchFailed, SwitchFailedUnhealthy} <==> env.readAfter && captured == Some(old(active))
      ensures r == RolledBack ==> rollbacks == old(rollbacks) + 1 && PanelComesUp(env.probes)
      ensures r == RolledBackUnhealthy ==> rollbacks == old(rollbacks) + 1 && !PanelComesUp(env.probes)
      ensures r in {RolledBack, RolledBackUnhealthy} && env.readRestored && captured.Some? ==> active == captured.value
      ensures r == RollbackMismatch <==> !(env.readAfter && captured == Some(old(active)))
                                         && !env.rollingBack.RollbackError? && env.readRestored && captured.Some?
                                         && RolledTo(env.rollingBack, prior, old(active)) != captured.value
      ensures r == RollbackFailed <==> !(env.readAfter && captured == Some(old(active))) && env.rollingBack.RollbackError?
      ensures r !in {SwitchFailed, SwitchFailedUnhealthy} ==> active == RolledTo(env.rollingBack, prior, old(active))
    {
      var healthy, made;
      if env.readAfter && captured == Some(active) {
        healthy, made := WaitPanelHealthy(env.probes);
        return if healthy then SwitchFailed else SwitchFailedUnhealthy;
      }
      var ok := RollBack(env.rollingBack, prior);
      if !ok {
        return RollbackFailed;
      }
      if env.readRestored && captured.Some? && active != captured.value {
        return RollbackMismatch;
      }
      healthy, made := WaitPanelHealthy(env.probes);
      return if healthy then RolledBack else RolledBackUnhealthy;
    }

    /** What a failed switch comes to: the generation before it, unless the result says
        otherwise or the profile could not be read. */
    method UndoSwitch(captured: Option<Generation>, env: Env, prior: Generation) returns (r: Result)
      requires captured == if env.readBefore then Some(prior) else None
      modifies this`active, this`rollbacks
      ensures Readable(env) ==>
                active == if old(active) == prior then prior else RolledTo(env.rollingBack, prior, old(active))
      ensures r in {SwitchFailed, SwitchFailedUnhealthy, RollbackFailed, RollbackMismatch, RolledBack, RolledBackUnhealthy}
      ensures KeepsAgreement(r, env, prior, active) ==> active == prior
      ensures Dependable(env) && !RollbackReported(r) ==> KeepsAgreement(r, env, prior, active)
    {
      r := RollbackToPrior(captured, env, prior);
    }

    /** The switch, and after a failed one what comes of it. */
    method SwitchOrUndo(staging: Tree, env: Env) returns (failure: Option<Result>)
      requires Valid()
      modifies this`builtFrom, this`active, this`nextGeneration, this`rollbacks
      ensures Valid()
      ensures if env.switching == SwitchFails(false)
              then builtFrom == old(builtFrom) && nextGeneration == old(nextGeneration)
              else builtFrom == old(builtFrom)[old(nextGeneration) := staging] && nextGeneration == old(nextGeneration) + 1
      ensures failure.None? <==> env.switching.SwitchOk?
      ensures failure.None? ==> active == old(nextGeneration) && rollbacks == old(rollbacks)
      ensures failure.Some? && Readable(env) && env.switching == SwitchFails(false) ==> active == old(active)
      ensures failure.Some? && Readable(env) && env.switching == SwitchFails(true) && old(active) < old(nextGeneration) ==>
                active == RolledTo(env.rollingBack, old(active), old(nextGeneration))
      ensures failure.Some? ==>
                && failure.value in {SwitchFailed, SwitchFailedUnhealthy, RollbackFailed, RollbackMismatch, RolledBack, RolledBackUnhealthy}
                && (KeepsAgreement(failure.value, env, old(active), active) ==> active == old(active))
                && (Dependable(env) && !RollbackReported(failure.value) ==> KeepsAgreement(failure.value, env, old(active), active))
    {
      var captured := if env.readBefore then Some(active) else None;
      var before := active;
      var ok := Switch(staging, env.switching);
      if ok {
        return None;
      }
      var r := UndoSwitch(captured, env, before);
      return Some(r);
    }

    /** The copy of the resolved tree with the two machine modules laid over it. */
    method Stage(store: Tree, env: Env) returns (ok: bool, staging: Tree)
      requires canonical.Some? && Complete(canonical.value)
      ensures ok ==> staging == Overlay(store, canonical.value) && HoldsRelease(staging, store, canonical.value)
      ensures ok <==> env.copied.None? && env.overlayOk
    {
      if env.copied.Some? {
        return false, env.copied.value;
      }
      staging := store;
      if !env.overlayOk {
        return false, staging;
      }
      var modules := [HARDWARE, LOCAL];
      for i := 0 to 2
        invariant staging == if i == 0 then store
                             else if i == 1 then store[HARDWARE := canonical.value[HARDWARE]]
                             else Overlay(store, canonical.value)
      {
        staging := staging[modules[i] := canonical.value[modules[i]]];
      }
      OverlayHolds(store, canonical.value);
      ok := true;
    }

    /** The switch, the health gate and the promotion, from a staged tree. */
    method SwitchAndPromote(staging: Tree, env: Env) returns (r: Result, left: Tree)
      requires Valid() && canonical.Some?
      modifies this`canonical, this`builtFrom, this`active, this`nextGeneration, this`rollbacks
      ensures Valid() && r !in {Refused, NoPending}
      ensures if env.switching == SwitchFails(false)
              then builtFrom == old(builtFrom) && nextGeneration == old(nextGeneration)
              else builtFrom == old(builtFrom)[old(nextGeneration) := staging] && nextGeneration == old(nextGeneration) + 1
      ensures r == HealthRolledBack <==> env.switching.SwitchOk? && !PanelComesUp(env.probes) && !env.rollingBack.RollbackError?
      ensures env.switching.SwitchOk? && !Succeeds(env) ==> r == Rejected(env)
      ensures Readable(env) && old(active) < old(nextGeneration) ==>
                active == LandsOn(env, old(active), old(nextGeneration))
      ensures canonical == Some(if r == Healthy then staging else old(canonical).value)
      ensures left == if r == Healthy then old(canonical).value else staging
      ensures r == Healthy <==> env.switching.SwitchOk? && PanelComesUp(env.probes) && env.exchangeOk
      ensures r == Healthy ==> Agrees() && rollbacks == old(rollbacks)
      ensures old(Agrees()) && KeepsAgreement(r, env, old(active), active) ==> Agrees()
      ensures Dependable(env) && !RollbackReported(r) ==> KeepsAgreement(r, env, old(active), active)
    {
      left := staging;
      var before := active;
      var failure := SwitchOrUndo(staging, env);
      if failure.Some? {
        return failure.value, left;
      }
      var previous := canonical.value;
      r := GateAndPromote(staging, env, before);
      left := if r == Healthy then previous else staging;
    }

    /** The health gate and the exchange, on a generation that was just activated. */
    method GateAndPromote(staging: Tree, env: Env, before: Generation) returns (r: Result)
      requires canonical.Some?
      modifies this`canonical, this`active, this`rollbacks
      ensures r in {Healthy, HealthRolledBack, HealthRollbackFailed, PromotionRolledBack, PromotionRollbackFailed}
      ensures r == Healthy <==> PanelComesUp(env.probes) && env.exchangeOk
      ensures r in {HealthRolledBack, HealthRollbackFailed} <==> !PanelComesUp(env.probes)
      ensures r in {HealthRolledBack, PromotionRolledBack} <==> r != Healthy && !env.rollingBack.RollbackError?
      ensures canonical == if r == Healthy then Some(staging) else old(canonical)
      ensures active == if r == Healthy then old(active) else RolledTo(env.rollingBack, before, old(active))
      ensures rollbacks == old(rollbacks) + (if r == Healthy then 0 else 1)
    {
      var healthy, _ := WaitPanelHealthy(env.probes);
      if !healthy {
        var ok := RollBack(env.rollingBack, before);
        return if ok then HealthRolledBack else HealthRollbackFailed;
      }
      if !env.exchangeOk {
        var ok := RollBack(env.rollingBack, before);
        return if ok then PromotionRolledBack else PromotionRollbackFailed;
      }
      canonical := Some(staging);
      return Healthy;
    }

    /** Both upgrade commands from the resolved reference on: stage, switch, promote,
        and in every case try to remove the staging directory. */
    method UpgradeTo(env: Env) returns (r: Result)
      requires Valid() && canonical.Some? && Complete(canonical.value)
      modifies this`canonical, this`leftovers, this`builtFrom, this`active, this`nextGeneration, this`rollbacks
      ensures Valid() && r != NoPending
      ensures forall g | g in old(builtFrom) :: g in builtFrom && builtFrom[g] == old(builtFrom)[g]
      ensures r == Refused <==> env.store.None? || !env.mkdirOk || env.copied.Some? || !env.overlayOk
      ensures r == Refused ==> active == old(active) && builtFrom == old(builtFrom) && rollbacks == old(rollbacks)
      ensures r != Refused && env.switching != SwitchFails(false) ==>
                builtFrom == old(builtFrom)[old(nextGeneration) := Overlay(env.store.value, old(canonical).value)]
                && nextGeneration == old(nextGeneration) + 1
      ensures r == HealthRolledBack <==> r != Refused && env.switching.SwitchOk? && !PanelComesUp(env.probes)
                                         && !env.rollingBack.RollbackError?
      ensures r == Healthy <==> r != Refused && Succeeds(env)
      ensures r != Refused && env.switching.SwitchOk? && !Succeeds(env) ==> r == Rejected(env)
      ensures r != Refused && Readable(env) && old(active) < old(nextGeneration) ==>
                active == LandsOn(env, old(active), old(nextGeneration))
      ensures r != Refused && env.switching == SwitchFails(false) ==>
                builtFrom == old(builtFrom) && nextGeneration == old(nextGeneration)
      ensures r == Refused ==> nextGeneration == old(nextGeneration)
      ensures r != Healthy ==> canonical == old(canonical)
      ensures r == Healthy ==> env.store.Some? && canonical == Some(Overlay(env.store.value, old(canonical).value))
      ensures r == Healthy ==> Agrees() && PanelComesUp(env.probes)
      ensures env.cleanupOk ==> leftovers == old(leftovers)
      ensures old(leftovers) <= leftovers
      ensures old(Agrees()) && KeepsAgreement(r, env, old(active), active) ==> Agrees()
      ensures Dependable(env) && !RollbackReported(r) ==> KeepsAgreement(r, env, old(active), active)
    {
      if env.store.None? || !env.mkdirOk {
        return Refused;
      }
      var ok, staging := Stage(env.store.value, env);
      if ok {
        r, staging := SwitchAndPromote(staging, env);
      } else {
        r := Refused;
      }
      if !env.cleanupOk {
        leftovers := leftovers + [staging];
      }
    }

    /** The same, with what it makes of the standing of the host. */
    method UpgradeStanding(env: Env) returns (r: Result)
      requires Valid() && CanonicalComplete(canonical)
      modifies this`canonical, this`leftovers, this`builtFrom, this`active, this`nextGeneration, this`rollbacks
      ensures Valid() && Outcome(old(canonical), old(builtFrom), old(active), old(leftovers), env, r)
      ensures r != NoPending && (r == Refused <==> !Stageable(env))
      ensures r == Healthy <==> Stageable(env) && Succeeds(env)
      ensures Predictable(env) && old(active) < old(nextGeneration) ==>
                active < nextGeneration && Stands() == StandAfter(old(Stands()), env)
    {
      ghost var canonical0, builtFrom0, active0, next0 := canonical, builtFrom, active, nextGeneration;
      r := UpgradeTo(env);
      if r == Healthy {
        OverlayHolds(env.store.value, canonical0.value);
      }
      if Predictable(env) && active0 < next0 {
        Stood(canonical0, builtFrom0, active0, next0, canonical, builtFrom, active, nextGeneration, env);
      }
    }

    /** runSystemUpgradeRef: an explicit flake reference; the markers are not its business. */
    method UpgradeRef(env: Env) returns (r: Result)
      requires Valid()
      modifies this`canonical, this`leftovers, this`builtFrom, this`active, this`nextGeneration, this`rollbacks
      ensures Valid() && Outcome(old(canonical), old(builtFrom), old(active), old(leftovers), env, r)
      ensures r != NoPending && (r == Refused <==> !Starts(old(canonical), env))
      ensures old(canonical).None? || !({"flake.nix", "nix/installed-hardware.nix", "nix/install-local.nix"} <= old(canonical).value.Keys) ==>
                r == Refused
      ensures Predictable(env) && old(active) < old(nextGeneration) ==>
                active < nextGeneration && Stands() == StandAfter(old(Stands()), env)
    {
      if canonical.None? || !Complete(canonical.value) {
        return Refused;
      }
      r := UpgradeStanding(env);
    }

    /** The upgrade to an admissible candidate, and its markers. */
    method UpgradeCandidate(env: Env) returns (r: Result)
      requires Valid() && CanonicalComplete(canonical)
      modifies this`canonical, this`leftovers, this`builtFrom, this`active, this`nextGeneration, this`rollbacks,
               this`candidate, this`available
      ensures Valid() && Outcome(old(canonical), old(builtFrom), old(active), old(leftovers), env, r)
      ensures r != NoPending
      ensures candidate == if r == Healthy && env.clearsCandidate then None else old(candidate)
      ensures available == (old(available) && !(r == Healthy && env.clearsAvailable))
      ensures Predictable(env) && old(active) < old(nextGeneration) ==>
                active < nextGeneration && Stands() == StandAfter(old(Stands()), env)
      ensures r == Healthy <==> Stageable(env) && Succeeds(env)
    {
      r := UpgradeStanding(env);
      if r == Healthy {
        ClearMarkers(env);
      }
    }

    /** runSystemUpgrade: the pending candidate; its markers go only when all is well. */
    method UpgradePending(env: Env) returns (r: Result)
      requires Valid()
      modifies this`canonical, this`leftovers, this`builtFrom, this`active, this`nextGeneration, this`rollbacks,
               this`candidate, this`available
      ensures Valid() && Outcome(old(canonical), old(builtFrom), old(active), old(leftovers), env, r)
      ensures r == NoPending <==> CanonicalComplete(old(canonical)) && old(candidate).None?
      ensures old(canonical).None? || !({"flake.nix", "nix/installed-hardware.nix", "nix/install-local.nix"} <= old(canonical).value.Keys) ==>
                r == Refused
      ensures r !in {Refused, NoPending} ==>
                old(candidate).Some? && old(candidate).value.Candidate?
                && old(candidate).value.version != "" && old(candidate).value.flakeRef != ""
      ensures r == Healthy ==> old(candidate).Some?
      ensures candidate == if r == Healthy && env.clearsCandidate then None else old(candidate)
      ensures available == (old(available) && !(r == Healthy && env.clearsAvailable))
      ensures !Admissible(old(candidate)) ==>
                r in {Refused, NoPending} && Stands() == old(Stands())
                && active == old(active) && nextGeneration == old(nextGeneration)
      ensures Predictable(env) && old(active) < old(nextGeneration) && Admissible(old(candidate)) ==>
                active < nextGeneration && Stands() == StandAfter(old(Stands()), env)
      ensures Admissible(old(candidate)) ==> (r == Healthy <==> Starts(old(canonical), env) && Succeeds(env))
    {
      if canonical.None? || !Complete(canonical.value) {
        return Refused;
      }
      if candidate.None? {
        return NoPending;
      }
      if candidate.value.Unreadable? || candidate.value.version == "" || candidate.value.flakeRef == "" {
        return Refused;
      }
      r := UpgradeCandidate(env);
    }

    /** The two markers of a pending update, as far as they can be removed. */
    method ClearMarkers(env: Env)
      modifies this`candidate, this`available
      ensures candidate == if env.clearsCandidate then None else old(candidate)
      ensures available == (old(available) && !env.clearsAvailable)
    {
      candidate := if env.clearsCandidate then None else candidate;
      available := available && !env.clearsAvailable;
    }

    /** What a run of either command may have changed. */
    ghost predicate Outcome(canonical0: Option<Tree>, builtFrom0: map<Generation, Tree>, active0: Generation,
                            leftovers0: seq<Tree>, env: Env, r: Result)
      reads this
    {
      OutcomeAt(canonical0, builtFrom0, active0, leftovers0, env, r, canonical, builtFrom, active, leftovers)
    }

    /** Which results keep the agreement between the running generation and the
        canonical tree, given the active generation before and after the run. */
    static ghost predicate KeepsAgreement(r: Result, env: Env, before: Generation, after: Generation)
    {
      match r
      case RollbackFailed => false
      case RollbackMismatch => false
      case HealthRollbackFailed => false
      case PromotionRollbackFailed => false
      case RolledBack => (env.readBefore && env.readRestored) || after == before
      case RolledBackUnhealthy => (env.readBefore && env.readRestored) || after == before
      case HealthRolledBack => after == before
      case PromotionRolledBack => after == before
      case _ => true
    }
  }

  ghost predicate OutcomeAt(canonical0: Option<Tree>, builtFrom0: map<Generation, Tree>, active0: Generation,
                            leftovers0: seq<Tree>, env: Env, r: Result,
                            canonical: Option<Tree>, builtFrom: map<Generation, Tree>, active: Generation, leftovers: seq<Tree>)
  {
    && (forall g | g in builtFrom0 :: g in builtFrom && builtFrom[g] == builtFrom0[g])
    && (r in {Refused, NoPending} ==> active == active0)
    && (r != Healthy ==> canonical == canonical0)
    && (r == Healthy ==> CanonicalComplete(canonical0) && env.store.Some?
                         && canonical == Some(Overlay(env.store.value, canonical0.value))
                         && HoldsRelease(canonical.value, env.store.value, canonical0.value)
                         && PanelComesUp(env.probes) && AgreesWith(canonical, builtFrom, active))
    && (env.cleanupOk ==> leftovers == leftovers0)
    && (AgreesWith(canonical0, builtFrom0, active0) && Host.KeepsAgreement(r, env, active0, active) ==>
          AgreesWith(canonical, builtFrom, active))
    && (Dependable(env) && !RollbackReported(r) ==> Host.KeepsAgreement(r, env, active0, active))
    && (r !in {Refused, NoPending} && env.switching.SwitchOk? && !Succeeds(env) ==> r == Rejected(env))
  }

  predicate Readable(env: Env)
  {
    env.readBefore && env.readAfter && env.readRestored
  }

  /** The environment the source assumes: readable profiles, and a rollback that either
      reactivates the generation before the switch or fails. */
  predicate Dependable(env: Env)
  {
    Readable(env) && (env.rollingBack.RollsToPrior? || env.rollingBack.RollbackError?)
  }

  /** A staged tree can be made. */
  predicate Stageable(env: Env)
  {
    env.store.Some? && env.mkdirOk && env.copied.None? && env.overlayOk
  }

  /** A staged tree is switched to, found healthy and promoted. */
  ghost predicate Succeeds(env: Env)
  {
    env.switching.SwitchOk? && PanelComesUp(env.probes) && env.exchangeOk
  }

  /** The result of a switched but not promoted run: which gate it failed, and whether its
      rollback did. */
  ghost function Rejected(env: Env): Result
  {
    if PanelComesUp(env.probes)
    then (if env.rollingBack.RollbackError? then PromotionRollbackFailed else PromotionRolledBack)
    else (if env.rollingBack.RollbackError? then HealthRollbackFailed else HealthRolledBack)
  }

  /** The active generation after a run that staged a tree, with readable profiles. */
  ghost function LandsOn(env: Env, before: Generation, next: Generation): Generation
  {
    if env.switching == SwitchFails(false) then before
    else if Succeeds(env) then next
    else RolledTo(env.rollingBack, before, next)
  }

  /** Readable profiles, and a rollback whose goal the numbers alone give. */
  predicate Predictable(env: Env)
  {
    Readable(env) && !env.rollingBack.RollsTo?
  }

  predicate Admissible(candidate: Option<Candidate>)
  {
    candidate.Some? && candidate.value.Candidate? && candidate.value.version != "" && candidate.value.flakeRef != ""
  }

  predicate Starts(canonical: Option<Tree>, env: Env)
  {
    CanonicalComplete(canonical) && Stageable(env)
  }

  // -------------------------------------------------------------------- standing

  /** The canonical tree, whether the newest generation was built from it, and whether
      the running one was. */
  datatype Standing = Standing(canonical: Option<Tree>, newest: bool, agrees: bool)

  ghost function StandingAt(canonical: Option<Tree>, builtFrom: map<Generation, Tree>, active: Generation, next: Generation): Standing
  {
    Standing(canonical, next > 0 && AgreesWith(canonical, builtFrom, next - 1), AgreesWith(canonical, builtFrom, active))
  }

  /** What a run makes of it. A rejected generation is always the newest one. */
  ghost function StandAfter(s: Standing, env: Env): Standing
  {
    if !Starts(s.canonical, env) || env.switching == SwitchFails(false) then s
    else
      var staged := Overlay(env.store.value, s.canonical.value);
      if Succeeds(env) then Standing(Some(staged), true, true)
      else
        var same := staged == s.canonical.value;
        Standing(s.canonical, same,
                 match env.rollingBack
                 case RollsToPrior => s.agrees
                 case RollsOneBack => s.newest
                 case RollsTo(_) => false
                 case RollbackError => same)
  }

  lemma Stood(canonical0: Option<Tree>, builtFrom0: map<Generation, Tree>, active0: Generation, next0: Generation,
              canonical: Option<Tree>, builtFrom: map<Generation, Tree>, active: Generation, next: Generation, env: Env)
    requires Predictable(env) && CanonicalComplete(canonical0) && active0 < next0
    requires !Stageable(env) || env.switching == SwitchFails(false) ==>
               canonical == canonical0 && builtFrom == builtFrom0 && active == active0 && next == next0
    requires Stageable(env) && env.switching != SwitchFails(false) ==>
               var staged := Overlay(env.store.value, canonical0.value);
               && canonical == (if Succeeds(env) then Some(staged) else canonical0)
               && builtFrom == builtFrom0[next0 := staged] && next == next0 + 1
               && active == LandsOn(env, active0, next0)
    ensures active < next
    ensures StandingAt(canonical, builtFrom, active, next) == StandAfter(StandingAt(canonical0, builtFrom0, active0, next0), env)
  {
  }

  /** The results that report a failed or mismatched rollback. */
  predicate RollbackReported(r: Result)
  {
    r in {RollbackFailed, RollbackMismatch, HealthRollbackFailed, PromotionRollbackFailed}
  }

  predicate CanonicalComplete(canonical: Option<Tree>)
  {
    canonical.Some? && Complete(canonical.value)
  }

  ghost predicate AgreesWith(canonical: Option<Tree>, builtFrom: map<Generation, Tree>, active: Generation)
  {
    canonical.Some? && active in builtFrom && builtFrom[active] == canonical.value
  }

  // ------------------------------------------------------------------------ runs

  /** The two machine modules of one tree, as in another. */
  ghost predicate SameModules(a: Option<Tree>, b: Option<Tree>)
  {
    && (a.Some? <==> b.Some?)
    && (a.Some? ==>
          && (HARDWARE in a.value <==> HARDWARE in b.value) && (LOCAL in a.value <==> LOCAL in b.value)
          && (HARDWARE in a.value ==> a.value[HARDWARE] == b.value[HARDWARE])
          && (LOCAL in a.value ==> a.value[LOCAL] == b.value[LOCAL]))
  }

  /** One upgrade of either kind. */
  method RunUpgrade(h: Host, env: Env, pending: bool) returns (r: Result)
    requires h.Valid()
    modifies h
    ensures h.Valid()
    ensures r != Healthy ==> h.canonical == old(h.canonical)
    ensures r == Healthy ==> FromStore(h.canonical, env, old(h.canonical))
    ensures r == Healthy ==> HoldsRelease(h.canonical.value, env.store.value, old(h.canonical).value)
    ensures env.cleanupOk ==> h.leftovers == old(h.leftovers)
    ensures !(pending && r == Healthy) ==> h.candidate == old(h.candidate) && h.available == old(h.available)
    ensures old(h.Agrees()) && Dependable(env) && !RollbackReported(r) ==> h.Agrees()
    ensures Predictable(env) && old(h.active) < old(h.nextGeneration) ==>
              h.active < h.nextGeneration
              && StateOf(h) == StateAfter(old(StateOf(h)), env, pending)
  {
    if pending {
      r := h.UpgradePending(env);
    } else {
      r := h.UpgradeRef(env);
    }
  }

  /** A tree made from `env` keeps the modules of the tree before it. */
  lemma ModulesKept(initial: Option<Tree>, before: Option<Tree>, after: Option<Tree>, env: Env)
    requires SameModules(initial, before) && FromStore(after, env, before)
    ensures SameModules(initial, after) && FromStore(after, env, initial)
    ensures HoldsRelease(after.value, env.store.value, initial.value)
  {
    OverlayHolds(env.store.value, initial.value);
  }

  /** Any sequence of upgrades of either kind: the machine modules never change, the
      canonical tree is the initial one or a whole staged one, the markers go only with
      a healthy pending upgrade, and the running generation keeps agreeing with the
      canonical tree while no run reports a failed rollback. */
  method RunUpgrades(h: Host, envs: seq<Env>, pending: seq<bool>) returns (results: seq<Result>)
    requires h.Valid() && |pending| == |envs|
    modifies h
    ensures h.Valid() && |results| == |envs|
    ensures SameModules(old(h.canonical), h.canonical)
    ensures h.canonical == old(h.canonical)
            || exists i :: 0 <= i < |envs| && results[i] == Healthy && FromStore(h.canonical, envs[i], old(h.canonical))
                           && HoldsRelease(h.canonical.value, envs[i].store.value, old(h.canonical).value)
    ensures (forall env | env in envs :: env.cleanupOk) ==> h.leftovers == old(h.leftovers)
    ensures (forall i | 0 <= i < |envs| :: !(pending[i] && results[i] == Healthy)) ==>
              h.candidate == old(h.candidate) && h.available == old(h.available)
    ensures old(h.Agrees()) && (forall env | env in envs :: Dependable(env)) && (forall r | r in results :: !RollbackReported(r)) ==>
              h.Agrees()
  {
    results := [];
    for i := 0 to |envs|
      invariant h.Valid() && |results| == i
      invariant SameModules(old(h.canonical), h.canonical)
      invariant h.canonical == old(h.canonical)
                || exists j :: 0 <= j < i && results[j] == Healthy && FromStore(h.canonical, envs[j], old(h.canonical))
                               && HoldsRelease(h.canonical.value, envs[j].store.value, old(h.canonical).value)
      invariant (forall env | env in envs :: env.cleanupOk) ==> h.leftovers == old(h.leftovers)
      invariant (forall j | 0 <= j < i :: !(pending[j] && results[j] == Healthy)) ==>
                  h.candidate == old(h.candidate) && h.available == old(h.available)
      invariant (old(h.Agrees()) && (forall env | env in envs :: Dependable(env))
                 && (forall j | 0 <= j < i :: !RollbackReported(results[j]))) ==> h.Agrees()
    {
      ghost var before, canonical := results, h.canonical;
      assert envs[i] in envs;
      var r := RunUpgrade(h, envs[i], pending[i]);
      if r == Healthy {
        ModulesKept(old(h.canonical), canonical, h.canonical, envs[i]);
      }
      results := results + [r];
      assert forall j | 0 <= j < i :: results[j] == before[j];
      assert results[i] == r;
    }
  }

  /** `canonical` is the tree `env` resolved, with the machine modules of `initial`. */
  ghost predicate FromStore(canonical: Option<Tree>, env: Env, initial: Option<Tree>)
  {
    && CanonicalModules(initial) && env.store.Some?
    && canonical == Some(Overlay(env.store.value, initial.value))
  }

  predicate CanonicalModules(canonical: Option<Tree>)
  {
    canonical.Some? && HARDWARE in canonical.value && LOCAL in canonical.value
  }

  /** Standing and pending candidate together. */
  datatype State = State(standing: Standing, candidate: Option<Candidate>)

  ghost function StateOf(h: Host): State
    reads h
  {
    State(h.Stands(), h.candidate)
  }

  ghost function StateAfter(s: State, env: Env, pending: bool): State
  {
    if pending && !Admissible(s.candidate) then s
    else
      State(StandAfter(s.standing, env),
            if pending && Starts(s.standing.canonical, env) && Succeeds(env) && env.clearsCandidate then None else s.candidate)
  }

  ghost function StateAfterAll(s: State, envs: seq<Env>, pending: seq<bool>): State
    requires |pending| == |envs|
  {
    if envs == [] then s
    else
      var n := |envs| - 1;
      StateAfter(StateAfterAll(s, envs[..n], pending[..n]), envs[n], pending[n])
  }

  /** Over any sequence of upgrades from any host, whichever way rollbacks go, whether the
      running generation agrees with the canonical tree at the end is what the inputs and
      the standing of the host at the start say. */
  method RunPredictably(h: Host, envs: seq<Env>, pending: seq<bool>)
    requires h.Valid() && h.active < h.nextGeneration && |pending| == |envs|
    requires forall env | env in envs :: Predictable(env)
    modifies h
    ensures h.Valid() && h.active < h.nextGeneration
    ensures StateOf(h) == StateAfterAll(old(StateOf(h)), envs, pending)
    ensures h.Agrees() <==> StateAfterAll(old(StateOf(h)), envs, pending).standing.agrees
  {
    for i := 0 to |envs|
      invariant h.Valid() && h.active < h.nextGeneration
      invariant StateOf(h) == StateAfterAll(old(StateOf(h)), envs[..i], pending[..i])
    {
      assert envs[i] in envs;
      assert envs[..i + 1][..i] == envs[..i] && pending[..i + 1][..i] == pending[..i];
      var _ := RunUpgrade(h, envs[i], pending[i]);
    }
    assert envs[..|envs|] == envs && pending[..|pending|] == pending;
  }

  /** A run that rejects the generation it has just activated, and steps back by one. */
  ghost predicate StepsBack(s: State, env: Env, pending: bool)
  {
    && (pending ==> Admissible(s.candidate)) && Starts(s.standing.canonical, env)
    && env.switching != SwitchFails(false) && !Succeeds(env) && env.rollingBack.RollsOneBack?
  }

  /** Where a rollback reactivates the generation numbered just below, a rejected upgrade
      leaves the running generation in agreement exactly if the newest generation before
      it was built from the canonical tree. That is the case after a promotion; after
      another rejected upgrade, just when that one had staged the canonical tree. */
  lemma SteppingBackAgrees(s: State, envs: seq<Env>, pending: seq<bool>)
    requires |envs| == |pending| > 0
    requires var n := |envs| - 1;
             StepsBack(StateAfterAll(s, envs[..n], pending[..n]), envs[n], pending[n])
    ensures var n := |envs| - 1;
            StateAfterAll(s, envs, pending).standing.agrees <==> StateAfterAll(s, envs[..n], pending[..n]).standing.newest
    ensures |envs| == 1 ==> (StateAfterAll(s, envs, pending).standing.agrees <==> s.standing.newest)
    ensures |envs| > 1 ==>
              var n := |envs| - 2;
              var before := StateAfterAll(s, envs[..n], pending[..n]);
              StepsBack(before, envs[n], pending[n]) ==>
                (StateAfterAll(s, envs, pending).standing.agrees <==>
                   Overlay(envs[n].store.value, before.standing.canonical.value) == before.standing.canonical.value)
  {
    var n := |envs| - 1;
    if n > 0 {
      assert envs[..n][..n - 1] == envs[..n - 1] && pending[..n][..n - 1] == pending[..n - 1];
    }
  }

  /** One rejected upgrade, of either kind and at either gate, from any host: under a
      rollback that steps one generation back, agreement after it is agreement of the
      newest generation before it. */
  method RejectedOnce(h: Host, env: Env) returns (r: Result)
    requires h.Valid() && h.active < h.nextGeneration
    requires Readable(env) && StepsBack(StateOf(h), env, false)
    modifies h
    ensures env.switching.SwitchOk? ==>
              r == if PanelComesUp(env.probes) then PromotionRolledBack else HealthRolledBack
    ensures h.Agrees() <==> old(AgreesWith(h.canonical, h.builtFrom, h.nextGeneration - 1))
  {
    r := h.UpgradeRef(env);
  }

  /** The assumption on rollback is needed: with one that steps one generation back, two
      rejected upgrades end on the generation that the first one rejected. */
  method PrecedingGenerationIsNotEnough(h: Host, first: Env, second: Env)
    requires h.Valid() && h.active < h.nextGeneration
    requires Readable(first) && Readable(second)
    requires StepsBack(StateOf(h), first, false) && StepsBack(StateOf(h), second, false)
    modifies h
    ensures h.Agrees() <==> Overlay(first.store.value, old(h.canonical).value) == old(h.canonical).value
  {
    var s := StateOf(h);
    var envs, pending := [first, second], [false, false];
    RunPredictably(h, envs, pending);
    assert envs[..1] == [first] && pending[..1] == [false] && envs[..0] == [] && pending[..0] == [];
    assert StateAfterAll(s, envs[..0], pending[..0]) == s;
    assert StateAfterAll(s, envs[..1], pending[..1]) == StateAfter(s, first, false);
    SteppingBackAgrees(s, envs, pending);
  }
}
