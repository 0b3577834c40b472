/** The rows of the application controller and the row-level effects on them. */
module AppStore {
  import opened Wrappers

  type Id = nat

  datatype Desired = WantRunning | WantStopped

  datatype Observed = Absent | Provisioning | Running | Stopped | Failed

  datatype Health = Unknown | Healthy | Unhealthy

  datatype App = App(
    name: string, bundle: string, digest: string, desired: Desired, observed: Observed,
    health: Health, lastError: string, current: Id, previous: Option<Id>)

  datatype Release = Release(app: Id, digest: string)

  datatype Reason = Import | Restore | Storage | Other(text: string)

  /** The tables apps, app_releases and app_maintenance. */
  datatype Store = Store(apps: map<Id, App>, releases: map<Id, Release>, paused: map<string, Reason>)

  function Matching(desired: Desired): Observed
  {
    match desired case WantRunning => Running case WantStopped => Stopped
  }

  // ---------------------------------------------------------------- row effects

  function SetDesired(s: Store, id: Id, desired: Desired): Store
    requires id in s.apps
  {
    s.(apps := s.apps[id := s.apps[id].(desired := desired)])
  }

  function SetObserved(s: Store, id: Id, observed: Observed, health: Health, lastError: string): Store
    requires id in s.apps
  {
    s.(apps := s.apps[id := s.apps[id].(observed := observed, health := health, lastError := lastError)])
  }

  function SetHealth(s: Store, id: Id, health: Health): Store
    requires id in s.apps
  {
    s.(apps := s.apps[id := s.apps[id].(health := health)])
  }

  /** createAppWithRelease: the row and its first release in one transaction. */
  function CreateApp(s: Store, id: Id, rel: Id, name: string, bundle: string): Store
  {
    s.(apps := s.apps[id := App(name, bundle, "", WantRunning, Provisioning, Unknown, "", rel, None)],
       releases := s.releases[rel := Release(id, "")])
  }

  /** activateRelease: new pointers, and every other release of the app pruned. */
  function ActivateRelease(s: Store, id: Id, current: Id, previous: Id, digest: string, observed: Observed): Store
    requires id in s.apps
  {
    s.(apps := s.apps[id := s.apps[id].(current := current, previous := Some(previous), digest := digest,
                                        observed := observed, health := Unknown, lastError := "")],
       releases := map r | r in s.releases && (s.releases[r].app != id || r == current || r == previous) :: s.releases[r])
  }

  function DeleteApp(s: Store, id: Id): Store
  {
    s.(apps := s.apps - {id},
       releases := map r | r in s.releases && s.releases[r].app != id :: s.releases[r])
  }

  // ------------------------------------------------------------------ invariants

  /** The current release is stored, belongs to the app and has its digest; the
      previous one, if any, is another stored release of the app. */
  ghost predicate PointersOk(s: Store, id: Id)
    requires id in s.apps
  {
    var a := s.apps[id];
    && a.current in s.releases && s.releases[a.current] == Release(id, a.digest)
    && (a.previous.Some? ==>
          a.previous.value in s.releases && s.releases[a.previous.value].app == id && a.previous.value != a.current)
  }

  /** A stored release is the current or the previous one of an existing app. */
  ghost predicate ReleaseOwned(s: Store, r: Id)
    requires r in s.releases
  {
    var id := s.releases[r].app;
    id in s.apps && (r == s.apps[id].current || Some(r) == s.apps[id].previous)
  }

  ghost predicate ReleasesOk(s: Store)
  {
    && (forall id {:trigger PointersOk(s, id)} | id in s.apps :: PointersOk(s, id))
    && (forall r {:trigger ReleaseOwned(s, r)} | r in s.releases :: ReleaseOwned(s, r))
  }

  ghost predicate NamesUnique(s: Store)
  {
    forall a, b | a in s.apps && b in s.apps && a != b :: s.apps[a].name != s.apps[b].name
  }

  ghost function ReleasesOf(s: Store, id: Id): set<Id>
  {
    set r | r in s.releases && s.releases[r].app == id
  }

  /** At most two releases are kept for an app, and none for an app that is gone. */
  lemma AtMostTwoReleases(s: Store, id: Id)
    requires ReleasesOk(s)
    ensures |ReleasesOf(s, id)| <= 2
    ensures id !in s.apps ==> ReleasesOf(s, id) == {}
  {
    if id in s.apps {
      var a := s.apps[id];
      var two := {a.current} + (if a.previous.Some? then {a.previous.value} else {});
      forall r | r in ReleasesOf(s, id)
        ensures r in two
      {
        assert ReleaseOwned(s, r);
      }
      SubsetSize(ReleasesOf(s, id), two);
    } else {
      assert forall r | r in s.releases :: ReleaseOwned(s, r) && s.releases[r].app in s.apps;
    }
  }

  lemma {:induction false} SubsetSize(a: set<Id>, b: set<Id>)
    requires a <= b
    ensures |a| <= |b|
    decreases |a|
  {
    if a != {} {
      var x :| x in a;
      SubsetSize(a - {x}, b - {x});
    }
  }

  /** An update of one row that keeps its pointers, digest and name keeps the invariants. */
  lemma RowUpdateKeeps(s: Store, id: Id, row: App)
    requires ReleasesOk(s) && NamesUnique(s) && id in s.apps
    requires row.current == s.apps[id].current && row.previous == s.apps[id].previous
    requires row.digest == s.apps[id].digest && row.name == s.apps[id].name
    ensures ReleasesOk(s.(apps := s.apps[id := row])) && NamesUnique(s.(apps := s.apps[id := row]))
  {
    var t := s.(apps := s.apps[id := row]);
    forall a | a in t.apps
      ensures PointersOk(t, a)
    {
      assert PointersOk(s, a);
    }
    forall r | r in t.releases
      ensures ReleaseOwned(t, r)
    {
      assert ReleaseOwned(s, r);
    }
  }

  lemma CreateKeeps(s: Store, id: Id, rel: Id, name: string, bundle: string)
    requires ReleasesOk(s) && NamesUnique(s)
    requires id !in s.apps && rel !in s.releases
    requires forall a | a in s.apps :: s.apps[a].name != name
    ensures ReleasesOk(CreateApp(s, id, rel, name, bundle)) && NamesUnique(CreateApp(s, id, rel, name, bundle))
  {
    var t := CreateApp(s, id, rel, name, bundle);
    forall a | a in t.apps
      ensures PointersOk(t, a)
    {
      if a != id {
        assert PointersOk(s, a);
      }
    }
    forall r | r in t.releases
      ensures ReleaseOwned(t, r)
    {
      if r != rel {
        assert ReleaseOwned(s, r);
      }
    }
  }

  lemma DeleteKeeps(s: Store, id: Id)
    requires ReleasesOk(s) && NamesUnique(s)
    ensures ReleasesOk(DeleteApp(s, id)) && NamesUnique(DeleteApp(s, id))
  {
    var t := DeleteApp(s, id);
    forall a | a in t.apps
      ensures PointersOk(t, a)
    {
      assert PointersOk(s, a);
    }
    forall r | r in t.releases
      ensures ReleaseOwned(t, r)
    {
      assert ReleaseOwned(s, r);
    }
  }

  // -------------------------------------------------------------------- rollback

  /** The store after a successful rollback: the two releases change places. */
  function RolledBack(s: Store, id: Id): Store
    requires id in s.apps && s.apps[id].previous.Some? && s.apps[id].previous.value in s.releases
  {
    var a := s.apps[id];
    ActivateRelease(s, id, a.previous.value, a.current, s.releases[a.previous.value].digest, Matching(a.desired))
  }

  lemma RolledBackKeeps(s: Store, id: Id)
    requires ReleasesOk(s) && NamesUnique(s) && id in s.apps && s.apps[id].previous.Some?
    requires s.apps[id].previous.value in s.releases
    ensures var t := RolledBack(s, id);
            ReleasesOk(t) && NamesUnique(t) && t.releases == s.releases
  {
    var t := RolledBack(s, id);
    assert PointersOk(s, id);
    forall r | r in s.releases
      ensures r in t.releases
    {
      assert ReleaseOwned(s, r);
    }
    assert t.releases.Keys == s.releases.Keys;
    forall a | a in t.apps
      ensures PointersOk(t, a)
    {
      assert PointersOk(s, a);
    }
    forall r | r in t.releases
      ensures ReleaseOwned(t, r)
    {
      assert ReleaseOwned(s, r);
    }
  }

  /** Two successful rollbacks restore both pointers, the digest and every release. */
  lemma RollbackTwiceRestores(s: Store, id: Id)
    requires ReleasesOk(s) && NamesUnique(s) && id in s.apps && s.apps[id].previous.Some?
    requires s.apps[id].previous.value in s.releases
    ensures var once := RolledBack(s, id);
            && once.apps[id].current != s.apps[id].current
            && once.apps[id].previous.Some? && once.apps[id].previous.value in once.releases
            && var twice := RolledBack(once, id);
               && twice.releases == s.releases
               && twice.apps == s.apps[id := s.apps[id].(observed := Matching(s.apps[id].desired),
                                                         health := Unknown, lastError := "")]
  {
    assert PointersOk(s, id);
    RolledBackKeeps(s, id);
    RolledBackKeeps(RolledBack(s, id), id);
  }
}
