/** Snapshot retention: a planned removal, the newest verified snapshot taken out of
    it, and a listing that may lag behind the repository. */
module Retention {
  import opened Wrappers

  type Id = string

  /** One tag group of the dry run: how many snapshots the policy keeps, which it removes. */
  datatype Group = Group(tags: seq<string>, keep: nat, remove: seq<Id>)

  datatype GroupResult = GroupResult(tags: seq<string>, keep: nat, removed: nat)

  datatype Result =
    | PreflightFailed
    | Skipped
    | PlanFailed
    | ApplyFailed(removal: seq<Id>)
    | Applied(removal: seq<Id>, groups: seq<GroupResult>, isProtected: Option<Id>)

  /** A week, in the unit of the clock. */
  const MIN_INTERVAL := 7 * 24 * 3600

  /** The listing: when each listed snapshot was last verified, if ever. */
  type Listing = map<Id, Option<nat>>

  /** `v` is listed as verified, and no later than it is any other. */
  ghost predicate Newest(rows: Listing, v: Id)
  {
    && v in rows && rows[v].Some?
    && forall id | id in rows && rows[id].Some? :: rows[id].value <= rows[v].value
  }

  ghost predicate TimesDistinct(rows: Listing)
  {
    forall a, b | a in rows && b in rows && rows[a].Some? && rows[a] == rows[b] :: a == b
  }

  // -------------------------------------------------------------------- planning

  function Without(ids: seq<Id>, skip: Option<Id>): seq<Id>
  {
    if ids == [] then []
    else Without(ids[..|ids| - 1], skip) + (if Some(ids[|ids| - 1]) == skip then [] else [ids[|ids| - 1]])
  }

  /** The ids a pass removes: every planned one in order, except the protected one. */
  function Removal(groups: seq<Group>, skip: Option<Id>): seq<Id>
  {
    if groups == [] then []
    else Removal(groups[..|groups| - 1], skip) + Without(groups[|groups| - 1].remove, skip)
  }

  function Planned(groups: seq<Group>): set<Id>
  {
    set g, id | g in groups && id in g.remove :: id
  }

  function TotalRemoved(groups: seq<GroupResult>): nat
  {
    if groups == [] then 0 else TotalRemoved(groups[..|groups| - 1]) + groups[|groups| - 1].removed
  }

  lemma {:induction false} WithoutIs(ids: seq<Id>, skip: Option<Id>)
    ensures forall id :: id in Without(ids, skip) <==> id in ids && Some(id) != skip
  {
    if ids != [] {
      WithoutIs(ids[..|ids| - 1], skip);
      assert ids == ids[..|ids| - 1] + [ids[|ids| - 1]];
    }
  }

  /** A pass removes exactly the planned set minus the protected id. */
  lemma {:induction false} RemovalIs(groups: seq<Group>, skip: Option<Id>)
    ensures forall id :: id in Removal(groups, skip) <==> id in Planned(groups) && Some(id) != skip
  {
    if groups != [] {
      var shorter, last := groups[..|groups| - 1], groups[|groups| - 1];
      RemovalIs(shorter, skip);
      WithoutIs(last.remove, skip);
      assert groups == shorter + [last];
      PlannedSplit(shorter, last);
    }
  }

  /** Planned is what some group of the dry run removes. */
  lemma PlannedIs(groups: seq<Group>)
    ensures forall id :: id in Planned(groups) <==> exists i :: 0 <= i < |groups| && id in groups[i].remove
  {
    forall id
      ensures id in Planned(groups) <==> exists i :: 0 <= i < |groups| && id in groups[i].remove
    {
      if i :| 0 <= i < |groups| && id in groups[i].remove {
        assert groups[i] in groups;
      }
      if id in Planned(groups) {
        var g :| g in groups && id in g.remove;
        var i :| 0 <= i < |groups| && groups[i] == g;
      }
    }
  }

  lemma {:induction false} WithoutConcat(a: seq<Id>, b: seq<Id>, skip: Option<Id>)
    ensures Without(a + b, skip) == Without(a, skip) + Without(b, skip)
    decreases |b|
  {
    if b == [] {
      assert a + b == a && Without(a, skip) + [] == Without(a, skip);
    } else {
      var n := |b| - 1;
      assert (a + b)[..|a + b| - 1] == a + b[..n];
      WithoutConcat(a, b[..n], skip);
    }
  }

  lemma {:induction false} WithoutNone(ids: seq<Id>, skip: Option<Id>)
    requires skip.Some? ==> skip.value !in ids
    ensures Without(ids, skip) == ids
  {
    if ids != [] {
      WithoutNone(ids[..|ids| - 1], skip);
      assert ids == ids[..|ids| - 1] + [ids[|ids| - 1]];
    }
  }

  lemma WithoutItself(p: Id)
    ensures Without([p], Some(p)) == []
  {
    assert [p][..0] == [];
  }

  /** Of a group, every id is removed once and in order, but for the protected one. */
  lemma WithoutDropsOne(a: seq<Id>, p: Id, b: seq<Id>)
    requires p !in a && p !in b
    ensures Without(a + [p] + b, Some(p)) == a + b
  {
    WithoutNone(a, Some(p));
    WithoutNone(b, Some(p));
    WithoutItself(p);
    WithoutConcat(a, [p], Some(p));
    var front := a + [p];
    assert Without(front, Some(p)) == a + [] == a;
    WithoutConcat(front, b, Some(p));
  }

  lemma RemovalOfOne(g: Group, skip: Option<Id>)
    ensures Removal([g], skip) == Without(g.remove, skip)
  {
    assert [g][..0] == [];
    assert Removal([], skip) + Without(g.remove, skip) == Without(g.remove, skip);
  }

  /** And of the plan, group after group. */
  lemma {:induction false} RemovalConcat(a: seq<Group>, b: seq<Group>, skip: Option<Id>)
    ensures Removal(a + b, skip) == Removal(a, skip) + Removal(b, skip)
    decreases |b|
  {
    if b == [] {
      assert a + b == a && Removal(a, skip) + [] == Removal(a, skip);
    } else {
      var shorter, last := b[..|b| - 1], b[|b| - 1];
      RemovalConcat(a, shorter, skip);
      OneGroupMore(a, shorter, last, skip);
      assert shorter + [last] == b && a + shorter + [last] == a + b;
    }
  }

  lemma OneGroupMore(a: seq<Group>, b: seq<Group>, last: Group, skip: Option<Id>)
    requires Removal(a + b, skip) == Removal(a, skip) + Removal(b, skip)
    ensures Removal(a + b + [last], skip) == Removal(a, skip) + Removal(b + [last], skip)
  {
    var x, y, z := Removal(a, skip), Removal(b, skip), Without(last.remove, skip);
    RemovalSnoc(a + b, last, skip);
    RemovalSnoc(b, last, skip);
    assert x + y + z == x + (y + z);
  }

  lemma RemovalSnoc(groups: seq<Group>, last: Group, skip: Option<Id>)
    ensures Removal(groups + [last], skip) == Removal(groups, skip) + Without(last.remove, skip)
  {
    assert (groups + [last])[..|groups|] == groups;
  }

  lemma PlannedSplit(groups: seq<Group>, last: Group)
    ensures forall id :: id in Planned(groups + [last]) <==> id in Planned(groups) || id in last.remove
  {
    forall id
      ensures id in Planned(groups + [last]) <==> id in Planned(groups) || id in last.remove
    {
      assert forall g :: g in groups + [last] <==> g in groups || g == last;
      if id in last.remove {
        assert last in groups + [last];
      }
    }
  }

  class Repository {
    /** The snapshots the restic repository holds. */
    var stored: set<Id>
    var rows: Listing
    /** When retention was last recorded as applied. */
    var lastApplied: Option<nat>
    var now: nat

    constructor ()
      ensures Valid() && stored == {} && rows == map[] && lastApplied == None && now == 0
    {
      stored, rows, lastApplied, now := {}, map[], None, 0;
    }

    /** Verification times are in the past and distinct, and the newest verified
        snapshot is still in the repository. */
    ghost predicate Valid()
      reads this
    {
      && TimesDistinct(rows)
      && (forall id | id in rows && rows[id].Some? :: rows[id].value < now)
      && (forall v | Newest(rows, v) :: v in stored)
    }

    /** A completed backup run: the snapshot and its row, a verification time kept. */
    method Backup(id: Id)
      requires Valid()
      modifies this
      ensures Valid() && now == old(now) && lastApplied == old(lastApplied)
      ensures stored == old(stored) + {id}
      ensures rows == old(rows)[id := if id in old(rows) then old(rows)[id] else None]
    {
      ghost var was := rows;
      stored := stored + {id};
      rows := rows[id := if id in rows then rows[id] else None];
      forall v | Newest(rows, v)
        ensures v in stored
      {
        assert v in was;
        assert forall x | x in was && was[x].Some? :: x in rows && rows[x] == was[x];
        assert Newest(was, v);
      }
    }

    /** A restore verification: it can only succeed for a snapshot that is still there. */
    method Verify(id: Id, restores: bool) returns (ok: bool)
      requires Valid()
      modifies this`rows, this`now
      ensures Valid() && now == old(now) + 1
      ensures ok <==> restores && id in stored && id in old(rows)
      ensures rows == if ok then old(rows)[id := Some(old(now))] else old(rows)
      ensures ok ==> Newest(rows, id)
    {
      ok := Restore(id, restores);
      if ok {
        var _ := MarkVerified(id);
        forall v | Newest(rows, v)
          ensures v == id
        {
          assert rows[id].value <= rows[v].value;
        }
      } else {
        now := now + 1;
      }
    }

    /** The newest verified snapshot according to the listing. */
    method NewestVerified() returns (v: Option<Id>)
      ensures v.None? ==> forall id | id in rows :: rows[id].None?
      ensures v.Some? ==> Newest(rows, v.value)
      ensures v.Some? ==> v.value in rows && rows[v.value].Some?
                          && forall id | id in rows && rows[id].Some? :: rows[id].value <= rows[v.value].value
    {
      v := None;
      var left := rows.Keys;
      while left != {}
        invariant left <= rows.Keys
        invariant v.None? ==> forall id | id in rows && id !in left :: rows[id].None?
        invariant v.Some? ==> v.value in rows && rows[v.value].Some?
                              && forall id | id in rows && id !in left && rows[id].Some? :: rows[id].value <= rows[v.value].value
      {
        var id :| id in left;
        left := left - {id};
        if rows[id].Some? && (v.None? || rows[v.value].value < rows[id].value) {
          v := Some(id);
        }
      }
    }

    /** protectVerified: the newest verified snapshot, if the plan would remove it. */
    method ProtectVerified(groups: seq<Group>) returns (p: Option<Id>)
      ensures p.Some? ==> Newest(rows, p.value) && p.value in Planned(groups)
      ensures p.None? && TimesDistinct(rows) ==> forall v | Newest(rows, v) :: v !in Planned(groups)
    {
      p := NewestVerified();
      if p.None? {
        return;
      }
      for i := 0 to |groups|
        invariant p.value !in Planned(groups[..i])
      {
        var g := groups[i];
        for j := 0 to |g.remove|
          invariant p.value !in g.remove[..j]
        {
          if g.remove[j] == p.value {
            assert g in groups && g.remove[j] in g.remove;
            return;
          }
        }
        assert g.remove[..|g.remove|] == g.remove;
        assert groups[..i + 1] == groups[..i] + [g];
        PlannedSplit(groups[..i], g);
      }
      assert groups[..|groups|] == groups;
      p := None;
    }

    /** The ids of one group that a pass removes. */
    method CollectGroup(ids: seq<Id>, p: Option<Id>) returns (removal: seq<Id>)
      ensures removal == Without(ids, p)
    {
      removal := [];
      for j := 0 to |ids|
        invariant removal == Without(ids[..j], p)
      {
        assert ids[..j + 1][..j] == ids[..j];
        if Some(ids[j]) != p {
          removal := removal + [ids[j]];
        }
      }
      assert ids[..|ids|] == ids;
    }

    /** The removal list and the report of each group. */
    method CollectRemoval(groups: seq<Group>, p: Option<Id>) returns (removal: seq<Id>, reports: seq<GroupResult>)
      ensures removal == Removal(groups, p)
      ensures ReportsFor(groups, p, reports)
      ensures TotalRemoved(reports) == |removal|
    {
      removal, reports := [], [];
      for i := 0 to |groups|
        invariant removal == Removal(groups[..i], p) && ReportsFor(groups[..i], p, reports)
        invariant TotalRemoved(reports) == |removal|
      {
        var ids := CollectGroup(groups[i].remove, p);
        OneMoreReport(groups, i, p, reports, ids);
        removal := removal + ids;
        reports := reports + [GroupResult(groups[i].tags, groups[i].keep, |ids|)];
      }
      assert groups[..|groups|] == groups;
    }

    /** restic forget of exactly these ids: all of them, or on failure `lost` at most. */
    method Forget(removal: seq<Id>, ok: bool, lost: set<Id>)
      modifies this`stored
      ensures stored == old(stored) - (if ok then Members(removal) else Members(removal) * lost)
    {
      stored := stored - (if ok then Members(removal) else Members(removal) * lost);
    }

    /** Deletes the forgotten rows; a deletion that fails is ignored. */
    method DeleteRows(removal: seq<Id>, deletes: nat -> bool)
      modifies this`rows
      ensures Unlisted(old(rows), rows, removal, deletes)
      ensures forall id :: id in rows <==> id in old(rows) && !DeletedBefore(removal, deletes, |removal|, id)
    {
      ghost var was := rows;
      for i := 0 to |removal|
        invariant forall id :: id in rows <==> id in was && !DeletedBefore(removal, deletes, i, id)
        invariant forall id | id in rows :: rows[id] == was[id]
      {
        if deletes(i) {
          rows := rows - {removal[i]};
        }
      }
    }

    /** ApplyRetention. `plan` is what the dry run answers, if it answers. */
    method ApplyRetention(force: bool, preflightOk: bool, plan: Option<seq<Group>>, forgets: bool, lost: set<Id>,
                          deletes: nat -> bool) returns (r: Result)
      requires Valid()
      modifies this
      ensures Valid() && now == old(now)
      ensures forall v :: Newest(rows, v) <==> Newest(old(rows), v)
      ensures r == PreflightFailed <==> !preflightOk
      ensures r == Skipped <==> preflightOk && !force && old(lastApplied).Some? && old(now) - old(lastApplied).value < 604800
      ensures r in {PreflightFailed, Skipped, PlanFailed} ==> stored == old(stored) && rows == old(rows)
      ensures lastApplied == if r.Applied? then Some(now) else old(lastApplied)
      ensures r.Applied? || r.ApplyFailed? ==>
                && plan.Some?
                && (forall id :: id in r.removal <==> id in Planned(plan.value) && !Newest(old(rows), id))
                && (forall id :: id in r.removal <==>
                      (exists i :: 0 <= i < |plan.value| && id in plan.value[i].remove) && !Newest(old(rows), id))
      ensures r.Applied? ==> stored == old(stored) - Members(r.removal) && Reported(r, plan.value, old(rows))
                             && Unlisted(old(rows), rows, r.removal, deletes)
      ensures r.ApplyFailed? ==> rows == old(rows) && stored == old(stored) - Members(r.removal) * lost && r.removal != []
    {
      if !preflightOk {
        return PreflightFailed;
      }
      if !force && lastApplied.Some? && now - lastApplied.value < MIN_INTERVAL {
        return Skipped;
      }
      if plan.None? {
        return PlanFailed;
      }
      PlannedIs(plan.value);
      r := Enforce(plan.value, forgets, lost, deletes);
      if r.Applied? {
        lastApplied := Some(now);
      }
    }

    /** The planned groups without the protected snapshot: forgotten, then unlisted. */
    method Enforce(groups: seq<Group>, forgets: bool, lost: set<Id>, deletes: nat -> bool) returns (r: Result)
      requires Valid()
      modifies this`stored, this`rows
      ensures Valid() && (r.Applied? || r.ApplyFailed?)
      ensures forall v :: Newest(rows, v) <==> Newest(old(rows), v)
      ensures forall id :: id in r.removal <==> id in Planned(groups) && !Newest(old(rows), id)
      ensures r.Applied? <==> forgets || r.removal == []
      ensures r.Applied? ==> stored == old(stored) - Members(r.removal) && Reported(r, groups, old(rows))
                             && Unlisted(old(rows), rows, r.removal, deletes)
      ensures r.ApplyFailed? ==> rows == old(rows) && stored == old(stored) - Members(r.removal) * lost && r.removal != []
    {
      var p := ProtectVerified(groups);
      var removal, reports := CollectRemoval(groups, p);
      RemovalSpares(rows, groups, p);
      if |removal| > 0 {
        Forget(removal, forgets, lost);
        if !forgets {
          return ApplyFailed(removal);
        }
      } else {
        assert Members(removal) == {};
      }
      DeleteRows(removal, deletes);
      NewestUnmoved(old(rows), rows);
      r := Applied(removal, reports, p);
    }

    /** The first half of a verification: the snapshot is listed and restores. */
    method Restore(id: Id, restores: bool) returns (ok: bool)
      ensures ok <==> restores && id in stored && id in rows
    {
      ok := restores && id in stored && id in rows;
    }

    /** Its second half, which fails when the row is gone by then. */
    method MarkVerified(id: Id) returns (ok: bool)
      modifies this`rows, this`now
      ensures ok <==> id in old(rows)
      ensures now == old(now) + 1
      ensures rows == if ok then old(rows)[id := Some(old(now))] else old(rows)
    {
      ok := id in rows;
      if ok {
        rows := rows[id := Some(now)];
      }
      now := now + 1;
    }

    /** A pass during which a restored snapshot is marked as verified: after the plan,
        and before the forget, before the unlisting, or after it. Nothing keeps the two
        apart. The newest verified snapshot is lost exactly when the verification
        restores a planned snapshot other than the newest verified one, and the pass
        removes it without unlisting it: the forget succeeds and no deletion of its row
        does, or the forget fails and removes it all the same. */
    method EnforceAroundVerify(groups: seq<Group>, id: Id, restores: bool, when: Moment, forgets: bool, lost: set<Id>,
                               deletes: nat -> bool) returns (removal: seq<Id>)
      requires Valid()
      modifies this`stored, this`rows, this`now
      ensures forall x :: x in removal <==> x in Planned(groups) && !Newest(old(rows), x)
      ensures stored == old(stored) - (if forgets then Members(removal) else Members(removal) * lost)
      ensures Valid() <==>
                !(&& restores && id in old(stored) && id in old(rows)
                  && id in Planned(groups) && !Newest(old(rows), id)
                  && (if forgets then !DeletedBefore(removal, deletes, |removal|, id) else id in lost))
    {
      var p := ProtectVerified(groups);
      var reports;
      removal, reports := CollectRemoval(groups, p);
      RemovalSpares(rows, groups, p);
      var restored := Restore(id, restores);
      ForgetUnlistMark(removal, id, restored, when, forgets, lost, deletes);
      RacedListing(old(rows), rows, removal, old(now), id, restored);
      RacedNewest(old(rows), rows, old(stored), stored, removal, id, restored);
    }

    /** The pass after its plan, with the mark of a restored snapshot somewhere in it. */
    method ForgetUnlistMark(removal: seq<Id>, id: Id, restored: bool, when: Moment, forgets: bool, lost: set<Id>,
                            deletes: nat -> bool)
      requires restored ==> id in rows
      modifies this`stored, this`rows, this`now
      ensures now == old(now) + (if restored then 1 else 0)
      ensures stored == old(stored) - (if forgets then Members(removal) else Members(removal) * lost)
      ensures forall x :: x in rows <==> x in old(rows) && !(forgets && DeletedBefore(removal, deletes, |removal|, x))
      ensures forall x | x in rows :: rows[x] == if restored && x == id then Some(old(now)) else old(rows)[x]
    {
      if restored && when == BeforeForget {
        var _ := MarkVerified(id);
      }
      Forget(removal, forgets, lost);
      if restored && when == BeforeUnlisting {
        var _ := MarkVerified(id);
      }
      if forgets {
        DeleteRows(removal, deletes);
      }
      if restored && when == AfterUnlisting {
        var _ := MarkVerified(id);
      }
    }
  }

  /** When a verification that overlaps a pass marks its snapshot. */
  datatype Moment = BeforeForget | BeforeUnlisting | AfterUnlisting

  /** Whether one of the first `n` deletions is of `id` and succeeds. */
  ghost predicate DeletedBefore(removal: seq<Id>, deletes: nat -> bool, n: nat, id: Id)
    requires n <= |removal|
  {
    exists j :: 0 <= j < n && removal[j] == id && deletes(j)
  }

  /** One report for each group, with what it keeps and what is removed of it. */
  predicate ReportsFor(groups: seq<Group>, p: Option<Id>, reports: seq<GroupResult>)
  {
    && |reports| == |groups|
    && forall i | 0 <= i < |groups| ::
         reports[i] == GroupResult(groups[i].tags, groups[i].keep, |Without(groups[i].remove, p)|)
  }

  lemma OneMoreReport(groups: seq<Group>, i: nat, p: Option<Id>, reports: seq<GroupResult>, ids: seq<Id>)
    requires i < |groups| && ids == Without(groups[i].remove, p) && ReportsFor(groups[..i], p, reports)
    ensures var more := reports + [GroupResult(groups[i].tags, groups[i].keep, |ids|)];
            && Removal(groups[..i + 1], p) == Removal(groups[..i], p) + ids
            && ReportsFor(groups[..i + 1], p, more)
            && TotalRemoved(more) == TotalRemoved(reports) + |ids|
  {
    var more := reports + [GroupResult(groups[i].tags, groups[i].keep, |ids|)];
    assert groups[..i + 1][..i] == groups[..i] && more[..i] == reports;
    forall j | 0 <= j < i
      ensures more[j] == GroupResult(groups[j].tags, groups[j].keep, |Without(groups[j].remove, p)|)
    {
      assert more[j] == reports[j] && groups[..i][j] == groups[j];
    }
  }

  /** What a completed pass reports: the removal in plan order, one count per group,
      counts that add up, and the protected snapshot. */
  ghost predicate Reported(r: Result, groups: seq<Group>, rows: Listing)
    requires r.Applied?
  {
    && r.removal == Removal(groups, r.isProtected)
    && ReportsFor(groups, r.isProtected, r.groups) && TotalRemoved(r.groups) == |r.removal|
    && (r.isProtected.Some? <==> exists v :: Newest(rows, v) && v in Planned(groups))
  }

  /** Only forgotten rows are gone, and all of them are when no deletion failed. */
  ghost predicate Unlisted(was: Listing, rows: Listing, removal: seq<Id>, deletes: nat -> bool)
  {
    && (forall id :: id in rows ==> id in was && rows[id] == was[id])
    && (forall id | id in was && id !in rows :: id in removal)
    && ((forall i | 0 <= i < |removal| :: deletes(i)) ==> forall id | id in removal :: id !in rows)
  }

  function Members(ids: seq<Id>): set<Id>
  {
    set id | id in ids
  }

  /** With distinct times there is one newest verified snapshot, and the removal
      spares it and nothing else of the plan. */
  lemma RemovalSpares(rows: Listing, groups: seq<Group>, p: Option<Id>)
    requires TimesDistinct(rows)
    requires p.Some? ==> Newest(rows, p.value) && p.value in Planned(groups)
    requires p.None? ==> forall v | Newest(rows, v) :: v !in Planned(groups)
    ensures forall id :: id in Removal(groups, p) <==> id in Planned(groups) && !Newest(rows, id)
    ensures p.Some? <==> exists v :: Newest(rows, v) && v in Planned(groups)
  {
    RemovalIs(groups, p);
    forall v | p.Some? && Newest(rows, v)
      ensures v == p.value
    {
      assert rows[v].value <= rows[p.value].value && rows[p.value].value <= rows[v].value;
    }
  }

  /** Dropping rows that are not the newest verified one leaves it the newest. */
  lemma NewestUnmoved(was: Listing, rows: Listing)
    requires forall id :: id in rows ==> id in was && rows[id] == was[id]
    requires forall v | Newest(was, v) :: v in rows
    ensures forall v :: Newest(rows, v) <==> Newest(was, v)
  {
    forall v
      ensures Newest(rows, v) <==> Newest(was, v)
    {
      if Newest(rows, v) {
        var m := NewestOf(was, v);
        assert rows[m].value <= rows[v].value;
      }
    }
  }

  /** The newest verified snapshot after some rows of `removal` are gone and the row of
      `id`, if it was restored and is still there, is marked at a time after all others. */
  lemma RacedListing(was: Listing, rows: Listing, removal: seq<Id>, now: nat, id: Id, restored: bool)
    requires TimesDistinct(was) && forall x | x in was && was[x].Some? :: was[x].value < now
    requires forall v | Newest(was, v) :: v !in removal
    requires forall x | x in rows :: x in was && rows[x] == if restored && x == id then Some(now) else was[x]
    requires forall x | x in was && x !in rows :: x in removal
    ensures TimesDistinct(rows) && forall x | x in rows && rows[x].Some? :: rows[x].value <= now
    ensures restored && id in rows ==> forall v :: Newest(rows, v) <==> v == id
    ensures !(restored && id in rows) ==> forall v | Newest(rows, v) :: Newest(was, v)
  {
    if restored && id in rows {
      assert Newest(rows, id);
      assert forall v | Newest(rows, v) :: rows[v].value <= rows[id].value && rows[id].value <= rows[v].value;
    } else {
      forall v | Newest(rows, v)
        ensures Newest(was, v)
      {
        assert v in was;
        var m := NewestOf(was, v);
        assert m !in removal;
      }
    }
  }

  /** Whether the newest verified snapshot is still there then. */
  lemma RacedNewest(was: Listing, rows: Listing, stored: set<Id>, left: set<Id>, removal: seq<Id>, id: Id, restored: bool)
    requires forall v | Newest(was, v) :: v in stored && v !in removal
    requires restored ==> id in stored
    requires left <= stored && forall x | x in stored && x !in left :: x in removal
    requires restored && id in rows ==> forall v :: Newest(rows, v) <==> v == id
    requires !(restored && id in rows) ==> forall v | Newest(rows, v) :: Newest(was, v)
    ensures (forall v | Newest(rows, v) :: v in left) <==> !(restored && id in rows && id !in left)
  {
    if restored && id in rows {
      assert Newest(rows, id);
    }
  }

  /** A listing with a verified snapshot has a newest one. */
  lemma NewestOf(rows: Listing, some: Id) returns (m: Id)
    requires some in rows && rows[some].Some?
    ensures Newest(rows, m)
  {
    var left := rows.Keys;
    m := some;
    while left != {}
      invariant left <= rows.Keys
      invariant m in rows && rows[m].Some?
      invariant forall id | id in rows && id !in left && rows[id].Some? :: rows[id].value <= rows[m].value
    {
      var id :| id in left;
      left := left - {id};
      if rows[id].Some? && rows[m].value < rows[id].value {
        m := id;
      }
    }
  }

  // ------------------------------------------------------------------------ runs

  datatype Op =
    | OpBackup(id: Id)
    | OpVerify(id: Id, restores: bool)
    | OpRetention(force: bool, preflightOk: bool, plan: Option<seq<Group>>, forgets: bool, lost: set<Id>, deletes: nat -> bool)

  /** No pass of the run ever planned to remove `id`. */
  ghost predicate NeverPlanned(ops: seq<Op>, id: Id)
  {
    forall op | op in ops :: op.OpRetention? && op.plan.Some? ==> id !in Planned(op.plan.value)
  }

  /** Over any run from any valid repository, whatever is planned, lost by a failed
      forget or left in the listing: the newest verified snapshot is still there, and so
      is every snapshot that no pass planned to remove. */
  method RunOps(repo: Repository, ops: seq<Op>)
    requires repo.Valid()
    modifies repo
    ensures repo.Valid()
    ensures forall v | v in repo.rows && repo.rows[v].Some?
                       && (forall id | id in repo.rows && repo.rows[id].Some? :: repo.rows[id].value <= repo.rows[v].value) ::
              v in repo.stored
    ensures forall id | (id in old(repo.stored) || OpBackup(id) in ops) && NeverPlanned(ops, id) :: id in repo.stored
  {
    for i := 0 to |ops|
      invariant repo.Valid()
      invariant forall id | (id in old(repo.stored) || OpBackup(id) in ops[..i]) && NeverPlanned(ops, id) :: id in repo.stored
    {
      assert ops[i] in ops;
      assert ops[..i + 1] == ops[..i] + [ops[i]];
      match ops[i] {
        case OpBackup(id) => repo.Backup(id);
        case OpVerify(id, restores) => var _ := repo.Verify(id, restores);
        case OpRetention(force, preflightOk, plan, forgets, lost, deletes) =>
          var _ := repo.ApplyRetention(force, preflightOk, plan, forgets, lost, deletes);
      }
    }
    assert ops[..|ops|] == ops;
    forall v | v in repo.rows && repo.rows[v].Some?
               && (forall id | id in repo.rows && repo.rows[id].Some? :: repo.rows[id].value <= repo.rows[v].value)
      ensures v in repo.stored
    {
      assert Newest(repo.rows, v);
    }
  }
}
