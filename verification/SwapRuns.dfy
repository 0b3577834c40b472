/** Whole runs of the swap: any number of attempts and rollbacks, each cut short
    anywhere, on the plans the planner makes. */
module SwapRuns {
  import opened Faults
  import opened Wrappers
  import opened SwapModel
  import opened SwapMachine

  // ------------------------------------------------------------------ planning

  const STATE_FILES := ["control.db", "recovery.kit", "storage.json", "backup.env"]
  const STATE_DIRS := ["appenv", "caddy", "cloudflared"]
  const MASTER_KEY := "master.key"

  lemma NamesDistinct()
    ensures var names := STATE_FILES + STATE_DIRS + [MASTER_KEY];
            forall i, j | 0 <= i < j < |names| :: names[i] != names[j]
  {
    var names := STATE_FILES + STATE_DIRS + [MASTER_KEY];
    assert names[0][0] == 'c' && names[1][0] == 'r' && names[2][0] == 's' && names[3][0] == 'b';
    assert names[4][0] == 'a' && names[5][0] == 'c' && names[6][0] == 'c' && names[7][0] == 'm';
    assert |names[0]| == 10 && |names[5]| == 5 && |names[6]| == 11;
  }

  predicate StagedDir(staged: map<Path, Node>, p: Path)
  {
    p in staged && staged[p].Dir? && staged[p].entries != map[]
  }

  predicate Wanted(staged: map<Path, Node>, source: Path, subtree: bool)
  {
    if subtree then StagedDir(staged, source) else source in staged
  }

  /** The staged files or subtrees among `names`, paired with their destinations. */
  function Picked(staged: map<Path, Node>, dir: Path, subtree: bool, stateDir: Path, names: seq<string>): seq<SwapFile>
  {
    if names == [] then []
    else
      var name := names[|names| - 1];
      Picked(staged, dir, subtree, stateDir, names[..|names| - 1])
      + (if Wanted(staged, dir + [name], subtree) then [SwapFile(dir + [name], stateDir + [name])] else [])
  }

  lemma {:induction false} PickedAt(staged: map<Path, Node>, dir: Path, subtree: bool, stateDir: Path, names: seq<string>)
    requires forall i, j | 0 <= i < j < |names| :: names[i] != names[j]
    ensures var files := Picked(staged, dir, subtree, stateDir, names);
            && (forall f | f in files ::
                  ChildOf(stateDir, f.dest) && f.dest[|stateDir|] in names && f.source in staged)
            && (forall i, j | 0 <= i < j < |files| :: files[i].dest != files[j].dest)
            && (forall name | name in names ::
                  SwapFile(dir + [name], stateDir + [name]) in files <==> Wanted(staged, dir + [name], subtree))
  {
    if names != [] {
      var shorter, last := names[..|names| - 1], names[|names| - 1];
      PickedAt(staged, dir, subtree, stateDir, shorter);
      assert names == shorter + [last];
      assert last !in shorter;
      assert (stateDir + [last])[|stateDir|] == last;
    }
  }

  /** PlanServerConfigSwap. `base` holds the checkpoint files and `tree` the captured
      state directory; the plan is refused without a database and a recovery kit. */
  method PlanSwap(staged: map<Path, Node>, base: Path, tree: Path, stateDir: Path)
    returns (r: Option<Plan>)
    ensures r.Some? <==> base + ["control.db"] in staged && base + ["recovery.kit"] in staged
    ensures r.Some? ==> PlanOk(r.value) && StateDirOf(r.value) == stateDir
    ensures r.Some? ==> r.value.unwrap == Some(stateDir + [MASTER_KEY])
    ensures r.Some? ==> forall f | f in r.value.files :: f.source in staged
    ensures r.Some? ==> r.value.files == Picked(staged, base, false, stateDir, STATE_FILES)
                                         + Picked(staged, tree, true, stateDir, STATE_DIRS)
    ensures r.Some? ==> forall name | name in {"control.db", "recovery.kit", "storage.json", "backup.env"} ::
              (exists f :: f in r.value.files && f.dest == stateDir + [name]) <==> base + [name] in staged
    ensures r.Some? ==> forall name | name in {"appenv", "caddy", "cloudflared"} ::
              (exists f :: f in r.value.files && f.dest == stateDir + [name])
              <==> tree + [name] in staged && staged[tree + [name]].Dir? && exists k :: k in staged[tree + [name]].entries
  {
    if base + ["control.db"] !in staged {
      return None;
    }
    var files := [];
    for i := 0 to |STATE_FILES|
      invariant files == Picked(staged, base, false, stateDir, STATE_FILES[..i])
    {
      var name := STATE_FILES[i];
      assert STATE_FILES[..i + 1][..i] == STATE_FILES[..i];
      if base + [name] in staged {
        files := files + [SwapFile(base + [name], stateDir + [name])];
      }
    }
    assert STATE_FILES[..|STATE_FILES|] == STATE_FILES;
    ghost var checkpoint := files;
    for i := 0 to |STATE_DIRS|
      invariant files == checkpoint + Picked(staged, tree, true, stateDir, STATE_DIRS[..i])
    {
      var name := STATE_DIRS[i];
      assert STATE_DIRS[..i + 1][..i] == STATE_DIRS[..i];
      if StagedDir(staged, tree + [name]) {
        files := files + [SwapFile(tree + [name], stateDir + [name])];
      }
    }
    assert STATE_DIRS[..|STATE_DIRS|] == STATE_DIRS;
    if base + ["recovery.kit"] !in staged {
      return None;
    }
    var plan := Plan(files, Some(stateDir + [MASTER_KEY]));
    PlannedIsOk(staged, base, tree, stateDir, plan);
    PlannedByName(staged, base, tree, stateDir, plan);
    return Some(plan);
  }

  lemma PlannedIsOk(staged: map<Path, Node>, base: Path, tree: Path, stateDir: Path, plan: Plan)
    requires base + ["control.db"] in staged
    requires plan.files == Picked(staged, base, false, stateDir, STATE_FILES)
                           + Picked(staged, tree, true, stateDir, STATE_DIRS)
    requires plan.unwrap == Some(stateDir + [MASTER_KEY])
    ensures PlanOk(plan) && StateDirOf(plan) == stateDir
    ensures forall f | f in plan.files :: f.source in staged
  {
    var names := STATE_FILES + STATE_DIRS + [MASTER_KEY];
    NamesDistinct();
    assert forall i | 0 <= i < |STATE_FILES| :: STATE_FILES[i] == names[i];
    assert forall i | 0 <= i < |STATE_DIRS| :: STATE_DIRS[i] == names[|STATE_FILES| + i];
    PickedAt(staged, base, false, stateDir, STATE_FILES);
    PickedAt(staged, tree, true, stateDir, STATE_DIRS);
    assert "control.db" == STATE_FILES[0];
    var first := Picked(staged, base, false, stateDir, STATE_FILES);
    assert SwapFile(base + ["control.db"], stateDir + ["control.db"]) in first;
    assert MASTER_KEY == names[7];
    CombinedPlanIsOk(plan, stateDir, first, Picked(staged, tree, true, stateDir, STATE_DIRS), STATE_FILES, STATE_DIRS);
  }

  /** Two lists of files with different names, and a key with yet another name. */
  lemma CombinedPlanIsOk(plan: Plan, stateDir: Path, first: seq<SwapFile>, second: seq<SwapFile>,
                         firstNames: seq<string>, secondNames: seq<string>)
    requires plan == Plan(first + second, Some(stateDir + [MASTER_KEY])) && |first| > 0
    requires forall f | f in first :: ChildOf(stateDir, f.dest) && f.dest[|stateDir|] in firstNames
    requires forall f | f in second :: ChildOf(stateDir, f.dest) && f.dest[|stateDir|] in secondNames
    requires forall i, j | 0 <= i < j < |first| :: first[i].dest != first[j].dest
    requires forall i, j | 0 <= i < j < |second| :: second[i].dest != second[j].dest
    requires forall name | name in firstNames :: name !in secondNames
    requires MASTER_KEY !in firstNames && MASTER_KEY !in secondNames
    ensures PlanOk(plan) && StateDirOf(plan) == stateDir
  {
    var ds, n := Dests(plan), |stateDir|;
    assert first[0] in first;
    forall i | 0 <= i < |ds|
      ensures ChildOf(stateDir, ds[i])
      ensures ds[i][n] in if i < |first| then firstNames else if i < |plan.files| then secondNames else [MASTER_KEY]
    {
      if i < |plan.files| {
        assert plan.files[i] in first || plan.files[i] in second;
        assert if i < |first| then ds[i] == first[i].dest else ds[i] == second[i - |first|].dest;
      }
    }
    forall i, j | 0 <= i < j < |ds|
      ensures ds[i] != ds[j]
    {
      if j < |first| {
        assert ds[i] == first[i].dest && ds[j] == first[j].dest;
      } else if |first| <= i && j < |plan.files| {
        assert ds[i] == second[i - |first|].dest && ds[j] == second[j - |first|].dest;
      }
    }
  }

  /** What the planner picks, name by name, read off the staging tree: a checkpoint file
      that is staged, and a captured subtree that is staged with something in it. */
  lemma PlannedByName(staged: map<Path, Node>, base: Path, tree: Path, stateDir: Path, plan: Plan)
    requires plan.files == Picked(staged, base, false, stateDir, STATE_FILES)
                           + Picked(staged, tree, true, stateDir, STATE_DIRS)
    ensures forall name | name in {"control.db", "recovery.kit", "storage.json", "backup.env"} ::
              (exists f :: f in plan.files && f.dest == stateDir + [name]) <==> base + [name] in staged
    ensures forall name | name in {"appenv", "caddy", "cloudflared"} ::
              (exists f :: f in plan.files && f.dest == stateDir + [name])
              <==> tree + [name] in staged && staged[tree + [name]].Dir? && exists k :: k in staged[tree + [name]].entries
    ensures forall f | f in plan.files :: exists name ::
              f.dest == stateDir + [name]
              && ((name in {"control.db", "recovery.kit", "storage.json", "backup.env"} && f.source == base + [name])
                  || (name in {"appenv", "caddy", "cloudflared"} && f.source == tree + [name]))
  {
    var first, second := Picked(staged, base, false, stateDir, STATE_FILES), Picked(staged, tree, true, stateDir, STATE_DIRS);
    ConstantNames();
    PickedByName(staged, base, false, stateDir, STATE_FILES);
    PickedByName(staged, tree, true, stateDir, STATE_DIRS);
    forall f | f in plan.files
      ensures exists name ::
                f.dest == stateDir + [name]
                && ((name in {"control.db", "recovery.kit", "storage.json", "backup.env"} && f.source == base + [name])
                    || (name in {"appenv", "caddy", "cloudflared"} && f.source == tree + [name]))
    {
      assert f in first || f in second;
      var name := f.dest[|stateDir|];
      assert f.dest == stateDir + [name];
    }
    forall name | name in {"control.db", "recovery.kit", "storage.json", "backup.env"}
      ensures (exists f :: f in plan.files && f.dest == stateDir + [name]) <==> base + [name] in staged
    {
      OneList(first, second, stateDir, name);
    }
    forall name | name in {"appenv", "caddy", "cloudflared"}
      ensures (exists f :: f in plan.files && f.dest == stateDir + [name])
              <==> tree + [name] in staged && staged[tree + [name]].Dir? && exists k :: k in staged[tree + [name]].entries
    {
      OneList(first, second, stateDir, name);
      SomeEntry(staged, tree + [name]);
    }
  }

  lemma ConstantNames()
    ensures forall name :: name in STATE_FILES <==> name in {"control.db", "recovery.kit", "storage.json", "backup.env"}
    ensures forall name :: name in STATE_DIRS <==> name in {"appenv", "caddy", "cloudflared"}
    ensures forall name | name in STATE_FILES :: name !in STATE_DIRS
  {
    NamesDistinct();
    var names := STATE_FILES + STATE_DIRS + [MASTER_KEY];
    assert forall i | 0 <= i < |STATE_FILES| :: STATE_FILES[i] == names[i];
    assert forall i | 0 <= i < |STATE_DIRS| :: STATE_DIRS[i] == names[|STATE_FILES| + i];
    assert STATE_FILES == ["control.db", "recovery.kit", "storage.json", "backup.env"];
    assert STATE_DIRS == ["appenv", "caddy", "cloudflared"];
  }

  /** A directory with an entry, spelled out. */
  lemma SomeEntry(staged: map<Path, Node>, p: Path)
    ensures Wanted(staged, p, true) <==> p in staged && staged[p].Dir? && exists k :: k in staged[p].entries
  {
    if p in staged && staged[p].Dir? && staged[p].entries != map[] {
      var k :| k in staged[p].entries;
    }
  }

  lemma PickedByName(staged: map<Path, Node>, dir: Path, subtree: bool, stateDir: Path, names: seq<string>)
    requires forall i, j | 0 <= i < j < |names| :: names[i] != names[j]
    ensures var files := Picked(staged, dir, subtree, stateDir, names);
            && (forall f | f in files :: |f.dest| == |stateDir| + 1 && f.dest[|stateDir|] in names
                                         && f.dest == stateDir + [f.dest[|stateDir|]] && f.source == dir + [f.dest[|stateDir|]])
            && (forall name | name in names ::
                  (exists f :: f in files && f.dest == stateDir + [name]) <==> Wanted(staged, dir + [name], subtree))
  {
    var files := Picked(staged, dir, subtree, stateDir, names);
    PickedAt(staged, dir, subtree, stateDir, names);
    PickedSources(staged, dir, subtree, stateDir, names);
    forall name | name in names
      ensures (exists f :: f in files && f.dest == stateDir + [name]) <==> Wanted(staged, dir + [name], subtree)
    {
      var file := SwapFile(dir + [name], stateDir + [name]);
      if f :| f in files && f.dest == stateDir + [name] {
        assert f.dest[|stateDir|] == name && f == file;
      }
    }
  }

  lemma {:induction false} PickedSources(staged: map<Path, Node>, dir: Path, subtree: bool, stateDir: Path, names: seq<string>)
    ensures forall f | f in Picked(staged, dir, subtree, stateDir, names) ::
              |f.dest| == |stateDir| + 1 && f.dest == stateDir + [f.dest[|stateDir|]] && f.source == dir + [f.dest[|stateDir|]]
  {
    if names != [] {
      PickedSources(staged, dir, subtree, stateDir, names[..|names| - 1]);
      var name := names[|names| - 1];
      assert (stateDir + [name])[|stateDir|] == name;
    }
  }

  /** A destination named by one list is not in the other. */
  lemma OneList(first: seq<SwapFile>, second: seq<SwapFile>, stateDir: Path, name: string)
    requires forall f | f in first :: |f.dest| == |stateDir| + 1 && f.dest[|stateDir|] in STATE_FILES
    requires forall f | f in second :: |f.dest| == |stateDir| + 1 && f.dest[|stateDir|] in STATE_DIRS
    requires forall n | n in STATE_FILES :: n !in STATE_DIRS
    ensures (stateDir + [name])[|stateDir|] == name
    ensures name in STATE_FILES ==>
              ((exists f :: f in first + second && f.dest == stateDir + [name]) <==> exists f :: f in first && f.dest == stateDir + [name])
    ensures name in STATE_DIRS ==>
              ((exists f :: f in first + second && f.dest == stateDir + [name]) <==> exists f :: f in second && f.dest == stateDir + [name])
  {
    assert forall f :: f in first + second <==> f in first || f in second;
  }

  /** A recovery, from the staging tree to the live state: when it succeeds, every staged
      checkpoint file and every captured subtree with something in it stands under its
      name in the state directory, master.key is the supplied key, and every other path
      is as it was. */
  method Recover(m: Machine, base: Path, tree: Path, stateDir: Path, key: string, ghost pre: map<Path, Node>)
    returns (o: Outcome)
    requires Inv(m.fs, pre, m.SameFs()) && m.Sighted()
    requires forall name | name in STATE_FILES + STATE_DIRS + [MASTER_KEY] :: PreservableAt(m.SameFs(), pre, stateDir + [name])
    modifies m
    ensures Inv(m.fs, pre, m.SameFs())
    ensures o.Done? ==>
              && base + ["control.db"] in m.staged && base + ["recovery.kit"] in m.staged
              && (forall name | name in {"control.db", "recovery.kit", "storage.json", "backup.env"} && base + [name] in m.staged ::
                    Get(m.fs.live, stateDir + [name]) == Some(m.staged[base + [name]]))
              && (forall name | name in {"appenv", "caddy", "cloudflared"} && tree + [name] in m.staged
                                && m.staged[tree + [name]].Dir? && m.staged[tree + [name]].entries != map[] ::
                    Get(m.fs.live, stateDir + [name]) == Some(m.staged[tree + [name]]))
              && |key| == 32 && Get(m.fs.live, stateDir + ["master.key"]) == Some(File(key))
              && (forall p | Untouched(m.staged, base, tree, stateDir, p) :: Get(m.fs.live, p) == Get(pre, p))
  {
    var r := PlanSwap(m.staged, base, tree, stateDir);
    if r.None? {
      return Failed;
    }
    var plan := r.value;
    PlannedByName(m.staged, base, tree, stateDir, plan);
    PlannedPreservable(plan, m.staged, base, tree, stateDir, pre, m.SameFs());
    o := m.Apply(plan, key, pre);
    if o.Done? {
      RecoveredByName(m.fs.live, pre, plan, m.staged, base, tree, stateDir, key);
    }
  }

  /** No name of the recovery is at stake at `p`. */
  ghost predicate Untouched(staged: map<Path, Node>, base: Path, tree: Path, stateDir: Path, p: Path)
  {
    && p != stateDir + ["master.key"]
    && (forall name | name in {"control.db", "recovery.kit", "storage.json", "backup.env"} && base + [name] in staged :: p != stateDir + [name])
    && (forall name | name in {"appenv", "caddy", "cloudflared"} && tree + [name] in staged
                      && staged[tree + [name]].Dir? && staged[tree + [name]].entries != map[] :: p != stateDir + [name])
  }

  lemma PlannedPreservable(plan: Plan, staged: map<Path, Node>, base: Path, tree: Path, stateDir: Path, pre: map<Path, Node>, sameFs: bool)
    requires plan.unwrap == Some(stateDir + [MASTER_KEY])
    requires plan.files == Picked(staged, base, false, stateDir, STATE_FILES) + Picked(staged, tree, true, stateDir, STATE_DIRS)
    requires forall name | name in STATE_FILES + STATE_DIRS + [MASTER_KEY] :: PreservableAt(sameFs, pre, stateDir + [name])
    ensures forall i | 0 <= i < |Dests(plan)| :: PreservableAt(sameFs, pre, Dests(plan)[i])
  {
    PlannedByName(staged, base, tree, stateDir, plan);
    ConstantNames();
    forall i | 0 <= i < |Dests(plan)|
      ensures PreservableAt(sameFs, pre, Dests(plan)[i])
    {
      if i < |plan.files| {
        var f := plan.files[i];
        assert f in plan.files;
        var name :| f.dest == stateDir + [name]
                    && ((name in {"control.db", "recovery.kit", "storage.json", "backup.env"} && f.source == base + [name])
                        || (name in {"appenv", "caddy", "cloudflared"} && f.source == tree + [name]));
        assert name in STATE_FILES + STATE_DIRS + [MASTER_KEY];
      } else {
        assert MASTER_KEY in STATE_FILES + STATE_DIRS + [MASTER_KEY];
      }
    }
  }

  lemma RecoveredByName(live: map<Path, Node>, pre: map<Path, Node>, plan: Plan, staged: map<Path, Node>,
                        base: Path, tree: Path, stateDir: Path, key: string)
    requires plan.unwrap == Some(stateDir + [MASTER_KEY]) && Promoted(live, pre, plan, staged, key)
    requires plan.files == Picked(staged, base, false, stateDir, STATE_FILES) + Picked(staged, tree, true, stateDir, STATE_DIRS)
    ensures forall name | name in {"control.db", "recovery.kit", "storage.json", "backup.env"} && base + [name] in staged ::
              Get(live, stateDir + [name]) == Some(staged[base + [name]])
    ensures forall name | name in {"appenv", "caddy", "cloudflared"} && tree + [name] in staged
                          && staged[tree + [name]].Dir? && staged[tree + [name]].entries != map[] ::
              Get(live, stateDir + [name]) == Some(staged[tree + [name]])
    ensures forall p | Untouched(staged, base, tree, stateDir, p) :: Get(live, p) == Get(pre, p)
  {
    PlannedByName(staged, base, tree, stateDir, plan);
    ConstantNames();
    forall name | name in {"control.db", "recovery.kit", "storage.json", "backup.env"} && base + [name] in staged
      ensures Get(live, stateDir + [name]) == Some(staged[base + [name]])
    {
      var f :| f in plan.files && f.dest == stateDir + [name];
      ArrivedFrom(live, pre, plan, staged, base, tree, stateDir, key, f, name);
    }
    forall name | name in {"appenv", "caddy", "cloudflared"} && tree + [name] in staged
                  && staged[tree + [name]].Dir? && staged[tree + [name]].entries != map[]
      ensures Get(live, stateDir + [name]) == Some(staged[tree + [name]])
    {
      var k :| k in staged[tree + [name]].entries;
      var f :| f in plan.files && f.dest == stateDir + [name];
      ArrivedFrom(live, pre, plan, staged, base, tree, stateDir, key, f, name);
    }
    forall p | Untouched(staged, base, tree, stateDir, p)
      ensures p !in Dests(plan)
    {
      if i :| 0 <= i < |Dests(plan)| && Dests(plan)[i] == p {
        if i < |plan.files| {
          UntouchedIsUnplanned(plan, staged, base, tree, stateDir, p, plan.files[i]);
        }
      }
    }
  }

  lemma ArrivedFrom(live: map<Path, Node>, pre: map<Path, Node>, plan: Plan, staged: map<Path, Node>, base: Path, tree: Path,
                    stateDir: Path, key: string, f: SwapFile, name: string)
    requires Promoted(live, pre, plan, staged, key) && f in plan.files && f.dest == stateDir + [name]
    requires plan.files == Picked(staged, base, false, stateDir, STATE_FILES) + Picked(staged, tree, true, stateDir, STATE_DIRS)
    ensures f.source in staged && Get(live, f.dest) == Some(staged[f.source])
    ensures name in STATE_FILES ==> f.source == base + [name]
    ensures name in STATE_DIRS ==> f.source == tree + [name]
  {
    var i :| 0 <= i < |plan.files| && plan.files[i] == f;
    ConstantNames();
    PickedByName(staged, base, false, stateDir, STATE_FILES);
    PickedByName(staged, tree, true, stateDir, STATE_DIRS);
    assert f.dest[|stateDir|] == name;
    assert f in Picked(staged, base, false, stateDir, STATE_FILES) || f in Picked(staged, tree, true, stateDir, STATE_DIRS);
  }

  lemma UntouchedIsUnplanned(plan: Plan, staged: map<Path, Node>, base: Path, tree: Path, stateDir: Path, p: Path, f: SwapFile)
    requires plan.files == Picked(staged, base, false, stateDir, STATE_FILES) + Picked(staged, tree, true, stateDir, STATE_DIRS)
    requires Untouched(staged, base, tree, stateDir, p) && f in plan.files
    ensures f.dest != p
  {
    PlannedByName(staged, base, tree, stateDir, plan);
    var name :| f.dest == stateDir + [name]
                && ((name in {"control.db", "recovery.kit", "storage.json", "backup.env"} && f.source == base + [name])
                    || (name in {"appenv", "caddy", "cloudflared"} && f.source == tree + [name]));
    if name in {"control.db", "recovery.kit", "storage.json", "backup.env"} {
      assert base + [name] in staged;
    } else {
      var d := tree + [name];
      assert d in staged && staged[d].Dir? && exists k :: k in staged[d].entries;
    }
  }

  // ---------------------------------------------------------------------- runs

  datatype Action = TryApply(plan: Plan, key: string) | TryRollback

  ghost predicate ActionOk(a: Action, stateDir: Path, pre: map<Path, Node>, sameFs: bool)
  {
    a.TryApply? ==>
      && PlanOk(a.plan) && StateDirOf(a.plan) == stateDir
      && forall i | 0 <= i < |Dests(a.plan)| :: PreservableAt(sameFs, pre, Dests(a.plan)[i])
  }

  /** What a completed action leaves, whatever came before it. */
  ghost predicate Accomplished(a: Action, fs: Fs, pre: map<Path, Node>, staged: map<Path, Node>)
  {
    match a
    case TryApply(plan, key) => Promoted(fs.live, pre, plan, staged, key)
    case TryRollback => fs == Fs(pre, NoDir)
  }

  /** Any sequence of attempts and rollbacks under any faults: the state before the
      first attempt stays recoverable, a torn index means nothing ever moved, and a
      last action that completes does its whole job. */
  method RunSession(m: Machine, actions: seq<Action>, stateDir: Path, ghost pre: map<Path, Node>)
    returns (outcomes: seq<Outcome>)
    requires Inv(m.fs, pre, m.SameFs()) && UnderAll(m.fs, stateDir) && m.Sighted()
    requires forall a | a in actions :: ActionOk(a, stateDir, pre, m.SameFs())
    modifies m
    ensures Inv(m.fs, pre, m.SameFs()) && UnderAll(m.fs, stateDir)
    ensures TornIndex(m.fs) ==> m.fs.live == pre
    ensures |outcomes| == |actions|
    ensures |actions| > 0 && outcomes[|actions| - 1].Done? ==>
              Accomplished(actions[|actions| - 1], m.fs, pre, m.staged)
  {
    outcomes := [];
    for i := 0 to |actions|
      invariant Inv(m.fs, pre, m.SameFs()) && UnderAll(m.fs, stateDir)
      invariant |outcomes| == i
      invariant i > 0 && outcomes[i - 1].Done? ==> Accomplished(actions[i - 1], m.fs, pre, m.staged)
    {
      var a := actions[i];
      assert ActionOk(a, stateDir, pre, m.SameFs());
      var o;
      match a {
        case TryApply(plan, key) => o := m.Apply(plan, key, pre);
        case TryRollback => o := m.Rollback(stateDir, pre);
      }
      outcomes := outcomes + [o];
    }
    if TornIndex(m.fs) {
      NothingMovedBeforeIndex(m.fs, pre, m.SameFs());
    }
  }

  /** From an untouched machine: any session, then one rollback that nothing
      interrupts, gives back exactly the state before the first attempt — unless the
      index is torn, and then no live path had changed. */
  method SessionThenRollback(m: Machine, actions: seq<Action>, stateDir: Path, ghost pre: map<Path, Node>)
    returns (rollbackStart: nat, o: Outcome)
    requires m.fs == Fs(pre, NoDir) && m.Sighted()
    requires forall a | a in actions :: ActionOk(a, stateDir, pre, m.SameFs())
    modifies m
    ensures Inv(m.fs, pre, m.SameFs())
    ensures o.Done? ==> m.fs == Fs(pre, NoDir)
    ensures m.Quiet(rollbackStart) ==> m.fs.live == pre && (o.Done? || TornIndex(m.fs))
  {
    var _ := RunSession(m, actions, stateDir, pre);
    rollbackStart := m.clock;
    o := m.Rollback(stateDir, pre);
    if TornIndex(m.fs) {
      NothingMovedBeforeIndex(m.fs, pre, m.SameFs());
    }
  }

  // ----------------------------------------------- where the assumptions are needed

  /** Some state inside a swap: entry `i` of the index had an original, which is not
      preserved yet and so still in place. */
  ghost predicate Unpreserved(fs: Fs, pre: map<Path, Node>, i: nat)
  {
    && Inv(fs, pre, true) && fs.rollback.Kept? && fs.rollback.index.Complete?
    && i < |fs.rollback.index.entries| && fs.rollback.index.entries[i].dest in pre
    && KeepName(fs.rollback.index.entries[i].dest) !in fs.rollback.keep
  }

  lemma UnpreservedIsLive(fs: Fs, pre: map<Path, Node>, i: nat)
    requires Unpreserved(fs, pre, i)
    ensures Get(fs.live, fs.rollback.index.entries[i].dest) == Get(pre, fs.rollback.index.entries[i].dest)
  {
    EntryOf(fs.rollback.index.entries, i, pre);
    assert RecoveredAt(fs, fs.rollback.index.entries[i].dest) == Get(pre, fs.rollback.index.entries[i].dest);
  }

  /** While its original is not preserved, what stands at a destination decides. */
  lemma LiveDecides(fs: Fs, fs': Fs, pre: map<Path, Node>, i: nat)
    requires Unpreserved(fs, pre, i) && fs'.rollback == fs.rollback
    requires var d := fs.rollback.index.entries[i].dest;
             forall p | p != d :: Get(fs'.live, p) == Get(fs.live, p)
    ensures var d := fs.rollback.index.entries[i].dest;
            Recovers(fs', pre) <==> Get(fs'.live, d) == Get(pre, d)
  {
    var d := fs.rollback.index.entries[i].dest;
    EntryOf(fs.rollback.index.entries, i, pre);
    assert RecoveredAt(fs', d) == Get(fs'.live, d);
    forall p | p != d
      ensures RecoveredAt(fs', p) == Get(pre, p)
    {
      assert RecoveredAt(fs, p) == Get(pre, p);
    }
  }

  /** Anywhere in a swap, an lstat that errs on an existing destination: it is taken for
      absent, and the staged tree is copied over an original that is not preserved. The
      state before the swap stays recoverable under every later fault if the overlay of
      the two trees is the original, and when nothing fails later only then. */
  method OverlookedOriginal(m: Machine, f: SwapFile, i: nat, ghost pre: map<Path, Node>) returns (o: Outcome)
    requires Unpreserved(m.fs, pre, i) && f.dest == m.fs.rollback.index.entries[i].dest && f.source in m.staged
    requires m.blind(m.clock)
    modifies m
    ensures Overlaid(m.staged[f.source], pre[f.dest]) == pre[f.dest] ==> Recovers(m.fs, pre)
    ensures m.Quiet(old(m.clock)) ==>
              && (Recovers(m.fs, pre) <==> Overlaid(m.staged[f.source], pre[f.dest]) == pre[f.dest])
              && (o.Done? <==> Fits(m.staged[f.source], pre[f.dest]))
  {
    ghost var was := m.fs;
    UnpreservedIsLive(m.fs, pre, i);
    o := m.Preserve(f.dest);
    if o.Done? {
      o := m.Promote(f);
    }
    LiveDecides(was, m.fs, pre, i);
  }

  /** The same for master.key: under every later fault nothing is lost if the key is
      refused, a directory stands there, or the same key does, and otherwise it is lost
      when nothing fails later. */
  method OverlookedKey(m: Machine, i: nat, key: string, ghost pre: map<Path, Node>) returns (o: Outcome)
    requires Unpreserved(m.fs, pre, i)
    requires m.blind(m.clock)
    modifies m
    ensures var d := old(m.fs).rollback.index.entries[i].dest;
            |key| != KEY_LENGTH || pre[d].Dir? || pre[d] == File(key) ==> Recovers(m.fs, pre)
    ensures var d := old(m.fs).rollback.index.entries[i].dest;
            m.Quiet(old(m.clock)) ==>
              (Recovers(m.fs, pre) <==> |key| != KEY_LENGTH || pre[d].Dir? || pre[d] == File(key))
  {
    ghost var was := m.fs;
    var d := m.fs.rollback.index.entries[i].dest;
    UnpreservedIsLive(m.fs, pre, i);
    o := m.Preserve(d);
    if o.Done? {
      o := m.WriteMasterKey(d, key);
    }
    LiveDecides(was, m.fs, pre, i);
  }

  /** Right after the fallback copy of a nonempty directory has made its first
      directory, the disk no longer determines what was there. */
  lemma HalfCopiedDirectoryIsLost(fs: Fs, pre: map<Path, Node>, i: nat)
    requires fs.rollback.Kept? && fs.rollback.index.Complete? && i < |fs.rollback.index.entries|
    requires IndexOk(fs.rollback.index.entries)
    requires var d := fs.rollback.index.entries[i].dest;
             && d in pre && !Plain(pre[d])
             && KeepName(d) in fs.rollback.keep && fs.rollback.keep[KeepName(d)] == Dir(map[])
    ensures !Recovers(fs, pre)
  {
    var entry := fs.rollback.index.entries[i];
    assert entry == RollbackEntry(entry.dest, true) || entry == RollbackEntry(entry.dest, false);
    assert RecoveredAt(fs, entry.dest) == Some(Dir(map[])) != Get(pre, entry.dest);
  }

  /** `PreservableAt` is exact: anywhere in a swap, where a rename does not work and the
      original is a nonempty directory, a fallback copy that stops after its first call,
      by a power cut or by a plain error, leaves a copy that stands for a wrong state. */
  method InterruptedFallback(m: Machine, i: nat, ghost pre: map<Path, Node>) returns (o: Outcome)
    requires Unpreserved(m.fs, pre, i)
    requires !m.renames(m.clock) && !PreservableAt(m.SameFs(), pre, m.fs.rollback.index.entries[i].dest)
    requires m.fault(m.clock) != Crash && m.fault(m.clock + 1) == Proceed && m.fault(m.clock + 2) != Proceed
    modifies m
    ensures !o.Done? && !Recovers(m.fs, pre)
    ensures HalfKept(m.fs, old(m.fs), pre, i)
  {
    UnpreservedIsLive(m.fs, pre, i);
    o := m.MoveAside(m.fs.rollback.index.entries[i].dest);
    HalfCopiedDirectoryIsLost(m.fs, pre, i);
  }

  /** After such a stop: the original still in place, next to an empty copy of it. */
  ghost predicate HalfKept(fs: Fs, was: Fs, pre: map<Path, Node>, i: nat)
    requires was.rollback.Kept? && was.rollback.index.Complete? && i < |was.rollback.index.entries|
    requires |was.rollback.index.entries[i].dest| > 0
  {
    var d := was.rollback.index.entries[i].dest;
    && fs.rollback.Kept? && fs.rollback.index == was.rollback.index
    && Get(fs.live, d) == Get(pre, d)
    && KeepName(d) in fs.rollback.keep && fs.rollback.keep[KeepName(d)] == Dir(map[])
  }

  /** The rollback of that entry, with nothing failing, then destroys the original: it
      trusts the copy. No power cut is needed anywhere. */
  method RollbackOfHalfKept(m: Machine, i: nat, ghost was: Fs, ghost pre: map<Path, Node>) returns (o: Outcome)
    requires Unpreserved(was, pre, i) && !Plain(pre[was.rollback.index.entries[i].dest])
    requires HalfKept(m.fs, was, pre, i) && m.Quiet(m.clock)
    modifies m
    ensures o.Done?
    ensures Get(m.fs.live, was.rollback.index.entries[i].dest) == Some(Dir(map[])) != Get(pre, was.rollback.index.entries[i].dest)
  {
    var d := m.fs.rollback.index.entries[i].dest;
    o := m.Call();  // lstat of the keep name
    o := m.RemoveLive(d);
    o := m.MoveBack(d);
  }
}
