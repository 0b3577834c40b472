/** The machine that runs the swap, one system call at a time, under any faults. */
module SwapMachine {
  import opened Faults
  import opened Wrappers
  import opened SwapModel

  const KEY_LENGTH := 32

  /** The directory of the first destination, which every other one must share. */
  function StateDirOf(plan: Plan): Path
    requires |plan.files| > 0 && |plan.files[0].dest| > 0
  {
    plan.files[0].dest[..|plan.files[0].dest| - 1]
  }

  /** What an attempt needs from its plan; the planner provides it. */
  ghost predicate PlanOk(plan: Plan)
  {
    && |plan.files| > 0 && |plan.files[0].dest| > 0
    && (forall i | 0 <= i < |Dests(plan)| :: ChildOf(StateDirOf(plan), Dests(plan)[i]))
    && (forall i, j | 0 <= i < j < |Dests(plan)| :: Dests(plan)[i] != Dests(plan)[j])
  }

  /** Every path the plan replaces, in order. */
  function Dests(plan: Plan): (ds: seq<Path>)
    ensures |ds| == |plan.files| + (if plan.unwrap.Some? then 1 else 0)
    ensures forall i | 0 <= i < |plan.files| :: ds[i] == plan.files[i].dest
    ensures plan.unwrap.Some? ==> ds[|plan.files|] == plan.unwrap.value
  {
    seq(|plan.files|, i requires 0 <= i < |plan.files| => plan.files[i].dest)
    + (if plan.unwrap.Some? then [plan.unwrap.value] else [])
  }

  /** The first `n` files are in place and nothing else moved. */
  ghost predicate PromotedUpTo(live: map<Path, Node>, pre: map<Path, Node>, plan: Plan, staged: map<Path, Node>, n: nat)
    requires n <= |plan.files|
  {
    && (forall i | 0 <= i < n ::
          plan.files[i].source in staged && Get(live, plan.files[i].dest) == Some(staged[plan.files[i].source]))
    && (forall p | p !in Dests(plan)[..n] :: Get(live, p) == Get(pre, p))
  }

  /** The whole plan is in place: staged trees at their destinations, the key in
      master.key, and every other path as it was in `pre`. */
  ghost predicate Promoted(live: map<Path, Node>, pre: map<Path, Node>, plan: Plan, staged: map<Path, Node>, key: string)
  {
    && (forall i | 0 <= i < |plan.files| ::
          plan.files[i].source in staged && Get(live, plan.files[i].dest) == Some(staged[plan.files[i].source]))
    && (plan.unwrap.Some? ==> |key| == KEY_LENGTH && Get(live, plan.unwrap.value) == Some(File(key)))
    && (forall p | p !in Dests(plan) :: Get(live, p) == Get(pre, p))
  }

  class Machine {
    var fs: Fs
    /** How many system calls have been made. */
    var clock: nat
    const staged: map<Path, Node>
    /** Whether call `n`, if it is a rename between the state directory and the rollback
        directory, works. */
    const renames: nat -> bool
    const fault: nat -> Fault
    /** Whether call `n`, if it is the lstat before a destination is replaced, errs on a
        path that is there. */
    const blind: nat -> bool

    constructor (fs: Fs, staged: map<Path, Node>, renames: nat -> bool, fault: nat -> Fault, blind: nat -> bool)
      ensures this.fs == fs && this.clock == 0
      ensures this.staged == staged && this.renames == renames && this.fault == fault && this.blind == blind
    {
      this.fs, this.clock := fs, 0;
      this.staged, this.renames, this.fault, this.blind := staged, renames, fault, blind;
    }

    /** Those renames always work, as on one file system. */
    ghost predicate SameFs()
    {
      forall i: nat :: renames(i)
    }

    /** That lstat never errs on a path that is there. */
    ghost predicate Sighted()
    {
      forall i: nat :: !blind(i)
    }

    /** From call `start` on, no call fails and the machine does not stop. */
    ghost predicate Quiet(start: nat)
    {
      forall i: nat | start <= i :: fault(i) == Proceed
    }

    method Call() returns (o: Outcome)
      modifies this`clock
      ensures clock == old(clock) + 1
      ensures o == OutcomeOf(fault(old(clock)))
    {
      o := OutcomeOf(fault(clock));
      clock := clock + 1;
    }

    // ------------------------------------------------------------ whole trees

    /** os.RemoveAll: children first, in any order. An interruption leaves the rest. */
    method RemoveTree(n: Node) returns (o: Outcome, rest: Option<Node>)
      modifies this`clock
      ensures clock >= old(clock)
      ensures o.Done? <==> rest.None?
      ensures !o.Done? && Plain(n) ==> rest == Some(n)
      ensures Quiet(old(clock)) ==> o.Done?
      decreases n
    {
      if n.Dir? {
        var left := n.entries;
        while left != map[]
          invariant clock >= old(clock)
          invariant left.Keys <= n.entries.Keys
          invariant forall k | k in left :: left[k] == n.entries[k]
          decreases |left|
        {
          var k :| k in left;
          var childRest;
          o, childRest := RemoveTree(left[k]);
          if !o.Done? {
            return o, Some(Dir(left[k := childRest.value]));
          }
          left := left - {k};
        }
      }
      o := Call();
      rest := if o.Done? then None else Some(if n.Dir? then Dir(map[]) else n);
    }

    /** copyTree: a file arrives by an atomic rename, a directory entry by entry.
        `dst` is what stands at the destination; `out` is what stands there after. */
    method CopyTree(src: Node, dst: Option<Node>) returns (o: Outcome, out: Option<Node>)
      modifies this`clock
      ensures clock >= old(clock)
      ensures o.Done? ==> (dst.Some? ==> Fits(src, dst.value)) && out == Some(Landed(src, dst))
      ensures dst.Some? && Overlaid(src, dst.value) == dst.value ==> out == dst
      ensures !o.Done? && src.File? ==> out == dst
      ensures !o.Done? && dst.None? && Plain(src) ==> out == None || out == Some(src)
      ensures Quiet(old(clock)) ==> (o.Done? <==> dst.Some? ==> Fits(src, dst.value)) && out == Some(Landed(src, dst))
      ensures src.Dir? && src.entries != map[] && dst.None?
              && fault(old(clock)) == Proceed && fault(old(clock) + 1) != Proceed
              ==> o == OutcomeOf(fault(old(clock) + 1)) && out == Some(Dir(map[]))
      decreases src, 2
    {
      o := Call();  // mkdir of the directory, or the write of the temporary file
      if !o.Done? {
        return o, dst;
      }
      if src.File? {
        o := Call();  // rename of the temporary file
        if !o.Done? {
          return o, dst;
        }
        if dst.Some? && dst.value.Dir? {
          return Failed, dst;
        }
        return Done, Some(src);
      }
      if dst.Some? && dst.value.File? {
        return Failed, dst;
      }
      var made := if dst.Some? then dst.value.entries else map[];
      o := Call();  // readdir
      if !o.Done? {
        return o, Some(Dir(made));
      }
      var children;
      o, children := CopyEntries(src, made);
      out := Some(Dir(children));
      if dst.None? {
        NothingMade(src.entries);
      }
    }

    /** The entries of directory `src` into a directory that already holds `made`. */
    method CopyEntries(src: Node, made: map<string, Node>) returns (o: Outcome, out: map<string, Node>)
      requires src.Dir?
      modifies this`clock
      ensures clock >= old(clock)
      ensures o.Done? ==> Fits(src, Dir(made)) && Dir(out) == Overlaid(src, Dir(made))
      ensures Overlaid(src, Dir(made)) == Dir(made) ==> out == made
      ensures src.entries == map[] ==> o.Done? && out == made
      ensures Quiet(old(clock)) ==> (o.Done? <==> Fits(src, Dir(made))) && Dir(out) == Overlaid(src, Dir(made))
      decreases src, 1
    {
      out := made;
      var todo := src.entries;
      ghost var all := Overlaid(src, Dir(made)).entries;
      CopyStarts(src, made);
      while todo != map[]
        invariant clock >= old(clock)
        invariant HalfCopied(src, made, all, todo, out)
        decreases |todo|
      {
        var k;
        o, k, out := CopyNext(src, made, todo, out);
        if !o.Done? {
          return;
        }
        todo := todo - {k};
      }
      SameChildren(out, all);
      o := Done;
    }

    /** The first of the entries still to copy. */
    method CopyNext(src: Node, made: map<string, Node>, todo: map<string, Node>, before: map<string, Node>)
      returns (o: Outcome, k: string, out: map<string, Node>)
      requires src.Dir? && HalfCopied(src, made, Overlaid(src, Dir(made)).entries, todo, before) && todo != map[]
      modifies this`clock
      ensures clock >= old(clock) && k in todo
      ensures o.Done? ==> HalfCopied(src, made, Overlaid(src, Dir(made)).entries, todo - {k}, out)
      ensures Overlaid(src, Dir(made)) == Dir(made) ==> out == made
      ensures Quiet(old(clock)) && !o.Done? ==> !Fits(src, Dir(made)) && Dir(out) == Overlaid(src, Dir(made))
      decreases src, 0
    {
      ghost var all := Overlaid(src, Dir(made)).entries;
      ghost var first := FirstName(todo.Keys);
      k :| k in todo && forall j | j in todo :: j == k || Less(k, j);
      assert todo[k] == src.entries[k] < src;
      assert ChildAt(before, k) == ChildAt(made, k);
      LandsAt(src, made, all, todo, before, k);
      var child;
      o, child := CopyTree(todo[k], ChildAt(before, k));
      out := if child.Some? then before[k := child.value] else before;
      if all == made {
        CopyUnchanged(src, made, todo, before, k, child);
      }
      if o.Done? {
        CopiedOne(src, made, all, todo, before, k, child);
      } else if Quiet(old(clock)) {
        BlockedAfter(src, made, k);
        CopyStopped(src, made, all, todo, before, k, child);
      }
    }

    // ------------------------------------------------- single moves of the swap

    /** moveOrCopy from a live path to its keep name: a rename, or a copy when
        rename does not work there. The copy leaves the live path in place. */
    method MoveAside(d: Path) returns (o: Outcome)
      requires |d| > 0 && d in fs.live
      requires fs.rollback.Kept? && KeepName(d) !in fs.rollback.keep
      modifies this
      ensures clock >= old(clock)
      ensures fs.rollback.Kept? && fs.rollback.index == old(fs.rollback.index)
      ensures forall p | p != d :: Get(fs.live, p) == Get(old(fs.live), p)
      ensures forall k | k != KeepName(d) ::
                (k in fs.rollback.keep <==> k in old(fs.rollback.keep))
                && (k in fs.rollback.keep ==> fs.rollback.keep[k] == old(fs.rollback.keep)[k])
      ensures KeepName(d) in fs.rollback.keep && (o.Done? || Plain(old(fs.live)[d])) ==>
                fs.rollback.keep[KeepName(d)] == old(fs.live)[d]
      ensures o.Done? ==> KeepName(d) in fs.rollback.keep
      ensures fs.live == old(fs.live) || (o.Done? && d !in fs.live)
      ensures SameFs() ==> (o.Done? <==> d !in fs.live) && (o.Done? <==> KeepName(d) in fs.rollback.keep)
      ensures Quiet(old(clock)) ==> o.Done?
      ensures !renames(old(clock)) && !Plain(old(fs.live)[d]) && fault(old(clock)) != Crash
              && fault(old(clock) + 1) == Proceed && fault(old(clock) + 2) != Proceed
              ==> o == OutcomeOf(fault(old(clock) + 2))
                  && KeepName(d) in fs.rollback.keep && fs.rollback.keep[KeepName(d)] == Dir(map[])
    {
      o := Call();  // rename
      if o.Crashed? {
        return;
      }
      var keep := fs.rollback.keep;
      if renames(clock - 1) {
        fs := Fs(fs.live - {d}, fs.rollback.(keep := keep[KeepName(d) := fs.live[d]]));
        return Done;
      }
      var out;
      o, out := CopyTree(fs.live[d], None);
      if out.Some? {
        fs := fs.(rollback := fs.rollback.(keep := keep[KeepName(d) := out.value]));
      }
    }

    /** os.RemoveAll of a live path. */
    method RemoveLive(d: Path) returns (o: Outcome)
      modifies this
      ensures clock >= old(clock)
      ensures fs.rollback == old(fs.rollback)
      ensures forall p | p != d :: Get(fs.live, p) == Get(old(fs.live), p)
      ensures o.Done? ==> d !in fs.live
      ensures Quiet(old(clock)) ==> o.Done?
    {
      if d !in fs.live {
        o := Call();
        return;
      }
      var rest;
      o, rest := RemoveTree(fs.live[d]);
      fs := fs.(live := if rest.Some? then fs.live[d := rest.value] else fs.live - {d});
    }

    /** moveOrCopy from a keep name back to the live path it came from, already cleared. */
    method MoveBack(d: Path) returns (o: Outcome)
      requires |d| > 0 && d !in fs.live
      requires fs.rollback.Kept? && KeepName(d) in fs.rollback.keep
      modifies this
      ensures clock >= old(clock)
      ensures fs.rollback.Kept? && fs.rollback.index == old(fs.rollback.index)
      ensures forall p | p != d :: Get(fs.live, p) == Get(old(fs.live), p)
      ensures o.Done? ==> Get(fs.live, d) == Some(old(fs.rollback.keep)[KeepName(d)])
      ensures fs.rollback.keep == old(fs.rollback.keep)
              || (o.Done? && fs.rollback.keep == old(fs.rollback.keep) - {KeepName(d)})
      ensures SameFs() && o.Done? ==> KeepName(d) !in fs.rollback.keep
      ensures Quiet(old(clock)) ==> o.Done?
    {
      o := Call();  // rename
      if o.Crashed? {
        return;
      }
      var kept := fs.rollback.keep[KeepName(d)];
      if renames(clock - 1) {
        fs := Fs(fs.live[d := kept], fs.rollback.(keep := fs.rollback.keep - {KeepName(d)}));
        return Done;
      }
      var out;
      o, out := CopyTree(kept, None);
      fs := fs.(live := if out.Some? then fs.live[d := out.value] else fs.live);
    }

    // ------------------------------------------------------------------ rollback

    /** One step of that removal: the index, or one preserved copy. */
    method RemoveOneKept(ghost pre: map<Path, Node>) returns (o: Outcome)
      requires Inv(fs, pre, SameFs()) && fs.live == pre && fs.rollback.Kept?
      requires fs.rollback.index.Complete? ==> forall k | k in fs.rollback.keep :: Plain(fs.rollback.keep[k])
      requires !fs.rollback.index.Absent? || fs.rollback.keep != map[]
      modifies this
      ensures clock >= old(clock)
      ensures Inv(fs, pre, SameFs()) && fs.live == pre && fs.rollback.Kept?
      ensures fs.rollback.index.Complete? ==> forall k | k in fs.rollback.keep :: Plain(fs.rollback.keep[k])
      ensures fs.rollback.index == old(fs.rollback.index) || fs.rollback.index.Absent?
      ensures o.Done? ==>
                || (!old(fs.rollback.index).Absent? && fs.rollback.index.Absent? && fs.rollback.keep == old(fs.rollback.keep))
                || (fs.rollback.index == old(fs.rollback.index) && |fs.rollback.keep| < |old(fs.rollback.keep)|)
      ensures Quiet(old(clock)) ==> o.Done?
    {
      ghost var was := fs;
      var keep := fs.rollback.keep;
      var indexFirst: bool := *;
      if keep == map[] || (indexFirst && !fs.rollback.index.Absent?) {
        o := Call();
        if o.Done? {
          fs := fs.(rollback := Kept(Absent, keep));
          SettledStep(was, fs, pre, SameFs());
        }
        return;
      }
      var k :| k in keep;
      o := RemoveKept(k, pre);
    }

    /** os.RemoveAll of one preserved copy; only a copy that the index no longer
        mentions can be left half removed. */
    method RemoveKept(k: string, ghost pre: map<Path, Node>) returns (o: Outcome)
      requires Inv(fs, pre, SameFs()) && fs.live == pre && fs.rollback.Kept? && k in fs.rollback.keep
      requires fs.rollback.index.Complete? ==> Plain(fs.rollback.keep[k])
      modifies this
      ensures clock >= old(clock)
      ensures Inv(fs, pre, SameFs()) && fs.live == pre && fs.rollback.Kept?
      ensures fs.rollback.index == old(fs.rollback.index)
      ensures o.Done? ==> fs.rollback.keep == old(fs.rollback.keep) - {k}
      ensures !o.Done? && fs.rollback.index.Complete? ==> fs == old(fs)
      ensures Quiet(old(clock)) ==> o.Done?
    {
      ghost var was := fs;
      var keep := fs.rollback.keep;
      var rest;
      o, rest := RemoveTree(keep[k]);
      if rest.None? {
        fs := fs.(rollback := Kept(fs.rollback.index, keep - {k}));
        SettledStep(was, fs, pre, SameFs());
      } else if fs.rollback.index.Absent? {
        fs := fs.(rollback := Kept(Absent, keep[k := rest.value]));
        assert forall p :: RecoveredAt(fs, p) == RecoveredAt(was, p);
      }
    }

    /** os.RemoveAll of the rollback directory, in any order, once all is restored. */
    method RemoveRollbackDir(ghost pre: map<Path, Node>) returns (o: Outcome)
      requires Inv(fs, pre, SameFs()) && fs.live == pre && fs.rollback.Kept?
      requires fs.rollback.index.Complete? ==> forall k | k in fs.rollback.keep :: Plain(fs.rollback.keep[k])
      modifies this
      ensures clock >= old(clock)
      ensures Inv(fs, pre, SameFs()) && fs.live == pre
      ensures o.Done? ==> fs.rollback.NoDir?
      ensures fs.rollback.Kept? ==> fs.rollback.index == old(fs.rollback.index) || fs.rollback.index.Absent?
      ensures Quiet(old(clock)) ==> o.Done?
    {
      while !fs.rollback.index.Absent? || fs.rollback.keep != map[]
        invariant clock >= old(clock)
        invariant Inv(fs, pre, SameFs()) && fs.live == pre && fs.rollback.Kept?
        invariant fs.rollback.index.Complete? ==> forall k | k in fs.rollback.keep :: Plain(fs.rollback.keep[k])
        invariant fs.rollback.index == old(fs.rollback.index) || fs.rollback.index.Absent?
        decreases !fs.rollback.index.Absent?, |fs.rollback.keep|
      {
        o := RemoveOneKept(pre);
        if !o.Done? {
          return;
        }
      }
      o := Call();  // rmdir
      if o.Done? {
        ghost var was := fs;
        fs := fs.(rollback := NoDir);
        assert forall p :: RecoveredAt(fs, p) == RecoveredAt(was, p);
      }
    }

    /** One entry of the index, restored. */
    method RollbackEntryAt(i: nat, ghost pre: map<Path, Node>) returns (o: Outcome)
      requires Inv(fs, pre, SameFs()) && fs.rollback.Kept? && fs.rollback.index.Complete?
      requires i < |fs.rollback.index.entries|
      modifies this
      ensures clock >= old(clock)
      ensures Inv(fs, pre, SameFs()) && fs.rollback.Kept? && fs.rollback.index == old(fs.rollback.index)
      ensures fs.rollback.keep.Keys <= old(fs.rollback.keep).Keys
      ensures var d := fs.rollback.index.entries[i].dest;
              && (forall p | p != d :: Get(fs.live, p) == Get(old(fs.live), p))
              && (o.Done? ==> Get(fs.live, d) == Get(pre, d))
              && (o.Done? && SameFs() ==> KeepName(d) !in fs.rollback.keep)
      ensures Quiet(old(clock)) ==> o.Done?
    {
      var entry := fs.rollback.index.entries[i];
      var d := entry.dest;
      EntryOf(fs.rollback.index.entries, i, pre);
      assert RecoveredAt(fs, d) == Get(pre, d);
      o := Call();  // lstat of the keep name
      if !o.Done? {
        return;
      }
      ghost var was := fs;
      if KeepName(d) in fs.rollback.keep {
        KeptHasOriginal(fs, pre, SameFs(), i);
        o := RemoveLive(d);
        StepAt(was, fs, pre, SameFs(), i);
        if !o.Done? {
          return;
        }
        was := fs;
        o := MoveBack(d);
        StepAt(was, fs, pre, SameFs(), i);
      } else if !entry.hadOriginal {
        o := RemoveLive(d);
        StepAt(was, fs, pre, SameFs(), i);
      }
    }

    /** The backwards loop over the index. */
    method RollbackEntries(stateDir: Path, ghost pre: map<Path, Node>) returns (o: Outcome)
      requires Inv(fs, pre, SameFs()) && fs.rollback.Kept? && fs.rollback.index.Complete?
      modifies this
      ensures clock >= old(clock)
      ensures Inv(fs, pre, SameFs()) && fs.rollback.Kept? && fs.rollback.index == old(fs.rollback.index)
      ensures o.Done? ==> fs.live == pre && forall k | k in fs.rollback.keep :: Plain(fs.rollback.keep[k])
      ensures Quiet(old(clock)) && UnderAll(old(fs), stateDir) ==> o.Done?
    {
      var es := fs.rollback.index.entries;
      var i := |es|;
      o := Done;
      while i > 0
        invariant clock >= old(clock)
        invariant 0 <= i <= |es|
        invariant Inv(fs, pre, SameFs()) && fs.rollback.Kept? && fs.rollback.index == Complete(es)
        invariant RestoredFrom(fs, es, pre, SameFs(), i)
      {
        i := i - 1;
        if !(stateDir < es[i].dest) {
          return Failed;  // the destination escapes the state directory
        }
        ghost var was := fs;
        o := RollbackEntryAt(i, pre);
        if !o.Done? {
          return;
        }
        RestoredOne(was, fs, es, pre, SameFs(), i);
      }
      AllRestored(fs, pre, SameFs());
      o := Done;
    }

    /** RollbackServerConfigSwap. Whatever interrupts it, `pre` stays recoverable;
        when it succeeds, `pre` is back and the rollback directory is gone. */
    method Rollback(stateDir: Path, ghost pre: map<Path, Node>) returns (o: Outcome)
      requires Inv(fs, pre, SameFs())
      modifies this
      ensures clock >= old(clock)
      ensures Inv(fs, pre, SameFs())
      ensures o.Done? ==> fs == Fs(pre, NoDir)
      ensures old(fs.rollback).NoDir? ==> fs == old(fs)
      ensures TornIndex(old(fs)) ==> !o.Done? && fs == old(fs)
      ensures fs.rollback.Kept? && !fs.rollback.index.Absent? ==>
                old(fs.rollback).Kept? && fs.rollback.index == old(fs.rollback).index
      ensures Quiet(old(clock)) && !TornIndex(old(fs)) && UnderAll(old(fs), stateDir) ==> o.Done?
    {
      o := Call();  // read index.json
      if !o.Done? {
        return;
      }
      if fs.rollback.NoDir? {
        NothingMovedBeforeIndex(fs, pre, SameFs());
        return;
      }
      match fs.rollback.index {
        case Torn =>
          return Failed;  // not a JSON document
        case Absent =>
          NothingMovedBeforeIndex(fs, pre, SameFs());
        case Complete(_) =>
          o := RollbackEntries(stateDir, pre);
          if !o.Done? {
            return;
          }
      }
      o := RemoveRollbackDir(pre);
    }

    // --------------------------------------------------------------------- swap

    /** The index of `plan` is complete and its first `n` files are in place. */
    ghost predicate Swapping(plan: Plan, pre: map<Path, Node>, n: nat)
      reads this
    {
      && PlanOk(plan) && n <= |plan.files|
      && Inv(fs, pre, SameFs())
      && fs.rollback.Kept? && fs.rollback.index.Complete?
      && |fs.rollback.index.entries| == |Dests(plan)|
      && (forall i | 0 <= i < |Dests(plan)| :: fs.rollback.index.entries[i].dest == Dests(plan)[i])
      && (forall i | n <= i < |Dests(plan)| :: KeepName(Dests(plan)[i]) !in fs.rollback.keep)
      && PromotedUpTo(fs.live, pre, plan, staged, n)
    }

    /** lstat of a destination and, if that finds it, its move aside. An lstat that errs
        counts as one that finds nothing. */
    method Preserve(d: Path) returns (o: Outcome)
      requires |d| > 0 && fs.rollback.Kept? && KeepName(d) !in fs.rollback.keep
      modifies this
      ensures clock > old(clock)
      ensures fs.rollback.Kept? && fs.rollback.index == old(fs.rollback.index)
      ensures forall p | p != d :: Get(fs.live, p) == Get(old(fs.live), p)
      ensures forall k | k != KeepName(d) ::
                (k in fs.rollback.keep <==> k in old(fs.rollback.keep))
                && (k in fs.rollback.keep ==> fs.rollback.keep[k] == old(fs.rollback.keep)[k])
      ensures d !in old(fs.live) || blind(old(clock)) ==> fs == old(fs) && (Quiet(old(clock)) ==> o.Done?)
      ensures d in old(fs.live) && KeepName(d) in fs.rollback.keep && (o.Done? || Plain(old(fs.live)[d])) ==>
                fs.rollback.keep[KeepName(d)] == old(fs.live)[d]
      ensures d in old(fs.live) && !blind(old(clock)) && o.Done? ==> KeepName(d) in fs.rollback.keep
      ensures fs.live == old(fs.live) || (o.Done? && d !in fs.live)
      ensures d in old(fs.live) && !blind(old(clock)) && SameFs() ==>
                (o.Done? <==> d !in fs.live) && (o.Done? <==> KeepName(d) in fs.rollback.keep)
      ensures Quiet(old(clock)) ==> o.Done?
    {
      o := Call();  // lstat
      if o.Crashed? {
        return;
      }
      if d !in fs.live || blind(clock - 1) {
        return Done;
      }
      o := MoveAside(d);
    }

    /** The same for destination `n`, with an lstat that is right. */
    method PreserveAt(plan: Plan, n: nat, ghost pre: map<Path, Node>) returns (o: Outcome)
      requires Swapping(plan, pre, n) && n < |Dests(plan)|
      requires PreservableAt(SameFs(), pre, Dests(plan)[n]) && Sighted()
      modifies this
      ensures clock >= old(clock)
      ensures Inv(fs, pre, SameFs()) && fs.rollback.Kept? && fs.rollback.index == old(fs.rollback.index)
      ensures forall p | p != Dests(plan)[n] :: Get(fs.live, p) == Get(old(fs.live), p)
      ensures forall i | n < i < |Dests(plan)| :: KeepName(Dests(plan)[i]) !in fs.rollback.keep
      ensures o.Done? ==> (KeepName(Dests(plan)[n]) in fs.rollback.keep <==> Dests(plan)[n] in pre)
      ensures o.Done? && Dests(plan)[n] in fs.live ==> Plain(fs.live[Dests(plan)[n]])
      ensures Dests(plan)[n] in fs.live ==> Get(fs.live, Dests(plan)[n]) == Get(pre, Dests(plan)[n])
      ensures o.Done? && SameFs() ==> Dests(plan)[n] !in fs.live
      ensures Quiet(old(clock)) ==> o.Done?
    {
      var d := Dests(plan)[n];
      assert d !in Dests(plan)[..n];
      assert Get(fs.live, d) == Get(pre, d);
      ghost var was := fs;
      EntryOf(fs.rollback.index.entries, n, pre);
      o := Preserve(d);
      StepAt(was, fs, pre, SameFs(), n);
    }

    /** copyTree of a staged tree to its destination. */
    method Promote(f: SwapFile) returns (o: Outcome)
      requires f.source in staged
      modifies this
      ensures clock >= old(clock) && fs.rollback == old(fs.rollback)
      ensures forall p | p != f.dest :: Get(fs.live, p) == Get(old(fs.live), p)
      ensures o.Done? ==> Get(fs.live, f.dest) == Some(Landed(staged[f.source], Get(old(fs.live), f.dest)))
      ensures o.Done? && f.dest in old(fs.live) ==> Fits(staged[f.source], old(fs.live)[f.dest])
      ensures f.dest in old(fs.live) && Overlaid(staged[f.source], old(fs.live)[f.dest]) == old(fs.live)[f.dest] ==>
                Get(fs.live, f.dest) == Get(old(fs.live), f.dest)
      ensures Quiet(old(clock)) ==>
                && (o.Done? <==> f.dest in old(fs.live) ==> Fits(staged[f.source], old(fs.live)[f.dest]))
                && Get(fs.live, f.dest) == Some(Landed(staged[f.source], Get(old(fs.live), f.dest)))
    {
      var out;
      o, out := CopyTree(staged[f.source], Get(fs.live, f.dest));
      fs := fs.(live := if out.Some? then fs.live[f.dest := out.value] else fs.live - {f.dest});
    }

    /** The same where the original is preserved. */
    method PromoteAt(plan: Plan, n: nat, ghost pre: map<Path, Node>) returns (o: Outcome)
      requires PlanOk(plan) && n < |plan.files| && plan.files[n].source in staged
      requires Inv(fs, pre, SameFs()) && fs.rollback.Kept? && fs.rollback.index.Complete?
      requires n < |fs.rollback.index.entries| && fs.rollback.index.entries[n].dest == plan.files[n].dest
      requires var d := plan.files[n].dest;
               && (KeepName(d) in fs.rollback.keep <==> d in pre)
               && (d in fs.live ==> Plain(fs.live[d]))
      modifies this
      ensures clock >= old(clock)
      ensures Inv(fs, pre, SameFs()) && fs.rollback == old(fs.rollback)
      ensures forall p | p != plan.files[n].dest :: Get(fs.live, p) == Get(old(fs.live), p)
      ensures o.Done? ==> Get(fs.live, plan.files[n].dest) == Some(staged[plan.files[n].source])
      ensures var f := plan.files[n];
              Quiet(old(clock)) && (f.dest in old(fs.live) ==> Fits(staged[f.source], old(fs.live)[f.dest])) ==> o.Done?
    {
      var f := plan.files[n];
      ghost var was := fs;
      EntryOf(fs.rollback.index.entries, n, pre);
      assert RecoveredAt(was, f.dest) == Get(pre, f.dest);
      o := Promote(f);
      StepAt(was, fs, pre, SameFs(), n);
      if o.Done? && f.dest in was.live {
        OverPlain(staged[f.source], was.live[f.dest]);
      }
    }

    /** swapOneFile: the live path aside, then the staged tree in its place. */
    method SwapOneFile(plan: Plan, n: nat, ghost pre: map<Path, Node>) returns (o: Outcome)
      requires Swapping(plan, pre, n) && n < |plan.files|
      requires PreservableAt(SameFs(), pre, Dests(plan)[n]) && Sighted()
      modifies this
      ensures clock >= old(clock)
      ensures Inv(fs, pre, SameFs()) && fs.rollback.Kept? && fs.rollback.index == old(fs.rollback.index)
      ensures o.Done? ==> Swapping(plan, pre, n + 1)
      ensures Quiet(old(clock)) && plan.files[n].source in staged && Unhindered(plan, pre) ==> o.Done?
    {
      var f := plan.files[n];
      ghost var before := fs.live;
      o := Call();  // mkdir of the parent
      if !o.Done? {
        return;
      }
      o := PreserveAt(plan, n, pre);
      if !o.Done? {
        return;
      }
      if f.source !in staged {
        return Failed;
      }
      o := PromoteAt(plan, n, pre);
      if !o.Done? {
        return;
      }
      var chmod := Call();
      if chmod.Crashed? {
        return Crashed;
      }
      PromoteNext(before, fs.live, pre, plan, staged, n);
    }

    /** writeMasterKey: a temporary file and a rename, of exactly 32 bytes. */
    method WriteMasterKey(d: Path, key: string) returns (o: Outcome)
      modifies this
      ensures clock >= old(clock)
      ensures o.Done? ==> |key| == KEY_LENGTH && !(d in old(fs.live) && old(fs.live)[d].Dir?)
      ensures fs == if o.Done? then Fs(old(fs).live[d := File(key)], old(fs).rollback) else old(fs)
      ensures Quiet(old(clock)) && |key| == KEY_LENGTH && (d in old(fs.live) ==> old(fs.live)[d].File?) ==> o.Done?
    {
      if |key| != KEY_LENGTH {
        return Failed;
      }
      o := Call();  // write of the temporary file
      if !o.Done? {
        return;
      }
      o := Call();  // rename of the temporary file
      if !o.Done? {
        return;
      }
      if d in fs.live && fs.live[d].Dir? {
        return Failed;
      }
      fs := fs.(live := fs.live[d := File(key)]);
    }

    /** The same where the original is preserved. */
    method PutKey(plan: Plan, key: string, ghost pre: map<Path, Node>) returns (o: Outcome)
      requires PlanOk(plan) && plan.unwrap.Some?
      requires Inv(fs, pre, SameFs()) && fs.rollback.Kept? && fs.rollback.index.Complete?
      requires |plan.files| < |fs.rollback.index.entries|
      requires var d := plan.unwrap.value;
               && fs.rollback.index.entries[|plan.files|].dest == d
               && (KeepName(d) in fs.rollback.keep <==> d in pre)
      modifies this
      ensures clock >= old(clock)
      ensures Inv(fs, pre, SameFs()) && fs.rollback == old(fs.rollback)
      ensures o.Done? ==> |key| == KEY_LENGTH && fs.live == old(fs.live)[plan.unwrap.value := File(key)]
      ensures var d := plan.unwrap.value;
              Quiet(old(clock)) && |key| == KEY_LENGTH && (d in old(fs.live) ==> old(fs.live)[d].File?) ==> o.Done?
    {
      ghost var was := fs;
      EntryOf(fs.rollback.index.entries, |plan.files|, pre);
      assert RecoveredAt(was, plan.unwrap.value) == Get(pre, plan.unwrap.value);
      o := WriteMasterKey(plan.unwrap.value, key);
      StepAt(was, fs, pre, SameFs(), |plan.files|);
    }

    /** The last destination: any master.key aside, then the supplied key in its place. */
    method InstallKey(plan: Plan, key: string, ghost pre: map<Path, Node>) returns (o: Outcome)
      requires Swapping(plan, pre, |plan.files|) && plan.unwrap.Some?
      requires PreservableAt(SameFs(), pre, plan.unwrap.value) && Sighted()
      modifies this
      ensures clock >= old(clock)
      ensures Inv(fs, pre, SameFs()) && fs.rollback.Kept? && fs.rollback.index == old(fs.rollback.index)
      ensures o.Done? ==> Promoted(fs.live, pre, plan, staged, key)
      ensures Quiet(old(clock)) && Unhindered(plan, pre) && |key| == KEY_LENGTH ==> o.Done?
    {
      ghost var before := fs.live;
      o := PreserveAt(plan, |plan.files|, pre);
      if !o.Done? {
        return;
      }
      o := PutKey(plan, key, pre);
      if o.Done? {
        PromoteKey(before, fs.live, pre, plan, staged, key);
      }
    }

    /** A stop before the sync: the index, and the directory it was made in, may be on
        the disk, or torn, or missing. */
    method LoseUnsynced()
      requires fs.rollback.Kept? && fs.rollback.keep == map[]
      modifies this`fs
      ensures fs.live == old(fs.live)
      ensures fs.rollback in {old(fs.rollback), Kept(Torn, map[]), Kept(Absent, map[]), NoDir}
    {
      var left: nat := *;
      match left {
        case 0 =>
        case 1 => fs := fs.(rollback := Kept(Torn, map[]));
        case 2 => fs := fs.(rollback := Kept(Absent, map[]));
        case _ => fs := fs.(rollback := NoDir);
      }
    }

    /** index.json: created, written, synced with its directories. Until the sync has
        returned, a stop may leave any part of it; no live path moves before that. */
    method WriteIndex(plan: Plan, es: seq<RollbackEntry>, ghost pre: map<Path, Node>) returns (o: Outcome)
      requires PlanOk(plan) && fs == Fs(pre, Kept(Absent, map[]))
      requires |es| == |Dests(plan)|
      requires forall i | 0 <= i < |es| :: es[i] == RollbackEntry(Dests(plan)[i], Dests(plan)[i] in pre)
      requires forall i | 0 <= i < |es| :: PreservableAt(SameFs(), pre, es[i].dest)
      modifies this
      ensures clock >= old(clock)
      ensures Inv(fs, pre, SameFs()) && fs.live == pre
      ensures fs.rollback in {NoDir, Kept(Absent, map[]), Kept(Torn, map[]), Kept(Complete(es), map[])}
      ensures o.Done? ==> fs.rollback == Kept(Complete(es), map[])
      ensures Quiet(old(clock)) ==> o.Done?
    {
      o := Call();  // create
      if o.Done? {
        fs := Fs(fs.live, Kept(Torn, map[]));
        o := Call();  // write
      }
      if o.Done? {
        fs := Fs(fs.live, Kept(Complete(es), map[]));
        o := Call();  // sync of the file and of both directories
      }
      if o.Crashed? {
        LoseUnsynced();
      }
      IndexWritten(fs, plan, es, pre, SameFs());
    }

    /** lstat of every destination; nothing is written. */
    method RecordOriginals(plan: Plan) returns (o: Outcome, es: seq<RollbackEntry>)
      modifies this`clock
      ensures clock >= old(clock)
      ensures o.Done? ==> |es| == |Dests(plan)|
                          && forall i | 0 <= i < |es| :: es[i] == RollbackEntry(Dests(plan)[i], Dests(plan)[i] in fs.live)
      ensures Quiet(old(clock)) ==> o.Done?
    {
      var ds := Dests(plan);
      es := [];
      o := Done;
      while |es| < |ds|
        invariant clock >= old(clock)
        invariant |es| <= |ds|
        invariant forall i | 0 <= i < |es| :: es[i] == RollbackEntry(ds[i], ds[i] in fs.live)
        invariant o.Done?
        decreases |ds| - |es|
      {
        o := Call();  // lstat
        if !o.Done? {
          return;
        }
        es := es + [RollbackEntry(ds[|es|], ds[|es|] in fs.live)];
      }
    }

    /** The first half of the swap: an earlier attempt undone, and an index written. */
    method Prepare(plan: Plan, ghost pre: map<Path, Node>) returns (o: Outcome)
      requires PlanOk(plan) && Inv(fs, pre, SameFs())
      requires forall i | 0 <= i < |Dests(plan)| :: PreservableAt(SameFs(), pre, Dests(plan)[i])
      modifies this
      ensures clock >= old(clock)
      ensures Inv(fs, pre, SameFs())
      ensures o.Done? ==> Swapping(plan, pre, 0)
      ensures TornIndex(old(fs)) ==> !o.Done? && fs == old(fs)
      ensures UnderAll(old(fs), StateDirOf(plan)) ==> UnderAll(fs, StateDirOf(plan))
      ensures Quiet(old(clock)) && !TornIndex(old(fs)) && UnderAll(old(fs), StateDirOf(plan)) ==> o.Done?
    {
      o := Call();  // mkdir of the rollback directory
      if !o.Done? {
        return;
      }
      if fs.rollback.Kept? {
        o := Rollback(StateDirOf(plan), pre);
        if !o.Done? {
          return;
        }
        o := Call();  // mkdir again
        if !o.Done? {
          return;
        }
      }
      NothingMovedBeforeIndex(fs, pre, SameFs());
      fs := Fs(fs.live, Kept(Absent, map[]));
      var es;
      o, es := RecordOriginals(plan);
      if !o.Done? {
        return;
      }
      o := WriteIndex(plan, es, pre);
    }

    /** ApplyServerConfigSwap. It first undoes what an earlier attempt left, then
        swaps every destination; wherever it stops, `pre` stays recoverable. */
    method Apply(plan: Plan, key: string, ghost pre: map<Path, Node>) returns (o: Outcome)
      requires PlanOk(plan) && Inv(fs, pre, SameFs()) && Sighted()
      requires forall i | 0 <= i < |Dests(plan)| :: PreservableAt(SameFs(), pre, Dests(plan)[i])
      modifies this
      ensures clock >= old(clock)
      ensures Inv(fs, pre, SameFs())
      ensures o.Done? ==> fs.rollback.Kept? && fs.rollback.index.Complete?
                          && Promoted(fs.live, pre, plan, staged, key)
      ensures TornIndex(old(fs)) ==> !o.Done? && fs == old(fs)
      ensures UnderAll(old(fs), StateDirOf(plan)) ==> UnderAll(fs, StateDirOf(plan))
      ensures Quiet(old(clock)) && Unhindered(plan, pre) && SourcesStaged(plan) && (plan.unwrap.Some? ==> |key| == KEY_LENGTH)
              && !TornIndex(old(fs)) && UnderAll(old(fs), StateDirOf(plan))
              ==> o.Done?
    {
      o := Prepare(plan, pre);
      if !o.Done? {
        return;
      }
      for n := 0 to |plan.files|
        invariant clock >= old(clock)
        invariant Swapping(plan, pre, n) && UnderAll(fs, StateDirOf(plan))
        invariant o.Done?
      {
        o := SwapOneFile(plan, n, pre);
        if !o.Done? {
          return;
        }
      }
      if plan.unwrap.Some? {
        o := InstallKey(plan, key, pre);
      } else {
        assert Dests(plan) == Dests(plan)[..|plan.files|];
      }
    }

    /** Renames work, or every staged tree fits over what it replaces. */
    ghost predicate Unhindered(plan: Plan, pre: map<Path, Node>)
    {
      || SameFs()
      || (&& (forall i | 0 <= i < |plan.files| ::
                plan.files[i].source in staged && plan.files[i].dest in pre ==>
                  Fits(staged[plan.files[i].source], pre[plan.files[i].dest]))
          && (plan.unwrap.Some? && plan.unwrap.value in pre ==> pre[plan.unwrap.value].File?))
    }

    ghost predicate SourcesStaged(plan: Plan)
    {
      forall i | 0 <= i < |plan.files| :: plan.files[i].source in staged
    }
  }

  function ChildAt(m: map<string, Node>, k: string): Option<Node>
  {
    if k in m then Some(m[k]) else None
  }

  /** What a copy of `src` that nothing interrupts leaves at the name `k`. */
  function LandedAt(src: Node, made: map<string, Node>, k: string): Option<Node>
    requires src.Dir?
  {
    if k in src.entries && !Blocked(src.entries, made, k) then Some(Landed(src.entries[k], ChildAt(made, k)))
    else ChildAt(made, k)
  }

  /** The copy has come to the entries `todo`, the last ones; all before them fitted, and
      `out` holds what it made of them, which is what `all` holds. */
  ghost predicate HalfCopied(src: Node, made: map<string, Node>, all: map<string, Node>, todo: map<string, Node>, out: map<string, Node>)
    requires src.Dir?
  {
    && (forall k | k in todo :: k in src.entries && todo[k] == src.entries[k])
    && (forall j, k | j in src.entries && j !in todo && k in todo :: Less(j, k))
    && (forall k | k in src.entries && k !in todo && k in made :: Fits(src.entries[k], made[k]))
    && (forall k :: ChildAt(out, k) == if k in todo then ChildAt(made, k) else ChildAt(all, k))
  }

  lemma CopyStarts(src: Node, made: map<string, Node>)
    requires src.Dir?
    ensures HalfCopied(src, made, Overlaid(src, Dir(made)).entries, src.entries, made)
  {
    forall k | k !in src.entries
      ensures ChildAt(made, k) == ChildAt(Overlaid(src, Dir(made)).entries, k)
    {
      OverlaidAt(src, made, k);
    }
  }

  /** Nothing before the first entry to do has blocked the copy, so it lands. */
  lemma LandsAt(src: Node, made: map<string, Node>, all: map<string, Node>, todo: map<string, Node>, out: map<string, Node>, k: string)
    requires src.Dir? && HalfCopied(src, made, all, todo, out) && all == Overlaid(src, Dir(made)).entries
    requires k in todo && forall j | j in todo :: j == k || Less(k, j)
    ensures ChildAt(all, k) == Some(Landed(src.entries[k], ChildAt(made, k)))
  {
    forall j | j in src.entries && j in made && Less(j, k)
      ensures Fits(src.entries[j], made[j])
    {
      LessIsTotal(j, k);
    }
    OverlaidAt(src, made, k);
  }

  lemma OverlaidAt(src: Node, made: map<string, Node>, k: string)
    requires src.Dir?
    ensures ChildAt(Overlaid(src, Dir(made)).entries, k) == LandedAt(src, made, k)
  {
  }

  lemma SameChildren(a: map<string, Node>, b: map<string, Node>)
    requires forall k :: ChildAt(a, k) == ChildAt(b, k)
    ensures a == b
  {
    forall k
      ensures k in a <==> k in b
      ensures k in a ==> a[k] == b[k]
    {
      assert ChildAt(a, k) == ChildAt(b, k);
    }
    assert a.Keys == b.Keys;
  }

  /** Over an empty directory a copy leaves its source. */
  lemma NothingMade(entries: map<string, Node>)
    ensures Overlaid(Dir(entries), Dir(map[])) == Dir(entries) && Fits(Dir(entries), Dir(map[]))
  {
    OverPlain(Dir(entries), Dir(map[]));
  }

  /** One more child, finished. */
  lemma CopiedOne(src: Node, made: map<string, Node>, all: map<string, Node>, todo: map<string, Node>, out: map<string, Node>,
                  k: string, child: Option<Node>)
    requires src.Dir? && HalfCopied(src, made, all, todo, out)
    requires k in todo && forall j | j in todo :: j == k || Less(k, j)
    requires k in made ==> Fits(src.entries[k], made[k])
    requires child.Some? && child == ChildAt(all, k)
    ensures HalfCopied(src, made, all, todo - {k}, out[k := child.value])
  {
    forall x
      ensures ChildAt(out[k := child.value], x) == if x in todo - {k} then ChildAt(made, x) else ChildAt(all, x)
    {
      assert ChildAt(out, x) == if x in todo then ChildAt(made, x) else ChildAt(all, x);
    }
  }

  /** Where the copy makes what was made already, a child that is left as it is, finished
      or cut off, leaves everything as it is. */
  lemma CopyUnchanged(src: Node, made: map<string, Node>, todo: map<string, Node>, out: map<string, Node>, k: string,
                      child: Option<Node>)
    requires src.Dir? && HalfCopied(src, made, made, todo, out)
    requires child == ChildAt(made, k)
    ensures (if child.Some? then out[k := child.value] else out) == made
  {
    SameChildren(out, made);
  }

  /** A child that does not fit keeps the copy from every entry after it. */
  lemma BlockedAfter(src: Node, made: map<string, Node>, k: string)
    requires src.Dir? && k in src.entries && k in made && !Fits(src.entries[k], made[k])
    ensures forall x | Less(k, x) :: ChildAt(Overlaid(src, Dir(made)).entries, x) == ChildAt(made, x)
  {
    forall x | Less(k, x)
      ensures ChildAt(Overlaid(src, Dir(made)).entries, x) == ChildAt(made, x)
    {
      OverlaidAt(src, made, x);
      assert Blocked(src.entries, made, x);
    }
  }

  /** A copy that ends at `k` has made what `all` holds, if that is untouched from there. */
  lemma CopyStopped(src: Node, made: map<string, Node>, all: map<string, Node>, todo: map<string, Node>, out: map<string, Node>,
                    k: string, child: Option<Node>)
    requires src.Dir? && HalfCopied(src, made, all, todo, out)
    requires forall x | x in todo && x != k :: ChildAt(all, x) == ChildAt(made, x)
    requires child.Some? && child == ChildAt(all, k)
    ensures out[k := child.value] == all
  {
    forall x
      ensures ChildAt(out[k := child.value], x) == ChildAt(all, x)
    {
      assert ChildAt(out, x) == if x in todo then ChildAt(made, x) else ChildAt(all, x);
    }
    SameChildren(out[k := child.value], all);
  }

  /** One more file in place extends the promoted prefix of the plan. */
  lemma PromoteNext(live: map<Path, Node>, live': map<Path, Node>, pre: map<Path, Node>,
                    plan: Plan, staged: map<Path, Node>, n: nat)
    requires PlanOk(plan) && n < |plan.files| && plan.files[n].source in staged
    requires PromotedUpTo(live, pre, plan, staged, n)
    requires forall p | p != plan.files[n].dest :: Get(live', p) == Get(live, p)
    requires Get(live', plan.files[n].dest) == Some(staged[plan.files[n].source])
    ensures PromotedUpTo(live', pre, plan, staged, n + 1)
  {
    assert Dests(plan)[..n + 1] == Dests(plan)[..n] + [plan.files[n].dest];
    forall i | 0 <= i < n
      ensures plan.files[i].dest != plan.files[n].dest
    {
      assert Dests(plan)[i] != Dests(plan)[n];
    }
  }

  /** The key completes a plan whose files are all in place. */
  lemma PromoteKey(live: map<Path, Node>, live': map<Path, Node>, pre: map<Path, Node>,
                   plan: Plan, staged: map<Path, Node>, key: string)
    requires PlanOk(plan) && plan.unwrap.Some? && |key| == KEY_LENGTH
    requires PromotedUpTo(live, pre, plan, staged, |plan.files|)
    requires forall p | p != plan.unwrap.value :: Get(live', p) == Get(live, p)
    requires Get(live', plan.unwrap.value) == Some(File(key))
    ensures Promoted(live', pre, plan, staged, key)
  {
    assert Dests(plan) == Dests(plan)[..|plan.files|] + [plan.unwrap.value];
    forall i | 0 <= i < |plan.files|
      ensures plan.files[i].dest != plan.unwrap.value
    {
      assert Dests(plan)[i] != Dests(plan)[|plan.files|];
    }
  }

  /** An index, or part of one, and no preserved copy yet: nothing has changed meaning. */
  lemma IndexWritten(fs: Fs, plan: Plan, es: seq<RollbackEntry>, pre: map<Path, Node>, sameFs: bool)
    requires PlanOk(plan) && fs.live == pre
    requires fs.rollback in {NoDir, Kept(Absent, map[]), Kept(Torn, map[]), Kept(Complete(es), map[])}
    requires |es| == |Dests(plan)|
    requires forall i | 0 <= i < |es| :: es[i] == RollbackEntry(Dests(plan)[i], Dests(plan)[i] in pre)
    requires forall i | 0 <= i < |es| :: PreservableAt(sameFs, pre, es[i].dest)
    ensures Inv(fs, pre, sameFs)
  {
    forall i, j | 0 <= i < j < |es|
      ensures KeepName(es[i].dest) != KeepName(es[j].dest)
    {
      KeepNameInjective(StateDirOf(plan), es[i].dest, es[j].dest);
    }
    forall p
      ensures RecoveredAt(fs, p) == Get(pre, p)
    {
      if RollbackEntry(p, false) in es {
        var i :| 0 <= i < |es| && es[i] == RollbackEntry(p, false);
      }
    }
  }

  /** Every entry from `i` on is restored, and its copy gone where renames work. */
  ghost predicate RestoredFrom(fs: Fs, es: seq<RollbackEntry>, pre: map<Path, Node>, sameFs: bool, i: nat)
    requires IndexOk(es) && fs.rollback.Kept?
  {
    && (forall j | i <= j < |es| :: Get(fs.live, es[j].dest) == Get(pre, es[j].dest))
    && (sameFs ==> forall j | i <= j < |es| :: KeepName(es[j].dest) !in fs.rollback.keep)
  }

  lemma RestoredOne(was: Fs, fs: Fs, es: seq<RollbackEntry>, pre: map<Path, Node>, sameFs: bool, i: nat)
    requires IndexOk(es) && i < |es| && was.rollback.Kept? && fs.rollback.Kept?
    requires RestoredFrom(was, es, pre, sameFs, i + 1)
    requires forall p | p != es[i].dest :: Get(fs.live, p) == Get(was.live, p)
    requires fs.rollback.keep.Keys <= was.rollback.keep.Keys
    requires Get(fs.live, es[i].dest) == Get(pre, es[i].dest)
    requires sameFs ==> KeepName(es[i].dest) !in fs.rollback.keep
    ensures RestoredFrom(fs, es, pre, sameFs, i)
  {
    forall j | i <= j < |es|
      ensures Get(fs.live, es[j].dest) == Get(pre, es[j].dest)
      ensures sameFs ==> KeepName(es[j].dest) !in fs.rollback.keep
    {
      if j != i {
        assert es[j].dest != es[i].dest;
      }
    }
  }

  predicate TornIndex(fs: Fs)
  {
    fs.rollback.Kept? && fs.rollback.index.Torn?
  }

  /** Every destination in the index, if there is one, lies below the state directory. */
  ghost predicate UnderAll(fs: Fs, stateDir: Path)
  {
    fs.rollback.Kept? && fs.rollback.index.Complete? ==>
      forall i | 0 <= i < |fs.rollback.index.entries| :: stateDir < fs.rollback.index.entries[i].dest
  }

  /** A preserved copy exists only for a destination that had an original. */
  lemma KeptHasOriginal(fs: Fs, pre: map<Path, Node>, sameFs: bool, i: nat)
    requires Inv(fs, pre, sameFs) && fs.rollback.Kept? && fs.rollback.index.Complete?
    requires i < |fs.rollback.index.entries|
    requires KeepName(fs.rollback.index.entries[i].dest) in fs.rollback.keep
    ensures fs.rollback.index.entries[i].hadOriginal
    ensures fs.rollback.index.entries[i].dest in pre
    ensures fs.rollback.keep[KeepName(fs.rollback.index.entries[i].dest)] == pre[fs.rollback.index.entries[i].dest]
  {
    var es := fs.rollback.index.entries;
    var j :| 0 <= j < |es| && es[j].hadOriginal && KeepName(es[j].dest) == KeepName(es[i].dest);
    assert i == j;
    EntryOf(es, i, pre);
    assert RecoveredAt(fs, es[i].dest) == Get(pre, es[i].dest);
  }

  /** When every indexed path is back, so is the whole state, and what is left in
      the rollback directory can be removed step by step. */
  lemma AllRestored(fs: Fs, pre: map<Path, Node>, sameFs: bool)
    requires Inv(fs, pre, sameFs) && fs.rollback.Kept? && fs.rollback.index.Complete?
    requires RestoredFrom(fs, fs.rollback.index.entries, pre, sameFs, 0)
    ensures fs.live == pre
    ensures forall k | k in fs.rollback.keep :: Plain(fs.rollback.keep[k])
  {
    var es := fs.rollback.index.entries;
    forall p
      ensures Get(fs.live, p) == Get(pre, p)
    {
      assert RecoveredAt(fs, p) == Get(pre, p);
      if Indexed(es, p) {
        var j :| 0 <= j < |es| && es[j].dest == p;
      }
    }
    SameSlots(fs.live, pre);
    forall k | k in fs.rollback.keep
      ensures Plain(fs.rollback.keep[k])
    {
      var j :| 0 <= j < |es| && es[j].hadOriginal && KeepName(es[j].dest) == k;
      KeptHasOriginal(fs, pre, sameFs, j);
    }
  }
}
