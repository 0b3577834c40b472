/** The crash-safe swap of the server configuration: what is on disk, what the
    rollback directory means, and why one step never changes that meaning.

    A `Path` is a list of components. `live` maps each slot the swap or the
    state directory owns to the file or tree in it; slots never nest.
 */
module SwapModel {
  import opened Wrappers

  type Path = seq<string>

  datatype Node = File(bytes: string) | Dir(entries: map<string, Node>)

  /** One line of index.json: a destination and whether it existed before the swap. */
  datatype RollbackEntry = RollbackEntry(dest: Path, hadOriginal: bool)

  /** index.json: not created yet, created but not completely written, or complete. */
  datatype Index = Absent | Torn | Complete(entries: seq<RollbackEntry>)

  datatype Rollback = NoDir | Kept(index: Index, keep: map<string, Node>)

  datatype Fs = Fs(live: map<Path, Node>, rollback: Rollback)

  datatype SwapFile = SwapFile(source: Path, dest: Path)

  /** `unwrap` is the destination of master.key, when the plan restores it. */
  datatype Plan = Plan(files: seq<SwapFile>, unwrap: Option<Path>)

  function Get(m: map<Path, Node>, p: Path): Option<Node>
  {
    if p in m then Some(m[p]) else None
  }

  /** A node that a copy creates, and a removal deletes, in a single step. */
  predicate Plain(n: Node)
  {
    n.File? || n == Dir(map[])
  }

  // ---------------------------------------------------------- copying over a tree

  /** A copy of `src` over `dst` meets no file where it brings a directory, and no
      directory where it brings a file. */
  predicate Fits(src: Node, dst: Node)
    decreases src
  {
    if src.File? then dst.File?
    else dst.Dir? && forall k | k in src.entries && k in dst.entries :: Fits(src.entries[k], dst.entries[k])
  }

  /** Byte order, in which a directory lists its entries. */
  predicate Less(a: string, b: string)
  {
    b != "" && (a == "" || a[0] < b[0] || (a[0] == b[0] && Less(a[1..], b[1..])))
  }

  lemma {:induction false} LessIsTotal(a: string, b: string)
    ensures a == b || Less(a, b) || Less(b, a)
    ensures !(Less(a, b) && Less(b, a)) && !Less(a, a)
    decreases |a|
  {
    if a != "" && b != "" {
      LessIsTotal(a[1..], b[1..]);
      assert a == [a[0]] + a[1..] && b == [b[0]] + b[1..];
    }
    if a != "" {
      LessIsTotal(a[1..], a[1..]);
    }
  }

  lemma {:induction false} LessIsTransitive(a: string, b: string, c: string)
    requires Less(a, b) && Less(b, c)
    ensures Less(a, c)
    decreases |a|
  {
    if a != "" && a[0] == b[0] == c[0] {
      LessIsTransitive(a[1..], b[1..], c[1..]);
    }
  }

  /** A nonempty directory has a first entry. */
  lemma FirstName(names: set<string>) returns (first: string)
    requires names != {}
    ensures first in names && forall k | k in names :: k == first || Less(first, k)
    decreases names
  {
    var some :| some in names;
    if names == {some} {
      return some;
    }
    var rest := FirstName(names - {some});
    LessIsTotal(some, rest);
    first := if Less(some, rest) then some else rest;
    forall k | k in names
      ensures k == first || Less(first, k)
    {
      if k != some && k != rest && first == some {
        LessIsTransitive(some, rest, k);
      }
    }
  }

  /** A copy of `src` over `dst` stops before it comes to the entry `k`. */
  predicate Blocked(src: map<string, Node>, dst: map<string, Node>, k: string)
  {
    exists j :: j in src && j in dst && Less(j, k) && !Fits(src[j], dst[j])
  }

  /** What a copy of `src` that nothing interrupts leaves where `dst` stood: entries of
      directories are added and replaced in order, never removed, up to the first one
      that does not fit. */
  function Overlaid(src: Node, dst: Node): Node
    decreases src
  {
    if src.File? then (if dst.File? then src else dst)
    else if dst.File? then dst
    else
      Dir(map k | k in src.entries.Keys + dst.entries.Keys && (k in dst.entries || !Blocked(src.entries, dst.entries, k)) ::
            if k in src.entries && !Blocked(src.entries, dst.entries, k) then
              (if k in dst.entries then Overlaid(src.entries[k], dst.entries[k]) else src.entries[k])
            else dst.entries[k])
  }

  /** The same where there may be nothing yet. */
  function Landed(src: Node, dst: Option<Node>): Node
  {
    if dst.Some? then Overlaid(src, dst.value) else src
  }

  /** Where byte order decides: at the first difference, or at the end of the shorter. */
  lemma {:induction false} LessIs(a: string, b: string)
    ensures Less(a, b) <==> exists i: nat :: i <= |a| && i < |b| && a[..i] == b[..i] && (i == |a| || a[i] < b[i])
    decreases |a|
  {
    if a == "" || b == "" {
      assert a[..0] == b[..0];
    } else if a[0] != b[0] {
      assert a[..0] == b[..0];
      assert forall i: nat | 0 < i <= |a| && i < |b| :: a[..i][0] == a[0] && b[..i][0] == b[0];
    } else {
      var x, y := a[1..], b[1..];
      LessIs(x, y);
      if i: nat :| i <= |x| && i < |y| && x[..i] == y[..i] && (i == |x| || x[i] < y[i]) {
        assert a[..i + 1] == [a[0]] + x[..i] && b[..i + 1] == [b[0]] + y[..i];
      }
      if i: nat :| i <= |a| && i < |b| && a[..i] == b[..i] && (i == |a| || a[i] < b[i]) {
        assert i > 0;
        assert x[..i - 1] == a[..i][1..] && y[..i - 1] == b[..i][1..];
      }
    }
  }

  /** What a tree has at a path inside it. */
  function At(n: Node, p: Path): Option<Node>
    decreases |p|
  {
    if p == [] then Some(n)
    else if n.Dir? && p[0] in n.entries then At(n.entries[p[0]], p[1..])
    else None
  }

  /** A path that is a file in one tree and a directory in the other. */
  ghost predicate ClashAt(src: Node, dst: Node, p: Path)
  {
    At(src, p).Some? && At(dst, p).Some? && (At(src, p).value.File? <==> At(dst, p).value.Dir?)
  }

  lemma ClashBelow(src: Node, dst: Node, k: string, p: Path)
    requires src.Dir? && dst.Dir? && k in src.entries && k in dst.entries
    ensures ClashAt(src, dst, [k] + p) <==> ClashAt(src.entries[k], dst.entries[k], p)
  {
    assert ([k] + p)[0] == k && ([k] + p)[1..] == p;
  }

  /** Trees fit when no path is a file in one and a directory in the other. */
  lemma {:induction false} FitsIs(src: Node, dst: Node)
    ensures Fits(src, dst) <==> forall p :: !ClashAt(src, dst, p)
    decreases src
  {
    assert ClashAt(src, dst, []) <==> (src.File? <==> dst.Dir?);
    if Fits(src, dst) {
      forall p
        ensures !ClashAt(src, dst, p)
      {
        NoClash(src, dst, p);
      }
    } else if src.Dir? && dst.Dir? {
      var k :| k in src.entries && k in dst.entries && !Fits(src.entries[k], dst.entries[k]);
      FitsIs(src.entries[k], dst.entries[k]);
      var p :| ClashAt(src.entries[k], dst.entries[k], p);
      ClashBelow(src, dst, k, p);
    }
  }

  lemma {:induction false} NoClash(src: Node, dst: Node, p: Path)
    requires Fits(src, dst)
    ensures !ClashAt(src, dst, p)
    decreases |p|
  {
    if p != [] && src.Dir? && p[0] in src.entries && p[0] in dst.entries {
      NoClash(src.entries[p[0]], dst.entries[p[0]], p[1..]);
    }
  }

  /** The overlay of trees that fit, path by path: every file of `src` with its bytes,
      every directory of it, and what `dst` had wherever `src` has nothing. */
  lemma {:induction false} OverlaidIs(src: Node, dst: Node, p: Path)
    requires Fits(src, dst)
    ensures At(src, p).Some? && At(src, p).value.File? ==> At(Overlaid(src, dst), p) == At(src, p)
    ensures At(src, p).Some? && At(src, p).value.Dir? ==> At(Overlaid(src, dst), p).Some? && At(Overlaid(src, dst), p).value.Dir?
    ensures At(src, p).None? ==> At(Overlaid(src, dst), p) == At(dst, p)
    decreases |p|
  {
    if p != [] && src.Dir? {
      var k := p[0];
      assert !Blocked(src.entries, dst.entries, k);
      if k in src.entries && k in dst.entries {
        OverlaidIs(src.entries[k], dst.entries[k], p[1..]);
      }
    }
  }

  /** Over a file or an empty directory, a fitting tree arrives as it is. */
  lemma OverPlain(src: Node, dst: Node)
    requires Fits(src, dst) && Plain(dst)
    ensures Overlaid(src, dst) == src
  {
    if src.Dir? {
      assert Overlaid(src, dst).entries == src.entries;
    }
  }

  // ---------------------------------------------------------------- keep names

  /** The name of the preserved copy of `dest`: parent base name, dash, base name. */
  function KeepName(dest: Path): string
    requires |dest| > 0
  {
    (if |dest| > 1 then dest[|dest| - 2] else "") + "-" + dest[|dest| - 1]
  }

  const INDEX_NAME := "index.json"

  ghost predicate ChildOf(stateDir: Path, dest: Path)
  {
    |dest| == |stateDir| + 1 && dest[..|stateDir|] == stateDir
  }

  /** Two destinations in one directory share a keep name only if they are the same path. */
  lemma KeepNameInjective(stateDir: Path, d1: Path, d2: Path)
    requires ChildOf(stateDir, d1) && ChildOf(stateDir, d2)
    ensures KeepName(d1) == KeepName(d2) <==> d1 == d2
  {
    var n := |stateDir|;
    var parent := if n > 0 then stateDir[n - 1] else "";
    assert n > 0 ==> d1[n - 1] == d1[..n][n - 1] && d2[n - 1] == d2[..n][n - 1];
    var prefix := parent + "-";
    assert KeepName(d1) == prefix + d1[n] && KeepName(d2) == prefix + d2[n];
    if KeepName(d1) == KeepName(d2) {
      assert d1[n] == KeepName(d1)[|prefix|..] == d2[n];
      assert d1 == d1[..n] + [d1[n]] && d2 == d2[..n] + [d2[n]];
    }
  }

  /** A keep name always contains a dash, so it never overwrites the index. */
  lemma KeepNameIsNotIndex(dest: Path)
    requires |dest| > 0
    ensures KeepName(dest) != INDEX_NAME
  {
    var parent := if |dest| > 1 then dest[|dest| - 2] else "";
    assert KeepName(dest)[|parent|] == '-';
    assert forall i | 0 <= i < |INDEX_NAME| :: INDEX_NAME[i] != '-';
  }

  /** Across directories the parent prefix is not enough: dashes make it ambiguous, and
      parents of one name may lie in different directories. */
  lemma KeepNamesCollideAcrossDirectories()
    ensures var d1, d2 := ["state-a", "env"], ["state", "a-env"];
            d1 != d2 && KeepName(d1) == KeepName(d2)
    ensures var d1, d2 := ["a", "x", "f"], ["b", "x", "f"];
            d1 != d2 && KeepName(d1) == KeepName(d2)
  {
    var d1, d2 := ["state-a", "env"], ["state", "a-env"];
    assert KeepName(d1) == "state-a-env" == KeepName(d2);
    assert |d1[0]| != |d2[0]|;
    assert ["a", "x", "f"][0] != ["b", "x", "f"][0];
  }

  // ---------------------------------------------------- the directory on the disk

  /** What one name in the rollback directory stands for. */
  datatype Slot = IndexSlot(index: Index) | CopySlot(copy: Node)

  /** The one namespace behind an index and the preserved copies. */
  function Directory(index: Index, keep: map<string, Node>): map<string, Slot>
  {
    (map k | k in keep :: CopySlot(keep[k])) + (if index.Absent? then map[] else map[INDEX_NAME := IndexSlot(index)])
  }

  /** Writing a preserved copy into the one directory is what the model does to `keep`,
      and it leaves the index readable as it was. */
  lemma CopyBesideIndex(index: Index, keep: map<string, Node>, dest: Path, copy: Node)
    requires |dest| > 0
    ensures Directory(index, keep[KeepName(dest) := copy]) == Directory(index, keep)[KeepName(dest) := CopySlot(copy)]
    ensures !index.Absent? ==> Directory(index, keep[KeepName(dest) := copy])[INDEX_NAME] == IndexSlot(index)
  {
    KeepNameIsNotIndex(dest);
  }

  // ----------------------------------------------------------- what is recorded

  predicate Indexed(es: seq<RollbackEntry>, p: Path)
  {
    RollbackEntry(p, true) in es || RollbackEntry(p, false) in es
  }

  /** What a complete rollback would leave at `p`: the preserved copy if there is
      one, else nothing where nothing was, else what is there now. */
  function RecoveredAt(fs: Fs, p: Path): Option<Node>
  {
    if fs.rollback.Kept? && fs.rollback.index.Complete? && |p| > 0 then
      var es, keep := fs.rollback.index.entries, fs.rollback.keep;
      if Indexed(es, p) && KeepName(p) in keep then Some(keep[KeepName(p)])
      else if RollbackEntry(p, false) in es then None
      else Get(fs.live, p)
    else
      Get(fs.live, p)
  }

  /** The disk still determines the state before the swap, at every path. */
  ghost predicate Recovers(fs: Fs, pre: map<Path, Node>)
  {
    forall p :: RecoveredAt(fs, p) == Get(pre, p)
  }

  /** Every destination has its own entry and its own keep name. */
  ghost predicate IndexOk(es: seq<RollbackEntry>)
  {
    && (forall i | 0 <= i < |es| :: |es[i].dest| > 0)
    && (forall i, j | 0 <= i < j < |es| ::
          es[i].dest != es[j].dest && KeepName(es[i].dest) != KeepName(es[j].dest))
  }

  ghost predicate OriginalsRecorded(es: seq<RollbackEntry>, pre: map<Path, Node>)
  {
    forall i | 0 <= i < |es| :: es[i].hadOriginal <==> es[i].dest in pre
  }

  ghost predicate KeepsIndexed(es: seq<RollbackEntry>, keep: map<string, Node>)
    requires IndexOk(es)
  {
    forall k | k in keep ::
      exists i :: 0 <= i < |es| && es[i].hadOriginal && KeepName(es[i].dest) == k
  }

  /** Renames work, or every original is a node the copy fallback handles in one step. */
  ghost predicate PreservableAt(sameFs: bool, pre: map<Path, Node>, p: Path)
  {
    sameFs || (p in pre ==> Plain(pre[p]))
  }

  /** The invariant of every run: `pre` is recoverable, and a torn index means
      that nothing has been moved. */
  ghost predicate Inv(fs: Fs, pre: map<Path, Node>, sameFs: bool)
  {
    && Recovers(fs, pre)
    && (fs.rollback.Kept? ==>
          match fs.rollback.index
          case Absent => true
          case Torn => fs.rollback.keep == map[]
          case Complete(es) =>
            && IndexOk(es)
            && OriginalsRecorded(es, pre)
            && KeepsIndexed(es, fs.rollback.keep)
            && (forall i | 0 <= i < |es| :: PreservableAt(sameFs, pre, es[i].dest)))
  }

  /** With the index absent or torn, no live path has moved yet. */
  lemma NothingMovedBeforeIndex(fs: Fs, pre: map<Path, Node>, sameFs: bool)
    requires Inv(fs, pre, sameFs)
    requires fs.rollback.Kept? ==> !fs.rollback.index.Complete?
    ensures fs.live == pre
  {
    forall p
      ensures Get(fs.live, p) == Get(pre, p)
    {
      assert RecoveredAt(fs, p) == Get(pre, p);
    }
    SameSlots(fs.live, pre);
  }

  /** The disk alone determines what a rollback gives back. */
  lemma RecoveryIsDetermined(fs: Fs, pre: map<Path, Node>, pre': map<Path, Node>)
    requires Recovers(fs, pre) && Recovers(fs, pre')
    ensures pre == pre'
  {
    forall p
      ensures Get(pre, p) == Get(pre', p)
    {
      assert RecoveredAt(fs, p) == Get(pre, p);
    }
    SameSlots(pre, pre');
  }

  lemma SameSlots(a: map<Path, Node>, b: map<Path, Node>)
    requires forall p :: Get(a, p) == Get(b, p)
    ensures a == b
  {
    forall p
      ensures p in a <==> p in b
      ensures p in a ==> a[p] == b[p]
    {
      assert Get(a, p) == Get(b, p);
    }
    assert a.Keys == b.Keys;
  }

  lemma EntryOf(es: seq<RollbackEntry>, i: nat, pre: map<Path, Node>)
    requires i < |es| && IndexOk(es) && OriginalsRecorded(es, pre)
    ensures Indexed(es, es[i].dest)
    ensures RollbackEntry(es[i].dest, false) in es <==> es[i].dest !in pre
    ensures RollbackEntry(es[i].dest, true) in es <==> es[i].dest in pre
  {
    assert es[i] == RollbackEntry(es[i].dest, es[i].hadOriginal);
  }

  /** A step that touches only one destination and its keep copy, and leaves that
      destination recoverable, keeps the invariant. */
  lemma StepAt(fs: Fs, fs': Fs, pre: map<Path, Node>, sameFs: bool, i: nat)
    requires Inv(fs, pre, sameFs)
    requires fs.rollback.Kept? && fs'.rollback.Kept?
    requires fs.rollback.index.Complete? && fs'.rollback.index == fs.rollback.index
    requires i < |fs.rollback.index.entries|
    requires var d := fs.rollback.index.entries[i].dest;
             && (forall p | p != d :: Get(fs'.live, p) == Get(fs.live, p))
             && (forall k | k != KeepName(d) ::
                   (k in fs'.rollback.keep <==> k in fs.rollback.keep)
                   && (k in fs.rollback.keep ==> fs'.rollback.keep[k] == fs.rollback.keep[k]))
             && (KeepName(d) in fs'.rollback.keep ==> fs.rollback.index.entries[i].hadOriginal)
             && RecoveredAt(fs', d) == Get(pre, d)
    ensures Inv(fs', pre, sameFs)
  {
    var es := fs.rollback.index.entries;
    var d := es[i].dest;
    forall p
      ensures RecoveredAt(fs', p) == Get(pre, p)
    {
      assert RecoveredAt(fs, p) == Get(pre, p);
      if p != d && |p| > 0 && Indexed(es, p) {
        var j :| 0 <= j < |es| && es[j].dest == p;
        assert KeepName(p) != KeepName(d);
      }
    }
    forall k | k in fs'.rollback.keep
      ensures exists j :: 0 <= j < |es| && es[j].hadOriginal && KeepName(es[j].dest) == k
    {
      if k == KeepName(d) {
        assert es[i].hadOriginal;
      } else {
        assert k in fs.rollback.keep;
      }
    }
  }

  /** Once every live path is back, any part of the rollback directory may go. */
  lemma SettledStep(fs: Fs, fs': Fs, pre: map<Path, Node>, sameFs: bool)
    requires Inv(fs, pre, sameFs) && fs.live == pre && fs'.live == pre
    requires fs.rollback.Kept? && fs'.rollback.Kept?
    requires fs'.rollback.index == fs.rollback.index || fs'.rollback.index.Absent?
    requires fs.rollback.index.Torn? ==> fs'.rollback.keep == map[]
    requires forall k | k in fs'.rollback.keep ::
               k in fs.rollback.keep && fs'.rollback.keep[k] == fs.rollback.keep[k]
    ensures Inv(fs', pre, sameFs)
  {
    forall p
      ensures RecoveredAt(fs', p) == Get(pre, p)
    {
      assert RecoveredAt(fs, p) == Get(pre, p);
      if fs'.rollback.index.Complete? && |p| > 0 && RollbackEntry(p, false) in fs'.rollback.index.entries {
        var es := fs'.rollback.index.entries;
        var j :| 0 <= j < |es| && es[j] == RollbackEntry(p, false);
        assert es[j].dest !in pre;
      }
    }
  }
}
