/** keyedLocks as a state machine: any number of threads, one step at a time, under
    every schedule. The table lock guards the map from keys to mutexes; the mutexes
    themselves are locked after the table lock is released. */
module KeyedLocks {
  import opened Wrappers

  type Thread = nat
  type Key = string
  type Mutex = nat

  /** Where a thread is between two of its steps. */
  datatype Place =
    | Outside
    | WantTable(key: Key)
    | InTable(key: Key)
    | Found(key: Key, mutex: Option<Mutex>)
    | WantMutex(key: Key, m: Mutex)
    | Holding(key: Key, m: Mutex)

  datatype State = State(
    places: map<Thread, Place>,
    tableHolder: Option<Thread>,
    table: map<Key, Mutex>,
    locked: map<Mutex, Thread>,
    nextMutex: Mutex)

  const INIT := State(map[], None, map[], map[], 0)

  function PlaceOf(s: State, t: Thread): Place
  {
    if t in s.places then s.places[t] else Outside
  }

  function Move(s: State, t: Thread, p: Place): State
  {
    s.(places := s.places[t := p])
  }

  /** The next step of thread `t`; `key` is what it asks for if it starts an acquire.
      Nothing when the step has to wait for a lock. */
  function Step(s: State, t: Thread, key: Key): Option<State>
  {
    match PlaceOf(s, t)
    case Outside => Some(Move(s, t, WantTable(key)))
    case WantTable(k) =>
      if s.tableHolder.Some? then None
      else Some(Move(s, t, InTable(k)).(tableHolder := Some(t)))
    case InTable(k) =>
      Some(Move(s, t, Found(k, if k in s.table then Some(s.table[k]) else None)))
    case Found(k, None) =>
      Some(Move(s, t, Found(k, Some(s.nextMutex))).(table := s.table[k := s.nextMutex], nextMutex := s.nextMutex + 1))
    case Found(k, Some(m)) =>
      Some(Move(s, t, WantMutex(k, m)).(tableHolder := None))
    case WantMutex(k, m) =>
      if m in s.locked then None
      else Some(Move(s, t, Holding(k, m)).(locked := s.locked[m := t]))
    case Holding(k, m) =>
      Some(Move(s, t, Outside).(locked := s.locked - {m}))
  }

  /** A schedule: which thread moves next, and what it asks for if it is outside. A
      thread that has to wait leaves the state as it is. */
  function Run(s: State, schedule: seq<(Thread, Key)>): State
    decreases |schedule|
  {
    if schedule == [] then s
    else
      var next := Step(s, schedule[0].0, schedule[0].1);
      Run(if next.Some? then next.value else s, schedule[1..])
  }

  // ------------------------------------------------------------------- invariant

  predicate InsideTable(p: Place)
  {
    p.InTable? || p.Found?
  }

  /** The table lock: exactly its holder is inside, and every key has its own mutex. */
  ghost predicate TableOk(s: State)
  {
    && (forall t: Thread :: InsideTable(PlaceOf(s, t)) <==> s.tableHolder == Some(t))
    && (forall k | k in s.table :: s.table[k] < s.nextMutex)
    && (forall k, l | k in s.table && l in s.table && k != l :: s.table[k] != s.table[l])
  }

  /** What a thread knows about the table is still so. */
  ghost predicate KnowsOk(s: State, p: Place)
  {
    match p
    case Found(k, None) => k !in s.table
    case Found(k, Some(m)) => k in s.table && s.table[k] == m
    case WantMutex(k, m) => k in s.table && s.table[k] == m
    case Holding(k, m) => k in s.table && s.table[k] == m
    case _ => true
  }

  /** A mutex is locked by the one thread that holds it. */
  ghost predicate LocksOk(s: State)
  {
    && (forall t: Thread :: PlaceOf(s, t).Holding? ==> PlaceOf(s, t).m in s.locked && s.locked[PlaceOf(s, t).m] == t)
    && (forall m | m in s.locked :: PlaceOf(s, s.locked[m]).Holding? && PlaceOf(s, s.locked[m]).m == m)
  }

  ghost predicate Inv(s: State)
  {
    TableOk(s) && LocksOk(s) && forall t: Thread :: KnowsOk(s, PlaceOf(s, t))
  }

  lemma StepKeepsTable(s: State, t: Thread, key: Key)
    requires Inv(s) && Step(s, t, key).Some?
    ensures TableOk(Step(s, t, key).value)
    ensures forall k | k in s.table :: k in Step(s, t, key).value.table && Step(s, t, key).value.table[k] == s.table[k]
  {
    var s' := Step(s, t, key).value;
    assert KnowsOk(s, PlaceOf(s, t));
    assert forall u: Thread | u != t :: PlaceOf(s', u) == PlaceOf(s, u);
  }

  lemma StepKeepsLocks(s: State, t: Thread, key: Key)
    requires Inv(s) && Step(s, t, key).Some?
    ensures LocksOk(Step(s, t, key).value)
  {
    var s' := Step(s, t, key).value;
    assert forall u: Thread | u != t :: PlaceOf(s', u) == PlaceOf(s, u);
  }

  lemma StepKeepsKnowledge(s: State, t: Thread, key: Key, u: Thread)
    requires Inv(s) && Step(s, t, key).Some?
    ensures KnowsOk(Step(s, t, key).value, PlaceOf(Step(s, t, key).value, u))
  {
    var s' := Step(s, t, key).value;
    StepKeepsTable(s, t, key);
    assert KnowsOk(s, PlaceOf(s, t)) && KnowsOk(s, PlaceOf(s, u));
    if u != t {
      assert PlaceOf(s', u) == PlaceOf(s, u);
      assert InsideTable(PlaceOf(s, u)) ==> !InsideTable(PlaceOf(s, t));
    }
  }

  lemma StepKeepsInv(s: State, t: Thread, key: Key)
    requires Inv(s) && Step(s, t, key).Some?
    ensures Inv(Step(s, t, key).value)
  {
    StepKeepsTable(s, t, key);
    StepKeepsLocks(s, t, key);
    forall u: Thread
      ensures KnowsOk(Step(s, t, key).value, PlaceOf(Step(s, t, key).value, u))
    {
      StepKeepsKnowledge(s, t, key, u);
    }
  }

  lemma {:induction false} RunKeepsInv(s: State, schedule: seq<(Thread, Key)>)
    requires Inv(s)
    ensures Inv(Run(s, schedule))
    ensures forall k | k in s.table :: k in Run(s, schedule).table && Run(s, schedule).table[k] == s.table[k]
    decreases |schedule|
  {
    if schedule != [] {
      var t, key := schedule[0].0, schedule[0].1;
      var next := Step(s, t, key);
      if next.Some? {
        StepKeepsInv(s, t, key);
        StepKeepsTable(s, t, key);
        RunKeepsInv(next.value, schedule[1..]);
      } else {
        RunKeepsInv(s, schedule[1..]);
      }
    }
  }

  // ---------------------------------------------------------------- main results

  /** Under every schedule of every number of threads, no two threads hold one key,
      whichever of them created its mutex. */
  lemma MutualExclusion(schedule: seq<(Thread, Key)>, t: Thread, u: Thread)
    requires var s := Run(INIT, schedule);
             PlaceOf(s, t).Holding? && PlaceOf(s, u).Holding? && PlaceOf(s, t).key == PlaceOf(s, u).key
    ensures t == u
  {
    RunKeepsInv(INIT, schedule);
    var s := Run(INIT, schedule);
    assert s.locked[PlaceOf(s, t).m] == t && s.locked[PlaceOf(s, u).m] == u;
  }

  /** The mutex of a key never changes once it exists, so threads cannot be split
      between an old and a new one. */
  lemma MutexIsPermanent(before: seq<(Thread, Key)>, after: seq<(Thread, Key)>, k: Key)
    requires k in Run(INIT, before).table
    ensures k in Run(Run(INIT, before), after).table
    ensures Run(Run(INIT, before), after).table[k] == Run(INIT, before).table[k]
  {
    RunKeepsInv(INIT, before);
    RunKeepsInv(Run(INIT, before), after);
  }

  /** Waiting ends: in every reachable state a thread that is inside an acquire or
      holds a key either can move or waits for a thread that can. */
  lemma SomeoneCanMove(schedule: seq<(Thread, Key)>, t: Thread) returns (u: Thread)
    requires !PlaceOf(Run(INIT, schedule), t).Outside?
    ensures !PlaceOf(Run(INIT, schedule), u).Outside?
    ensures forall key :: Step(Run(INIT, schedule), u, key).Some?
    ensures u == t
            || (PlaceOf(Run(INIT, schedule), t).WantTable? && InsideTable(PlaceOf(Run(INIT, schedule), u)))
            || (PlaceOf(Run(INIT, schedule), t).WantMutex? && PlaceOf(Run(INIT, schedule), u).Holding?
                && PlaceOf(Run(INIT, schedule), u).key == PlaceOf(Run(INIT, schedule), t).key)
  {
    RunKeepsInv(INIT, schedule);
    var s := Run(INIT, schedule);
    var p := PlaceOf(s, t);
    if p.WantTable? && s.tableHolder.Some? {
      u := s.tableHolder.value;
      assert InsideTable(PlaceOf(s, u));
    } else if p.WantMutex? && p.m in s.locked {
      u := s.locked[p.m];
    } else {
      u := t;
    }
  }

  // ------------------------------------------------------------ what acquire does

  /** The key a thread asked for and has not released. */
  function KeyAt(p: Place): Option<Key>
  {
    match p
    case Outside => None
    case WantTable(k) => Some(k)
    case InTable(k) => Some(k)
    case Found(k, _) => Some(k)
    case WantMutex(k, _) => Some(k)
    case Holding(k, _) => Some(k)
  }

  /** A thread that asks for a key goes on asking for it until it holds it, and only a
      release ends that; a step of one thread moves no other one. */
  lemma KeyIsKept(s: State, t: Thread, key: Key)
    requires Step(s, t, key).Some?
    ensures var p, p' := PlaceOf(s, t), PlaceOf(Step(s, t, key).value, t);
            && (p.Outside? ==> KeyAt(p') == Some(key) && !p'.Holding?)
            && (!p.Outside? && !p.Holding? ==> KeyAt(p') == KeyAt(p))
            && (p.WantMutex? ==> p'.Holding?)
            && (p.Holding? ==> p'.Outside?)
    ensures forall u: Thread | u != t :: PlaceOf(Step(s, t, key).value, u) == PlaceOf(s, u)
  {
  }

  /** A thread that holds a key has its mutex locked, and every other thread of that key
      waits; its release frees exactly that mutex. */
  lemma HoldingLocks(schedule: seq<(Thread, Key)>, t: Thread, key: Key)
    requires PlaceOf(Run(INIT, schedule), t).Holding?
    ensures var s := Run(INIT, schedule);
            var p := PlaceOf(s, t);
            && p.key in s.table && s.table[p.key] == p.m && p.m in s.locked && s.locked[p.m] == t
            && (forall u: Thread | PlaceOf(s, u).WantMutex? && PlaceOf(s, u).key == p.key :: Step(s, u, key).None?)
            && Step(s, t, key).Some? && Step(s, t, key).value.locked == s.locked - {p.m}
            && PlaceOf(Step(s, t, key).value, t).Outside?
  {
    RunKeepsInv(INIT, schedule);
    var s := Run(INIT, schedule);
    assert KnowsOk(s, PlaceOf(s, t));
    assert forall u: Thread :: KnowsOk(s, PlaceOf(s, u));
  }

  /** `n` turns of one thread. */
  function Alone(t: Thread, key: Key, n: nat): seq<(Thread, Key)>
  {
    if n == 0 then [] else [(t, key)] + Alone(t, key, n - 1)
  }

  lemma OneTurn(s: State, t: Thread, key: Key, n: nat)
    requires Step(s, t, key).Some?
    ensures Run(s, Alone(t, key, n + 1)) == Run(Step(s, t, key).value, Alone(t, key, n))
  {
    assert Alone(t, key, n + 1)[1..] == Alone(t, key, n);
  }

  /** From the lookup on: a free mutex is the thread's after two more steps. */
  lemma TakesFreeMutex(s: State, t: Thread, key: Key, m: Mutex)
    requires PlaceOf(s, t) == Found(key, Some(m)) && m !in s.locked
    ensures var after := Run(s, Alone(t, key, 2));
            PlaceOf(after, t) == Holding(key, m) && after.locked == s.locked[m := t]
            && after.table == s.table && after.tableHolder.None?
  {
    var s1 := Step(s, t, key).value;
    OneTurn(s, t, key, 1);
    OneTurn(s1, t, key, 0);
    assert Alone(t, key, 0) == [];
  }

  /** Up to the lookup: three steps where the table is free. */
  lemma LooksUp(s: State, t: Thread, key: Key, n: nat)
    requires PlaceOf(s, t).Outside? && s.tableHolder.None?
    ensures var found := Move(s, t, Found(key, if key in s.table then Some(s.table[key]) else None)).(tableHolder := Some(t));
            Run(s, Alone(t, key, n + 3)) == Run(found, Alone(t, key, n))
  {
    var s1 := Step(s, t, key).value;
    OneTurn(s, t, key, n + 2);
    var s2 := Step(s1, t, key).value;
    OneTurn(s1, t, key, n + 1);
    OneTurn(s2, t, key, n);
    assert s.places[t := WantTable(key)][t := InTable(key)][t := Found(key, if key in s.table then Some(s.table[key]) else None)]
           == s.places[t := Found(key, if key in s.table then Some(s.table[key]) else None)];
  }

  /** An acquire ends: in every reachable state where the table is free and no thread
      holds the key, a thread that asks for it holds it after its own steps alone, six
      if it has to create the mutex and five otherwise, and holds the table's mutex. */
  lemma AcquireHolds(schedule: seq<(Thread, Key)>, t: Thread, key: Key)
    requires var s := Run(INIT, schedule);
             && PlaceOf(s, t).Outside? && s.tableHolder.None?
             && forall u: Thread :: PlaceOf(s, u).Holding? ==> PlaceOf(s, u).key != key
    ensures var s := Run(INIT, schedule);
            var after := Run(s, Alone(t, key, if key in s.table then 5 else 6));
            && key in after.table && PlaceOf(after, t) == Holding(key, after.table[key])
            && after.table[key] in after.locked && after.locked[after.table[key]] == t
            && after.tableHolder.None?
  {
    var s := Run(INIT, schedule);
    RunKeepsInv(INIT, schedule);
    FreeMutex(s, key);
    if key in s.table {
      LooksUp(s, t, key, 2);
      TakesFreeMutex(Move(s, t, Found(key, Some(s.table[key]))).(tableHolder := Some(t)), t, key, s.table[key]);
    } else {
      LooksUp(s, t, key, 3);
      var missed := Move(s, t, Found(key, None)).(tableHolder := Some(t));
      OneTurn(missed, t, key, 2);
      TakesFreeMutex(Step(missed, t, key).value, t, key, s.nextMutex);
    }
  }

  /** A key that no thread holds has a mutex that is not locked. */
  lemma FreeMutex(s: State, key: Key)
    requires Inv(s) && forall u: Thread :: PlaceOf(s, u).Holding? ==> PlaceOf(s, u).key != key
    ensures key in s.table ==> s.table[key] !in s.locked
    ensures s.nextMutex !in s.locked
  {
    forall m | m in s.locked
      ensures (key in s.table ==> m != s.table[key]) && m != s.nextMutex
    {
      var u := s.locked[m];
      assert KnowsOk(s, PlaceOf(s, u));
    }
  }
}
