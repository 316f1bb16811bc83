/**
 The pool of transfer handles: a queue under one lock, growth under another, forced
 replacement on release, and a shutdown that waits for every borrower. Threads interleave
 between critical sections; each step below is one of them.
 */
module CurlContainer {
  import opened Bytes
  import opened Wrappers

  type Handle = nat
  type Thread = nat

  /** A growth in progress: how many handles it wants and how many it has added. */
  datatype Growth = Growth(amount: nat, added: nat)

  /** A shutdown in progress: the pool size it read and whether it went to sleep. */
  datatype Shutdown = Open | Closing(count: nat, asleep: bool) | Collected(handles: seq<Handle>)

  /** The pool, who has borrowed what, and the handles that exist. */
  datatype Pool = Pool(free: seq<Handle>, borrowed: map<Thread, Handle>, live: set<Handle>,
                       poolSize: nat, maxPoolSize: nat, growth: Option<Growth>, shutdown: Shutdown)

  datatype Step =
    | Acquire(t: Thread)                            // pop a free handle
    | Release(t: Thread, spare: Option<Handle>)     // push back the handle, or its forced replacement
    | BeginGrow                                     // lock, decide how many to add
    | AddHandle(h: Handle)                          // one new handle goes to the queue
    | EndGrow                                       // all added, or the first failure; unlock
    | BeginShutdown
    | Collect

  /** How many handles one growth tries to add: twice the pool, within the maximum. */
  function AmountToAdd(poolSize: nat, maxPoolSize: nat): nat
    requires poolSize <= maxPoolSize
  {
    Min((if poolSize > 0 then poolSize else 1) * 2, maxPoolSize - poolSize)
  }

  predicate Enabled(p: Pool, step: Step)
  {
    match step
    case Acquire(t) => p.shutdown.Open? && p.free != [] && t !in p.borrowed
    case Release(t, spare) => t in p.borrowed && !p.shutdown.Collected? && (spare.Some? ==> spare.value !in p.live)
    case BeginGrow => p.growth.None? && p.poolSize < p.maxPoolSize && !p.shutdown.Collected?
    case AddHandle(h) =>
      && p.growth.Some? && p.growth.value.added < p.growth.value.amount
      && h !in p.live && !p.shutdown.Collected?
    case EndGrow => p.growth.Some?
    case BeginShutdown => p.shutdown.Open?
    case Collect =>
      && p.shutdown.Closing?
      && if p.shutdown.asleep then |p.free| == p.shutdown.count else |p.free| >= p.shutdown.count
  }

  function Next(p: Pool, step: Step): Pool
    requires Enabled(p, step)
  {
    match step
    case Acquire(t) =>
      var last := |p.free| - 1;
      p.(free := p.free[..last], borrowed := p.borrowed[t := p.free[last]])
    case Release(t, spare) =>
      var h := if spare.Some? then spare.value else p.borrowed[t];
      p.(free := p.free + [h], borrowed := p.borrowed - {t}, live := p.live - {p.borrowed[t]} + {h})
    case BeginGrow =>
      p.(growth := Some(Growth(AmountToAdd(p.poolSize, p.maxPoolSize), 0)))
    case AddHandle(h) =>
      p.(free := p.free + [h], live := p.live + {h}, growth := Some(p.growth.value.(added := p.growth.value.added + 1)))
    case EndGrow => p.(growth := None, poolSize := p.poolSize + p.growth.value.added)
    case BeginShutdown => p.(shutdown := Closing(p.poolSize, |p.free| < p.poolSize))
    case Collect => p.(shutdown := Collected(p.free), free := [])
  }

  function Adding(p: Pool): nat
  {
    if p.growth.Some? then p.growth.value.added else 0
  }

  // ---------------------------------------------------------------- the invariant

  predicate Distinct(s: seq<Handle>)
  {
    forall i, j | 0 <= i < j < |s| :: s[i] != s[j]
  }

  ghost predicate Inv(p: Pool)
  {
    && p.poolSize <= p.maxPoolSize
    && (p.growth.Some? ==> p.growth.value.added <= p.growth.value.amount <= p.maxPoolSize - p.poolSize)
    && Distinct(p.free)
    && (forall t, u | t in p.borrowed && u in p.borrowed && t != u :: p.borrowed[t] != p.borrowed[u])
    && (forall t <- p.borrowed :: p.borrowed[t] !in p.free)
    && (!p.shutdown.Collected? ==>
          && |p.free| + |p.borrowed| == p.poolSize + Adding(p)
          && forall h :: h in p.live <==> h in p.free || h in p.borrowed.Values)
  }

  ghost predicate Initial(p: Pool)
  {
    p.free == [] && p.borrowed == map[] && p.live == {} && p.poolSize == 0 && p.growth.None? && p.shutdown.Open?
  }

  lemma MapLess(m: map<Thread, Handle>, t: Thread)
    requires t in m
    ensures |m - {t}| == |m| - 1
  {
    assert (m - {t}).Keys == m.Keys - {t};
    assert |m| == |m.Keys| && |m - {t}| == |(m - {t}).Keys|;
  }

  lemma MapMore(m: map<Thread, Handle>, t: Thread, h: Handle)
    requires t !in m
    ensures |m[t := h]| == |m| + 1
  {
    assert m[t := h].Keys == m.Keys + {t};
    assert |m| == |m.Keys| && |m[t := h]| == |m[t := h].Keys|;
  }

  lemma AcquireKeeps(p: Pool, t: Thread)
    requires Inv(p) && Enabled(p, Acquire(t))
    ensures Inv(Next(p, Acquire(t)))
  {
    var p' := Next(p, Acquire(t));
    var h := p.free[|p.free| - 1];
    MapMore(p.borrowed, t, h);
    forall g
      ensures g in p'.live <==> g in p'.free || g in p'.borrowed.Values
    {
      assert g in p.free <==> g in p'.free || g == h;
      assert p'.borrowed[t] == h;
      if g in p.borrowed.Values {
        var u :| u in p.borrowed && p.borrowed[u] == g;
        assert p'.borrowed[u] == g;
      }
    }
  }

  lemma ReleaseKeeps(p: Pool, t: Thread, spare: Option<Handle>)
    requires Inv(p) && Enabled(p, Release(t, spare))
    ensures Inv(Next(p, Release(t, spare)))
    ensures var q, h := Next(p, Release(t, spare)), p.borrowed[t];
      && (spare.None? ==> q.free == p.free + [h] && q.live == p.live)
      && (spare.Some? ==> q.free == p.free + [spare.value] && spare.value in q.live && Gone(q, h))
  {
    var p' := Next(p, Release(t, spare));
    MapLess(p.borrowed, t);
    assert p.borrowed[t] in p.borrowed.Values;
    forall g
      ensures g in p'.live <==> g in p'.free || g in p'.borrowed.Values
    {
      if g in p.borrowed.Values && g != p.borrowed[t] {
        var u :| u in p.borrowed && p.borrowed[u] == g;
        assert p'.borrowed[u] == g;
      }
    }
    forall u | u in p'.borrowed
      ensures p'.borrowed[u] !in p'.free
    {
      assert p.borrowed[u] in p.borrowed.Values;
    }
  }

  /** A handle that exists nowhere in the pool. */
  ghost predicate Gone(p: Pool, h: Handle)
  {
    h !in p.live && h !in p.free && h !in p.borrowed.Values
  }

  /** A handle replaced on release is never free or borrowed again, unless one is created with its name again. */
  lemma {:induction false} ReplacedStaysGone(p: Pool, h: Handle, steps: seq<Step>)
    requires Gone(p, h) && Possible(p, steps)
    requires forall s <- steps :: (s.AddHandle? ==> s.h != h) && (s.Release? ==> s.spare != Some(h))
    ensures Gone(Reached(p, steps), h)
    decreases |steps|
  {
    if steps != [] {
      assert steps[0] in steps && forall s <- steps[1..] :: s in steps;
      GoneStep(p, h, steps[0]);
      hide Next, Enabled, Gone;
      ReplacedStaysGone(Next(p, steps[0]), h, steps[1..]);
    }
  }

  lemma GoneStep(p: Pool, h: Handle, step: Step)
    requires Gone(p, h) && Enabled(p, step)
    requires (step.AddHandle? ==> step.h != h) && (step.Release? ==> step.spare != Some(h))
    ensures Gone(Next(p, step), h)
  {
    if step.Release? {
      assert p.borrowed[step.t] in p.borrowed.Values;
    }
  }

  lemma GrowKeeps(p: Pool, step: Step)
    requires Inv(p) && Enabled(p, step) && (step.BeginGrow? || step.AddHandle? || step.EndGrow?)
    ensures Inv(Next(p, step))
  {
    if step.AddHandle? {
      assert forall t <- p.borrowed :: p.borrowed[t] in p.borrowed.Values;
    }
  }

  lemma StepKeeps(p: Pool, step: Step)
    requires Inv(p) && Enabled(p, step)
    ensures Inv(Next(p, step)) && Next(p, step).maxPoolSize == p.maxPoolSize
  {
    match step
    case Acquire(t) => AcquireKeeps(p, t);
    case Release(t, spare) => ReleaseKeeps(p, t, spare);
    case BeginGrow => GrowKeeps(p, step);
    case AddHandle(h) => GrowKeeps(p, step);
    case EndGrow => GrowKeeps(p, step);
    case BeginShutdown =>
    case Collect =>
  }

  // ---------------------------------------------------------------- whole histories

  predicate Possible(p: Pool, steps: seq<Step>)
    decreases |steps|
  {
    steps == [] || (Enabled(p, steps[0]) && Possible(Next(p, steps[0]), steps[1..]))
  }

  function Reached(p: Pool, steps: seq<Step>): Pool
    requires Possible(p, steps)
    decreases |steps|
  {
    if steps == [] then p else Reached(Next(p, steps[0]), steps[1..])
  }

  lemma {:induction false} HistoryKeeps(p: Pool, steps: seq<Step>)
    requires Inv(p) && Possible(p, steps)
    ensures Inv(Reached(p, steps)) && Reached(p, steps).maxPoolSize == p.maxPoolSize
    decreases |steps|
  {
    hide Inv, Next, Enabled;
    if steps != [] {
      StepKeeps(p, steps[0]);
      HistoryKeeps(Next(p, steps[0]), steps[1..]);
    }
  }

  /**
   Under every interleaving: free and borrowed handles are exactly the ones that exist, their
   number is the pool size plus those being added and never above the maximum, and no handle
   is both free and borrowed, or borrowed twice.
   */
  lemma HandlesAreConserved(p: Pool, steps: seq<Step>)
    requires Initial(p) && Possible(p, steps) && !Reached(p, steps).shutdown.Collected?
    ensures var q := Reached(p, steps);
      && |q.free| + |q.borrowed| == q.poolSize + Adding(q) <= p.maxPoolSize
      && |q.live| == |q.free| + |q.borrowed|
      && (forall h :: h in q.live <==> h in q.free || h in q.borrowed.Values)
      && (forall t, u | t in q.borrowed && u in q.borrowed && t != u :: q.borrowed[t] != q.borrowed[u])
      && (forall t <- q.borrowed :: q.borrowed[t] !in q.free)
  {
    hide Next, Enabled, Possible, Reached;
    HistoryKeeps(p, steps);
    LiveCount(Reached(p, steps));
  }

  function Members(s: seq<Handle>): (m: set<Handle>)
    ensures forall h :: h in m <==> h in s
  {
    set h <- s
  }

  lemma LiveCount(q: Pool)
    requires Inv(q) && !q.shutdown.Collected?
    ensures |q.live| == |q.free| + |q.borrowed|
  {
    DistinctCount(q.free);
    ValuesCount(q.borrowed);
    assert q.borrowed.Values !! Members(q.free);
    SplitCount(q.live, Members(q.free), q.borrowed.Values);
  }

  lemma SplitCount(all: set<Handle>, a: set<Handle>, b: set<Handle>)
    requires a !! b && forall h :: h in all <==> h in a || h in b
    ensures |all| == |a| + |b|
  {
    assert all == a + b;
  }

  lemma {:induction false} DistinctCount(s: seq<Handle>)
    requires Distinct(s)
    ensures |Members(s)| == |s|
    decreases |s|
  {
    if s != [] {
      var front := s[..|s| - 1];
      DistinctCount(front);
      var last := s[|s| - 1];
      assert s == front + [last] && last !in front;
      assert Members(s) == Members(front) + {last};
    }
  }

  lemma {:induction false} ValuesCount(m: map<Thread, Handle>)
    requires forall t, u | t in m && u in m && t != u :: m[t] != m[u]
    ensures |m.Values| == |m|
    decreases |m|
  {
    if m == map[] {
      assert m.Values == {};
    } else {
      var t :| t in m;
      var rest := m - {t};
      MapLess(m, t);
      ValuesCount(rest);
      assert m.Values == rest.Values + {m[t]} by {
        forall h
          ensures h in m.Values <==> h in rest.Values + {m[t]}
        {
          if h in m.Values && h != m[t] {
            var u :| u in m && m[u] == h;
            assert rest[u] == h;
          }
        }
      }
    }
  }

  // ---------------------------------------------------------------- shutdown

  lemma NoneBorrowed(m: map<Thread, Handle>)
    ensures |m| == 0 <==> m == map[]
  {
  }

  /**
   When the wait is over, in every state a closing pool can be in: the shutdown counts handles and
   not borrowers, so handles added since it read the pool size stand in for borrowed ones.
   */
  lemma CollectCondition(p: Pool)
    requires Inv(p) && p.shutdown.Closing?
    ensures Enabled(p, Collect) <==>
      var extra := p.poolSize + Adding(p) - p.shutdown.count;
      if p.shutdown.asleep then |p.borrowed| == extra else |p.borrowed| <= extra
    ensures p.poolSize + Adding(p) == p.shutdown.count ==> (Enabled(p, Collect) <==> p.borrowed == map[])
  {
    NoneBorrowed(p.borrowed);
  }

  /** Whatever the shutdown collects is distinct, and what it leaves behind is exactly what is still borrowed. */
  lemma CollectedAreFree(p: Pool, steps: seq<Step>)
    requires Initial(p) && Possible(p, steps) && Enabled(Reached(p, steps), Collect)
    ensures var q := Reached(p, steps);
      var handles := Next(q, Collect).shutdown.handles;
      && Distinct(handles) && |handles| == q.poolSize + Adding(q) - |q.borrowed|
      && (forall h :: h in handles <==> h in q.live && h !in q.borrowed.Values)
  {
    hide Possible, Reached;
    HistoryKeeps(p, steps);
    var q := Reached(p, steps);
    forall h | h in q.borrowed.Values
      ensures h !in q.free
    {
      var t :| t in q.borrowed && q.borrowed[t] == h;
    }
  }

  /** The pool a thread leaves that has borrowed handle 0 of one, while a second growth has begun. */
  function BusyGrowing(p: Pool, t: Thread): Pool
    requires p.maxPoolSize >= 2
  {
    p.(borrowed := map[t := 0], live := {0}, poolSize := 1, growth := Some(Growth(Min(2, p.maxPoolSize - 1), 0)))
  }

  function BusySteps(t: Thread): seq<Step>
  {
    [BeginGrow, AddHandle(0), EndGrow, Acquire(t), BeginGrow]
  }

  lemma BusyReached(p: Pool, t: Thread)
    requires Initial(p) && p.maxPoolSize >= 2
    ensures Possible(p, BusySteps(t)) && Reached(p, BusySteps(t)) == BusyGrowing(p, t)
  {
    var p1 := Next(p, BeginGrow);
    var p2 := Next(p1, AddHandle(0));
    var p3 := Next(p2, EndGrow);
    var p4 := Next(p3, Acquire(t));
    assert p2.free == [0] && p4.free == [];
    var end := BusyGrowing(p, t);
    assert Next(p4, BeginGrow) == end;
    Continue(p4, BeginGrow, []);
    Continue(p3, Acquire(t), [BeginGrow]);
    Continue(p2, EndGrow, [Acquire(t), BeginGrow]);
    Continue(p1, AddHandle(0), [EndGrow, Acquire(t), BeginGrow]);
    Continue(p, BeginGrow, [AddHandle(0), EndGrow, Acquire(t), BeginGrow]);
  }

  lemma Continue(p: Pool, step: Step, rest: seq<Step>)
    requires Enabled(p, step) && Possible(Next(p, step), rest)
    ensures Possible(p, [step] + rest) && Reached(p, [step] + rest) == Reached(Next(p, step), rest)
    ensures Reached(Next(p, step), []) == Next(p, step)
  {
    assert ([step] + rest)[1..] == rest;
  }

  lemma {:induction false} Join(p: Pool, a: seq<Step>, b: seq<Step>)
    requires Possible(p, a) && Possible(Reached(p, a), b)
    ensures Possible(p, a + b) && Reached(p, a + b) == Reached(Reached(p, a), b)
    decreases |a|
  {
    hide Next, Enabled;
    if a == [] {
      assert a + b == b;
    } else {
      Join(Next(p, a[0]), a[1..], b);
      assert (a + b)[1..] == a[1..] + b;
    }
  }

  /**
   A growth under way when the size is read breaks the promise: in both histories the shutdown
   may collect while a handle is still borrowed, whether or not it went to sleep first.
   */
  lemma ShutdownLeavesABorrower(p: Pool, t: Thread, asleep: bool) returns (steps: seq<Step>)
    requires Initial(p) && p.maxPoolSize >= 2
    ensures Possible(p, steps)
    ensures var q := Reached(p, steps);
      && Enabled(q, Collect) && q.shutdown.Closing? && q.shutdown.asleep == asleep
      && t in q.borrowed && q.borrowed[t] in q.live
  {
    BusyReached(p, t);
    var q := BusyGrowing(p, t);
    var tail := if asleep then [BeginShutdown, AddHandle(1)] else [AddHandle(1), BeginShutdown];
    var q1 := Next(q, tail[0]);
    assert q.free == [];
    assert q1.free == if asleep then [] else [1];
    assert Next(q1, tail[1]).free == [1];
    Continue(q1, tail[1], []);
    Continue(q, tail[0], [tail[1]]);
    assert tail == [tail[0]] + [tail[1]];
    Join(p, BusySteps(t), tail);
    steps := BusySteps(t) + tail;
  }

  // ---------------------------------------------------------------- shutdown without growth

  /** No growth is under way and none has finished since the shutdown read the pool size. */
  predicate GrowthIsOver(p: Pool)
  {
    p.growth.None? && p.shutdown.Closing? && p.shutdown.count == p.poolSize
  }

  lemma {:induction false} GrowthStaysOver(p: Pool, steps: seq<Step>)
    requires GrowthIsOver(p) && Possible(p, steps) && forall s <- steps :: !s.BeginGrow? && !s.Collect?
    ensures GrowthIsOver(Reached(p, steps))
    decreases |steps|
  {
    if steps != [] {
      assert steps[0] in steps && forall s <- steps[1..] :: s in steps;
      GrowthStaysOver(Next(p, steps[0]), steps[1..]);
    }
  }

  /**
   Over every history in which no growth is under way when the shutdown begins and none begins
   after it: the shutdown waits for every borrower, and then gets poolSize distinct handles, all
   that exist.
   */
  lemma QuietShutdownCollectsAll(p: Pool, before: seq<Step>, after: seq<Step>)
    requires Initial(p) && Possible(p, before) && Reached(p, before).growth.None? && Reached(p, before).shutdown.Open?
    requires Possible(Next(Reached(p, before), BeginShutdown), after)
    requires forall s <- after :: !s.BeginGrow? && !s.Collect?
    ensures var q := Reached(Next(Reached(p, before), BeginShutdown), after);
      && (Enabled(q, Collect) <==> q.borrowed == map[])
      && (Enabled(q, Collect) ==>
            var handles := Next(q, Collect).shutdown.handles;
            && |handles| == q.poolSize == Reached(p, before).poolSize && Distinct(handles)
            && forall h :: h in q.live <==> h in handles)
  {
    HistoryKeeps(p, before);
    var closing := Next(Reached(p, before), BeginShutdown);
    StepKeeps(Reached(p, before), BeginShutdown);
    HistoryKeeps(closing, after);
    GrowthStaysOver(closing, after);
    SizeStays(closing, after);
    hide Possible, Reached;
    CollectCondition(Reached(closing, after));
  }

  lemma {:induction false} SizeStays(p: Pool, steps: seq<Step>)
    requires p.growth.None? && Possible(p, steps) && forall s <- steps :: !s.BeginGrow?
    ensures Reached(p, steps).poolSize == p.poolSize
    decreases |steps|
  {
    if steps != [] {
      assert steps[0] in steps && forall s <- steps[1..] :: s in steps;
      SizeStays(Next(p, steps[0]), steps[1..]);
    }
  }

  // ---------------------------------------------------------------- a shutdown that never wakes

  /** Asleep, nothing borrowed, and more handles than the shutdown counted. */
  predicate Overgrown(p: Pool)
  {
    p.shutdown.Closing? && p.shutdown.asleep && p.borrowed == map[] && p.poolSize + Adding(p) > p.shutdown.count
  }

  /** From such a state no continuation ever lets the shutdown finish. */
  lemma {:induction false} LateGrowthBlocksShutdown(p: Pool, steps: seq<Step>)
    requires Inv(p) && Overgrown(p) && Possible(p, steps)
    ensures Overgrown(Reached(p, steps)) && !Enabled(Reached(p, steps), Collect)
    decreases |steps|
  {
    CollectCondition(p);
    if steps != [] {
      StepKeeps(p, steps[0]);
      LateGrowthBlocksShutdown(Next(p, steps[0]), steps[1..]);
    }
  }

  /** And such a state is reached: a handle is added and the borrowed one given back before the sleeper looks. */
  lemma OvergrownIsReached(p: Pool, t: Thread) returns (steps: seq<Step>)
    requires Initial(p) && p.maxPoolSize >= 2
    ensures Possible(p, steps) && Inv(Reached(p, steps)) && Overgrown(Reached(p, steps))
  {
    BusyReached(p, t);
    var q := BusyGrowing(p, t);
    var q1 := Next(q, BeginShutdown);
    var q2 := Next(q1, AddHandle(1));
    assert Enabled(q2, Release(t, None));
    Continue(q2, Release(t, None), []);
    Continue(q1, AddHandle(1), [Release(t, None)]);
    Continue(q, BeginShutdown, [AddHandle(1), Release(t, None)]);
    var tail := [BeginShutdown] + ([AddHandle(1)] + [Release(t, None)]);
    Join(p, BusySteps(t), tail);
    steps := BusySteps(t) + tail;
    InitialInv(p);
    HistoryKeeps(p, steps);
    assert q2.borrowed == map[t := 0] && q2.borrowed - {t} == map[];
  }

  lemma InitialInv(p: Pool)
    requires Initial(p)
    ensures Inv(p)
  {
  }

  // ---------------------------------------------------------------- geometric growth

  function Pow3(n: nat): nat { if n == 0 then 1 else 3 * Pow3(n - 1) }

  /** The pool size after k growths that all succeed. */
  function Grown(maxPoolSize: nat, k: nat): (s: nat)
    ensures s <= maxPoolSize
  {
    if k == 0 then 0 else Grown(maxPoolSize, k - 1) + AmountToAdd(Grown(maxPoolSize, k - 1), maxPoolSize)
  }

  /** Sizes triple from 2 until the maximum stops them. */
  lemma {:induction false} GrowthIsGeometric(maxPoolSize: nat, k: nat)
    requires maxPoolSize > 0 && k > 0
    ensures Grown(maxPoolSize, k) == Min(2 * Pow3(k - 1), maxPoolSize)
  {
    if k > 1 {
      GrowthIsGeometric(maxPoolSize, k - 1);
      assert Pow3(k - 1) == 3 * Pow3(k - 2) && Pow3(k - 2) > 0;
    }
  }

  // ---------------------------------------------------------------- the container object

  /** The steps of one growth whose first |created| handle creations succeed. */
  function GrowSteps(created: seq<Handle>): seq<Step>
  {
    if created == [] then [EndGrow] else [AddHandle(created[0])] + GrowSteps(created[1..])
  }

  class CurlContainer {
    var resources: seq<Handle>
    var isShutdown: bool
    var poolSize: nat
    const maxPoolSize: nat
    ghost var borrowed: map<Thread, Handle>
    ghost var live: set<Handle>
    ghost var closing: Shutdown

    ghost function View(): Pool
      reads this
    {
      Pool(resources, borrowed, live, poolSize, maxPoolSize, None, if isShutdown then closing else Open)
    }

    constructor (maxSize: nat := 16)
      ensures !isShutdown && Initial(View()) && Inv(View()) && maxPoolSize == maxSize
    {
      resources, isShutdown, poolSize, maxPoolSize := [], false, 0, maxSize;
      borrowed, live, closing := map[], {}, Open;
    }

    /** The critical section of Acquire, once a handle is free. */
    method TakeFree(ghost t: Thread) returns (h: Handle)
      requires !isShutdown && Enabled(View(), Acquire(t))
      modifies `resources, `borrowed
      ensures View() == Next(old(View()), Acquire(t))
      ensures old(resources) == resources + [h] && borrowed == old(borrowed)[t := h]
    {
      h := resources[|resources| - 1];
      resources := resources[..|resources| - 1];
      borrowed := borrowed[t := h];
    }

    /** Gives a handle back; a forced release swaps it for a new one when one can be made. */
    method GiveBack(handle: Handle, force: bool, newHandle: Option<Handle>, ghost t: Thread)
      requires !View().shutdown.Collected? && t in borrowed && borrowed[t] == handle
      requires newHandle.Some? ==> newHandle.value !in live
      modifies `resources, `borrowed, `live
      ensures View() == Next(old(View()), Release(t, if force then newHandle else None))
      ensures borrowed == old(borrowed) - {t}
      ensures if force && newHandle.Some? then
                resources == old(resources) + [newHandle.value] && live == old(live) - {handle} + {newHandle.value}
              else resources == old(resources) + [handle] && live == old(live) - {handle} + {handle}
      ensures old(Inv(View())) && force && newHandle.Some? ==> Gone(View(), handle)
    {
      hide Inv, Gone;
      if Inv(View()) {
        ReleaseKeeps(View(), t, if force then newHandle else None);
      }
      var h := handle;
      if force && newHandle.Some? {
        h := newHandle.value;
      }
      resources := resources + [h];
      live := live - {handle} + {h};
      borrowed := borrowed - {t};
    }

    /** Grows the pool by as many handles as can be created, up to the amount. */
    method GrowPool(created: seq<Handle>) returns (grown: bool)
      requires !isShutdown && Inv(View()) && Distinct(created) && forall h <- created :: h !in live
      modifies `resources, `poolSize, `live
      ensures grown <==> old(poolSize) < maxPoolSize && created != []
      ensures var most := if old(poolSize) == 0 then 2 else 2 * old(poolSize);
        var n := Min(Min(most, maxPoolSize - old(poolSize)), |created|);
        resources == old(resources) + created[..n] && poolSize == old(poolSize) + n
      ensures old(poolSize) == maxPoolSize ==> View() == old(View())
      ensures old(poolSize) < maxPoolSize ==>
        var n := Min(AmountToAdd(old(poolSize), maxPoolSize), |created|);
        var steps := [BeginGrow] + GrowSteps(created[..n]);
        Possible(old(View()), steps) && View() == Reached(old(View()), steps)
    {
      if poolSize == maxPoolSize {
        return false;
      }
      var amountToAdd := AmountToAdd(poolSize, maxPoolSize);
      ghost var n := Min(amountToAdd, |created|);
      ghost var p := Next(View(), BeginGrow);
      var actuallyAdded := AddHandles(amountToAdd, created);
      poolSize := poolSize + actuallyAdded;
      GrowStepsReach(p, created[..n]);
      assert View() == AfterGrowth(p, created[..n]);
      hide Next, Reached, Possible;
      GrowRun(old(View()), created[..n]);
      grown := actuallyAdded > 0;
    }

    /** The adding loop: as many of the handles as can be created, up to the amount, go to the queue. */
    method AddHandles(amountToAdd: nat, created: seq<Handle>) returns (actuallyAdded: nat)
      modifies `resources, `live
      ensures actuallyAdded == Min(amountToAdd, |created|)
      ensures resources == old(resources) + created[..actuallyAdded]
      ensures live == old(live) + Members(created[..actuallyAdded])
    {
      actuallyAdded := 0;
      while actuallyAdded < amountToAdd && actuallyAdded < |created|
        invariant actuallyAdded <= Min(amountToAdd, |created|)
        invariant resources == old(resources) + created[..actuallyAdded]
        invariant live == old(live) + Members(created[..actuallyAdded])
      {
        assert created[..actuallyAdded + 1] == created[..actuallyAdded] + [created[actuallyAdded]];
        resources := resources + [created[actuallyAdded]];
        live := live + {created[actuallyAdded]};
        actuallyAdded := actuallyAdded + 1;
      }
    }

    /**
     The destructor: closes the pool and waits while the borrowers, in any order, give their
     handles back; then it gets every handle there is, each once.
     */
    method ShutdownAndWait(given: seq<Handle>, ghost who: seq<Thread>) returns (handles: seq<Handle>)
      requires !isShutdown && Inv(View())
      requires |given| == |who| == |borrowed| && forall i, j | 0 <= i < j < |who| :: who[i] != who[j]
      requires forall i | 0 <= i < |who| :: who[i] in borrowed && borrowed[who[i]] == given[i]
      modifies `resources, `isShutdown, `closing, `borrowed, `live
      ensures Possible(old(View()), ShutdownSteps(who)) && View() == Reached(old(View()), ShutdownSteps(who))
      ensures |handles| == poolSize && Distinct(handles) && forall h :: h in live <==> h in handles
      ensures borrowed == map[]
    {
      ghost var p := View();
      ghost var q := Next(p, BeginShutdown);
      BeginShutdownWaits(p);
      isShutdown := true;
      closing := q.shutdown;
      WaitForAll(poolSize, given, who);
      hide Next, Reached, Possible, Enabled, Inv;
      ghost var here := View();
      QuietRelease(q, who);
      handles := resources;
      closing := Collected(resources);
      resources := [];
      assert View() == Next(here, Collect) by { CollectedView(here); }
      ShutdownRun(p, who);
    }

    /** The waiting loop of a shutdown: one borrower after the other gives its handle back. */
    method WaitForAll(resourceCount: nat, given: seq<Handle>, ghost who: seq<Thread>)
      requires isShutdown && !closing.Collected?
      requires |resources| + |who| == resourceCount && |given| == |who|
      requires forall i, j | 0 <= i < j < |who| :: who[i] != who[j]
      requires forall i | 0 <= i < |who| :: who[i] in borrowed && borrowed[who[i]] == given[i]
      modifies `resources, `borrowed, `live
      ensures Possible(old(View()), Releases(who)) && View() == Reached(old(View()), Releases(who))
      ensures |resources| == resourceCount
    {
      hide Next, Reached, Possible, Enabled, Releases;
      ghost var q := View();
      StandStill(q);
      var i := 0;
      while |resources| < resourceCount
        invariant i <= |who| && |resources| + |who| == resourceCount + i
        invariant forall j | i <= j < |who| :: who[j] in borrowed && borrowed[who[j]] == given[j]
        invariant Possible(q, Releases(who[..i])) && View() == Reached(q, Releases(who[..i]))
        decreases |who| - i
      {
        ghost var here := View();
        CanRelease(here, who[i]);
        GiveBack(given[i], false, None, who[i]);
        OneMoreRelease(q, who, i);
        i := i + 1;
      }
      assert who[..i] == who;
    }
  }

  lemma StandStill(p: Pool)
    ensures Releases([]) == [] && Possible(p, []) && Reached(p, []) == p
  {
  }

  lemma CanRelease(p: Pool, t: Thread)
    requires t in p.borrowed && !p.shutdown.Collected?
    ensures Enabled(p, Release(t, None))
    ensures var q := Next(p, Release(t, None)); q.borrowed == p.borrowed - {t} && |q.free| == |p.free| + 1
  {
  }

  lemma OneMoreRelease(q: Pool, who: seq<Thread>, i: nat)
    requires i < |who| && Possible(q, Releases(who[..i]))
    requires Enabled(Reached(q, Releases(who[..i])), Release(who[i], None))
    ensures Possible(q, Releases(who[..i + 1]))
    ensures Reached(q, Releases(who[..i + 1])) == Next(Reached(q, Releases(who[..i])), Release(who[i], None))
  {
    hide Next, Reached, Possible, Enabled;
    var here, step := Reached(q, Releases(who[..i])), Release(who[i], None);
    StandStill(Next(here, step));
    Continue(here, step, []);
    assert [step] + [] == [step];
    Join(q, Releases(who[..i]), [step]);
    assert Releases(who[..i + 1]) == Releases(who[..i]) + [step];
  }

  lemma BeginShutdownWaits(p: Pool)
    requires Inv(p) && p.shutdown.Open? && p.growth.None?
    ensures Enabled(p, BeginShutdown)
    ensures var q := Next(p, BeginShutdown);
      && Inv(q) && GrowthIsOver(q) && !q.shutdown.Collected? && |q.free| + |q.borrowed| == q.poolSize
      && q == p.(shutdown := q.shutdown)
  {
  }

  /** Releases alone keep a quiet shutdown quiet; with as many handles free as it counted it may collect them all. */
  lemma QuietRelease(q: Pool, who: seq<Thread>)
    requires Inv(q) && GrowthIsOver(q) && Possible(q, Releases(who))
    ensures var here := Reached(q, Releases(who));
      && Inv(here) && GrowthIsOver(here)
      && (|here.free| == q.poolSize ==>
            Enabled(here, Collect) && here.borrowed == map[] && Distinct(here.free) && |here.free| == here.poolSize
            && forall h :: h in here.live <==> h in here.free)
  {
    hide Possible, Reached;
    HistoryKeeps(q, Releases(who));
    GrowthStaysOver(q, Releases(who));
    SizeStays(q, Releases(who));
    CollectCondition(Reached(q, Releases(who)));
  }

  lemma CollectedView(p: Pool)
    requires Enabled(p, Collect)
    ensures Next(p, Collect) == p.(shutdown := Collected(p.free), free := [])
  {
  }

  lemma ShutdownRun(p: Pool, who: seq<Thread>)
    requires Enabled(p, BeginShutdown) && Possible(Next(p, BeginShutdown), Releases(who))
    requires Enabled(Reached(Next(p, BeginShutdown), Releases(who)), Collect)
    ensures Possible(p, ShutdownSteps(who))
    ensures Reached(p, ShutdownSteps(who)) == Next(Reached(Next(p, BeginShutdown), Releases(who)), Collect)
  {
    hide Next, Reached, Possible, Enabled;
    var q := Next(p, BeginShutdown);
    var here := Reached(q, Releases(who));
    StandStill(Next(here, Collect));
    Continue(here, Collect, []);
    assert [Collect] + [] == [Collect];
    Join(q, Releases(who), [Collect]);
    Continue(p, BeginShutdown, Releases(who) + [Collect]);
  }

  function Releases(who: seq<Thread>): (steps: seq<Step>)
    ensures |steps| == |who| && forall i | 0 <= i < |who| :: steps[i] == Release(who[i], None)
  {
    seq(|who|, i requires 0 <= i < |who| => Release(who[i], None))
  }

  /** A shutdown during which the borrowers give their handles back in the order of `who`. */
  function ShutdownSteps(who: seq<Thread>): seq<Step>
  {
    [BeginShutdown] + (Releases(who) + [Collect])
  }

  /** What a growth adds up to when nothing comes between its steps. */
  lemma {:induction false} GrowStepsReach(p: Pool, created: seq<Handle>)
    requires p.growth.Some? && p.growth.value.added + |created| <= p.growth.value.amount && !p.shutdown.Collected?
    requires Distinct(created) && forall h <- created :: h !in p.live
    ensures Possible(p, GrowSteps(created))
    ensures Reached(p, GrowSteps(created)) == AfterGrowth(p, created)
    decreases |created|
  {
    var steps := GrowSteps(created);
    if created == [] {
      assert steps[1..] == [];
      assert Reached(Next(p, EndGrow), []) == Next(p, EndGrow);
      assert p.free + created == p.free && p.live + Members(created) == p.live;
    } else {
      var q, rest := Next(p, AddHandle(created[0])), created[1..];
      assert forall i | 0 <= i < |rest| :: rest[i] == created[i + 1];
      assert forall h <- rest :: h !in q.live;
      GrowStepsReach(q, rest);
      assert steps[0] == AddHandle(created[0]) && steps[1..] == GrowSteps(rest);
      assert created == [created[0]] + rest;
      AfterGrowthStep(p, created);
    }
  }

  lemma GrowRun(p: Pool, created: seq<Handle>)
    requires Enabled(p, BeginGrow) && Possible(Next(p, BeginGrow), GrowSteps(created))
    ensures Possible(p, [BeginGrow] + GrowSteps(created))
    ensures Reached(p, [BeginGrow] + GrowSteps(created)) == Reached(Next(p, BeginGrow), GrowSteps(created))
  {
    Continue(p, BeginGrow, GrowSteps(created));
  }

  function AfterGrowth(p: Pool, created: seq<Handle>): Pool
    requires p.growth.Some?
  {
    p.(free := p.free + created, live := p.live + Members(created), growth := None,
       poolSize := p.poolSize + p.growth.value.added + |created|)
  }

  lemma AfterGrowthStep(p: Pool, created: seq<Handle>)
    requires created != [] && Enabled(p, AddHandle(created[0]))
    ensures AfterGrowth(Next(p, AddHandle(created[0])), created[1..]) == AfterGrowth(p, created)
  {
    var rest := created[1..];
    assert created == [created[0]] + rest;
    assert (p.free + [created[0]]) + rest == p.free + created;
    assert (p.live + {created[0]}) + Members(rest) == p.live + Members(created);
  }
}
