/** The index allocator (Indexer/Indexer.c): it hands out recycled indexes first and otherwise
    counts upwards past the reserved ones, in 32-bit arithmetic. */
module Indexing {
  import opened OpcTypes

  /** The allocator's state: the last counted index, the recycled ones and the reserved ones. */
  datatype Index = Index(next: nat, stash: seq<nat>, reserved: seq<nat>)

  predicate NoRepeats(s: seq<nat>) {
    forall i, j :: 0 <= i < j < |s| ==> s[i] != s[j]
  }

  // ----- The allocator on unbounded numbers -----

  ghost function Above(n: nat, reserved: seq<nat>): set<nat> {
    set v | v in reserved && n < v
  }

  /** The least number above `n` that is not reserved. */
  function NextFree(n: nat, reserved: seq<nat>): (v: nat)
    ensures n < v && v !in reserved
    ensures forall u :: n < u < v ==> u in reserved
    decreases Above(n, reserved)
  {
    if n + 1 in reserved then
      assert n + 1 in Above(n, reserved) && n + 1 !in Above(n + 1, reserved);
      NextFree(n + 1, reserved)
    else
      n + 1
  }

  /** One allocation. */
  function Issue(ix: Index): (r: (nat, Index)) {
    if ix.stash == [] then
      var v := NextFree(ix.next, ix.reserved);
      (v, ix.(next := v))
    else
      (ix.stash[|ix.stash| - 1], ix.(stash := ix.stash[..|ix.stash| - 1]))
  }

  /** `v` can never be handed out again unless it is recycled. */
  predicate Spent(ix: Index, v: nat) {
    v !in ix.stash && (v <= ix.next || v in ix.reserved)
  }

  predicate Sound(ix: Index) {
    && NoRepeats(ix.stash)
    && forall v :: v in ix.stash ==> v <= ix.next || v in ix.reserved
  }

  /** An allocation returns an index that was not spent, spends it and keeps the spent ones spent. */
  lemma IssueIsFresh(ix: Index)
    requires Sound(ix)
    ensures var (v, ix1) := Issue(ix);
      && !Spent(ix, v) && Spent(ix1, v) && Sound(ix1)
      && ix.next <= ix1.next && ix1.reserved == ix.reserved
      && forall u :: Spent(ix, u) ==> Spent(ix1, u)
  {
    if ix.stash != [] {
      var n := |ix.stash| - 1;
      assert forall u :: u in ix.stash[..n] ==> u in ix.stash;
      assert ix.stash[n] !in ix.stash[..n];
    }
  }

  /** What was recycled last is handed out first, and that undoes the recycling. */
  lemma RecycledComesFirst(ix: Index, v: nat)
    ensures Issue(ix.(stash := ix.stash + [v])) == (v, ix)
    ensures forall ix1 :: Gets(ix.(stash := ix.stash + [v]), v, ix1) <==> ix1 == ix
  {
    assert (ix.stash + [v])[..|ix.stash|] == ix.stash;
  }

  // ----- The allocator in 32-bit arithmetic -----

  function Wrap(n: nat, k: nat): (r: nat) {
    (n + k) % UINT32
  }

  lemma WrapOn(n: nat, k: nat)
    ensures Wrap(n, k + 1) == (Wrap(n, k) + 1) % UINT32
  {
  }

  /** `v` is the first unreserved value met when counting up from `n` with wrap-around. */
  ghost predicate FirstFree(n: nat, reserved: seq<nat>, v: nat, steps: nat) {
    && 0 < steps <= UINT32
    && v == Wrap(n, steps)
    && v !in reserved
    && forall k :: 0 < k < steps ==> Wrap(n, k) in reserved
  }

  /** The wrapping search agrees with the unbounded one exactly below the 32-bit limit. */
  lemma WrappedSearchAgrees(n: nat, reserved: seq<nat>, v: nat, steps: nat)
    requires FirstFree(n, reserved, v, steps)
    ensures v == NextFree(n, reserved) <==> NextFree(n, reserved) < UINT32
  {
    var f := NextFree(n, reserved);
    if f < UINT32 {
      assert Wrap(n, f - n) == f;
      assert steps < f - n ==> Wrap(n, steps) == n + steps;
    }
  }

  /** One allocation in 32-bit arithmetic. */
  ghost predicate Gets(ix: Index, v: nat, ix1: Index) {
    if ix.stash != [] then (v, ix1) == Issue(ix)
    else ix1 == ix.(next := v) && exists steps :: FirstFree(ix.next, ix.reserved, v, steps)
  }

  /** The state of the allocator; `stashed` and `reserved` are the growable arrays. */
  class Indexer {
    var nextIndex: nat
    var stashed: seq<nat>
    var stashedCapacity: nat
    var reserved: seq<nat>
    var reservedCapacity: nat

    ghost predicate Valid()
      reads this
    {
      && nextIndex < UINT32
      && |stashed| <= stashedCapacity
      && |reserved| <= reservedCapacity
    }

    ghost function State(): Index
      reads this
    {
      Index(nextIndex, stashed, reserved)
    }

    constructor ()
      ensures Valid() && State() == Index(0, [], [])
    {
      nextIndex := 0;
      stashed, stashedCapacity := [], 0;
      reserved, reservedCapacity := [], 0;
    }

    method RecycleIndex(index: nat)
      requires Valid()
      modifies this
      ensures Valid()
      ensures State() == old(State()).(stash := old(stashed) + [index])
    {
      if |stashed| >= stashedCapacity {
        stashedCapacity := stashedCapacity + 1;
      }
      stashed := stashed + [index];
    }

    method AddToReserved(index: nat)
      requires Valid()
      modifies this
      ensures Valid()
      ensures State() == old(State()).(reserved := old(reserved) + [index])
    {
      if |reserved| >= reservedCapacity {
        reservedCapacity := reservedCapacity + 1;
      }
      reserved := reserved + [index];
    }

    /** The inner loop of the search: whether the counter stands on a reserved index. */
    method IsReserved() returns (isMatch: bool)
      ensures isMatch <==> nextIndex in reserved
    {
      var i := 0;
      while i < |reserved|
        invariant 0 <= i <= |reserved|
        invariant forall j :: 0 <= j < i ==> reserved[j] != nextIndex
      {
        if reserved[i] == nextIndex {
          return true;
        }
        i := i + 1;
      }
      return false;
    }

    /** The search for an unreserved index ends exactly because some 32-bit value is unreserved. */
    method GetNextIndex(ghost free: nat) returns (val: nat)
      requires Valid()
      requires stashed == [] ==> free < UINT32 && free !in reserved
      modifies this
      ensures Valid()
      ensures Gets(old(State()), val, State())
      ensures old(stashed) != [] || NextFree(old(nextIndex), reserved) < UINT32 ==>
        (val, State()) == Issue(old(State()))
    {
      if |stashed| == 0 {
        ghost var steps := CountUp(free);
        if NextFree(old(nextIndex), reserved) < UINT32 {
          WrappedSearchAgrees(old(nextIndex), reserved, nextIndex, steps);
        }
        return nextIndex;
      }
      val := stashed[|stashed| - 1];
      stashed := stashed[..|stashed| - 1];
      stashedCapacity := stashedCapacity - 1;
    }

    /** The search loop: the counter goes up, with wrap-around, until it stands on no reserved index. */
    method CountUp(ghost free: nat) returns (ghost steps: nat)
      requires Valid() && free < UINT32 && free !in reserved
      modifies `nextIndex
      ensures Valid() && FirstFree(old(nextIndex), reserved, nextIndex, steps)
    {
      var isMatch := true;
      steps := 0;
      ghost var target := if nextIndex < free then free - nextIndex else free + UINT32 - nextIndex;
      assert Wrap(nextIndex, target) == free;
      while isMatch
        invariant Valid()
        invariant 0 <= steps <= target <= UINT32
        invariant nextIndex == Wrap(old(nextIndex), steps) && (steps == 0 ==> isMatch)
        invariant isMatch ==> steps < target
        invariant isMatch ==> forall k :: 0 < k <= steps ==> Wrap(old(nextIndex), k) in reserved
        invariant !isMatch ==> FirstFree(old(nextIndex), reserved, nextIndex, steps)
        decreases target - steps
      {
        WrapOn(old(nextIndex), steps);
        nextIndex := (nextIndex + 1) % UINT32;
        steps := steps + 1;
        isMatch := IsReserved();
      }
    }
  }

  // ----- Runs -----

  /** The allocator with what its clients hold and what was ever handed out. */
  datatype World = World(ix: Index, held: set<nat>, issued: set<nat>)

  datatype Event = Get(v: nat) | Recycle(v: nat) | Reserve(v: nat)

  /** Clients recycle what they hold, and reserve indexes before these are handed out. */
  ghost predicate Step(w: World, e: Event, w1: World) {
    match e
    case Get(v) => Gets(w.ix, v, w1.ix) && w1.held == w.held + {v} && w1.issued == w.issued + {v}
    case Recycle(v) => v in w.held && w1 == World(w.ix.(stash := w.ix.stash + [v]), w.held - {v}, w.issued)
    case Reserve(v) => v !in w.issued && w1 == w.(ix := w.ix.(reserved := w.ix.reserved + [v]))
  }

  ghost predicate Run(trace: seq<World>, events: seq<Event>) {
    && |trace| == |events| + 1
    && trace[0] == World(Index(0, [], []), {}, {})
    && forall i :: 0 <= i < |events| ==> Step(trace[i], events[i], trace[i + 1])
  }

  /** The event hands out an index that is held already. */
  predicate Collides(w: World, e: Event) {
    e.Get? && e.v in w.held
  }

  ghost predicate CollidesBefore(trace: seq<World>, events: seq<Event>, n: nat)
    requires n <= |events| <= |trace|
  {
    exists i :: 0 <= i < n && Collides(trace[i], events[i])
  }

  predicate IsOut(w: World, v: nat) {
    v in w.issued || v in w.ix.reserved
  }

  /** Every 32-bit number has been handed out or is reserved. */
  ghost predicate AllOut(w: World) {
    forall v: nat :: v < UINT32 ==> IsOut(w, v)
  }

  /** The event counts up in search of a new index when there is none. */
  ghost predicate RunsDry(w: World, e: Event) {
    e.Get? && w.ix.stash == [] && AllOut(w)
  }

  /** How far the counter has come; zero is the last number that it meets. */
  function Reached(w: World): nat {
    if 0 in w.issued then UINT32 - 1 else w.ix.next
  }

  /** What is held and what is stashed partition what was issued; nothing issued is reserved. */
  ghost predicate Conserved(w: World) {
    && NoRepeats(w.ix.stash)
    && w.held + (set v | v in w.ix.stash) == w.issued
    && (forall v :: v in w.ix.stash ==> v !in w.held)
    && (forall v :: v in w.issued ==> v < UINT32 && v !in w.ix.reserved)
  }

  /** What the counter has passed is out, and what was issued it has passed. */
  ghost predicate Counted(w: World) {
    && w.ix.next < UINT32
    && (forall v :: 0 < v <= Reached(w) ==> IsOut(w, v))
    && (forall v :: v in w.issued ==> v <= Reached(w))
  }

  /** The search passes the numbers above the counter first, and then those from zero on. */
  lemma SearchPasses(n: nat, reserved: seq<nat>, v: nat, steps: nat)
    requires n < UINT32 && FirstFree(n, reserved, v, steps)
    ensures v < UINT32 && v !in reserved
    ensures n < v ==> forall u :: n < u < v ==> u in reserved
    ensures v <= n ==> forall u :: n < u < UINT32 ==> u in reserved
    ensures 0 < v <= n ==> 0 in reserved
  {
    forall u | n < u < UINT32 && (n < v ==> u < v)
      ensures u in reserved
    {
      assert Wrap(n, u - n) == u;
    }
    assert Wrap(n, UINT32 - n) == 0;
  }

  /** An allocation hands out a held index exactly when nothing is stashed and every 32-bit number
      has been handed out or is reserved. */
  lemma CollidesIff(w: World, e: Event, w1: World)
    requires Conserved(w) && Counted(w) && e.Get? && Step(w, e, w1)
    ensures Collides(w, e) <==> RunsDry(w, e)
    ensures e.v !in w.ix.reserved
  {
    var ix, v := w.ix, e.v;
    if ix.stash != [] {
      assert v in ix.stash;
    } else {
      assert w.held == w.issued;
      var steps :| FirstFree(ix.next, ix.reserved, v, steps);
      SearchPasses(ix.next, ix.reserved, v, steps);
      if AllOut(w) {
        assert IsOut(w, v);
      } else if v in w.issued {
        var u: nat :| u < UINT32 && !IsOut(w, u);
        assert false;
      }
    }
  }

  lemma GetConserves(w: World, v: nat, w1: World)
    requires Conserved(w) && Counted(w) && Step(w, Get(v), w1) && v !in w.held
    ensures Conserved(w1) && Counted(w1)
  {
    var s := w.ix.stash;
    if s != [] {
      var n := |s| - 1;
      assert s == s[..n] + [s[n]];
      assert s[n] !in s[..n];
      assert (set v | v in s) == (set v | v in s[..n]) + {s[n]};
      assert v in w.issued;
      assert w1.issued == w.issued;
      assert forall u :: IsOut(w, u) ==> IsOut(w1, u);
    } else {
      GetCounts(w, v, w1);
    }
  }

  lemma GetCounts(w: World, v: nat, w1: World)
    requires Conserved(w) && Counted(w) && Step(w, Get(v), w1) && v !in w.held && w.ix.stash == []
    ensures Conserved(w1) && Counted(w1)
  {
    var ix := w.ix;
    assert w.held == w.issued;
    var steps :| FirstFree(ix.next, ix.reserved, v, steps);
    SearchPasses(ix.next, ix.reserved, v, steps);
    assert v > 0 ==> v > Reached(w) by {
      assert 0 < v <= Reached(w) ==> IsOut(w, v);
    }
    forall u | 0 < u <= Reached(w1)
      ensures IsOut(w1, u)
    {
      if u <= Reached(w) {
        assert IsOut(w, u);
      }
    }
  }

  lemma RecycleConserves(w: World, v: nat, w1: World)
    requires Conserved(w) && Counted(w) && Step(w, Recycle(v), w1)
    ensures Conserved(w1) && Counted(w1)
  {
    assert (set u | u in w.ix.stash + [v]) == (set u | u in w.ix.stash) + {v};
    assert forall u :: IsOut(w, u) ==> IsOut(w1, u);
  }

  lemma StepConserves(w: World, e: Event, w1: World)
    requires Conserved(w) && Counted(w) && Step(w, e, w1) && !Collides(w, e)
    ensures Conserved(w1) && Counted(w1)
  {
    match e
    case Get(v) => GetConserves(w, v, w1);
    case Recycle(v) => RecycleConserves(w, v, w1);
    case Reserve(v) => assert forall u :: IsOut(w, u) ==> IsOut(w1, u);
  }

  /** Until the first collision what is held together with what is stashed is exactly what was ever
      issued, and nothing issued is reserved. */
  lemma {:induction false} RunConserves(trace: seq<World>, events: seq<Event>, n: nat)
    requires Run(trace, events) && n < |trace| && !CollidesBefore(trace, events, n)
    ensures Conserved(trace[n]) && Counted(trace[n])
  {
    if n > 0 {
      RunConserves(trace, events, n - 1);
      StepConserves(trace[n - 1], events[n - 1], trace[n]);
    }
  }

  /** In every run some allocation hands out an index that is held if and only if some allocation finds
      nothing stashed and every 32-bit number handed out before or reserved. */
  lemma {:induction false} AllocationsCollideIff(trace: seq<World>, events: seq<Event>, n: nat)
    requires Run(trace, events) && n <= |events|
    ensures CollidesBefore(trace, events, n) <==> exists i :: 0 <= i < n && RunsDry(trace[i], events[i])
  {
    if n > 0 {
      AllocationsCollideIff(trace, events, n - 1);
      if !CollidesBefore(trace, events, n - 1) {
        RunConserves(trace, events, n - 1);
        if events[n - 1].Get? {
          CollidesIff(trace[n - 1], events[n - 1], trace[n]);
        }
      }
    }
  }
}
