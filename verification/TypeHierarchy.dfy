/** The type hierarchy (AddressSpaceHelper.c): the subtype test climbs from a type along its first
    inverse HasSubtype reference, and the type builders hang new types below existing ones. */
module TypeHierarchy {
  import opened OpcTypes
  import opened Indexing
  import opened Graphs
  import opened Cloning
  import opened Acyclicity
  import opened Renaming
  import opened GraphRuns

  // ----- Climbing -----

  predicate IsUp(r: Ref) {
    r.inverse && r.refType == HAS_SUBTYPE
  }

  /** The target of the first inverse HasSubtype reference. */
  function FirstUp(refs: seq<Ref>): Option<NodeId> {
    if refs == [] then None
    else if IsUp(refs[0]) then Some(refs[0].target)
    else FirstUp(refs[1..])
  }

  /** It is the target of an inverse HasSubtype reference in front of which there is no other. */
  lemma {:induction false} FirstUpIs(refs: seq<Ref>)
    ensures FirstUp(refs) == None <==> forall r :: r in refs ==> !(r.inverse && r.refType == HAS_SUBTYPE)
    ensures forall x :: FirstUp(refs) == Some(x) <==> exists i :: IsFirstUpAt(refs, i, x)
  {
    if refs != [] {
      FirstUpIs(refs[1..]);
      if IsUp(refs[0]) {
        assert IsFirstUpAt(refs, 0, refs[0].target);
      } else {
        forall x, i | IsFirstUpAt(refs[1..], i, x)
          ensures IsFirstUpAt(refs, i + 1, x)
        {
        }
        forall x, i | IsFirstUpAt(refs, i, x)
          ensures IsFirstUpAt(refs[1..], i - 1, x)
        {
        }
      }
    }
  }

  predicate IsFirstUpAt(refs: seq<Ref>, i: int, x: NodeId) {
    && 0 <= i < |refs| && refs[i] == Ref(HAS_SUBTYPE, true, x)
    && forall j :: 0 <= j < i ==> !(refs[j].inverse && refs[j].refType == HAS_SUBTYPE)
  }

  function Parent(g: Graph, a: NodeId): Option<NodeId> {
    if a !in g then None
    else
      var up := FirstUp(g[a].refs);
      if up.Some? && up.value in g then up else None
  }

  /** The type `k` levels above `a`. */
  function Climb(g: Graph, a: NodeId, k: nat): Option<NodeId>
    decreases k
  {
    if a !in g then None
    else if k == 0 then Some(a)
    else
      var p := Parent(g, a);
      if p.None? then None else Climb(g, p.value, k - 1)
  }

  /** The reflexive and transitive closure of the first parent. */
  ghost predicate IsSubtype(g: Graph, a: NodeId, b: NodeId) {
    exists k: nat :: Climb(g, a, k) == Some(b)
  }

  /** IsTypeASubtypeofB with at most `fuel` recursive calls; `None` when these do not suffice. */
  function Decide(g: Graph, a: NodeId, b: NodeId, fuel: nat): Option<bool>
    decreases fuel
  {
    if a !in g || b !in g then Some(false)
    else if a == b then Some(true)
    else
      var p := Parent(g, a);
      if p.None? then Some(false)
      else if p.value == b then Some(true)
      else if fuel == 0 then None
      else Decide(g, p.value, b, fuel - 1)
  }

  // ----- The answer -----

  /** Whenever the test ends, its answer is the closure of the first parent. */
  lemma {:induction false} DecidesSubtype(g: Graph, a: NodeId, b: NodeId, fuel: nat)
    ensures Decide(g, a, b, fuel).Some? ==> (Decide(g, a, b, fuel).value <==> IsSubtype(g, a, b))
    decreases fuel
  {
    if a in g && b in g && a != b {
      var p := Parent(g, a);
      if p.None? {
        assert forall k: nat :: Climb(g, a, k) != Some(b);
      } else {
        StepUp(g, a, p.value, b);
        if p.value == b {
          assert Climb(g, b, 0) == Some(b);
        } else if fuel > 0 {
          DecidesSubtype(g, p.value, b, fuel - 1);
        }
      }
    } else if a in g && b !in g {
      forall k: nat
        ensures Climb(g, a, k) != Some(b)
      {
        ClimbExists(g, a, k);
      }
    } else if a in g {
      assert Climb(g, a, 0) == Some(b);
    }
  }

  lemma StepUp(g: Graph, a: NodeId, p: NodeId, b: NodeId)
    requires a in g && Parent(g, a) == Some(p) && a != b
    ensures IsSubtype(g, a, b) <==> IsSubtype(g, p, b)
  {
    if IsSubtype(g, a, b) {
      var k: nat :| Climb(g, a, k) == Some(b);
      assert Climb(g, p, k - 1) == Some(b);
    }
    if IsSubtype(g, p, b) {
      var k: nat :| Climb(g, p, k) == Some(b);
      assert Climb(g, a, k + 1) == Some(b);
    }
  }

  lemma {:induction false} ClimbExists(g: Graph, a: NodeId, k: nat)
    ensures Climb(g, a, k).Some? ==> a in g && Climb(g, a, k).value in g
    decreases k
  {
    if a in g && k > 0 && Parent(g, a).Some? {
      ClimbExists(g, Parent(g, a).value, k - 1);
    }
  }

  lemma {:induction false} ClimbAdds(g: Graph, a: NodeId, i: nat, j: nat)
    ensures Climb(g, a, i + j) == if Climb(g, a, i).Some? then Climb(g, Climb(g, a, i).value, j) else None
    decreases i
  {
    if a in g && i > 0 && Parent(g, a).Some? {
      ClimbAdds(g, Parent(g, a).value, i - 1, j);
    }
  }

  // ----- When the test ends -----

  /** Climbing from `a` comes back to a type met before. */
  ghost predicate Loops(g: Graph, a: NodeId) {
    exists i, j :: 0 <= i < j <= |g| && Climb(g, a, i).Some? && Climb(g, a, i) == Climb(g, a, j)
  }

  lemma {:induction false} EnoughFuel(g: Graph, a: NodeId, b: NodeId, k: nat)
    requires b !in g || Climb(g, a, k) == None || Climb(g, a, k) == Some(b)
    ensures Decide(g, a, b, k).Some?
    decreases k
  {
    if k > 0 && a in g && Parent(g, a).Some? {
      EnoughFuel(g, Parent(g, a).value, b, k - 1);
    }
  }

  lemma {:induction false} EndedClimb(g: Graph, a: NodeId, b: NodeId, fuel: nat) returns (k: nat)
    requires Decide(g, a, b, fuel).Some? && b in g
    ensures Climb(g, a, k) == None || Climb(g, a, k) == Some(b)
    decreases fuel
  {
    if a !in g || a == b {
      k := 0;
    } else if Parent(g, a).None? {
      k := 1;
    } else if Parent(g, a).value == b {
      k := 1;
      assert Climb(g, b, 0) == Some(b);
    } else {
      k := EndedClimb(g, Parent(g, a).value, b, fuel - 1);
      k := k + 1;
    }
  }

  /** Among the first |g| + 1 types of a climb two are the same. */
  lemma LongClimbLoops(g: Graph, a: NodeId)
    requires Climb(g, a, |g|).Some?
    ensures Loops(g, a)
  {
    forall k | 0 <= k <= |g|
      ensures Climb(g, a, k).Some? && Climb(g, a, k).value in g
    {
      ClimbAdds(g, a, k, |g| - k);
      ClimbExists(g, a, k);
    }
    var p := seq(|g| + 1, k requires 0 <= k <= |g| => Climb(g, a, k).value);
    if Distinct(p) {
      DistinctSize(p);
      SubsetSize((set x | x in p), g.Keys);
    } else {
      var i, j :| 0 <= i < j < |p| && p[i] == p[j];
      assert Climb(g, a, i) == Climb(g, a, j);
    }
  }

  lemma {:induction false} CycleGoesOn(g: Graph, x: NodeId, d: nat, m: nat)
    requires x in g && d > 0 && Climb(g, x, d) == Some(x)
    ensures Climb(g, x, m).Some?
    decreases m
  {
    if m < d {
      ClimbAdds(g, x, m, d - m);
    } else {
      ClimbAdds(g, x, d, m - d);
      CycleGoesOn(g, x, d, m - d);
    }
  }

  lemma LoopNeverEnds(g: Graph, a: NodeId, k: nat)
    requires Loops(g, a)
    ensures Climb(g, a, k).Some?
  {
    var i, j :| 0 <= i < j <= |g| && Climb(g, a, i).Some? && Climb(g, a, i) == Climb(g, a, j);
    var x := Climb(g, a, i).value;
    ClimbExists(g, a, i);
    ClimbAdds(g, a, i, j - i);
    if k < i {
      ClimbAdds(g, a, k, i - k);
    } else {
      ClimbAdds(g, a, i, k - i);
      CycleGoesOn(g, x, j - i, k - i);
    }
  }

  /** The recursion ends exactly when the parent type is missing, is met, or the climb does not
      loop; then as many calls as there are nodes suffice. */
  lemma EndsIffNoLoop(g: Graph, a: NodeId, b: NodeId)
    ensures (exists fuel: nat :: Decide(g, a, b, fuel).Some?) <==> b !in g || IsSubtype(g, a, b) || !Loops(g, a)
    ensures (exists fuel: nat :: Decide(g, a, b, fuel).Some?) ==> Decide(g, a, b, |g|).Some?
  {
    if fuel: nat :| Decide(g, a, b, fuel).Some? {
      if b in g {
        var k := EndedClimb(g, a, b, fuel);
        if Loops(g, a) {
          LoopNeverEnds(g, a, k);
        }
        ShortClimb(g, a, b, k);
      } else {
        EnoughFuel(g, a, b, |g|);
      }
    }
    if b !in g {
      EnoughFuel(g, a, b, 0);
    } else if IsSubtype(g, a, b) {
      var k: nat :| Climb(g, a, k) == Some(b);
      EnoughFuel(g, a, b, k);
    } else if !Loops(g, a) {
      if Climb(g, a, |g|).Some? {
        LongClimbLoops(g, a);
      }
      EnoughFuel(g, a, b, |g|);
    }
  }

  /** A climb that ends, or that meets `b`, has done so after |g| levels. */
  lemma {:induction false} ShortClimb(g: Graph, a: NodeId, b: NodeId, k: nat)
    requires Climb(g, a, k) == None || Climb(g, a, k) == Some(b)
    ensures Decide(g, a, b, |g|).Some?
    decreases k
  {
    if k <= |g| {
      if Climb(g, a, k) == None {
        ClimbAdds(g, a, k, |g| - k);
        EnoughFuel(g, a, b, |g|);
      } else {
        EnoughFuel(g, a, b, k);
        MoreFuel(g, a, b, k, |g|);
      }
    } else if Climb(g, a, |g|) == None {
      EnoughFuel(g, a, b, |g|);
    } else {
      LongClimbLoops(g, a);
      var i, j :| 0 <= i < j <= |g| && Climb(g, a, i).Some? && Climb(g, a, i) == Climb(g, a, j);
      ClimbAdds(g, a, i, k - j);
      ClimbAdds(g, a, j, k - j);
      ShortClimb(g, a, b, i + (k - j));
    }
  }

  lemma {:induction false} MoreFuel(g: Graph, a: NodeId, b: NodeId, k: nat, m: nat)
    requires Decide(g, a, b, k).Some? && k <= m
    ensures Decide(g, a, b, m) == Decide(g, a, b, k)
    decreases k
  {
    if k > 0 && a in g && b in g && a != b && Parent(g, a).Some? {
      MoreFuel(g, Parent(g, a).value, b, k - 1, m - 1);
    }
  }

  // ----- A ranked hierarchy -----

  /** Every inverse HasSubtype reference leads to a lower rank. */
  ghost predicate Tiered(g: Graph, rank: map<NodeId, nat>) {
    && rank.Keys == g.Keys
    && forall k, r :: k in g && r in g[k].refs && IsUp(r) && r.target in g ==> rank[r.target] < rank[k]
  }

  lemma {:induction false} FirstUpIsUp(refs: seq<Ref>)
    ensures FirstUp(refs).Some? ==> Ref(HAS_SUBTYPE, true, FirstUp(refs).value) in refs
    ensures FirstUp(refs).None? ==> forall r :: r in refs ==> !IsUp(r)
  {
    if refs != [] {
      assert refs == [refs[0]] + refs[1..];
      FirstUpIsUp(refs[1..]);
    }
  }

  lemma {:induction false} FirstUpOfSum(refs: seq<Ref>, more: seq<Ref>)
    ensures FirstUp(refs + more) == if FirstUp(refs).Some? then FirstUp(refs) else FirstUp(more)
  {
    if refs == [] {
      assert [] + more == more;
    } else {
      assert (refs + more)[1..] == refs[1..] + more;
      FirstUpOfSum(refs[1..], more);
    }
  }

  /** In a ranked hierarchy the test ends for every pair, with the right answer. */
  lemma {:induction false} TieredEnds(g: Graph, rank: map<NodeId, nat>, a: NodeId, b: NodeId)
    requires Tiered(g, rank)
    ensures a in g ==> Decide(g, a, b, rank[a]) == Some(IsSubtype(g, a, b))
    decreases if a in g then rank[a] else 0
  {
    if a in g {
      DecidesSubtype(g, a, b, rank[a]);
      if Parent(g, a).Some? {
        var p := Parent(g, a).value;
        FirstUpIsUp(g[a].refs);
        TieredEnds(g, rank, p, b);
        if p != b && a != b && b in g {
          MoreFuel(g, p, b, rank[p], rank[a] - 1);
        }
      }
    }
  }

  /** A subtype of a subtype is a subtype, and two types are subtypes of each other only when equal. */
  lemma SubtypesAreOrdered(g: Graph, rank: map<NodeId, nat>, a: NodeId, b: NodeId, c: NodeId)
    ensures a in g ==> IsSubtype(g, a, a)
    ensures IsSubtype(g, a, b) && IsSubtype(g, b, c) ==> IsSubtype(g, a, c)
    ensures Tiered(g, rank) && IsSubtype(g, a, b) && IsSubtype(g, b, a) ==> a == b
  {
    if a in g {
      assert Climb(g, a, 0) == Some(a);
    }
    if IsSubtype(g, a, b) && IsSubtype(g, b, c) {
      var i: nat :| Climb(g, a, i) == Some(b);
      var j: nat :| Climb(g, b, j) == Some(c);
      ClimbAdds(g, a, i, j);
    }
    if Tiered(g, rank) && IsSubtype(g, a, b) && IsSubtype(g, b, a) {
      var i: nat :| Climb(g, a, i) == Some(b);
      var j: nat :| Climb(g, b, j) == Some(a);
      ClimbLowersRank(g, rank, a, i);
      ClimbLowersRank(g, rank, b, j);
    }
  }

  lemma {:induction false} ClimbLowersRank(g: Graph, rank: map<NodeId, nat>, a: NodeId, k: nat)
    requires Tiered(g, rank) && Climb(g, a, k).Some?
    ensures a in g && Climb(g, a, k).value in g && rank[Climb(g, a, k).value] + k <= rank[a]
    decreases k
  {
    if k > 0 {
      FirstUpIsUp(g[a].refs);
      ClimbLowersRank(g, rank, Parent(g, a).value, k - 1);
    }
  }

  // ----- Growth that leaves the hierarchy as it was -----

  /** Nodes are kept and no node gains an inverse HasSubtype reference that it did not have. */
  ghost predicate NoNewUps(g: Graph, g1: Graph) {
    && KeepsAll(g, g1)
    && forall k, r :: k in g1 && r in g1[k].refs && IsUp(r) ==> k in g && r in g[k].refs
  }

  lemma NoNewUpsOn(g: Graph, g1: Graph, g2: Graph)
    requires NoNewUps(g, g1) && NoNewUps(g1, g2)
    ensures NoNewUps(g, g2)
  {
    KeptOn(g, g1, g2);
  }

  lemma SameFirstUp(refs: seq<Ref>, refs1: seq<Ref>)
    requires refs <= refs1 && forall r :: r in refs1 && IsUp(r) ==> r in refs
    ensures FirstUp(refs1) == FirstUp(refs)
  {
    var more := refs1[|refs|..];
    assert refs1 == refs + more;
    FirstUpOfSum(refs, more);
    FirstUpIsUp(more);
    FirstUpIsUp(refs);
    if FirstUp(more).Some? {
      assert Ref(HAS_SUBTYPE, true, FirstUp(more).value) in refs;
    }
  }

  /** Such growth keeps every earlier answer and the ranks. */
  lemma GrowthKeepsAnswers(g: Graph, g1: Graph, a: NodeId, b: NodeId)
    requires NonDangling(g) && NoNewUps(g, g1) && a in g
    ensures IsSubtype(g1, a, b) <==> IsSubtype(g, a, b)
  {
    forall k: nat
      ensures Climb(g1, a, k) == Climb(g, a, k)
    {
      GrowthKeepsClimb(g, g1, a, k);
    }
  }

  lemma {:induction false} GrowthKeepsClimb(g: Graph, g1: Graph, a: NodeId, k: nat)
    requires NonDangling(g) && NoNewUps(g, g1) && a in g
    ensures Climb(g1, a, k) == Climb(g, a, k)
    decreases k
  {
    if k > 0 {
      assert Kept(g[a], g1[a]);
      SameFirstUp(g[a].refs, g1[a].refs);
      FirstUpIsUp(g[a].refs);
      if Parent(g, a).Some? {
        GrowthKeepsClimb(g, g1, Parent(g, a).value, k - 1);
      }
    }
  }

  lemma GrowthKeepsTiers(g: Graph, g1: Graph, rank: map<NodeId, nat>) returns (rank1: map<NodeId, nat>)
    requires NonDangling(g) && NoNewUps(g, g1) && Tiered(g, rank)
    ensures Tiered(g1, rank1) && forall k :: k in g ==> rank1[k] == rank[k]
  {
    rank1 := map k | k in g1 :: if k in g then rank[k] else 0;
    assert forall k :: k in g ==> k in g1;
  }

  // ----- Which operations leave it as it was -----

  lemma PairAddsNoUp(g: Graph, a: NodeId, b: NodeId, refType: NodeId)
    requires a in g && b in g && refType != HAS_SUBTYPE
    ensures NoNewUps(g, AddBi(g, a, b, refType))
  {
    forall k | k in g
      ensures Kept(g[k], AddBi(g, a, b, refType)[k])
      ensures forall r :: r in AddBi(g, a, b, refType)[k].refs && IsUp(r) ==> r in g[k].refs
    {
      AddBiRefs(g, a, b, refType, k);
    }
  }

  lemma UniAddsNoUp(g: Graph, a: NodeId, r: Ref)
    requires a in g && !IsUp(r)
    ensures NoNewUps(g, AddUni(g, a, r))
  {
  }

  lemma NodeAddsNoUp(g: Graph, id: NodeId, rec: NodeRec)
    requires id !in g && rec.refs == []
    ensures NoNewUps(g, g[id := rec])
  {
  }

  lemma {:induction false} InheritOneAddsNoUp(g: Graph, ix: Index, s: NodeId, t: NodeId, r: Ref, rank: map<NodeId, nat>)
    requires Base(g, ix, rank) && Apart(g, t, rank) && s in rank && r in g[s].refs
    ensures NoNewUps(g, InheritOne(g, ix, s, t, r, rank).0)
    decreases rank[s], 0
  {
    if Descends(r) && ShouldInherit(g[t].nodeClass, g[r.target]) && !NameTaken(g, t, g[r.target].browse) {
      IssueIsFresh(ix);
      AdmittedMayClone(g[t].nodeClass, g[r.target]);
      var n := NodeId(SERVER_NAMESPACE, Issue(ix).0);
      CloneAddsNoUp(g, Issue(ix).1, r.target, n, rank);
      var g1 := Clone(g, Issue(ix).1, r.target, n, rank).0;
      PairAddsNoUp(g1, t, n, r.refType);
      NoNewUpsOn(g, g1, AddBi(g1, t, n, r.refType));
    } else {
      PlainAddsNoUp(g, t, r);
    }
  }

  lemma PlainAddsNoUp(g: Graph, t: NodeId, r: Ref)
    requires t in g
    ensures NoNewUps(g, g)
    ensures r.refType == HAS_MODELLING_RULE ==> NoNewUps(g, AddUni(g, t, r))
    ensures r.refType != HAS_SUBTYPE && r.target in g ==>
      NoNewUps(g, AddBi(g, t, r.target, r.refType)) && NoNewUps(g, AddBi(g, r.target, t, r.refType))
  {
    if r.refType != HAS_SUBTYPE && r.target in g {
      PairAddsNoUp(g, t, r.target, r.refType);
      PairAddsNoUp(g, r.target, t, r.refType);
    }
  }

  lemma {:induction false} InheritAddsNoUp(g: Graph, ix: Index, s: NodeId, t: NodeId, i: nat, rank: map<NodeId, nat>)
    requires Base(g, ix, rank) && Apart(g, t, rank) && s in rank && i <= |g[s].refs|
    ensures NoNewUps(g, Inherit(g, ix, s, t, i, rank).0)
    decreases rank[s], 1, DescentsLeft(g[s].refs, i), LoopsLeft(g[s].refs, s, i), |g[s].refs| - i
  {
    if i < |g[s].refs| {
      var (g1, ix1) := InheritOne(g, ix, s, t, g[s].refs[i], rank);
      InheritOneAddsNoUp(g, ix, s, t, g[s].refs[i], rank);
      PassStep(g, g1, s, t, i);
      InheritAddsNoUp(g1, ix1, s, t, i + 1, rank);
      NoNewUpsOn(g, g1, Inherit(g1, ix1, s, t, i + 1, rank).0);
    }
  }

  /** Cloning never copies a type's place in the hierarchy. */
  lemma {:induction false} CloneAddsNoUp(g: Graph, ix: Index, c: NodeId, n: NodeId, rank: map<NodeId, nat>)
    requires Base(g, ix, rank) && c in rank && n !in g
    requires n.ns == SERVER_NAMESPACE ==> Spent(ix, n.num)
    ensures NoNewUps(g, Clone(g, ix, c, n, rank).0)
    decreases rank[c], 2
  {
    var g0 := CopyNode(g, c, n);
    CopyStep(g, ix, c, n, rank);
    NodeAddsNoUp(g, n, g[c].(refs := []));
    InheritAddsNoUp(g0, ix, c, n, 0, rank);
    NoNewUpsOn(g, g0, Inherit(g0, ix, c, n, 0, rank).0);
  }

  lemma InstantiateAddsNoUp(g: Graph, ix: Index, ty: NodeId, n: NodeId, kind: NodeKind, rank: map<NodeId, nat>)
    requires Base(g, ix, rank) && ty in rank && n !in g
    requires n.ns == SERVER_NAMESPACE ==> Spent(ix, n.num)
    ensures NoNewUps(g, Instantiate(g, ix, ty, n, kind, rank).0)
  {
    var g0 := g[n := BlankNode(kind)];
    NewNodeStep(g, ix, n, BlankNode(kind), rank);
    NodeAddsNoUp(g, n, BlankNode(kind));
    InheritAddsNoUp(g0, ix, ty, n, 0, rank);
    var g1 := Inherit(g0, ix, ty, n, 0, rank).0;
    PairAddsNoUp(g1, n, ty, HAS_TYPE_DEFINITION);
    NoNewUpsOn(g, g0, g1);
    NoNewUpsOn(g, g1, AddBi(g1, n, ty, HAS_TYPE_DEFINITION));
  }

  lemma {:induction false} BuildAddsNoUp(g: Graph, order: seq<NodeId>, kind: NodeKind, target: NodeId, refType: NodeId)
    requires target in g && (forall n :: n in order ==> n in g) && refType != HAS_SUBTYPE
    ensures NoNewUps(g, BuildRefs(g, order, kind, target, refType))
  {
    if order != [] {
      var n := order[|order| - 1];
      var g1 := BuildOne(g, n, kind, target, refType);
      PairAddsNoUp(g, target, n, refType);
      PlainAddsNoUp(g, n, Ref(refType, false, target));
      BuildAddsNoUp(g1, order[..|order| - 1], kind, target, refType);
      NoNewUpsOn(g, g1, BuildRefs(g1, order[..|order| - 1], kind, target, refType));
    }
  }

  // ----- Hanging a new type below an existing one -----

  /** Nothing is a subtype of `b` yet, except `b`. */
  ghost predicate Childless(g: Graph, b: NodeId) {
    forall k, r :: k in g && r in g[k].refs && IsUp(r) ==> r.target != b
  }

  lemma HangKeepsTiers(g: Graph, a: NodeId, b: NodeId, rank: map<NodeId, nat>) returns (rank1: map<NodeId, nat>)
    requires Tiered(g, rank) && a in g && b in g && a != b && Childless(g, b)
    ensures Tiered(AddBi(g, a, b, HAS_SUBTYPE), rank1)
    ensures forall k :: k in g && k != b ==> rank1[k] == rank[k]
  {
    rank1 := rank[b := rank[b] + rank[a] + 1];
    var g1 := AddBi(g, a, b, HAS_SUBTYPE);
    forall k, r | k in g1 && r in g1[k].refs && IsUp(r) && r.target in g1
      ensures rank1[r.target] < rank1[k]
    {
      AddBiRefs(g, a, b, HAS_SUBTYPE, k);
    }
  }

  /** A type that had no parent and no subtypes becomes a subtype of exactly itself and of what
      its parent is a subtype of; no other answer changes. */
  lemma HangAnswers(g: Graph, a: NodeId, b: NodeId, x: NodeId, y: NodeId)
    requires NonDangling(g) && a in g && b in g && a != b && Childless(g, b) && FirstUp(g[b].refs).None? && x in g
    ensures var g1 := AddBi(g, a, b, HAS_SUBTYPE);
      IsSubtype(g1, x, y) <==> if x == b then y == b || IsSubtype(g, a, y) else IsSubtype(g, x, y)
  {
    var g1 := AddBi(g, a, b, HAS_SUBTYPE);
    forall k: nat, z | z in g && z != b
      ensures Climb(g1, z, k) == Climb(g, z, k)
    {
      HangKeepsClimb(g, a, b, z, k);
    }
    if x == b {
      AddBiRefs(g, a, b, HAS_SUBTYPE, b);
      FirstUpOfSum(g[b].refs, [Ref(HAS_SUBTYPE, true, a)]);
      assert Parent(g1, b) == Some(a);
      assert Climb(g1, b, 0) == Some(b);
      if y != b {
        StepUp(g1, b, a, y);
      }
    }
  }

  lemma {:induction false} HangKeepsClimb(g: Graph, a: NodeId, b: NodeId, x: NodeId, k: nat)
    requires NonDangling(g) && a in g && b in g && a != b && Childless(g, b) && x in g && x != b
    ensures Climb(AddBi(g, a, b, HAS_SUBTYPE), x, k) == Climb(g, x, k)
    decreases k
  {
    if k > 0 {
      AddBiRefs(g, a, b, HAS_SUBTYPE, x);
      FirstUpOfSum(g[x].refs, [Ref(HAS_SUBTYPE, false, b)]);
      FirstUpIsUp(g[x].refs);
      assert FirstUp([Ref(HAS_SUBTYPE, false, b)]) == None;
      assert g[x].refs + [] == g[x].refs;
      if Parent(g, x).Some? {
        HangKeepsClimb(g, a, b, Parent(g, x).value, k - 1);
      }
    }
  }

  // ----- Runs -----

  lemma RenameKeepsTiers(g: Graph, orig: NodeId, new_: NodeId, rank: map<NodeId, nat>) returns (rank1: map<NodeId, nat>)
    requires NonDangling(g) && Tiered(g, rank) && orig in g && new_ !in g
    ensures Tiered(Relinked(g, orig, new_), rank1)
  {
    var g1 := Relinked(g, orig, new_);
    rank1 := map k | k in g1 :: rank[if k == new_ then orig else k];
    forall k | k in g1
      ensures var k0 := if k == new_ then orig else k;
        forall r :: r in g1[k].refs && r.refType != HAS_MODELLING_RULE ==>
          r.(target := Swap(r.target, new_, orig)) in g[k0].refs && r.target in g1
    {
      RelinkedNode(g, orig, new_, k);
    }
  }

  /** Taking references and nodes away keeps the hierarchy ranked. */
  lemma LessKeepsTiers(g: Graph, g1: Graph, rank: map<NodeId, nat>) returns (rank1: map<NodeId, nat>)
    requires Tiered(g, rank) && g1.Keys <= g.Keys && forall k, r :: k in g1 && r in g1[k].refs ==> r in g[k].refs
    ensures Tiered(g1, rank1)
  {
    rank1 := map k | k in g1 :: rank[k];
  }

  lemma UnlinkKeepsTiers(g: Graph, a: NodeId, b: NodeId, refType: NodeId, rank: map<NodeId, nat>) returns (rank1: map<NodeId, nat>)
    requires Tiered(g, rank) && a in g && b in g
    ensures Tiered(RemoveBi(g, a, b, refType), rank1)
  {
    forall k, q | k in g && q in RemoveBi(g, a, b, refType)[k].refs
      ensures q in g[k].refs
    {
      RemoveBiHas(g, a, b, refType, k, q);
    }
    rank1 := LessKeepsTiers(g, RemoveBi(g, a, b, refType), rank);
  }

  /** A HasSubtype link hangs a type that has no subtypes below another one, as the builders do. */
  ghost predicate HangsTypes(s: State, e: Edit) {
    match e
    case Link(a, b, refType) => refType == HAS_SUBTYPE ==> a != b && Childless(s.g, b)
    case Build(_, _, _, refType) => refType != HAS_SUBTYPE
    case _ => true
  }

  /** Steps that never disturb the hierarchy. */
  ghost predicate LeavesHierarchy(e: Edit) {
    match e
    case Rename(_, _) => false
    case Remove(_) => false
    case Unlink(_, _, _) => false
    case SetName(_, _) => false
    case Link(_, _, refType) => refType != HAS_SUBTYPE
    case Build(_, _, _, refType) => refType != HAS_SUBTYPE
    case _ => true
  }

  lemma RepeatAddsNoUp(g: Graph, id: NodeId, r: Ref)
    requires id in g && r in g[id].refs
    ensures NoNewUps(g, AddUni(g, id, r))
  {
  }

  lemma StepAddsNoUp(s: State, e: Edit)
    requires Sane(s) && Permitted(s, e) && LeavesHierarchy(e)
    ensures NoNewUps(s.g, Apply(s, e).g)
  {
    match e
    case Reserve(_) => PlainKept(s.g);
    case TakeId => PlainKept(s.g);
    case Create(id, kind, nodeClass, browse) => NodeAddsNoUp(s.g, id, NodeRec(kind, nodeClass, browse, []));
    case Link(a, b, refType) => PairAddsNoUp(s.g, a, b, refType);
    case AddRule(id, rule) => UniAddsNoUp(s.g, id, Rule(rule));
    case Repeat(id, r) => RepeatAddsNoUp(s.g, id, r);
    case CloneTo(c, id) => CloneAddsNoUp(s.g, s.ix, c, id, SomeRank(s.g));
    case InstantiateTo(ty, id, kind) => InstantiateAddsNoUp(s.g, s.ix, ty, id, kind, SomeRank(s.g));
    case Build(order, kind, target, refType) => BuildAddsNoUp(s.g, order, kind, target, refType);
  }

  lemma PlainKept(g: Graph)
    ensures NoNewUps(g, g)
  {
  }

  lemma StepKeepsTiers(s: State, e: Edit, rank: map<NodeId, nat>) returns (rank1: map<NodeId, nat>)
    requires Sane(s) && Permitted(s, e) && HangsTypes(s, e) && Tiered(s.g, rank)
    ensures Tiered(Apply(s, e).g, rank1)
  {
    if LeavesHierarchy(e) {
      StepAddsNoUp(s, e);
      rank1 := GrowthKeepsTiers(s.g, Apply(s, e).g, rank);
    } else {
      match e
      case Link(a, b, refType) => rank1 := HangKeepsTiers(s.g, a, b, rank);
      case Rename(orig, new_) =>
        RenameStaysSaneIff(s, orig, new_);
        rank1 := RenameKeepsTiers(s.g, orig, new_, rank);
      case Remove(id) => rank1 := LessKeepsTiers(s.g, RemoveNode(s.g, id), rank);
      case Unlink(a, b, refType) => rank1 := UnlinkKeepsTiers(s.g, a, b, refType, rank);
      case SetName(id, browse) => rank1 := LessKeepsTiers(s.g, Apply(s, e).g, rank);
    }
  }

  lemma {:induction false} RunsStayTiered(states: seq<State>, edits: seq<Edit>, rank: map<NodeId, nat>, i: nat) returns (ranki: map<NodeId, nat>)
    requires EditRun(states, edits) && i < |states| && Tiered(states[0].g, rank)
    requires forall j :: 0 <= j < |edits| ==> HangsTypes(states[j], edits[j])
    ensures Tiered(states[i].g, ranki)
  {
    if i == 0 {
      ranki := rank;
    } else {
      ranki := RunsStayTiered(states, edits, rank, i - 1);
      RunsStaySane(states, edits, i - 1);
      ranki := StepKeepsTiers(states[i - 1], edits[i - 1], ranki);
    }
  }

  /** On every graph reachable from the empty one the subtype test ends, for every pair of types,
      and decides the closure of the first parent. */
  lemma ReachableTestsEnd(states: seq<State>, edits: seq<Edit>, i: nat, a: NodeId, b: NodeId)
    requires EditRun(states, edits) && i < |states| && states[0].g == map[]
    requires forall j :: 0 <= j < |edits| ==> HangsTypes(states[j], edits[j])
    ensures exists fuel: nat :: Decide(states[i].g, a, b, fuel) == Some(IsSubtype(states[i].g, a, b))
  {
    assert Tiered(states[0].g, map[]);
    var rank := RunsStayTiered(states, edits, map[], i);
    TieredEnds(states[i].g, rank, a, b);
    if a !in states[i].g {
      assert Decide(states[i].g, a, b, 0) == Some(false);
    }
  }

  lemma {:induction false} SameRefsSameClimb(g: Graph, g1: Graph, a: NodeId, k: nat)
    requires g1.Keys == g.Keys && forall x :: x in g ==> g1[x].refs == g[x].refs
    ensures Climb(g1, a, k) == Climb(g, a, k)
    decreases k
  {
    if k > 0 && Parent(g, a).Some? {
      SameRefsSameClimb(g, g1, Parent(g, a).value, k - 1);
    }
  }

  /** Answers about types that exist change only by renaming, removing, linking or unlinking types. */
  lemma StepKeepsAnswers(s: State, e: Edit, a: NodeId, b: NodeId)
    requires Sane(s) && Permitted(s, e) && (LeavesHierarchy(e) || e.SetName?) && a in s.g
    ensures IsSubtype(Apply(s, e).g, a, b) <==> IsSubtype(s.g, a, b)
  {
    if e.SetName? {
      forall k: nat
        ensures Climb(Apply(s, e).g, a, k) == Climb(s.g, a, k)
      {
        SameRefsSameClimb(s.g, Apply(s, e).g, a, k);
      }
    } else {
      StepAddsNoUp(s, e);
      GrowthKeepsAnswers(s.g, Apply(s, e).g, a, b);
    }
  }
}
