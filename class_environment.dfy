/** The nesting state of the class environment, updated in place: setNest with its sibling bookkeeping, the
    cascading invalidation of the potential-score caches, and the memoised class queries. */
module ClassEnvironment {
  import opened Wrappers
  import opened Nests
  import opened NestRankResults
  import opened ClassNames
  import opened ClassGraph
  import opened Classifier
  import opened NestingSteps

  // ---------------------------------------------------------------- cache invalidation

  /** A cache after markPotentialScoreDirty reached it: dirty, with both memos cleared. */
  function Dirty(s: CacheState): (d: CacheState)
    ensures d.potentialScoreDirty && d.hasStaticMembers.None? && d.isMethodArgType.None?
    ensures d.potentialScore == s.potentialScore
  {
    s.(potentialScoreDirty := true, hasStaticMembers := None, isMethodArgType := None)
  }

  /** Every cache is untouched, or was clean and has been invalidated. */
  predicate OnlyDirtied(c0: seq<CacheState>, c1: seq<CacheState>)
  {
    |c1| == |c0| &&
    forall x :: 0 <= x < |c0| ==> c1[x] == c0[x] || (!c0[x].potentialScoreDirty && c1[x] == Dirty(c0[x]))
  }

  lemma OnlyDirtiedTrans(c0: seq<CacheState>, c1: seq<CacheState>, c2: seq<CacheState>)
    requires OnlyDirtied(c0, c1) && OnlyDirtied(c1, c2)
    ensures OnlyDirtied(c0, c2)
  {
  }

  /** The number of clean caches: what each invalidation step decreases. */
  function CleanCount(cs: seq<CacheState>): (n: nat)
    ensures n <= |cs|
  {
    if cs == [] then 0 else (if cs[0].potentialScoreDirty then 0 else 1) + CleanCount(cs[1..])
  }

  lemma {:induction false} CleanCountMonotone(c0: seq<CacheState>, c1: seq<CacheState>)
    requires OnlyDirtied(c0, c1)
    ensures CleanCount(c1) <= CleanCount(c0)
    decreases |c0|
  {
    if c0 != [] {
      assert OnlyDirtied(c0[1..], c1[1..]) by {
        forall x | 0 <= x < |c0[1..]| ensures c1[1..][x] == c0[1..][x] ||
          (!c0[1..][x].potentialScoreDirty && c1[1..][x] == Dirty(c0[1..][x]))
        {
          assert c0[1..][x] == c0[x + 1] && c1[1..][x] == c1[x + 1];
        }
      }
      CleanCountMonotone(c0[1..], c1[1..]);
      assert c1[0] == c0[0] || (!c0[0].potentialScoreDirty && c1[0] == Dirty(c0[0]));
    }
  }

  /** Invalidating a clean cache strictly decreases the count. */
  lemma {:induction false} CleanCountDrops(c0: seq<CacheState>, c1: seq<CacheState>, x: nat)
    requires OnlyDirtied(c0, c1) && x < |c0| && !c0[x].potentialScoreDirty && c1[x].potentialScoreDirty
    ensures CleanCount(c1) < CleanCount(c0)
    decreases |c0|
  {
    assert OnlyDirtied(c0[1..], c1[1..]) by {
      forall y | 0 <= y < |c0[1..]| ensures c1[1..][y] == c0[1..][y] ||
        (!c0[1..][y].potentialScoreDirty && c1[1..][y] == Dirty(c0[1..][y]))
      {
        assert c0[1..][y] == c0[y + 1] && c1[1..][y] == c1[y + 1];
      }
    }
    assert c1[0] == c0[0] || (!c0[0].potentialScoreDirty && c1[0] == Dirty(c0[0]));
    if x == 0 {
      CleanCountMonotone(c0[1..], c1[1..]);
    } else {
      assert c0[1..][x - 1] == c0[x] && c1[1..][x - 1] == c1[x];
      CleanCountDrops(c0[1..], c1[1..], x - 1);
    }
  }

  /** The enclosing class of x and every class nested into x are dirty. */
  predicate NeighboursDirty(nodes: seq<NodeState>, caches: seq<CacheState>, x: nat)
    requires x < |nodes|
  {
    && (nodes[x].nest.Some? ==>
          EnclosingClass(nodes[x].nest.value) < |caches| && caches[EnclosingClass(nodes[x].nest.value)].potentialScoreDirty)
    && (forall y :: y in nodes[x].nestingClasses ==> y < |caches| && caches[y].potentialScoreDirty)
  }

  /** Each class invalidated between c0 and c1 has passed the invalidation on to its neighbours. */
  predicate Cascaded(nodes: seq<NodeState>, c0: seq<CacheState>, c1: seq<CacheState>)
    requires |c0| == |nodes| && |c1| == |nodes|
  {
    forall x :: 0 <= x < |nodes| && !c0[x].potentialScoreDirty && c1[x].potentialScoreDirty ==>
      NeighboursDirty(nodes, c1, x)
  }

  lemma CascadedTrans(nodes: seq<NodeState>, c0: seq<CacheState>, c1: seq<CacheState>, c2: seq<CacheState>)
    requires |c0| == |nodes| && OnlyDirtied(c0, c1) && OnlyDirtied(c1, c2)
    requires Cascaded(nodes, c0, c1) && Cascaded(nodes, c1, c2)
    ensures Cascaded(nodes, c0, c2)
  {
    forall x | 0 <= x < |nodes| && !c0[x].potentialScoreDirty && c2[x].potentialScoreDirty
      ensures NeighboursDirty(nodes, c2, x)
    {
      if c1[x].potentialScoreDirty {
        assert NeighboursDirty(nodes, c1, x);
      }
    }
  }

  /** x was clean in c0 and is dirty in c1. */
  predicate Newly(c0: seq<CacheState>, c1: seq<CacheState>, x: nat)
    requires x < |c0| && x < |c1|
  {
    !c0[x].potentialScoreDirty && c1[x].potentialScoreDirty
  }

  /** markPotentialScoreDirty on y goes on to x: x encloses y or is nested into y. */
  predicate Edge(nodes: seq<NodeState>, y: nat, x: nat)
    requires y < |nodes|
  {
    (nodes[y].nest.Some? && x == EnclosingClass(nodes[y].nest.value)) || x in nodes[y].nestingClasses
  }

  /** p is a chain of classes invalidated between c0 and c1, each passing the invalidation on to the next. */
  predicate DirtyPath(nodes: seq<NodeState>, c0: seq<CacheState>, c1: seq<CacheState>, p: seq<nat>)
    requires |c0| == |nodes| && |c1| == |nodes|
  {
    && |p| > 0
    && (forall i :: 0 <= i < |p| ==> p[i] < |nodes| && Newly(c0, c1, p[i]))
    && (forall i :: 0 <= i < |p| - 1 ==> p[i] < |nodes| && Edge(nodes, p[i], p[i + 1]))
  }

  /** Some chain of classes invalidated between c0 and c1 leads from root to x. */
  ghost predicate ReachedFrom(nodes: seq<NodeState>, c0: seq<CacheState>, c1: seq<CacheState>, root: nat, x: nat)
    requires |c0| == |nodes| && |c1| == |nodes|
  {
    exists p :: DirtyPath(nodes, c0, c1, p) && p[0] == root && p[|p| - 1] == x
  }

  /** Every class invalidated between c0 and c1 is reached from root along classes invalidated there. */
  ghost predicate DirtiedFrom(nodes: seq<NodeState>, c0: seq<CacheState>, c1: seq<CacheState>, root: nat)
    requires |c0| == |nodes| && |c1| == |nodes|
  {
    forall x :: 0 <= x < |nodes| && Newly(c0, c1, x) ==> ReachedFrom(nodes, c0, c1, root, x)
  }

  /** A dirty cache stays dirty, and one that is clean afterwards was clean before. */
  lemma DirtyStays(c0: seq<CacheState>, c1: seq<CacheState>, x: nat)
    requires OnlyDirtied(c0, c1) && x < |c0|
    ensures c0[x].potentialScoreDirty ==> c1[x].potentialScoreDirty
    ensures !c1[x].potentialScoreDirty ==> !c0[x].potentialScoreDirty
  {
  }

  /** A chain invalidated between c0 and c1 is still one between c0 and a later c2. */
  lemma PathWidens(nodes: seq<NodeState>, c0: seq<CacheState>, c1: seq<CacheState>, c2: seq<CacheState>, p: seq<nat>)
    requires |c0| == |nodes| && OnlyDirtied(c0, c1) && OnlyDirtied(c1, c2)
    requires DirtyPath(nodes, c0, c1, p)
    ensures DirtyPath(nodes, c0, c2, p)
  {
    forall i | 0 <= i < |p| ensures Newly(c0, c2, p[i]) {
      DirtyStays(c1, c2, p[i]);
    }
  }

  /** A chain invalidated between c1 and c2 is also one between an earlier c0 and c2. */
  lemma PathNarrows(nodes: seq<NodeState>, c0: seq<CacheState>, c1: seq<CacheState>, c2: seq<CacheState>, p: seq<nat>)
    requires |c0| == |nodes| && OnlyDirtied(c0, c1) && OnlyDirtied(c1, c2)
    requires DirtyPath(nodes, c1, c2, p)
    ensures DirtyPath(nodes, c0, c2, p)
  {
    forall i | 0 <= i < |p| ensures Newly(c0, c2, p[i]) {
      DirtyStays(c0, c1, p[i]);
    }
  }

  /** Two chains joined by an edge form one chain. */
  lemma PathJoin(nodes: seq<NodeState>, c0: seq<CacheState>, c1: seq<CacheState>, p: seq<nat>, q: seq<nat>)
    requires |c0| == |nodes| && |c1| == |nodes|
    requires DirtyPath(nodes, c0, c1, p) && DirtyPath(nodes, c0, c1, q) && Edge(nodes, p[|p| - 1], q[0])
    ensures DirtyPath(nodes, c0, c1, p + q) && (p + q)[0] == p[0] && (p + q)[|p + q| - 1] == q[|q| - 1]
  {
    var r := p + q;
    forall i | 0 <= i < |r| ensures r[i] < |nodes| && Newly(c0, c1, r[i]) {
      if i < |p| { assert r[i] == p[i]; } else { assert r[i] == q[i - |p|]; }
    }
    forall i | 0 <= i < |r| - 1 ensures r[i] < |nodes| && Edge(nodes, r[i], r[i + 1]) {
      if i < |p| - 1 {
        assert r[i] == p[i] && r[i + 1] == p[i + 1];
      } else if i == |p| - 1 {
        assert r[i] == p[|p| - 1] && r[i + 1] == q[0];
      } else {
        assert r[i] == q[i - |p|] && r[i + 1] == q[i - |p| + 1];
      }
    }
  }

  lemma DirtiedOne(nodes: seq<NodeState>, c0: seq<CacheState>, c: nat)
    requires |c0| == |nodes| && c < |c0| && !c0[c].potentialScoreDirty
    ensures DirtiedFrom(nodes, c0, c0[c := Dirty(c0[c])], c)
  {
    var c1 := c0[c := Dirty(c0[c])];
    assert DirtyPath(nodes, c0, c1, [c]);
  }

  /** An invalidation started from a neighbour of a class the first one reached stays within the first one. */
  lemma DirtiedFromTrans(nodes: seq<NodeState>, c0: seq<CacheState>, c1: seq<CacheState>, c2: seq<CacheState>,
                         root: nat, via: nat, next: nat)
    requires |c0| == |nodes| && OnlyDirtied(c0, c1) && OnlyDirtied(c1, c2)
    requires DirtiedFrom(nodes, c0, c1, root) && DirtiedFrom(nodes, c1, c2, next)
    requires via < |nodes| && Newly(c0, c1, via) && Edge(nodes, via, next)
    ensures DirtiedFrom(nodes, c0, c2, root)
  {
    forall x | 0 <= x < |nodes| && Newly(c0, c2, x)
      ensures ReachedFrom(nodes, c0, c2, root, x)
    {
      if c1[x].potentialScoreDirty {
        assert Newly(c0, c1, x);
        var p :| DirtyPath(nodes, c0, c1, p) && p[0] == root && p[|p| - 1] == x;
        PathWidens(nodes, c0, c1, c2, p);
      } else {
        assert Newly(c1, c2, x);
        var q :| DirtyPath(nodes, c1, c2, q) && q[0] == next && q[|q| - 1] == x;
        PathNarrows(nodes, c0, c1, c2, q);
        var p :| DirtyPath(nodes, c0, c1, p) && p[0] == root && p[|p| - 1] == via;
        PathWidens(nodes, c0, c1, c2, p);
        PathJoin(nodes, c0, c2, p, q);
      }
    }
  }

  /** Where the new links differ from the old ones, the other end is dirty by the end. */
  predicate LinksCovered(nA: seq<NodeState>, nB: seq<NodeState>, k: seq<CacheState>)
    requires |nA| == |nB| && |k| == |nB|
  {
    forall x :: 0 <= x < |nB| ==>
      && (nB[x].nest != nA[x].nest && nB[x].nest.Some? ==>
            EnclosingClass(nB[x].nest.value) < |k| && k[EnclosingClass(nB[x].nest.value)].potentialScoreDirty)
      && (forall y :: y in nB[x].nestingClasses && y !in nA[x].nestingClasses ==> y < |k| && k[y].potentialScoreDirty)
  }

  /** Moving c to a dirty enclosing class, and adding nothing but c to nesting sets, with c dirty, is covered. */
  lemma RelinkCovered(nA: seq<NodeState>, nB: seq<NodeState>, k: seq<CacheState>, c: nat)
    requires |nA| == |nB| && |k| == |nB| && c < |k| && k[c].potentialScoreDirty && KeepsOthers(nA, nB, c)
    requires nB[c].nest.Some? ==>
      EnclosingClass(nB[c].nest.value) < |k| && k[EnclosingClass(nB[c].nest.value)].potentialScoreDirty
    requires forall x :: 0 <= x < |nB| ==> nB[x].nestingClasses <= nA[x].nestingClasses + {c}
    ensures LinksCovered(nA, nB, k)
  {
  }

  /** Adding c to the nesting set of e, then only bookkeeping, adds nothing else to a nesting set. */
  lemma NestingGrows(n0: seq<NodeState>, n2: seq<NodeState>, e: nat, c: nat)
    requires e < |n0| && SameNesting(n0[e := n0[e].(nestingClasses := n0[e].nestingClasses + {c})], n2)
    ensures forall x :: 0 <= x < |n2| ==> n2[x].nestingClasses <= n0[x].nestingClasses + {c}
  {
    var n1 := n0[e := n0[e].(nestingClasses := n0[e].nestingClasses + {c})];
    forall x | 0 <= x < |n2| ensures n2[x].nestingClasses <= n0[x].nestingClasses + {c} {
      assert n2[x].nestingClasses == n1[x].nestingClasses;
    }
  }

  /** An invalidation done on the links nA, followed by one done on nB, cascades on nB when nB's extra links end
      at dirty classes. */
  lemma CascadedCarry(nA: seq<NodeState>, nB: seq<NodeState>, k0: seq<CacheState>, k1: seq<CacheState>,
                      k2: seq<CacheState>)
    requires |nA| == |nB| && |k0| == |nB| && OnlyDirtied(k0, k1) && OnlyDirtied(k1, k2)
    requires Cascaded(nA, k0, k1) && Cascaded(nB, k1, k2) && LinksCovered(nA, nB, k2)
    ensures Cascaded(nB, k0, k2)
  {
    forall x | 0 <= x < |nB| && !k0[x].potentialScoreDirty && k2[x].potentialScoreDirty
      ensures NeighboursDirty(nB, k2, x)
    {
      if k1[x].potentialScoreDirty {
        assert NeighboursDirty(nA, k1, x);
        if nB[x].nest.Some? && nB[x].nest == nA[x].nest {
          assert k1[EnclosingClass(nB[x].nest.value)].potentialScoreDirty;
        }
        forall y | y in nB[x].nestingClasses ensures y < |k2| && k2[y].potentialScoreDirty {
          if y in nA[x].nestingClasses {
            assert k1[y].potentialScoreDirty;
          }
        }
      }
    }
  }

  /** Cascading depends only on the links and on the dirty flags. */
  lemma CascadedKeep(nA: seq<NodeState>, nB: seq<NodeState>, k0: seq<CacheState>, k1: seq<CacheState>,
                     k2: seq<CacheState>)
    requires |k0| == |nA| && |k1| == |nA| && Cascaded(nA, k0, k1) && SameNests(nA, nB) && SameNesting(nA, nB)
    requires |k2| == |k1| && forall x :: 0 <= x < |k1| ==> k2[x].potentialScoreDirty == k1[x].potentialScoreDirty
    ensures Cascaded(nB, k0, k2)
  {
    forall x | 0 <= x < |nB| && !k0[x].potentialScoreDirty && k2[x].potentialScoreDirty
      ensures NeighboursDirty(nB, k2, x)
    {
      assert NeighboursDirty(nA, k1, x);
    }
  }

  /** The answer of hasStaticMembers that setNest works with for c, whose cache was k0 before the call; c has
      just been invalidated, so a memo survives only when c was dirty already, and otherwise the answer is
      computed afresh on the new links. */
  predicate StaticMembersSeen(classes: seq<ClassFacts>, k0: CacheState, nodes: seq<NodeState>, c: nat)
    requires c < |classes| && NodeShape(classes, nodes) && FactsOk(classes)
  {
    if k0.potentialScoreDirty && k0.hasStaticMembers.Some? then k0.hasStaticMembers.value
    else ComputeHasStaticMembers(classes, nodes, c)
  }

  /** Two writes of the same slot are one. */
  lemma SetTwice(n0: seq<NodeState>, n1: seq<NodeState>, n2: seq<NodeState>, c: nat)
    requires c < |n0| && |n1| == |n0| && |n2| == |n0| && n1 == n0[c := n1[c]] && n2 == n1[c := n2[c]]
    ensures n2 == n0[c := n2[c]]
  {
  }

  /** Setting c's own inner access and inner name does not change what hasStaticMembers computes for c. */
  lemma StaticMembersSeenAfterRelink(g1: Env, nodes: seq<NodeState>, k0: CacheState, c: nat)
    requires EnvOk(g1) && GraphOk(g1.classes, nodes) && c < |nodes|
    requires g1.caches[c] == if k0.potentialScoreDirty then k0 else Dirty(k0)
    requires |nodes| == |g1.nodes| && nodes[c].nestingClasses == g1.nodes[c].nestingClasses
    requires c !in nodes[c].nestingClasses && forall y :: 0 <= y < |nodes| && y != c ==> nodes[y] == g1.nodes[y]
    ensures HasStaticMembers(g1, c) == StaticMembersSeen(g1.classes, k0, nodes, c)
  {
    var f := g1.classes[c];
    assert (exists y :: y in nodes[c].nestingClasses && IsActuallyStatic(g1.classes, nodes, y)) ==
      (exists y :: y in g1.nodes[c].nestingClasses && IsActuallyStatic(g1.classes, g1.nodes, y));
  }

  /** The two halves of setNest once its guards pass, relinking (n0, k0 to n1, k1) and finishing (n1, k1 to n2,
      k2), compose into what ApplyNest promises about the links and the caches ... */
  lemma ApplyNestLinks(classes: seq<ClassFacts>, n0: seq<NodeState>, k0: seq<CacheState>, n1: seq<NodeState>,
                       k1: seq<CacheState>, n2: seq<NodeState>, k2: seq<CacheState>, c: nat, n: Option<Nest>)
    requires |n0| == |classes| && |k0| == |classes| && c < |classes| && GraphOk(classes, n1) && GraphOk(classes, n2)
    requires n.Some? ==> ValidSubject(classes, n.value.subject) && EnclosingClass(n.value) != c
    requires n1[c].nest == n && KeepsOthers(n0, n1, c) && n1[c].innerAccess.None?
    requires n.None? || !IsAnonymousNest(n.value) ==> n1[c].innerName == ""
    requires n.None? || !IsLocalNest(n.value) ==> n1[c].localPrefix == ""
    requires OnlyDirtied(k0, k1) && k1[c].potentialScoreDirty && Cascaded(n1, k0, k1)
    requires n0[c].nest.Some? ==>
      EnclosingClass(n0[c].nest.value) < |k1| && k1[EnclosingClass(n0[c].nest.value)].potentialScoreDirty
    requires n.Some? ==> k1[EnclosingClass(n.value)].potentialScoreDirty
    requires n.None? ==> n2 == n1 && k2 == k1
    requires |n2| == |n1| && (forall x :: 0 <= x < |n1| && x != c ==> n2[x] == n1[x])
    requires n2[c] == n1[c].(innerAccess := n2[c].innerAccess, innerName := n2[c].innerName)
    requires |k2| == |k1| && k2[c].potentialScoreDirty == k1[c].potentialScoreDirty
    requires forall x :: 0 <= x < |k2| && x != c ==> k2[x] == k1[x]
    ensures |k2| == |classes|
    ensures n2[c].nest == n && KeepsOthers(n0, n2, c)
    ensures forall e :: 0 <= e < |n2| ==> (c in n2[e].nestingClasses <==> n.Some? && e == EnclosingClass(n.value))
    ensures k2[c].potentialScoreDirty
    ensures n0[c].nest.Some? ==> k2[EnclosingClass(n0[c].nest.value)].potentialScoreDirty
    ensures n.Some? ==> k2[EnclosingClass(n.value)].potentialScoreDirty
    ensures forall x :: 0 <= x < |k2| && x != c ==>
      k2[x] == k0[x] || (!k0[x].potentialScoreDirty && k2[x] == Dirty(k0[x]))
    ensures Cascaded(n2, k0, k2)
    ensures n.None? ==> n2[c].innerAccess.None? && n2[c].innerName == "" && n2[c].localPrefix == ""
    ensures n.Some? ==>
      && (IsAnonymousNest(n.value) ==> c in n2[EnclosingClass(n.value)].anonymousClasses)
      && (IsLocalNest(n.value) ==> c in n2[EnclosingClass(n.value)].localClasses)
      && (!IsLocalNest(n.value) ==> n2[c].localPrefix == "")
  {
    MembershipOfNested(classes, n2, c);
    CascadedKeep(n1, n2, k0, k1, k2);
  }

  /** ... about the names of c and of the other classes ... */
  lemma ApplyNestNames(n0: seq<NodeState>, n1: seq<NodeState>, n2: seq<NodeState>, c: nat, n: Option<Nest>)
    requires c < |n0| && |n1| == |n0| && |n2| == |n0| && n1[c].nest == n
    requires n.None? || !IsAnonymousNest(n.value) ==> n1[c].innerName == ""
    requires NamesKept(n0, n1, c, AnonymousSiblings(n0, c) + AnonymousSiblings(n1, c),
      LocalSiblings(n0, c) + LocalSiblings(n1, c))
    requires n2 == n1[c := n1[c].(innerAccess := n2[c].innerAccess, innerName := n2[c].innerName)]
    requires n.None? || n.value.nestType != INNER ==> n2[c].innerName == n1[c].innerName
    ensures n.Some? && n.value.nestType == DUMMY ==> n2[c].innerName == ""
    ensures NamesKept(n0, n2, c, AnonymousSiblings(n0, c) + AnonymousSiblings(n2, c),
      LocalSiblings(n0, c) + LocalSiblings(n2, c))
  {
    OwnFieldsSiblings(n1, c, n2[c]);
  }

  /** ... and about the inner access, the static-members memo and the inner name of c. */
  lemma ApplyNestAccess(classes: seq<ClassFacts>, k0: CacheState, n1: seq<NodeState>, k1: seq<CacheState>,
                        n2: seq<NodeState>, k2: seq<CacheState>, c: nat, n: Nest)
    requires |k1| == |classes| && |k2| == |classes| && c < |classes| && GraphOk(classes, n1) && GraphOk(classes, n2)
    requires ValidSubject(classes, n.subject) && EnclosingClass(n) != c && n1[c].nest == Some(n)
    requires k1[c] == if k0.potentialScoreDirty then k0 else Dirty(k0)
    requires n2 == n1[c := n1[c].(
      innerAccess := Some(InnerAccessBits(classes[c].access, n.nestType,
        n.nestType == INNER && HasStaticMembers(Env(classes, n1, k1), c), EnclosingMethodStatic(classes, n))),
      innerName := if n.nestType == INNER then GetInnerName(GetClassName(classes[c].name)) else n1[c].innerName)]
    requires n.nestType == INNER ==> k2[c].hasStaticMembers == Some(HasStaticMembers(Env(classes, n1, k1), c))
    ensures n2[c].innerAccess == Some(InnerAccessBits(classes[c].access, n.nestType,
      n.nestType == INNER && StaticMembersSeen(classes, k0, n2, c), EnclosingMethodStatic(classes, n)))
    ensures n.nestType == INNER ==> k2[c].hasStaticMembers == Some(StaticMembersSeen(classes, k0, n2, c))
    ensures n.nestType == INNER ==> n2[c].innerName == GetInnerName(GetClassName(classes[c].name))
  {
    MembershipOfNested(classes, n2, c);
    StaticMembersSeenAfterRelink(Env(classes, n1, k1), n2, k0, c);
  }

  /** What setNest(n) on c does to the nesting state (n0 to n1) and to the caches (k0 to k1) once its guards
      pass, c's simple name aside:
      - c gets the nest n, and no other class changes its flag, simple name, nest or inner access;
      - names change only within the anonymous and local lists c leaves and joins;
      - c sits in the nesting set of exactly its new enclosing class, and in its anonymous or local list;
      - c and its old and new enclosing classes are dirty, and every other cache is kept or invalidated
        along the links;
      - c's inner access, inner name and local prefix are cleared, then set afresh for its new nest. */
  ghost predicate NestSet(classes: seq<ClassFacts>, n0: seq<NodeState>, k0: seq<CacheState>, n1: seq<NodeState>,
                          k1: seq<CacheState>, c: nat, n: Option<Nest>)
  {
    GraphOk(classes, n1) && NestFacts(classes, n0, k0, n1, k1, c, n)
  }

  /** NestSet without the invariant of the new nesting state: its shape, links, caches and c's own fields. */
  ghost predicate NestFacts(classes: seq<ClassFacts>, n0: seq<NodeState>, k0: seq<CacheState>, n1: seq<NodeState>,
                            k1: seq<CacheState>, c: nat, n: Option<Nest>)
  {
    && NestShape(classes, n0, k0, n1, k1, c, n)
    && NestLinks(n0, n1, c, n)
    && NestCaches(n0, k0, n1, k1, c, n)
    && NestOwnFields(classes, k0, n1, k1, c, n)
  }

  predicate NestShape(classes: seq<ClassFacts>, n0: seq<NodeState>, k0: seq<CacheState>, n1: seq<NodeState>,
                      k1: seq<CacheState>, c: nat, n: Option<Nest>)
  {
    && |n0| == |classes| && |k0| == |classes| && c < |classes| && FactsOk(classes) && NodeShape(classes, n1)
    && |k1| == |classes| && (n.Some? ==> ValidSubject(classes, n.value.subject))
  }

  /** c gets the nest n; no other class changes its flag, simple name, nest or inner access; names change only
      within the anonymous and local lists c leaves and joins; c sits in the nesting set of exactly its new
      enclosing class. */
  predicate NestLinks(n0: seq<NodeState>, n1: seq<NodeState>, c: nat, n: Option<Nest>)
  {
    && c < |n0| && |n1| == |n0|
    && n1[c].nest == n && n1[c].nestable == n0[c].nestable
    && (forall x :: 0 <= x < |n0| && x != c ==>
          && n1[x].nestable == n0[x].nestable && n1[x].simpleName == n0[x].simpleName
          && n1[x].nest == n0[x].nest && n1[x].innerAccess == n0[x].innerAccess)
    && NamesKept(n0, n1, c, AnonymousSiblings(n0, c) + AnonymousSiblings(n1, c), LocalSiblings(n0, c) + LocalSiblings(n1, c))
    && (forall e :: 0 <= e < |n1| ==> (c in n1[e].nestingClasses <==> n.Some? && e == EnclosingClass(n.value)))
  }

  /** c and its old and new enclosing classes are dirty, and every other cache is kept or invalidated along
      the links. */
  predicate NestCaches(n0: seq<NodeState>, k0: seq<CacheState>, n1: seq<NodeState>, k1: seq<CacheState>, c: nat, n: Option<Nest>)
  {
    && c < |n0| && |n1| == |n0| && |k0| == |n0| && |k1| == |n0|
    && k1[c].potentialScoreDirty
    && (n0[c].nest.Some? ==>
          EnclosingClass(n0[c].nest.value) < |k1| && k1[EnclosingClass(n0[c].nest.value)].potentialScoreDirty)
    && (n.Some? ==> EnclosingClass(n.value) < |k1| && k1[EnclosingClass(n.value)].potentialScoreDirty)
    && (forall x :: 0 <= x < |k1| && x != c ==>
          k1[x] == k0[x] || (!k0[x].potentialScoreDirty && k1[x] == Dirty(k0[x])))
    && Cascaded(n1, k0, k1)
  }

  /** c's inner access, inner name and local prefix are cleared, then set afresh for its new nest. */
  predicate NestOwnFields(classes: seq<ClassFacts>, k0: seq<CacheState>, n1: seq<NodeState>, k1: seq<CacheState>, c: nat,
                          n: Option<Nest>)
  {
    && c < |classes| && NodeShape(classes, n1) && FactsOk(classes) && |k0| == |classes| && |k1| == |classes|
    && (n.Some? ==> ValidSubject(classes, n.value.subject))
    && (n.None? ==> n1[c].innerAccess.None? && n1[c].innerName == "" && n1[c].localPrefix == "")
    && (n.Some? ==>
          && n1[c].innerAccess == Some(InnerAccessBits(classes[c].access, n.value.nestType,
               n.value.nestType == INNER && StaticMembersSeen(classes, k0[c], n1, c),
               EnclosingMethodStatic(classes, n.value)))
          && (n.value.nestType == INNER ==>
                k1[c].hasStaticMembers == Some(StaticMembersSeen(classes, k0[c], n1, c)))
          && (n.value.nestType == INNER ==> n1[c].innerName == GetInnerName(GetClassName(classes[c].name)))
          && (n.value.nestType == DUMMY ==> n1[c].innerName == "")
          && (IsAnonymousNest(n.value) ==> c in n1[EnclosingClass(n.value)].anonymousClasses)
          && (IsLocalNest(n.value) ==> c in n1[EnclosingClass(n.value)].localClasses)
          && (!IsLocalNest(n.value) ==> n1[c].localPrefix == ""))
  }

  /** setSimpleName after setNest: the facts of a NestSet do not read c's simple name. */
  lemma NestFactsRenamed(classes: seq<ClassFacts>, n0: seq<NodeState>, k0: seq<CacheState>, n1: seq<NodeState>,
                         k1: seq<CacheState>, c: nat, n: Option<Nest>, name: Option<string>)
    requires NestFacts(classes, n0, k0, n1, k1, c, n)
    ensures NestFacts(classes, n0, k0, n1[c := n1[c].(simpleName := name)], k1, c, n)
  {
    RenamedShape(classes, n0, k0, n1, k1, c, n, name);
    RenamedLinks(n0, n1, c, n, name);
    RenamedCaches(n0, k0, n1, k1, c, n, name);
    RenamedOwnFields(classes, k0, n1, k1, c, n, name);
  }

  lemma RenamedShape(classes: seq<ClassFacts>, n0: seq<NodeState>, k0: seq<CacheState>, n1: seq<NodeState>,
                     k1: seq<CacheState>, c: nat, n: Option<Nest>, name: Option<string>)
    requires NestShape(classes, n0, k0, n1, k1, c, n)
    ensures NestShape(classes, n0, k0, n1[c := n1[c].(simpleName := name)], k1, c, n)
  {
  }

  lemma RenamedLinks(n0: seq<NodeState>, n1: seq<NodeState>, c: nat, n: Option<Nest>, name: Option<string>)
    requires NestLinks(n0, n1, c, n)
    ensures NestLinks(n0, n1[c := n1[c].(simpleName := name)], c, n)
  {
    var n2 := n1[c := n1[c].(simpleName := name)];
    assert AnonymousSiblings(n2, c) == AnonymousSiblings(n1, c) && LocalSiblings(n2, c) == LocalSiblings(n1, c);
  }

  lemma RenamedCaches(n0: seq<NodeState>, k0: seq<CacheState>, n1: seq<NodeState>, k1: seq<CacheState>, c: nat,
                      n: Option<Nest>, name: Option<string>)
    requires NestCaches(n0, k0, n1, k1, c, n)
    ensures NestCaches(n0, k0, n1[c := n1[c].(simpleName := name)], k1, c, n)
  {
    var n2 := n1[c := n1[c].(simpleName := name)];
    assert forall x :: 0 <= x < |n1| ==> NeighboursDirty(n2, k1, x) == NeighboursDirty(n1, k1, x);
  }

  lemma RenamedOwnFields(classes: seq<ClassFacts>, k0: seq<CacheState>, n1: seq<NodeState>, k1: seq<CacheState>, c: nat,
                         n: Option<Nest>, name: Option<string>)
    requires NestOwnFields(classes, k0, n1, k1, c, n)
    ensures NestOwnFields(classes, k0, n1[c := n1[c].(simpleName := name)], k1, c, n)
  {
    RenamedStaticMembers(classes, k0[c], n1, c, name);
  }

  /** Nor does it change what hasStaticMembers computes for c. */
  lemma RenamedStaticMembers(classes: seq<ClassFacts>, k: CacheState, n1: seq<NodeState>, c: nat, name: Option<string>)
    requires c < |classes| && NodeShape(classes, n1) && FactsOk(classes)
    ensures NodeShape(classes, n1[c := n1[c].(simpleName := name)])
    ensures StaticMembersSeen(classes, k, n1[c := n1[c].(simpleName := name)], c) == StaticMembersSeen(classes, k, n1, c)
  {
    var n2 := n1[c := n1[c].(simpleName := name)];
    assert forall y :: 0 <= y < |n1| ==> n2[y].innerAccess == n1[y].innerAccess;
  }

  /** The facts ApplyNestLinks and ApplyNestAccess establish are a NestSet. */
  lemma ApplyNestDone(classes: seq<ClassFacts>, n0: seq<NodeState>, k0: seq<CacheState>, n1: seq<NodeState>,
                      k1: seq<CacheState>, n2: seq<NodeState>, k2: seq<CacheState>, c: nat, n: Option<Nest>)
    requires |n0| == |classes| && |k0| == |classes| && c < |classes| && GraphOk(classes, n1) && GraphOk(classes, n2)
    requires n.Some? ==> ValidSubject(classes, n.value.subject) && EnclosingClass(n.value) != c
    requires n1[c].nest == n && KeepsOthers(n0, n1, c) && n1[c].innerAccess.None?
    requires n.None? || !IsAnonymousNest(n.value) ==> n1[c].innerName == ""
    requires n.None? || !IsLocalNest(n.value) ==> n1[c].localPrefix == ""
    requires OnlyDirtied(k0, k1) && k1[c].potentialScoreDirty && Cascaded(n1, k0, k1)
    requires n0[c].nest.Some? ==>
      EnclosingClass(n0[c].nest.value) < |k1| && k1[EnclosingClass(n0[c].nest.value)].potentialScoreDirty
    requires n.Some? ==> k1[EnclosingClass(n.value)].potentialScoreDirty
    requires NamesKept(n0, n1, c, AnonymousSiblings(n0, c) + AnonymousSiblings(n1, c),
      LocalSiblings(n0, c) + LocalSiblings(n1, c))
    requires n.None? ==> n2 == n1 && k2 == k1
    requires n.Some? ==>
      var t := n.value.nestType;
      && k1[c] == (if k0[c].potentialScoreDirty then k0[c] else Dirty(k0[c]))
      && n2 == n1[c := n1[c].(
           innerAccess := Some(InnerAccessBits(classes[c].access, t,
             t == INNER && HasStaticMembers(Env(classes, n1, k1), c), EnclosingMethodStatic(classes, n.value))),
           innerName := if t == INNER then GetInnerName(GetClassName(classes[c].name)) else n1[c].innerName)]
      && |k2| == |k1| && k2[c].potentialScoreDirty == k1[c].potentialScoreDirty
      && (t == INNER ==> k2[c].hasStaticMembers == Some(HasStaticMembers(Env(classes, n1, k1), c)))
      && (forall x :: 0 <= x < |k2| && x != c ==> k2[x] == k1[x])
    ensures NestSet(classes, n0, k0, n2, k2, c, n) && n2[c].simpleName == n0[c].simpleName
  {
    ApplyNestLinks(classes, n0, k0, n1, k1, n2, k2, c, n);
    ApplyNestNames(n0, n1, n2, c, n);
    if n.Some? {
      ApplyNestAccess(classes, k0[c], n1, k1, n2, k2, c, n.value);
    }
  }

  // ---------------------------------------------------------------- sibling lists

  /** A sibling list as the renumbering loops need it: indices of the arena, no repeats. */
  predicate SiblingListOk(nodes: seq<NodeState>, l: seq<nat>)
  {
    NoRepeats(l) && forall k :: 0 <= k < |l| ==> l[k] < |nodes|
  }

  lemma SortedListOk(classes: seq<ClassFacts>, nodes: seq<NodeState>, e: nat)
    requires NodeShape(classes, nodes) && SiblingsOrdered(classes, nodes) && e < |nodes|
    ensures SiblingListOk(nodes, nodes[e].anonymousClasses) && SiblingListOk(nodes, nodes[e].localClasses)
  {
    ListsInArena(classes, nodes, e);
    SortedDistinct(classes, nodes[e].anonymousClasses);
    SortedDistinct(classes, nodes[e].localClasses);
  }

  // ---------------------------------------------------------------- what setNest leaves alone

  /** Nobody's nestable flag or simple name changes, and no class but c changes its nest or inner access. */
  predicate KeepsOthers(n0: seq<NodeState>, n1: seq<NodeState>, c: nat)
  {
    && |n1| == |n0|
    && (forall x :: 0 <= x < |n0| ==> n1[x].nestable == n0[x].nestable && n1[x].simpleName == n0[x].simpleName)
    && (forall x :: 0 <= x < |n0| && x != c ==> n1[x].nest == n0[x].nest && n1[x].innerAccess == n0[x].innerAccess)
  }

  lemma KeepsOthersTrans(n0: seq<NodeState>, n1: seq<NodeState>, n2: seq<NodeState>, c: nat)
    requires KeepsOthers(n0, n1, c) && KeepsOthers(n1, n2, c)
    ensures KeepsOthers(n0, n2, c)
  {
  }

  /** The anonymous list c sits in: that of its enclosing class when its nest is anonymous, else none. */
  function AnonymousSiblings(nodes: seq<NodeState>, c: nat): seq<nat>
    requires c < |nodes|
  {
    if nodes[c].nest.Some? && IsAnonymousNest(nodes[c].nest.value) && EnclosingClass(nodes[c].nest.value) < |nodes|
    then nodes[EnclosingClass(nodes[c].nest.value)].anonymousClasses else []
  }

  /** The local list c sits in: that of its enclosing class when its nest is local, else none. */
  function LocalSiblings(nodes: seq<NodeState>, c: nat): seq<nat>
    requires c < |nodes|
  {
    if nodes[c].nest.Some? && IsLocalNest(nodes[c].nest.value) && EnclosingClass(nodes[c].nest.value) < |nodes|
    then nodes[EnclosingClass(nodes[c].nest.value)].localClasses else []
  }

  /** Apart from c, only the classes in la may get another inner name, and only those in ll another local
      prefix. */
  predicate NamesKept(n0: seq<NodeState>, n1: seq<NodeState>, c: nat, la: seq<nat>, ll: seq<nat>)
  {
    && |n1| == |n0|
    && forall x :: 0 <= x < |n0| && x != c ==>
         (x !in la ==> n1[x].innerName == n0[x].innerName) && (x !in ll ==> n1[x].localPrefix == n0[x].localPrefix)
  }

  lemma NamesKeptTrans(n0: seq<NodeState>, n1: seq<NodeState>, n2: seq<NodeState>, c: nat,
                       la: seq<nat>, ll: seq<nat>, la': seq<nat>, ll': seq<nat>)
    requires NamesKept(n0, n1, c, la, ll) && NamesKept(n1, n2, c, la', ll')
    ensures NamesKept(n0, n2, c, la + la', ll + ll')
  {
  }

  lemma NamesKeptWiden(n0: seq<NodeState>, n1: seq<NodeState>, c: nat,
                       la: seq<nat>, ll: seq<nat>, la': seq<nat>, ll': seq<nat>)
    requires NamesKept(n0, n1, c, la, ll) && (forall x :: x in la ==> x in la') && (forall x :: x in ll ==> x in ll')
    ensures NamesKept(n0, n1, c, la', ll')
  {
  }

  /** Changing only c's own node renames nobody else; with c's nest and lists kept, c's sibling lists stay. */
  lemma OwnFieldsNames(n0: seq<NodeState>, c: nat, v: NodeState)
    requires c < |n0|
    ensures NamesKept(n0, n0[c := v], c, [], [])
  {
  }

  lemma OwnFieldsSiblings(n0: seq<NodeState>, c: nat, v: NodeState)
    requires c < |n0| && v.nest == n0[c].nest && v.anonymousClasses == n0[c].anonymousClasses
    requires v.localClasses == n0[c].localClasses
    ensures NamesKept(n0, n0[c := v], c, [], [])
    ensures AnonymousSiblings(n0[c := v], c) == AnonymousSiblings(n0, c) && LocalSiblings(n0[c := v], c) == LocalSiblings(n0, c)
  {
  }

  /** Editing e's nesting set renames nothing and leaves every class in its sibling lists. */
  lemma NestingEditNames(n0: seq<NodeState>, e: nat, s: set<nat>, c: nat)
    requires e < |n0| && c < |n0|
    ensures var n1 := n0[e := n0[e].(nestingClasses := s)];
      && NamesKept(n0, n1, c, [], [])
      && AnonymousSiblings(n1, c) == AnonymousSiblings(n0, c) && LocalSiblings(n1, c) == LocalSiblings(n0, c)
  {
  }

  /** Replacing e's anonymous list by l and renumbering it renames only classes of l, and leaves l in place. */
  lemma AnonymousEditNames(n0: seq<NodeState>, n2: seq<NodeState>, e: nat, l: seq<nat>, c: nat, la: seq<nat>)
    requires e < |n0| && RenamedAnonymous(n0[e := n0[e].(anonymousClasses := l)], n2, e)
    requires forall x :: x in l ==> x in la
    ensures NamesKept(n0, n2, c, la, []) && n2[e].anonymousClasses == l
  {
    var n1 := n0[e := n0[e].(anonymousClasses := l)];
    RenamedAnonymousFields(n1, n2, e);
    assert n2[e] == n1[e].(innerName := n2[e].innerName);
  }

  /** Replacing e's local list by l and renumbering it changes only prefixes of classes of l. */
  lemma LocalEditNames(n0: seq<NodeState>, n2: seq<NodeState>, e: nat, l: seq<nat>, c: nat, ll: seq<nat>)
    requires e < |n0| && RenamedLocal(n0[e := n0[e].(localClasses := l)], n2, e)
    requires forall x :: x in l ==> x in ll
    ensures NamesKept(n0, n2, c, [], ll) && n2[e].localClasses == l
  {
    var n1 := n0[e := n0[e].(localClasses := l)];
    RenamedLocalFields(n1, n2, e);
    assert n2[e] == n1[e].(localPrefix := n2[e].localPrefix);
  }

  /** After c joined the lists of e, its nest's enclosing class, only the classes of those lists are renamed. */
  lemma AttachedNames(n0: seq<NodeState>, n1: seq<NodeState>, n2: seq<NodeState>, c: nat, e: nat)
    requires c < |n2| && e < |n2| && n2[c].nest.Some? && EnclosingClass(n2[c].nest.value) == e
    requires NamesKept(n0, n1, c, [], []) && (IsAnonymousNest(n2[c].nest.value) || IsLocalNest(n2[c].nest.value))
    requires IsAnonymousNest(n2[c].nest.value) ==> NamesKept(n1, n2, c, n2[e].anonymousClasses, [])
    requires IsLocalNest(n2[c].nest.value) ==> NamesKept(n1, n2, c, [], n2[e].localClasses)
    ensures NamesKept(n0, n2, c, AnonymousSiblings(n2, c), LocalSiblings(n2, c))
  {
  }

  lemma NamesKeptAfter(n0: seq<NodeState>, n1: seq<NodeState>, n2: seq<NodeState>, c: nat, la: seq<nat>, ll: seq<nat>)
    requires NamesKept(n0, n1, c, [], []) && NamesKept(n1, n2, c, la, ll)
    ensures NamesKept(n0, n2, c, la, ll)
  {
  }

  /** The fields of a node that the bookkeeping of setNest (sets, lists, numbering) never writes. */
  function Heads(s: NodeState): (bool, Option<Nest>, Option<bv32>, Option<string>)
  {
    (s.nestable, s.nest, s.innerAccess, s.simpleName)
  }

  /** Only bookkeeping changed between n0 and n1. */
  predicate BookkeepingOnly(n0: seq<NodeState>, n1: seq<NodeState>)
  {
    |n1| == |n0| && forall x :: 0 <= x < |n0| ==> Heads(n1[x]) == Heads(n0[x])
  }

  lemma BookkeepingAt(n0: seq<NodeState>, e: nat, v: NodeState)
    requires e < |n0| && Heads(v) == Heads(n0[e])
    ensures BookkeepingOnly(n0, n0[e := v])
  {
  }

  lemma BookkeepingTrans(n0: seq<NodeState>, n1: seq<NodeState>, n2: seq<NodeState>)
    requires BookkeepingOnly(n0, n1) && BookkeepingOnly(n1, n2)
    ensures BookkeepingOnly(n0, n2)
  {
  }

  lemma BookkeepingKeeps(n0: seq<NodeState>, n1: seq<NodeState>, c: nat)
    requires BookkeepingOnly(n0, n1)
    ensures SameNests(n0, n1) && KeepsOthers(n0, n1, c)
  {
    forall x | 0 <= x < |n0| ensures n1[x].nest == n0[x].nest {
      assert Heads(n1[x]) == Heads(n0[x]);
    }
    forall x | 0 <= x < |n0|
      ensures n1[x].nestable == n0[x].nestable && n1[x].simpleName == n0[x].simpleName && n1[x].innerAccess == n0[x].innerAccess
    {
      assert Heads(n1[x]) == Heads(n0[x]);
    }
  }

  lemma RenamedAnonymousBookkeeping(n0: seq<NodeState>, n1: seq<NodeState>, e: nat)
    requires e < |n0| && RenamedAnonymous(n0, n1, e)
    ensures BookkeepingOnly(n0, n1) && SameNesting(n0, n1)
  {
    RenamedAnonymousFields(n0, n1, e);
  }

  lemma RenamedLocalBookkeeping(n0: seq<NodeState>, n1: seq<NodeState>, e: nat)
    requires e < |n0| && RenamedLocal(n0, n1, e)
    ensures BookkeepingOnly(n0, n1) && SameNesting(n0, n1)
  {
    RenamedLocalFields(n0, n1, e);
  }

  /** Whether the enclosing method of a nest is static; None when the nest has no enclosing method. */
  function EnclosingMethodStatic(classes: seq<ClassFacts>, n: Nest): (r: Option<bool>)
    requires ValidSubject(classes, n.subject)
    ensures r.None? <==> EnclosingMethod(n).None?
    ensures r.Some? ==> r.value == classes[n.subject.c].methods[n.subject.m].isStatic
  {
    if n.subject.Meth? then Some(classes[n.subject.c].methods[n.subject.m].isStatic) else None
  }

  /** The caches as a ranking reads them: their hasStaticMembers and isMethodArgType memos, with the
      potential-score fields blanked. */
  function MemoView(ks: seq<CacheState>): (r: seq<CacheState>)
    ensures |r| == |ks|
    ensures forall i :: 0 <= i < |ks| ==>
      r[i].hasStaticMembers == ks[i].hasStaticMembers && r[i].isMethodArgType == ks[i].isMethodArgType
  {
    seq(|ks|, i requires 0 <= i < |ks| => CacheState(0, false, ks[i].hasStaticMembers, ks[i].isMethodArgType))
  }

  /** The state as a ranking sees it. */
  function RankView(g: Env): (v: Env)
    ensures Ready(g) ==> Ready(v)
  {
    Env(g.classes, g.nodes, MemoView(g.caches))
  }

  /** Refilling a potential score leaves what a ranking sees. */
  lemma MemoViewRefilled(ks: seq<CacheState>, c: nat, score: int)
    requires c < |ks|
    ensures MemoView(ks[c := ks[c].(potentialScore := score, potentialScoreDirty := false)]) == MemoView(ks)
  {
    var ks' := ks[c := ks[c].(potentialScore := score, potentialScoreDirty := false)];
    assert forall i :: 0 <= i < |ks| ==> MemoView(ks')[i] == MemoView(ks)[i];
  }

  /** The score findHighestPotentialScore computes: 0 for a class that is not nestable or has no ranking, else
      the score of the entry the sort-and-scan picks. The ranking reads the caches only for their memos, so
      it is taken on the RankView. */
  function PotentialScore(g: Env, c: nat): int
    requires Ready(g) && c < |g.classes|
  {
    if !IsNestable(g.classes, g.nodes, c) then 0
    else
      var rs := Rank(RankView(g), c, None);
      if rs == [] then 0 else BestScore(rs)
  }

  /** Whether setNest(n) on c does anything: c must be nestable, and must not enclose the new enclosing class. */
  predicate SetNestApplies(classes: seq<ClassFacts>, nodes: seq<NodeState>, c: nat, n: Option<Nest>)
    requires Linked(classes, nodes) && c < |classes|
    requires n.Some? ==> ValidSubject(classes, n.value.subject)
  {
    IsNestable(classes, nodes, c) && !(n.Some? && Encloses(classes, nodes, c, Cls(EnclosingClass(n.value))))
  }

  /** A nestable class with an INNER or ANONYMOUS nest ranks that nest at 100 and finds every other entry a
      DUMMY, so its potential score is 100. */
  lemma PotentialScoreOfNested(g: Env, c: nat)
    requires Ready(g) && c < |g.classes| && IsNestable(g.classes, g.nodes, c)
    requires g.nodes[c].nest.Some? && g.nodes[c].nest.value.nestType != DUMMY
    ensures PotentialScore(g, c) == 100
  {
    var n := g.nodes[c].nest.value;
    var v := RankView(g);
    var found := FoundResults(v, c, None);
    FoundResultsOfNested(v, c, None);
    assert found[0] == Yes(n.subject, n.nestType);
    FinalizedNestScore(found, c, |g.classes|);
  }

  /** Results led by a non-DUMMY entry of score 100, none above 100, keep 100 as their best score once the
      zero-score fillers are added. */
  lemma FinalizedNestScore(found: seq<NestRankResult>, c: nat, n: nat)
    requires |found| >= 1 && !IsDummy(found[0]) && found[0].score == 100
    requires forall i :: 0 <= i < |found| ==> found[i].score <= 100
    ensures var rs := Finalize(found, c, n, None, 0); rs != [] && BestScore(rs) == 100
  {
    var fill := UnrankedClasses(found, c, 0, n);
    UnrankedClassesShape(found, c, 0, n);
    var rs := Finalize(found, c, n, None, 0);
    assert rs == found + fill + [];
    assert rs[0] == found[0];
    forall i | 0 <= i < |rs| ensures rs[i].score <= 100 {
      if i >= |found| {
        assert rs[i] == fill[i - |found|];
      }
    }
  }

  /** A node with its inner name (anonymous numbering) or its local prefix (local numbering) set to name. */
  function Numbered(v: NodeState, local: bool, name: string): NodeState
  {
    if local then v.(localPrefix := name) else v.(innerName := name)
  }

  /** The first k classes of the sibling list l are numbered 1 to k, and nothing else has changed. */
  predicate NumberedUpTo(n0: seq<NodeState>, n1: seq<NodeState>, l: seq<nat>, local: bool, k: nat)
  {
    && |n1| == |n0| && k <= |l| && SiblingListOk(n0, l)
    && (forall j :: 0 <= j < k ==> n1[l[j]] == Numbered(n0[l[j]], local, NatToString(j + 1)))
    && (forall j :: k <= j < |l| ==> n1[l[j]] == n0[l[j]])
    && (forall x :: 0 <= x < |n0| && x !in l ==> n1[x] == n0[x])
  }

  lemma NumberStep(n0: seq<NodeState>, n1: seq<NodeState>, l: seq<nat>, local: bool, k: nat)
    requires NumberedUpTo(n0, n1, l, local, k) && k < |l|
    ensures NumberedUpTo(n0, n1[l[k] := Numbered(n1[l[k]], local, NatToString(k + 1))], l, local, k + 1)
  {
    var n2 := n1[l[k] := Numbered(n1[l[k]], local, NatToString(k + 1))];
    forall j | 0 <= j < |l| && j != k ensures n2[l[j]] == n1[l[j]] {
      assert l[j] != l[k];
    }
    forall x | 0 <= x < |n0| && x !in l ensures n2[x] == n1[x] {
      assert x != l[k];
    }
  }

  /** Only a class that is nestable has a nest: what setNestable(false) is there to ensure. */
  predicate NestedAreNestable(nodes: seq<NodeState>)
  {
    forall x :: 0 <= x < |nodes| && nodes[x].nest.Some? ==> nodes[x].nestable
  }

  /** What setNestable(b) on c does, with the nest dropped before the flag is cleared (n0, k0 to n2, k2): the
      nesting state as NestableNodes says and the caches as NestableCaches says. */
  predicate NestableSet(classes: seq<ClassFacts>, n0: seq<NodeState>, k0: seq<CacheState>, n2: seq<NodeState>,
                        k2: seq<CacheState>, c: nat, b: bool)
  {
    NestableNodes(classes, n0, n2, c, b) && NestableCaches(k0, n2, k2, c)
  }

  /** c's flag becomes b; no class changes its simple name, and no other class its flag, nest or inner access.
      Unless b is false and c was nestable, nothing else changes. If it was, setNest(null) applies: c has no
      nest or inner access, its inner name and local prefix are empty, it sits in no nesting set, and names
      change only within the anonymous and local lists it left. */
  predicate NestableNodes(classes: seq<ClassFacts>, n0: seq<NodeState>, n2: seq<NodeState>, c: nat, b: bool)
  {
    && |n0| == |classes| && |n2| == |classes| && c < |classes|
    && n2[c].nestable == b && n2[c].simpleName == n0[c].simpleName
    && (forall x :: 0 <= x < |n0| && x != c ==>
          && n2[x].nestable == n0[x].nestable && n2[x].simpleName == n0[x].simpleName
          && n2[x].nest == n0[x].nest && n2[x].innerAccess == n0[x].innerAccess)
    && (b || !IsNestable(classes, n0, c) ==> n2 == n0[c := n0[c].(nestable := b)])
    && (!b && IsNestable(classes, n0, c) ==>
          && n2[c].nest.None? && n2[c].innerAccess.None? && n2[c].innerName == "" && n2[c].localPrefix == ""
          && (forall e :: 0 <= e < |n2| ==> c !in n2[e].nestingClasses)
          && NamesKept(n0, n2, c, AnonymousSiblings(n0, c), LocalSiblings(n0, c)))
  }

  /** c's cache is dirty, every other cache is kept or invalidated, and every class invalidated has passed it
      on. */
  predicate NestableCaches(k0: seq<CacheState>, n2: seq<NodeState>, k2: seq<CacheState>, c: nat)
  {
    && |k0| == |n2| && |k2| == |n2| && c < |n2|
    && k2[c].potentialScoreDirty
    && (forall x :: 0 <= x < |k0| && x != c ==>
          k2[x] == k0[x] || (!k0[x].potentialScoreDirty && k2[x] == Dirty(k0[x])))
    && Cascaded(n2, k0, k2)
  }

  /** setNest(c, null) when b is false (n0, k0 to n1, k1), then the flag store and markPotentialScoreDirty
      (to n2, k2), give NestableSet. */
  lemma NestableStored(classes: seq<ClassFacts>, n0: seq<NodeState>, k0: seq<CacheState>, n1: seq<NodeState>,
                       k1: seq<CacheState>, n2: seq<NodeState>, k2: seq<CacheState>, c: nat, b: bool)
    requires |n0| == |classes| && |k0| == |classes| && c < |classes| && Linked(classes, n0)
    requires b || !SetNestApplies(classes, n0, c, None) ==> n1 == n0 && k1 == k0
    requires !b && SetNestApplies(classes, n0, c, None) ==>
      NestFacts(classes, n0, k0, n1, k1, c, None) && KeepsOthers(n0, n1, c)
    requires n2 == n1[c := n1[c].(nestable := b)]
    requires OnlyDirtied(k1, k2) && k2[c].potentialScoreDirty && Cascaded(n2, k1, k2)
    ensures NestableSet(classes, n0, k0, n2, k2, c, b)
  {
    var applies := !b && SetNestApplies(classes, n0, c, None);
    if applies {
      assert NestLinks(n0, n1, c, None) && NestOwnFields(classes, k0, n1, k1, c, None);
    }
    NestableNodesStored(classes, n0, n1, n2, c, b, applies);
    NestableCachesStored(n0, k0, n1, k1, n2, k2, c, applies);
  }

  lemma NestableNodesStored(classes: seq<ClassFacts>, n0: seq<NodeState>, n1: seq<NodeState>, n2: seq<NodeState>,
                            c: nat, b: bool, applies: bool)
    requires |n0| == |classes| && c < |classes| && (applies <==> !b && IsNestable(classes, n0, c))
    requires !applies ==> n1 == n0
    requires applies ==> NestLinks(n0, n1, c, None)
    requires applies ==> n1[c].innerAccess.None? && n1[c].innerName == "" && n1[c].localPrefix == ""
    requires applies ==> n1[c].simpleName == n0[c].simpleName
    requires n2 == n1[c := n1[c].(nestable := b)]
    ensures NestableNodes(classes, n0, n2, c, b)
  {
    if applies {
      assert AnonymousSiblings(n1, c) == [] && LocalSiblings(n1, c) == [];
      assert AnonymousSiblings(n0, c) + AnonymousSiblings(n1, c) == AnonymousSiblings(n0, c);
      assert LocalSiblings(n0, c) + LocalSiblings(n1, c) == LocalSiblings(n0, c);
    }
  }

  lemma NestableCachesStored(n0: seq<NodeState>, k0: seq<CacheState>, n1: seq<NodeState>, k1: seq<CacheState>,
                             n2: seq<NodeState>, k2: seq<CacheState>, c: nat, applies: bool)
    requires |k0| == |n0| && c < |n0|
    requires !applies ==> n1 == n0 && k1 == k0
    requires applies ==> NestCaches(n0, k0, n1, k1, c, None)
    requires |n2| == |n1| && forall x :: 0 <= x < |n1| ==> n2[x].nest == n1[x].nest && n2[x].nestingClasses == n1[x].nestingClasses
    requires OnlyDirtied(k1, k2) && k2[c].potentialScoreDirty && Cascaded(n2, k1, k2)
    ensures NestableCaches(k0, n2, k2, c)
  {
    forall x | 0 <= x < |n2| && !k0[x].potentialScoreDirty && k2[x].potentialScoreDirty
      ensures NeighboursDirty(n2, k2, x)
    {
      if k1[x].potentialScoreDirty {
        assert NeighboursDirty(n1, k1, x);
        forall y | 0 <= y < |k1| && k1[y].potentialScoreDirty ensures k2[y].potentialScoreDirty {
          DirtyStays(k1, k2, y);
        }
      }
    }
  }

  class ClassEnv {
    const classes: seq<ClassFacts>
    var nodes: seq<NodeState>
    var caches: seq<CacheState>

    function State(): Env
      reads this
    {
      Env(classes, nodes, caches)
    }

    ghost predicate Valid()
      reads this
    {
      EnvOk(State()) && NestedAreNestable(nodes)
    }

    constructor (classes: seq<ClassFacts>, nodes: seq<NodeState>, caches: seq<CacheState>)
      requires EnvOk(Env(classes, nodes, caches)) && NestedAreNestable(nodes)
      ensures Valid() && this.classes == classes && this.nodes == nodes && this.caches == caches
    {
      this.classes := classes;
      this.nodes := nodes;
      this.caches := caches;
    }

    /** markPotentialScoreDirty: stop at a class that is already dirty; otherwise invalidate it and pass the
        invalidation on to its enclosing class and to every class nested into it. */
    method MarkPotentialScoreDirty(c: nat)
      requires NodeShape(classes, nodes) && |caches| == |classes| && c < |classes|
      modifies this
      ensures nodes == old(nodes) && OnlyDirtied(old(caches), caches)
      ensures caches[c].potentialScoreDirty
      ensures old(caches[c].potentialScoreDirty) ==> caches == old(caches)
      ensures !old(caches[c].potentialScoreDirty) ==> caches[c] == Dirty(old(caches[c]))
      ensures Cascaded(nodes, old(caches), caches)
      ensures DirtiedFrom(nodes, old(caches), caches, c)
      decreases CleanCount(caches)
    {
      if caches[c].potentialScoreDirty {
        return;
      }
      caches := caches[c := Dirty(caches[c])];
      CleanCountDrops(old(caches), caches, c);
      ghost var mid := caches;
      DirtiedOne(nodes, old(caches), c);
      if nodes[c].nest.Some? {
        MarkPotentialScoreDirty(EnclosingClass(nodes[c].nest.value));
        OnlyDirtiedTrans(old(caches), mid, caches);
        CleanCountMonotone(mid, caches);
        DirtiedFromTrans(nodes, old(caches), mid, caches, c, c, EnclosingClass(nodes[c].nest.value));
      }
      var todo := nodes[c].nestingClasses;
      while todo != {}
        invariant nodes == old(nodes) && todo <= nodes[c].nestingClasses
        invariant OnlyDirtied(mid, caches) && OnlyDirtied(old(caches), caches)
        invariant CleanCount(caches) <= CleanCount(mid)
        invariant caches[c].potentialScoreDirty
        invariant nodes[c].nest.Some? ==> caches[EnclosingClass(nodes[c].nest.value)].potentialScoreDirty
        invariant forall y :: y in nodes[c].nestingClasses && y !in todo ==> caches[y].potentialScoreDirty
        invariant Cascaded(nodes, mid, caches)
        invariant DirtiedFrom(nodes, old(caches), caches, c)
        decreases todo
      {
        var y :| y in todo;
        ghost var pre := caches;
        assert Newly(old(caches), pre, c);
        MarkPotentialScoreDirty(y);
        DirtiedFromTrans(nodes, old(caches), pre, caches, c, c, y);
        OnlyDirtiedTrans(mid, pre, caches);
        OnlyDirtiedTrans(old(caches), pre, caches);
        CleanCountMonotone(pre, caches);
        CascadedTrans(nodes, mid, pre, caches);
        todo := todo - {y};
      }
      assert NeighboursDirty(nodes, caches, c);
    }

    /** updateAnonymousClassNames: number the anonymous children of e "1", "2", ... in sibling order. */
    method UpdateAnonymousClassNames(e: nat)
      requires e < |nodes| && SiblingListOk(nodes, nodes[e].anonymousClasses)
      modifies this
      ensures RenamedAnonymous(old(nodes), nodes, e) && caches == old(caches)
    {
      var l := nodes[e].anonymousClasses;
      var k := 0;
      while k < |l|
        invariant 0 <= k <= |l| && caches == old(caches)
        invariant NumberedUpTo(old(nodes), nodes, l, false, k)
      {
        NumberStep(old(nodes), nodes, l, false, k);
        nodes := nodes[l[k] := nodes[l[k]].(innerName := NatToString(k + 1))];
        k := k + 1;
      }
    }

    /** updateLocalClassNames: give the local children of e the prefixes "1", "2", ... in sibling order. */
    method UpdateLocalClassNames(e: nat)
      requires e < |nodes| && SiblingListOk(nodes, nodes[e].localClasses)
      modifies this
      ensures RenamedLocal(old(nodes), nodes, e) && caches == old(caches)
    {
      var l := nodes[e].localClasses;
      var k := 0;
      while k < |l|
        invariant 0 <= k <= |l| && caches == old(caches)
        invariant NumberedUpTo(old(nodes), nodes, l, true, k)
      {
        NumberStep(old(nodes), nodes, l, true, k);
        nodes := nodes[l[k] := nodes[l[k]].(localPrefix := NatToString(k + 1))];
        k := k + 1;
      }
    }

    /** The walk of hasStaticMembers over the class, with its early exits. */
    method ComputeStaticMembers(c: nat) returns (b: bool)
      requires FactsOk(classes) && NodeShape(classes, nodes) && c < |classes|
      ensures b == ComputeHasStaticMembers(classes, nodes, c)
    {
      var f := classes[c];
      assert ClassFactsOk(classes, c);
      if IsEnum(f) {
        return false;
      }
      var inner := f.innerClasses;
      while inner != {}
        invariant inner <= f.innerClasses
        invariant forall i :: i in f.innerClasses && i !in inner ==> !IsStaticAccess(classes[i].access)
        decreases inner
      {
        var i :| i in inner;
        if IsStaticAccess(classes[i].access) {
          return true;
        }
        inner := inner - {i};
      }
      var nested := nodes[c].nestingClasses;
      while nested != {}
        invariant nested <= nodes[c].nestingClasses
        invariant forall n :: n in nodes[c].nestingClasses && n !in nested ==> !IsActuallyStatic(classes, nodes, n)
        decreases nested
      {
        var n :| n in nested;
        if IsActuallyStatic(classes, nodes, n) {
          return true;
        }
        nested := nested - {n};
      }
      var k := 0;
      while k < |f.fields|
        invariant 0 <= k <= |f.fields|
        invariant forall j :: 0 <= j < k ==> !(f.fields[j].isStatic && !f.fields[j].isSynthetic && !f.fields[j].isFinal)
      {
        if f.fields[k].isStatic && !f.fields[k].isSynthetic && !f.fields[k].isFinal {
          return true;
        }
        k := k + 1;
      }
      k := 0;
      while k < |f.methods|
        invariant 0 <= k <= |f.methods|
        invariant forall j :: 0 <= j < k ==>
          !(f.methods[j].isStatic && !f.methods[j].isSynthetic && f.methods[j].name != "<clinit>")
      {
        if f.methods[k].isStatic && !f.methods[k].isSynthetic && f.methods[k].name != "<clinit>" {
          return true;
        }
        k := k + 1;
      }
      return false;
    }

    /** hasStaticMembers: the memo if present, else the walk, whose answer is memoised. */
    method HasStaticMembersMemo(c: nat) returns (b: bool)
      requires FactsOk(classes) && NodeShape(classes, nodes) && |caches| == |classes| && c < |classes|
      modifies this
      ensures b == HasStaticMembers(old(State()), c)
      ensures nodes == old(nodes) && caches == old(caches)[c := old(caches[c]).(hasStaticMembers := Some(b))]
    {
      if caches[c].hasStaticMembers.Some? {
        return caches[c].hasStaticMembers.value;
      }
      b := ComputeStaticMembers(c);
      caches := caches[c := caches[c].(hasStaticMembers := Some(b))];
    }

    /** The walk of isMethodArgType over the variables typed with the class, skipping those of synthetic
        methods and of constructors of anonymous classes. */
    method ComputeMethodArgType(c: nat) returns (b: bool)
      requires FactsOk(classes) && NodeShape(classes, nodes) && c < |classes|
      ensures b == ComputeIsMethodArgType(classes, nodes, c)
    {
      var refs := classes[c].argTypeRefs;
      assert ClassFactsOk(classes, c);
      var k := 0;
      while k < |refs|
        invariant 0 <= k <= |refs|
        invariant forall j :: 0 <= j < k ==> !CountsAsArgTypeRef(classes, nodes, refs[j])
      {
        var r := refs[k];
        var m := MethodOf(classes, r);
        k := k + 1;
        if m.isSynthetic {
          continue;
        }
        if m.name == "<init>" {
          var nest := nodes[r.cls].nest;
          if nest.Some? && nest.value.nestType == ANONYMOUS {
            continue;
          }
        }
        return true;
      }
      return false;
    }

    /** isMethodArgType: the memo if present, else the walk, whose answer is memoised. */
    method IsMethodArgTypeMemo(c: nat) returns (b: bool)
      requires FactsOk(classes) && NodeShape(classes, nodes) && |caches| == |classes| && c < |classes|
      modifies this
      ensures b == IsMethodArgType(old(State()), c)
      ensures nodes == old(nodes) && caches == old(caches)[c := old(caches[c]).(isMethodArgType := Some(b))]
    {
      if caches[c].isMethodArgType.Some? {
        return caches[c].isMethodArgType.value;
      }
      b := ComputeMethodArgType(c);
      caches := caches[c := caches[c].(isMethodArgType := Some(b))];
    }

    /** removeAnonymousClass: c leaves the anonymous list of e, which is then renumbered. */
    method RemoveAnonymousClass(e: nat, c: nat)
      requires c < |nodes| && nodes[c].nest.Some? && IsAnonymousNest(nodes[c].nest.value)
      requires EnclosingClass(nodes[c].nest.value) == e
      requires Stage(classes, nodes, {c}, {}, {}, {e}, {})
      modifies this
      ensures Stage(classes, nodes, {c}, {c}, {c}, {}, {})
      ensures BookkeepingOnly(old(nodes), nodes) && SameNesting(old(nodes), nodes) && caches == old(caches)
      ensures nodes[c].innerAccess == old(nodes[c].innerAccess) && nodes[c].innerName == old(nodes[c].innerName)
      ensures nodes[c].localPrefix == old(nodes[c].localPrefix)
      ensures NamesKept(old(nodes), nodes, c, old(nodes[e].anonymousClasses), [])
    {
      DetachAnonymousStep(classes, nodes, c, {c}, {}, {e}, {});
      ghost var n0 := nodes;
      BookkeepingAt(nodes, e, nodes[e].(anonymousClasses := SiblingRemove(nodes[e].anonymousClasses, c)));
      nodes := nodes[e := nodes[e].(anonymousClasses := SiblingRemove(nodes[e].anonymousClasses, c))];
      ghost var n1 := nodes;
      assert c !in n1[e].anonymousClasses;
      SortedListOk(classes, nodes, e);
      UpdateAnonymousClassNames(e);
      RenameAnonymousStep(classes, n1, nodes, e, {c}, {c}, {}, {e}, {});
      RenamedAnonymousBookkeeping(n1, nodes, e);
      BookkeepingTrans(n0, n1, nodes);
      NotLocalFree(nodes, c);
      AnonymousEditNames(n0, nodes, e, n1[e].anonymousClasses, c, n0[e].anonymousClasses);
    }

    /** removeLocalClass: c leaves the local list of e, which is then renumbered. */
    method RemoveLocalClass(e: nat, c: nat)
      requires c < |nodes| && nodes[c].nest.Some? && IsLocalNest(nodes[c].nest.value)
      requires EnclosingClass(nodes[c].nest.value) == e
      requires Stage(classes, nodes, {c}, {}, {}, {}, {e})
      modifies this
      ensures Stage(classes, nodes, {c}, {c}, {c}, {}, {})
      ensures BookkeepingOnly(old(nodes), nodes) && SameNesting(old(nodes), nodes) && caches == old(caches)
      ensures nodes[c].innerAccess == old(nodes[c].innerAccess) && nodes[c].innerName == old(nodes[c].innerName)
      ensures nodes[c].localPrefix == old(nodes[c].localPrefix)
      ensures NamesKept(old(nodes), nodes, c, [], old(nodes[e].localClasses))
    {
      DetachLocalStep(classes, nodes, c, {c}, {}, {}, {e});
      ghost var n0 := nodes;
      BookkeepingAt(nodes, e, nodes[e].(localClasses := SiblingRemove(nodes[e].localClasses, c)));
      nodes := nodes[e := nodes[e].(localClasses := SiblingRemove(nodes[e].localClasses, c))];
      ghost var n1 := nodes;
      assert c !in n1[e].localClasses;
      SortedListOk(classes, nodes, e);
      UpdateLocalClassNames(e);
      RenameLocalStep(classes, n1, nodes, e, {c}, {}, {c}, {}, {e});
      RenamedLocalBookkeeping(n1, nodes, e);
      BookkeepingTrans(n0, n1, nodes);
      NotAnonymousFree(nodes, c);
      LocalEditNames(n0, nodes, e, n1[e].localClasses, c, n0[e].localClasses);
    }

    /** addAnonymousClass: c joins the anonymous list of e in sibling order, and the list is renumbered. */
    method AddAnonymousClass(e: nat, c: nat)
      requires c < |nodes| && nodes[c].nest.Some? && IsAnonymousNest(nodes[c].nest.value)
      requires EnclosingClass(nodes[c].nest.value) == e
      requires Stage(classes, nodes, {}, {c}, {c}, {}, {})
      modifies this
      ensures GraphOk(classes, nodes)
      ensures BookkeepingOnly(old(nodes), nodes) && SameNesting(old(nodes), nodes) && caches == old(caches)
      ensures nodes[c].innerAccess == old(nodes[c].innerAccess) && nodes[c].localPrefix == old(nodes[c].localPrefix)
      ensures NamesKept(old(nodes), nodes, c, nodes[e].anonymousClasses, [])
    {
      AttachAnonymousStep(classes, nodes, c, {}, {c}, {}, {});
      ghost var n0 := nodes;
      BookkeepingAt(nodes, e, nodes[e].(anonymousClasses := SiblingInsert(classes, nodes[e].anonymousClasses, c)));
      nodes := nodes[e := nodes[e].(anonymousClasses := SiblingInsert(classes, nodes[e].anonymousClasses, c))];
      ghost var n1 := nodes;
      SortedListOk(classes, nodes, e);
      UpdateAnonymousClassNames(e);
      RenameAnonymousStep(classes, n1, nodes, e, {}, {}, {c}, {e}, {});
      RenamedAnonymousBookkeeping(n1, nodes, e);
      BookkeepingTrans(n0, n1, nodes);
      NotLocalFree(nodes, c);
      GraphOkIsStage(classes, nodes);
      AnonymousEditNames(n0, nodes, e, n1[e].anonymousClasses, c, n1[e].anonymousClasses);
    }

    /** addLocalClass: c joins the local list of e in sibling order, and the list is renumbered. */
    method AddLocalClass(e: nat, c: nat)
      requires c < |nodes| && nodes[c].nest.Some? && IsLocalNest(nodes[c].nest.value)
      requires EnclosingClass(nodes[c].nest.value) == e
      requires Stage(classes, nodes, {}, {c}, {c}, {}, {})
      modifies this
      ensures GraphOk(classes, nodes)
      ensures BookkeepingOnly(old(nodes), nodes) && SameNesting(old(nodes), nodes) && caches == old(caches)
      ensures nodes[c].innerAccess == old(nodes[c].innerAccess) && nodes[c].innerName == old(nodes[c].innerName)
      ensures NamesKept(old(nodes), nodes, c, [], nodes[e].localClasses)
    {
      AttachLocalStep(classes, nodes, c, {}, {c}, {}, {});
      ghost var n0 := nodes;
      BookkeepingAt(nodes, e, nodes[e].(localClasses := SiblingInsert(classes, nodes[e].localClasses, c)));
      nodes := nodes[e := nodes[e].(localClasses := SiblingInsert(classes, nodes[e].localClasses, c))];
      ghost var n1 := nodes;
      SortedListOk(classes, nodes, e);
      UpdateLocalClassNames(e);
      RenameLocalStep(classes, n1, nodes, e, {}, {c}, {}, {}, {e});
      RenamedLocalBookkeeping(n1, nodes, e);
      BookkeepingTrans(n0, n1, nodes);
      NotAnonymousFree(nodes, c);
      GraphOkIsStage(classes, nodes);
      LocalEditNames(n0, nodes, e, n1[e].localClasses, c, n1[e].localClasses);
    }

    /** The end of setNest's detach: an anonymous class leaves the anonymous list of e, a local class the local
        list, and any other class is in neither. */
    method LeaveSiblingList(e: nat, c: nat)
      requires c < |nodes| && nodes[c].nest.Some? && EnclosingClass(nodes[c].nest.value) == e
      requires Stage(classes, nodes, {c}, {}, {}, AnonymousPending(nodes, c), LocalPending(nodes, c))
      modifies this
      ensures Stage(classes, nodes, {c}, {c}, {c}, {}, {})
      ensures BookkeepingOnly(old(nodes), nodes) && SameNesting(old(nodes), nodes) && caches == old(caches)
      ensures nodes[c].innerAccess == old(nodes[c].innerAccess) && nodes[c].innerName == old(nodes[c].innerName)
      ensures nodes[c].localPrefix == old(nodes[c].localPrefix)
      ensures NamesKept(old(nodes), nodes, c, AnonymousSiblings(old(nodes), c), LocalSiblings(old(nodes), c))
    {
      var nest := nodes[c].nest.value;
      if nest.nestType == ANONYMOUS {
        RemoveAnonymousClass(e, c);
      }
      if nest.nestType == INNER {
        if nest.subject.Meth? {
          RemoveLocalClass(e, c);
        }
      }
      if !IsAnonymousNest(nest) && !IsLocalNest(nest) {
        NotAnonymousFree(nodes, c);
        NotLocalFree(nodes, c);
        NamesKeptWiden(old(nodes), nodes, c, [], [], AnonymousSiblings(old(nodes), c), LocalSiblings(old(nodes), c));
      }
    }

    /** The end of setNest's attach: an anonymous class joins the anonymous list of e, a local class the local
        list, and any other class neither. */
    method JoinSiblingList(e: nat, c: nat)
      requires c < |nodes| && nodes[c].nest.Some? && EnclosingClass(nodes[c].nest.value) == e
      requires Stage(classes, nodes, {}, {c}, {c}, {}, {})
      modifies this
      ensures GraphOk(classes, nodes)
      ensures BookkeepingOnly(old(nodes), nodes) && SameNesting(old(nodes), nodes) && caches == old(caches)
      ensures nodes[c].innerAccess == old(nodes[c].innerAccess)
      ensures !IsAnonymousNest(nodes[c].nest.value) ==> nodes[c].innerName == old(nodes[c].innerName)
      ensures !IsLocalNest(nodes[c].nest.value) ==> nodes[c].localPrefix == old(nodes[c].localPrefix)
      ensures NamesKept(old(nodes), nodes, c, AnonymousSiblings(nodes, c), LocalSiblings(nodes, c))
    {
      var nest := nodes[c].nest.value;
      if nest.nestType == ANONYMOUS {
        AddAnonymousClass(e, c);
        AttachedNames(old(nodes), old(nodes), nodes, c, e);
      }
      if nest.nestType == INNER {
        if nest.subject.Meth? {
          AddLocalClass(e, c);
          AttachedNames(old(nodes), old(nodes), nodes, c, e);
        }
      }
      if !IsAnonymousNest(nest) && !IsLocalNest(nest) {
        NotAnonymousFree(nodes, c);
        NotLocalFree(nodes, c);
        GraphOkIsStage(classes, nodes);
        NamesKeptWiden(old(nodes), nodes, c, [], [], AnonymousSiblings(nodes, c), LocalSiblings(nodes, c));
      }
    }

    /** The first half of setNest: take c, whose inner access and names were just cleared, out of the nesting
        set and sibling list of its enclosing class, and invalidate that class. */
    method DetachOld(c: nat)
      requires |caches| == |classes| && c < |nodes|
      requires Stage(classes, nodes, {}, {}, {}, AnonymousPending(nodes, c), LocalPending(nodes, c))
      modifies this
      ensures Stage(classes, nodes, {c}, {c}, {c}, {}, {})
      ensures BookkeepingOnly(old(nodes), nodes)
      ensures nodes[c].innerAccess == old(nodes[c].innerAccess) && nodes[c].innerName == old(nodes[c].innerName)
      ensures nodes[c].localPrefix == old(nodes[c].localPrefix)
      ensures OnlyDirtied(old(caches), caches) && Cascaded(nodes, old(caches), caches)
      ensures old(nodes[c].nest).Some? ==> caches[EnclosingClass(old(nodes[c].nest).value)].potentialScoreDirty
      ensures NamesKept(old(nodes), nodes, c, AnonymousSiblings(old(nodes), c), LocalSiblings(old(nodes), c))
    {
      if nodes[c].nest.None? {
        NoNestFree(nodes, c);
        NotAnonymousFree(nodes, c);
        NotLocalFree(nodes, c);
        return;
      }
      var nest := nodes[c].nest.value;
      var e := EnclosingClass(nest);
      DetachNestingStep(classes, nodes, c, {}, {}, {}, AnonymousPending(nodes, c), LocalPending(nodes, c));
      BookkeepingAt(nodes, e, nodes[e].(nestingClasses := nodes[e].nestingClasses - {c}));
      nodes := nodes[e := nodes[e].(nestingClasses := nodes[e].nestingClasses - {c})];
      MarkPotentialScoreDirty(e);
      ghost var n1 := nodes;
      NestingEditNames(old(nodes), e, n1[e].nestingClasses, c);
      LeaveSiblingList(e, c);
      BookkeepingTrans(old(nodes), n1, nodes);
      NamesKeptAfter(old(nodes), n1, nodes, c, AnonymousSiblings(n1, c), LocalSiblings(n1, c));
      BookkeepingKeeps(n1, nodes, c);
      CascadedKeep(n1, nodes, old(caches), caches, caches);
    }

    /** The second half of setNest: put c, whose nest was just set, into the nesting set and sibling list of its
        new enclosing class, and invalidate that class. */
    method AttachNew(c: nat)
      requires |caches| == |classes| && c < |nodes|
      requires Stage(classes, nodes, {c}, {c}, {c}, {}, {})
      modifies this
      ensures GraphOk(classes, nodes)
      ensures BookkeepingOnly(old(nodes), nodes)
      ensures nodes[c].innerAccess == old(nodes[c].innerAccess)
      ensures nodes[c].nest.None? || !IsAnonymousNest(nodes[c].nest.value) ==> nodes[c].innerName == old(nodes[c].innerName)
      ensures nodes[c].nest.None? || !IsLocalNest(nodes[c].nest.value) ==> nodes[c].localPrefix == old(nodes[c].localPrefix)
      ensures OnlyDirtied(old(caches), caches) && Cascaded(nodes, old(caches), caches)
      ensures nodes[c].nest.Some? ==> caches[EnclosingClass(nodes[c].nest.value)].potentialScoreDirty
      ensures forall x :: 0 <= x < |nodes| ==> nodes[x].nestingClasses <= old(nodes[x].nestingClasses) + {c}
      ensures NamesKept(old(nodes), nodes, c, AnonymousSiblings(nodes, c), LocalSiblings(nodes, c))
    {
      if nodes[c].nest.None? {
        NoNestFree(nodes, c);
        NotAnonymousFree(nodes, c);
        NotLocalFree(nodes, c);
        GraphOkIsStage(classes, nodes);
        return;
      }
      var nest := nodes[c].nest.value;
      var e := EnclosingClass(nest);
      AttachNestingStep(classes, nodes, c, {c}, {c}, {}, {});
      BookkeepingAt(nodes, e, nodes[e].(nestingClasses := nodes[e].nestingClasses + {c}));
      nodes := nodes[e := nodes[e].(nestingClasses := nodes[e].nestingClasses + {c})];
      MarkPotentialScoreDirty(e);
      ghost var n1 := nodes;
      NestingEditNames(old(nodes), e, n1[e].nestingClasses, c);
      JoinSiblingList(e, c);
      BookkeepingTrans(old(nodes), n1, nodes);
      NamesKeptAfter(old(nodes), n1, nodes, c, AnonymousSiblings(nodes, c), LocalSiblings(nodes, c));
      BookkeepingKeeps(n1, nodes, c);
      CascadedKeep(n1, nodes, old(caches), caches, caches);
      NestingGrows(old(nodes), nodes, e, c);
    }

    /** The start of setNest once its guards pass: clear c's inner access and names, then detach c from its
        old enclosing class. */
    method ClearAndDetach(c: nat)
      requires GraphOk(classes, nodes) && |caches| == |classes| && c < |nodes|
      modifies this
      ensures Stage(classes, nodes, {c}, {c}, {c}, {}, {})
      ensures SameNests(old(nodes), nodes) && KeepsOthers(old(nodes), nodes, c)
      ensures nodes[c].innerAccess.None? && nodes[c].innerName == "" && nodes[c].localPrefix == ""
      ensures OnlyDirtied(old(caches), caches) && Cascaded(nodes, old(caches), caches)
      ensures old(nodes[c].nest).Some? ==> caches[EnclosingClass(old(nodes[c].nest).value)].potentialScoreDirty
      ensures NamesKept(old(nodes), nodes, c, AnonymousSiblings(old(nodes), c), LocalSiblings(old(nodes), c))
    {
      ResetStep(classes, nodes, c);
      OwnFieldsSiblings(nodes, c, nodes[c].(innerAccess := None, innerName := "", localPrefix := ""));
      nodes := nodes[c := nodes[c].(innerAccess := None, innerName := "", localPrefix := "")];
      ghost var n1 := nodes;
      DetachOld(c);
      BookkeepingKeeps(n1, nodes, c);
      KeepsOthersTrans(old(nodes), n1, nodes, c);
      NamesKeptAfter(old(nodes), n1, nodes, c, AnonymousSiblings(n1, c), LocalSiblings(n1, c));
    }

    /** The middle of setNest: set the nest and attach c to its new enclosing class. */
    method SetAndAttach(c: nat, n: Option<Nest>, ghost s0: seq<NodeState>)
      requires Stage(classes, nodes, {c}, {c}, {c}, {}, {}) && |caches| == |classes| && c < |nodes| && classes[c].isReal
      requires Linked(classes, s0) && SameNests(s0, nodes)
      requires n.Some? ==>
        (ValidSubject(classes, n.value.subject) && EnclosingClass(n.value) != c &&
         !Encloses(classes, s0, c, Cls(EnclosingClass(n.value))))
      modifies this
      ensures GraphOk(classes, nodes) && nodes[c].nest == n
      ensures KeepsOthers(old(nodes), nodes, c) && nodes[c].innerAccess == old(nodes[c].innerAccess)
      ensures n.None? || !IsAnonymousNest(n.value) ==> nodes[c].innerName == old(nodes[c].innerName)
      ensures n.None? || !IsLocalNest(n.value) ==> nodes[c].localPrefix == old(nodes[c].localPrefix)
      ensures OnlyDirtied(old(caches), caches) && Cascaded(nodes, old(caches), caches)
      ensures n.Some? ==> caches[EnclosingClass(n.value)].potentialScoreDirty
      ensures forall x :: 0 <= x < |nodes| ==> nodes[x].nestingClasses <= old(nodes[x].nestingClasses) + {c}
      ensures NamesKept(old(nodes), nodes, c, AnonymousSiblings(nodes, c), LocalSiblings(nodes, c))
    {
      NestStep(classes, s0, nodes, c, n, {}, {});
      OwnFieldsNames(nodes, c, nodes[c].(nest := n));
      nodes := nodes[c := nodes[c].(nest := n)];
      ghost var n1 := nodes;
      AttachNew(c);
      BookkeepingKeeps(n1, nodes, c);
      KeepsOthersTrans(old(nodes), n1, nodes, c);
      NamesKeptAfter(old(nodes), n1, nodes, c, AnonymousSiblings(nodes, c), LocalSiblings(nodes, c));
    }

    /** The middle of setNest: set the nest, attach c to its new enclosing class and invalidate c. */
    method AttachAndMark(c: nat, n: Option<Nest>, ghost s0: seq<NodeState>)
      requires Stage(classes, nodes, {c}, {c}, {c}, {}, {}) && |caches| == |classes| && c < |nodes| && classes[c].isReal
      requires Linked(classes, s0) && SameNests(s0, nodes)
      requires n.Some? ==>
        (ValidSubject(classes, n.value.subject) && EnclosingClass(n.value) != c &&
         !Encloses(classes, s0, c, Cls(EnclosingClass(n.value))))
      modifies this
      ensures GraphOk(classes, nodes) && nodes[c].nest == n
      ensures KeepsOthers(old(nodes), nodes, c) && nodes[c].innerAccess == old(nodes[c].innerAccess)
      ensures n.None? || !IsAnonymousNest(n.value) ==> nodes[c].innerName == old(nodes[c].innerName)
      ensures n.None? || !IsLocalNest(n.value) ==> nodes[c].localPrefix == old(nodes[c].localPrefix)
      ensures OnlyDirtied(old(caches), caches) && caches[c].potentialScoreDirty && Cascaded(nodes, old(caches), caches)
      ensures n.Some? ==> caches[EnclosingClass(n.value)].potentialScoreDirty
      ensures forall x :: 0 <= x < |nodes| ==> nodes[x].nestingClasses <= old(nodes[x].nestingClasses) + {c}
      ensures NamesKept(old(nodes), nodes, c, AnonymousSiblings(nodes, c), LocalSiblings(nodes, c))
    {
      SetAndAttach(c, n, s0);
      ghost var k1 := caches;
      MarkPotentialScoreDirty(c);
      OnlyDirtiedTrans(old(caches), k1, caches);
      CascadedTrans(nodes, old(caches), k1, caches);
    }

    /** The bookkeeping of setNest: c leaves its old enclosing class and joins the new one, and the classes
        involved are invalidated. */
    method Relink(c: nat, n: Option<Nest>)
      requires GraphOk(classes, nodes) && |caches| == |classes| && c < |nodes| && classes[c].isReal
      requires n.Some? ==>
        (ValidSubject(classes, n.value.subject) && EnclosingClass(n.value) != c &&
         !Encloses(classes, nodes, c, Cls(EnclosingClass(n.value))))
      modifies this
      ensures GraphOk(classes, nodes) && nodes[c].nest == n && KeepsOthers(old(nodes), nodes, c)
      ensures nodes[c].innerAccess.None?
      ensures n.None? || !IsAnonymousNest(n.value) ==> nodes[c].innerName == ""
      ensures n.None? || !IsLocalNest(n.value) ==> nodes[c].localPrefix == ""
      ensures OnlyDirtied(old(caches), caches) && caches[c].potentialScoreDirty && Cascaded(nodes, old(caches), caches)
      ensures old(nodes[c].nest).Some? ==> caches[EnclosingClass(old(nodes[c].nest).value)].potentialScoreDirty
      ensures n.Some? ==> caches[EnclosingClass(n.value)].potentialScoreDirty
      ensures NamesKept(old(nodes), nodes, c, AnonymousSiblings(old(nodes), c) + AnonymousSiblings(nodes, c),
        LocalSiblings(old(nodes), c) + LocalSiblings(nodes, c))
    {
      ghost var s0 := nodes;
      ghost var k0 := caches;
      ClearAndDetach(c);
      ghost var n1 := nodes;
      ghost var k1 := caches;
      AttachAndMark(c, n, s0);
      NamesKeptTrans(old(nodes), n1, nodes, c, AnonymousSiblings(old(nodes), c), LocalSiblings(old(nodes), c),
        AnonymousSiblings(nodes, c), LocalSiblings(nodes, c));
      OnlyDirtiedTrans(k0, k1, caches);
      RelinkCovered(n1, nodes, caches, c);
      CascadedCarry(n1, nodes, k0, k1, caches);
    }

    /** setInnerAccess: the access flags c has as an inner class of its nest, computed from `access`; for an
        inner nest the static-members memo of c is consulted (and filled). */
    method SetInnerAccess(c: nat, access: bv32)
      requires GraphOk(classes, nodes) && |caches| == |classes| && c < |nodes| && nodes[c].nest.Some?
      modifies this
      ensures GraphOk(classes, nodes) && |caches| == |classes|
      ensures var n := old(nodes[c].nest.value);
        nodes == old(nodes)[c := old(nodes[c]).(innerAccess := Some(InnerAccessBits(access, n.nestType,
          n.nestType == INNER && HasStaticMembers(old(State()), c), EnclosingMethodStatic(classes, n))))]
      ensures old(nodes[c].nest.value).nestType == INNER ==>
        caches == old(caches)[c := old(caches[c]).(hasStaticMembers := Some(HasStaticMembers(old(State()), c)))]
      ensures old(nodes[c].nest.value).nestType != INNER ==> caches == old(caches)
    {
      var n := nodes[c].nest.value;
      assert ValidSubject(classes, n.subject);
      var hasStatic := false;
      if n.nestType == INNER {
        hasStatic := HasStaticMembersMemo(c);
      }
      var bits := InnerAccessBits(access, n.nestType, hasStatic, EnclosingMethodStatic(classes, n));
      InnerStep(classes, nodes, c, Some(bits), nodes[c].innerName);
      nodes := nodes[c := nodes[c].(innerAccess := Some(bits))];
    }

    /** The end of setNest for a class that got a nest: its inner access from setInnerAccess and, for an inner
        nest, its inner name from its own class name. */
    method FinishNest(c: nat)
      requires GraphOk(classes, nodes) && |caches| == |classes| && c < |nodes| && nodes[c].nest.Some?
      modifies this
      ensures GraphOk(classes, nodes) && |caches| == |classes|
      ensures var n := old(nodes[c].nest.value);
        nodes == old(nodes)[c := old(nodes[c]).(
          innerAccess := Some(InnerAccessBits(classes[c].access, n.nestType,
            n.nestType == INNER && HasStaticMembers(old(State()), c), EnclosingMethodStatic(classes, n))),
          innerName := if n.nestType == INNER then GetInnerName(GetClassName(classes[c].name)) else old(nodes[c].innerName))]
      ensures |caches| == |old(caches)| && caches[c].potentialScoreDirty == old(caches[c].potentialScoreDirty)
      ensures old(nodes[c].nest.value).nestType == INNER ==> caches[c].hasStaticMembers == Some(HasStaticMembers(old(State()), c))
      ensures forall x :: 0 <= x < |caches| && x != c ==> caches[x] == old(caches[x])
    {
      SetInnerAccess(c, classes[c].access);
      if nodes[c].nest.value.nestType == INNER {
        ghost var n1 := nodes;
        InnerStep(classes, nodes, c, nodes[c].innerAccess, GetInnerName(GetClassName(classes[c].name)));
        nodes := nodes[c := nodes[c].(innerName := GetInnerName(GetClassName(classes[c].name)))];
        SetTwice(old(nodes), n1, nodes, c);
      }
    }

    /** setNest once its guards have passed. */
    method ApplyNest(c: nat, n: Option<Nest>)
      requires GraphOk(classes, nodes) && |caches| == |classes| && c < |nodes| && classes[c].isReal
      requires n.Some? ==>
        (ValidSubject(classes, n.value.subject) && EnclosingClass(n.value) != c &&
         !Encloses(classes, nodes, c, Cls(EnclosingClass(n.value))))
      modifies this
      ensures GraphOk(classes, nodes) && |caches| == |classes| && KeepsOthers(old(nodes), nodes, c)
      ensures NestSet(classes, old(nodes), old(caches), nodes, caches, c, n)
      ensures nodes[c].simpleName == old(nodes[c].simpleName)
    {
      Relink(c, n);
      ghost var n1 := nodes;
      ghost var k1 := caches;
      if n.Some? {
        FinishNest(c);
        assert k1[c] == if old(caches[c]).potentialScoreDirty then old(caches[c]) else Dirty(old(caches[c]));
      }
      ApplyNestDone(classes, old(nodes), old(caches), n1, k1, nodes, caches, c, n);
    }

    /** setNest: move c to the nest n (none for n = None). Nothing happens when c is not nestable or encloses
        the new enclosing class; otherwise c leaves the sets and lists of its old enclosing class, joins those of
        the new one, both are invalidated with c, and c gets its inner access and inner name afresh. */
    method SetNest(c: nat, n: Option<Nest>)
      requires EnvOk(State()) && c < |classes|
      requires n.Some? ==> ValidSubject(classes, n.value.subject) && EnclosingClass(n.value) != c
      modifies this
      ensures EnvOk(State()) && (NestedAreNestable(old(nodes)) ==> NestedAreNestable(nodes))
      ensures !SetNestApplies(classes, old(nodes), c, n) ==> nodes == old(nodes) && caches == old(caches)
      ensures SetNestApplies(classes, old(nodes), c, n) ==>
        && NestSet(classes, old(nodes), old(caches), nodes, caches, c, n)
        && KeepsOthers(old(nodes), nodes, c)
    {
      if !(nodes[c].nestable && classes[c].isReal) {
        return;
      }
      if n.Some? && Encloses(classes, nodes, c, Cls(EnclosingClass(n.value))) {
        return;
      }
      ApplyNest(c, n);
    }

    /** setNestable as written: the flag is stored first, so the setNest(null) that follows finds the class no
        longer nestable and does nothing; a class that had a nest keeps it. */
    method SetNestableAsWritten(c: nat, b: bool)
      requires Valid() && c < |classes|
      modifies this
      ensures EnvOk(State())
      ensures nodes == old(nodes)[c := old(nodes[c]).(nestable := b)]
      ensures OnlyDirtied(old(caches), caches) && caches[c].potentialScoreDirty && Cascaded(nodes, old(caches), caches)
      ensures !b && old(nodes[c].nest).Some? ==> !NestedAreNestable(nodes)
    {
      FlagsStep(classes, nodes, c, nodes[c].(nestable := b));
      nodes := nodes[c := nodes[c].(nestable := b)];
      if !b {
        SetNest(c, None);
      }
      MarkPotentialScoreDirty(c);
    }

    /** setNestable with the nest dropped before the flag is cleared: a class that is not nestable has no nest. */
    method SetNestable(c: nat, b: bool)
      requires Valid() && c < |classes|
      modifies this
      ensures Valid()
      ensures |nodes| == |old(nodes)| && nodes[c].nestable == b && (!b ==> nodes[c].nest.None?)
      ensures b ==> nodes == old(nodes)[c := old(nodes[c]).(nestable := true)]
      ensures forall x :: 0 <= x < |nodes| && x != c ==>
        nodes[x].nest == old(nodes[x].nest) && nodes[x].nestable == old(nodes[x].nestable)
      ensures forall x :: 0 <= x < |nodes| ==> nodes[x].simpleName == old(nodes[x].simpleName)
      ensures |caches| == |old(caches)| && caches[c].potentialScoreDirty
      ensures NestableSet(classes, old(nodes), old(caches), nodes, caches, c, b)
    {
      ghost var n0, k0 := nodes, caches;
      if !b {
        SetNest(c, None);
      }
      ghost var n1, k1 := nodes, caches;
      StoreNestable(c, b);
      NestableStored(classes, n0, k0, n1, k1, nodes, caches, c, b);
    }

    /** The flag store of setNestable and the potential-score invalidation after it. */
    method StoreNestable(c: nat, b: bool)
      requires EnvOk(State()) && c < |classes|
      modifies this
      ensures EnvOk(State())
      ensures nodes == old(nodes)[c := old(nodes[c]).(nestable := b)]
      ensures |caches| == |old(caches)| && caches[c].potentialScoreDirty
      ensures OnlyDirtied(old(caches), caches) && Cascaded(nodes, old(caches), caches)
    {
      FlagsStep(classes, nodes, c, nodes[c].(nestable := b));
      nodes := nodes[c := nodes[c].(nestable := b)];
      MarkPotentialScoreDirty(c);
    }

    /** setSimpleName: the name the class gets as an inner class, none for an anonymous one. */
    method SetSimpleName(c: nat, name: Option<string>)
      requires Valid() && c < |classes|
      modifies this
      ensures Valid()
      ensures nodes == old(nodes)[c := old(nodes[c]).(simpleName := name)] && caches == old(caches)
    {
      FlagsStep(classes, nodes, c, nodes[c].(simpleName := name));
      nodes := nodes[c := nodes[c].(simpleName := name)];
    }

    /** findHighestPotentialScore: 0 for a class that is not nestable or gets no ranking, else the score of the
        entry picked by the sort-and-scan over its ranking. */
    method FindHighestPotentialScore(c: nat) returns (score: int)
      requires Valid() && c < |classes|
      ensures score == PotentialScore(State(), c)
    {
      EnvOkIsReady(State());
      var g := RankView(State());
      if !(nodes[c].nestable && classes[c].isReal) {
        return 0;
      }
      var results := RankClass(g, c, None);
      if results == [] {
        return 0;
      }
      var best := SelectBest(results);
      score := best.score;
    }

    /** getHighestPotentialScore: a dirty cache is refilled from findHighestPotentialScore and marked clean; a
        clean one answers as stored. */
    method GetHighestPotentialScore(c: nat) returns (score: int)
      requires Valid() && c < |classes|
      modifies this
      ensures Valid() && nodes == old(nodes)
      ensures old(caches[c].potentialScoreDirty) ==>
        score == PotentialScore(old(State()), c) &&
        caches == old(caches)[c := old(caches[c]).(potentialScore := score, potentialScoreDirty := false)]
      ensures !old(caches[c].potentialScoreDirty) ==> score == old(caches[c].potentialScore) && caches == old(caches)
    {
      if caches[c].potentialScoreDirty {
        var s := FindHighestPotentialScore(c);
        caches := caches[c := caches[c].(potentialScore := s, potentialScoreDirty := false)];
      }
      score := caches[c].potentialScore;
    }

    /** hasPotentialNest: false for a class that is not nestable, true for one with a nest, else whether its
        highest potential score is positive. */
    method HasPotentialNest(c: nat) returns (b: bool)
      requires Valid() && c < |classes|
      modifies this
      ensures Valid() && nodes == old(nodes)
      ensures !IsNestable(classes, nodes, c) ==> !b && caches == old(caches)
      ensures IsNestable(classes, nodes, c) && nodes[c].nest.Some? ==> b && caches == old(caches)
      ensures IsNestable(classes, nodes, c) && nodes[c].nest.None? && old(caches[c].potentialScoreDirty) ==>
        && (b <==> PotentialScore(old(State()), c) > 0)
        && caches == old(caches)[c := old(caches[c]).(potentialScore := PotentialScore(old(State()), c), potentialScoreDirty := false)]
      ensures IsNestable(classes, nodes, c) && nodes[c].nest.None? && !old(caches[c].potentialScoreDirty) ==>
        (b <==> old(caches[c].potentialScore) > 0) && caches == old(caches)
    {
      if !(nodes[c].nestable && classes[c].isReal) {
        return false;
      }
      if nodes[c].nest.Some? {
        return true;
      }
      var score := GetHighestPotentialScore(c);
      b := score > 0;
    }
  }
}
