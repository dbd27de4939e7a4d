/** The intermediate states setNest passes through, and the lemmas that carry the nesting invariant across each
    of its edits: take the class out of its old enclosing class's sets, change the nest, put it into the new
    enclosing class's sets, renumber the siblings. */
module NestingSteps {
  import opened Wrappers
  import opened Nests
  import opened ClassNames
  import opened ClassGraph

  /** The invariant with holes: classes in dn / da / dl are taken out of the nesting sets / anonymous lists /
      local lists, and the anonymous names / local prefixes under the classes in pa / pl are stale. */
  ghost predicate Stage(classes: seq<ClassFacts>, nodes: seq<NodeState>,
                        dn: set<nat>, da: set<nat>, dl: set<nat>, pa: set<nat>, pl: set<nat>)
  {
    && Linked(classes, nodes)
    && ConsistentNesting(nodes, dn) && ConsistentAnonymous(nodes, da) && ConsistentLocal(nodes, dl)
    && SiblingsOrdered(classes, nodes)
    && AnonymousNamesOk(nodes, pa) && LocalPrefixesOk(nodes, pl)
    && CommittedNestsOk(classes, nodes)
  }

  lemma GraphOkIsStage(classes: seq<ClassFacts>, nodes: seq<NodeState>)
    ensures GraphOk(classes, nodes) <==> Stage(classes, nodes, {}, {}, {}, {}, {})
  {
  }

  // ---------------------------------------------------------------- which parts of the state an edit keeps

  predicate SameNests(n0: seq<NodeState>, n1: seq<NodeState>)
  {
    |n0| == |n1| && forall x :: 0 <= x < |n0| ==> n0[x].nest == n1[x].nest
  }

  predicate SameNesting(n0: seq<NodeState>, n1: seq<NodeState>)
  {
    |n0| == |n1| && forall x :: 0 <= x < |n0| ==> n0[x].nestingClasses == n1[x].nestingClasses
  }

  predicate SameAnonymous(n0: seq<NodeState>, n1: seq<NodeState>)
  {
    |n0| == |n1| && forall x :: 0 <= x < |n0| ==> n0[x].anonymousClasses == n1[x].anonymousClasses
  }

  predicate SameLocal(n0: seq<NodeState>, n1: seq<NodeState>)
  {
    |n0| == |n1| && forall x :: 0 <= x < |n0| ==> n0[x].localClasses == n1[x].localClasses
  }

  predicate SameNames(n0: seq<NodeState>, n1: seq<NodeState>)
  {
    |n0| == |n1| && forall x :: 0 <= x < |n0| ==> n0[x].innerName == n1[x].innerName
  }

  predicate SamePrefixes(n0: seq<NodeState>, n1: seq<NodeState>)
  {
    |n0| == |n1| && forall x :: 0 <= x < |n0| ==> n0[x].localPrefix == n1[x].localPrefix
  }

  /** Acyclicity only depends on the nests. */
  lemma AcyclicTransfer(classes: seq<ClassFacts>, n0: seq<NodeState>, n1: seq<NodeState>)
    requires |n0| == |classes| && Acyclic(classes, n0) && SameNests(n0, n1)
    ensures Acyclic(classes, n1)
  {
    var r := Ranks(classes, n0);
    forall x | 0 <= x < |classes| ensures AboveParents(classes, n1, r, x) {
      assert Parents(classes, n1, x) == Parents(classes, n0, x);
      assert AboveParents(classes, n0, r, x);
    }
    assert RankOk(classes, n1, r);
  }

  lemma LinkedTransfer(classes: seq<ClassFacts>, n0: seq<NodeState>, n1: seq<NodeState>)
    requires Linked(classes, n0)
    requires SameNests(n0, n1) && SameNesting(n0, n1) && SameAnonymous(n0, n1) && SameLocal(n0, n1)
    ensures Linked(classes, n1)
  {
    AcyclicTransfer(classes, n0, n1);
  }

  /** An edit that touches none of the parts the invariant reads keeps every stage. */
  lemma StageTransfer(classes: seq<ClassFacts>, n0: seq<NodeState>, n1: seq<NodeState>,
                      dn: set<nat>, da: set<nat>, dl: set<nat>, pa: set<nat>, pl: set<nat>)
    requires Stage(classes, n0, dn, da, dl, pa, pl)
    requires SameNests(n0, n1) && SameNesting(n0, n1) && SameAnonymous(n0, n1) && SameLocal(n0, n1)
    requires SameNames(n0, n1) && SamePrefixes(n0, n1)
    ensures Stage(classes, n1, dn, da, dl, pa, pl)
  {
    LinkedTransfer(classes, n0, n1);
    ConsistentTransfer(n0, n1, dn, da, dl);
    OrderTransfer(classes, n0, n1);
    NamesTransfer(n0, n1, pa);
    PrefixesTransfer(n0, n1, pl);
    CommittedTransfer(classes, n0, n1);
  }

  lemma ConsistentTransfer(n0: seq<NodeState>, n1: seq<NodeState>, dn: set<nat>, da: set<nat>, dl: set<nat>)
    requires SameNests(n0, n1) && SameNesting(n0, n1) && SameAnonymous(n0, n1) && SameLocal(n0, n1)
    requires ConsistentNesting(n0, dn) && ConsistentAnonymous(n0, da) && ConsistentLocal(n0, dl)
    ensures ConsistentNesting(n1, dn) && ConsistentAnonymous(n1, da) && ConsistentLocal(n1, dl)
  {
    NestingTransfer(n0, n1, dn);
    AnonymousTransfer(n0, n1, da);
    LocalTransfer(n0, n1, dl);
  }

  lemma NestingTransfer(n0: seq<NodeState>, n1: seq<NodeState>, d: set<nat>)
    requires SameNests(n0, n1) && SameNesting(n0, n1) && ConsistentNesting(n0, d)
    ensures ConsistentNesting(n1, d)
  {
    assert forall x, e :: 0 <= x < |n0| && 0 <= e < |n0| ==> (NestedInto(n1, x, e) <==> NestedInto(n0, x, e));
  }

  lemma AnonymousTransfer(n0: seq<NodeState>, n1: seq<NodeState>, d: set<nat>)
    requires SameNests(n0, n1) && SameAnonymous(n0, n1) && ConsistentAnonymous(n0, d)
    ensures ConsistentAnonymous(n1, d)
  {
    assert forall x, e :: 0 <= x < |n0| && 0 <= e < |n0| ==> (NestedInto(n1, x, e) <==> NestedInto(n0, x, e));
  }

  lemma LocalTransfer(n0: seq<NodeState>, n1: seq<NodeState>, d: set<nat>)
    requires SameNests(n0, n1) && SameLocal(n0, n1) && ConsistentLocal(n0, d)
    ensures ConsistentLocal(n1, d)
  {
    assert forall x, e :: 0 <= x < |n0| && 0 <= e < |n0| ==> (NestedInto(n1, x, e) <==> NestedInto(n0, x, e));
  }

  lemma OrderTransfer(classes: seq<ClassFacts>, n0: seq<NodeState>, n1: seq<NodeState>)
    requires |n0| == |classes| && SiblingsOrdered(classes, n0) && SameAnonymous(n0, n1) && SameLocal(n0, n1)
    ensures SiblingsOrdered(classes, n1)
  {
  }

  lemma NamesTransfer(n0: seq<NodeState>, n1: seq<NodeState>, pa: set<nat>)
    requires AnonymousNamesOk(n0, pa) && SameAnonymous(n0, n1) && SameNames(n0, n1)
    ensures AnonymousNamesOk(n1, pa)
  {
  }

  lemma PrefixesTransfer(n0: seq<NodeState>, n1: seq<NodeState>, pl: set<nat>)
    requires LocalPrefixesOk(n0, pl) && SameLocal(n0, n1) && SamePrefixes(n0, n1)
    ensures LocalPrefixesOk(n1, pl)
  {
  }

  lemma CommittedTransfer(classes: seq<ClassFacts>, n0: seq<NodeState>, n1: seq<NodeState>)
    requires |n0| == |classes| && CommittedNestsOk(classes, n0) && SameNests(n0, n1)
    ensures CommittedNestsOk(classes, n1)
  {
  }

  // ---------------------------------------------------------------- lists of siblings

  /** A sorted sibling list repeats no class. */
  lemma SortedDistinct(classes: seq<ClassFacts>, s: seq<nat>)
    requires InArena(classes, s) && SiblingSorted(classes, s)
    ensures forall i, j :: 0 <= i < j < |s| ==> s[i] != s[j]
  {
    forall i, j | 0 <= i < j < |s| ensures s[i] != s[j] {
      SiblingLessIsStrictTotal(classes[s[i]].name, classes[s[i]].name, classes[s[i]].name);
    }
  }

  /** updateAnonymousClassNames: the k-th anonymous child of e is renamed to k + 1; nothing else changes. */
  predicate RenamedAnonymous(n0: seq<NodeState>, n1: seq<NodeState>, e: nat)
    requires e < |n0|
  {
    var l := n0[e].anonymousClasses;
    && |n1| == |n0|
    && (forall k :: 0 <= k < |l| && l[k] < |n0| ==> n1[l[k]] == n0[l[k]].(innerName := NatToString(k + 1)))
    && (forall x :: 0 <= x < |n0| && x !in l ==> n1[x] == n0[x])
  }

  /** updateLocalClassNames: the k-th local child of e gets the prefix k + 1; nothing else changes. */
  predicate RenamedLocal(n0: seq<NodeState>, n1: seq<NodeState>, e: nat)
    requires e < |n0|
  {
    var l := n0[e].localClasses;
    && |n1| == |n0|
    && (forall k :: 0 <= k < |l| && l[k] < |n0| ==> n1[l[k]] == n0[l[k]].(localPrefix := NatToString(k + 1)))
    && (forall x :: 0 <= x < |n0| && x !in l ==> n1[x] == n0[x])
  }

  // ---------------------------------------------------------------- the edits of setNest

  /** The class whose anonymous numbering goes stale when c leaves its nest. */
  function AnonymousPending(nodes: seq<NodeState>, c: nat): set<nat>
    requires c < |nodes|
  {
    if nodes[c].nest.Some? && IsAnonymousNest(nodes[c].nest.value) then {EnclosingClass(nodes[c].nest.value)} else {}
  }

  /** The class whose local numbering goes stale when c leaves its nest. */
  function LocalPending(nodes: seq<NodeState>, c: nat): set<nat>
    requires c < |nodes|
  {
    if nodes[c].nest.Some? && IsLocalNest(nodes[c].nest.value) then {EnclosingClass(nodes[c].nest.value)} else {}
  }

  /** Clearing c's inner access, inner name and local prefix leaves only the numbering c takes part in stale. */
  lemma ResetStep(classes: seq<ClassFacts>, n0: seq<NodeState>, c: nat)
    requires GraphOk(classes, n0) && c < |n0|
    ensures Stage(classes, n0[c := n0[c].(innerAccess := None, innerName := "", localPrefix := "")],
                  {}, {}, {}, AnonymousPending(n0, c), LocalPending(n0, c))
  {
    var n1 := n0[c := n0[c].(innerAccess := None, innerName := "", localPrefix := "")];
    LinkedTransfer(classes, n0, n1);
    ConsistentTransfer(n0, n1, {}, {}, {});
    ResetKeepsNames(n0, c);
    ResetKeepsPrefixes(n0, c);
  }

  /** Clearing c's inner name only breaks the numbering of the class c is anonymous in. */
  lemma ResetKeepsNames(n0: seq<NodeState>, c: nat)
    requires c < |n0| && ConsistentAnonymous(n0, {}) && AnonymousNamesOk(n0, {})
    ensures AnonymousNamesOk(n0[c := n0[c].(innerAccess := None, innerName := "", localPrefix := "")], AnonymousPending(n0, c))
  {
    var n1 := n0[c := n0[c].(innerAccess := None, innerName := "", localPrefix := "")];
    forall e, k | 0 <= e < |n1| && e !in AnonymousPending(n0, c) && 0 <= k < |n1[e].anonymousClasses| &&
                  n1[e].anonymousClasses[k] < |n1|
      ensures n1[n1[e].anonymousClasses[k]].innerName == NatToString(k + 1)
    {
      var y := n0[e].anonymousClasses[k];
      assert y in n0[e].anonymousClasses;
      assert y != c;
    }
  }

  /** Clearing c's local prefix only breaks the numbering of the class c is local in. */
  lemma ResetKeepsPrefixes(n0: seq<NodeState>, c: nat)
    requires c < |n0| && ConsistentLocal(n0, {}) && LocalPrefixesOk(n0, {})
    ensures LocalPrefixesOk(n0[c := n0[c].(innerAccess := None, innerName := "", localPrefix := "")], LocalPending(n0, c))
  {
    var n1 := n0[c := n0[c].(innerAccess := None, innerName := "", localPrefix := "")];
    forall e, k | 0 <= e < |n1| && e !in LocalPending(n0, c) && 0 <= k < |n1[e].localClasses| &&
                  n1[e].localClasses[k] < |n1|
      ensures n1[n1[e].localClasses[k]].localPrefix == NatToString(k + 1)
    {
      var y := n0[e].localClasses[k];
      assert y in n0[e].localClasses;
      assert y != c;
    }
  }

  /** A class with no anonymous nest is in no anonymous list either way. */
  lemma NotAnonymousFree(nodes: seq<NodeState>, c: nat)
    requires c < |nodes| && (nodes[c].nest.None? || !IsAnonymousNest(nodes[c].nest.value))
    ensures ConsistentAnonymous(nodes, {c}) <==> ConsistentAnonymous(nodes, {})
  {
  }

  lemma NotLocalFree(nodes: seq<NodeState>, c: nat)
    requires c < |nodes| && (nodes[c].nest.None? || !IsLocalNest(nodes[c].nest.value))
    ensures ConsistentLocal(nodes, {c}) <==> ConsistentLocal(nodes, {})
  {
  }

  lemma NoNestFree(nodes: seq<NodeState>, c: nat)
    requires c < |nodes| && nodes[c].nest.None?
    ensures ConsistentNesting(nodes, {c}) <==> ConsistentNesting(nodes, {})
  {
    if ConsistentNesting(nodes, {c}) {
      forall e, x | 0 <= e < |nodes| && 0 <= x < |nodes|
        ensures x in nodes[e].nestingClasses <==> x !in {} && NestedInto(nodes, x, e)
      {
        assert x in nodes[e].nestingClasses <==> x !in {c} && NestedInto(nodes, x, e);
      }
    }
    if ConsistentNesting(nodes, {}) {
      forall e, x | 0 <= e < |nodes| && 0 <= x < |nodes|
        ensures x in nodes[e].nestingClasses <==> x !in {c} && NestedInto(nodes, x, e)
      {
        assert x in nodes[e].nestingClasses <==> x !in {} && NestedInto(nodes, x, e);
      }
    }
  }

  /** nestingClasses.remove: c leaves the nesting set of its enclosing class. */
  lemma DetachNestingStep(classes: seq<ClassFacts>, n0: seq<NodeState>, c: nat,
                          dn: set<nat>, da: set<nat>, dl: set<nat>, pa: set<nat>, pl: set<nat>)
    requires Stage(classes, n0, dn, da, dl, pa, pl) && c < |n0| && n0[c].nest.Some?
    ensures var e := EnclosingClass(n0[c].nest.value);
      e < |n0| && Stage(classes, n0[e := n0[e].(nestingClasses := n0[e].nestingClasses - {c})], dn + {c}, da, dl, pa, pl)
  {
    var e := EnclosingClass(n0[c].nest.value);
    var n1 := n0[e := n0[e].(nestingClasses := n0[e].nestingClasses - {c})];
    AcyclicTransfer(classes, n0, n1);
    assert SameNests(n0, n1) && SameAnonymous(n0, n1) && SameLocal(n0, n1);
    NestingEditDetach(n0, c, e, dn);
    AnonymousTransfer(n0, n1, da);
    LocalTransfer(n0, n1, dl);
    OrderTransfer(classes, n0, n1);
    NamesTransfer(n0, n1, pa);
    PrefixesTransfer(n0, n1, pl);
    CommittedTransfer(classes, n0, n1);
  }

  lemma NestingEditDetach(n0: seq<NodeState>, c: nat, e: nat, dn: set<nat>)
    requires ConsistentNesting(n0, dn) && c < |n0| && e < |n0| && NestedInto(n0, c, e)
    ensures ConsistentNesting(n0[e := n0[e].(nestingClasses := n0[e].nestingClasses - {c})], dn + {c})
  {
    var n1 := n0[e := n0[e].(nestingClasses := n0[e].nestingClasses - {c})];
    forall e', x | 0 <= e' < |n1| && 0 <= x < |n1|
      ensures x in n1[e'].nestingClasses <==> x !in (dn + {c}) && NestedInto(n1, x, e')
    {
      assert NestedInto(n1, x, e') == NestedInto(n0, x, e');
    }
  }

  lemma NestingEditAttach(n0: seq<NodeState>, c: nat, e: nat)
    requires ConsistentNesting(n0, {c}) && c < |n0| && e < |n0| && NestedInto(n0, c, e)
    ensures ConsistentNesting(n0[e := n0[e].(nestingClasses := n0[e].nestingClasses + {c})], {})
  {
    var n1 := n0[e := n0[e].(nestingClasses := n0[e].nestingClasses + {c})];
    forall e', x | 0 <= e' < |n1| && 0 <= x < |n1|
      ensures x in n1[e'].nestingClasses <==> x !in {} && NestedInto(n1, x, e')
    {
      assert NestedInto(n1, x, e') == NestedInto(n0, x, e');
    }
  }

  /** nestingClasses.add: c joins the nesting set of its enclosing class. */
  lemma AttachNestingStep(classes: seq<ClassFacts>, n0: seq<NodeState>, c: nat,
                          da: set<nat>, dl: set<nat>, pa: set<nat>, pl: set<nat>)
    requires Stage(classes, n0, {c}, da, dl, pa, pl) && c < |n0| && n0[c].nest.Some?
    ensures var e := EnclosingClass(n0[c].nest.value);
      e < |n0| && Stage(classes, n0[e := n0[e].(nestingClasses := n0[e].nestingClasses + {c})], {}, da, dl, pa, pl)
  {
    var e := EnclosingClass(n0[c].nest.value);
    var n1 := n0[e := n0[e].(nestingClasses := n0[e].nestingClasses + {c})];
    AcyclicTransfer(classes, n0, n1);
    assert SameNests(n0, n1) && SameAnonymous(n0, n1) && SameLocal(n0, n1);
    NestingEditAttach(n0, c, e);
    AnonymousTransfer(n0, n1, da);
    LocalTransfer(n0, n1, dl);
    OrderTransfer(classes, n0, n1);
    NamesTransfer(n0, n1, pa);
    PrefixesTransfer(n0, n1, pl);
    CommittedTransfer(classes, n0, n1);
  }

  // ---------------------------------------------------------------- replacing one sibling list

  lemma LinkedAfterListEdit(classes: seq<ClassFacts>, n0: seq<NodeState>, n1: seq<NodeState>, e: nat)
    requires Linked(classes, n0) && e < |n0| && |n1| == |n0|
    requires InArena(classes, n1[e].anonymousClasses) && InArena(classes, n1[e].localClasses)
    requires forall x :: 0 <= x < |n0| && x != e ==> n1[x] == n0[x]
    requires n1[e] == n0[e].(anonymousClasses := n1[e].anonymousClasses, localClasses := n1[e].localClasses)
    ensures Linked(classes, n1)
  {
    assert SameNests(n0, n1);
    AcyclicTransfer(classes, n0, n1);
  }

  lemma OrderAfterListEdit(classes: seq<ClassFacts>, n0: seq<NodeState>, n1: seq<NodeState>, e: nat)
    requires |n0| == |classes| && SiblingsOrdered(classes, n0) && e < |n0| && |n1| == |n0|
    requires SiblingSorted(classes, n1[e].anonymousClasses) && SiblingSorted(classes, n1[e].localClasses)
    requires forall x :: 0 <= x < |n0| && x != e ==> n1[x] == n0[x]
    ensures SiblingsOrdered(classes, n1)
  {
  }

  lemma NamesAfterListEdit(n0: seq<NodeState>, n1: seq<NodeState>, e: nat, pa: set<nat>)
    requires AnonymousNamesOk(n0, pa) && e < |n0| && |n1| == |n0|
    requires e in pa || n1[e].anonymousClasses == n0[e].anonymousClasses
    requires forall x :: 0 <= x < |n0| && x != e ==> n1[x] == n0[x]
    requires n1[e].innerName == n0[e].innerName
    ensures AnonymousNamesOk(n1, pa)
  {
  }

  lemma PrefixesAfterListEdit(n0: seq<NodeState>, n1: seq<NodeState>, e: nat, pl: set<nat>)
    requires LocalPrefixesOk(n0, pl) && e < |n0| && |n1| == |n0|
    requires e in pl || n1[e].localClasses == n0[e].localClasses
    requires forall x :: 0 <= x < |n0| && x != e ==> n1[x] == n0[x]
    requires n1[e].localPrefix == n0[e].localPrefix
    ensures LocalPrefixesOk(n1, pl)
  {
  }

  /** Taking c out of the anonymous list of its enclosing class detaches it from the anonymous lists. */
  lemma AnonymousAfterRemove(n0: seq<NodeState>, n1: seq<NodeState>, c: nat, e: nat)
    requires ConsistentAnonymous(n0, {}) && c < |n0| && NestedInto(n0, c, e) && e < |n0| && |n1| == |n0|
    requires n1[e].anonymousClasses == SiblingRemove(n0[e].anonymousClasses, c)
    requires forall x :: 0 <= x < |n0| && x != e ==> n1[x] == n0[x]
    requires SameNests(n0, n1)
    ensures ConsistentAnonymous(n1, {c})
  {
    assert forall x, e' :: 0 <= x < |n0| && 0 <= e' < |n0| ==> (NestedInto(n1, x, e') <==> NestedInto(n0, x, e'));
    forall e', x | 0 <= e' < |n1| && 0 <= x < |n1|
      ensures x in n1[e'].anonymousClasses <==> x !in {c} && NestedInto(n1, x, e') && IsAnonymousNest(n1[x].nest.value)
    {
      assert x in n0[e'].anonymousClasses <==> NestedInto(n0, x, e') && IsAnonymousNest(n0[x].nest.value);
    }
  }

  lemma LocalAfterRemove(n0: seq<NodeState>, n1: seq<NodeState>, c: nat, e: nat)
    requires ConsistentLocal(n0, {}) && c < |n0| && NestedInto(n0, c, e) && e < |n0| && |n1| == |n0|
    requires n1[e].localClasses == SiblingRemove(n0[e].localClasses, c)
    requires forall x :: 0 <= x < |n0| && x != e ==> n1[x] == n0[x]
    requires SameNests(n0, n1)
    ensures ConsistentLocal(n1, {c})
  {
    assert forall x, e' :: 0 <= x < |n0| && 0 <= e' < |n0| ==> (NestedInto(n1, x, e') <==> NestedInto(n0, x, e'));
    forall e', x | 0 <= e' < |n1| && 0 <= x < |n1|
      ensures x in n1[e'].localClasses <==> x !in {c} && NestedInto(n1, x, e') && IsLocalNest(n1[x].nest.value)
    {
      assert x in n0[e'].localClasses <==> NestedInto(n0, x, e') && IsLocalNest(n0[x].nest.value);
    }
  }

  /** Putting an anonymous c into the list of its enclosing class attaches it. */
  lemma AnonymousAfterInsert(classes: seq<ClassFacts>, n0: seq<NodeState>, n1: seq<NodeState>, c: nat, e: nat)
    requires ConsistentAnonymous(n0, {c}) && c < |n0| && NestedInto(n0, c, e) && IsAnonymousNest(n0[c].nest.value)
    requires e < |n0| && |n1| == |n0| && c < |classes| && InArena(classes, n0[e].anonymousClasses)
    requires n1[e].anonymousClasses == SiblingInsert(classes, n0[e].anonymousClasses, c)
    requires forall x :: 0 <= x < |n0| && x != e ==> n1[x] == n0[x]
    requires SameNests(n0, n1)
    ensures ConsistentAnonymous(n1, {})
  {
    assert forall x, e' :: 0 <= x < |n0| && 0 <= e' < |n0| ==> (NestedInto(n1, x, e') <==> NestedInto(n0, x, e'));
    forall e', x | 0 <= e' < |n1| && 0 <= x < |n1|
      ensures x in n1[e'].anonymousClasses <==> NestedInto(n1, x, e') && IsAnonymousNest(n1[x].nest.value)
    {
      assert x in n0[e'].anonymousClasses <==> x !in {c} && NestedInto(n0, x, e') && IsAnonymousNest(n0[x].nest.value);
    }
  }

  lemma LocalAfterInsert(classes: seq<ClassFacts>, n0: seq<NodeState>, n1: seq<NodeState>, c: nat, e: nat)
    requires ConsistentLocal(n0, {c}) && c < |n0| && NestedInto(n0, c, e) && IsLocalNest(n0[c].nest.value)
    requires e < |n0| && |n1| == |n0| && c < |classes| && InArena(classes, n0[e].localClasses)
    requires n1[e].localClasses == SiblingInsert(classes, n0[e].localClasses, c)
    requires forall x :: 0 <= x < |n0| && x != e ==> n1[x] == n0[x]
    requires SameNests(n0, n1)
    ensures ConsistentLocal(n1, {})
  {
    assert forall x, e' :: 0 <= x < |n0| && 0 <= e' < |n0| ==> (NestedInto(n1, x, e') <==> NestedInto(n0, x, e'));
    forall e', x | 0 <= e' < |n1| && 0 <= x < |n1|
      ensures x in n1[e'].localClasses <==> NestedInto(n1, x, e') && IsLocalNest(n1[x].nest.value)
    {
      assert x in n0[e'].localClasses <==> x !in {c} && NestedInto(n0, x, e') && IsLocalNest(n0[x].nest.value);
    }
  }

  lemma ListsInArena(classes: seq<ClassFacts>, nodes: seq<NodeState>, e: nat)
    requires NodeShape(classes, nodes) && e < |nodes|
    ensures InArena(classes, nodes[e].anonymousClasses) && InArena(classes, nodes[e].localClasses)
  {
    forall k | 0 <= k < |nodes[e].anonymousClasses| ensures nodes[e].anonymousClasses[k] < |classes| {}
    forall k | 0 <= k < |nodes[e].localClasses| ensures nodes[e].localClasses[k] < |classes| {}
  }

  /** A removal keeps the rest of the list in the arena. */
  lemma RemoveInArena(classes: seq<ClassFacts>, s: seq<nat>, c: nat)
    requires InArena(classes, s)
    ensures InArena(classes, SiblingRemove(s, c))
  {
    var r := SiblingRemove(s, c);
    forall k | 0 <= k < |r| ensures r[k] < |classes| {
      assert r[k] in s;
    }
  }

  // ---------------------------------------------------------------- the list edits of setNest

  /** anonymousClasses.remove: c leaves the anonymous list of its enclosing class, whose numbering is already
      stale. */
  lemma DetachAnonymousStep(classes: seq<ClassFacts>, n0: seq<NodeState>, c: nat,
                            dn: set<nat>, dl: set<nat>, pa: set<nat>, pl: set<nat>)
    requires Stage(classes, n0, dn, {}, dl, pa, pl) && c < |n0| && n0[c].nest.Some? && IsAnonymousNest(n0[c].nest.value)
    requires EnclosingClass(n0[c].nest.value) in pa
    ensures var e := EnclosingClass(n0[c].nest.value);
      e < |n0| &&
      Stage(classes, n0[e := n0[e].(anonymousClasses := SiblingRemove(n0[e].anonymousClasses, c))], dn, {c}, dl, pa, pl)
  {
    var e := EnclosingClass(n0[c].nest.value);
    var l := n0[e].anonymousClasses;
    var n1 := n0[e := n0[e].(anonymousClasses := SiblingRemove(l, c))];
    ListsInArena(classes, n0, e);
    RemoveInArena(classes, l, c);
    SiblingRemoveSorted(classes, l, c);
    LinkedAfterListEdit(classes, n0, n1, e);
    OrderAfterListEdit(classes, n0, n1, e);
    NamesAfterListEdit(n0, n1, e, pa);
    PrefixesAfterListEdit(n0, n1, e, pl);
    assert SameNests(n0, n1) && SameNesting(n0, n1) && SameLocal(n0, n1);
    AnonymousAfterRemove(n0, n1, c, e);
    NestingTransfer(n0, n1, dn);
    LocalTransfer(n0, n1, dl);
    CommittedTransfer(classes, n0, n1);
  }

  /** localClasses.remove: c leaves the local list of its enclosing class, whose numbering is already stale. */
  lemma DetachLocalStep(classes: seq<ClassFacts>, n0: seq<NodeState>, c: nat,
                        dn: set<nat>, da: set<nat>, pa: set<nat>, pl: set<nat>)
    requires Stage(classes, n0, dn, da, {}, pa, pl) && c < |n0| && n0[c].nest.Some? && IsLocalNest(n0[c].nest.value)
    requires EnclosingClass(n0[c].nest.value) in pl
    ensures var e := EnclosingClass(n0[c].nest.value);
      e < |n0| &&
      Stage(classes, n0[e := n0[e].(localClasses := SiblingRemove(n0[e].localClasses, c))], dn, da, {c}, pa, pl)
  {
    var e := EnclosingClass(n0[c].nest.value);
    var l := n0[e].localClasses;
    var n1 := n0[e := n0[e].(localClasses := SiblingRemove(l, c))];
    ListsInArena(classes, n0, e);
    RemoveInArena(classes, l, c);
    SiblingRemoveSorted(classes, l, c);
    LinkedAfterListEdit(classes, n0, n1, e);
    OrderAfterListEdit(classes, n0, n1, e);
    NamesAfterListEdit(n0, n1, e, pa);
    PrefixesAfterListEdit(n0, n1, e, pl);
    assert SameNests(n0, n1) && SameNesting(n0, n1) && SameAnonymous(n0, n1);
    LocalAfterRemove(n0, n1, c, e);
    NestingTransfer(n0, n1, dn);
    AnonymousTransfer(n0, n1, da);
    CommittedTransfer(classes, n0, n1);
  }

  /** anonymousClasses.add: c joins the anonymous list of its enclosing class, in sibling order; that class's
      numbering goes stale. */
  lemma AttachAnonymousStep(classes: seq<ClassFacts>, n0: seq<NodeState>, c: nat,
                            dn: set<nat>, dl: set<nat>, pa: set<nat>, pl: set<nat>)
    requires Stage(classes, n0, dn, {c}, dl, pa, pl) && c < |n0| && n0[c].nest.Some? && IsAnonymousNest(n0[c].nest.value)
    ensures var e := EnclosingClass(n0[c].nest.value);
      e < |n0| && InArena(classes, n0[e].anonymousClasses) &&
      Stage(classes, n0[e := n0[e].(anonymousClasses := SiblingInsert(classes, n0[e].anonymousClasses, c))],
            dn, {}, dl, pa + {e}, pl)
  {
    var e := EnclosingClass(n0[c].nest.value);
    ListsInArena(classes, n0, e);
    var l := n0[e].anonymousClasses;
    var n1 := n0[e := n0[e].(anonymousClasses := SiblingInsert(classes, l, c))];
    SiblingInsertSorted(classes, l, c);
    LinkedAfterListEdit(classes, n0, n1, e);
    OrderAfterListEdit(classes, n0, n1, e);
    NamesAfterListEdit(n0, n1, e, pa + {e});
    PrefixesAfterListEdit(n0, n1, e, pl);
    assert SameNests(n0, n1) && SameNesting(n0, n1) && SameLocal(n0, n1);
    AnonymousAfterInsert(classes, n0, n1, c, e);
    NestingTransfer(n0, n1, dn);
    LocalTransfer(n0, n1, dl);
    CommittedTransfer(classes, n0, n1);
  }

  /** localClasses.add: c joins the local list of its enclosing class, in sibling order; that class's
      numbering goes stale. */
  lemma AttachLocalStep(classes: seq<ClassFacts>, n0: seq<NodeState>, c: nat,
                        dn: set<nat>, da: set<nat>, pa: set<nat>, pl: set<nat>)
    requires Stage(classes, n0, dn, da, {c}, pa, pl) && c < |n0| && n0[c].nest.Some? && IsLocalNest(n0[c].nest.value)
    ensures var e := EnclosingClass(n0[c].nest.value);
      e < |n0| && InArena(classes, n0[e].localClasses) &&
      Stage(classes, n0[e := n0[e].(localClasses := SiblingInsert(classes, n0[e].localClasses, c))],
            dn, da, {}, pa, pl + {e})
  {
    var e := EnclosingClass(n0[c].nest.value);
    ListsInArena(classes, n0, e);
    var l := n0[e].localClasses;
    var n1 := n0[e := n0[e].(localClasses := SiblingInsert(classes, l, c))];
    SiblingInsertSorted(classes, l, c);
    LinkedAfterListEdit(classes, n0, n1, e);
    OrderAfterListEdit(classes, n0, n1, e);
    NamesAfterListEdit(n0, n1, e, pa);
    PrefixesAfterListEdit(n0, n1, e, pl + {e});
    assert SameNests(n0, n1) && SameNesting(n0, n1) && SameAnonymous(n0, n1);
    LocalAfterInsert(classes, n0, n1, c, e);
    NestingTransfer(n0, n1, dn);
    AnonymousTransfer(n0, n1, da);
    CommittedTransfer(classes, n0, n1);
  }

  /** A class out of every set and list may change its nest without breaking the bookkeeping of the others. */
  lemma DetachedNestFree(n0: seq<NodeState>, n1: seq<NodeState>, c: nat)
    requires c < |n0| && |n1| == |n0| && Consistent(n0, {c})
    requires forall x :: 0 <= x < |n0| && x != c ==> n1[x].nest == n0[x].nest
    requires SameNesting(n0, n1) && SameAnonymous(n0, n1) && SameLocal(n0, n1)
    ensures Consistent(n1, {c})
  {
    forall e, x | 0 <= e < |n1| && 0 <= x < |n1|
      ensures x in n1[e].nestingClasses <==> x !in {c} && NestedInto(n1, x, e)
    {
      assert x in n0[e].nestingClasses <==> x !in {c} && NestedInto(n0, x, e);
    }
    forall e, x | 0 <= e < |n1| && 0 <= x < |n1|
      ensures x in n1[e].anonymousClasses <==> x !in {c} && NestedInto(n1, x, e) && IsAnonymousNest(n1[x].nest.value)
    {
      assert x in n0[e].anonymousClasses <==> x !in {c} && NestedInto(n0, x, e) && IsAnonymousNest(n0[x].nest.value);
    }
    forall e, x | 0 <= e < |n1| && 0 <= x < |n1|
      ensures x in n1[e].localClasses <==> x !in {c} && NestedInto(n1, x, e) && IsLocalNest(n1[x].nest.value)
    {
      assert x in n0[e].localClasses <==> x !in {c} && NestedInto(n0, x, e) && IsLocalNest(n0[x].nest.value);
    }
  }

  /** nest = n: with c out of every set and list, its nest may change, provided the new enclosing class is
      another class that c did not enclose when setNest checked (in s0, which has the same nests). */
  lemma NestStep(classes: seq<ClassFacts>, s0: seq<NodeState>, n0: seq<NodeState>, c: nat, n: Option<Nest>,
                 pa: set<nat>, pl: set<nat>)
    requires Stage(classes, n0, {c}, {c}, {c}, pa, pl) && c < |n0| && classes[c].isReal
    requires Linked(classes, s0) && SameNests(s0, n0)
    requires n.Some? ==>
      (ValidSubject(classes, n.value.subject) && EnclosingClass(n.value) != c &&
       !Encloses(classes, s0, c, Cls(EnclosingClass(n.value))))
    ensures Stage(classes, n0[c := n0[c].(nest := n)], {c}, {c}, {c}, pa, pl)
  {
    var n1 := n0[c := n0[c].(nest := n)];
    AcyclicAfterNest(classes, s0, n1, c, n);
    assert SameNesting(n0, n1) && SameAnonymous(n0, n1) && SameLocal(n0, n1) && SameNames(n0, n1) && SamePrefixes(n0, n1);
    DetachedNestFree(n0, n1, c);
    OrderTransfer(classes, n0, n1);
    NamesTransfer(n0, n1, pa);
    PrefixesTransfer(n0, n1, pl);
  }

  /** Renumbering the anonymous children of e makes its numbering current again. */
  lemma RenameAnonymousStep(classes: seq<ClassFacts>, n0: seq<NodeState>, n1: seq<NodeState>, e: nat,
                            dn: set<nat>, da: set<nat>, dl: set<nat>, pa: set<nat>, pl: set<nat>)
    requires Stage(classes, n0, dn, da, dl, pa, pl) && e < |n0| && RenamedAnonymous(n0, n1, e)
    ensures Stage(classes, n1, dn, da, dl, pa - {e}, pl)
  {
    var l := n0[e].anonymousClasses;
    forall x | 0 <= x < |n0| ensures n1[x] == n0[x].(innerName := n1[x].innerName) {
      if x in l {
        var k :| 0 <= k < |l| && l[k] == x;
      }
    }
    assert SameNests(n0, n1) && SameNesting(n0, n1) && SameAnonymous(n0, n1) && SameLocal(n0, n1) && SamePrefixes(n0, n1);
    LinkedTransfer(classes, n0, n1);
    ConsistentTransfer(n0, n1, dn, da, dl);
    OrderTransfer(classes, n0, n1);
    PrefixesTransfer(n0, n1, pl);
    CommittedTransfer(classes, n0, n1);
    forall e', k | 0 <= e' < |n1| && e' !in pa - {e} && 0 <= k < |n1[e'].anonymousClasses| &&
                   n1[e'].anonymousClasses[k] < |n1|
      ensures n1[n1[e'].anonymousClasses[k]].innerName == NatToString(k + 1)
    {
      var y := n1[e'].anonymousClasses[k];
      assert n1[e'].anonymousClasses == n0[e'].anonymousClasses;
      if e' != e {
        assert y in n0[e'].anonymousClasses;
        assert NestedInto(n0, y, e');
        assert !NestedInto(n0, y, e);
        assert y !in l;
      }
    }
  }

  /** Renumbering the local children of e makes its numbering current again. */
  lemma RenameLocalStep(classes: seq<ClassFacts>, n0: seq<NodeState>, n1: seq<NodeState>, e: nat,
                        dn: set<nat>, da: set<nat>, dl: set<nat>, pa: set<nat>, pl: set<nat>)
    requires Stage(classes, n0, dn, da, dl, pa, pl) && e < |n0| && RenamedLocal(n0, n1, e)
    ensures Stage(classes, n1, dn, da, dl, pa, pl - {e})
  {
    var l := n0[e].localClasses;
    forall x | 0 <= x < |n0| ensures n1[x] == n0[x].(localPrefix := n1[x].localPrefix) {
      if x in l {
        var k :| 0 <= k < |l| && l[k] == x;
      }
    }
    assert SameNests(n0, n1) && SameNesting(n0, n1) && SameAnonymous(n0, n1) && SameLocal(n0, n1) && SameNames(n0, n1);
    LinkedTransfer(classes, n0, n1);
    ConsistentTransfer(n0, n1, dn, da, dl);
    OrderTransfer(classes, n0, n1);
    NamesTransfer(n0, n1, pa);
    CommittedTransfer(classes, n0, n1);
    forall e', k | 0 <= e' < |n1| && e' !in pl - {e} && 0 <= k < |n1[e'].localClasses| &&
                   n1[e'].localClasses[k] < |n1|
      ensures n1[n1[e'].localClasses[k]].localPrefix == NatToString(k + 1)
    {
      var y := n1[e'].localClasses[k];
      assert n1[e'].localClasses == n0[e'].localClasses;
      if e' != e {
        assert y in n0[e'].localClasses;
        assert NestedInto(n0, y, e');
        assert !NestedInto(n0, y, e);
        assert y !in l;
      }
    }
  }

  /** setInnerAccess and the inner name of an inner class: neither touches what the invariant reads, except the
      name of an anonymous class, which stays as numbered. */
  lemma InnerStep(classes: seq<ClassFacts>, n0: seq<NodeState>, c: nat, a: Option<bv32>, nm: string)
    requires GraphOk(classes, n0) && c < |n0|
    requires nm == n0[c].innerName || n0[c].nest.None? || !IsAnonymousNest(n0[c].nest.value)
    ensures GraphOk(classes, n0[c := n0[c].(innerAccess := a, innerName := nm)])
  {
    var n1 := n0[c := n0[c].(innerAccess := a, innerName := nm)];
    assert SameNests(n0, n1) && SameNesting(n0, n1) && SameAnonymous(n0, n1) && SameLocal(n0, n1) && SamePrefixes(n0, n1);
    LinkedTransfer(classes, n0, n1);
    ConsistentTransfer(n0, n1, {}, {}, {});
    OrderTransfer(classes, n0, n1);
    PrefixesTransfer(n0, n1, {});
    CommittedTransfer(classes, n0, n1);
    InnerKeepsNames(n0, c, a, nm);
  }

  /** An inner name that changes only outside anonymous nests keeps the anonymous numbering. */
  lemma InnerKeepsNames(n0: seq<NodeState>, c: nat, a: Option<bv32>, nm: string)
    requires c < |n0| && ConsistentAnonymous(n0, {}) && AnonymousNamesOk(n0, {})
    requires nm == n0[c].innerName || n0[c].nest.None? || !IsAnonymousNest(n0[c].nest.value)
    ensures AnonymousNamesOk(n0[c := n0[c].(innerAccess := a, innerName := nm)], {})
  {
    var n1 := n0[c := n0[c].(innerAccess := a, innerName := nm)];
    forall e, k | 0 <= e < |n1| && 0 <= k < |n1[e].anonymousClasses| && n1[e].anonymousClasses[k] < |n1|
      ensures n1[n1[e].anonymousClasses[k]].innerName == NatToString(k + 1)
    {
      var y := n0[e].anonymousClasses[k];
      assert y in n0[e].anonymousClasses;
    }
  }

  /** The nestable flag and the simple name are read by no part of the invariant. */
  lemma FlagsStep(classes: seq<ClassFacts>, n0: seq<NodeState>, c: nat, v: NodeState)
    requires GraphOk(classes, n0) && c < |n0|
    requires v == n0[c].(nestable := v.nestable, simpleName := v.simpleName)
    ensures GraphOk(classes, n0[c := v])
  {
    var n1 := n0[c := v];
    assert SameNests(n0, n1) && SameNesting(n0, n1) && SameAnonymous(n0, n1) && SameLocal(n0, n1);
    assert SameNames(n0, n1) && SamePrefixes(n0, n1);
    GraphOkIsStage(classes, n0);
    StageTransfer(classes, n0, n1, {}, {}, {}, {}, {});
    GraphOkIsStage(classes, n1);
  }

  /** Renumbering changes nothing but inner names. */
  lemma RenamedAnonymousFields(n0: seq<NodeState>, n1: seq<NodeState>, e: nat)
    requires e < |n0| && RenamedAnonymous(n0, n1, e)
    ensures forall x :: 0 <= x < |n0| ==> n1[x] == n0[x].(innerName := n1[x].innerName)
  {
    var l := n0[e].anonymousClasses;
    forall x | 0 <= x < |n0| ensures n1[x] == n0[x].(innerName := n1[x].innerName) {
      if x in l {
        var k :| 0 <= k < |l| && l[k] == x;
      }
    }
  }

  /** Renumbering changes nothing but local prefixes. */
  lemma RenamedLocalFields(n0: seq<NodeState>, n1: seq<NodeState>, e: nat)
    requires e < |n0| && RenamedLocal(n0, n1, e)
    ensures forall x :: 0 <= x < |n0| ==> n1[x] == n0[x].(localPrefix := n1[x].localPrefix)
  {
    var l := n0[e].localClasses;
    forall x | 0 <= x < |n0| ensures n1[x] == n0[x].(localPrefix := n1[x].localPrefix) {
      if x in l {
        var k :| 0 <= k < |l| && l[k] == x;
      }
    }
  }

  /** Under the invariant, a class sits exactly in the nesting set of its enclosing class, and in its anonymous or
      local list when the nest is of that kind. */
  lemma MembershipOfNested(classes: seq<ClassFacts>, nodes: seq<NodeState>, c: nat)
    requires GraphOk(classes, nodes) && c < |nodes|
    ensures forall e :: 0 <= e < |nodes| ==> (c in nodes[e].nestingClasses <==> NestedInto(nodes, c, e))
    ensures nodes[c].nest.Some? ==> EnclosingClass(nodes[c].nest.value) < |nodes|
    ensures nodes[c].nest.Some? && IsAnonymousNest(nodes[c].nest.value) ==>
      c in nodes[EnclosingClass(nodes[c].nest.value)].anonymousClasses
    ensures nodes[c].nest.Some? && IsLocalNest(nodes[c].nest.value) ==>
      c in nodes[EnclosingClass(nodes[c].nest.value)].localClasses
  {
    forall e | 0 <= e < |nodes| ensures c in nodes[e].nestingClasses <==> NestedInto(nodes, c, e) {
      assert c in nodes[e].nestingClasses <==> c !in {} && NestedInto(nodes, c, e);
    }
    if nodes[c].nest.Some? {
      var e := EnclosingClass(nodes[c].nest.value);
      assert ValidSubject(classes, nodes[c].nest.value.subject);
      assert c in nodes[e].anonymousClasses <==> c !in {} && NestedInto(nodes, c, e) && IsAnonymousNest(nodes[c].nest.value);
      assert c in nodes[e].localClasses <==> c !in {} && NestedInto(nodes, c, e) && IsLocalNest(nodes[c].nest.value);
    }
  }
}
