/** The nester: nesting requests checked before they reach setNest, automatic nesting from the best-ranked
    candidate, and the status counts over the classes of side A. */
module Nesting {
  import opened Wrappers
  import opened Nests
  import opened NestRankResults
  import opened ClassGraph
  import opened Classifier
  import opened ClassEnvironment

  /** Why nest refuses a request; the source throws an exception for each. */
  datatype NestError = DummyNestType | NotNestable | CannotNestInto

  /** A class of side A: whether it is real, and its equivalent class in the environment. */
  datatype SideAClass = SideAClass(isReal: bool, equiv: nat)

  /** The four counters of getStatus. */
  datatype NestingStatus = NestingStatus(total: nat, nested: nat, anonymous: nat, inner: nat)

  /** The minimum score autoNestAll and autoNestClass use when none is given. */
  const DefaultMinScore: int := 1

  /** The subject addAnonymousClass nests into: the method if one is given, else the class. */
  function AnonymousSubject(e: nat, m: Option<nat>): (s: Subject)
    ensures s.c == e && (s.Meth? <==> m.Some?) && (m.Some? ==> s.m == m.value)
  {
    if m.Some? then Meth(e, m.value) else Cls(e)
  }

  predicate EquivsInArena(sideA: seq<SideAClass>, n: nat)
  {
    forall i :: 0 <= i < |sideA| ==> sideA[i].equiv < n
  }

  // ---------------------------------------------------------------- getStatus

  /** The counters after the first k classes of side A: a skipped non-input class (with inputsOnly) counts
      nowhere; a nested class counts as anonymous exactly when it has no simple name. */
  function StatusOf(classes: seq<ClassFacts>, nodes: seq<NodeState>, sideA: seq<SideAClass>, inputsOnly: bool, k: nat): NestingStatus
    requires EquivsInArena(sideA, |classes|) && |nodes| == |classes| && k <= |sideA|
  {
    if k == 0 then NestingStatus(0, 0, 0, 0)
    else
      var st := StatusOf(classes, nodes, sideA, inputsOnly, k - 1);
      var x := sideA[k - 1].equiv;
      if inputsOnly && !classes[x].input then st
      else if nodes[x].nest.None? then st.(total := st.total + 1)
      else if nodes[x].simpleName.None? then st.(total := st.total + 1, nested := st.nested + 1, anonymous := st.anonymous + 1)
      else st.(total := st.total + 1, nested := st.nested + 1, inner := st.inner + 1)
  }

  /** The number of classes of side A, among the first k, whose equivalent is an input. */
  function InputCount(classes: seq<ClassFacts>, sideA: seq<SideAClass>, k: nat): nat
    requires EquivsInArena(sideA, |classes|) && k <= |sideA|
  {
    if k == 0 then 0 else InputCount(classes, sideA, k - 1) + (if classes[sideA[k - 1].equiv].input then 1 else 0)
  }

  /** Every nested class is anonymous or inner, and only counted classes are nested; without inputsOnly every
      class is counted, with it exactly the inputs. */
  lemma {:induction false} StatusCounts(classes: seq<ClassFacts>, nodes: seq<NodeState>, sideA: seq<SideAClass>, inputsOnly: bool, k: nat)
    requires EquivsInArena(sideA, |classes|) && |nodes| == |classes| && k <= |sideA|
    ensures var st := StatusOf(classes, nodes, sideA, inputsOnly, k);
      && st.nested == st.anonymous + st.inner
      && st.nested <= st.total
      && st.total == (if inputsOnly then InputCount(classes, sideA, k) else k)
  {
    if k > 0 {
      StatusCounts(classes, nodes, sideA, inputsOnly, k - 1);
    }
  }

  /** With inputsOnly no class is counted that is not counted without it. */
  lemma {:induction false} InputsOnlyCountsFewer(classes: seq<ClassFacts>, nodes: seq<NodeState>, sideA: seq<SideAClass>, k: nat)
    requires EquivsInArena(sideA, |classes|) && |nodes| == |classes| && k <= |sideA|
    ensures StatusOf(classes, nodes, sideA, true, k).total <= StatusOf(classes, nodes, sideA, false, k).total
    ensures StatusOf(classes, nodes, sideA, true, k).nested <= StatusOf(classes, nodes, sideA, false, k).nested
  {
    if k > 0 {
      InputsOnlyCountsFewer(classes, nodes, sideA, k - 1);
    }
  }

  // ---------------------------------------------------------------- autoNestAll's selection

  /** The equivalents autoNestAll hands to autoNestClass: nestable and not yet nested, in side-A order. */
  function Unnested(classes: seq<ClassFacts>, nodes: seq<NodeState>, sideA: seq<SideAClass>): (todo: seq<nat>)
    requires EquivsInArena(sideA, |classes|) && |nodes| == |classes|
    ensures forall x :: x in todo <==>
      exists i :: 0 <= i < |sideA| && sideA[i].equiv == x && IsNestable(classes, nodes, x) && nodes[x].nest.None?
    ensures forall i :: 0 <= i < |todo| ==> todo[i] < |classes|
    decreases |sideA|
  {
    if sideA == [] then []
    else
      var x := sideA[0].equiv;
      var rest := Unnested(classes, nodes, sideA[1..]);
      assert forall i :: 1 <= i < |sideA| ==> sideA[i] == sideA[1..][i - 1];
      assert forall y :: (exists i :: 1 <= i < |sideA| && sideA[i].equiv == y && IsNestable(classes, nodes, y) && nodes[y].nest.None?) ==>
        (exists i :: 0 <= i < |sideA[1..]| && sideA[1..][i].equiv == y && IsNestable(classes, nodes, y) && nodes[y].nest.None?);
      (if IsNestable(classes, nodes, x) && nodes[x].nest.None? then [x] else []) + rest
  }

  /** chosen is what autoNestClass picks from the ranking rs: an entry exactly when rs has a non-DUMMY entry
      whose score reaches minScore, and then a non-DUMMY entry of rs with the highest such score. */
  predicate IsChoice(rs: seq<NestRankResult>, minScore: int, chosen: Option<NestRankResult>)
  {
    && (chosen.Some? <==> rs != [] && HasNonDummy(rs) && BestScore(rs) >= minScore)
    && (chosen.Some? ==>
         && chosen.value in rs && !IsDummy(chosen.value)
         && (forall i :: 0 <= i < |rs| && !IsDummy(rs[i]) ==> rs[i].score <= chosen.value.score))
  }

  /** The choice for a class without a nest passes every check of nest. */
  lemma ChoiceAllowed(g: Env, c: nat, minScore: int, chosen: NestRankResult)
    requires Ready(g) && c < |g.classes| && g.nodes[c].nest.None? && IsChoice(Rank(g, c, None), minScore, Some(chosen))
    ensures chosen.nestType != DUMMY && IsNestable(g.classes, g.nodes, c) && ValidSubject(g.classes, chosen.subject)
    ensures CanNestInto(g.classes, g.nodes, c, chosen.subject)
  {
    RankNestsAllowed(g, c);
    var i :| 0 <= i < |Rank(g, c, None)| && Rank(g, c, None)[i] == chosen;
  }

  // ---------------------------------------------------------------- autoNestAll's walk

  /** Each of the first |picks| classes of todo was ranked on the state before[i] its call found, and
      picks[i] is the choice from that ranking. */
  ghost predicate ChoicesMade(before: seq<Env>, todo: seq<nat>, picks: seq<Option<NestRankResult>>, minScore: int)
    requires |picks| == |before| <= |todo|
  {
    forall i {:trigger before[i]} :: 0 <= i < |picks| ==> ChoiceOn(before[i], todo[i], minScore, picks[i])
  }

  /** chosen is autoNestClass's choice for class c on the state g. */
  ghost predicate ChoiceOn(g: Env, c: nat, minScore: int, chosen: Option<NestRankResult>)
  {
    Ready(g) && c < |g.classes| && IsChoice(Rank(g, c, None), minScore, chosen)
  }

  /** After the first k calls, every class whose pick was an entry and that no later call among them
      revisited holds the nest of that entry, and after an INNER entry its own name as simple name. */
  predicate PicksHeld(classes: seq<ClassFacts>, nodes: seq<NodeState>, todo: seq<nat>, picks: seq<Option<NestRankResult>>, k: nat)
    requires k <= |todo| && k <= |picks| && |nodes| == |classes| && forall i :: 0 <= i < |todo| ==> todo[i] < |nodes|
  {
    forall i :: 0 <= i < k && picks[i].Some? && (forall j :: i < j < k ==> todo[j] != todo[i]) ==>
      && nodes[todo[i]].nest == Some(Nests.Nest.Nest(picks[i].value.subject, picks[i].value.nestType))
      && (picks[i].value.nestType == INNER ==> nodes[todo[i]].simpleName == Some(classes[todo[i]].name))
  }

  /** Every class of todo from k on that none of the first k calls visited is still without a nest. */
  predicate StillUnnested(nodes: seq<NodeState>, todo: seq<nat>, k: nat)
    requires k <= |todo| && forall i :: 0 <= i < |todo| ==> todo[i] < |nodes|
  {
    forall m :: k <= m < |todo| && (forall j :: 0 <= j < k ==> todo[j] != todo[m]) ==> nodes[todo[m]].nest.None?
  }

  /** The walk after |picks| calls: every call ranked the state it found, its choice holds where no later
      call revisited the class, and the classes still ahead and not yet visited have no nest. */
  ghost predicate Walked(classes: seq<ClassFacts>, nodes: seq<NodeState>, todo: seq<nat>, minScore: int,
                         picks: seq<Option<NestRankResult>>, before: seq<Env>)
  {
    && |picks| == |before| <= |todo| && |nodes| == |classes| && (forall i :: 0 <= i < |todo| ==> todo[i] < |nodes|)
    && ChoicesMade(before, todo, picks, minScore)
    && PicksHeld(classes, nodes, todo, picks, |picks|) && StillUnnested(nodes, todo, |picks|)
  }

  /** One autoNestClass call on todo[k] keeps both facts: it changes no other class's nest or simple name,
      and an entry it chose is the class's nest afterwards, with the class's name after an INNER one. */
  lemma WalkStep(classes: seq<ClassFacts>, n0: seq<NodeState>, n1: seq<NodeState>, todo: seq<nat>,
                 picks: seq<Option<NestRankResult>>, k: nat, chosen: Option<NestRankResult>)
    requires k < |todo| && |picks| == k && |n0| == |classes| && |n1| == |n0| && forall i :: 0 <= i < |todo| ==> todo[i] < |n0|
    requires PicksHeld(classes, n0, todo, picks, k) && StillUnnested(n0, todo, k)
    requires forall x :: 0 <= x < |n0| && x != todo[k] ==> n1[x].nest == n0[x].nest && n1[x].simpleName == n0[x].simpleName
    requires chosen.Some? ==> n1[todo[k]].nest == Some(Nests.Nest.Nest(chosen.value.subject, chosen.value.nestType))
    requires chosen.Some? && chosen.value.nestType == INNER ==> n1[todo[k]].simpleName == Some(classes[todo[k]].name)
    ensures PicksHeld(classes, n1, todo, picks + [chosen], k + 1) && StillUnnested(n1, todo, k + 1)
  {
    var ps := picks + [chosen];
    forall i | 0 <= i < k + 1 && ps[i].Some? && (forall j :: i < j < k + 1 ==> todo[j] != todo[i])
      ensures n1[todo[i]].nest == Some(Nests.Nest.Nest(ps[i].value.subject, ps[i].value.nestType))
      ensures ps[i].value.nestType == INNER ==> n1[todo[i]].simpleName == Some(classes[todo[i]].name)
    {
      if i < k {
        assert ps[i] == picks[i] && todo[k] != todo[i];
      }
    }
    forall m | k + 1 <= m < |todo| && (forall j :: 0 <= j < k + 1 ==> todo[j] != todo[m])
      ensures n1[todo[m]].nest.None?
    {
      assert todo[k] != todo[m];
    }
  }

  lemma ChoicesStep(before: seq<Env>, todo: seq<nat>, picks: seq<Option<NestRankResult>>, minScore: int, g: Env,
                    chosen: Option<NestRankResult>)
    requires |picks| == |before| < |todo| && ChoicesMade(before, todo, picks, minScore)
    requires Ready(g) && todo[|picks|] < |g.classes| && IsChoice(Rank(g, todo[|picks|], None), minScore, chosen)
    ensures ChoicesMade(before + [g], todo, picks + [chosen], minScore)
  {
    var k := |picks|;
    var b, p := before + [g], picks + [chosen];
    forall i | 0 <= i < k + 1 ensures ChoiceOn(b[i], todo[i], minScore, p[i]) {
      if i < k {
        assert b[i] == before[i] && p[i] == picks[i];
        assert ChoiceOn(before[i], todo[i], minScore, picks[i]);
      } else {
        assert b[i] == g && p[i] == chosen;
      }
    }
  }

  /** Without repeats in todo, the class the next call visits is still without a nest. */
  lemma NextUnnested(nodes: seq<NodeState>, todo: seq<nat>, k: nat)
    requires k < |todo| && (forall i :: 0 <= i < |todo| ==> todo[i] < |nodes|) && StillUnnested(nodes, todo, k)
    requires NoRepeats(todo)
    ensures nodes[todo[k]].nest.None?
  {
    assert forall j :: 0 <= j < k ==> todo[j] != todo[k];
  }

  /** A pick appended after the first k says nothing about them. */
  lemma PicksExtended(classes: seq<ClassFacts>, nodes: seq<NodeState>, todo: seq<nat>, picks: seq<Option<NestRankResult>>,
                      k: nat, chosen: Option<NestRankResult>)
    requires k < |todo| && |picks| == k && |nodes| == |classes| && (forall i :: 0 <= i < |todo| ==> todo[i] < |nodes|)
    requires PicksHeld(classes, nodes, todo, picks, k)
    ensures PicksHeld(classes, nodes, todo, picks + [chosen], k)
  {
    assert forall i :: 0 <= i < k ==> (picks + [chosen])[i] == picks[i];
  }

  /** Every class outside todo has kept its nest and simple name. */
  predicate KeptOutside(n0: seq<NodeState>, n1: seq<NodeState>, todo: seq<nat>)
  {
    |n1| == |n0| && forall x :: 0 <= x < |n0| && x !in todo ==> n1[x].nest == n0[x].nest && n1[x].simpleName == n0[x].simpleName
  }

  /** A call that changes at most todo[k] keeps KeptOutside. */
  lemma KeptOutsideStep(n0: seq<NodeState>, n1: seq<NodeState>, n2: seq<NodeState>, todo: seq<nat>, k: nat)
    requires KeptOutside(n0, n1, todo) && k < |todo| && |n2| == |n1|
    requires forall x :: 0 <= x < |n1| && x != todo[k] ==> n2[x].nest == n1[x].nest && n2[x].simpleName == n1[x].simpleName
    ensures KeptOutside(n0, n2, todo)
  {
  }

  /** Every class autoNestAll hands on is without a nest when the walk starts. */
  lemma UnnestedStartsUnnested(classes: seq<ClassFacts>, nodes: seq<NodeState>, sideA: seq<SideAClass>)
    requires EquivsInArena(sideA, |classes|) && |nodes| == |classes|
    ensures var todo := Unnested(classes, nodes, sideA);
      (forall i :: 0 <= i < |todo| ==> todo[i] < |nodes|) && StillUnnested(nodes, todo, 0)
  {
    var todo := Unnested(classes, nodes, sideA);
    assert forall m :: 0 <= m < |todo| ==> todo[m] in todo;
  }

  // ---------------------------------------------------------------- findPotentialNests

  /** The equivalents of the first k classes of side A. */
  function Equivs(sideA: seq<SideAClass>, k: nat): set<nat>
    requires k <= |sideA|
  {
    set i | 0 <= i < k :: sideA[i].equiv
  }

  /** The caches k1 after filling, from the state g0, the potential scores of the classes xs: each of them
      that was dirty holds its potential score and is clean; every other cache is as in g0. */
  ghost predicate ScoresFilled(g0: Env, k1: seq<CacheState>, xs: set<nat>)
    requires Ready(g0)
  {
    && |k1| == |g0.caches|
    && forall x :: 0 <= x < |k1| ==>
         k1[x] == if x in xs && g0.caches[x].potentialScoreDirty
                  then g0.caches[x].(potentialScore := PotentialScore(g0, x), potentialScoreDirty := false)
                  else g0.caches[x]
  }

  /** One getHighestPotentialScore call of findPotentialNests extends the filled set by one equivalent. */
  lemma FillStep(g0: Env, k1: seq<CacheState>, k2: seq<CacheState>, sideA: seq<SideAClass>, k: nat, score: int)
    requires Ready(g0) && k < |sideA| && EquivsInArena(sideA, |g0.classes|)
    requires ScoresFilled(g0, k1, Equivs(sideA, k)) && MemoView(k1) == MemoView(g0.caches)
    requires var y := sideA[k].equiv;
      && (k1[y].potentialScoreDirty ==>
            score == PotentialScore(Env(g0.classes, g0.nodes, k1), y) && k2 == k1[y := k1[y].(potentialScore := score, potentialScoreDirty := false)])
      && (!k1[y].potentialScoreDirty ==> k2 == k1)
    ensures ScoresFilled(g0, k2, Equivs(sideA, k + 1)) && MemoView(k2) == MemoView(g0.caches)
  {
    var y := sideA[k].equiv;
    assert Equivs(sideA, k + 1) == Equivs(sideA, k) + {y};
    if k1[y].potentialScoreDirty {
      assert RankView(Env(g0.classes, g0.nodes, k1)) == RankView(g0);
      MemoViewRefilled(k1, y, score);
    }
  }

  // ---------------------------------------------------------------- the nester's mutators

  /** setNest with n, then setSimpleName with name: the facts of a NestSet from n0, k0, none of which read
      c's own simple name, and c's simple name is name. */
  ghost predicate NestSetNamed(classes: seq<ClassFacts>, n0: seq<NodeState>, k0: seq<CacheState>, n1: seq<NodeState>,
                               k1: seq<CacheState>, c: nat, n: Option<Nest>, name: Option<string>)
  {
    NestFacts(classes, n0, k0, n1, k1, c, n) && n1[c].simpleName == name
  }

  /** A NestSet followed by setSimpleName. */
  lemma NamedAfterNest(classes: seq<ClassFacts>, n0: seq<NodeState>, k0: seq<CacheState>, n1: seq<NodeState>,
                       k1: seq<CacheState>, c: nat, n: Option<Nest>, name: Option<string>)
    requires NestSet(classes, n0, k0, n1, k1, c, n)
    ensures NestSetNamed(classes, n0, k0, n1[c := n1[c].(simpleName := name)], k1, c, n, name)
  {
    NestFactsRenamed(classes, n0, k0, n1, k1, c, n, name);
  }

  class Nester {
    const env: ClassEnv
    const sideA: seq<SideAClass>

    ghost predicate Valid()
      reads this, env
    {
      env.Valid() && EquivsInArena(sideA, |env.classes|)
    }

    constructor (env: ClassEnv, sideA: seq<SideAClass>)
      requires env.Valid() && EquivsInArena(sideA, |env.classes|)
      ensures Valid() && this.env == env && this.sideA == sideA
    {
      this.env := env;
      this.sideA := sideA;
    }

    /** nest: a DUMMY type, a class that is not nestable and a target it cannot nest into are refused before
        anything changes; otherwise the class gets the nest through setNest. */
    method Nest(c: nat, s: Subject, t: NestType) returns (r: Outcome<NestError>)
      requires Valid() && c < |env.classes| && ValidSubject(env.classes, s)
      modifies env
      ensures Valid()
      ensures t == DUMMY ==> r == Fail(DummyNestType)
      ensures t != DUMMY && !IsNestable(env.classes, old(env.nodes), c) ==> r == Fail(NotNestable)
      ensures t != DUMMY && IsNestable(env.classes, old(env.nodes), c) && !CanNestInto(env.classes, old(env.nodes), c, s) ==>
        r == Fail(CannotNestInto)
      ensures r.Pass? <==> t != DUMMY && IsNestable(env.classes, old(env.nodes), c) && CanNestInto(env.classes, old(env.nodes), c, s)
      ensures r.Fail? ==> env.nodes == old(env.nodes) && env.caches == old(env.caches)
      ensures r.Pass? ==>
        && env.nodes[c].nest == Some(Nests.Nest.Nest(s, t))
        && KeepsOthers(old(env.nodes), env.nodes, c)
        && (forall e :: 0 <= e < |env.nodes| ==> (c in env.nodes[e].nestingClasses <==> e == s.c))
        && env.caches[c].potentialScoreDirty && env.caches[s.c].potentialScoreDirty
      ensures r.Pass? ==> NestSet(env.classes, old(env.nodes), old(env.caches), env.nodes, env.caches, c, Some(Nests.Nest.Nest(s, t)))
    {
      if t == DUMMY {
        return Fail(DummyNestType);
      }
      if !(env.nodes[c].nestable && env.classes[c].isReal) {
        return Fail(NotNestable);
      }
      if !CanNestInto(env.classes, env.nodes, c, s) {
        return Fail(CannotNestInto);
      }
      env.SetNest(c, Some(Nests.Nest.Nest(s, t)));
      r := Pass;
    }

    /** unnest: the class leaves its nest and loses its simple name. A class that is not nestable has no nest
        to leave. */
    method Unnest(c: nat)
      requires Valid() && c < |env.classes|
      modifies env
      ensures Valid()
      ensures env.nodes[c].nest.None? && env.nodes[c].simpleName.None?
      ensures |env.nodes| == |old(env.nodes)|
      ensures forall x :: 0 <= x < |env.nodes| && x != c ==>
        env.nodes[x].nest == old(env.nodes[x].nest) && env.nodes[x].simpleName == old(env.nodes[x].simpleName)
      ensures IsNestable(env.classes, old(env.nodes), c) ==>
        NestSetNamed(env.classes, old(env.nodes), old(env.caches), env.nodes, env.caches, c, None, None)
      ensures !IsNestable(env.classes, old(env.nodes), c) ==>
        env.nodes == old(env.nodes)[c := old(env.nodes[c]).(simpleName := None)] && env.caches == old(env.caches)
    {
      ghost var n0, k0 := env.nodes, env.caches;
      env.SetNest(c, None);
      if !IsNestable(env.classes, n0, c) {
        assert n0[c].nest.None?;
      } else {
        NamedAfterNest(env.classes, n0, k0, env.nodes, env.caches, c, None, None);
      }
      env.SetSimpleName(c, None);
    }

    /** addAnonymousClass: nest as ANONYMOUS into the method if one is given, else the class, then clear the
        simple name. */
    method AddAnonymousClass(c: nat, e: nat, m: Option<nat>) returns (r: Outcome<NestError>)
      requires Valid() && c < |env.classes| && e < |env.classes|
      requires m.Some? ==> m.value < |env.classes[e].methods|
      modifies env
      ensures Valid()
      ensures r.Pass? <==> IsNestable(env.classes, old(env.nodes), c) && CanNestInto(env.classes, old(env.nodes), c, Cls(e))
      ensures r.Fail? ==> env.nodes == old(env.nodes) && env.caches == old(env.caches)
      ensures r.Pass? ==>
        env.nodes[c].nest == Some(Nests.Nest.Nest(AnonymousSubject(e, m), ANONYMOUS)) && env.nodes[c].simpleName.None?
      ensures |env.nodes| == |old(env.nodes)|
      ensures forall x :: 0 <= x < |env.nodes| && x != c ==>
        env.nodes[x].nest == old(env.nodes[x].nest) && env.nodes[x].simpleName == old(env.nodes[x].simpleName)
      ensures r.Pass? ==> NestSetNamed(env.classes, old(env.nodes), old(env.caches), env.nodes, env.caches, c,
        Some(Nests.Nest.Nest(AnonymousSubject(e, m), ANONYMOUS)), None)
    {
      ghost var n0, k0 := env.nodes, env.caches;
      r := Nest(c, AnonymousSubject(e, m), ANONYMOUS);
      if r.Pass? {
        NamedAfterNest(env.classes, n0, k0, env.nodes, env.caches, c, Some(Nests.Nest.Nest(AnonymousSubject(e, m), ANONYMOUS)), None);
        env.SetSimpleName(c, None);
      }
    }

    /** addInnerClass: nest as INNER into the class, then take the given simple name. */
    method AddInnerClass(c: nat, e: nat, simpleName: string) returns (r: Outcome<NestError>)
      requires Valid() && c < |env.classes| && e < |env.classes|
      modifies env
      ensures Valid()
      ensures r.Pass? <==> IsNestable(env.classes, old(env.nodes), c) && CanNestInto(env.classes, old(env.nodes), c, Cls(e))
      ensures r.Fail? ==> env.nodes == old(env.nodes) && env.caches == old(env.caches)
      ensures r.Pass? ==>
        env.nodes[c].nest == Some(Nests.Nest.Nest(Cls(e), INNER)) && env.nodes[c].simpleName == Some(simpleName)
      ensures |env.nodes| == |old(env.nodes)|
      ensures forall x :: 0 <= x < |env.nodes| && x != c ==>
        env.nodes[x].nest == old(env.nodes[x].nest) && env.nodes[x].simpleName == old(env.nodes[x].simpleName)
      ensures r.Pass? ==> NestSetNamed(env.classes, old(env.nodes), old(env.caches), env.nodes, env.caches, c,
        Some(Nests.Nest.Nest(Cls(e), INNER)), Some(simpleName))
    {
      ghost var n0, k0 := env.nodes, env.caches;
      r := Nest(c, Cls(e), INNER);
      if r.Pass? {
        NamedAfterNest(env.classes, n0, k0, env.nodes, env.caches, c, Some(Nests.Nest.Nest(Cls(e), INNER)), Some(simpleName));
        env.SetSimpleName(c, Some(simpleName));
      }
    }

    /** addInnerClass without a simple name: the class's own name. */
    method AddInnerClassByName(c: nat, e: nat) returns (r: Outcome<NestError>)
      requires Valid() && c < |env.classes| && e < |env.classes|
      modifies env
      ensures Valid()
      ensures r.Pass? <==> IsNestable(env.classes, old(env.nodes), c) && CanNestInto(env.classes, old(env.nodes), c, Cls(e))
      ensures r.Fail? ==> env.nodes == old(env.nodes) && env.caches == old(env.caches)
      ensures r.Pass? ==>
        env.nodes[c].nest == Some(Nests.Nest.Nest(Cls(e), INNER)) && env.nodes[c].simpleName == Some(env.classes[c].name)
      ensures |env.nodes| == |old(env.nodes)|
      ensures forall x :: 0 <= x < |env.nodes| && x != c ==>
        env.nodes[x].nest == old(env.nodes[x].nest) && env.nodes[x].simpleName == old(env.nodes[x].simpleName)
      ensures r.Pass? ==> NestSetNamed(env.classes, old(env.nodes), old(env.caches), env.nodes, env.caches, c,
        Some(Nests.Nest.Nest(Cls(e), INNER)), Some(env.classes[c].name))
    {
      r := AddInnerClass(c, e, env.classes[c].name);
    }

    /** The choice of autoNestClass: rank the class and pick the best entry by the sort-and-scan, if it is not
        a DUMMY and reaches minScore. */
    method ChooseNest(c: nat, minScore: int) returns (chosen: Option<NestRankResult>)
      requires Valid() && c < |env.classes|
      ensures IsChoice(Rank(env.State(), c, None), minScore, chosen)
      ensures chosen.Some? ==> ValidSubject(env.classes, chosen.value.subject)
    {
      var g := env.State();
      EnvOkIsReady(g);
      var results := RankClass(g, c, None);
      if results == [] {
        return None;
      }
      var best := SelectBest(results);
      if !IsDummy(best) && best.score >= minScore {
        RankSubjectsValid(g, c, None);
        chosen := Some(best);
      } else {
        chosen := None;
      }
    }

    /** autoNestClass: nest into the chosen entry; an INNER nest also sets the simple name to the class's name.
        The chosen entry is returned alongside the outcome of nest. A class without a nest is always nested
        into its choice, since every entry of its ranking passed canNestInto. */
    method AutoNestClass(c: nat, minScore: int) returns (r: Outcome<NestError>, chosen: Option<NestRankResult>)
      requires Valid() && c < |env.classes|
      modifies env
      ensures Valid()
      ensures IsChoice(Rank(old(env.State()), c, None), minScore, chosen)
      ensures chosen.Some? ==> ValidSubject(env.classes, chosen.value.subject)
      ensures chosen.None? ==> r == Pass
      ensures chosen.Some? ==>
        (r.Pass? <==> IsNestable(env.classes, old(env.nodes), c) && CanNestInto(env.classes, old(env.nodes), c, chosen.value.subject))
      ensures old(env.nodes[c].nest).None? ==> r == Pass
      ensures |env.nodes| == |old(env.nodes)|
      ensures forall x :: 0 <= x < |env.nodes| && x != c ==>
        env.nodes[x].nest == old(env.nodes[x].nest) && env.nodes[x].simpleName == old(env.nodes[x].simpleName)
      ensures chosen.None? || r.Fail? ==> env.nodes == old(env.nodes) && env.caches == old(env.caches)
      ensures chosen.Some? && r.Pass? ==>
        && env.nodes[c].nest == Some(Nests.Nest.Nest(chosen.value.subject, chosen.value.nestType))
        && (chosen.value.nestType == INNER ==> env.nodes[c].simpleName == Some(env.classes[c].name))
        && (chosen.value.nestType != INNER ==> env.nodes[c].simpleName == old(env.nodes[c].simpleName))
      ensures chosen.Some? && r.Pass? ==>
        NestSetNamed(env.classes, old(env.nodes), old(env.caches), env.nodes, env.caches, c,
          Some(Nests.Nest.Nest(chosen.value.subject, chosen.value.nestType)),
          if chosen.value.nestType == INNER then Some(env.classes[c].name) else old(env.nodes[c].simpleName))
    {
      ghost var g := env.State();
      chosen := ChooseNest(c, minScore);
      r := Pass;
      if chosen.Some? {
        if g.nodes[c].nest.None? {
          EnvOkIsReady(g);
          ChoiceAllowed(g, c, minScore, chosen.value);
        }
        r := NestAsChosen(c, chosen.value.subject, chosen.value.nestType);
      }
    }

    /** The nest autoNestClass applies: an INNER one also gives the class its own name as simple name. */
    method NestAsChosen(c: nat, s: Subject, t: NestType) returns (r: Outcome<NestError>)
      requires Valid() && c < |env.classes| && ValidSubject(env.classes, s)
      modifies env
      ensures Valid()
      ensures r.Pass? <==> t != DUMMY && IsNestable(env.classes, old(env.nodes), c) && CanNestInto(env.classes, old(env.nodes), c, s)
      ensures |env.nodes| == |old(env.nodes)|
      ensures forall x :: 0 <= x < |env.nodes| && x != c ==>
        env.nodes[x].nest == old(env.nodes[x].nest) && env.nodes[x].simpleName == old(env.nodes[x].simpleName)
      ensures r.Fail? ==> env.nodes == old(env.nodes) && env.caches == old(env.caches)
      ensures r.Pass? ==>
        && env.nodes[c].nest == Some(Nests.Nest.Nest(s, t))
        && (t == INNER ==> env.nodes[c].simpleName == Some(env.classes[c].name))
        && (t != INNER ==> env.nodes[c].simpleName == old(env.nodes[c].simpleName))
      ensures r.Pass? ==> NestSetNamed(env.classes, old(env.nodes), old(env.caches), env.nodes, env.caches, c,
        Some(Nests.Nest.Nest(s, t)), if t == INNER then Some(env.classes[c].name) else old(env.nodes[c].simpleName))
    {
      ghost var n0, k0 := env.nodes, env.caches;
      r := Nest(c, s, t);
      if r.Pass? && t == INNER {
        NamedAfterNest(env.classes, n0, k0, env.nodes, env.caches, c, Some(Nests.Nest.Nest(s, t)), Some(env.classes[c].name));
        env.SetSimpleName(c, Some(env.classes[c].name));
      }
    }

    /** autoNestAll, one class after the other: the equivalents that are nestable and not nested when it starts,
        each through autoNestClass. picks[i] is the choice for todo[i], made on the state before[i] that its
        call found; every pick is the nest of its class afterwards unless a later call revisited that class
        (todo repeats a class only when two classes of side A share an equivalent). A refused nest stops the
        walk, and only such a revisit can be refused. Classes outside the selection keep their nests. */
    method AutoNestAll(minScore: int) returns (r: Outcome<NestError>, todo: seq<nat>, ghost picks: seq<Option<NestRankResult>>, ghost before: seq<Env>)
      requires Valid()
      modifies env
      ensures Valid()
      ensures todo == Unnested(env.classes, old(env.nodes), sideA)
      ensures |picks| == |before| <= |todo| && (r.Pass? ==> |picks| == |todo|) && (r.Fail? ==> |picks| > 0)
      ensures |before| > 0 ==> before[0] == old(env.State())
      ensures ChoicesMade(before, todo, picks, minScore)
      ensures PicksHeld(env.classes, env.nodes, todo, picks, if r.Pass? then |picks| else |picks| - 1)
      ensures NoRepeats(todo) ==> r == Pass
      ensures |env.nodes| == |old(env.nodes)|
      ensures forall x :: 0 <= x < |env.nodes| && x !in todo ==>
        env.nodes[x].nest == old(env.nodes[x].nest) && env.nodes[x].simpleName == old(env.nodes[x].simpleName)
    {
      todo := Unnested(env.classes, env.nodes, sideA);
      UnnestedStartsUnnested(env.classes, env.nodes, sideA);
      r, picks, before := AutoNestEach(todo, minScore);
    }

    /** autoNestClass on each class of todo in turn, stopping at a refused nest. */
    method AutoNestEach(todo: seq<nat>, minScore: int) returns (r: Outcome<NestError>, ghost picks: seq<Option<NestRankResult>>, ghost before: seq<Env>)
      requires Valid() && (forall i :: 0 <= i < |todo| ==> todo[i] < |env.nodes|) && StillUnnested(env.nodes, todo, 0)
      modifies env
      ensures Valid()
      ensures |picks| == |before| <= |todo| && (r.Pass? ==> |picks| == |todo|) && (r.Fail? ==> |picks| > 0)
      ensures |before| > 0 ==> before[0] == old(env.State())
      ensures ChoicesMade(before, todo, picks, minScore)
      ensures PicksHeld(env.classes, env.nodes, todo, picks, if r.Pass? then |picks| else |picks| - 1)
      ensures NoRepeats(todo) ==> r == Pass
      ensures |env.nodes| == |old(env.nodes)|
      ensures forall x :: 0 <= x < |env.nodes| && x !in todo ==>
        env.nodes[x].nest == old(env.nodes[x].nest) && env.nodes[x].simpleName == old(env.nodes[x].simpleName)
    {
      r := Pass;
      picks := [];
      before := [];
      var k := 0;
      while k < |todo|
        invariant k == |picks| && Valid() && |env.nodes| == |old(env.nodes)|
        invariant Walked(env.classes, env.nodes, todo, minScore, picks, before)
        invariant k > 0 ==> before[0] == old(env.State())
        invariant r == Pass && (k == 0 ==> env.nodes == old(env.nodes) && env.caches == old(env.caches))
        invariant KeptOutside(old(env.nodes), env.nodes, todo)
      {
        ghost var g := env.State();
        var chosen;
        r, chosen := AutoNestNext(todo, k, minScore, picks, before);
        KeptOutsideStep(old(env.nodes), g.nodes, env.nodes, todo, k);
        picks := picks + [chosen];
        before := before + [g];
        if r.Fail? {
          return;
        }
        k := k + 1;
      }
    }

    /** One step of autoNestAll's walk: autoNestClass on the next class of todo. */
    method AutoNestNext(todo: seq<nat>, k: nat, minScore: int, ghost picks: seq<Option<NestRankResult>>, ghost before: seq<Env>)
      returns (r: Outcome<NestError>, chosen: Option<NestRankResult>)
      requires Valid() && k == |picks| < |todo| && Walked(env.classes, env.nodes, todo, minScore, picks, before)
      modifies env
      ensures Valid() && |env.nodes| == |old(env.nodes)|
      ensures ChoicesMade(before + [old(env.State())], todo, picks + [chosen], minScore)
      ensures r.Pass? ==> Walked(env.classes, env.nodes, todo, minScore, picks + [chosen], before + [old(env.State())])
      ensures r.Fail? ==> PicksHeld(env.classes, env.nodes, todo, picks + [chosen], |picks|)
      ensures NoRepeats(todo) ==> r == Pass
      ensures forall x :: 0 <= x < |env.nodes| && x != todo[k] ==>
        env.nodes[x].nest == old(env.nodes[x].nest) && env.nodes[x].simpleName == old(env.nodes[x].simpleName)
    {
      ghost var g := env.State();
      EnvOkIsReady(g);
      if NoRepeats(todo) {
        NextUnnested(env.nodes, todo, k);
      }
      r, chosen := AutoNestClass(todo[k], minScore);
      ChoicesStep(before, todo, picks, minScore, g, chosen);
      if r.Fail? {
        PicksExtended(env.classes, env.nodes, todo, picks, k, chosen);
      } else {
        WalkStep(env.classes, g.nodes, env.nodes, todo, picks, k, chosen);
      }
    }

    /** autoNestAll with the default minimum score. */
    method AutoNestAllByDefault() returns (r: Outcome<NestError>, todo: seq<nat>, ghost picks: seq<Option<NestRankResult>>, ghost before: seq<Env>)
      requires Valid()
      modifies env
      ensures Valid()
      ensures todo == Unnested(env.classes, old(env.nodes), sideA)
      ensures |picks| == |before| <= |todo| && (r.Pass? ==> |picks| == |todo|) && (r.Fail? ==> |picks| > 0)
      ensures |before| > 0 ==> before[0] == old(env.State())
      ensures ChoicesMade(before, todo, picks, DefaultMinScore)
      ensures PicksHeld(env.classes, env.nodes, todo, picks, if r.Pass? then |picks| else |picks| - 1)
      ensures NoRepeats(todo) ==> r == Pass
      ensures forall x :: 0 <= x < |env.nodes| && x !in todo ==>
        env.nodes[x].nest == old(env.nodes[x].nest) && env.nodes[x].simpleName == old(env.nodes[x].simpleName)
    {
      r, todo, picks, before := AutoNestAll(DefaultMinScore);
    }

    /** findPotentialNests: the highest potential score of every equivalent of side A is computed, leaving
        their caches clean. A dirty cache among them now holds the potential score of the state the call
        found; every other cache is as before. */
    method FindPotentialNests()
      requires Valid()
      modifies env
      ensures Valid() && env.nodes == old(env.nodes)
      ensures forall i :: 0 <= i < |sideA| ==> !env.caches[sideA[i].equiv].potentialScoreDirty
      ensures ScoresFilled(old(env.State()), env.caches, Equivs(sideA, |sideA|))
    {
      ghost var g0 := env.State();
      EnvOkIsReady(g0);
      var k := 0;
      while k < |sideA|
        invariant 0 <= k <= |sideA| && Valid() && env.nodes == old(env.nodes)
        invariant forall i :: 0 <= i < k ==> !env.caches[sideA[i].equiv].potentialScoreDirty
        invariant ScoresFilled(g0, env.caches, Equivs(sideA, k)) && MemoView(env.caches) == MemoView(g0.caches)
      {
        ghost var k1 := env.caches;
        var score := env.GetHighestPotentialScore(sideA[k].equiv);
        FillStep(g0, k1, env.caches, sideA, k, score);
        k := k + 1;
      }
    }

    /** getStatus: the four counters over side A. */
    method GetStatus(inputsOnly: bool) returns (st: NestingStatus)
      requires Valid()
      ensures st == StatusOf(env.classes, env.nodes, sideA, inputsOnly, |sideA|)
    {
      st := NestingStatus(0, 0, 0, 0);
      var k := 0;
      while k < |sideA|
        invariant 0 <= k <= |sideA|
        invariant st == StatusOf(env.classes, env.nodes, sideA, inputsOnly, k)
      {
        var x := sideA[k].equiv;
        k := k + 1;
        if inputsOnly && !env.classes[x].input {
          continue;
        }
        st := st.(total := st.total + 1);
        if env.nodes[x].nest.Some? {
          st := st.(nested := st.nested + 1);
          if env.nodes[x].simpleName.None? {
            st := st.(anonymous := st.anonymous + 1);
          } else {
            st := st.(inner := st.inner + 1);
          }
        }
      }
    }
  }
}
