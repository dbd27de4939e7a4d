/** NestedClassClassifier: scores the candidate nests of one class from its structure and references. */
module Classifier {
  import opened Wrappers
  import opened Nests
  import opened NestRankResults
  import opened ClassGraph

  // ---------------------------------------------------------------- choosing among candidates

  /** bestResult: the earliest of the greatest results, skipping absent ones. */
  function BestResult(rs: seq<Option<NestRankResult>>): (best: Option<NestRankResult>)
  {
    BestFrom(None, rs)
  }

  function BestFrom(best: Option<NestRankResult>, rs: seq<Option<NestRankResult>>): Option<NestRankResult>
    decreases |rs|
  {
    if rs == [] then best
    else if best.None? || Compare(best.value, rs[0]) < 0 then BestFrom(rs[0], rs[1..])
    else BestFrom(best, rs[1..])
  }

  lemma {:induction false} BestFromSpec(best: Option<NestRankResult>, rs: seq<Option<NestRankResult>>)
    ensures var r := BestFrom(best, rs);
      && (r.None? <==> best.None? && forall i :: 0 <= i < |rs| ==> rs[i].None?)
      && (r.Some? ==> r == best || exists i :: 0 <= i < |rs| && rs[i] == r)
      && (r.Some? ==> (best.Some? ==> Key(best.value) <= Key(r.value)) &&
                      forall i :: 0 <= i < |rs| && rs[i].Some? ==> Key(rs[i].value) <= Key(r.value))
      && (r.Some? && best.Some? && Key(best.value) == Key(r.value) ==> r == best)
    decreases |rs|
  {
    if rs != [] {
      var next := if best.None? || Compare(best.value, rs[0]) < 0 then rs[0] else best;
      BestFromSpec(next, rs[1..]);
      var r := BestFrom(next, rs[1..]);
      assert forall i :: 1 <= i < |rs| ==> rs[i] == rs[1..][i - 1];
      if r.Some? && r != next {
        var i :| 0 <= i < |rs[1..]| && rs[1..][i] == r;
        assert rs[i + 1] == r;
      }
    }
  }

  /** The best result is one of the candidates, no candidate has a greater key, and among candidates of
      equal key the earliest wins. */
  lemma BestResultSpec(rs: seq<Option<NestRankResult>>)
    ensures var r := BestResult(rs);
      && (r.None? <==> forall i :: 0 <= i < |rs| ==> rs[i].None?)
      && (r.Some? ==> exists i :: 0 <= i < |rs| && rs[i] == r)
      && (r.Some? ==> forall i :: 0 <= i < |rs| && rs[i].Some? ==> Key(rs[i].value) <= Key(r.value))
  {
    BestFromSpec(None, rs);
  }

  lemma {:induction false} BestResultEarliest(rs: seq<Option<NestRankResult>>, k: nat)
    requires k < |rs| && rs[k].Some?
    requires forall i :: 0 <= i < |rs| && rs[i].Some? ==> Key(rs[i].value) <= Key(rs[k].value)
    requires forall i :: 0 <= i < k && rs[i].Some? ==> Key(rs[i].value) < Key(rs[k].value)
    ensures BestResult(rs) == rs[k]
  {
    BestFromPrefix(None, rs, k);
    BestFromSpec(rs[k], rs[k + 1..]);
  }

  /** Before the first greatest candidate, the running best stays below it and the candidate takes over. */
  lemma {:induction false} BestFromPrefix(best: Option<NestRankResult>, rs: seq<Option<NestRankResult>>, k: nat)
    requires k < |rs| && rs[k].Some?
    requires best.Some? ==> Key(best.value) < Key(rs[k].value)
    requires forall i :: 0 <= i < k && rs[i].Some? ==> Key(rs[i].value) < Key(rs[k].value)
    ensures BestFrom(best, rs) == BestFrom(rs[k], rs[k + 1..])
    decreases k
  {
    var next := if best.None? || Compare(best.value, rs[0]) < 0 then rs[0] else best;
    if k > 0 {
      assert forall i :: 0 <= i < k - 1 ==> rs[1..][i] == rs[i + 1];
      assert rs[1..][k - 1] == rs[k];
      BestFromPrefix(next, rs[1..], k - 1);
      assert rs[1..][k - 1 + 1..] == rs[k + 1..];
    }
  }

  function OptionSeq(r: Option<NestRankResult>): (s: seq<NestRankResult>)
    ensures r.Some? ==> s == [r.value]
    ensures r.None? ==> s == []
  {
    if r.Some? then [r.value] else []
  }

  // ---------------------------------------------------------------- the three signals

  /** checkOrAddAnonymous: the candidate, with the method as subject if one is given, when nesting is allowed. */
  function AnonymousCandidate(g: Env, c: nat, enclClass: nat, enclMethod: Option<nat>, score: int): (r: Option<NestRankResult>)
    requires Ready(g) && c < |g.classes| && enclClass < |g.classes|
    requires enclMethod.Some? ==> enclMethod.value < |g.classes[enclClass].methods|
    ensures r.Some? ==>
      (r.value.nestType == ANONYMOUS && r.value.subject.c == enclClass &&
       (r.value.subject.Meth? <==> enclMethod.Some?) && 0 <= r.value.score <= 100)
    ensures r.Some? <==> CanNestInto(g.classes, g.nodes, c, Cls(enclClass))
  {
    var parent := if enclMethod.Some? then Meth(enclClass, enclMethod.value) else Cls(enclClass);
    if CanNestInto(g.classes, g.nodes, c, parent) then Some(Maybe(parent, ANONYMOUS, score)) else None
  }

  /** checkOrAddInner. */
  function InnerCandidate(g: Env, c: nat, enclClass: nat, score: int): (r: seq<NestRankResult>)
    requires Ready(g) && c < |g.classes| && enclClass < |g.classes|
    ensures r == [] || r == [Maybe(Cls(enclClass), INNER, score)]
    ensures r != [] <==> CanNestInto(g.classes, g.nodes, c, Cls(enclClass))
  {
    if CanNestInto(g.classes, g.nodes, c, Cls(enclClass)) then [Maybe(Cls(enclClass), INNER, score)] else []
  }

  /** tryEnum: an enum constant body is an anonymous class in its enum, unless that is java/lang/Enum. */
  function TryEnum(g: Env, c: nat): (r: Option<NestRankResult>)
    requires Ready(g) && c < |g.classes|
    ensures r.Some? <==>
      (IsEnum(g.classes[c]) && g.classes[g.classes[c].superClass.value].name != "java/lang/Enum" &&
       CanNestInto(g.classes, g.nodes, c, Cls(g.classes[c].superClass.value)))
    ensures r.Some? ==> r.value == Maybe(Cls(g.classes[c].superClass.value), ANONYMOUS, 100)
  {
    assert ClassFactsOk(g.classes, c);
    if !IsEnum(g.classes[c]) then None
    else
      var superClass := g.classes[c].superClass.value;
      if g.classes[superClass].name == "java/lang/Enum" then None
      else AnonymousCandidate(g, c, superClass, None, 100)
  }

  function HasSyntheticFields(classes: seq<ClassFacts>, c: nat): bool
    requires c < |classes|
  {
    |SyntheticFields(classes, c)| > 0
  }

  /** The anonymous score: 90 for a single declared method, else 60 with synthetic fields, else 30; five
      less when the class is not package private. */
  function AnonymousScore(declaredMethods: nat, hasSyntheticFields: bool, packagePrivate: bool): (score: int)
    ensures score in {90, 85, 60, 55, 30, 25}
    ensures packagePrivate <==> score % 10 == 0
    ensures score >= 85 <==> declaredMethods == 1
    ensures declaredMethods != 1 ==> (score >= 55 <==> hasSyntheticFields)
  {
    (if declaredMethods == 1 then 90 else if hasSyntheticFields then 60 else 30) - (if packagePrivate then 0 else 5)
  }

  /** The instance constructors of c. */
  function Constructors(classes: seq<ClassFacts>, c: nat): (ks: seq<nat>)
    requires c < |classes|
    ensures forall i :: 0 <= i < |ks| ==> ks[i] < |classes[c].methods|
  {
    MethodsOfKind(classes[c].methods, InstanceConstructor, 0)
  }

  /** tryAnonymous: one constructor, called from exactly one method, which belongs to another class. */
  function TryAnonymous(g: Env, c: nat): (r: Option<NestRankResult>)
    requires Ready(g) && c < |g.classes|
  {
    if !CanBeAnonymous(g, c) then None
    else
      var ctors := Constructors(g.classes, c);
      if |ctors| != 1 then None
      else
        assert ClassFactsOk(g.classes, c) && MethodFactsOk(g.classes, g.classes[c].methods[ctors[0]]);
        var refs := g.classes[c].methods[ctors[0]].refsIn;
        if |refs| != 1 then None
        else
          var enclMethod := refs[0];
          if enclMethod.cls == c then None
          else
            var score := AnonymousScore(|MethodsOfKind(g.classes[c].methods, Declared, 0)|,
              HasSyntheticFields(g.classes, c), IsPackagePrivate(g.classes[c]));
            AnonymousCandidate(g, c, enclMethod.cls, Some(enclMethod.index), score)
  }

  /** The single caller of the single constructor, when there is one. */
  predicate CreatedOnceBy(g: Env, c: nat, m: MethodRef)
    requires c < |g.classes|
  {
    var ctors := Constructors(g.classes, c);
    |ctors| == 1 && g.classes[c].methods[ctors[0]].refsIn == [m]
  }

  lemma TryAnonymousSpec(g: Env, c: nat)
    requires Ready(g) && c < |g.classes|
    ensures TryAnonymous(g, c).Some? <==>
      CanBeAnonymous(g, c) &&
      exists m :: CreatedOnceBy(g, c, m) && m.cls != c && m.cls < |g.classes| && CanNestInto(g.classes, g.nodes, c, Cls(m.cls))
    ensures forall m :: TryAnonymous(g, c).Some? && CreatedOnceBy(g, c, m) ==>
      TryAnonymous(g, c).value == Maybe(Meth(m.cls, m.index), ANONYMOUS,
        AnonymousScore(|MethodsOfKind(g.classes[c].methods, Declared, 0)|,
          HasSyntheticFields(g.classes, c), IsPackagePrivate(g.classes[c])))
  {
    var ctors := Constructors(g.classes, c);
    if CanBeAnonymous(g, c) && |ctors| == 1 {
      var refs := g.classes[c].methods[ctors[0]].refsIn;
      if |refs| == 1 {
        var m := refs[0];
        assert refs == [m];
        assert CreatedOnceBy(g, c, m);
        forall m' | CreatedOnceBy(g, c, m') ensures m' == m {
          assert [m'] == [m];
        }
        assert ClassFactsOk(g.classes, c) && MethodFactsOk(g.classes, g.classes[c].methods[ctors[0]]);
        assert refs[0] == m && ValidMethodRef(g.classes, m);
      } else {
        assert forall m' :: !CreatedOnceBy(g, c, m');
      }
    }
  }

  // ---------------------------------------------------------------- the inner signals

  /** A LinkedHashSet fed with s after acc: the first occurrences, in order. */
  function AppendNew(acc: seq<nat>, s: seq<nat>): (r: seq<nat>)
    ensures forall y :: y in r <==> y in acc || y in s
    ensures NoRepeats(acc) ==> NoRepeats(r)
    ensures |acc| <= |r|
    ensures r[..|acc|] == acc
    decreases |s|
  {
    if s == [] then acc
    else if s[0] in acc then AppendNew(acc, s[1..])
    else
      var r := AppendNew(acc + [s[0]], s[1..]);
      assert r[..|acc|] == r[..|acc| + 1][..|acc|];
      r
  }

  /** The classes owning the methods of `refs`. */
  function RefClasses(refs: seq<MethodRef>): (cs: seq<nat>)
    ensures |cs| == |refs| && forall i :: 0 <= i < |refs| ==> cs[i] == refs[i].cls
  {
    seq(|refs|, i requires 0 <= i < |refs| => refs[i].cls)
  }

  /** The classes calling the synthetic accessors of c, in order. */
  function IncomingOf(classes: seq<ClassFacts>, c: nat, ks: seq<nat>): (cs: seq<nat>)
    requires c < |classes| && forall i :: 0 <= i < |ks| ==> ks[i] < |classes[c].methods|
    ensures forall y :: y in cs <==> exists i, j ::
      0 <= i < |ks| && 0 <= j < |classes[c].methods[ks[i]].refsIn| && classes[c].methods[ks[i]].refsIn[j].cls == y
  {
    if ks == [] then []
    else
      var rest := IncomingOf(classes, c, ks[1..]);
      var here := RefClasses(classes[c].methods[ks[0]].refsIn);
      assert forall i :: 1 <= i < |ks| ==> ks[i] == ks[1..][i - 1];
      assert forall y :: y in rest ==> exists i, j ::
        0 <= i < |ks| && 0 <= j < |classes[c].methods[ks[i]].refsIn| && classes[c].methods[ks[i]].refsIn[j].cls == y by {
        forall y | y in rest ensures exists i, j ::
          0 <= i < |ks| && 0 <= j < |classes[c].methods[ks[i]].refsIn| && classes[c].methods[ks[i]].refsIn[j].cls == y {
          var i, j :| 0 <= i < |ks[1..]| && 0 <= j < |classes[c].methods[ks[1..][i]].refsIn| &&
            classes[c].methods[ks[1..][i]].refsIn[j].cls == y;
          assert ks[1..][i] == ks[i + 1];
        }
      }
      here + rest
  }

  /** The incoming accessor references of tryInner: callers of the synthetic non-bridge methods, deduplicated. */
  function IncomingRefs(classes: seq<ClassFacts>, c: nat): (cs: seq<nat>)
    requires c < |classes|
  {
    AppendNew([], IncomingOf(classes, c, MethodsOfKind(classes[c].methods, SyntheticAccessor, 0)))
  }

  /** A call out to a static synthetic method of another class. */
  predicate IsOutgoingAccessorCall(classes: seq<ClassFacts>, c: nat, r: MethodRef)
    requires ValidMethodRef(classes, r)
  {
    r.cls != c && MethodOf(classes, r).isStatic && MethodOf(classes, r).isSynthetic
  }

  function OutgoingOf(classes: seq<ClassFacts>, c: nat, refs: seq<MethodRef>): (cs: seq<nat>)
    requires forall i :: 0 <= i < |refs| ==> ValidMethodRef(classes, refs[i])
    ensures forall y :: y in cs ==> y != c
    ensures InArena(classes, cs) && |cs| <= |refs|
  {
    if refs == [] then []
    else (if IsOutgoingAccessorCall(classes, c, refs[0]) then [refs[0].cls] else []) + OutgoingOf(classes, c, refs[1..])
  }

  /** The classes OutgoingOf lists are exactly the owners of the outgoing accessor calls among refs. */
  lemma {:induction false} OutgoingOfMembers(classes: seq<ClassFacts>, c: nat, refs: seq<MethodRef>, y: nat)
    requires forall i :: 0 <= i < |refs| ==> ValidMethodRef(classes, refs[i])
    ensures y in OutgoingOf(classes, c, refs) <==>
      exists i :: 0 <= i < |refs| && refs[i].cls == y && IsOutgoingAccessorCall(classes, c, refs[i])
  {
    if refs != [] {
      var tail := refs[1..];
      OutgoingOfMembers(classes, c, tail, y);
      if y in OutgoingOf(classes, c, tail) {
        var i :| 0 <= i < |tail| && tail[i].cls == y && IsOutgoingAccessorCall(classes, c, tail[i]);
        assert refs[i + 1] == tail[i];
      }
      if exists i :: 0 <= i < |refs| && refs[i].cls == y && IsOutgoingAccessorCall(classes, c, refs[i]) {
        var i :| 0 <= i < |refs| && refs[i].cls == y && IsOutgoingAccessorCall(classes, c, refs[i]);
        if i > 0 {
          assert tail[i - 1] == refs[i];
        }
      }
    }
  }

  function OutgoingFrom(classes: seq<ClassFacts>, c: nat, k: nat): (cs: seq<nat>)
    requires FactsOk(classes) && c < |classes| && k <= |classes[c].methods|
    ensures forall y :: y in cs ==> y != c
    ensures InArena(classes, cs)
    decreases |classes[c].methods| - k
  {
    if k == |classes[c].methods| then []
    else
      assert ClassFactsOk(classes, c) && MethodFactsOk(classes, classes[c].methods[k]);
      OutgoingOf(classes, c, classes[c].methods[k].refsOut) + OutgoingFrom(classes, c, k + 1)
  }

  /** The outgoing accessor references of tryInner: other classes whose static synthetic methods c calls. */
  function OutgoingRefs(classes: seq<ClassFacts>, c: nat): (cs: seq<nat>)
    requires FactsOk(classes) && c < |classes|
    ensures forall y :: y in cs ==> y != c
  {
    AppendNew([], OutgoingFrom(classes, c, 0))
  }

  lemma IncomingRefsInArena(classes: seq<ClassFacts>, c: nat)
    requires FactsOk(classes) && c < |classes|
    ensures InArena(classes, IncomingRefs(classes, c))
  {
    var ks := MethodsOfKind(classes[c].methods, SyntheticAccessor, 0);
    var r := IncomingRefs(classes, c);
    forall k | 0 <= k < |r| ensures r[k] < |classes| {
      var y := r[k];
      assert y in r;
      var i, j :| 0 <= i < |ks| && 0 <= j < |classes[c].methods[ks[i]].refsIn| && classes[c].methods[ks[i]].refsIn[j].cls == y;
      assert ClassFactsOk(classes, c) && MethodFactsOk(classes, classes[c].methods[ks[i]]);
    }
  }

  lemma OutgoingRefsInArena(classes: seq<ClassFacts>, c: nat)
    requires FactsOk(classes) && c < |classes|
    ensures InArena(classes, OutgoingRefs(classes, c))
  {
    var all := OutgoingFrom(classes, c, 0);
    var r := OutgoingRefs(classes, c);
    forall k | 0 <= k < |r| ensures r[k] < |classes| {
      assert r[k] in r;
      var j :| 0 <= j < |all| && all[j] == r[k];
    }
  }

  /** All references share one top-level class (the top-level set of tryInner has size 1). */
  predicate SharesOneTopLevel(g: Env, refs: seq<nat>)
    requires Ready(g) && InArena(g.classes, refs)
  {
    |refs| > 0 && forall k :: 0 <= k < |refs| ==> TopLevelClass(g.classes, g.nodes, refs[k]) == TopLevelClass(g.classes, g.nodes, refs[0])
  }

  /** What the captured-field test of tryInner finds. */
  datatype FieldSignal = NoCapturedField | TooManySyntheticFields | CapturedField(fieldType: nat)

  function FieldSignalOf(classes: seq<ClassFacts>, c: nat): (s: FieldSignal)
    requires FactsOk(classes) && c < |classes|
    ensures s.CapturedField? ==> s.fieldType < |classes| && classes[s.fieldType].isReal && classes[s.fieldType].elementClass.None?
  {
    var fields := SyntheticFields(classes, c);
    if |fields| == 0 then NoCapturedField
    else if |fields| > 1 then TooManySyntheticFields
    else
      var t := fields[0].fieldType;
      assert fields[0] in classes[c].fields;
      assert ClassFactsOk(classes, c);
      if classes[t].isReal && classes[t].elementClass.None? then CapturedField(t) else NoCapturedField
  }

  /** tryNestClass: nothing for a class that cannot be nested, else the best of the three signals. In
      check-only mode the candidates are only computed; otherwise they are also recorded (see Added). */
  function TryNestClass(g: Env, c: nat, checkOnly: bool): (r: Option<NestRankResult>)
    requires Ready(g) && c < |g.classes|
    ensures !IsNestable(g.classes, g.nodes, c) ==> r.None?
    decreases if checkOnly then 0 else 1, 4, 0
  {
    if !IsNestable(g.classes, g.nodes, c) then None
    else BestResult([TryEnum(g, c), TryAnonymous(g, c), BestResult(OptionSeqs(InnerCandidates(g, c, checkOnly)))])
  }

  function OptionSeqs(rs: seq<NestRankResult>): (os: seq<Option<NestRankResult>>)
    ensures |os| == |rs| && forall i :: 0 <= i < |rs| ==> os[i] == Some(rs[i])
  {
    seq(|rs|, i requires 0 <= i < |rs| => Some(rs[i]))
  }

  /** tryInner: the inner candidates in the order checkOrAddInner sees them. */
  function InnerCandidates(g: Env, c: nat, checkOnly: bool): (rs: seq<NestRankResult>)
    requires Ready(g) && c < |g.classes|
    ensures InnerCandidatesOk(g, c, rs)
    decreases if checkOnly then 0 else 1, 3, 0
  {
    if !CanBeInner(g.classes, c) then []
    else
      match FieldSignalOf(g.classes, c)
      case TooManySyntheticFields => []
      case CapturedField(t) => InnerCandidate(g, c, t, 90)
      case NoCapturedField => AccessorSignals(g, c, checkOnly)
  }

  /** The accessor part of tryInner: incoming references at 80 (one top-level class) or 60, then outgoing
      ones at 60 or 40. */
  function AccessorSignals(g: Env, c: nat, checkOnly: bool): (rs: seq<NestRankResult>)
    requires Ready(g) && c < |g.classes|
    ensures InnerCandidatesOk(g, c, rs)
    decreases if checkOnly then 0 else 1, 2, 0
  {
    var incoming := IncomingRefs(g.classes, c);
    var outgoing := OutgoingRefs(g.classes, c);
    IncomingRefsInArena(g.classes, c);
    OutgoingRefsInArena(g.classes, c);
    var a := AccessorCandidates(g, c, incoming, AccessorBase(g, incoming, 80), checkOnly);
    var b := AccessorCandidates(g, c, outgoing, AccessorBase(g, outgoing, 60), checkOnly);
    CandidatesConcat(g, c, a, b);
    a + b
  }

  /** The scores of the accessor signals: the incoming candidates, scored from 80 or 60, come first; the
      outgoing ones, scored from 60 or 40, follow. */
  lemma AccessorSignalsScored(g: Env, c: nat, checkOnly: bool)
    requires Ready(g) && c < |g.classes|
    ensures InArena(g.classes, IncomingRefs(g.classes, c)) && InArena(g.classes, OutgoingRefs(g.classes, c))
    ensures var rs := AccessorSignals(g, c, checkOnly);
      var incoming := IncomingRefs(g.classes, c);
      var k := |AccessorCandidates(g, c, incoming, AccessorBase(g, incoming, 80), checkOnly)|;
      k <= |rs| &&
      forall i :: 0 <= i < |rs| ==>
        if i < k then ScoredFrom(g, c, rs[i], incoming, 80, checkOnly)
        else ScoredFrom(g, c, rs[i], OutgoingRefs(g.classes, c), 60, checkOnly)
  {
    var incoming := IncomingRefs(g.classes, c);
    var outgoing := OutgoingRefs(g.classes, c);
    IncomingRefsInArena(g.classes, c);
    OutgoingRefsInArena(g.classes, c);
    var a := AccessorCandidates(g, c, incoming, AccessorBase(g, incoming, 80), checkOnly);
    var b := AccessorCandidates(g, c, outgoing, AccessorBase(g, outgoing, 60), checkOnly);
    CandidatesScoredFrom(g, c, incoming, 80, checkOnly);
    CandidatesScoredFrom(g, c, outgoing, 60, checkOnly);
    AccessorSplit(g, c, incoming, outgoing, checkOnly, a, b);
  }

  /** r is the candidate of one of refs, with the score tryInner gives it from the base of refs at `high`. */
  predicate ScoredFrom(g: Env, c: nat, r: NestRankResult, refs: seq<nat>, high: int, checkOnly: bool)
    requires Ready(g) && c < |g.classes| && InArena(g.classes, refs)
  {
    && r.subject.Cls? && r.subject.c in refs
    && r.score == Maybe(r.subject, INNER, AccessorScore(g, c, r.subject.c, AccessorBase(g, refs, high), checkOnly)).score
  }

  lemma AccessorSplit(g: Env, c: nat, incoming: seq<nat>, outgoing: seq<nat>, checkOnly: bool,
                      a: seq<NestRankResult>, b: seq<NestRankResult>)
    requires Ready(g) && c < |g.classes| && InArena(g.classes, incoming) && InArena(g.classes, outgoing)
    requires forall i :: 0 <= i < |a| ==> ScoredFrom(g, c, a[i], incoming, 80, checkOnly)
    requires forall j :: 0 <= j < |b| ==> ScoredFrom(g, c, b[j], outgoing, 60, checkOnly)
    ensures forall i :: 0 <= i < |a + b| ==>
      if i < |a| then ScoredFrom(g, c, (a + b)[i], incoming, 80, checkOnly)
      else ScoredFrom(g, c, (a + b)[i], outgoing, 60, checkOnly)
  {
    forall i | 0 <= i < |a + b|
      ensures if i < |a| then ScoredFrom(g, c, (a + b)[i], incoming, 80, checkOnly)
        else ScoredFrom(g, c, (a + b)[i], outgoing, 60, checkOnly)
    {
      if i < |a| {
        assert (a + b)[i] == a[i];
      } else {
        assert (a + b)[i] == b[i - |a|];
      }
    }
  }

  lemma CandidatesScoredFrom(g: Env, c: nat, refs: seq<nat>, high: int, checkOnly: bool)
    requires Ready(g) && c < |g.classes| && InArena(g.classes, refs)
    ensures var rs := AccessorCandidates(g, c, refs, AccessorBase(g, refs, high), checkOnly);
      forall i :: 0 <= i < |rs| ==> ScoredFrom(g, c, rs[i], refs, high, checkOnly)
  {
    var rs := AccessorCandidates(g, c, refs, AccessorBase(g, refs, high), checkOnly);
    forall i | 0 <= i < |rs| ensures ScoredFrom(g, c, rs[i], refs, high, checkOnly) {
      assert rs[i].subject.c in refs;
    }
  }

  /** The base score of an accessor signal: `high` when all references share one top-level class, else 20 less. */
  function AccessorBase(g: Env, refs: seq<nat>, high: int): (base: int)
    requires Ready(g) && InArena(g.classes, refs)
  {
    if SharesOneTopLevel(g, refs) then high else high - 20
  }

  predicate InnerCandidatesOk(g: Env, c: nat, rs: seq<NestRankResult>)
    requires Ready(g) && c < |g.classes|
  {
    forall i :: 0 <= i < |rs| ==>
      (rs[i].nestType == INNER && rs[i].subject.Cls? &&
       rs[i].subject.c < |g.classes| && CanNestInto(g.classes, g.nodes, c, rs[i].subject))
  }

  lemma CandidatesConcat(g: Env, c: nat, a: seq<NestRankResult>, b: seq<NestRankResult>)
    requires Ready(g) && c < |g.classes| && InnerCandidatesOk(g, c, a) && InnerCandidatesOk(g, c, b)
    ensures InnerCandidatesOk(g, c, a + b)
  {
    forall i | 0 <= i < |a + b| ensures (a + b)[i] == if i < |a| then a[i] else b[i - |a|] {
    }
  }

  /** The score tryInner gives one accessor reference: 20 less when the reference is not top level, and
      (outside check-only mode) 20 less again when the reference itself ranks best as nested into c with
      a higher score. */
  function AccessorScore(g: Env, c: nat, ref: nat, base: int, checkOnly: bool): (score: int)
    requires Ready(g) && c < |g.classes| && ref < |g.classes|
    ensures base - 40 <= score <= base
    ensures IsTopLevel(g.classes, g.nodes, ref) && checkOnly ==> score == base
    ensures !IsTopLevel(g.classes, g.nodes, ref) ==> score <= base - 20
    ensures var s := if IsTopLevel(g.classes, g.nodes, ref) then base else base - 20;
      score == s - (if !checkOnly && ReverseRanksHigher(g, c, ref, s) then 20 else 0)
    decreases if checkOnly then 0 else 1, 0, 0
  {
    var score := if IsTopLevel(g.classes, g.nodes, ref) then base else base - 20;
    if !checkOnly && ReverseRanksHigher(g, c, ref, score) then score - 20 else score
  }

  /** The reverse check: ranking ref in check-only mode puts it into c with a higher score. */
  predicate ReverseRanksHigher(g: Env, c: nat, ref: nat, score: int)
    requires Ready(g) && c < |g.classes| && ref < |g.classes|
    decreases 0, 5, 0
  {
    var back := TryNestClass(g, ref, true);
    back.Some? && back.value.subject == Cls(c) && back.value.score > score
  }

  function AccessorCandidates(g: Env, c: nat, refs: seq<nat>, base: int, checkOnly: bool): (rs: seq<NestRankResult>)
    requires Ready(g) && c < |g.classes| && InArena(g.classes, refs)
    ensures |rs| <= |refs|
    ensures forall i :: 0 <= i < |rs| ==>
      (rs[i].nestType == INNER && rs[i].subject.Cls? &&
       rs[i].subject.c in refs && CanNestInto(g.classes, g.nodes, c, rs[i].subject))
    ensures forall i :: 0 <= i < |rs| ==>
      rs[i].score == Maybe(rs[i].subject, INNER, AccessorScore(g, c, rs[i].subject.c, base, checkOnly)).score
    decreases if checkOnly then 0 else 1, 1, |refs|
  {
    if refs == [] then []
    else
      var head := InnerCandidate(g, c, refs[0], AccessorScore(g, c, refs[0], base, checkOnly));
      var rest := AccessorCandidates(g, c, refs[1..], base, checkOnly);
      AccessorCons(g, c, refs, base, checkOnly, head, rest);
      head + rest
  }

  /** The accessor candidates of refs are the candidate of its head followed by those of its tail. */
  lemma AccessorCons(g: Env, c: nat, refs: seq<nat>, base: int, checkOnly: bool, head: seq<NestRankResult>, rest: seq<NestRankResult>)
    requires Ready(g) && c < |g.classes| && InArena(g.classes, refs) && refs != []
    requires head == [] || head == [Maybe(Cls(refs[0]), INNER, AccessorScore(g, c, refs[0], base, checkOnly))]
    requires head != [] ==> CanNestInto(g.classes, g.nodes, c, Cls(refs[0]))
    requires |rest| <= |refs| - 1
    requires forall i :: 0 <= i < |rest| ==>
      (rest[i].nestType == INNER && rest[i].subject.Cls? &&
       rest[i].subject.c in refs[1..] && CanNestInto(g.classes, g.nodes, c, rest[i].subject))
    requires forall i :: 0 <= i < |rest| ==>
      rest[i].score == Maybe(rest[i].subject, INNER, AccessorScore(g, c, rest[i].subject.c, base, checkOnly)).score
    ensures |head + rest| <= |refs|
    ensures forall i :: 0 <= i < |head + rest| ==>
      ((head + rest)[i].nestType == INNER && (head + rest)[i].subject.Cls? &&
       (head + rest)[i].subject.c in refs && CanNestInto(g.classes, g.nodes, c, (head + rest)[i].subject))
    ensures forall i :: 0 <= i < |head + rest| ==>
      (head + rest)[i].score == Maybe((head + rest)[i].subject, INNER, AccessorScore(g, c, (head + rest)[i].subject.c, base, checkOnly)).score
  decreases if checkOnly then 0 else 1, 0, 1
  {
    forall i | 0 <= i < |head + rest|
      ensures (head + rest)[i] == if i < |head| then head[i] else rest[i - |head|]
    {
    }
    forall i | 0 <= i < |rest| ensures rest[i].subject.c in refs {
      assert rest[i].subject.c in refs[1..];
    }
  }

  /** The results findResults hands to addResult when the class has no nest, in call order: the enum
      candidate, the anonymous candidate, then the inner candidates. */
  function Added(g: Env, c: nat): (rs: seq<NestRankResult>)
    requires Ready(g) && c < |g.classes|
    ensures !IsNestable(g.classes, g.nodes, c) ==> rs == []
  {
    if !IsNestable(g.classes, g.nodes, c) then []
    else OptionSeq(TryEnum(g, c)) + OptionSeq(TryAnonymous(g, c)) + InnerCandidates(g, c, false)
  }

  // ---------------------------------------------------------------- the result map (a LinkedHashMap by subject)

  predicate SubjectsDistinct(rs: seq<NestRankResult>)
  {
    forall i, j :: 0 <= i < j < |rs| ==> rs[i].subject != rs[j].subject
  }

  function IndexOfSubject(rs: seq<NestRankResult>, s: Subject): (i: int)
    ensures -1 <= i < |rs|
    ensures i >= 0 ==> rs[i].subject == s && forall j :: 0 <= j < i ==> rs[j].subject != s
    ensures i < 0 ==> forall j :: 0 <= j < |rs| ==> rs[j].subject != s
  {
    if rs == [] then -1
    else if rs[|rs| - 1].subject == s && IndexOfSubject(rs[..|rs| - 1], s) < 0 then |rs| - 1
    else IndexOfSubject(rs[..|rs| - 1], s)
  }

  /** addResultNoCheck: the entry of the subject is replaced, in place, only by a strictly higher score;
      a new subject is appended. */
  function AddNoCheck(rs: seq<NestRankResult>, r: NestRankResult): (rs': seq<NestRankResult>)
  {
    var i := IndexOfSubject(rs, r.subject);
    if i < 0 then rs + [r] else if r.score > rs[i].score then rs[i := r] else rs
  }

  /** The subject of r has an entry, with at least the score of r. */
  predicate HoldsAtLeast(rs: seq<NestRankResult>, r: NestRankResult)
  {
    var k := IndexOfSubject(rs, r.subject);
    k >= 0 && r.score <= rs[k].score
  }

  /** With distinct subjects, the entry of a subject is its only position. */
  lemma IndexOfDistinct(rs: seq<NestRankResult>, i: nat)
    requires SubjectsDistinct(rs) && i < |rs|
    ensures IndexOfSubject(rs, rs[i].subject) == i
  {
  }

  lemma AddNoCheckSpec(rs: seq<NestRankResult>, r: NestRankResult)
    requires SubjectsDistinct(rs)
    ensures var rs' := AddNoCheck(rs, r);
      && SubjectsDistinct(rs')
      && HoldsAtLeast(rs', r)
      && (forall i :: 0 <= i < |rs'| ==> rs'[i] == r || (i < |rs| && rs'[i] == rs[i]))
      && (forall i :: 0 <= i < |rs| ==> rs'[i].subject == rs[i].subject && rs[i].score <= rs'[i].score)
      && |rs| <= |rs'| <= |rs| + 1
    // the entry of the subject is taken over only by a strictly higher score; a tie keeps the old entry
    ensures var rs' := AddNoCheck(rs, r);
      forall i :: 0 <= i < |rs| ==>
        rs'[i] == (if rs[i].subject == r.subject && r.score > rs[i].score then r else rs[i])
    // a subject without an entry is appended; one with an entry keeps the length
    ensures (forall i :: 0 <= i < |rs| ==> rs[i].subject != r.subject) <==> AddNoCheck(rs, r) == rs + [r]
  {
    var i := IndexOfSubject(rs, r.subject);
    var rs' := AddNoCheck(rs, r);
    if i < 0 {
      assert (rs + [r])[|rs|] == r;
      IndexOfDistinct(rs', |rs|);
    } else {
      if r.score > rs[i].score { assert rs'[i] == r; } else { assert rs'[i] == rs[i]; }
      IndexOfDistinct(rs', i);
    }
  }

  /** The results after feeding xs to addResultNoCheck, one by one. */
  function AddNoCheckAll(rs: seq<NestRankResult>, xs: seq<NestRankResult>): (rs': seq<NestRankResult>)
  {
    if xs == [] then rs else AddNoCheck(AddNoCheckAll(rs, xs[..|xs| - 1]), xs[|xs| - 1])
  }

  /** Each entry is one of the fed results, subjects are distinct, and every fed result has an entry of its
      subject with at least its score: each subject holds its greatest score. */
  predicate RecordsMax(rs: seq<NestRankResult>, xs: seq<NestRankResult>)
  {
    && SubjectsDistinct(rs)
    && (forall i :: 0 <= i < |rs| ==> rs[i] in xs)
    && (forall j :: 0 <= j < |xs| ==> HoldsAtLeast(rs, xs[j]))
  }

  lemma {:induction false} AddNoCheckAllRecordsMax(xs: seq<NestRankResult>)
    ensures RecordsMax(AddNoCheckAll([], xs), xs)
  {
    if xs != [] {
      var pre := xs[..|xs| - 1];
      AddNoCheckAllRecordsMax(pre);
      RecordsMaxStep(AddNoCheckAll([], pre), pre, xs[|xs| - 1]);
      assert xs == pre + [xs[|xs| - 1]];
    }
  }

  lemma RecordsMaxStep(rs: seq<NestRankResult>, pre: seq<NestRankResult>, x: NestRankResult)
    requires RecordsMax(rs, pre)
    ensures RecordsMax(AddNoCheck(rs, x), pre + [x])
  {
    AddNoCheckSpec(rs, x);
    StepEntriesFed(rs, pre, x);
    StepCoversFed(rs, pre, x);
  }

  lemma StepEntriesFed(rs: seq<NestRankResult>, pre: seq<NestRankResult>, x: NestRankResult)
    requires SubjectsDistinct(rs) && forall i :: 0 <= i < |rs| ==> rs[i] in pre
    ensures forall i :: 0 <= i < |AddNoCheck(rs, x)| ==> AddNoCheck(rs, x)[i] in pre + [x]
  {
    var rs' := AddNoCheck(rs, x);
    AddNoCheckSpec(rs, x);
    forall i | 0 <= i < |rs'| ensures rs'[i] in pre + [x] {
      if rs'[i] != x {
        assert rs[i] in pre;
      }
    }
  }

  lemma StepCoversFed(rs: seq<NestRankResult>, pre: seq<NestRankResult>, x: NestRankResult)
    requires SubjectsDistinct(rs) && forall j :: 0 <= j < |pre| ==> HoldsAtLeast(rs, pre[j])
    ensures forall j :: 0 <= j < |pre + [x]| ==> HoldsAtLeast(AddNoCheck(rs, x), (pre + [x])[j])
  {
    var xs := pre + [x];
    var rs' := AddNoCheck(rs, x);
    AddNoCheckSpec(rs, x);
    forall j | 0 <= j < |xs| ensures HoldsAtLeast(rs', xs[j]) {
      if j < |pre| {
        assert xs[j] == pre[j];
        var k := IndexOfSubject(rs, pre[j].subject);
        assert rs'[k].subject == rs[k].subject && rs[k].score <= rs'[k].score;
        IndexOfDistinct(rs', k);
      } else {
        assert xs[j] == x;
      }
    }
  }

  lemma AddNoCheckAllAppend(rs: seq<NestRankResult>, xs: seq<NestRankResult>, ys: seq<NestRankResult>)
    ensures AddNoCheckAll(rs, xs + ys) == AddNoCheckAll(AddNoCheckAll(rs, xs), ys)
    decreases |ys|
  {
    if ys != [] {
      assert (xs + ys)[..|xs + ys| - 1] == xs + ys[..|ys| - 1];
      AddNoCheckAllAppend(rs, xs, ys[..|ys| - 1]);
    } else {
      assert xs + ys == xs;
    }
  }

  /** The addResultNoCheck calls of one addResult: a method subject is recorded only when there is no selected
      class or it belongs to it, and always adds a DUMMY entry for its class at the same score. */
  function Entries(selected: Option<nat>, r: NestRankResult): (xs: seq<NestRankResult>)
    ensures r.subject.Cls? ==> xs == [r]
    ensures r.subject.Meth? ==> |xs| >= 1 && xs[|xs| - 1] == Maybe(Cls(r.subject.c), DUMMY, r.score)
    ensures r.subject.Meth? ==> (r in xs <==> selected.None? || selected == Some(r.subject.c))
  {
    match r.subject
    case Meth(mc, _) =>
      (if selected.None? || selected == Some(mc) then [r] else []) + [Maybe(Cls(mc), DUMMY, r.score)]
    case Cls(_) => [r]
  }

  function EntriesAll(selected: Option<nat>, rs: seq<NestRankResult>): seq<NestRankResult>
  {
    if rs == [] then [] else EntriesAll(selected, rs[..|rs| - 1]) + Entries(selected, rs[|rs| - 1])
  }

  /** findResults: the nest itself at 100 when there is one, else every signal's candidate. */
  function FoundResults(g: Env, c: nat, selected: Option<nat>): (rs: seq<NestRankResult>)
    requires Ready(g) && c < |g.classes|
  {
    if g.nodes[c].nest.Some? then
      AddNoCheckAll([], Entries(selected, Maybe(g.nodes[c].nest.value.subject, g.nodes[c].nest.value.nestType, 100)))
    else AddNoCheckAll([], EntriesAll(selected, Added(g, c)))
  }

  /** With a nest, no signal runs: the nest at 100, and a DUMMY entry for the class of a method subject. */
  lemma FoundResultsOfNested(g: Env, c: nat, selected: Option<nat>)
    requires Ready(g) && c < |g.classes| && g.nodes[c].nest.Some?
    ensures var n := g.nodes[c].nest.value;
      FoundResults(g, c, selected) ==
        if n.subject.Cls? then [Yes(n.subject, n.nestType)]
        else if selected.None? || selected == Some(n.subject.c) then
          [Yes(n.subject, n.nestType), NestRankResult(Cls(n.subject.c), DUMMY, 100)]
        else [NestRankResult(Cls(n.subject.c), DUMMY, 100)]
  {
    NestEntriesRecorded(g.nodes[c].nest.value, selected);
  }

  lemma NestEntriesRecorded(n: Nest, selected: Option<nat>)
    ensures AddNoCheckAll([], Entries(selected, Maybe(n.subject, n.nestType, 100))) ==
        if n.subject.Cls? then [Yes(n.subject, n.nestType)]
        else if selected.None? || selected == Some(n.subject.c) then
          [Yes(n.subject, n.nestType), NestRankResult(Cls(n.subject.c), DUMMY, 100)]
        else [NestRankResult(Cls(n.subject.c), DUMMY, 100)]
  {
    var y := Yes(n.subject, n.nestType);
    var d := NestRankResult(Cls(n.subject.c), DUMMY, 100);
    var xs := Entries(selected, Maybe(n.subject, n.nestType, 100));
    assert AddNoCheckAll([], [y]) == [y] by {
      assert [y][..0] == [];
    }
    assert AddNoCheckAll([], [d]) == [d] by {
      assert [d][..0] == [];
    }
    if n.subject.Meth? {
      if selected.None? || selected == Some(n.subject.c) {
        assert xs == [y, d];
        assert [y, d][..1] == [y];
        assert IndexOfSubject([y], d.subject) < 0;
      } else {
        assert xs == [d];
      }
    }
  }

  /** Without a nest, every subject holds the greatest score its candidates gave it. */
  lemma FoundResultsRecordMax(g: Env, c: nat, selected: Option<nat>)
    requires Ready(g) && c < |g.classes| && g.nodes[c].nest.None?
    ensures RecordsMax(FoundResults(g, c, selected), EntriesAll(selected, Added(g, c)))
  {
    AddNoCheckAllRecordsMax(EntriesAll(selected, Added(g, c)));
  }

  // ---------------------------------------------------------------- finalizeResults

  /** A zero-score DUMMY entry for every class from k on, except c, that has no entry yet (in arena order). */
  function UnrankedClasses(rs: seq<NestRankResult>, c: nat, k: nat, n: nat): seq<NestRankResult>
    requires k <= n
    decreases n - k
  {
    if k == n then []
    else (if k != c && IndexOfSubject(rs, Cls(k)) < 0 then [No(Cls(k))] else []) + UnrankedClasses(rs, c, k + 1, n)
  }

  /** Every filler is a zero-score DUMMY for an unranked class in [k, n) other than c. */
  lemma {:induction false} UnrankedClassesShape(rs: seq<NestRankResult>, c: nat, k: nat, n: nat)
    requires k <= n
    ensures forall i :: 0 <= i < |UnrankedClasses(rs, c, k, n)| ==>
      var f := UnrankedClasses(rs, c, k, n)[i];
      IsDummy(f) && f.score == 0 && f.subject.Cls? && k <= f.subject.c < n && f.subject.c != c &&
      IndexOfSubject(rs, f.subject) < 0
    decreases n - k
  {
    if k < n {
      UnrankedClassesShape(rs, c, k + 1, n);
      var head: seq<NestRankResult> := if k != c && IndexOfSubject(rs, Cls(k)) < 0 then [No(Cls(k))] else [];
      var rest := UnrankedClasses(rs, c, k + 1, n);
      assert UnrankedClasses(rs, c, k, n) == head + rest;
      forall i | 0 <= i < |head + rest| ensures
        var f := (head + rest)[i];
        IsDummy(f) && f.score == 0 && f.subject.Cls? && k <= f.subject.c < n && f.subject.c != c &&
        IndexOfSubject(rs, f.subject) < 0
      {
        if i >= |head| {
          assert (head + rest)[i] == rest[i - |head|];
        }
      }
    }
  }

  /** Every unranked class in [k, n) other than c has a filler. */
  lemma {:induction false} UnrankedClassesCover(rs: seq<NestRankResult>, c: nat, k: nat, n: nat, x: nat)
    requires k <= x < n && x != c && IndexOfSubject(rs, Cls(x)) < 0
    ensures No(Cls(x)) in UnrankedClasses(rs, c, k, n)
    decreases n - k
  {
    if x > k {
      UnrankedClassesCover(rs, c, k + 1, n, x);
    }
  }

  lemma {:induction false} UnrankedClassesDistinct(rs: seq<NestRankResult>, c: nat, k: nat, n: nat)
    requires k <= n
    ensures SubjectsDistinct(UnrankedClasses(rs, c, k, n))
    decreases n - k
  {
    if k < n {
      UnrankedClassesDistinct(rs, c, k + 1, n);
      UnrankedClassesShape(rs, c, k + 1, n);
      var head: seq<NestRankResult> := if k != c && IndexOfSubject(rs, Cls(k)) < 0 then [No(Cls(k))] else [];
      var rest := UnrankedClasses(rs, c, k + 1, n);
      DistinctConcat(head, rest);
    }
  }

  /** A zero-score DUMMY entry for every method from j on of the selected class that has no entry yet. */
  function UnrankedMethods(rs: seq<NestRankResult>, sc: nat, j: nat, m: nat): seq<NestRankResult>
    requires j <= m
    decreases m - j
  {
    if j == m then []
    else (if IndexOfSubject(rs, Meth(sc, j)) < 0 then [No(Meth(sc, j))] else []) + UnrankedMethods(rs, sc, j + 1, m)
  }

  /** Every filler is a zero-score DUMMY for an unranked method in [j, m) of class sc. */
  lemma {:induction false} UnrankedMethodsShape(rs: seq<NestRankResult>, sc: nat, j: nat, m: nat)
    requires j <= m
    ensures forall i :: 0 <= i < |UnrankedMethods(rs, sc, j, m)| ==>
      var f := UnrankedMethods(rs, sc, j, m)[i];
      IsDummy(f) && f.score == 0 && f.subject.Meth? && f.subject.c == sc && j <= f.subject.m < m &&
      IndexOfSubject(rs, f.subject) < 0
    decreases m - j
  {
    if j < m {
      UnrankedMethodsShape(rs, sc, j + 1, m);
      var head: seq<NestRankResult> := if IndexOfSubject(rs, Meth(sc, j)) < 0 then [No(Meth(sc, j))] else [];
      var rest := UnrankedMethods(rs, sc, j + 1, m);
      assert UnrankedMethods(rs, sc, j, m) == head + rest;
      forall i | 0 <= i < |head + rest| ensures
        var f := (head + rest)[i];
        IsDummy(f) && f.score == 0 && f.subject.Meth? && f.subject.c == sc && j <= f.subject.m < m &&
        IndexOfSubject(rs, f.subject) < 0
      {
        if i >= |head| {
          assert (head + rest)[i] == rest[i - |head|];
        }
      }
    }
  }

  /** Every unranked method in [j, m) of class sc has a filler. */
  lemma {:induction false} UnrankedMethodsCover(rs: seq<NestRankResult>, sc: nat, j: nat, m: nat, x: nat)
    requires j <= x < m && IndexOfSubject(rs, Meth(sc, x)) < 0
    ensures No(Meth(sc, x)) in UnrankedMethods(rs, sc, j, m)
    decreases m - j
  {
    if x > j {
      UnrankedMethodsCover(rs, sc, j + 1, m, x);
    }
  }

  lemma {:induction false} UnrankedMethodsDistinct(rs: seq<NestRankResult>, sc: nat, j: nat, m: nat)
    requires j <= m
    ensures SubjectsDistinct(UnrankedMethods(rs, sc, j, m))
    decreases m - j
  {
    if j < m {
      UnrankedMethodsDistinct(rs, sc, j + 1, m);
      UnrankedMethodsShape(rs, sc, j + 1, m);
      var head: seq<NestRankResult> := if IndexOfSubject(rs, Meth(sc, j)) < 0 then [No(Meth(sc, j))] else [];
      var rest := UnrankedMethods(rs, sc, j + 1, m);
      DistinctConcat(head, rest);
    }
  }

  /** finalizeResults over an arena of n classes, the selected class having m methods. */
  function Finalize(rs: seq<NestRankResult>, c: nat, n: nat, selected: Option<nat>, m: nat): (out: seq<NestRankResult>)
  {
    rs + UnrankedClasses(rs, c, 0, n) + (if selected.Some? then UnrankedMethods(rs, selected.value, 0, m) else [])
  }

  /** The method count finalizeResults walks: that of the selected class, if any. */
  function SelectedMethodCount(g: Env, selected: Option<nat>): nat
    requires selected.Some? ==> selected.value < |g.classes|
  {
    if selected.Some? then |g.classes[selected.value].methods| else 0
  }

  /** rank: nothing for a class that is not real, else the found results followed by the fillers. */
  function Rank(g: Env, c: nat, selected: Option<nat>): (out: seq<NestRankResult>)
    requires Ready(g) && c < |g.classes| && (selected.Some? ==> selected.value < |g.classes|)
    ensures !g.classes[c].isReal ==> out == []
    ensures g.classes[c].isReal ==>
      (|FoundResults(g, c, selected)| <= |out| && out[..|FoundResults(g, c, selected)|] == FoundResults(g, c, selected))
  {
    if !g.classes[c].isReal then []
    else Finalize(FoundResults(g, c, selected), c, |g.classes|, selected, SelectedMethodCount(g, selected))
  }

  lemma DistinctConcat(a: seq<NestRankResult>, b: seq<NestRankResult>)
    requires SubjectsDistinct(a) && SubjectsDistinct(b)
    requires forall i, j :: 0 <= i < |a| && 0 <= j < |b| ==> a[i].subject != b[j].subject
    ensures SubjectsDistinct(a + b)
  {
    forall i, j | 0 <= i < j < |a + b| ensures (a + b)[i].subject != (a + b)[j].subject {
      if j >= |a| {
        assert (a + b)[j] == b[j - |a|];
        if i >= |a| { assert (a + b)[i] == b[i - |a|]; }
      }
    }
  }

  /** The fillers add no subject twice and none the results already hold. */
  lemma FinalizeDistinct(rs: seq<NestRankResult>, c: nat, n: nat, selected: Option<nat>, m: nat)
    requires SubjectsDistinct(rs)
    ensures SubjectsDistinct(Finalize(rs, c, n, selected, m))
  {
    var a := UnrankedClasses(rs, c, 0, n);
    var b := if selected.Some? then UnrankedMethods(rs, selected.value, 0, m) else [];
    UnrankedClassesShape(rs, c, 0, n);
    UnrankedClassesDistinct(rs, c, 0, n);
    if selected.Some? {
      UnrankedMethodsShape(rs, selected.value, 0, m);
      UnrankedMethodsDistinct(rs, selected.value, 0, m);
    }
    DistinctConcat(rs, a);
    forall i, j | 0 <= i < |rs + a| && 0 <= j < |b| ensures (rs + a)[i].subject != b[j].subject {
      if i >= |rs| { assert (rs + a)[i] == a[i - |rs|]; }
    }
    DistinctConcat(rs + a, b);
  }

  /** Every subject appears at most once in a ranking. */
  lemma RankIsDistinct(g: Env, c: nat, selected: Option<nat>)
    requires Ready(g) && c < |g.classes| && (selected.Some? ==> selected.value < |g.classes|)
    ensures SubjectsDistinct(Rank(g, c, selected))
  {
    if g.classes[c].isReal {
      FoundResultsDistinct(g, c, selected);
      FinalizeDistinct(FoundResults(g, c, selected), c, |g.classes|, selected, SelectedMethodCount(g, selected));
    }
  }

  /** Every class other than c below n is in the finalized results. */
  lemma FinalizeCoversClasses(rs: seq<NestRankResult>, c: nat, n: nat, selected: Option<nat>, m: nat, x: nat)
    requires x < n && x != c
    ensures exists i :: 0 <= i < |Finalize(rs, c, n, selected, m)| && Finalize(rs, c, n, selected, m)[i].subject == Cls(x)
  {
    var a := UnrankedClasses(rs, c, 0, n);
    var b := if selected.Some? then UnrankedMethods(rs, selected.value, 0, m) else [];
    var out := rs + a + b;
    assert out == Finalize(rs, c, n, selected, m);
    var k := IndexOfSubject(rs, Cls(x));
    if k >= 0 {
      assert out[k] == rs[k];
    } else {
      UnrankedClassesCover(rs, c, 0, n, x);
      var i :| 0 <= i < |a| && a[i] == No(Cls(x));
      assert out[|rs| + i] == a[i];
    }
  }

  /** Every class other than c appears in the ranking of a real class. */
  lemma RankCoversClasses(g: Env, c: nat, selected: Option<nat>, x: nat)
    requires Ready(g) && c < |g.classes| && (selected.Some? ==> selected.value < |g.classes|)
    requires g.classes[c].isReal && x < |g.classes| && x != c
    ensures exists i :: 0 <= i < |Rank(g, c, selected)| && Rank(g, c, selected)[i].subject == Cls(x)
  {
    var rs := FoundResults(g, c, selected);
    assert Rank(g, c, selected) == Finalize(rs, c, |g.classes|, selected, SelectedMethodCount(g, selected));
    FinalizeCoversClasses(rs, c, |g.classes|, selected, SelectedMethodCount(g, selected), x);
  }

  /** Every method below m of the selected class is in the finalized results. */
  lemma FinalizeCoversMethods(rs: seq<NestRankResult>, c: nat, n: nat, sc: nat, m: nat, j: nat)
    requires j < m
    ensures exists i :: 0 <= i < |Finalize(rs, c, n, Some(sc), m)| && Finalize(rs, c, n, Some(sc), m)[i].subject == Meth(sc, j)
  {
    var a := UnrankedClasses(rs, c, 0, n);
    var b := UnrankedMethods(rs, sc, 0, m);
    var out := rs + a + b;
    assert out == Finalize(rs, c, n, Some(sc), m);
    var k := IndexOfSubject(rs, Meth(sc, j));
    if k >= 0 {
      assert out[k] == rs[k];
    } else {
      UnrankedMethodsCover(rs, sc, 0, m, j);
      var i :| 0 <= i < |b| && b[i] == No(Meth(sc, j));
      assert out[|rs| + |a| + i] == b[i];
    }
  }

  /** Every method of the selected class appears in the ranking of a real class. */
  lemma RankCoversSelectedMethods(g: Env, c: nat, sc: nat, j: nat)
    requires Ready(g) && c < |g.classes| && sc < |g.classes|
    requires g.classes[c].isReal && j < |g.classes[sc].methods|
    ensures exists i :: 0 <= i < |Rank(g, c, Some(sc))| && Rank(g, c, Some(sc))[i].subject == Meth(sc, j)
  {
    var rs := FoundResults(g, c, Some(sc));
    assert Rank(g, c, Some(sc)) == Finalize(rs, c, |g.classes|, Some(sc), |g.classes[sc].methods|);
    FinalizeCoversMethods(rs, c, |g.classes|, sc, |g.classes[sc].methods|, j);
  }

  lemma {:induction false} AddNoCheckAllDistinct(rs: seq<NestRankResult>, xs: seq<NestRankResult>)
    requires SubjectsDistinct(rs)
    ensures SubjectsDistinct(AddNoCheckAll(rs, xs))
  {
    if xs != [] {
      AddNoCheckAllDistinct(rs, xs[..|xs| - 1]);
      AddNoCheckSpec(AddNoCheckAll(rs, xs[..|xs| - 1]), xs[|xs| - 1]);
    }
  }

  lemma FoundResultsDistinct(g: Env, c: nat, selected: Option<nat>)
    requires Ready(g) && c < |g.classes|
    ensures SubjectsDistinct(FoundResults(g, c, selected))
  {
    if g.nodes[c].nest.Some? {
      var n := g.nodes[c].nest.value;
      AddNoCheckAllDistinct([], Entries(selected, Maybe(n.subject, n.nestType, 100)));
    } else {
      AddNoCheckAllDistinct([], EntriesAll(selected, Added(g, c)));
    }
  }

  lemma AddNoCheckAllSingle(rs: seq<NestRankResult>, x: NestRankResult)
    ensures AddNoCheckAll(rs, [x]) == AddNoCheck(rs, x)
  {
    assert [x][..0] == [];
  }

  lemma EntriesAllStep(selected: Option<nat>, adds: seq<NestRankResult>, i: nat)
    requires i < |adds|
    ensures EntriesAll(selected, adds[..i + 1]) == EntriesAll(selected, adds[..i]) + Entries(selected, adds[i])
  {
    assert adds[..i + 1][..i] == adds[..i];
  }

  lemma UnrankedClassesStep(rs: seq<NestRankResult>, c: nat, k: nat, n: nat)
    requires k < n
    ensures UnrankedClasses(rs, c, k, n) ==
      (if k != c && IndexOfSubject(rs, Cls(k)) < 0 then [No(Cls(k))] else []) + UnrankedClasses(rs, c, k + 1, n)
  {
  }

  lemma UnrankedMethodsStep(rs: seq<NestRankResult>, sc: nat, j: nat, m: nat)
    requires j < m
    ensures UnrankedMethods(rs, sc, j, m) ==
      (if IndexOfSubject(rs, Meth(sc, j)) < 0 then [No(Meth(sc, j))] else []) + UnrankedMethods(rs, sc, j + 1, m)
  {
  }

  // ---------------------------------------------------------------- every ranked subject is in the arena

  predicate SubjectsValid(classes: seq<ClassFacts>, rs: seq<NestRankResult>)
  {
    forall i :: 0 <= i < |rs| ==> ValidSubject(classes, rs[i].subject)
  }

  lemma SubjectsValidConcat(classes: seq<ClassFacts>, a: seq<NestRankResult>, b: seq<NestRankResult>)
    requires SubjectsValid(classes, a) && SubjectsValid(classes, b)
    ensures SubjectsValid(classes, a + b)
  {
    forall i | 0 <= i < |a + b| ensures (a + b)[i] == if i < |a| then a[i] else b[i - |a|] {
    }
  }

  lemma TryEnumValid(g: Env, c: nat)
    requires Ready(g) && c < |g.classes|
    ensures SubjectsValid(g.classes, OptionSeq(TryEnum(g, c)))
  {
    assert ClassFactsOk(g.classes, c);
  }

  lemma TryAnonymousValid(g: Env, c: nat)
    requires Ready(g) && c < |g.classes|
    ensures SubjectsValid(g.classes, OptionSeq(TryAnonymous(g, c)))
  {
    TryAnonymousSpec(g, c);
    if TryAnonymous(g, c).Some? {
      var m :| CreatedOnceBy(g, c, m) && m.cls != c && m.cls < |g.classes| && CanNestInto(g.classes, g.nodes, c, Cls(m.cls));
      var ctors := Constructors(g.classes, c);
      assert ClassFactsOk(g.classes, c);
      assert MethodFactsOk(g.classes, g.classes[c].methods[ctors[0]]);
      assert g.classes[c].methods[ctors[0]].refsIn[0] == m;
    }
  }

  /** The candidates of the three signals name classes and methods of the arena. */
  lemma AddedValid(g: Env, c: nat)
    requires Ready(g) && c < |g.classes|
    ensures SubjectsValid(g.classes, Added(g, c))
  {
    if IsNestable(g.classes, g.nodes, c) {
      var e := OptionSeq(TryEnum(g, c));
      var a := OptionSeq(TryAnonymous(g, c));
      var i := InnerCandidates(g, c, false);
      TryEnumValid(g, c);
      TryAnonymousValid(g, c);
      SubjectsValidConcat(g.classes, e, a);
      SubjectsValidConcat(g.classes, e + a, i);
    }
  }

  lemma {:induction false} EntriesAllValid(classes: seq<ClassFacts>, selected: Option<nat>, rs: seq<NestRankResult>)
    requires SubjectsValid(classes, rs)
    ensures SubjectsValid(classes, EntriesAll(selected, rs))
    decreases |rs|
  {
    if rs != [] {
      var pre := rs[..|rs| - 1];
      var r := rs[|rs| - 1];
      assert SubjectsValid(classes, pre) by {
        forall i | 0 <= i < |pre| ensures ValidSubject(classes, pre[i].subject) {
          assert pre[i] == rs[i];
        }
      }
      EntriesAllValid(classes, selected, pre);
      assert ValidSubject(classes, r.subject);
      SubjectsValidConcat(classes, EntriesAll(selected, pre), Entries(selected, r));
    }
  }

  /** The result map holds only fed subjects. */
  lemma RecordedValid(classes: seq<ClassFacts>, xs: seq<NestRankResult>)
    requires SubjectsValid(classes, xs)
    ensures SubjectsValid(classes, AddNoCheckAll([], xs))
  {
    AddNoCheckAllRecordsMax(xs);
    var rs := AddNoCheckAll([], xs);
    forall i | 0 <= i < |rs| ensures ValidSubject(classes, rs[i].subject) {
      assert rs[i] in xs;
    }
  }

  lemma FoundResultsValid(g: Env, c: nat, selected: Option<nat>)
    requires Ready(g) && c < |g.classes|
    ensures SubjectsValid(g.classes, FoundResults(g, c, selected))
  {
    if g.nodes[c].nest.Some? {
      FoundResultsOfNested(g, c, selected);
      assert ValidSubject(g.classes, g.nodes[c].nest.value.subject);
    } else {
      AddedValid(g, c);
      EntriesAllValid(g.classes, selected, Added(g, c));
      RecordedValid(g.classes, EntriesAll(selected, Added(g, c)));
    }
  }

  /** The fillers are classes of the arena and methods of the selected class. */
  lemma FinalizeValid(classes: seq<ClassFacts>, rs: seq<NestRankResult>, c: nat, selected: Option<nat>, m: nat)
    requires SubjectsValid(classes, rs)
    requires selected.Some? ==> selected.value < |classes| && m == |classes[selected.value].methods|
    ensures SubjectsValid(classes, Finalize(rs, c, |classes|, selected, m))
  {
    var fc := UnrankedClasses(rs, c, 0, |classes|);
    UnrankedClassesShape(rs, c, 0, |classes|);
    var fm := if selected.Some? then UnrankedMethods(rs, selected.value, 0, m) else [];
    if selected.Some? {
      UnrankedMethodsShape(rs, selected.value, 0, m);
    }
    assert SubjectsValid(classes, fc);
    assert SubjectsValid(classes, fm);
    SubjectsValidConcat(classes, rs, fc);
    SubjectsValidConcat(classes, rs + fc, fm);
  }

  /** Every subject rank returns is a class of the environment or a method of one. */
  lemma RankSubjectsValid(g: Env, c: nat, selected: Option<nat>)
    requires Ready(g) && c < |g.classes| && (selected.Some? ==> selected.value < |g.classes|)
    ensures SubjectsValid(g.classes, Rank(g, c, selected))
  {
    if g.classes[c].isReal {
      FoundResultsValid(g, c, selected);
      FinalizeValid(g.classes, FoundResults(g, c, selected), c, selected, SelectedMethodCount(g, selected));
    }
  }

  /** Every entry of rs that is not a DUMMY names a subject c may be nested into, and c is nestable. */
  predicate NestsAllowed(g: Env, c: nat, rs: seq<NestRankResult>)
    requires Ready(g) && c < |g.classes|
  {
    forall i :: 0 <= i < |rs| && !IsDummy(rs[i]) ==>
      IsNestable(g.classes, g.nodes, c) && ValidSubject(g.classes, rs[i].subject) &&
      CanNestInto(g.classes, g.nodes, c, rs[i].subject)
  }

  /** Every entry of rs names a subject c may be nested into. */
  predicate CandidatesAllowed(g: Env, c: nat, rs: seq<NestRankResult>)
    requires Ready(g) && c < |g.classes|
  {
    forall i :: 0 <= i < |rs| ==> ValidSubject(g.classes, rs[i].subject) && CanNestInto(g.classes, g.nodes, c, rs[i].subject)
  }

  lemma AllowedConcat(g: Env, c: nat, a: seq<NestRankResult>, b: seq<NestRankResult>)
    requires Ready(g) && c < |g.classes| && CandidatesAllowed(g, c, a) && CandidatesAllowed(g, c, b)
    ensures CandidatesAllowed(g, c, a + b)
  {
    forall i | 0 <= i < |a + b| ensures (a + b)[i] == if i < |a| then a[i] else b[i - |a|] {
    }
  }

  lemma TryAnonymousAllowed(g: Env, c: nat)
    requires Ready(g) && c < |g.classes|
    ensures CandidatesAllowed(g, c, OptionSeq(TryAnonymous(g, c)))
  {
    TryAnonymousSpec(g, c);
    TryAnonymousValid(g, c);
    if TryAnonymous(g, c).Some? {
      var m :| CreatedOnceBy(g, c, m) && m.cls != c && m.cls < |g.classes| && CanNestInto(g.classes, g.nodes, c, Cls(m.cls));
      assert TryAnonymous(g, c).value.subject.c == m.cls;
    }
  }

  /** Every candidate of the three signals passes canNestInto, and a class that is not nestable has none. */
  lemma AddedAllowed(g: Env, c: nat)
    requires Ready(g) && c < |g.classes|
    ensures CandidatesAllowed(g, c, Added(g, c))
    ensures Added(g, c) != [] ==> IsNestable(g.classes, g.nodes, c)
  {
    if IsNestable(g.classes, g.nodes, c) {
      var e := OptionSeq(TryEnum(g, c));
      var a := OptionSeq(TryAnonymous(g, c));
      var n := InnerCandidates(g, c, false);
      TryEnumValid(g, c);
      TryAnonymousAllowed(g, c);
      AllowedConcat(g, c, e, a);
      AllowedConcat(g, c, e + a, n);
    }
  }

  /** The entries addResult records for a batch of candidates that are not DUMMY entries are candidates of
      the batch. */
  lemma {:induction false} EntriesAllNonDummy(selected: Option<nat>, rs: seq<NestRankResult>, x: NestRankResult)
    requires x in EntriesAll(selected, rs) && !IsDummy(x)
    ensures x in rs
    decreases |rs|
  {
    var pre := rs[..|rs| - 1];
    var r := rs[|rs| - 1];
    if x in EntriesAll(selected, pre) {
      EntriesAllNonDummy(selected, pre, x);
      assert x in rs by {
        var j :| 0 <= j < |pre| && pre[j] == x;
        assert rs[j] == x;
      }
    } else {
      assert x in Entries(selected, r);
      assert x == r;
    }
  }

  /** For a class without a nest, every non-DUMMY entry of its ranking names a subject it may be nested into. */
  lemma RankNestsAllowed(g: Env, c: nat)
    requires Ready(g) && c < |g.classes| && g.nodes[c].nest.None?
    ensures NestsAllowed(g, c, Rank(g, c, None))
  {
    if g.classes[c].isReal {
      var found := FoundResults(g, c, None);
      var fill := UnrankedClasses(found, c, 0, |g.classes|);
      var out := Rank(g, c, None);
      assert out == found + fill;
      FoundResultsRecordMax(g, c, None);
      UnrankedClassesShape(found, c, 0, |g.classes|);
      AddedAllowed(g, c);
      forall i | 0 <= i < |found| && !IsDummy(found[i])
        ensures IsNestable(g.classes, g.nodes, c) && ValidSubject(g.classes, found[i].subject) &&
          CanNestInto(g.classes, g.nodes, c, found[i].subject)
      {
        assert found[i] in EntriesAll(None, Added(g, c));
        EntriesAllNonDummy(None, Added(g, c), found[i]);
      }
      forall i | 0 <= i < |out| ensures out[i] == if i < |found| then found[i] else fill[i - |found|] {
      }
    }
  }

  // ---------------------------------------------------------------- the classifier object

  /** One ranking run: the class being ranked, the optional selected class, and the result map, kept as a
      sequence in insertion order. */
  class NestedClassClassifier {
    const g: Env
    const clazz: nat
    const selectedClass: Option<nat>
    var results: seq<NestRankResult>

    ghost predicate Valid()
      reads this
    {
      Ready(g) && clazz < |g.classes| && (selectedClass.Some? ==> selectedClass.value < |g.classes|)
    }

    constructor (g: Env, clazz: nat, selectedClass: Option<nat>)
      requires Ready(g) && clazz < |g.classes| && (selectedClass.Some? ==> selectedClass.value < |g.classes|)
      ensures Valid() && this.g == g && this.clazz == clazz && this.selectedClass == selectedClass
      ensures results == []
    {
      this.g := g;
      this.clazz := clazz;
      this.selectedClass := selectedClass;
      results := [];
    }

    /** results.compute: look the subject up, keep the old entry unless the new score is strictly higher;
        returns the entry now stored for the subject. */
    method AddResultNoCheck(r: NestRankResult) returns (stored: NestRankResult)
      modifies this
      ensures results == AddNoCheck(old(results), r)
      ensures stored.subject == r.subject && stored in results
      ensures stored == r || stored in old(results)
    {
      var i := 0;
      while i < |results| && results[i].subject != r.subject
        invariant 0 <= i <= |results|
        invariant forall j :: 0 <= j < i ==> results[j].subject != r.subject
      {
        i := i + 1;
      }
      if i == |results| {
        results := results + [r];
        stored := r;
        assert results[|results| - 1] == r;
      } else if r.score > results[i].score {
        results := results[i := r];
        stored := r;
        assert results[i] == r;
      } else {
        stored := results[i];
      }
    }

    /** addResult: a method subject yields its own entry (unless another class is selected) and a DUMMY entry
        for its class. */
    method AddResult(r: NestRankResult) returns (stored: NestRankResult)
      modifies this
      ensures results == AddNoCheckAll(old(results), Entries(selectedClass, r))
    {
      match r.subject {
        case Meth(mc, _) =>
          var d := Maybe(Cls(mc), DUMMY, r.score);
          if selectedClass.None? || selectedClass == Some(mc) {
            var mid := results;
            var _ := AddResultNoCheck(r);
            stored := AddResultNoCheck(d);
            assert Entries(selectedClass, r) == [r, d];
            assert [r, d][..1] == [r];
            AddNoCheckAllSingle(old(results), r);
          } else {
            stored := AddResultNoCheck(d);
            AddNoCheckAllSingle(old(results), d);
          }
        case Cls(_) =>
          stored := AddResultNoCheck(r);
          AddNoCheckAllSingle(old(results), r);
      }
    }

    /** The addResult calls of findResults' candidate loop, in order. */
    method AddAll(adds: seq<NestRankResult>)
      modifies this
      ensures results == AddNoCheckAll(old(results), EntriesAll(selectedClass, adds))
    {
      var i := 0;
      while i < |adds|
        invariant 0 <= i <= |adds|
        invariant results == AddNoCheckAll(old(results), EntriesAll(selectedClass, adds[..i]))
      {
        var _ := AddResult(adds[i]);
        EntriesAllStep(selectedClass, adds, i);
        AddNoCheckAllAppend(old(results), EntriesAll(selectedClass, adds[..i]), Entries(selectedClass, adds[i]));
        i := i + 1;
      }
      assert adds[..|adds|] == adds;
    }

    /** findResults: the existing nest, or every candidate the signals produce. */
    method FindResults()
      requires Valid() && results == []
      modifies this
      ensures results == FoundResults(g, clazz, selectedClass)
    {
      if g.nodes[clazz].nest.Some? {
        var n := g.nodes[clazz].nest.value;
        var _ := AddResult(Maybe(n.subject, n.nestType, 100));
      } else {
        var adds := Added(g, clazz);
        AddAll(adds);
      }
    }

    /** finalizeResults' loop over every class. */
    method FillUnrankedClasses(head: seq<NestRankResult>) returns (out: seq<NestRankResult>)
      ensures out == head + UnrankedClasses(results, clazz, 0, |g.classes|)
    {
      out := head;
      var n := |g.classes|;
      var k := 0;
      while k < n
        invariant 0 <= k <= n
        invariant out + UnrankedClasses(results, clazz, k, n) == head + UnrankedClasses(results, clazz, 0, n)
      {
        UnrankedClassesStep(results, clazz, k, n);
        var fill: seq<NestRankResult> := if k != clazz && IndexOfSubject(results, Cls(k)) < 0 then [No(Cls(k))] else [];
        ghost var rest := UnrankedClasses(results, clazz, k + 1, n);
        assert (out + fill) + rest == out + (fill + rest);
        out := out + fill;
        k := k + 1;
      }
    }

    /** finalizeResults' loop over the selected class's methods. */
    method FillUnrankedMethods(head: seq<NestRankResult>, sc: nat) returns (out: seq<NestRankResult>)
      requires sc < |g.classes|
      ensures out == head + UnrankedMethods(results, sc, 0, |g.classes[sc].methods|)
    {
      out := head;
      var m := |g.classes[sc].methods|;
      var j := 0;
      while j < m
        invariant 0 <= j <= m
        invariant out + UnrankedMethods(results, sc, j, m) == head + UnrankedMethods(results, sc, 0, m)
      {
        UnrankedMethodsStep(results, sc, j, m);
        var fill: seq<NestRankResult> := if IndexOfSubject(results, Meth(sc, j)) < 0 then [No(Meth(sc, j))] else [];
        ghost var rest := UnrankedMethods(results, sc, j + 1, m);
        assert (out + fill) + rest == out + (fill + rest);
        out := out + fill;
        j := j + 1;
      }
    }

    /** finalizeResults: the recorded results, then a DUMMY for every unranked class other than clazz, then
        one for every unranked method of the selected class. */
    method FinalizeResults() returns (out: seq<NestRankResult>)
      requires Valid()
      ensures out == Finalize(results, clazz, |g.classes|, selectedClass, SelectedMethodCount(g, selectedClass))
    {
      out := FillUnrankedClasses(results);
      if selectedClass.Some? {
        out := FillUnrankedMethods(out, selectedClass.value);
      }
    }
  }

  /** rank, run on a classifier object. */
  method RankClass(g: Env, src: nat, selected: Option<nat>) returns (out: seq<NestRankResult>)
    requires Ready(g) && src < |g.classes| && (selected.Some? ==> selected.value < |g.classes|)
    ensures out == Rank(g, src, selected)
  {
    if !g.classes[src].isReal {
      return [];
    }
    var classifier := new NestedClassClassifier(g, src, selected);
    classifier.FindResults();
    out := classifier.FinalizeResults();
  }

  // ---------------------------------------------------------------- picking the best of a ranking

  predicate SortedByKey(rs: seq<NestRankResult>)
  {
    forall i, j :: 0 <= i < j < |rs| ==> Key(rs[i]) <= Key(rs[j])
  }

  /** Insert before the first entry that is not below x. */
  function InsertByKey(x: NestRankResult, rs: seq<NestRankResult>): seq<NestRankResult>
  {
    if rs == [] then [x]
    else if Key(x) <= Key(rs[0]) then [x] + rs
    else [rs[0]] + InsertByKey(x, rs[1..])
  }

  lemma {:induction false} InsertByKeyMultiset(x: NestRankResult, rs: seq<NestRankResult>)
    ensures multiset(InsertByKey(x, rs)) == multiset(rs) + multiset{x}
  {
    if rs != [] && Key(x) > Key(rs[0]) {
      InsertByKeyMultiset(x, rs[1..]);
      assert rs == [rs[0]] + rs[1..];
    }
  }

  /** Every entry of the insertion is x or an entry of rs, at least as large as whatever bounds both. */
  lemma InsertByKeyBelow(x: NestRankResult, rs: seq<NestRankResult>, b: NestRankResult)
    requires Key(b) <= Key(x) && forall i :: 0 <= i < |rs| ==> Key(b) <= Key(rs[i])
    ensures forall i :: 0 <= i < |InsertByKey(x, rs)| ==> Key(b) <= Key(InsertByKey(x, rs)[i])
  {
    var out := InsertByKey(x, rs);
    InsertByKeyMultiset(x, rs);
    forall i | 0 <= i < |out| ensures Key(b) <= Key(out[i]) {
      assert out[i] in multiset(out);
      if out[i] != x {
        assert out[i] in multiset(rs);
        var k :| 0 <= k < |rs| && rs[k] == out[i];
      }
    }
  }

  lemma {:induction false} InsertByKeySorted(x: NestRankResult, rs: seq<NestRankResult>)
    requires SortedByKey(rs)
    ensures SortedByKey(InsertByKey(x, rs))
  {
    if rs != [] && Key(x) > Key(rs[0]) {
      var rest := InsertByKey(x, rs[1..]);
      InsertByKeySorted(x, rs[1..]);
      InsertByKeyBelow(x, rs[1..], rs[0]);
      var out := [rs[0]] + rest;
      forall i, j | 0 <= i < j < |out| ensures Key(out[i]) <= Key(out[j]) {
        assert out[j] == rest[j - 1];
        if i > 0 {
          assert out[i] == rest[i - 1];
        }
      }
    }
  }

  /** The ascending sort results.sort(null) performs (stable: equal keys keep their order). */
  function SortByKey(rs: seq<NestRankResult>): (out: seq<NestRankResult>)
    ensures multiset(out) == multiset(rs) && SortedByKey(out)
  {
    if rs == [] then [] else
      assert rs == [rs[0]] + rs[1..];
      var rest := SortByKey(rs[1..]);
      InsertByKeyMultiset(rs[0], rest);
      InsertByKeySorted(rs[0], rest);
      InsertByKey(rs[0], rest)
  }

  predicate HasNonDummy(rs: seq<NestRankResult>)
  {
    exists i :: 0 <= i < |rs| && !IsDummy(rs[i])
  }

  /** The greatest score of a non-DUMMY entry, if any. */
  function MaxNonDummyScore(rs: seq<NestRankResult>): (m: Option<int>)
    ensures m.None? <==> !HasNonDummy(rs)
    ensures m.Some? ==> exists i :: 0 <= i < |rs| && !IsDummy(rs[i]) && rs[i].score == m.value
    ensures m.Some? ==> forall i :: 0 <= i < |rs| && !IsDummy(rs[i]) ==> rs[i].score <= m.value
  {
    if rs == [] then None
    else
      var rest := MaxNonDummyScore(rs[1..]);
      assert forall i :: 1 <= i < |rs| ==> rs[i] == rs[1..][i - 1];
      if IsDummy(rs[0]) then rest
      else if rest.None? || rest.value < rs[0].score then Some(rs[0].score)
      else rest
  }

  function MinScore(rs: seq<NestRankResult>): (m: int)
    requires rs != []
    ensures (exists i :: 0 <= i < |rs| && rs[i].score == m) && forall i :: 0 <= i < |rs| ==> m <= rs[i].score
  {
    if |rs| == 1 then rs[0].score
    else
      var rest := MinScore(rs[1..]);
      assert forall i :: 1 <= i < |rs| ==> rs[i] == rs[1..][i - 1];
      if rs[0].score < rest then rs[0].score else rest
  }

  /** The score of the entry the sort-and-scan picks: the best non-DUMMY score, or, when every entry is a DUMMY,
      the lowest score. */
  function BestScore(rs: seq<NestRankResult>): int
    requires rs != []
  {
    var m := MaxNonDummyScore(rs);
    if m.Some? then m.value else MinScore(rs)
  }

  /** Where the downward scan over a sorted copy of rs stops, it has found the best entry. */
  lemma ScanPicksBest(rs: seq<NestRankResult>, sorted: seq<NestRankResult>, index: nat)
    requires multiset(sorted) == multiset(rs) && SortedByKey(sorted) && index < |sorted|
    requires forall j :: index < j < |sorted| ==> IsDummy(sorted[j])
    requires !IsDummy(sorted[index]) || index == 0
    ensures sorted[index] in rs
    ensures HasNonDummy(rs) ==>
      !IsDummy(sorted[index]) && forall i :: 0 <= i < |rs| && !IsDummy(rs[i]) ==> rs[i].score <= sorted[index].score
    ensures !HasNonDummy(rs) ==> forall i :: 0 <= i < |rs| ==> sorted[index].score <= rs[i].score
  {
    var best := sorted[index];
    assert best in multiset(rs) by { assert best in multiset(sorted); }
    forall i | 0 <= i < |rs| ensures rs[i] in sorted {
      assert rs[i] in multiset(rs);
    }
    if HasNonDummy(rs) {
      var w :| 0 <= w < |rs| && !IsDummy(rs[w]);
      assert rs[w] in sorted;
      assert !IsDummy(best);
      forall i | 0 <= i < |rs| && !IsDummy(rs[i]) ensures rs[i].score <= best.score {
        var k :| 0 <= k < |sorted| && sorted[k] == rs[i];
        assert k <= index;
        assert Key(rs[i]) <= Key(best) || k == index;
      }
    } else {
      assert index == 0;
      forall i | 0 <= i < |rs| ensures best.score <= rs[i].score {
        var k :| 0 <= k < |sorted| && sorted[k] == rs[i];
        assert Key(best) <= Key(rs[i]);
      }
    }
  }

  /** Sort ascending, then walk down from the top past DUMMY entries (the scan of autoNestClass and
      findHighestPotentialScore). */
  method SelectBest(rs: seq<NestRankResult>) returns (best: NestRankResult)
    requires rs != []
    ensures best in rs
    ensures HasNonDummy(rs) ==> !IsDummy(best) && forall i :: 0 <= i < |rs| && !IsDummy(rs[i]) ==> rs[i].score <= best.score
    ensures !HasNonDummy(rs) ==> forall i :: 0 <= i < |rs| ==> best.score <= rs[i].score
    ensures best.score == BestScore(rs)
  {
    var sorted := SortByKey(rs);
    assert |sorted| == |multiset(sorted)| == |rs|;
    var index := |sorted| - 1;
    best := sorted[index];
    while IsDummy(best) && index > 0
      invariant 0 <= index < |sorted| && best == sorted[index]
      invariant forall j :: index < j < |sorted| ==> IsDummy(sorted[j])
    {
      index := index - 1;
      best := sorted[index];
    }
    ScanPicksBest(rs, sorted, index);
  }
}
