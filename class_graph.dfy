/** The class arena: the read-only structural facts the nesting logic consults, the per-class nesting
    state that ClassInstance keeps in mutable fields, and the pure queries over both. */
module ClassGraph {
  import opened Wrappers
  import opened Nests
  import opened ClassNames

  // Access flags, with the values of the class-file format.
  const ACC_PUBLIC: bv32 := 0x0001
  const ACC_PRIVATE: bv32 := 0x0002
  const ACC_PROTECTED: bv32 := 0x0004
  const ACC_STATIC: bv32 := 0x0008
  const ACC_FINAL: bv32 := 0x0010
  const ACC_INTERFACE: bv32 := 0x0200
  const ACC_ABSTRACT: bv32 := 0x0400
  const ACC_SYNTHETIC: bv32 := 0x1000
  const ACC_ANNOTATION: bv32 := 0x2000
  const ACC_ENUM: bv32 := 0x4000
  const ACC_MODULE: bv32 := 0x8000

  /** The bits an inner-class access entry may carry: PUBLIC, PRIVATE, PROTECTED, STATIC, FINAL, INTERFACE,
      ABSTRACT, SYNTHETIC, ANNOTATION, ENUM and MODULE (see InnerAccessMaskBits). */
  const INNER_ACCESS_MASK: bv32 := 0xF61F

  lemma InnerAccessMaskBits()
    ensures INNER_ACCESS_MASK == ACC_PUBLIC | ACC_PRIVATE | ACC_PROTECTED | ACC_STATIC | ACC_FINAL |
      ACC_INTERFACE | ACC_ABSTRACT | ACC_SYNTHETIC | ACC_ANNOTATION | ACC_ENUM | ACC_MODULE
  {
  }

  /** A method of the arena: the index of its class and its position among that class's methods. */
  datatype MethodRef = MethodRef(cls: nat, index: nat)

  datatype MethodFacts = MethodFacts(
    name: string, desc: string,
    isStatic: bool, isSynthetic: bool, isBridge: bool,
    refsIn: seq<MethodRef>,   // methods that call this one (a set: no repeats)
    refsOut: seq<MethodRef>)  // methods this one calls

  datatype FieldFacts = FieldFacts(isStatic: bool, isSynthetic: bool, isFinal: bool, fieldType: nat)

  /** The structural facts of one class; none of them changes while nests are inferred. */
  datatype ClassFacts = ClassFacts(
    name: string,
    isReal: bool,                 // loaded from a class file (has an origin)
    elementClass: Option<nat>,   // set exactly for array classes
    access: bv32,
    superClass: Option<nat>,
    childClasses: set<nat>,      // direct subclasses
    outerClass: Option<nat>,     // from the class file's own inner-class attribute
    innerClasses: set<nat>,
    methods: seq<MethodFacts>,
    fields: seq<FieldFacts>,
    argTypeRefs: seq<MethodRef>, // methods with a parameter or local of this type
    anonymousAllowed: bool,      // cleared by markNotAnonymous
    input: bool)

  /** The nesting state ClassInstance updates in place. */
  datatype NodeState = NodeState(
    nestable: bool,
    nest: Option<Nest>,
    innerAccess: Option<bv32>,
    innerName: string,
    localPrefix: string,
    simpleName: Option<string>,
    nestingClasses: set<nat>,    // classes nested into this one
    anonymousClasses: seq<nat>,  // the anonymous ones, in sibling order (a TreeSet)
    localClasses: seq<nat>)      // the inner ones nested into a method of this one, in sibling order

  /** The memoised caches ClassInstance invalidates with a dirty flag. */
  datatype CacheState = CacheState(
    potentialScore: int,
    potentialScoreDirty: bool,
    hasStaticMembers: Option<bool>,
    isMethodArgType: Option<bool>)

  datatype Env = Env(classes: seq<ClassFacts>, nodes: seq<NodeState>, caches: seq<CacheState>)

  function InitialNode(): NodeState
  {
    NodeState(true, None, None, "", "", None, {}, [], [])
  }

  function InitialCache(): CacheState
  {
    CacheState(0, true, None, None)
  }

  // ---------------------------------------------------------------- well-formed facts

  predicate ValidMethodRef(classes: seq<ClassFacts>, r: MethodRef)
  {
    r.cls < |classes| && r.index < |classes[r.cls].methods|
  }

  function MethodOf(classes: seq<ClassFacts>, r: MethodRef): MethodFacts
    requires ValidMethodRef(classes, r)
  {
    classes[r.cls].methods[r.index]
  }

  predicate ValidSubject(classes: seq<ClassFacts>, s: Subject)
  {
    s.c < |classes| && (s.Meth? ==> s.m < |classes[s.c].methods|)
  }

  predicate NoRepeats<T(==)>(s: seq<T>)
  {
    forall i, j :: 0 <= i < j < |s| ==> s[i] != s[j]
  }

  predicate MethodFactsOk(classes: seq<ClassFacts>, m: MethodFacts)
  {
    && NoRepeats(m.refsIn)
    && (forall i :: 0 <= i < |m.refsIn| ==> ValidMethodRef(classes, m.refsIn[i]))
    && (forall i :: 0 <= i < |m.refsOut| ==> ValidMethodRef(classes, m.refsOut[i]))
  }

  predicate ClassFactsOk(classes: seq<ClassFacts>, c: nat)
    requires c < |classes|
  {
    var f := classes[c];
    && (f.superClass.Some? ==> f.superClass.value < |classes|)
    && (f.outerClass.Some? ==> f.outerClass.value < |classes|)
    && (f.elementClass.Some? ==> f.elementClass.value < |classes|)
    && (forall x :: x in f.childClasses ==> x < |classes|)
    && (forall x :: x in f.innerClasses ==> x < |classes|)
    && (forall k :: 0 <= k < |f.methods| ==> MethodFactsOk(classes, f.methods[k]))
    && (forall i, j :: 0 <= i < j < |f.methods| ==> f.methods[i].name != f.methods[j].name || f.methods[i].desc != f.methods[j].desc)
    && (forall k :: 0 <= k < |f.fields| ==> f.fields[k].fieldType < |classes|)
    && (forall k :: 0 <= k < |f.argTypeRefs| ==> ValidMethodRef(classes, f.argTypeRefs[k]))
    && (f.access & ACC_ENUM != 0 ==> f.superClass.Some?)  // an enum always extends a class
  }

  predicate FactsOk(classes: seq<ClassFacts>)
  {
    && (forall c :: 0 <= c < |classes| ==> ClassFactsOk(classes, c))
    && (forall a, b :: 0 <= a < |classes| && 0 <= b < |classes| && a != b ==> classes[a].name != classes[b].name)
  }

  // ---------------------------------------------------------------- shape and bookkeeping of the nesting state

  /** Every index the nesting state holds points into the arena. */
  predicate NodeShape(classes: seq<ClassFacts>, nodes: seq<NodeState>)
  {
    && |nodes| == |classes|
    && (forall x :: 0 <= x < |nodes| && nodes[x].nest.Some? ==> ValidSubject(classes, nodes[x].nest.value.subject))
    && (forall e, y :: 0 <= e < |nodes| && y in nodes[e].nestingClasses ==> y < |nodes|)
    && (forall e, k :: 0 <= e < |nodes| && 0 <= k < |nodes[e].anonymousClasses| ==> nodes[e].anonymousClasses[k] < |nodes|)
    && (forall e, k :: 0 <= e < |nodes| && 0 <= k < |nodes[e].localClasses| ==> nodes[e].localClasses[k] < |nodes|)
  }

  /** x is currently nested into a subject of class e. */
  predicate NestedInto(nodes: seq<NodeState>, x: nat, e: nat)
    requires x < |nodes|
  {
    nodes[x].nest.Some? && EnclosingClass(nodes[x].nest.value) == e
  }

  predicate IsAnonymousNest(n: Nest) { n.nestType == ANONYMOUS }

  /** A local class: an inner class nested into a method. */
  predicate IsLocalNest(n: Nest) { n.nestType == INNER && n.subject.Meth? }

  /** The nesting sets agree with the nests; a class in `detached` is in no nesting set whatever its nest says. */
  predicate ConsistentNesting(nodes: seq<NodeState>, detached: set<nat>)
  {
    forall e, x :: 0 <= e < |nodes| && 0 <= x < |nodes| ==>
      (x in nodes[e].nestingClasses <==> x !in detached && NestedInto(nodes, x, e))
  }

  /** The anonymous lists hold exactly the anonymous nests (except the classes in `detached`). */
  predicate ConsistentAnonymous(nodes: seq<NodeState>, detached: set<nat>)
  {
    forall e, x :: 0 <= e < |nodes| && 0 <= x < |nodes| ==>
      (x in nodes[e].anonymousClasses <==> x !in detached && NestedInto(nodes, x, e) && IsAnonymousNest(nodes[x].nest.value))
  }

  /** The local lists hold exactly the local nests (except the classes in `detached`). */
  predicate ConsistentLocal(nodes: seq<NodeState>, detached: set<nat>)
  {
    forall e, x :: 0 <= e < |nodes| && 0 <= x < |nodes| ==>
      (x in nodes[e].localClasses <==> x !in detached && NestedInto(nodes, x, e) && IsLocalNest(nodes[x].nest.value))
  }

  /** The child sets of each class agree with the nests of the other classes; the classes in
      `detached` are in no child set whatever their nest says. */
  predicate Consistent(nodes: seq<NodeState>, detached: set<nat>)
  {
    ConsistentNesting(nodes, detached) && ConsistentAnonymous(nodes, detached) && ConsistentLocal(nodes, detached)
  }

  /** A sibling sequence is strictly increasing in the sibling order of the class names. */
  predicate SiblingSorted(classes: seq<ClassFacts>, s: seq<nat>)
  {
    forall i, j :: 0 <= i < j < |s| && s[i] < |classes| && s[j] < |classes| ==>
      SiblingLess(classes[s[i]].name, classes[s[j]].name)
  }

  predicate SiblingsOrdered(classes: seq<ClassFacts>, nodes: seq<NodeState>)
    requires |nodes| == |classes|
  {
    forall e :: 0 <= e < |nodes| ==>
      SiblingSorted(classes, nodes[e].anonymousClasses) && SiblingSorted(classes, nodes[e].localClasses)
  }

  /** Anonymous children are named "1".."N" in sibling order (except under the classes in `pending`). */
  predicate AnonymousNamesOk(nodes: seq<NodeState>, pending: set<nat>)
  {
    forall e, k ::
      0 <= e < |nodes| && e !in pending && 0 <= k < |nodes[e].anonymousClasses| && nodes[e].anonymousClasses[k] < |nodes|
      ==> nodes[nodes[e].anonymousClasses[k]].innerName == NatToString(k + 1)
  }

  /** Local children carry the prefixes "1".."N" in sibling order (except under the classes in `pending`). */
  predicate LocalPrefixesOk(nodes: seq<NodeState>, pending: set<nat>)
  {
    forall e, k ::
      0 <= e < |nodes| && e !in pending && 0 <= k < |nodes[e].localClasses| && nodes[e].localClasses[k] < |nodes|
      ==> nodes[nodes[e].localClasses[k]].localPrefix == NatToString(k + 1)
  }

  /** Only a real class is ever nested. */
  predicate CommittedNestsOk(classes: seq<ClassFacts>, nodes: seq<NodeState>)
    requires |nodes| == |classes|
  {
    forall x :: 0 <= x < |nodes| && nodes[x].nest.Some? ==> classes[x].isReal
  }

  // ---------------------------------------------------------------- acyclicity

  /** The classes directly enclosing x: its outer class and the class it is nested into. */
  function Parents(classes: seq<ClassFacts>, nodes: seq<NodeState>, x: nat): set<nat>
    requires x < |classes| && |nodes| == |classes|
  {
    (if classes[x].outerClass.Some? then {classes[x].outerClass.value} else {}) +
    (if nodes[x].nest.Some? then {EnclosingClass(nodes[x].nest.value)} else {})
  }

  /** r ranks x strictly above each of its parents. */
  ghost predicate AboveParents(classes: seq<ClassFacts>, nodes: seq<NodeState>, r: seq<nat>, x: nat)
    requires x < |classes| && |nodes| == |classes| && |r| == |classes|
  {
    forall p :: p in Parents(classes, nodes, x) ==> p < |r| && r[p] < r[x]
  }

  /** r ranks every class strictly above each of its parents. */
  ghost predicate RankOk(classes: seq<ClassFacts>, nodes: seq<NodeState>, r: seq<nat>)
    requires |nodes| == |classes|
  {
    |r| == |classes| && forall x :: 0 <= x < |classes| ==> AboveParents(classes, nodes, r, x)
  }

  /** No class is its own ancestor through outer classes and nests. */
  ghost predicate Acyclic(classes: seq<ClassFacts>, nodes: seq<NodeState>)
    requires |nodes| == |classes|
  {
    exists r :: RankOk(classes, nodes, r)
  }

  ghost function Ranks(classes: seq<ClassFacts>, nodes: seq<NodeState>): (r: seq<nat>)
    requires |nodes| == |classes| && Acyclic(classes, nodes)
    ensures RankOk(classes, nodes, r)
  {
    var r :| RankOk(classes, nodes, r); r
  }

  lemma ParentRanksBelow(classes: seq<ClassFacts>, nodes: seq<NodeState>, r: seq<nat>, x: nat, p: nat)
    requires |nodes| == |classes| && RankOk(classes, nodes, r) && x < |classes| && p in Parents(classes, nodes, x)
    ensures p < |classes| && r[p] < r[x]
  {
    assert AboveParents(classes, nodes, r, x);
  }

  /** What the recursive walks over ancestors need. */
  ghost predicate Linked(classes: seq<ClassFacts>, nodes: seq<NodeState>)
  {
    FactsOk(classes) && NodeShape(classes, nodes) && Acyclic(classes, nodes)
  }

  /** The invariant of the nesting state. */
  ghost predicate GraphOk(classes: seq<ClassFacts>, nodes: seq<NodeState>)
  {
    && Linked(classes, nodes)
    && Consistent(nodes, {})
    && SiblingsOrdered(classes, nodes)
    && AnonymousNamesOk(nodes, {})
    && LocalPrefixesOk(nodes, {})
    && CommittedNestsOk(classes, nodes)
  }

  ghost predicate EnvOk(g: Env)
  {
    GraphOk(g.classes, g.nodes) && |g.caches| == |g.classes|
  }

  // ---------------------------------------------------------------- ancestry

  /** encloses, with the walk continuing through the class that owns a method subject. */
  function Encloses(classes: seq<ClassFacts>, nodes: seq<NodeState>, a: nat, s: Subject): bool
    requires Linked(classes, nodes) && ValidSubject(classes, s)
    decreases Ranks(classes, nodes)[s.c], if s.Meth? then 1 else 0
  {
    match s
    case Meth(c, _) => a == c || Encloses(classes, nodes, a, Cls(c))
    case Cls(x) =>
      var f := classes[x];
      assert ClassFactsOk(classes, x);
      ((f.outerClass.Some? &&
          (ParentRanksBelow(classes, nodes, Ranks(classes, nodes), x, f.outerClass.value);
           (a == f.outerClass.value || Encloses(classes, nodes, a, Cls(f.outerClass.value)))))
      || (nodes[x].nest.Some? &&
          (ParentRanksBelow(classes, nodes, Ranks(classes, nodes), x, EnclosingClass(nodes[x].nest.value));
           (nodes[x].nest.value.subject == Cls(a) || Encloses(classes, nodes, a, nodes[x].nest.value.subject)))))
  }

  /** encloses as the source writes it: a method subject's walk ends at the method's owner. */
  function EnclosesAsWritten(classes: seq<ClassFacts>, nodes: seq<NodeState>, a: nat, s: Subject): bool
    requires Linked(classes, nodes) && ValidSubject(classes, s)
    decreases Ranks(classes, nodes)[s.c], if s.Meth? then 1 else 0
  {
    match s
    case Meth(c, _) => a == c
    case Cls(x) =>
      var f := classes[x];
      assert ClassFactsOk(classes, x);
      ((f.outerClass.Some? &&
          (ParentRanksBelow(classes, nodes, Ranks(classes, nodes), x, f.outerClass.value);
           (a == f.outerClass.value || EnclosesAsWritten(classes, nodes, a, Cls(f.outerClass.value)))))
      || (nodes[x].nest.Some? &&
          (ParentRanksBelow(classes, nodes, Ranks(classes, nodes), x, EnclosingClass(nodes[x].nest.value));
           (nodes[x].nest.value.subject == Cls(a) || EnclosesAsWritten(classes, nodes, a, nodes[x].nest.value.subject)))))
  }

  /** An enclosing class ranks strictly below what it encloses. */
  lemma {:induction false} EnclosesRanksBelow(classes: seq<ClassFacts>, nodes: seq<NodeState>, r: seq<nat>, a: nat, s: Subject)
    requires Linked(classes, nodes) && ValidSubject(classes, s) && RankOk(classes, nodes, r) && a < |classes|
    requires Encloses(classes, nodes, a, s)
    ensures if s.Meth? then r[a] <= r[s.c] else r[a] < r[s.c]
    decreases Ranks(classes, nodes)[s.c], if s.Meth? then 1 else 0
  {
    match s
    case Meth(c, _) =>
      if a != c { EnclosesRanksBelow(classes, nodes, r, a, Cls(c)); }
    case Cls(x) =>
      assert ClassFactsOk(classes, x);
      var f := classes[x];
      if f.outerClass.Some? && (a == f.outerClass.value || Encloses(classes, nodes, a, Cls(f.outerClass.value))) {
        var o := f.outerClass.value;
        ParentRanksBelow(classes, nodes, r, x, o);
        ParentRanksBelow(classes, nodes, Ranks(classes, nodes), x, o);
        if a != o { EnclosesRanksBelow(classes, nodes, r, a, Cls(o)); }
      } else {
        var n := nodes[x].nest.value;
        ParentRanksBelow(classes, nodes, r, x, EnclosingClass(n));
        ParentRanksBelow(classes, nodes, Ranks(classes, nodes), x, EnclosingClass(n));
        if n.subject != Cls(a) { EnclosesRanksBelow(classes, nodes, r, a, n.subject); }
      }
  }

  /** No class encloses itself. */
  lemma NeverEnclosesItself(classes: seq<ClassFacts>, nodes: seq<NodeState>, a: nat)
    requires Linked(classes, nodes) && a < |classes|
    ensures !Encloses(classes, nodes, a, Cls(a))
  {
    var r := Ranks(classes, nodes);
    if Encloses(classes, nodes, a, Cls(a)) { EnclosesRanksBelow(classes, nodes, r, a, Cls(a)); }
  }

  /** A class encloses whatever one of its children (by outer class or nest) is or encloses. */
  lemma EnclosesThroughParent(classes: seq<ClassFacts>, nodes: seq<NodeState>, a: nat, x: nat, p: nat)
    requires Linked(classes, nodes) && x < |classes| && p in Parents(classes, nodes, x)
    requires a == p || (p < |classes| && Encloses(classes, nodes, a, Cls(p)))
    ensures Encloses(classes, nodes, a, Cls(x))
  {
    assert ClassFactsOk(classes, x);
    if !(classes[x].outerClass == Some(p)) {
      var n := nodes[x].nest.value;
      assert ValidSubject(classes, n.subject);
      if n.subject.Meth? {
        assert Encloses(classes, nodes, a, n.subject);
      }
    }
  }

  /** Nesting c into a subject of class e keeps the graph acyclic when e is not c and c does not
      already enclose e; removing a nest always does. */
  lemma AcyclicAfterNest(classes: seq<ClassFacts>, nodes: seq<NodeState>, nodes': seq<NodeState>, c: nat, n: Option<Nest>)
    requires Linked(classes, nodes) && c < |classes| && |nodes'| == |nodes|
    requires forall x :: 0 <= x < |nodes| && x != c ==> nodes'[x].nest == nodes[x].nest
    requires nodes'[c].nest == n
    requires n.Some? ==>
      (EnclosingClass(n.value) < |classes| && EnclosingClass(n.value) != c &&
       !Encloses(classes, nodes, c, Cls(EnclosingClass(n.value))))
    ensures Acyclic(classes, nodes')
  {
    var r := Ranks(classes, nodes);
    if n.None? {
      forall x | 0 <= x < |classes| ensures AboveParents(classes, nodes', r, x) {
        forall p | p in Parents(classes, nodes', x) ensures p < |r| && r[p] < r[x] {
          ParentRanksBelow(classes, nodes, r, x, p);
        }
      }
      assert RankOk(classes, nodes', r);
    } else {
      var e := EnclosingClass(n.value);
      var k := r[e] + 1;
      var r' := seq(|classes|, x requires 0 <= x < |classes| =>
        if x == c || Encloses(classes, nodes, c, Cls(x)) then r[x] + k else r[x]);
      forall x | 0 <= x < |classes| ensures AboveParents(classes, nodes', r', x) {
        forall p | p in Parents(classes, nodes', x) ensures p < |r'| && r'[p] < r'[x] {
          if x == c && p == e {
            assert r'[e] == r[e];
          } else {
            ParentRanksBelow(classes, nodes, r, x, p);
            if x != c && (p == c || Encloses(classes, nodes, c, Cls(p))) {
              EnclosesThroughParent(classes, nodes, c, x, p);
            }
          }
        }
      }
      assert RankOk(classes, nodes', r');
    }
  }

  predicate IsTopLevel(classes: seq<ClassFacts>, nodes: seq<NodeState>, c: nat)
    requires c < |classes| && |nodes| == |classes|
  {
    classes[c].outerClass.None? && nodes[c].nest.None?
  }

  /** getTopLevelClass: follow the outer class, else the nest, to a class that has neither. */
  function TopLevelClass(classes: seq<ClassFacts>, nodes: seq<NodeState>, c: nat): (t: nat)
    requires Linked(classes, nodes) && c < |classes|
    ensures t < |classes| && IsTopLevel(classes, nodes, t)
    ensures t == c || Encloses(classes, nodes, t, Cls(c))
    decreases Ranks(classes, nodes)[c]
  {
    assert ClassFactsOk(classes, c);
    if classes[c].outerClass.Some? then
      var o := classes[c].outerClass.value;
      ParentRanksBelow(classes, nodes, Ranks(classes, nodes), c, o);
      var t := TopLevelClass(classes, nodes, o);
      EnclosesThroughParent(classes, nodes, t, c, o);
      t
    else if nodes[c].nest.Some? then
      var e := EnclosingClass(nodes[c].nest.value);
      ParentRanksBelow(classes, nodes, Ranks(classes, nodes), c, e);
      var t := TopLevelClass(classes, nodes, e);
      EnclosesThroughParent(classes, nodes, t, c, e);
      t
    else c
  }

  /** The cycle the source's encloses lets through: Y is nested into A, X into a method of Y; the source
      then sees nothing enclosing X above Y's method, so nesting A into X passes canNestInto and
      closes the cycle A -> X -> Y -> A. */
  function CycleExampleClasses(): seq<ClassFacts>
  {
    var plain := ClassFacts("", true, None, ACC_PUBLIC, None, {}, None, {}, [], [], [], true, true);
    var run := MethodFacts("run", "()V", false, false, false, [], []);
    [plain.(name := "A"), plain.(name := "Y", methods := [run]), plain.(name := "X")]
  }

  function CycleExampleNodes(): seq<NodeState>
  {
    [InitialNode(),
     InitialNode().(nest := Some(Nest(Cls(0), INNER))),
     InitialNode().(nest := Some(Nest(Meth(1, 0), ANONYMOUS)))]
  }

  lemma CycleExampleFactsOk()
    ensures FactsOk(CycleExampleClasses())
  {
    var classes := CycleExampleClasses();
    forall c | 0 <= c < |classes| ensures ClassFactsOk(classes, c) {
      CycleExampleClassOk(c);
    }
    assert classes[0].name == "A" && classes[1].name == "Y" && classes[2].name == "X";
  }

  lemma CycleExampleClassOk(c: nat)
    requires c < 3
    ensures ClassFactsOk(CycleExampleClasses(), c)
  {
    var classes := CycleExampleClasses();
    assert classes[c].methods == [] || classes[c].methods == [MethodFacts("run", "()V", false, false, false, [], [])];
  }

  lemma CycleExampleLinked()
    ensures Linked(CycleExampleClasses(), CycleExampleNodes())
  {
    var classes, nodes := CycleExampleClasses(), CycleExampleNodes();
    CycleExampleFactsOk();
    var r := [0, 1, 2];
    assert Parents(classes, nodes, 0) == {};
    assert Parents(classes, nodes, 1) == {0};
    assert Parents(classes, nodes, 2) == {1};
    assert AboveParents(classes, nodes, r, 0);
    assert AboveParents(classes, nodes, r, 1);
    assert AboveParents(classes, nodes, r, 2);
    assert RankOk(classes, nodes, r);
  }

  lemma EnclosesAsWrittenMissesMethodOwners()
    ensures Linked(CycleExampleClasses(), CycleExampleNodes())
    ensures !EnclosesAsWritten(CycleExampleClasses(), CycleExampleNodes(), 0, Cls(2))
    ensures Encloses(CycleExampleClasses(), CycleExampleNodes(), 0, Cls(2))
    ensures !Acyclic(CycleExampleClasses(), CycleExampleNodes()[0 := InitialNode().(nest := Some(Nest(Cls(2), INNER)))])
  {
    CycleExampleLinked();
    var classes, nodes := CycleExampleClasses(), CycleExampleNodes();
    assert classes[2].outerClass.None? && classes[1].outerClass.None?;
    assert nodes[2].nest == Some(Nest(Meth(1, 0), ANONYMOUS));
    assert nodes[1].nest == Some(Nest(Cls(0), INNER));
    assert !EnclosesAsWritten(classes, nodes, 0, Meth(1, 0));
    assert Encloses(classes, nodes, 0, Cls(1));
    assert Encloses(classes, nodes, 0, Meth(1, 0));
    var nodes' := nodes[0 := InitialNode().(nest := Some(Nest(Cls(2), INNER)))];
    if r' :| RankOk(classes, nodes', r') {
      assert 2 in Parents(classes, nodes', 0) && 1 in Parents(classes, nodes', 2) && 0 in Parents(classes, nodes', 1);
      ParentRanksBelow(classes, nodes', r', 0, 2);
      ParentRanksBelow(classes, nodes', r', 2, 1);
      ParentRanksBelow(classes, nodes', r', 1, 0);
    }
  }

  // ---------------------------------------------------------------- access and member queries

  predicate IsStaticAccess(access: bv32) { access & ACC_STATIC != 0 }

  predicate IsEnum(f: ClassFacts) { f.access & ACC_ENUM != 0 }

  predicate IsInterface(f: ClassFacts) { f.access & ACC_INTERFACE != 0 }

  predicate IsPackagePrivate(f: ClassFacts)
  {
    f.access & ACC_PUBLIC == 0 && f.access & ACC_PROTECTED == 0 && f.access & ACC_PRIVATE == 0
  }

  /** The synthetic values array of an enum is not a captured outer reference. */
  predicate IsEnumField(classes: seq<ClassFacts>, c: nat, fd: FieldFacts)
    requires c < |classes|
  {
    IsEnum(classes[c]) && fd.isSynthetic && fd.fieldType < |classes| && classes[fd.fieldType].elementClass == Some(c)
  }

  predicate IsSyntheticField(classes: seq<ClassFacts>, c: nat, fd: FieldFacts)
    requires c < |classes|
  {
    fd.isSynthetic && !IsEnumField(classes, c, fd)
  }

  /** The positions, from `from` on, of the fields of c that getSyntheticFields keeps, in declaration order. */
  function SyntheticFieldIndices(classes: seq<ClassFacts>, c: nat, from: nat): (ks: seq<nat>)
    requires c < |classes| && from <= |classes[c].fields|
    ensures forall k :: k in ks <==> from <= k < |classes[c].fields| && IsSyntheticField(classes, c, classes[c].fields[k])
    ensures forall i, j :: 0 <= i < j < |ks| ==> ks[i] < ks[j]
    ensures forall i :: 0 <= i < |ks| ==> from <= ks[i] < |classes[c].fields|
    decreases |classes[c].fields| - from
  {
    var fs := classes[c].fields;
    if from == |fs| then []
    else (if IsSyntheticField(classes, c, fs[from]) then [from] else []) + SyntheticFieldIndices(classes, c, from + 1)
  }

  /** The fields the synthetic-field array is filled with, from position `from` on: the field at each of those
      positions, in order. */
  function SyntheticFieldsFrom(classes: seq<ClassFacts>, c: nat, from: nat): (r: seq<FieldFacts>)
    requires c < |classes| && from <= |classes[c].fields|
    ensures var ks := SyntheticFieldIndices(classes, c, from);
      |r| == |ks| && forall i :: 0 <= i < |r| ==> r[i] == classes[c].fields[ks[i]]
    decreases |classes[c].fields| - from
  {
    var fs := classes[c].fields;
    if from == |fs| then []
    else
      var rest := SyntheticFieldsFrom(classes, c, from + 1);
      if IsSyntheticField(classes, c, fs[from]) then
        assert SyntheticFieldIndices(classes, c, from) == [from] + SyntheticFieldIndices(classes, c, from + 1);
        PickedCons(fs, from, SyntheticFieldIndices(classes, c, from + 1), rest);
        [fs[from]] + rest
      else
        assert SyntheticFieldIndices(classes, c, from) == SyntheticFieldIndices(classes, c, from + 1);
        rest
  }

  /** Picking position k in front of a picked list picks fs[k] in front. */
  lemma PickedCons(fs: seq<FieldFacts>, k: nat, ks: seq<nat>, rest: seq<FieldFacts>)
    requires k < |fs| && |rest| == |ks| && forall i :: 0 <= i < |ks| ==> ks[i] < |fs| && rest[i] == fs[ks[i]]
    ensures forall i :: 0 <= i < |rest| + 1 ==> ([fs[k]] + rest)[i] == fs[([k] + ks)[i]]
  {
    forall i | 0 <= i < |rest| + 1 ensures ([fs[k]] + rest)[i] == fs[([k] + ks)[i]] {
      if i > 0 {
        assert ([fs[k]] + rest)[i] == rest[i - 1] && ([k] + ks)[i] == ks[i - 1];
      }
    }
  }

  /** getSyntheticFields: the synthetic fields that are not the enum values array, in declaration order (the
      order comes from SyntheticFieldsFrom, so the first entry is the first such field declared). */
  function SyntheticFields(classes: seq<ClassFacts>, c: nat): (r: seq<FieldFacts>)
    requires c < |classes|
    ensures forall fd :: fd in r <==> fd in classes[c].fields && IsSyntheticField(classes, c, fd)
  {
    var r := SyntheticFieldsFrom(classes, c, 0);
    SyntheticFieldsMembers(classes, c, r);
    r
  }

  lemma SyntheticFieldsMembers(classes: seq<ClassFacts>, c: nat, r: seq<FieldFacts>)
    requires c < |classes|
    requires var ks := SyntheticFieldIndices(classes, c, 0);
      |r| == |ks| && forall i :: 0 <= i < |r| ==> r[i] == classes[c].fields[ks[i]]
    ensures forall fd :: fd in r <==> fd in classes[c].fields && IsSyntheticField(classes, c, fd)
  {
    var fs := classes[c].fields;
    var ks := SyntheticFieldIndices(classes, c, 0);
    forall fd | fd in fs && IsSyntheticField(classes, c, fd) ensures fd in r {
      var k :| 0 <= k < |fs| && fs[k] == fd;
      assert k in ks;
      var i :| 0 <= i < |ks| && ks[i] == k;
      assert r[i] == fd;
    }
    forall fd | fd in r ensures fd in fs && IsSyntheticField(classes, c, fd) {
      var i :| 0 <= i < |r| && r[i] == fd;
      assert ks[i] in ks;
    }
  }

  datatype MethodKind = Declared | InstanceConstructor | SyntheticAccessor

  /** The method counters addMethod keeps: synthetic non-bridge methods, non-synthetic constructors,
      and the other non-synthetic methods except static initialisers. */
  predicate OfKind(m: MethodFacts, kind: MethodKind)
  {
    match kind
    case Declared => !m.isSynthetic && m.name != "<init>" && m.name != "<clinit>"
    case InstanceConstructor => !m.isSynthetic && m.name == "<init>"
    case SyntheticAccessor => m.isSynthetic && !m.isBridge
  }

  /** The indices at or after `from` of the methods of one kind, in declaration order. */
  function MethodsOfKind(ms: seq<MethodFacts>, kind: MethodKind, from: nat): (r: seq<nat>)
    requires from <= |ms|
    ensures forall k :: k in r <==> from <= k < |ms| && OfKind(ms[k], kind)
    ensures forall i, j :: 0 <= i < j < |r| ==> r[i] < r[j]
    ensures forall i :: 0 <= i < |r| ==> from <= r[i] < |ms|
    decreases |ms| - from
  {
    if from == |ms| then []
    else (if OfKind(ms[from], kind) then [from] else []) + MethodsOfKind(ms, kind, from + 1)
  }

  /** A method of class c by name and descriptor; the pair is unique within a class. */
  function FindMethod(classes: seq<ClassFacts>, c: nat, name: string, desc: string): (r: Option<nat>)
    requires c < |classes|
    ensures r.Some? ==>
      (r.value < |classes[c].methods| &&
       classes[c].methods[r.value].name == name && classes[c].methods[r.value].desc == desc)
    ensures r.None? ==> forall k :: 0 <= k < |classes[c].methods| ==>
      classes[c].methods[k].name != name || classes[c].methods[k].desc != desc
  {
    FindMethodFrom(classes[c].methods, name, desc, 0)
  }

  function FindMethodFrom(ms: seq<MethodFacts>, name: string, desc: string, from: nat): (r: Option<nat>)
    requires from <= |ms|
    ensures r.Some? ==> from <= r.value < |ms| && ms[r.value].name == name && ms[r.value].desc == desc
    ensures r.None? ==> forall k :: from <= k < |ms| ==> ms[k].name != name || ms[k].desc != desc
    decreases |ms| - from
  {
    if from == |ms| then None
    else if ms[from].name == name && ms[from].desc == desc then Some(from)
    else FindMethodFrom(ms, name, desc, from + 1)
  }

  /** A class by name; names are unique in the arena. */
  function FindClass(classes: seq<ClassFacts>, name: string, from: nat): (r: Option<nat>)
    requires from <= |classes|
    ensures r.Some? ==> from <= r.value < |classes| && classes[r.value].name == name
    ensures r.None? ==> forall k :: from <= k < |classes| ==> classes[k].name != name
    decreases |classes| - from
  {
    if from == |classes| then None
    else if classes[from].name == name then Some(from)
    else FindClass(classes, name, from + 1)
  }

  // ---------------------------------------------------------------- nesting queries

  predicate IsNestable(classes: seq<ClassFacts>, nodes: seq<NodeState>, c: nat)
    requires c < |classes| && |nodes| == |classes|
  {
    nodes[c].nestable && classes[c].isReal
  }

  /** canNestInto: the target is another class, not enclosed by this one and not one of its subclasses. */
  predicate CanNestInto(classes: seq<ClassFacts>, nodes: seq<NodeState>, c: nat, s: Subject)
    requires Linked(classes, nodes) && c < |classes| && ValidSubject(classes, s)
  {
    c != s.c && !Encloses(classes, nodes, c, Cls(s.c)) && s.c !in classes[c].childClasses
  }

  /** A nest that passes canNestInto leaves no class among its own ancestors. */
  lemma CanNestIntoKeepsAcyclic(classes: seq<ClassFacts>, nodes: seq<NodeState>, nodes': seq<NodeState>, c: nat, n: Nest)
    requires Linked(classes, nodes) && c < |classes| && ValidSubject(classes, n.subject)
    requires CanNestInto(classes, nodes, c, n.subject)
    requires |nodes'| == |nodes| && nodes'[c].nest == Some(n)
    requires forall x :: 0 <= x < |nodes| && x != c ==> nodes'[x].nest == nodes[x].nest
    ensures Acyclic(classes, nodes')
  {
    AcyclicAfterNest(classes, nodes, nodes', c, Some(n));
  }

  /** isActuallyStatic: the STATIC bit of the inner access if one was computed, else of the class access. */
  predicate IsActuallyStatic(classes: seq<ClassFacts>, nodes: seq<NodeState>, x: nat)
    requires x < |classes| && |nodes| == |classes|
  {
    IsStaticAccess(if nodes[x].innerAccess.Some? then nodes[x].innerAccess.value else classes[x].access)
  }

  /** hasStaticMembers computed afresh: never for an enum; otherwise a static inner class, an actually static
      nested class, a static non-synthetic non-final field, or a static non-synthetic method other than
      the class initialiser. */
  predicate ComputeHasStaticMembers(classes: seq<ClassFacts>, nodes: seq<NodeState>, c: nat)
    requires c < |classes| && NodeShape(classes, nodes) && FactsOk(classes)
  {
    var f := classes[c];
    assert ClassFactsOk(classes, c);
    !IsEnum(f) &&
    ((exists i :: i in f.innerClasses && IsStaticAccess(classes[i].access))
     || (exists n :: n in nodes[c].nestingClasses && IsActuallyStatic(classes, nodes, n))
     || (exists k :: 0 <= k < |f.fields| && f.fields[k].isStatic && !f.fields[k].isSynthetic && !f.fields[k].isFinal)
     || (exists k :: 0 <= k < |f.methods| && f.methods[k].isStatic && !f.methods[k].isSynthetic && f.methods[k].name != "<clinit>"))
  }

  /** A variable typed with this class counts unless its method is synthetic or is the constructor of an
      anonymous class. */
  predicate CountsAsArgTypeRef(classes: seq<ClassFacts>, nodes: seq<NodeState>, r: MethodRef)
    requires ValidMethodRef(classes, r) && |nodes| == |classes|
  {
    var m := MethodOf(classes, r);
    !m.isSynthetic && !(m.name == "<init>" && nodes[r.cls].nest.Some? && nodes[r.cls].nest.value.nestType == ANONYMOUS)
  }

  predicate ComputeIsMethodArgType(classes: seq<ClassFacts>, nodes: seq<NodeState>, c: nat)
    requires c < |classes| && NodeShape(classes, nodes) && FactsOk(classes)
  {
    var refs := classes[c].argTypeRefs;
    assert ClassFactsOk(classes, c);
    exists k :: 0 <= k < |refs| && CountsAsArgTypeRef(classes, nodes, refs[k])
  }

  /** The memo if present, else the value computed afresh. */
  predicate HasStaticMembers(g: Env, c: nat)
    requires c < |g.classes| && NodeShape(g.classes, g.nodes) && FactsOk(g.classes) && |g.caches| == |g.classes|
  {
    if g.caches[c].hasStaticMembers.Some? then g.caches[c].hasStaticMembers.value
    else ComputeHasStaticMembers(g.classes, g.nodes, c)
  }

  predicate IsMethodArgType(g: Env, c: nat)
    requires c < |g.classes| && NodeShape(g.classes, g.nodes) && FactsOk(g.classes) && |g.caches| == |g.classes|
  {
    if g.caches[c].isMethodArgType.Some? then g.caches[c].isMethodArgType.value
    else ComputeIsMethodArgType(g.classes, g.nodes, c)
  }

  /** canBeAnonymous: not marked otherwise, not an interface, no static members, not a method argument type. */
  predicate CanBeAnonymous(g: Env, c: nat)
    requires c < |g.classes| && NodeShape(g.classes, g.nodes) && FactsOk(g.classes) && |g.caches| == |g.classes|
  {
    g.classes[c].anonymousAllowed && !IsInterface(g.classes[c]) && !HasStaticMembers(g, c) && !IsMethodArgType(g, c)
  }

  /** canBeInner: not an enum, unless its super class is java/lang/Enum itself. */
  predicate CanBeInner(classes: seq<ClassFacts>, c: nat)
    requires c < |classes| && FactsOk(classes)
  {
    assert ClassFactsOk(classes, c);
    !IsEnum(classes[c]) || (classes[c].superClass.Some? && classes[classes[c].superClass.value].name == "java/lang/Enum")
  }

  /** setInnerAccess: keep the inner-class flags of `access`; add STATIC for an inner class with static members
      and for an anonymous class outside any instance method; an anonymous class is never FINAL.
      `enclMethodStatic` is None when the nest has no enclosing method. */
  function InnerAccessBits(access: bv32, t: NestType, hasStaticMembers: bool, enclMethodStatic: Option<bool>): (r: bv32)
  {
    var kept := access & INNER_ACCESS_MASK;
    var withStatic := if t == INNER && hasStaticMembers then kept | ACC_STATIC else kept;
    if t == ANONYMOUS then
      (if enclMethodStatic.None? || enclMethodStatic.value then withStatic | ACC_STATIC else withStatic) & !ACC_FINAL
    else withStatic
  }

  /** The bits setInnerAccess copies from the access unchanged. */
  const COPIED_ACCESS_BITS: bv32 := 0xF607

  lemma InnerAccessBitsSpec(access: bv32, t: NestType, hasStaticMembers: bool, enclMethodStatic: Option<bool>)
    ensures var r := InnerAccessBits(access, t, hasStaticMembers, enclMethodStatic);
      && r & !INNER_ACCESS_MASK == 0
      && r & COPIED_ACCESS_BITS == access & COPIED_ACCESS_BITS
      && (IsStaticAccess(r) <==>
           IsStaticAccess(access) || (t == INNER && hasStaticMembers) ||
           (t == ANONYMOUS && (enclMethodStatic.None? || enclMethodStatic.value)))
      && (t == ANONYMOUS ==> r & ACC_FINAL == 0)
      && (t != ANONYMOUS ==> r & ACC_FINAL == access & ACC_FINAL)
  {
    if t == ANONYMOUS {
      if enclMethodStatic.None? || enclMethodStatic.value {
        AnonymousStaticBits(access);
      } else {
        AnonymousBits(access);
      }
    } else if t == INNER && hasStaticMembers {
      InnerStaticBits(access);
    } else {
      KeptBits(access);
    }
  }

  /** COPIED_ACCESS_BITS is the mask without STATIC and FINAL. */
  lemma CopiedAccessBits()
    ensures COPIED_ACCESS_BITS == INNER_ACCESS_MASK & !ACC_STATIC & !ACC_FINAL
  {
  }

  lemma KeptBits(access: bv32)
    ensures var r := access & INNER_ACCESS_MASK;
      && r & !INNER_ACCESS_MASK == 0 && r & COPIED_ACCESS_BITS == access & COPIED_ACCESS_BITS
      && (r & ACC_STATIC != 0 <==> access & ACC_STATIC != 0) && r & ACC_FINAL == access & ACC_FINAL
  {
  }

  lemma InnerStaticBits(access: bv32)
    ensures var r := (access & INNER_ACCESS_MASK) | ACC_STATIC;
      && r & !INNER_ACCESS_MASK == 0 && r & COPIED_ACCESS_BITS == access & COPIED_ACCESS_BITS
      && r & ACC_STATIC != 0 && r & ACC_FINAL == access & ACC_FINAL
  {
  }

  lemma AnonymousStaticBits(access: bv32)
    ensures var r := ((access & INNER_ACCESS_MASK) | ACC_STATIC) & !ACC_FINAL;
      && r & !INNER_ACCESS_MASK == 0 && r & COPIED_ACCESS_BITS == access & COPIED_ACCESS_BITS
      && r & ACC_STATIC != 0 && r & ACC_FINAL == 0
  {
  }

  lemma AnonymousBits(access: bv32)
    ensures var r := (access & INNER_ACCESS_MASK) & !ACC_FINAL;
      && r & !INNER_ACCESS_MASK == 0 && r & COPIED_ACCESS_BITS == access & COPIED_ACCESS_BITS
      && (r & ACC_STATIC != 0 <==> access & ACC_STATIC != 0) && r & ACC_FINAL == 0
  {
  }

  // ---------------------------------------------------------------- sibling sets (TreeSets ordered by SiblingLess on names)

  predicate InArena(classes: seq<ClassFacts>, s: seq<nat>)
  {
    forall i :: 0 <= i < |s| ==> s[i] < |classes|
  }

  /** Every listed class sorts after class a. */
  predicate AllAfter(classes: seq<ClassFacts>, a: nat, s: seq<nat>)
    requires a < |classes| && InArena(classes, s)
  {
    forall i :: 0 <= i < |s| ==> SiblingLess(classes[a].name, classes[s[i]].name)
  }

  lemma SortedCons(classes: seq<ClassFacts>, a: nat, s: seq<nat>)
    requires a < |classes| && InArena(classes, s) && SiblingSorted(classes, s) && AllAfter(classes, a, s)
    ensures SiblingSorted(classes, [a] + s)
  {
    var t := [a] + s;
    forall i, j | 0 <= i < j < |t| ensures SiblingLess(classes[t[i]].name, classes[t[j]].name) {
      if i > 0 {
        assert t[i] == s[i - 1] && t[j] == s[j - 1];
      } else {
        assert t[j] == s[j - 1];
      }
    }
  }

  lemma SortedTail(classes: seq<ClassFacts>, s: seq<nat>)
    requires InArena(classes, s) && SiblingSorted(classes, s) && s != []
    ensures SiblingSorted(classes, s[1..]) && AllAfter(classes, s[0], s[1..])
  {
    forall i | 0 <= i < |s| - 1 ensures SiblingLess(classes[s[0]].name, classes[s[1..][i]].name) {
      assert s[1..][i] == s[i + 1];
    }
    forall i, j | 0 <= i < j < |s| - 1 ensures SiblingLess(classes[s[1..][i]].name, classes[s[1..][j]].name) {
      assert s[1..][i] == s[i + 1] && s[1..][j] == s[j + 1];
    }
  }

  /** TreeSet.add: insert in sibling order, unless already present. */
  function SiblingInsert(classes: seq<ClassFacts>, s: seq<nat>, x: nat): (r: seq<nat>)
    requires InArena(classes, s) && x < |classes|
    ensures InArena(classes, r)
    ensures forall y :: y in r <==> y in s || y == x
  {
    if s == [] then [x]
    else if s[0] == x then s
    else if SiblingLess(classes[x].name, classes[s[0]].name) then [x] + s
    else [s[0]] + SiblingInsert(classes, s[1..], x)
  }

  lemma {:induction false} SiblingInsertSorted(classes: seq<ClassFacts>, s: seq<nat>, x: nat)
    requires InArena(classes, s) && x < |classes| && SiblingSorted(classes, s)
    requires forall a, b :: 0 <= a < |classes| && 0 <= b < |classes| && a != b ==> classes[a].name != classes[b].name
    ensures SiblingSorted(classes, SiblingInsert(classes, s, x))
  {
    if s == [] {
    } else if s[0] == x {
    } else if SiblingLess(classes[x].name, classes[s[0]].name) {
      SortedTail(classes, s);
      forall i | 0 <= i < |s| ensures SiblingLess(classes[x].name, classes[s[i]].name) {
        if i > 0 {
          assert s[i] == s[1..][i - 1];
          SiblingLessIsStrictTotal(classes[x].name, classes[s[0]].name, classes[s[i]].name);
        }
      }
      SortedCons(classes, x, s);
    } else {
      SortedTail(classes, s);
      SiblingInsertSorted(classes, s[1..], x);
      var rest := SiblingInsert(classes, s[1..], x);
      SiblingLessIsStrictTotal(classes[x].name, classes[s[0]].name, classes[x].name);
      forall i | 0 <= i < |rest| ensures SiblingLess(classes[s[0]].name, classes[rest[i]].name) {
        assert rest[i] in rest;
        if rest[i] != x {
          var k :| 0 <= k < |s[1..]| && s[1..][k] == rest[i];
        }
      }
      SortedCons(classes, s[0], rest);
    }
  }

  /** TreeSet.remove. */
  function SiblingRemove(s: seq<nat>, x: nat): (r: seq<nat>)
    ensures forall y :: y in r <==> y in s && y != x
    ensures |r| <= |s|
  {
    if s == [] then []
    else if s[0] == x then SiblingRemove(s[1..], x)
    else [s[0]] + SiblingRemove(s[1..], x)
  }

  lemma {:induction false} SiblingRemoveSorted(classes: seq<ClassFacts>, s: seq<nat>, x: nat)
    requires InArena(classes, s) && SiblingSorted(classes, s)
    ensures InArena(classes, SiblingRemove(s, x)) && SiblingSorted(classes, SiblingRemove(s, x))
  {
    if s != [] {
      SortedTail(classes, s);
      SiblingRemoveSorted(classes, s[1..], x);
      var rest := SiblingRemove(s[1..], x);
      if s[0] != x {
        forall i | 0 <= i < |rest| ensures SiblingLess(classes[s[0]].name, classes[rest[i]].name) {
          assert rest[i] in s[1..];
        }
        SortedCons(classes, s[0], rest);
      }
    }
  }

  /** What the ranking needs of an environment: a linked graph and one cache per class. */
  ghost predicate Ready(g: Env)
  {
    Linked(g.classes, g.nodes) && |g.caches| == |g.classes|
  }

  lemma EnvOkIsReady(g: Env)
    requires EnvOk(g)
    ensures Ready(g)
  {
  }
}
