# Nesting inference of the matcher, in Dafny

The matcher compares two versions of a Java program, A and B. Its nester infers, for each class of side B
that compilation turned into a top-level class, whether it was an anonymous or an inner class nested into
another class or into a method of one. This project models that part in Dafny:

* `Nest`: where a nested class lives (a class or a method), and whether it is ANONYMOUS, INNER or DUMMY
  (a DUMMY is only a placeholder in a ranking);
* `NestRankResult`: one candidate nest with a score in 0..100; the order between results; and the
  clamping of scores;
* the nesting state of a class (`ClassInstance`):
  * its nest, and the flag that says whether it may be nested at all;
  * the set of classes nested into it;
  * its anonymous and local children, kept sorted and numbered in sibling order;
  * its inner access flags and inner name;
  * its potential-score cache, invalidated along the nesting graph;
  * the `hasStaticMembers` and `isMethodArgType` memos;
* `NestedClassClassifier`: three signals rank every class and method as a host for one class:
  * an enum constant body;
  * an anonymous class created exactly once;
  * an inner class found through a captured enclosing instance or through synthetic accessors.

  Candidates are recorded with their greatest score, and every unranked class and method is filled in at 0;
* `Nester`:
  * nest and unnest a class, and add it as an anonymous or as an inner class;
  * auto-nest a class from its ranking, or all side-B equivalents of side-A classes;
  * compute potential nests and report the status counters;
* `NesterIo`: the text format of nesting mappings. Each line has six whitespace-separated fields: class,
  enclosing class, enclosing method name and descriptor, inner name, and access. Reading parses, resolves
  and applies each line; writing sorts the nested classes by name and emits one line each.

The program's objects become an arena. The classes of the environment are a sequence of immutable facts
(`ClassGraph.ClassFacts`), and a class is its index in that sequence. A method is a class index paired with a
method index (`Subject`). The mutable per-class state is split into two parts:

* a structural part (`NodeState`): nest, nestable flag, nesting set, children lists, inner access, names;
* a cache part (`CacheState`): the potential score, its dirty flag, and the two memos.

Both parts are fields of the class `ClassEnvironment.ClassEnv`. Its methods update them in place, as the
Java setters do, under the invariant `Valid()`, which requires that:

* the nesting graph is acyclic (through outer classes and nests);
* the nesting sets and children lists agree with the nests;
* the children lists are sorted in sibling order and numbered;
* every nested class is nestable.

Modules, one per part of the core:

| module | file | models |
|---|---|---|
| `Wrappers` | wrappers.dfy | `Option`, outcome of a call that can throw |
| `Nests` | nests.dfy | `Nest.java` |
| `NestRankResults` | nest_rank_result.dfy | `NestRankResult.java` |
| `ClassNames` | class_names.dfy | the static name helpers of `ClassInstance.java`, decimal numbering, natural order |
| `ClassGraph` | class_graph.dfy | class facts, node state, the graph invariant, `encloses`, `canNestInto`, access bits, sibling sets |
| `NestingSteps` | nesting_steps.dfy | frame lemmas for the steps of `setNest` |
| `Classifier` | classifier.dfy | `NestedClassClassifier.java` (pure `Rank` and the classifier object) |
| `ClassEnvironment` | class_environment.dfy | the mutable nesting state of `ClassInstance.java` |
| `Nesting` | nester.dfy | `Nester.java` |
| `NesterIo` | nester_io.dfy | `NesterIo.java` |

The predicates `ClassGraph.IsNestable`, `ClassGraph.CanNestInto`, `ClassGraph.Encloses`,
`ClassGraph.IsTopLevel`, `ClassGraph.CanBeAnonymous`, `ClassGraph.CanBeInner`, `ClassGraph.IsActuallyStatic`,
`ClassGraph.ComputeHasStaticMembers` and `ClassGraph.ComputeIsMethodArgType` and the function
`ClassEnvironment.PotentialScore` are the definitions of `isNestable` (ClassInstance.java:1201-1203),
`canNestInto` (1215-1228), `encloses` (1409-1436), `isTopLevel` (1124-1126), `canBeAnonymous` (1438-1440),
`canBeInner` (1446-1448), `isActuallyStatic` (1450-1458), `hasStaticMembers` (1460-1491), `isMethodArgType`
(1493-1517) and `findHighestPotentialScore` (1176-1199). The rows below name the members whose contracts state
facts about them. One of them departs from the code: `ClassGraph.Encloses` is the corrected form of `encloses`
from the first finding below, which also follows the enclosing class of a method nest upwards. The code as
written is `ClassGraph.EnclosesAsWritten`. `CanNestInto`, the guard of `ClassEnv.SetNest` and `Nester.Nest` are
built on the corrected form.

Three more functions are definitions of source behaviour whose properties other members state:
`NesterIo.Split` is `line.split("\\s")` (NesterIo.java:27), stated by `NesterIo.SplitJoin` and
`NesterIo.SplitFieldsNoSpace`; `NesterIo.IntToString` is `String.valueOf(int)` (NesterIo.java:159), stated by
`NesterIo.ParseIntToString`; and `Nesting.StatusOf` is the counting loop of `getStatus` (Nester.java:140-158),
stated by `Nesting.StatusCounts`, `Nesting.InputsOnlyCountsFewer` and `Nesting.Nester.GetStatus`.

`PotentialScore` ranks the class on `RankView` of the state: the same classes and links, with the caches
reduced to the hasStaticMembers and isMethodArgType memos that ranking reads. Storing a potential score
therefore does not change the potential score of any other class, which is what lets findPotentialNests fill
its caches one after another from the state it found.

## Model

| member | source | states |
|---|---|---|
| Nests.NestEquals | src/matcher/classifier/nester/Nest.java:16-27 | two nests are equal exactly when subject and type agree; a null is never equal |
| Nests.NestIsImmutable | src/matcher/classifier/nester/Nest.java:11-14 | `get` and `getType` give back the constructor arguments |
| Nests.EnclosingClass | src/matcher/classifier/nester/Nest.java:43-52 | the enclosing class is the subject itself, or the owner of a method subject |
| Nests.EnclosingMethod | src/matcher/classifier/nester/Nest.java:54-60 | there is an enclosing method exactly when the subject is a method, and then it is the subject |
| NestRankResults.Maybe | src/matcher/classifier/nester/NestRankResult.java:15-24 | subject and type are kept; the score is clamped to 0..100, negatives to 0 and values above 100 to 100 |
| NestRankResults.Yes | src/matcher/classifier/nester/NestRankResult.java:7-9 | a certain result has score 100 |
| NestRankResults.No | src/matcher/classifier/nester/NestRankResult.java:11-13 | a "no" is a DUMMY at score 0 |
| NestRankResults.ResultEquals | src/matcher/classifier/nester/NestRankResult.java:32-43 | results are equal exactly when their subjects are, whatever their types and scores |
| NestRankResults.Compare | src/matcher/classifier/nester/NestRankResult.java:50-74 | every result is above null; otherwise the lower score is below, and on equal scores a DUMMY is below a non-DUMMY |
| NestRankResults.CompareIsTotalPreorder | src/matcher/classifier/nester/NestRankResult.java:50-74 | compareTo is reflexive, sign-antisymmetric and transitive, so it is a valid sort order |
| ClassNames.GetId | src/matcher/type/ClassInstance.java:1640-1651 | an empty name is rejected; an array descriptor is kept; any other name is wrapped in `L` and `;` |
| ClassNames.GetName | src/matcher/type/ClassInstance.java:1653-1655 | an `L...;` descriptor loses its wrapper, anything else is kept, and `L` alone has no name |
| ClassNames.GetNameOfGetId | src/matcher/type/ClassInstance.java:1640-1655 | every non-empty name survives the round trip through its descriptor |
| ClassNames.GetOuterName | src/matcher/type/ClassInstance.java:1657-1669 | the outer name is the prefix before the last `$`, when that `$` is not at the start and not after a `/`; otherwise there is none |
| ClassNames.GetInnerName | src/matcher/type/ClassInstance.java:1671-1673 | the inner name holds no `$` and is the suffix after the last `$`, or the whole name |
| ClassNames.GetNestedName | src/matcher/type/ClassInstance.java:1675-1681 | outer + `$` + inner, and null exactly when either part is null |
| ClassNames.NestedNameRoundTrip | src/matcher/type/ClassInstance.java:1665-1681 | splitting a nested name whose inner part has no `$` gives back both parts |
| ClassNames.GetPackageName | src/matcher/type/ClassInstance.java:1683-1687 | the prefix before the last `/`, with no `/` after it; none exactly when no `/` follows the first character |
| ClassNames.GetClassName | src/matcher/type/ClassInstance.java:1689-1691 | the suffix after the last `/`: it holds no `/`, it is the whole name when there is no `/`, and a shorter one follows a `/` and ends the name |
| ClassNames.PackageAndClassName | src/matcher/type/ClassInstance.java:1683-1691 | a name with a package is its package, a `/`, then its class name |
| ClassNames.GetArrayDimensions | src/matcher/type/ClassInstance.java:436-444 | 0 for a non-array; else the number of leading `[`; an error when the id is all `[` |
| ClassNames.DigitsOfNatToString | src/matcher/type/ClassInstance.java:1312-1318 | the decimal string of a sibling number reads back as that number |
| ClassNames.NatToStringInjective | src/matcher/type/ClassInstance.java:1312-1339 | distinct sibling numbers give distinct names and prefixes |
| ClassNames.SiblingLessIsStrictTotal | src/matcher/type/ClassInstance.java:1759-1774 | the TreeSet comparator of the children lists is a strict total order on distinct names |
| ClassNames.NaturalLessTransitive | src/matcher/type/ClassInstance.java:1759-1774 | the name order the comparators use is transitive |
| ClassNames.NaturalLessTotal | src/matcher/type/ClassInstance.java:1759-1774 | the name order is total on distinct names |
| ClassGraph.InnerAccessBitsSpec | src/matcher/type/ClassInstance.java:1345-1371 | the inner access flags keep the mask bits of the class access. An INNER nest adds STATIC when the class has static members. An ANONYMOUS nest drops FINAL and adds STATIC when its method is static. A DUMMY nest copies the access |
| ClassGraph.CopiedAccessBits | src/matcher/type/ClassInstance.java:1345-1371 | the copied bits are the mask without STATIC and FINAL |
| ClassGraph.TopLevelClass | src/matcher/type/ClassInstance.java:1128-1137 | the class reached through outer classes and nests is top level, and is the class itself or encloses it |
| ClassGraph.NeverEnclosesItself | src/matcher/type/ClassInstance.java:1409-1436 | in an acyclic graph no class encloses itself |
| ClassGraph.EnclosesRanksBelow | src/matcher/type/ClassInstance.java:1409-1436 | an enclosing class ranks strictly below every class it encloses |
| ClassGraph.EnclosesThroughParent | src/matcher/type/ClassInstance.java:1409-1436 | a class encloses whatever one of its children (by outer class or by nest) encloses |
| ClassGraph.CanNestIntoKeepsAcyclic | src/matcher/type/ClassInstance.java:1215-1228 | a nest that passes canNestInto leaves the nesting graph acyclic |
| ClassGraph.AcyclicAfterNest | src/matcher/type/ClassInstance.java:1238-1300 | setting a nest whose class is not the nested class and is not enclosed by it keeps the graph acyclic; removing a nest always does |
| ClassGraph.EnclosesAsWrittenMissesMethodOwners | src/matcher/type/ClassInstance.java:1409-1436 | a concrete arena where encloses as written answers false, its corrected form answers true, and the nest it lets through makes a cycle |
| ClassGraph.SyntheticFields | src/matcher/type/ClassInstance.java:1531-1558 | exactly the synthetic fields that are not the enum values array; it is the list SyntheticFieldsFrom builds from position 0, which fixes the order |
| ClassGraph.SyntheticFieldIndices | src/matcher/type/ClassInstance.java:1531-1558 | the positions of the fields kept: exactly those of synthetic fields that are not the enum values array, strictly increasing |
| ClassGraph.SyntheticFieldsFrom | src/matcher/type/ClassInstance.java:1531-1558 | the field at each kept position, in that order: an order-preserving filter of the declared fields, so its first entry is the first such field declared |
| ClassGraph.MethodsOfKind | src/matcher/type/ClassInstance.java:1560-1603 | the declared methods, instance constructors or synthetic non-bridge methods: exactly the methods of that kind, in order |
| ClassGraph.FindMethod | src/matcher/type/ClassInstance.java:533-549 | the method found has that name and descriptor; none means no method has both |
| ClassGraph.FindClass | src/matcher/serdes/NesterIo.java:84-96 | the class found has that name; none means no class has it |
| ClassGraph.SiblingInsert | src/matcher/type/ClassInstance.java:1302-1305 | TreeSet.add: the members are the old ones and the new class |
| ClassGraph.SiblingInsertSorted | src/matcher/type/ClassInstance.java:1759-1774 | insertion keeps a children list sorted in sibling order |
| ClassGraph.SiblingRemove | src/matcher/type/ClassInstance.java:1307-1310 | TreeSet.remove: the members are the old ones without the class |
| ClassGraph.SiblingRemoveSorted | src/matcher/type/ClassInstance.java:1325-1328 | removal keeps a children list sorted |
| Classifier.BestResultSpec | src/matcher/classifier/nester/NestedClassClassifier.java:53-63 | the best result is one of the candidates and none has a greater key; it is null exactly when all candidates are null |
| Classifier.BestResultEarliest | src/matcher/classifier/nester/NestedClassClassifier.java:53-63 | among candidates of greatest key the earliest wins, because only a strictly greater one replaces it |
| Classifier.TryNestClass | src/matcher/classifier/nester/NestedClassClassifier.java:65-70 | a class that is not nestable gives no result |
| Classifier.TryEnum | src/matcher/classifier/nester/NestedClassClassifier.java:72-84 | an enum whose superclass is not java/lang/Enum and accepts the nest is ANONYMOUS in its superclass at 100, otherwise no result |
| Classifier.TryAnonymousSpec | src/matcher/classifier/nester/NestedClassClassifier.java:86-125 | a result exists exactly when the class can be anonymous and is created once by a method of another class it can nest into; the result is ANONYMOUS in that method with the anonymous score |
| Classifier.AnonymousScore | src/matcher/classifier/nester/NestedClassClassifier.java:117-122 | 90 for one declared method, else 60 with synthetic fields, else 30; 5 less unless package private |
| Classifier.AnonymousCandidate | src/matcher/classifier/nester/NestedClassClassifier.java:249-257 | a candidate exists exactly when canNestInto allows it, and is ANONYMOUS in the method if one is given, else in the class |
| Classifier.InnerCandidate | src/matcher/classifier/nester/NestedClassClassifier.java:259-265 | a candidate exists exactly when canNestInto allows it, and is INNER in the class |
| Classifier.FieldSignalOf | src/matcher/classifier/nester/NestedClassClassifier.java:142-159 | a captured field names a real, non-array class of the arena |
| Classifier.AppendNew | src/matcher/classifier/nester/NestedClassClassifier.java:170-181 | a LinkedHashSet: first occurrences in order, the old members kept as a prefix, no repeats |
| Classifier.IncomingOf | src/matcher/classifier/nester/NestedClassClassifier.java:169-181 | exactly the classes calling a synthetic method of the class |
| Classifier.OutgoingOfMembers | src/matcher/classifier/nester/NestedClassClassifier.java:209-222 | exactly the other classes whose static synthetic methods the class calls |
| Classifier.AccessorScore | src/matcher/classifier/nester/NestedClassClassifier.java:185-200 | exactly the base, less 20 for a class that is not top level, less 20 again outside check-only mode when that class ranks the nested class above the score so far; so between base - 40 and base |
| Classifier.AccessorSignals | src/matcher/classifier/nester/NestedClassClassifier.java:161-244 | every accessor candidate is INNER in a class canNestInto accepts |
| Classifier.AccessorSignalsScored | src/matcher/classifier/nester/NestedClassClassifier.java:169-244 | the incoming candidates come first and the outgoing ones follow; each names one of its references and has the accessor score from base 80 or 60 (incoming) or 60 or 40 (outgoing), the higher one when all references share one top-level class |
| Classifier.CandidatesScoredFrom | src/matcher/classifier/nester/NestedClassClassifier.java:183-203 | every candidate of one reference list names one of those references at its accessor score |
| Classifier.InnerCandidates | src/matcher/classifier/nester/NestedClassClassifier.java:127-247 | every inner candidate is INNER in a class canNestInto accepts |
| Classifier.Added | src/matcher/classifier/nester/NestedClassClassifier.java:65-70 | a class that is not nestable hands no result to addResult |
| Classifier.Entries | src/matcher/classifier/nester/NestedClassClassifier.java:271-292 | a class subject adds itself. A method subject ends with a DUMMY entry for its class at the same score, and adds itself only when no class is selected or its class is the selected one |
| Classifier.AddNoCheckSpec | src/matcher/classifier/nester/NestedClassClassifier.java:294-296 | subjects stay distinct. An entry of the same subject is replaced only by a strictly higher score, so a tie keeps the old entry and its type. Every other entry keeps its place. A new subject is appended, and only then does the list grow |
| Classifier.AddNoCheckAllRecordsMax | src/matcher/classifier/nester/NestedClassClassifier.java:294-296 | after any sequence of results, each subject holds the greatest score it was given, and only given results are stored |
| Classifier.FoundResultsOfNested | src/matcher/classifier/nester/NestedClassClassifier.java:42-47 | a class with a nest ranks that nest at 100, and a method nest also gives a DUMMY for its class |
| Classifier.FoundResultsRecordMax | src/matcher/classifier/nester/NestedClassClassifier.java:42-51 | a class without a nest records each candidate subject at its greatest score |
| Classifier.Rank | src/matcher/classifier/nester/NestedClassClassifier.java:20-28 | nothing for a class that is not real; otherwise the found results come first |
| Classifier.RankIsDistinct | src/matcher/classifier/nester/NestedClassClassifier.java:298-329 | no subject appears twice in a ranking |
| Classifier.RankCoversClasses | src/matcher/classifier/nester/NestedClassClassifier.java:305-312 | every class other than the ranked one appears in the ranking of a real class |
| Classifier.RankCoversSelectedMethods | src/matcher/classifier/nester/NestedClassClassifier.java:314-326 | every method of the selected class appears in the ranking |
| Classifier.RankSubjectsValid | src/matcher/classifier/nester/NestedClassClassifier.java:20-329 | every subject of a ranking is a class of the environment or a method of one |
| Classifier.UnrankedClassesShape | src/matcher/classifier/nester/NestedClassClassifier.java:305-312 | every class filler is a zero-score DUMMY for an unranked class other than the ranked one |
| Classifier.UnrankedMethodsShape | src/matcher/classifier/nester/NestedClassClassifier.java:314-326 | every method filler is a zero-score DUMMY for an unranked method of the selected class |
| Classifier.NestedClassClassifier.constructor | src/matcher/classifier/nester/NestedClassClassifier.java:35-40 | an empty result map for the class and the selected class |
| Classifier.NestedClassClassifier.AddResultNoCheck | src/matcher/classifier/nester/NestedClassClassifier.java:294-296 | the map keeps the old entry unless the new score is strictly higher, and returns the entry now stored |
| Classifier.NestedClassClassifier.AddResult | src/matcher/classifier/nester/NestedClassClassifier.java:267-292 | the map after the addResultNoCheck calls of one result |
| Classifier.NestedClassClassifier.FindResults | src/matcher/classifier/nester/NestedClassClassifier.java:42-51 | the map holds the found results |
| Classifier.NestedClassClassifier.FillUnrankedClasses | src/matcher/classifier/nester/NestedClassClassifier.java:305-312 | the loop appends the class fillers |
| Classifier.NestedClassClassifier.FillUnrankedMethods | src/matcher/classifier/nester/NestedClassClassifier.java:314-326 | the loop appends the method fillers |
| Classifier.NestedClassClassifier.FinalizeResults | src/matcher/classifier/nester/NestedClassClassifier.java:298-329 | the results, then the class fillers, then the method fillers |
| Classifier.RankClass | src/matcher/classifier/nester/NestedClassClassifier.java:20-28 | running the classifier object gives the pure ranking |
| Classifier.SortByKey | src/matcher/Nester.java:113 | the sort is a permutation and ascending in compareTo order |
| Classifier.ScanPicksBest | src/matcher/Nester.java:113-122 | where the downward scan stops it has found a non-DUMMY of greatest score, or, when all are DUMMY, an entry of least score |
| Classifier.SelectBest | src/matcher/Nester.java:113-122 | the sort-and-scan picks an entry of the ranking: a non-DUMMY of greatest score when there is one, else one of least score |
| ClassEnvironment.EnclosingMethodStatic | src/matcher/type/ClassInstance.java:1345-1371 | whether the enclosing method is static, and nothing without a method |
| ClassEnvironment.PotentialScoreOfNested | src/matcher/type/ClassInstance.java:1176-1199 | a nestable class with a non-DUMMY nest has potential score 100 |
| ClassEnvironment.CascadedTrans | src/matcher/type/ClassInstance.java:1159-1174 | two invalidations that each pass themselves on compose into one that does |
| ClassEnvironment.DirtiedFromTrans | src/matcher/type/ClassInstance.java:1159-1174 | an invalidation started at a neighbour of a class the first one reached stays within what the first one reaches |
| ClassEnvironment.CascadedCarry | src/matcher/type/ClassInstance.java:1252-1288 | an invalidation done before relinking still passes itself on after it, when every new link ends at a dirty class |
| ClassEnvironment.StaticMembersSeenAfterRelink | src/matcher/type/ClassInstance.java:1290-1298 | setting the class's own inner access and name does not change what hasStaticMembers answers for it |
| ClassEnvironment.ApplyNestLinks | src/matcher/type/ClassInstance.java:1252-1288 | relinking then finishing gives the new nest, the nesting sets, the dirty classes and the cascade |
| ClassEnvironment.ApplyNestAccess | src/matcher/type/ClassInstance.java:1290-1298 | relinking then finishing gives the inner access from the static-members answer seen before the call, the memo, and the inner name |
| ClassEnvironment.NestFactsRenamed | src/matcher/Nester.java:48-58 | setSimpleName after setNest keeps all of setNest's facts, none of which read the class's own simple name |
| ClassEnvironment.MemoViewRefilled | src/matcher/type/ClassInstance.java:1150-1157 | storing a potential score leaves the memos that ranking reads unchanged |
| ClassEnvironment.ClassEnv.MarkPotentialScoreDirty | src/matcher/type/ClassInstance.java:1159-1174 | stops at a dirty cache; otherwise the class is dirty with cleared memos and the invalidation spreads to its enclosing class and its nested classes. Every class it invalidates is the class itself, or the enclosing class or a nested class of another class it invalidated. The structure is unchanged |
| ClassEnvironment.ClassEnv.UpdateAnonymousClassNames | src/matcher/type/ClassInstance.java:1312-1318 | the anonymous children are named "1", "2", ... in sibling order, and nothing else changes |
| ClassEnvironment.ClassEnv.UpdateLocalClassNames | src/matcher/type/ClassInstance.java:1330-1339 | the local children get the prefixes "1", "2", ... in sibling order, and nothing else changes |
| ClassEnvironment.ClassEnv.ComputeStaticMembers | src/matcher/type/ClassInstance.java:1460-1491 | the walk with early exits computes the hasStaticMembers definition |
| ClassEnvironment.ClassEnv.HasStaticMembersMemo | src/matcher/type/ClassInstance.java:1460-1491 | the answer is the definition and is memoised; nothing else changes |
| ClassEnvironment.ClassEnv.ComputeMethodArgType | src/matcher/type/ClassInstance.java:1493-1517 | the walk computes the isMethodArgType definition |
| ClassEnvironment.ClassEnv.IsMethodArgTypeMemo | src/matcher/type/ClassInstance.java:1493-1517 | the answer is the definition and is memoised; nothing else changes |
| ClassEnvironment.ClassEnv.RemoveAnonymousClass | src/matcher/type/ClassInstance.java:1307-1310 | the class leaves the anonymous list, which is renumbered; only bookkeeping changes |
| ClassEnvironment.ClassEnv.RemoveLocalClass | src/matcher/type/ClassInstance.java:1325-1328 | the class leaves the local list, which is renumbered; only bookkeeping changes |
| ClassEnvironment.ClassEnv.AddAnonymousClass | src/matcher/type/ClassInstance.java:1302-1305 | the class joins the anonymous list in sibling order and the invariant is restored |
| ClassEnvironment.ClassEnv.AddLocalClass | src/matcher/type/ClassInstance.java:1320-1323 | the class joins the local list in sibling order and the invariant is restored |
| ClassEnvironment.ClassEnv.DetachOld | src/matcher/type/ClassInstance.java:1252-1270 | the class leaves the nesting set and children list of its old enclosing class |
| ClassEnvironment.ClassEnv.AttachNew | src/matcher/type/ClassInstance.java:1272-1288 | the class joins the nesting set and children list of its new enclosing class |
| ClassEnvironment.ClassEnv.Relink | src/matcher/type/ClassInstance.java:1252-1288 | the nest is set, the graph invariant holds again, inner access and names are cleared |
| ClassEnvironment.ClassEnv.ApplyNest | src/matcher/type/ClassInstance.java:1252-1300 | the nest is set and the class is in exactly its new enclosing class's nesting set and in its anonymous or local list. No class changes its flag or simple name; the others keep their nest and inner access and change names only within the lists the class leaves and joins. The class and both enclosing classes are dirty, other caches are kept or invalidated, and every class invalidated has passed it on. The inner access comes from the static-members answer seen before the call: the memo of a class that was already dirty, else the computation on the new links. An INNER nest takes its inner name from the class name, a DUMMY one has none |
| ClassEnvironment.ClassEnv.SetInnerAccess | src/matcher/type/ClassInstance.java:1345-1371 | the inner access flags are computed from the class access, the nest type, the static-members memo and the enclosing method |
| ClassEnvironment.ClassEnv.FinishNest | src/matcher/type/ClassInstance.java:1290-1298 | inner access is set, and an inner nest takes its inner name from the class name |
| ClassEnvironment.ClassEnv.SetNest | src/matcher/type/ClassInstance.java:1238-1300 | no change when the guards refuse. Otherwise: the new nest; the other classes keep their flag, simple name, nest and inner access and change names only within the anonymous and local lists the class leaves and joins; the class in exactly the new enclosing class's nesting set and in its anonymous or local list; the class, its old and its new enclosing class dirty; other caches kept or invalidated, each invalidated one having passed it on; inner access from the static-members answer seen before the call; an INNER nest takes its inner name from the class name, a DUMMY one has none, and a nest that is not local has no local prefix |
| ClassEnvironment.ClassEnv.SetNestableAsWritten | src/matcher/type/ClassInstance.java:1205-1213 | as written: the flag changes, the nest stays, and a nested class made non-nestable breaks the invariant |
| ClassEnvironment.ClassEnv.SetNestable | src/matcher/type/ClassInstance.java:1205-1213 | corrected: the flag changes and no simple name changes; other classes keep their flag, nest and inner access. Setting the flag, or clearing it on a class that is not nestable, changes nothing else in the nesting state. Clearing it on a nestable class drops its nest, clears its inner access, inner name and local prefix, takes it out of every nesting set and changes names only within the lists it left. The class's cache is dirty, every other cache is kept or invalidated, and every invalidated class has passed it on |
| ClassEnvironment.NestableStored | src/matcher/type/ClassInstance.java:1205-1213 | setNest(null), the flag store and the invalidation compose into what setNestable promises |
| ClassEnvironment.ClassEnv.SetSimpleName | src/matcher/Nester.java:48 | only the simple name of the class changes |
| ClassEnvironment.ClassEnv.FindHighestPotentialScore | src/matcher/type/ClassInstance.java:1176-1199 | the score is the potential-score definition |
| ClassEnvironment.ClassEnv.GetHighestPotentialScore | src/matcher/type/ClassInstance.java:1150-1157 | a dirty cache is refilled with the potential score and cleaned; a clean one answers as stored |
| ClassEnvironment.ClassEnv.HasPotentialNest | src/matcher/type/ClassInstance.java:1139-1157 | false for a class that is not nestable, true for a nested one, and nothing changes for either. Otherwise whether its potential score is positive: a dirty cache is refilled with the potential score of the state found and cleaned, every other cache and a clean one are kept |
| Nesting.AnonymousSubject | src/matcher/Nester.java:46-49 | the method subject when a method is given, else the class |
| Nesting.StatusCounts | src/matcher/Nester.java:134-162 | nested is anonymous plus inner, at most total; total is all classes, or the inputs with inputsOnly |
| Nesting.InputsOnlyCountsFewer | src/matcher/Nester.java:143-145 | inputsOnly never counts more |
| Nesting.Unnested | src/matcher/Nester.java:86-95 | exactly the side-A equivalents that are nestable and have no nest |
| Nesting.ChoiceAllowed | src/matcher/Nester.java:106-126 | the choice for a class without a nest is not DUMMY, names a valid subject, and passes isNestable and canNestInto, so nest accepts it |
| Nesting.Nester.constructor | src/matcher/Nester.java:17-19 | the nester over the environment and side A |
| Nesting.Nester.Nest | src/matcher/Nester.java:60-71 | DUMMY, a class that is not nestable and a refused target fail before any change; otherwise setNest's whole effect for that nest: the other classes keep their flag, simple name, nest and inner access and change names only within the anonymous and local lists the class leaves and joins; the class is in exactly its new enclosing class's nesting set; the class and its old and new enclosing classes are dirty and every other cache is kept or invalidated, each invalidated one having passed it on; the inner access comes from the static-members answer seen before the call, an INNER nest takes its inner name from the class name and a DUMMY one has none |
| Nesting.Nester.Unnest | src/matcher/Nester.java:73-80 | the class ends with no nest and no simple name, and every other class keeps its nest and simple name. A nestable class gets setNest(null)'s whole effect: it leaves every nesting set and its anonymous or local list, its inner access, inner name and local prefix are cleared, the class and its old enclosing class are dirty and other caches are kept or invalidated along the links. For a class that is not nestable only the simple name is cleared |
| Nesting.Nester.AddAnonymousClass | src/matcher/Nester.java:46-49 | succeeds exactly when the class is nestable and canNestInto accepts the class; then setNest's whole effect for ANONYMOUS in the method or class, the class in that anonymous list, and no simple name. A failure changes nothing; other classes keep their nests and simple names |
| Nesting.Nester.AddInnerClass | src/matcher/Nester.java:55-58 | succeeds exactly when the class is nestable and canNestInto accepts the class; then setNest's whole effect for INNER in the class, with the inner access from the static-members answer and the inner name from the class name, and the given simple name. A failure changes nothing; other classes keep their nests and simple names |
| Nesting.Nester.AddInnerClassByName | src/matcher/Nester.java:51-53 | the same as addInnerClass with the class's own name as simple name |
| Nesting.Nester.ChooseNest | src/matcher/Nester.java:106-122 | the choice is the sort-and-scan's best entry when it is not DUMMY and reaches minScore, else nothing |
| Nesting.Nester.NestAsChosen | src/matcher/Nester.java:122-131 | passes exactly when the type is not DUMMY, the class is nestable and canNestInto accepts the subject; then setNest's whole effect for that nest, and an INNER one also sets the simple name to the class name while another keeps it. A failure changes nothing; other classes keep their nests and simple names |
| Nesting.Nester.AutoNestClass | src/matcher/Nester.java:106-132 | the choice is the sort-and-scan rule over the ranking. With no choice nothing changes. With one, it passes exactly when nest's checks pass, which is always for a class without a nest, and then setNest's whole effect for the chosen nest, with the class's own name as simple name for an INNER one. Other classes keep their nests and simple names |
| Nesting.Nester.AutoNestAll | src/matcher/Nester.java:86-100 | the classes walked are the unnested equivalents, in order. Each pick is the choice on the state its call found. Each class holds its pick, and an INNER pick its own name as simple name, unless a later call revisited it; without revisits the walk passes. Other classes keep their nests and simple names |
| Nesting.Nester.AutoNestEach | src/matcher/Nester.java:97-99 | autoNestClass on every class of the list in turn: each pick is the choice on the state its call found and is held, with the INNER simple name, unless revisited; it stops only at a refusal, which needs a revisit. Classes outside the list keep their nests and simple names |
| Nesting.Nester.AutoNestNext | src/matcher/Nester.java:97-99 | one call of the walk: its pick is the choice on the state it found, the earlier picks stay held, a passing call holds its own pick with the INNER simple name, and only the class walked can change its nest or simple name |
| Nesting.Nester.AutoNestAllByDefault | src/matcher/Nester.java:82-84 | the same as AutoNestAll with minimum score 1 |
| Nesting.Nester.FindPotentialNests | src/matcher/Nester.java:32-36 | every side-A equivalent whose cache was dirty now holds the potential score of the state the call found and is clean; every other cache, and every nest, is as before |
| Nesting.FillStep | src/matcher/Nester.java:32-36 | one getHighestPotentialScore call of the loop adds its equivalent to the filled set, and the memos that ranking reads stay as they were |
| Nesting.Nester.GetStatus | src/matcher/Nester.java:134-162 | the four counters over side A |
| NesterIo.SplitJoin | src/matcher/serdes/NesterIo.java:27 | splitting tab-joined fields without whitespace, the last one non-empty, gives the fields back |
| NesterIo.SplitFieldsNoSpace | src/matcher/serdes/NesterIo.java:27 | no field of a split holds whitespace |
| NesterIo.ParseInt | src/matcher/serdes/NesterIo.java:62-68 | a parsed value lies within int, and is negative only after a `-` |
| NesterIo.ParseIntToString | src/matcher/serdes/NesterIo.java:65 | parseInt reads back what String.valueOf writes |
| NesterIo.SignedAccess | src/matcher/serdes/NesterIo.java:159 | the int value of the 32 access bits: within int, non-negative exactly when bit 31 is clear, and then the bits themselves |
| NesterIo.ParseLine | src/matcher/serdes/NesterIo.java:27-73 | a line without six fields is skipped with its count; a parsed line is a readable mapping |
| NesterIo.FormatLine | src/matcher/serdes/NesterIo.java:153-181 | a written line ends with a newline |
| NesterIo.ParseFormatLine | src/matcher/serdes/NesterIo.java:27-73 | reading a written readable mapping gives it back |
| NesterIo.Resolve | src/matcher/serdes/NesterIo.java:82-116 | unknown class, enclosing class or method give their errors. Otherwise the request names the classes found; it is inner exactly when there is an inner name, and anonymous into a method exactly when one is given |
| NesterIo.LineRequest | src/matcher/serdes/NesterIo.java:26-75 | each line asks for at most one valid request |
| NesterIo.RequestsPrefix | src/matcher/serdes/NesterIo.java:26-76 | the requests of the first lines are the first requests |
| NesterIo.LastRequest | src/matcher/serdes/NesterIo.java:26-116 | the last request naming a class, which names it, and none exactly when no request names it |
| NesterIo.LastRequestIsLast | src/matcher/serdes/NesterIo.java:26-116 | that request is one of the requests and no later request names the class |
| NesterIo.ReadApplied | src/matcher/serdes/NesterIo.java:27-75 | one turn of read keeps the nests and simple names applied so far, or stops at a refused request with the earlier ones applied |
| NesterIo.ReadDone | src/matcher/serdes/NesterIo.java:22-80 | where read stops, what it applied is stated over the requests of all the lines |
| NesterIo.Dispatch | src/matcher/serdes/NesterIo.java:111-115 | the request goes to addAnonymousClass or addInnerClass: it passes exactly when the class is nestable and canNestInto accepts the enclosing class, and then it has setNest's whole effect for the requested nest and the class holds the requested simple name, none for an anonymous one. A failure changes nothing; other classes keep their nests and simple names |
| NesterIo.ReadLine | src/matcher/serdes/NesterIo.java:27-75 | the line's request, if any, is handed on; it fails exactly when there is a request that the nester refuses. A line that asks for nothing, and a refusal, change nothing. Otherwise it has setNest's whole effect for the requested nest and the named class holds the requested simple name; a class the line does not name keeps its nest and simple name |
| NesterIo.Read | src/matcher/serdes/NesterIo.java:22-80 | after a full read every class some request names holds the nest and simple name of its last request. After a refusal, the requests before the refused one are applied and the refused one is not admitted. No class outside the requests changes its nest or simple name |
| NesterIo.Selection | src/matcher/serdes/NesterIo.java:119-131 | exactly the nested equivalents of real side-A classes, in side-A order |
| NesterIo.EntryOf | src/matcher/serdes/NesterIo.java:141-159 | the class name and its simple name |
| NesterIo.SortByName | src/matcher/serdes/NesterIo.java:137 | a permutation sorted by name |
| NesterIo.InsertByNameSorted | src/matcher/serdes/NesterIo.java:137 | inserting by name keeps a sequence sorted |
| NesterIo.NaturalLessIsStrictOrder | src/matcher/serdes/NesterIo.java:137 | the name order is irreflexive and transitive |
| NesterIo.SelectNested | src/matcher/serdes/NesterIo.java:119-131 | the loop collects the selection |
| NesterIo.FormatAll | src/matcher/serdes/NesterIo.java:139-148 | one formatted line per class, in order |
| NesterIo.Write | src/matcher/serdes/NesterIo.java:118-151 | false and nothing written exactly when the selection is empty; otherwise the selection sorted by name, one line each |
| NesterIo.WrittenLineRecreatesNest | src/matcher/serdes/NesterIo.java:111-181 | the line written for an anonymous or a member-inner class reads back as a request that recreates its nest |
| NesterIo.LocalClassReadsBackIntoClass | src/matcher/serdes/NesterIo.java:100-116 | the line of a class INNER in a method reads back as inner in the class |
| NesterIo.FindClassUnique | src/matcher/serdes/NesterIo.java:84 | a lookup by a class's name finds that class |
| NesterIo.FindMethodUnique | src/matcher/serdes/NesterIo.java:101 | a lookup by a method's name and descriptor finds that method |

## Left out

- Concurrency: autoNestAll runs autoNestClass in parallel. The model runs it as a sequential loop in side-A order, and drops the progress callback.
- I/O: the reader and writer of `NesterIo` are modelled on a sequence of lines. Opening the files (CREATE_NEW), `IOException` and `UncheckedIOException` are not modelled. Diagnostics to standard error and output become the outcome datatype or are dropped.
- The GUI, the project configuration, `Nester.init`, `Nester.reset` and `ClassEnvironment.init` are not part of this model; the environment is given to the constructor.
- `IRankResult` and the other rankers are not part of this model.
- `Util.compareNatural` is not part of this model. Its stand-in `NaturalLess` is the lexicographic order on character codes. The sort over it is written for any strict order.
- The sibling comparators (ClassInstance.java:1759-1774) are modelled by the same stand-in order on the names.
- HashSet iteration order of the zero-score fillers in finalizeResults is modelled as ascending index.
- findHighestPotentialScore stores its result in the class. In the model its caller `GetHighestPotentialScore` stores it, and the memos that ranking fills are not written back.
- Nesting.Nester.AutoNestClass: states the choice rule and the frame but not which of several equally scored entries is taken.
- Nesting.Nester.AutoNestClass: for a class that already has a nest, which autoNestAll can meet only when two side-A classes share an equivalent, the outcome is stated through canNestInto on the old state and is not shown to pass.
- Nesting.Nester.AutoNestAll: a class that appears twice in the walk is stated to hold only the pick of its later call; that the later call passes is not shown.
- Nesting.Nester.AutoNestAllByDefault: the same limits as AutoNestAll.
- Nesting.Nester.AutoNestAll: over the whole walk it states each pick's nest, the INNER simple name and the frame of nests and simple names. The rest of setNest's effect (caches, inner access, names in the anonymous and local lists) is stated per call on AutoNestClass and is not composed across the walk.
- Nesting.Nester.AutoNestEach: the same limit as AutoNestAll.
- Nesting.Nester.AutoNestNext: the same limit as AutoNestAll; the rest of setNest's effect is on the AutoNestClass call it makes.
- NesterIo.Read: over the whole read it states the nest and simple name of every named class; the rest of setNest's effect is stated per request on Dispatch and is not composed across the lines.
- ClassEnvironment.ClassEnv.SetNest: the upper bound on the invalidated caches (only classes reached through enclosing and nested links) is stated on MarkPotentialScoreDirty. It is not carried up to SetNest and ApplyNest, which state that other caches are kept or invalidated and that every invalidated one passed it on.
- ClassEnvironment.ClassEnv.ApplyNest: the same limit as SetNest; the upper bound is stated on MarkPotentialScoreDirty only.
- ClassGraph.Encloses: the model uses the corrected encloses, so CanNestInto, the guard of SetNest and Nester.Nest refuse every nest that would close a cycle. The code as written admits the cycle that ClassGraph.EnclosesAsWrittenMissesMethodOwners shows.
- ClassEnvironment.ClassEnv.SetNest: requires that the new nest's class is not the class itself. The source relies on callers (canNestInto) for this and does not check it.
- Null arguments and the NullPointerExceptions of `nest` are not modelled: the arena has no null.
- An exception thrown by `nest` ends `read` and `autoNestAll`; the model returns a failed outcome and stops.
- NesterIo.ParseInt: only ASCII digits are accepted; Integer.parseInt also accepts other Unicode digits.
- The access value read from a mapping line is parsed and checked but not used, as in the source (the commented-out call at NesterIo.java:109).
- `setSimpleName`/`getSimpleName` are modelled as a field of the node state.
- `getClsByNameB` is modelled as a lookup by name in the arena (`ClassGraph.FindClass`).
- The side-B equivalent of every side-A class is an index of the arena and is always present.
- `getAccess` (ClassInstance.java:457-483) is a fact of the class, not computed from the class file.
- NesterIo.LocalClassReadsBackIntoClass: a local class is written with its method but read back into the class, because addInnerClass takes no method; the model states this behaviour and does not correct it.
- NesterIo.WrittenLineRecreatesNest: it covers names without whitespace, a non-empty simple name for inner classes, and access flags with bit 31 clear. Other lines do not read back.
- `canBeStatic` (ClassInstance.java:1385-1407) and `markNotAnonymous` are not part of this model.

## Findings

| source | as written | input that shows it | evidently intended | confidence | as-written member | corrected member |
|---|---|---|---|---|---|---|
| src/matcher/type/ClassInstance.java:1409-1436 | for a method, encloses only checks the owner chain: it compares the method's class with the candidate and stops there. It does not ask whether the candidate encloses that class, so nesting through a method hides every class above it | classes A, Y, X: Y is INNER in A, X is ANONYMOUS in a method of Y. encloses(A, X) is false, so canNestInto lets A nest into X, which closes the cycle A, X, Y, A | a class encloses everything nested into it or into a method of a class it encloses | not executed | ClassGraph.EnclosesAsWrittenMissesMethodOwners | ClassGraph.Encloses |
| src/matcher/type/ClassInstance.java:1205-1213 | setNestable(false) stores the flag before calling setNest(null), and setNest returns at once for a class that is not nestable, so the nest is kept | a class with a nest, then setNestable(false): it keeps its nest while not nestable | a class that is made non-nestable loses its nest | not executed | ClassEnvironment.ClassEnv.SetNestableAsWritten | ClassEnvironment.ClassEnv.SetNestable |
