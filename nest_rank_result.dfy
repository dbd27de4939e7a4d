/** A scored candidate nest, with clamping factories and the ranking pre-order. */
module NestRankResults {
  import opened Wrappers
  import opened Nests

  datatype NestRankResult = NestRankResult(subject: Subject, nestType: NestType, score: int)

  /** A result with the score clamped into 0..100. */
  function Maybe(subject: Subject, nestType: NestType, score: int): (r: NestRankResult)
    ensures r.subject == subject && r.nestType == nestType
    ensures 0 <= r.score <= 100
    ensures score < 0 ==> r.score == 0
    ensures score > 100 ==> r.score == 100
    ensures 0 <= score <= 100 ==> r.score == score
  {
    if score < 0 then NestRankResult(subject, nestType, 0)
    else if score > 100 then NestRankResult(subject, nestType, 100)
    else NestRankResult(subject, nestType, score)
  }

  /** A certain result: full score. */
  function Yes(subject: Subject, nestType: NestType): (r: NestRankResult)
    ensures r == NestRankResult(subject, nestType, 100)
  {
    Maybe(subject, nestType, 100)
  }

  /** An explicit "no": a zero-score placeholder entry. */
  function No(subject: Subject): (r: NestRankResult)
    ensures r == NestRankResult(subject, DUMMY, 0) && IsDummy(r)
  {
    Maybe(subject, DUMMY, 0)
  }

  predicate IsDummy(r: NestRankResult) { r.nestType == DUMMY }

  /** Results are equal when their subjects are; type and score are ignored. */
  function ResultEquals(a: NestRankResult, b: Option<NestRankResult>): (eq: bool)
    ensures eq <==> b.Some? && b.value.subject == a.subject
    ensures b.Some? && b.value.nestType != a.nestType && b.value.subject == a.subject ==> eq
  {
    match b
    case None => false
    case Some(o) => o.subject == a.subject
  }

  /** The sort key the comparison induces: score first, a dummy below a non-dummy. */
  function Key(r: NestRankResult): int
  {
    2 * r.score + (if IsDummy(r) then 0 else 1)
  }

  /** compareTo: every result is above null; otherwise the sign of the key difference. */
  function Compare(a: NestRankResult, b: Option<NestRankResult>): (r: int)
    ensures b.None? ==> r == 1
    ensures b.Some? ==> r == (if Key(a) < Key(b.value) then -1 else if Key(a) > Key(b.value) then 1 else 0)
    ensures b.Some? && a.score < b.value.score ==> r == -1
    ensures b.Some? && a.score == b.value.score && IsDummy(a) == IsDummy(b.value) ==> r == 0
  {
    match b
    case None => 1
    case Some(o) =>
      if a.score < o.score then -1
      else if a.score > o.score then 1
      else if IsDummy(a) && !IsDummy(o) then -1
      else if !IsDummy(a) && IsDummy(o) then 1
      else 0
  }

  /** The comparison is a total pre-order: reflexive, antisymmetric in sign, transitive. */
  lemma CompareIsTotalPreorder(a: NestRankResult, b: NestRankResult, c: NestRankResult)
    ensures Compare(a, Some(a)) == 0
    ensures Compare(a, Some(b)) == -Compare(b, Some(a))
    ensures Compare(a, Some(b)) <= 0 && Compare(b, Some(c)) <= 0 ==> Compare(a, Some(c)) <= 0
  {
  }
}
