/** The nest value: the subject a class is nested into and the kind of nesting. */
module Nests {
  import opened Wrappers

  /** Anything a class can be nested into: a class of the arena or one of its methods. */
  datatype Subject = Cls(c: nat) | Meth(c: nat, m: nat)

  datatype NestType = ANONYMOUS | INNER | DUMMY

  /** An immutable pair; the constructor arguments are its only state. */
  datatype Nest = Nest(subject: Subject, nestType: NestType)

  /** Equality of two nests: same subject and same type. */
  function NestEquals(a: Nest, b: Option<Nest>): (r: bool)
    ensures r <==> b.Some? && b.value.subject == a.subject && b.value.nestType == a.nestType
  {
    b == Some(a)
  }

  /** The returned subject and type are the constructor arguments. */
  lemma NestIsImmutable(s: Subject, t: NestType)
    ensures Get(Nest(s, t)) == s && GetType(Nest(s, t)) == t
  {
  }

  function Get(n: Nest): Subject { n.subject }

  function GetType(n: Nest): NestType { n.nestType }

  /** The class that encloses the nested class: the subject itself, or the owner of a method subject. */
  function EnclosingClass(n: Nest): (r: nat)
    ensures n.subject == Cls(r) || exists m :: n.subject == Meth(r, m)
  {
    match n.subject
    case Cls(c) => c
    case Meth(c, _) => c
  }

  /** The enclosing method: none for a class subject, the subject for a method subject. */
  function EnclosingMethod(n: Nest): (r: Option<Subject>)
    ensures r.None? <==> n.subject.Cls?
    ensures r.Some? ==> r.value == n.subject && EnclosingClass(n) == r.value.c
  {
    if n.subject.Meth? then Some(n.subject) else None
  }
}
