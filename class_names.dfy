/** The static name helpers of ClassInstance over internal class names such as "a/b/Outer$Inner". */
module ClassNames {
  import opened Wrappers

  /** String.indexOf for one character: the first position, or -1. */
  function IndexOf(s: string, ch: char): (r: int)
    ensures -1 <= r < |s|
    ensures r == -1 ==> forall i :: 0 <= i < |s| ==> s[i] != ch
    ensures r >= 0 ==> s[r] == ch && forall i :: 0 <= i < r ==> s[i] != ch
  {
    if |s| == 0 then -1
    else if s[0] == ch then 0
    else if IndexOf(s[1..], ch) < 0 then -1
    else IndexOf(s[1..], ch) + 1
  }

  /** String.lastIndexOf for one character: the last position, or -1. */
  function LastIndexOf(s: string, ch: char): (r: int)
    ensures -1 <= r < |s|
    ensures r == -1 ==> forall i :: 0 <= i < |s| ==> s[i] != ch
    ensures r >= 0 ==> s[r] == ch && forall i :: r < i < |s| ==> s[i] != ch
  {
    if |s| == 0 then -1
    else if s[|s| - 1] == ch then |s| - 1
    else LastIndexOf(s[..|s| - 1], ch)
  }

  /** getId: descriptor of a class name; array descriptors are kept; an empty name is rejected. */
  function GetId(name: string): (r: Option<string>)
    ensures name == [] <==> r.None?
    ensures r.Some? && name[0] == '[' ==> r.value == name
    ensures r.Some? && name[0] != '[' ==> |r.value| == |name| + 2 && r.value[0] == 'L' && r.value[|r.value| - 1] == ';'
  {
    if name == [] then None
    else if name[0] == '[' then Some(name)
    else Some("L" + name + ";")
  }

  /** getName(String): strips the 'L' and ';' of an object descriptor; "L" alone has no name. */
  function GetName(id: string): (r: Option<string>)
    ensures id == "L" <==> r.None?
    ensures r.Some? && (id == [] || id[0] != 'L') ==> r.value == id
    ensures r.Some? && id != [] && id[0] == 'L' ==> r.value == id[1..|id| - 1]
  {
    if |id| > 0 && id[0] == 'L' then (if |id| < 2 then None else Some(id[1..|id| - 1]))
    else Some(id)
  }

  /** Every non-empty class name survives the round trip through its descriptor. */
  lemma GetNameOfGetId(name: string)
    requires name != []
    ensures GetId(name).Some? && GetName(GetId(name).value) == Some(name)
  {
    var id := GetId(name).value;
    if name[0] != '[' {
      assert id[1..|id| - 1] == name;
    }
  }

  /** A separator at sepPos marks an outer name unless it starts the name or a package segment. */
  predicate HasOuterNameAt(name: string, sepPos: int)
  {
    sepPos > 0 && sepPos <= |name| && name[sepPos - 1] != '/'
  }

  /** hasOuterName: judged at the FIRST '$' of the name. */
  predicate HasOuterName(name: string)
  {
    HasOuterNameAt(name, IndexOf(name, '$'))
  }

  /** getOuterName: the prefix before the LAST '$', when that '$' marks an outer name. */
  function GetOuterName(name: string): (r: Option<string>)
    ensures r.Some? ==> 0 < |r.value| < |name| && name[|r.value|] == '$' && name[..|r.value|] == r.value
    ensures r.Some? ==> name[|r.value| - 1] != '/' && forall i :: |r.value| < i < |name| ==> name[i] != '$'
    ensures r.None? ==> forall p :: 0 < p < |name| && name[p] == '$' && name[p - 1] != '/' ==>
      p < LastIndexOf(name, '$')
  {
    var pos := LastIndexOf(name, '$');
    if HasOuterNameAt(name, pos) then Some(name[..pos])
    else None
  }

  /** getInnerName: the suffix after the last '$' (the whole name when there is none). */
  function GetInnerName(name: string): (r: string)
    ensures forall i :: 0 <= i < |r| ==> r[i] != '$'
    ensures (forall i :: 0 <= i < |name| ==> name[i] != '$') ==> r == name
    ensures |r| < |name| ==> name[|name| - |r| - 1] == '$' && name[|name| - |r|..] == r
  {
    name[LastIndexOf(name, '$') + 1..]
  }

  /** getNestedName: outer + '$' + inner, or null when either part is null. */
  function GetNestedName(outerName: Option<string>, innerName: Option<string>): (r: Option<string>)
    ensures r.Some? <==> outerName.Some? && innerName.Some?
    ensures r.Some? ==> r.value == outerName.value + "$" + innerName.value
  {
    if outerName.None? || innerName.None? then None
    else Some(outerName.value + "$" + innerName.value)
  }

  /** Splitting a nested name gives back its parts when the inner part has no '$'. */
  lemma NestedNameRoundTrip(outerName: string, innerName: string)
    requires forall i :: 0 <= i < |innerName| ==> innerName[i] != '$'
    requires outerName != [] && outerName[|outerName| - 1] != '/'
    ensures GetInnerName(GetNestedName(Some(outerName), Some(innerName)).value) == innerName
    ensures GetOuterName(GetNestedName(Some(outerName), Some(innerName)).value) == Some(outerName)
  {
    var n := outerName + "$" + innerName;
    var q := |outerName|;
    assert n[q] == '$';
    assert forall i :: q < i < |n| ==> n[i] == innerName[i - q - 1];
    var pos := LastIndexOf(n, '$');
    assert pos == q;
    assert n[q + 1..] == innerName;
    assert n[..q] == outerName;
  }

  /** getPackageName: the prefix before the last '/', when that '/' is not at position 0. */
  function GetPackageName(name: string): (r: Option<string>)
    ensures r.Some? ==> 0 < |r.value| < |name| && name[|r.value|] == '/' && name[..|r.value|] == r.value
    ensures r.Some? ==> forall i :: |r.value| < i < |name| ==> name[i] != '/'
    ensures r.None? <==> forall i :: 0 < i < |name| ==> name[i] != '/'
    ensures (forall i :: 0 <= i < |name| ==> name[i] != '/') ==> r.None?
  {
    var pos := LastIndexOf(name, '/');
    if pos > 0 then Some(name[..pos]) else None
  }

  /** getClassName: the suffix after the last '/'. */
  function GetClassName(name: string): (r: string)
    ensures forall i :: 0 <= i < |r| ==> r[i] != '/'
    ensures (forall i :: 0 <= i < |name| ==> name[i] != '/') ==> r == name
    ensures |r| < |name| ==> name[|name| - |r| - 1] == '/' && name[|name| - |r|..] == r
  {
    name[LastIndexOf(name, '/') + 1..]
  }

  /** A name with a package is its package, a '/', and its class name. */
  lemma PackageAndClassName(name: string)
    requires GetPackageName(name).Some?
    ensures name == GetPackageName(name).value + "/" + GetClassName(name)
  {
    var pos := LastIndexOf(name, '/');
    assert name == name[..pos] + [name[pos]] + name[pos + 1..];
  }

  /** getArrayDimensions: the count of leading '[' of an array descriptor; 0 for a non-array;
      a descriptor made only of '[' is invalid. */
  method GetArrayDimensions(id: string, isArray: bool) returns (r: Option<nat>)
    ensures !isArray ==> r == Some(0)
    ensures isArray ==> (r.None? <==> forall i :: 0 <= i < |id| ==> id[i] == '[')
    ensures isArray && r.Some? ==> r.value < |id| && id[r.value] != '[' && forall i :: 0 <= i < r.value ==> id[i] == '['
  {
    if !isArray {
      return Some(0);
    }
    var i := 0;
    while i < |id|
      invariant 0 <= i <= |id|
      invariant forall k :: 0 <= k < i ==> id[k] == '['
    {
      if id[i] != '[' {
        return Some(i);
      }
      i := i + 1;
    }
    return None;
  }

  /** Integer.toString for a natural number, in decimal digits. */
  function NatToString(n: nat): (s: string)
    ensures |s| >= 1
    ensures forall i :: 0 <= i < |s| ==> '0' <= s[i] <= '9'
    decreases n
  {
    if n < 10 then [Digit(n)] else NatToString(n / 10) + [Digit(n % 10)]
  }

  function Digit(d: nat): (c: char)
    requires d < 10
    ensures '0' <= c <= '9'
  {
    ['0', '1', '2', '3', '4', '5', '6', '7', '8', '9'][d]
  }

  /** The decimal value of a string of digits. */
  function DigitsValue(s: string): nat
    requires forall i :: 0 <= i < |s| ==> '0' <= s[i] <= '9'
  {
    if s == [] then 0 else 10 * DigitsValue(s[..|s| - 1]) + (s[|s| - 1] as int - '0' as int)
  }

  lemma DigitValue(d: nat)
    requires d < 10
    ensures Digit(d) as int - '0' as int == d
  {
  }

  /** Reading the digits of a number gives the number back. */
  lemma {:induction false} DigitsOfNatToString(n: nat)
    ensures DigitsValue(NatToString(n)) == n
    decreases n
  {
    var s := NatToString(n);
    if n < 10 {
      DigitValue(n);
      assert s[..|s| - 1] == [];
    } else {
      DigitsOfNatToString(n / 10);
      DigitValue(n % 10);
      assert s[..|s| - 1] == NatToString(n / 10);
    }
  }

  /** Distinct numbers have distinct decimal strings, so sibling indices never collide. */
  lemma NatToStringInjective(a: nat, b: nat)
    requires NatToString(a) == NatToString(b)
    ensures a == b
  {
    DigitsOfNatToString(a);
    DigitsOfNatToString(b);
  }

  /** Stand-in for Util.compareNatural: an order on names, here by character codes. */
  predicate NaturalLess(a: string, b: string)
  {
    if a == [] || b == [] then a == [] && b != []
    else if a[0] != b[0] then a[0] < b[0]
    else NaturalLess(a[1..], b[1..])
  }

  lemma {:induction false} NaturalLessIrreflexive(a: string)
    ensures !NaturalLess(a, a)
  {
    if a != [] { NaturalLessIrreflexive(a[1..]); }
  }

  lemma {:induction false} NaturalLessTransitive(a: string, b: string, c: string)
    requires NaturalLess(a, b) && NaturalLess(b, c)
    ensures NaturalLess(a, c)
  {
    if a != [] && b != [] && c != [] && a[0] == b[0] && b[0] == c[0] {
      NaturalLessTransitive(a[1..], b[1..], c[1..]);
    }
  }

  lemma {:induction false} NaturalLessTotal(a: string, b: string)
    requires a != b
    ensures NaturalLess(a, b) || NaturalLess(b, a)
  {
    if a != [] && b != [] && a[0] == b[0] {
      assert a == [a[0]] + a[1..] && b == [b[0]] + b[1..];
      NaturalLessTotal(a[1..], b[1..]);
    }
  }

  /** The order of anonymous and local siblings: shorter names first, then natural order. */
  predicate SiblingLess(a: string, b: string)
  {
    |a| < |b| || (|a| == |b| && NaturalLess(a, b))
  }

  /** The sibling order is a strict total order on distinct names. */
  lemma SiblingLessIsStrictTotal(a: string, b: string, c: string)
    ensures !SiblingLess(a, a)
    ensures a != b ==> SiblingLess(a, b) || SiblingLess(b, a)
    ensures SiblingLess(a, b) ==> !SiblingLess(b, a)
    ensures SiblingLess(a, b) && SiblingLess(b, c) ==> SiblingLess(a, c)
  {
    NaturalLessIrreflexive(a);
    if a != b && |a| == |b| { NaturalLessTotal(a, b); }
    if SiblingLess(a, b) && SiblingLess(b, a) {
      NaturalLessTransitive(a, b, a);
      NaturalLessIrreflexive(a);
    }
    if SiblingLess(a, b) && SiblingLess(b, c) && |a| == |b| && |b| == |c| {
      NaturalLessTransitive(a, b, c);
    }
  }
}
