/** The nest mapping file: one line per nested class, six fields split on whitespace and validated line by
    line, each line resolved against the environment and applied through the nester; written as six
    tab-separated fields per line, sorted by class name. */
module NesterIo {
  import opened Wrappers
  import opened Nests
  import opened ClassNames
  import opened ClassGraph
  import opened ClassEnvironment
  import opened Nesting

  // ---------------------------------------------------------------- line.split("\\s")

  /** The characters the regular expression \s matches. */
  predicate IsSpace(ch: char)
  {
    ch == ' ' || ch == '\t' || ch == '\n' || ch == '\U{0B}' || ch == '\U{0C}' || ch == '\r'
  }

  predicate NoSpace(s: string)
  {
    forall i :: 0 <= i < |s| ==> !IsSpace(s[i])
  }

  /** The pieces between whitespace characters, empty ones included. */
  function Pieces(s: string): (ps: seq<string>)
    ensures |ps| >= 1
    decreases |s|
  {
    if s == [] then [""]
    else
      var rest := Pieces(s[1..]);
      if IsSpace(s[0]) then [""] + rest else [[s[0]] + rest[0]] + rest[1..]
  }

  function DropTrailingEmpty(ps: seq<string>): (r: seq<string>)
    ensures |r| <= |ps| && r == ps[..|r|]
    ensures r == [] || r[|r| - 1] != ""
    ensures forall i :: |r| <= i < |ps| ==> ps[i] == ""
  {
    if ps == [] then []
    else if ps[|ps| - 1] == "" then DropTrailingEmpty(ps[..|ps| - 1])
    else ps
  }

  /** split("\\s"): a line without whitespace is its own single field; otherwise the pieces between
      whitespace characters, less the empty ones at the end. */
  function Split(s: string): seq<string>
  {
    if NoSpace(s) then [s] else DropTrailingEmpty(Pieces(s))
  }

  /** The fields joined with tabs. */
  function JoinTabs(fields: seq<string>): string
    requires fields != []
  {
    if |fields| == 1 then fields[0] else fields[0] + "\t" + JoinTabs(fields[1..])
  }

  lemma {:induction false} PiecesOfWord(a: string)
    requires NoSpace(a)
    ensures Pieces(a) == [a]
    decreases |a|
  {
    if a != [] {
      PiecesOfWord(a[1..]);
      assert [a[0]] + a[1..] == a;
    }
  }

  lemma {:induction false} PiecesOfWordThenTab(a: string, rest: string)
    requires NoSpace(a)
    ensures Pieces(a + "\t" + rest) == [a] + Pieces(rest)
    decreases |a|
  {
    var s := a + "\t" + rest;
    if a == [] {
      assert s == "\t" + rest && s[1..] == rest;
    } else {
      assert s[1..] == a[1..] + "\t" + rest;
      PiecesOfWordThenTab(a[1..], rest);
      assert [a[0]] + a[1..] == a;
    }
  }

  lemma {:induction false} PiecesOfJoin(fields: seq<string>)
    requires fields != [] && forall i :: 0 <= i < |fields| ==> NoSpace(fields[i])
    ensures Pieces(JoinTabs(fields)) == fields
    decreases |fields|
  {
    if |fields| == 1 {
      PiecesOfWord(fields[0]);
    } else {
      assert forall i :: 0 <= i < |fields[1..]| ==> fields[1..][i] == fields[i + 1];
      PiecesOfJoin(fields[1..]);
      PiecesOfWordThenTab(fields[0], JoinTabs(fields[1..]));
      assert [fields[0]] + fields[1..] == fields;
    }
  }

  /** Splitting tab-joined fields that hold no whitespace, the last one not empty, gives the fields back. */
  lemma SplitJoin(fields: seq<string>)
    requires fields != [] && forall i :: 0 <= i < |fields| ==> NoSpace(fields[i])
    requires fields[|fields| - 1] != ""
    ensures Split(JoinTabs(fields)) == fields
  {
    PiecesOfJoin(fields);
    if |fields| > 1 {
      var s := JoinTabs(fields);
      assert s == fields[0] + "\t" + JoinTabs(fields[1..]);
      assert s[|fields[0]|] == '\t';
    }
  }

  // ---------------------------------------------------------------- Integer.parseInt and String.valueOf(int)

  const IntMin: int := -0x8000_0000
  const IntMax: int := 0x7fff_ffff

  predicate IsDigits(s: string)
  {
    |s| > 0 && forall i :: 0 <= i < |s| ==> '0' <= s[i] <= '9'
  }

  /** Integer.parseInt with ASCII digits: an optional sign, at least one digit, and a value within int. */
  function ParseInt(s: string): (r: Option<int>)
    ensures r.Some? ==> IntMin <= r.value <= IntMax
    ensures r.Some? && r.value < 0 ==> |s| > 0 && s[0] == '-'
  {
    var signed := |s| > 0 && (s[0] == '-' || s[0] == '+');
    var digits := if signed then s[1..] else s;
    if !IsDigits(digits) then None
    else
      var v: int := if signed && s[0] == '-' then -(DigitsValue(digits) as int) else DigitsValue(digits);
      if IntMin <= v <= IntMax then Some(v) else None
  }

  /** String.valueOf(int): a minus sign for a negative value, then the decimal digits. */
  function IntToString(n: int): (s: string)
  {
    if n < 0 then "-" + NatToString(-n) else NatToString(n)
  }

  /** parseInt reads back what valueOf wrote. */
  lemma ParseIntToString(n: int)
    requires IntMin <= n <= IntMax
    ensures ParseInt(IntToString(n)) == Some(n)
  {
    if n < 0 {
      ParseIntOfNegative(-n);
    } else {
      ParseIntOfDigits(n);
    }
  }

  lemma ParseIntOfDigits(n: nat)
    requires n <= IntMax
    ensures ParseInt(NatToString(n)) == Some(n)
  {
    var s := NatToString(n);
    assert !(s[0] == '-' || s[0] == '+');
    DigitsOfNatToString(n);
  }

  lemma ParseIntOfNegative(n: nat)
    requires 0 < n <= -IntMin
    ensures ParseInt("-" + NatToString(n)) == Some(-(n as int))
  {
    var s := "-" + NatToString(n);
    assert s[1..] == NatToString(n);
    DigitsOfNatToString(n);
  }

  /** The int value of the access flags: bit 31 is the sign. */
  function SignedAccess(a: bv32): (v: int)
    ensures IntMin <= v <= IntMax
    ensures 0 <= v <==> a as int < 0x8000_0000
    ensures 0 <= v ==> v == a as int
  {
    var u := a as int;
    if u < 0x8000_0000 then u else u - 0x1_0000_0000
  }

  // ---------------------------------------------------------------- one line

  datatype MethodKey = MethodKey(name: string, desc: string)

  /** The content of one line: class, enclosing class, the enclosing method if any, the inner name if any
      (none for an anonymous class), and the access flags. */
  datatype Mapping = Mapping(className: string, enclClassName: string, enclMethod: Option<MethodKey>,
                             innerName: Option<string>, access: int)

  datatype LineError = WrongFieldCount(count: nat) | MissingClassName | MissingEnclosingClassName | InvalidAccess

  datatype ParsedLine = Skipped(error: LineError) | Parsed(mapping: Mapping)

  /** A mapping that a line of the file can carry: no whitespace anywhere, both class names present, a method
      with both name and descriptor, a non-empty inner name, and access flags parseInt accepts and at least 0. */
  predicate Readable(m: Mapping)
  {
    && NoSpace(m.className) && NoSpace(m.enclClassName)
    && m.className != "" && m.enclClassName != ""
    && (m.enclMethod.Some? ==>
         NoSpace(m.enclMethod.value.name) && NoSpace(m.enclMethod.value.desc) &&
         m.enclMethod.value.name != "" && m.enclMethod.value.desc != "")
    && (m.innerName.Some? ==> NoSpace(m.innerName.value) && m.innerName.value != "")
    && 0 <= m.access <= IntMax
  }

  /** The line of read: split on whitespace, six fields; empty class or enclosing class names, and access flags
      that do not parse or are negative, skip the line. A missing method name or descriptor drops both; an empty
      inner name is none. */
  function ParseLine(line: string): (p: ParsedLine)
    ensures |Split(line)| != 6 ==> p == Skipped(WrongFieldCount(|Split(line)|))
    ensures p.Parsed? ==> Readable(p.mapping)
  {
    var args := Split(line);
    if |args| != 6 then Skipped(WrongFieldCount(|args|))
    else if args[0] == "" then Skipped(MissingClassName)
    else if args[1] == "" then Skipped(MissingEnclosingClassName)
    else
      var encl := if args[2] == "" || args[3] == "" then None else Some(MethodKey(args[2], args[3]));
      var inner := if args[4] == "" then None else Some(args[4]);
      var access := ParseInt(args[5]);
      if access.None? || access.value < 0 then Skipped(InvalidAccess)
      else
        assert forall i :: 0 <= i < 6 ==> NoSpace(args[i]) by { SplitFieldsNoSpace(line); }
        Parsed(Mapping(args[0], args[1], encl, inner, access.value))
  }

  lemma {:induction false} PiecesNoSpace(s: string)
    ensures forall i :: 0 <= i < |Pieces(s)| ==> NoSpace(Pieces(s)[i])
    decreases |s|
  {
    if s != [] {
      PiecesNoSpace(s[1..]);
      var rest := Pieces(s[1..]);
      if !IsSpace(s[0]) {
        var w := [s[0]] + rest[0];
        assert NoSpace(w) by {
          forall i | 0 <= i < |w| ensures !IsSpace(w[i]) {
            if i > 0 { assert w[i] == rest[0][i - 1]; }
          }
        }
        assert forall i :: 1 <= i < |Pieces(s)| ==> Pieces(s)[i] == rest[i];
      } else {
        assert forall i :: 1 <= i < |Pieces(s)| ==> Pieces(s)[i] == rest[i - 1];
      }
    }
  }

  /** No field holds whitespace. */
  lemma SplitFieldsNoSpace(s: string)
    ensures forall i :: 0 <= i < |Split(s)| ==> NoSpace(Split(s)[i])
  {
    PiecesNoSpace(s);
  }

  /** The six fields nestClass writes for m. */
  function Fields(m: Mapping): (fs: seq<string>)
    ensures |fs| == 6
  {
    [m.className, m.enclClassName,
     if m.enclMethod.Some? then m.enclMethod.value.name else "",
     if m.enclMethod.Some? then m.enclMethod.value.desc else "",
     if m.innerName.Some? then m.innerName.value else "",
     IntToString(m.access)]
  }

  /** A line as nestClass writes it: the six fields, tab-separated, then a newline. */
  function FormatLine(m: Mapping): (line: string)
    ensures |line| > 0 && line[|line| - 1] == '\n'
  {
    JoinTabs(Fields(m)) + "\n"
  }

  /** Reading a written line, as readLine hands it over without its newline, gives back the mapping. */
  lemma ParseFormatLine(m: Mapping)
    requires Readable(m)
    ensures var line := FormatLine(m); ParseLine(line[..|line| - 1]) == Parsed(m)
  {
    var fs := Fields(m);
    var line := FormatLine(m);
    assert line[..|line| - 1] == JoinTabs(fs);
    DigitsOfNatToString(m.access);
    assert NoSpace(fs[5]);
    SplitJoin(fs);
    ParseIntToString(m.access);
  }

  // ---------------------------------------------------------------- resolution (nestClass of read)

  datatype Request = AnonymousRequest(c: nat, e: nat, m: Option<nat>) | InnerRequest(c: nat, e: nat, simpleName: string)

  datatype ResolveError = UnknownClass | UnknownEnclosingClass | UnknownEnclosingMethod

  datatype Resolution = Unresolved(error: ResolveError) | Resolved(request: Request)

  predicate RequestOk(classes: seq<ClassFacts>, r: Request)
  {
    r.c < |classes| && r.e < |classes| && (r.AnonymousRequest? && r.m.Some? ==> r.m.value < |classes[r.e].methods|)
  }

  /** nestClass: look up the class, the enclosing class and, when named, the enclosing method; an unknown one
      skips the line. No inner name makes an anonymous request (into the method, if any); an inner name makes an
      inner request into the class, whatever the method. */
  function Resolve(classes: seq<ClassFacts>, m: Mapping): (r: Resolution)
    ensures r.Resolved? ==> RequestOk(classes, r.request)
    ensures r.Resolved? ==>
      && classes[r.request.c].name == m.className && classes[r.request.e].name == m.enclClassName
      && (r.request.InnerRequest? <==> m.innerName.Some?)
      && (r.request.InnerRequest? ==> r.request.simpleName == m.innerName.value)
      && (r.request.AnonymousRequest? ==> (r.request.m.Some? <==> m.enclMethod.Some?))
    ensures FindClass(classes, m.className, 0).None? ==> r == Unresolved(UnknownClass)
  {
    var c := FindClass(classes, m.className, 0);
    if c.None? then Unresolved(UnknownClass)
    else
      var e := FindClass(classes, m.enclClassName, 0);
      if e.None? then Unresolved(UnknownEnclosingClass)
      else
        var k := if m.enclMethod.Some? then FindMethod(classes, e.value, m.enclMethod.value.name, m.enclMethod.value.desc) else None;
        if m.enclMethod.Some? && k.None? then Unresolved(UnknownEnclosingMethod)
        else if m.innerName.None? then Resolved(AnonymousRequest(c.value, e.value, k))
        else Resolved(InnerRequest(c.value, e.value, m.innerName.value))
  }

  /** What one line asks for: nothing for a skipped or unresolved line, else its request. */
  function LineRequest(classes: seq<ClassFacts>, line: string): (rs: seq<Request>)
    ensures |rs| <= 1 && forall i :: 0 <= i < |rs| ==> RequestOk(classes, rs[i])
  {
    var p := ParseLine(line);
    if p.Skipped? then []
    else
      var res := Resolve(classes, p.mapping);
      if res.Unresolved? then [] else [res.request]
  }

  /** The requests of the lines, in order. */
  function Requests(classes: seq<ClassFacts>, lines: seq<string>): (rs: seq<Request>)
    ensures forall i :: 0 <= i < |rs| ==> RequestOk(classes, rs[i])
  {
    if lines == [] then []
    else
      var pre := Requests(classes, lines[..|lines| - 1]);
      var last := LineRequest(classes, lines[|lines| - 1]);
      assert forall i :: 0 <= i < |pre + last| ==> (pre + last)[i] == if i < |pre| then pre[i] else last[i - |pre|];
      pre + last
  }

  /** The requests of the first k lines are the first requests of all the lines. */
  lemma {:induction false} RequestsPrefix(classes: seq<ClassFacts>, lines: seq<string>, k: nat)
    requires k <= |lines|
    ensures var p := Requests(classes, lines[..k]);
      |p| <= |Requests(classes, lines)| && p == Requests(classes, lines)[..|p|]
    decreases |lines|
  {
    if k < |lines| {
      var pre := lines[..|lines| - 1];
      assert lines[..k] == pre[..k];
      RequestsPrefix(classes, pre, k);
    } else {
      assert lines[..k] == lines;
    }
  }

  lemma RequestsStep(classes: seq<ClassFacts>, lines: seq<string>, k: nat)
    requires k < |lines|
    ensures Requests(classes, lines[..k + 1]) == Requests(classes, lines[..k]) + LineRequest(classes, lines[k])
  {
    assert lines[..k + 1][..k] == lines[..k];
  }

  /** The request of line k follows those of the lines before it among the requests of all the lines. */
  lemma NextLineRequests(classes: seq<ClassFacts>, lines: seq<string>, k: nat)
    requires k < |lines|
    ensures var pre := Requests(classes, lines[..k]); var last := LineRequest(classes, lines[k]);
      var all := Requests(classes, lines);
      && Requests(classes, lines[..k + 1]) == pre + last
      && |pre| + |last| <= |all| && all[..|pre| + |last|] == pre + last
      && forall i :: 0 <= i < |last| ==> last[i] in all
  {
    RequestsStep(classes, lines, k);
    RequestsPrefix(classes, lines, k + 1);
    var pre := Requests(classes, lines[..k]);
    var last := LineRequest(classes, lines[k]);
    var all := Requests(classes, lines);
    forall i | 0 <= i < |last| ensures last[i] in all {
      assert all[|pre| + i] == (pre + last)[|pre| + i];
    }
  }

  /** A class that no request names. */
  predicate Untouched(rs: seq<Request>, x: nat)
  {
    forall i :: 0 <= i < |rs| ==> rs[i].c != x
  }

  /** The nest a request asks for: ANONYMOUS into the method or class, or INNER into the class. */
  function RequestNest(q: Request): Nest
  {
    match q
    case AnonymousRequest(_, e, m) => Nests.Nest.Nest(AnonymousSubject(e, m), ANONYMOUS)
    case InnerRequest(_, e, _) => Nests.Nest.Nest(Cls(e), INNER)
  }

  /** The checks of nest that a request passes: its class is nestable and may nest into the enclosing class. */
  ghost predicate Admits(classes: seq<ClassFacts>, nodes: seq<NodeState>, q: Request)
    requires Linked(classes, nodes) && RequestOk(classes, q)
  {
    IsNestable(classes, nodes, q.c) && CanNestInto(classes, nodes, q.c, Cls(q.e))
  }

  /** The simple name a request leaves: none after addAnonymousClass, the given one after addInnerClass. */
  function RequestName(q: Request): Option<string>
  {
    match q
    case AnonymousRequest(_, _, _) => None
    case InnerRequest(_, _, name) => Some(name)
  }

  /** The class of q holds what q asked for: its nest and its simple name. */
  predicate Holds(v: NodeState, q: Request)
  {
    v.nest == Some(RequestNest(q)) && v.simpleName == RequestName(q)
  }

  /** The last request among rs naming x, if any names it. */
  function LastRequest(rs: seq<Request>, x: nat): (q: Option<Request>)
    ensures q.None? <==> Untouched(rs, x)
    ensures q.Some? ==> q.value.c == x
  {
    if rs == [] then None
    else if rs[|rs| - 1].c == x then Some(rs[|rs| - 1])
    else
      var pre := rs[..|rs| - 1];
      assert forall i :: 0 <= i < |pre| ==> pre[i] == rs[i];
      LastRequest(pre, x)
  }

  /** The request LastRequest finds is one of rs, and no request after it names x. */
  lemma {:induction false} LastRequestIsLast(rs: seq<Request>, x: nat)
    requires LastRequest(rs, x).Some?
    ensures exists i :: 0 <= i < |rs| && rs[i] == LastRequest(rs, x).value && forall j :: i < j < |rs| ==> rs[j].c != x
  {
    if rs[|rs| - 1].c != x {
      var pre := rs[..|rs| - 1];
      LastRequestIsLast(pre, x);
      var i :| 0 <= i < |pre| && pre[i] == LastRequest(pre, x).value && forall j :: i < j < |pre| ==> pre[j].c != x;
      assert rs[i] == pre[i];
    } else {
      assert rs[|rs| - 1] == LastRequest(rs, x).value;
    }
  }

  /** Every class some request of rs names holds what the last of them asked for. */
  predicate NestsApplied(nodes: seq<NodeState>, rs: seq<Request>)
  {
    forall x :: 0 <= x < |nodes| && LastRequest(rs, x).Some? ==> Holds(nodes[x], LastRequest(rs, x).value)
  }

  /** A request applied after rs: its class takes its nest and simple name, the others keep theirs. */
  lemma NestsAppliedStep(n1: seq<NodeState>, n2: seq<NodeState>, rs: seq<Request>, q: Request)
    requires NestsApplied(n1, rs) && |n2| == |n1| && q.c < |n1|
    requires forall x :: 0 <= x < |n1| && x != q.c ==> n2[x].nest == n1[x].nest && n2[x].simpleName == n1[x].simpleName
    requires Holds(n2[q.c], q)
    ensures NestsApplied(n2, rs + [q])
  {
    assert (rs + [q])[..|rs|] == rs;
  }

  /** A request that changed nothing leaves what the requests before it applied. */
  lemma NestsAppliedPrefix(n: seq<NodeState>, rs: seq<Request>, q: Request)
    requires NestsApplied(n, rs)
    ensures NestsApplied(n, (rs + [q])[..|rs|])
  {
    assert (rs + [q])[..|rs|] == rs;
  }

  /** The addAnonymousClass or addInnerClass call of a request: it passes exactly when the class is nestable
      and may nest into the enclosing class, and then the class holds the requested nest and simple name,
      with everything else as setNest leaves it. */
  method Dispatch(nester: Nester, r: Request) returns (o: Outcome<NestError>)
    requires nester.Valid() && RequestOk(nester.env.classes, r)
    modifies nester.env
    ensures nester.Valid() && |nester.env.nodes| == |old(nester.env.nodes)|
    ensures o.Pass? <==> Admits(nester.env.classes, old(nester.env.nodes), r)
    ensures forall x :: 0 <= x < |nester.env.nodes| && x != r.c ==>
      nester.env.nodes[x].nest == old(nester.env.nodes[x].nest) && nester.env.nodes[x].simpleName == old(nester.env.nodes[x].simpleName)
    ensures o.Fail? ==> nester.env.nodes == old(nester.env.nodes) && nester.env.caches == old(nester.env.caches)
    ensures o.Pass? ==> nester.env.nodes[r.c].nest == Some(RequestNest(r))
    ensures o.Pass? && r.AnonymousRequest? ==> nester.env.nodes[r.c].simpleName.None?
    ensures o.Pass? && r.InnerRequest? ==> nester.env.nodes[r.c].simpleName == Some(r.simpleName)
    ensures o.Pass? ==> Holds(nester.env.nodes[r.c], r)
    ensures o.Pass? ==> NestSetNamed(nester.env.classes, old(nester.env.nodes), old(nester.env.caches), nester.env.nodes,
      nester.env.caches, r.c, Some(RequestNest(r)), RequestName(r))
  {
    match r
    case AnonymousRequest(c, e, m) =>
      o := nester.AddAnonymousClass(c, e, m);
    case InnerRequest(c, e, name) =>
      o := nester.AddInnerClass(c, e, name);
  }

  /** The nests and simple names of the classes no request names are as before. */
  predicate KeepsUntouched(n0: seq<NodeState>, n1: seq<NodeState>, rs: seq<Request>)
  {
    |n1| == |n0| && forall x :: 0 <= x < |n0| && Untouched(rs, x) ==> n1[x].nest == n0[x].nest && n1[x].simpleName == n0[x].simpleName
  }

  lemma KeepsUntouchedStep(n0: seq<NodeState>, n1: seq<NodeState>, n2: seq<NodeState>, all: seq<Request>, asked: seq<Request>)
    requires KeepsUntouched(n0, n1, all) && KeepsUntouched(n1, n2, asked)
    requires forall i :: 0 <= i < |asked| ==> asked[i] in all
    ensures KeepsUntouched(n0, n2, all)
  {
    forall x | 0 <= x < |n0| && Untouched(all, x) ensures n2[x].nest == n0[x].nest && n2[x].simpleName == n0[x].simpleName {
      forall i | 0 <= i < |asked| ensures asked[i].c != x {
        var k :| 0 <= k < |all| && all[k] == asked[i];
      }
    }
  }

  /** One line of read: parse it, resolve it and, when both succeed, hand the request to the nester. A line
      that asks for nothing changes nothing. */
  method ReadLine(nester: Nester, line: string) returns (r: Outcome<NestError>, asked: seq<Request>)
    requires nester.Valid()
    modifies nester.env
    ensures nester.Valid()
    ensures asked == LineRequest(nester.env.classes, line)
    ensures r.Fail? <==> asked != [] && !Admits(nester.env.classes, old(nester.env.nodes), asked[0])
    ensures asked == [] || r.Fail? ==> nester.env.nodes == old(nester.env.nodes) && nester.env.caches == old(nester.env.caches)
    ensures r.Pass? && asked != [] ==> nester.env.nodes[asked[0].c].nest == Some(RequestNest(asked[0]))
    ensures r.Pass? && asked != [] ==> Holds(nester.env.nodes[asked[0].c], asked[0])
    ensures r.Pass? && asked != [] ==>
      NestSetNamed(nester.env.classes, old(nester.env.nodes), old(nester.env.caches), nester.env.nodes, nester.env.caches,
        asked[0].c, Some(RequestNest(asked[0])), RequestName(asked[0]))
    ensures KeepsUntouched(old(nester.env.nodes), nester.env.nodes, asked)
  {
    asked := LineRequest(nester.env.classes, line);
    r := Pass;
    var p := ParseLine(line);
    if p.Skipped? {
      KeepsUntouchedNothing(nester.env.nodes, asked);
      return;
    }
    var res := Resolve(nester.env.classes, p.mapping);
    if res.Unresolved? {
      KeepsUntouchedNothing(nester.env.nodes, asked);
      return;
    }
    ghost var n0 := nester.env.nodes;
    r := Dispatch(nester, res.request);
    KeepsUntouchedOne(n0, nester.env.nodes, res.request);
  }

  lemma KeepsUntouchedNothing(n: seq<NodeState>, rs: seq<Request>)
    ensures KeepsUntouched(n, n, rs)
  {
  }

  lemma KeepsUntouchedOne(n0: seq<NodeState>, n1: seq<NodeState>, q: Request)
    requires |n1| == |n0| && forall x :: 0 <= x < |n0| && x != q.c ==> n1[x].nest == n0[x].nest && n1[x].simpleName == n0[x].simpleName
    ensures KeepsUntouched(n0, n1, [q])
  {
    forall x | 0 <= x < |n0| && Untouched([q], x) ensures n1[x].nest == n0[x].nest && n1[x].simpleName == n0[x].simpleName {
      assert [q][0] == q;
    }
  }

  /** read: every line in turn; a skipped or unresolved line is passed over, the request of any other is handed
      to the nester, and one the nester refuses ends the read with that failure. After a full read every class
      some request names holds the nest and simple name the last of them asks for; after a refusal, the last
      of those handed before the refused one, which the final state still does not admit. Only classes some
      request names change their nest or simple name. */
  method Read(nester: Nester, lines: seq<string>) returns (r: Outcome<NestError>, handed: nat)
    requires nester.Valid()
    modifies nester.env
    ensures nester.Valid()
    ensures handed <= |Requests(nester.env.classes, lines)|
    ensures r.Pass? ==> handed == |Requests(nester.env.classes, lines)|
    ensures r.Pass? ==> NestsApplied(nester.env.nodes, Requests(nester.env.classes, lines))
    ensures r.Fail? ==> handed > 0 && NestsApplied(nester.env.nodes, Requests(nester.env.classes, lines)[..handed - 1])
    ensures r.Fail? ==> !Admits(nester.env.classes, nester.env.nodes, Requests(nester.env.classes, lines)[handed - 1])
    ensures KeepsUntouched(old(nester.env.nodes), nester.env.nodes, Requests(nester.env.classes, lines))
  {
    var classes := nester.env.classes;
    ghost var n0 := nester.env.nodes;
    r := Pass;
    handed := 0;
    var k := 0;
    while k < |lines| && r.Pass?
      invariant 0 <= k <= |lines| && nester.Valid() && nester.env.classes == classes
      invariant handed == |Requests(classes, lines[..k])| <= |Requests(classes, lines)|
      invariant ReadSoFar(classes, nester.env.nodes, Requests(classes, lines[..k]), r)
      invariant KeepsUntouched(n0, nester.env.nodes, Requests(classes, lines))
    {
      ghost var n1 := nester.env.nodes;
      var asked;
      r, asked := ReadLine(nester, lines[k]);
      ReadStep(classes, lines, k, n0, n1, nester.env.nodes);
      ReadApplied(classes, lines, k, n1, nester.env.nodes, r);
      k := k + 1;
      handed := handed + |asked|;
    }
    ReadDone(classes, lines, k, nester.env.nodes, r);
  }

  /** The nests read has applied after the requests rs, with outcome r so far. */
  ghost predicate ReadSoFar(classes: seq<ClassFacts>, nodes: seq<NodeState>, rs: seq<Request>, r: Outcome<NestError>)
  {
    && (r.Pass? ==> NestsApplied(nodes, rs))
    && (r.Fail? ==>
         && |rs| > 0 && NestsApplied(nodes, rs[..|rs| - 1])
         && Linked(classes, nodes) && RequestOk(classes, rs[|rs| - 1]) && !Admits(classes, nodes, rs[|rs| - 1]))
  }

  /** Where read stops, what it applied is stated over the requests of all the lines. */
  lemma ReadDone(classes: seq<ClassFacts>, lines: seq<string>, k: nat, nodes: seq<NodeState>, r: Outcome<NestError>)
    requires k <= |lines| && (r.Pass? ==> k == |lines|) && ReadSoFar(classes, nodes, Requests(classes, lines[..k]), r)
    ensures var all := Requests(classes, lines); var h := |Requests(classes, lines[..k])|;
      && h <= |all|
      && (r.Pass? ==> h == |all| && NestsApplied(nodes, all))
      && (r.Fail? ==>
           && h > 0 && NestsApplied(nodes, all[..h - 1])
           && Linked(classes, nodes) && RequestOk(classes, all[h - 1]) && !Admits(classes, nodes, all[h - 1]))
  {
    RequestsPrefix(classes, lines, k);
    var all := Requests(classes, lines);
    var pre := Requests(classes, lines[..k]);
    if r.Pass? {
      assert lines[..k] == lines;
    } else {
      assert pre[..|pre| - 1] == all[..|pre| - 1];
      assert pre[|pre| - 1] == all[|pre| - 1];
    }
  }

  /** The bookkeeping of one turn of read. */
  lemma ReadStep(classes: seq<ClassFacts>, lines: seq<string>, k: nat, n0: seq<NodeState>, n1: seq<NodeState>, n2: seq<NodeState>)
    requires k < |lines|
    requires KeepsUntouched(n0, n1, Requests(classes, lines))
    requires KeepsUntouched(n1, n2, LineRequest(classes, lines[k]))
    ensures KeepsUntouched(n0, n2, Requests(classes, lines))
    ensures |Requests(classes, lines[..k + 1])| == |Requests(classes, lines[..k])| + |LineRequest(classes, lines[k])|
    ensures |Requests(classes, lines[..k + 1])| <= |Requests(classes, lines)|
  {
    NextLineRequests(classes, lines, k);
    KeepsUntouchedStep(n0, n1, n2, Requests(classes, lines), LineRequest(classes, lines[k]));
  }

  /** What one turn of read applies: a passed line keeps the requests so far applied; a refused one leaves
      those before it applied and is not admitted. */
  lemma ReadApplied(classes: seq<ClassFacts>, lines: seq<string>, k: nat, n1: seq<NodeState>, n2: seq<NodeState>,
                    r: Outcome<NestError>)
    requires k < |lines| && Linked(classes, n1) && NestsApplied(n1, Requests(classes, lines[..k]))
    requires var asked := LineRequest(classes, lines[k]);
      && KeepsUntouched(n1, n2, asked)
      && (r.Fail? <==> asked != [] && !Admits(classes, n1, asked[0]))
      && (r.Fail? ==> n2 == n1)
      && (r.Pass? && asked != [] ==> Holds(n2[asked[0].c], asked[0]))
    ensures ReadSoFar(classes, n2, Requests(classes, lines[..k + 1]), r)
  {
    RequestsStep(classes, lines, k);
    var pre := Requests(classes, lines[..k]);
    var asked := LineRequest(classes, lines[k]);
    if asked == [] {
      assert pre + asked == pre;
      forall x | 0 <= x < |n1| ensures n2[x].nest == n1[x].nest && n2[x].simpleName == n1[x].simpleName {
        assert Untouched(asked, x);
      }
    } else {
      var q := asked[0];
      assert asked == [q];
      if r.Pass? {
        assert q.c < |n1|;
        forall x | 0 <= x < |n1| && x != q.c ensures n2[x].nest == n1[x].nest && n2[x].simpleName == n1[x].simpleName {
          assert Untouched([q], x);
        }
        NestsAppliedStep(n1, n2, pre, q);
      } else {
        NestsAppliedPrefix(n1, pre, q);
      }
    }
  }

  // ---------------------------------------------------------------- write

  /** The line write emits for a nested class x: its name, its enclosing class's name, the enclosing method's
      name and descriptor if any, its simple name, and its access flags as an int. */
  function EntryOf(classes: seq<ClassFacts>, nodes: seq<NodeState>, x: nat): (m: Mapping)
    requires NodeShape(classes, nodes) && x < |classes| && nodes[x].nest.Some?
    ensures m.className == classes[x].name && m.innerName == nodes[x].simpleName
  {
    var n := nodes[x].nest.value;
    var e := EnclosingClass(n);
    var encl := if n.subject.Meth? then
      Some(MethodKey(classes[e].methods[n.subject.m].name, classes[e].methods[n.subject.m].desc)) else None;
    Mapping(classes[x].name, classes[e].name, encl, nodes[x].simpleName, SignedAccess(classes[x].access))
  }

  /** The classes write emits, in side-A order: the equivalent of every real class of side A whose equivalent
      has a nest. */
  function Selection(classes: seq<ClassFacts>, nodes: seq<NodeState>, sideA: seq<SideAClass>): (sel: seq<nat>)
    requires EquivsInArena(sideA, |classes|) && |nodes| == |classes|
    ensures forall i :: 0 <= i < |sel| ==> sel[i] < |classes| && nodes[sel[i]].nest.Some?
    ensures forall x :: x in sel <==>
      exists i :: 0 <= i < |sideA| && sideA[i].isReal && sideA[i].equiv == x && nodes[x].nest.Some?
  {
    if sideA == [] then []
    else
      var pre := sideA[..|sideA| - 1];
      var a := sideA[|sideA| - 1];
      var rest := Selection(classes, nodes, pre);
      assert forall i :: 0 <= i < |pre| ==> pre[i] == sideA[i];
      var sel := rest + (if a.isReal && nodes[a.equiv].nest.Some? then [a.equiv] else []);
      assert forall i :: 0 <= i < |sel| ==> sel[i] in rest || sel[i] == a.equiv;
      sel
  }

  /** A comparison of names that is irreflexive and transitive, as compareNatural's "less than" is. */
  ghost predicate StrictOrder(below: (string, string) -> bool)
  {
    && (forall a :: !below(a, a))
    && (forall a, b, c :: below(a, b) && below(b, c) ==> below(a, c))
  }

  lemma NaturalLessIsStrictOrder()
    ensures StrictOrder(NaturalLess)
  {
    forall a ensures !NaturalLess(a, a) {
      NaturalLessIrreflexive(a);
    }
    forall a, b, c | NaturalLess(a, b) && NaturalLess(b, c) ensures NaturalLess(a, c) {
      NaturalLessTransitive(a, b, c);
    }
  }

  /** Sorted by name under below: no class sorts below one before it. */
  predicate NameSorted(classes: seq<ClassFacts>, below: (string, string) -> bool, s: seq<nat>)
    requires InArena(classes, s)
  {
    forall i, j :: 0 <= i < j < |s| ==> !below(classes[s[j]].name, classes[s[i]].name)
  }

  /** x goes in before the first class it sorts below, and after any it ties with. */
  function InsertByName(classes: seq<ClassFacts>, below: (string, string) -> bool, x: nat, s: seq<nat>): (r: seq<nat>)
    requires x < |classes| && InArena(classes, s)
    ensures multiset(r) == multiset(s) + multiset{x} && InArena(classes, r)
    ensures forall y :: y in r <==> y == x || y in s
  {
    if s == [] then [x]
    else if below(classes[x].name, classes[s[0]].name) then [x] + s
    else
      assert s == [s[0]] + s[1..];
      [s[0]] + InsertByName(classes, below, x, s[1..])
  }

  /** x sorts before the first of s, so it can go in front. */
  lemma InsertFrontSorted(classes: seq<ClassFacts>, below: (string, string) -> bool, x: nat, s: seq<nat>)
    requires StrictOrder(below)
    requires x < |classes| && InArena(classes, s) && NameSorted(classes, below, s) && s != []
    requires below(classes[x].name, classes[s[0]].name)
    ensures NameSorted(classes, below, [x] + s)
  {
    var r := [x] + s;
    forall i, j | 0 <= i < j < |r| ensures !below(classes[r[j]].name, classes[r[i]].name) {
      assert r[j] == s[j - 1];
      if i != 0 {
        assert r[i] == s[i - 1];
      }
    }
  }

  /** Neither x nor any later element of s sorts before the first of s. */
  lemma NotBelowFirst(classes: seq<ClassFacts>, below: (string, string) -> bool, x: nat, s: seq<nat>, y: nat)
    requires x < |classes| && InArena(classes, s) && NameSorted(classes, below, s) && s != []
    requires !below(classes[x].name, classes[s[0]].name)
    requires y == x || y in s[1..]
    ensures y < |classes| && !below(classes[y].name, classes[s[0]].name)
  {
    if y != x {
      var k :| 0 <= k < |s[1..]| && s[1..][k] == y;
      assert s[k + 1] == y;
    }
  }

  /** x does not sort before the first of s, and goes in among the rest, giving t. */
  lemma InsertLaterSorted(classes: seq<ClassFacts>, below: (string, string) -> bool, x: nat, s: seq<nat>, t: seq<nat>)
    requires x < |classes| && InArena(classes, s) && NameSorted(classes, below, s) && s != []
    requires !below(classes[x].name, classes[s[0]].name)
    requires InArena(classes, t) && NameSorted(classes, below, t)
    requires forall y :: y in t ==> y == x || y in s[1..]
    ensures NameSorted(classes, below, [s[0]] + t)
  {
    var r := [s[0]] + t;
    forall i, j | 0 <= i < j < |r| ensures !below(classes[r[j]].name, classes[r[i]].name) {
      assert r[j] == t[j - 1];
      if i == 0 {
        NotBelowFirst(classes, below, x, s, t[j - 1]);
      } else {
        assert r[i] == t[i - 1];
      }
    }
  }

  lemma {:induction false} InsertByNameSorted(classes: seq<ClassFacts>, below: (string, string) -> bool, x: nat, s: seq<nat>)
    requires StrictOrder(below)
    requires x < |classes| && InArena(classes, s) && NameSorted(classes, below, s)
    ensures NameSorted(classes, below, InsertByName(classes, below, x, s))
    decreases |s|
  {
    if s != [] {
      if below(classes[x].name, classes[s[0]].name) {
        InsertFrontSorted(classes, below, x, s);
      } else {
        assert NameSorted(classes, below, s[1..]) by {
          forall i, j | 0 <= i < j < |s[1..]| ensures !below(classes[s[1..][j]].name, classes[s[1..][i]].name) {
            assert s[1..][i] == s[i + 1] && s[1..][j] == s[j + 1];
          }
        }
        InsertByNameSorted(classes, below, x, s[1..]);
        InsertLaterSorted(classes, below, x, s, InsertByName(classes, below, x, s[1..]));
      }
    }
  }

  /** classes.sort by name: insertion of each class in turn, which keeps classes of equal names in order. */
  function SortByName(classes: seq<ClassFacts>, below: (string, string) -> bool, s: seq<nat>): (r: seq<nat>)
    requires StrictOrder(below) && InArena(classes, s)
    ensures multiset(r) == multiset(s) && InArena(classes, r) && NameSorted(classes, below, r)
  {
    if s == [] then []
    else
      var pre := s[..|s| - 1];
      assert s == pre + [s[|s| - 1]];
      var sorted := SortByName(classes, below, pre);
      InsertByNameSorted(classes, below, s[|s| - 1], sorted);
      InsertByName(classes, below, s[|s| - 1], sorted)
  }

  /** The loop of write that collects the selection. */
  method SelectNested(nester: Nester) returns (sel: seq<nat>)
    requires nester.Valid()
    ensures sel == Selection(nester.env.classes, nester.env.nodes, nester.sideA)
  {
    var classes := nester.env.classes;
    var nodes := nester.env.nodes;
    var sideA := nester.sideA;
    sel := [];
    var i := 0;
    while i < |sideA|
      invariant 0 <= i <= |sideA|
      invariant sel == Selection(classes, nodes, sideA[..i])
    {
      SelectionStep(classes, nodes, sideA, i);
      var a := sideA[i];
      if a.isReal && nodes[a.equiv].nest.Some? {
        sel := sel + [a.equiv];
      }
      i := i + 1;
    }
    assert sideA[..i] == sideA;
  }

  /** One more class of side A adds its equivalent to the selection when it qualifies. */
  lemma SelectionStep(classes: seq<ClassFacts>, nodes: seq<NodeState>, sideA: seq<SideAClass>, i: nat)
    requires EquivsInArena(sideA, |classes|) && |nodes| == |classes| && i < |sideA|
    ensures EquivsInArena(sideA[..i], |classes|) && EquivsInArena(sideA[..i + 1], |classes|)
    ensures var a := sideA[i];
      Selection(classes, nodes, sideA[..i + 1]) ==
        Selection(classes, nodes, sideA[..i]) + (if a.isReal && nodes[a.equiv].nest.Some? then [a.equiv] else [])
  {
    assert sideA[..i + 1][..i] == sideA[..i];
  }

  /** The loop of write that emits one line per class. */
  method FormatAll(classes: seq<ClassFacts>, nodes: seq<NodeState>, order: seq<nat>) returns (out: seq<string>)
    requires NodeShape(classes, nodes) && InArena(classes, order)
    requires forall i :: 0 <= i < |order| ==> nodes[order[i]].nest.Some?
    ensures |out| == |order|
    ensures forall i :: 0 <= i < |out| ==> out[i] == FormatLine(EntryOf(classes, nodes, order[i]))
  {
    out := [];
    var j := 0;
    while j < |order|
      invariant 0 <= j <= |order| && |out| == j
      invariant forall k :: 0 <= k < j ==> out[k] == FormatLine(EntryOf(classes, nodes, order[k]))
    {
      out := out + [FormatLine(EntryOf(classes, nodes, order[j]))];
      j := j + 1;
    }
  }

  /** write: nothing when no class qualifies (false, and no file); otherwise one line per selected class,
      sorted by name. */
  method Write(nester: Nester) returns (written: bool, order: seq<nat>, out: seq<string>)
    requires nester.Valid()
    ensures var sel := Selection(nester.env.classes, nester.env.nodes, nester.sideA);
      && (written <==> sel != [])
      && multiset(order) == multiset(sel)
    ensures InArena(nester.env.classes, order) && NameSorted(nester.env.classes, NaturalLess, order)
    ensures forall i :: 0 <= i < |order| ==> nester.env.nodes[order[i]].nest.Some?
    ensures !written ==> out == []
    ensures written ==> |out| == |order|
    ensures written ==>
      forall i :: 0 <= i < |out| ==> out[i] == FormatLine(EntryOf(nester.env.classes, nester.env.nodes, order[i]))
  {
    var sel := SelectNested(nester);
    if sel == [] {
      return false, [], [];
    }
    var classes := nester.env.classes;
    var nodes := nester.env.nodes;
    NaturalLessIsStrictOrder();
    order := SortByName(classes, NaturalLess, sel);
    forall j | 0 <= j < |order| ensures nodes[order[j]].nest.Some? {
      assert order[j] in multiset(sel);
    }
    out := FormatAll(classes, nodes, order);
    written := true;
  }

  // ---------------------------------------------------------------- reading back what was written

  /** A written line resolves to the request that recreates the nest: a class nested as ANONYMOUS without a
      simple name comes back anonymous in the same class or method, one nested as INNER into a class with a
      simple name comes back inner with that name. */
  lemma WrittenLineRecreatesNest(classes: seq<ClassFacts>, nodes: seq<NodeState>, x: nat)
    requires FactsOk(classes) && NodeShape(classes, nodes) && x < |classes| && nodes[x].nest.Some?
    requires Readable(EntryOf(classes, nodes, x))
    requires var n := nodes[x].nest.value;
      (n.nestType == ANONYMOUS && nodes[x].simpleName.None?) ||
      (n.nestType == INNER && n.subject.Cls? && nodes[x].simpleName.Some?)
    ensures var n := nodes[x].nest.value; var line := FormatLine(EntryOf(classes, nodes, x));
      LineRequest(classes, line[..|line| - 1]) ==
        if n.nestType == ANONYMOUS then
          [AnonymousRequest(x, n.subject.c, if n.subject.Meth? then Some(n.subject.m) else None)]
        else [InnerRequest(x, n.subject.c, nodes[x].simpleName.value)]
  {
    var m := EntryOf(classes, nodes, x);
    ParseFormatLine(m);
    var n := nodes[x].nest.value;
    var e := n.subject.c;
    FindClassUnique(classes, x);
    FindClassUnique(classes, e);
    if n.subject.Meth? {
      FindMethodUnique(classes, e, n.subject.m);
    }
  }

  /** A local class (INNER into a method) is written with its method, but read back as inner into the class:
      the method is looked up and then dropped. */
  lemma LocalClassReadsBackIntoClass(classes: seq<ClassFacts>, nodes: seq<NodeState>, x: nat)
    requires FactsOk(classes) && NodeShape(classes, nodes) && x < |classes| && nodes[x].nest.Some?
    requires Readable(EntryOf(classes, nodes, x))
    requires nodes[x].nest.value.nestType == INNER && nodes[x].nest.value.subject.Meth? && nodes[x].simpleName.Some?
    ensures var n := nodes[x].nest.value; var line := FormatLine(EntryOf(classes, nodes, x));
      LineRequest(classes, line[..|line| - 1]) == [InnerRequest(x, n.subject.c, nodes[x].simpleName.value)]
  {
    var m := EntryOf(classes, nodes, x);
    ParseFormatLine(m);
    var n := nodes[x].nest.value;
    FindClassUnique(classes, x);
    FindClassUnique(classes, n.subject.c);
    FindMethodUnique(classes, n.subject.c, n.subject.m);
  }

  /** Class names are unique, so a lookup by name finds the class. */
  lemma FindClassUnique(classes: seq<ClassFacts>, x: nat)
    requires FactsOk(classes) && x < |classes|
    ensures FindClass(classes, classes[x].name, 0) == Some(x)
  {
  }

  /** Name and descriptor are unique within a class, so a lookup by both finds the method. */
  lemma FindMethodUnique(classes: seq<ClassFacts>, c: nat, k: nat)
    requires FactsOk(classes) && c < |classes| && k < |classes[c].methods|
    ensures FindMethod(classes, c, classes[c].methods[k].name, classes[c].methods[k].desc) == Some(k)
  {
    assert ClassFactsOk(classes, c);
  }
}
