/** The loader's walk over the source file (index.ts:22-85): classes in
    document order, within a class its methods and then its properties, and
    for every documented member all of its decorators. */
module Loader {
  import opened Wrappers
  import opened Literal
  import opened JsDoc
  import opened Decorators

  /** A method or a property: its JSDoc blocks and its decorators. */
  datatype Member = Member(name: string, docs: seq<Doc>, decorators: seq<Decorator>)

  /** A class declaration, with `getMethods()` and `getProperties()` kept apart. */
  datatype ClassDecl = ClassDecl(name: string, methods: seq<Member>, properties: seq<Member>)

  /** The parsed source file: its classes in document order. */
  datatype SourceFile = SourceFile(classes: seq<ClassDecl>)

  /** `OverrideDescription` (index.ts:30). */
  const OverrideDescription := true

  /** The callback of `decorators.forEach` for a member described by `d`. */
  function DecoratorRewriter(d: string): Decorator -> Result<Decorator, LoaderError>
  {
    dec => RewriteDecorator(dec, d, OverrideDescription)
  }

  /** The callback of `properties.forEach` (index.ts:38-82). */
  function RewriteMember(m: Member): (r: Result<Member, LoaderError>)
    ensures m.docs == [] ==> r == Ok(m)
    ensures r.Ok? ==>
      r.value.name == m.name && r.value.docs == m.docs && |r.value.decorators| == |m.decorators|
  {
    var d := Description(m.docs);
    if d == "" then Ok(m)
    else match MapAll(m.decorators, DecoratorRewriter(d))
      case Err(e) => Err(e)
      case Ok(ds) => Ok(m.(decorators := ds))
  }

  /** `getMethods().concat(getProperties())` (index.ts:36). */
  function ClassMembers(c: ClassDecl): (r: seq<Member>)
    ensures |r| == |c.methods| + |c.properties|
    ensures r[..|c.methods|] == c.methods && r[|c.methods|..] == c.properties
  {
    c.methods + c.properties
  }

  /** The callback of `classes.forEach` (index.ts:34-83). */
  function RewriteClass(c: ClassDecl): (r: Result<ClassDecl, LoaderError>)
    ensures r.Ok? ==>
      r.value.name == c.name && |r.value.methods| == |c.methods| && |r.value.properties| == |c.properties|
  {
    match MapAll(ClassMembers(c), RewriteMember)
    case Err(e) => Err(e)
    case Ok(ms) => Ok(c.(methods := ms[..|c.methods|], properties := ms[|c.methods|..]))
  }

  /** The whole transform: the rewritten file, or the error that aborts it. */
  function RewriteSourceFile(f: SourceFile): (r: Result<SourceFile, LoaderError>)
    ensures r.Ok? ==> |r.value.classes| == |f.classes|
  {
    match MapAll(f.classes, RewriteClass)
    case Err(e) => Err(e)
    case Ok(cs) => Ok(SourceFile(cs))
  }

  /** The members in the order the loader visits them. */
  function ScanMembers(classes: seq<ClassDecl>): seq<Member>
  {
    if classes == [] then [] else ClassMembers(classes[0]) + ScanMembers(classes[1..])
  }

  /** Every literal reachable from the file's decorators has at most one `description`. */
  predicate FileUnique(f: SourceFile)
  {
    forall i, j :: 0 <= i < |ScanMembers(f.classes)| && 0 <= j < |ScanMembers(f.classes)[i].decorators| ==>
      DecoratorUnique(ScanMembers(f.classes)[i].decorators[j])
  }

  // ---------------------------------------------------------------------------
  // Members

  /** A member without JSDoc is left as it is, whatever its decorators. */
  lemma UndocumentedMemberUnchanged(m: Member)
    requires m.docs == []
    ensures RewriteMember(m) == Ok(m)
  {
  }

  /** A documented member keeps its name and JSDoc, and each of its decorators
      is rewritten with the one description of the member; the rewrite fails
      exactly when one of the decorators does. */
  lemma {:induction false} DocumentedMemberRewritten(m: Member)
    requires m.docs != []
    ensures RewriteMember(m).Err? <==>
      exists i :: 0 <= i < |m.decorators| && RewriteDecorator(m.decorators[i], Description(m.docs), true).Err?
    ensures RewriteMember(m).Ok? ==>
      var m' := RewriteMember(m).value;
      m'.name == m.name && m'.docs == m.docs && |m'.decorators| == |m.decorators| &&
      forall i :: 0 <= i < |m.decorators| ==>
        RewriteDecorator(m.decorators[i], Description(m.docs), true) == Ok(m'.decorators[i])
  {
    var d := Description(m.docs);
    DescriptionEmptyIff(m.docs);
    MapAllErr(m.decorators, DecoratorRewriter(d));
    if MapAll(m.decorators, DecoratorRewriter(d)).Ok? {
      MapAllOk(m.decorators, DecoratorRewriter(d));
    }
  }

  predicate MemberUnique(m: Member)
  {
    forall j :: 0 <= j < |m.decorators| ==> DecoratorUnique(m.decorators[j])
  }

  lemma MemberIdempotent(m: Member)
    requires MemberUnique(m)
    requires RewriteMember(m).Ok?
    ensures RewriteMember(RewriteMember(m).value) == RewriteMember(m)
    ensures MemberUnique(RewriteMember(m).value)
  {
    var d := Description(m.docs);
    if d != "" {
      var f := DecoratorRewriter(d);
      var m' := RewriteMember(m).value;
      MapAllOk(m.decorators, f);
      forall i | 0 <= i < |m'.decorators|
        ensures f(m'.decorators[i]) == Ok(m'.decorators[i]) && DecoratorUnique(m'.decorators[i])
      {
        RewriteIdempotent(m.decorators[i], d, OverrideDescription);
        RewriteKeepsUnique(m.decorators[i], d, OverrideDescription);
      }
      MapAllFixed(m'.decorators, f);
    }
  }

  // ---------------------------------------------------------------------------
  // Classes and the file

  lemma {:induction false} ScanAppend(a: seq<ClassDecl>, b: seq<ClassDecl>)
    ensures ScanMembers(a + b) == ScanMembers(a) + ScanMembers(b)
  {
    if a == [] {
      assert a + b == b;
    } else {
      assert (a + b)[1..] == a[1..] + b;
      ScanAppend(a[1..], b);
    }
  }

  /** A rewritten class has the rewritten members, methods still before properties. */
  lemma ClassRewritten(c: ClassDecl)
    requires RewriteClass(c).Ok?
    ensures |ClassMembers(RewriteClass(c).value)| == |ClassMembers(c)|
    ensures forall i :: 0 <= i < |ClassMembers(c)| ==>
      RewriteMember(ClassMembers(c)[i]) == Ok(ClassMembers(RewriteClass(c).value)[i])
    ensures |RewriteClass(c).value.methods| == |c.methods| && RewriteClass(c).value.name == c.name
  {
    var xs := ClassMembers(c);
    MapAllOk(xs, RewriteMember);
    var ms := MapAll(xs, RewriteMember).value;
    var c' := RewriteClass(c).value;
    assert c' == c.(methods := ms[..|c.methods|], properties := ms[|c.methods|..]);
    assert ClassMembers(c') == ms;
  }

  /** The loader visits the scanned members in order: a successful run maps
      the n-th member of the scan to the rewrite of the n-th member. */
  lemma {:induction false} ScanOrder(classes: seq<ClassDecl>)
    requires MapAll(classes, RewriteClass).Ok?
    ensures var cs' := MapAll(classes, RewriteClass).value;
      |ScanMembers(cs')| == |ScanMembers(classes)| &&
      forall i :: 0 <= i < |ScanMembers(classes)| ==>
        RewriteMember(ScanMembers(classes)[i]) == Ok(ScanMembers(cs')[i])
  {
    if classes != [] {
      var c' := RewriteClass(classes[0]).value;
      var rest' := MapAll(classes[1..], RewriteClass).value;
      var cs' := MapAll(classes, RewriteClass).value;
      assert cs' == [c'] + rest';
      ScanOrder(classes[1..]);
      ClassRewritten(classes[0]);
      assert cs'[1..] == rest';
      var a, b := ClassMembers(classes[0]), ScanMembers(classes[1..]);
      var a', b' := ClassMembers(c'), ScanMembers(rest');
      assert ScanMembers(classes) == a + b;
      assert ScanMembers(cs') == a' + b';
      forall i | 0 <= i < |a + b| ensures RewriteMember((a + b)[i]) == Ok((a' + b')[i]) {
        if i < |a| {
          assert (a + b)[i] == a[i] && (a' + b')[i] == a'[i];
        } else {
          assert (a + b)[i] == b[i - |a|] && (a' + b')[i] == b'[i - |a|];
        }
      }
    }
  }

  /** A file in which no member has JSDoc comes back unchanged. */
  lemma UndocumentedFileUnchanged(f: SourceFile)
    requires forall i :: 0 <= i < |ScanMembers(f.classes)| ==> ScanMembers(f.classes)[i].docs == []
    ensures RewriteSourceFile(f) == Ok(f)
  {
    forall k | 0 <= k < |f.classes| ensures RewriteClass(f.classes[k]) == Ok(f.classes[k]) {
      var c := f.classes[k];
      ScanIncludes(f.classes, k);
      forall i | 0 <= i < |ClassMembers(c)| ensures ClassMembers(c)[i].docs == [] {
        assert ClassMembers(c)[i] == ScanMembers(f.classes)[ScanOffset(f.classes, k) + i];
      }
      UndocumentedClassUnchanged(c);
    }
    MapAllFixed(f.classes, RewriteClass);
  }

  lemma UndocumentedClassUnchanged(c: ClassDecl)
    requires forall i :: 0 <= i < |ClassMembers(c)| ==> ClassMembers(c)[i].docs == []
    ensures RewriteClass(c) == Ok(c)
  {
    MapAllFixed(ClassMembers(c), RewriteMember);
  }

  /** A member fails exactly when it is documented and one of its decorators fails. */
  lemma MemberFails(m: Member)
    ensures RewriteMember(m).Err? <==>
      m.docs != [] &&
      exists j :: 0 <= j < |m.decorators| && RewriteDecorator(m.decorators[j], Description(m.docs), true).Err?
  {
    if m.docs != [] {
      DocumentedMemberRewritten(m);
    }
  }

  /** Some member of `ms` fails. */
  predicate SomeFails(ms: seq<Member>)
  {
    exists n :: 0 <= n < |ms| && RewriteMember(ms[n]).Err?
  }

  lemma SomeFailsAppend(a: seq<Member>, b: seq<Member>)
    ensures SomeFails(a + b) <==> SomeFails(a) || SomeFails(b)
  {
    if SomeFails(a + b) {
      var n :| 0 <= n < |a + b| && RewriteMember((a + b)[n]).Err?;
      if n < |a| { assert (a + b)[n] == a[n]; } else { assert (a + b)[n] == b[n - |a|]; }
    }
    if SomeFails(a) {
      var n :| 0 <= n < |a| && RewriteMember(a[n]).Err?;
      assert (a + b)[n] == a[n];
    }
    if SomeFails(b) {
      var n :| 0 <= n < |b| && RewriteMember(b[n]).Err?;
      assert (a + b)[n + |a|] == b[n];
    }
  }

  /** The classes fail exactly when some scanned member fails. */
  lemma {:induction false} ScanFails(classes: seq<ClassDecl>)
    ensures MapAll(classes, RewriteClass).Err? <==> SomeFails(ScanMembers(classes))
  {
    if classes != [] {
      var a, b := ClassMembers(classes[0]), ScanMembers(classes[1..]);
      ScanFails(classes[1..]);
      MapAllErr(a, RewriteMember);
      assert RewriteClass(classes[0]).Err? <==> SomeFails(a);
      SomeFailsAppend(a, b);
    }
  }

  /** The whole transform aborts exactly when, somewhere in the file, a
      documented member has a decorator whose rewrite throws. */
  lemma FileFails(f: SourceFile)
    ensures RewriteSourceFile(f).Err? <==>
      exists n, j :: 0 <= n < |ScanMembers(f.classes)| && ScanMembers(f.classes)[n].docs != [] &&
        0 <= j < |ScanMembers(f.classes)[n].decorators| &&
        RewriteDecorator(ScanMembers(f.classes)[n].decorators[j], Description(ScanMembers(f.classes)[n].docs), true).Err?
  {
    ScanFails(f.classes);
    assert RewriteSourceFile(f).Err? <==> SomeFails(ScanMembers(f.classes));
    forall n | 0 <= n < |ScanMembers(f.classes)| {
      MemberFails(ScanMembers(f.classes)[n]);
    }
  }

  /** Where the members of class `k` start in the scan. */
  function ScanOffset(classes: seq<ClassDecl>, k: nat): nat
    requires k <= |classes|
  {
    |ScanMembers(classes[..k])|
  }

  lemma ScanIncludes(classes: seq<ClassDecl>, k: nat)
    requires k < |classes|
    ensures ScanOffset(classes, k) + |ClassMembers(classes[k])| <= |ScanMembers(classes)|
    ensures forall i :: 0 <= i < |ClassMembers(classes[k])| ==>
      ScanMembers(classes)[ScanOffset(classes, k) + i] == ClassMembers(classes[k])[i]
  {
    assert classes == classes[..k] + ([classes[k]] + classes[k + 1..]);
    ScanAppend(classes[..k], [classes[k]] + classes[k + 1..]);
    ScanAppend([classes[k]], classes[k + 1..]);
    assert ScanMembers([classes[k]]) == ClassMembers(classes[k]) by {
      assert [classes[k]][1..] == [];
    }
  }

  predicate ClassUnique(c: ClassDecl)
  {
    forall i :: 0 <= i < |ClassMembers(c)| ==> MemberUnique(ClassMembers(c)[i])
  }

  /** Rewriting a rewritten class gives it back. */
  lemma ClassIdempotent(c: ClassDecl)
    requires ClassUnique(c)
    requires RewriteClass(c).Ok?
    ensures RewriteClass(RewriteClass(c).value) == RewriteClass(c)
  {
    var c' := RewriteClass(c).value;
    ClassRewritten(c);
    forall i | 0 <= i < |ClassMembers(c')| ensures RewriteMember(ClassMembers(c')[i]) == Ok(ClassMembers(c')[i]) {
      MemberIdempotent(ClassMembers(c)[i]);
    }
    MapAllFixed(ClassMembers(c'), RewriteMember);
    assert ClassMembers(c')[..|c'.methods|] == c'.methods;
    assert ClassMembers(c')[|c'.methods|..] == c'.properties;
  }

  /** Running the loader on its own output gives that output again. */
  lemma RewriteIdempotentFile(f: SourceFile)
    requires FileUnique(f)
    requires RewriteSourceFile(f).Ok?
    ensures RewriteSourceFile(RewriteSourceFile(f).value) == RewriteSourceFile(f)
  {
    var f' := RewriteSourceFile(f).value;
    MapAllOk(f.classes, RewriteClass);
    forall k | 0 <= k < |f'.classes| ensures RewriteClass(f'.classes[k]) == Ok(f'.classes[k]) {
      FileUniqueClass(f, k);
      ClassIdempotent(f.classes[k]);
    }
    MapAllFixed(f'.classes, RewriteClass);
  }

  lemma FileUniqueClass(f: SourceFile, k: nat)
    requires FileUnique(f) && k < |f.classes|
    ensures ClassUnique(f.classes[k])
  {
    ScanIncludes(f.classes, k);
    forall i | 0 <= i < |ClassMembers(f.classes[k])| ensures MemberUnique(ClassMembers(f.classes[k])[i]) {
      var n := ScanOffset(f.classes, k) + i;
      assert ClassMembers(f.classes[k])[i] == ScanMembers(f.classes)[n];
    }
  }

  // ---------------------------------------------------------------------------
  // The loader's loops

  /** `properties.forEach` callback body, decorators processed in order. */
  method ProcessMember(m: Member) returns (r: Result<Member, LoaderError>)
    ensures r == RewriteMember(m)
  {
    var description := ExtractDescription(m.docs);
    if description == "" {
      return Ok(m);
    }
    var f := DecoratorRewriter(description);
    var done: seq<Decorator> := [];
    var i := 0;
    MapAllBounds(m.decorators, f, []);
    while i < |m.decorators|
      invariant 0 <= i <= |m.decorators|
      invariant MapAll(m.decorators, f) == Prepend(done, MapAll(m.decorators[i..], f))
    {
      var step := RewriteDecorator(m.decorators[i], description, OverrideDescription);
      MapAllStep(m.decorators, f, done, i);
      if step.Err? {
        return Err(step.error);
      }
      done := done + [step.value];
      i := i + 1;
    }
    MapAllBounds(m.decorators, f, done);
    return Ok(m.(decorators := done));
  }

  /** `classes.forEach` callback body, members in the order of index.ts:36. */
  method ProcessClass(c: ClassDecl) returns (r: Result<ClassDecl, LoaderError>)
    ensures r == RewriteClass(c)
  {
    var members := c.methods + c.properties;
    var done: seq<Member> := [];
    var i := 0;
    MapAllBounds(members, RewriteMember, []);
    while i < |members|
      invariant 0 <= i <= |members|
      invariant MapAll(members, RewriteMember) == Prepend(done, MapAll(members[i..], RewriteMember))
    {
      var step := ProcessMember(members[i]);
      MapAllStep(members, RewriteMember, done, i);
      if step.Err? {
        return Err(step.error);
      }
      done := done + [step.value];
      i := i + 1;
    }
    MapAllBounds(members, RewriteMember, done);
    return Ok(c.(methods := done[..|c.methods|], properties := done[|c.methods|..]));
  }

  /** The loader (index.ts:22-85) from parsed file to rewritten file. */
  method ProcessSourceFile(f: SourceFile) returns (r: Result<SourceFile, LoaderError>)
    ensures r == RewriteSourceFile(f)
  {
    var done: seq<ClassDecl> := [];
    var i := 0;
    MapAllBounds(f.classes, RewriteClass, []);
    while i < |f.classes|
      invariant 0 <= i <= |f.classes|
      invariant MapAll(f.classes, RewriteClass) == Prepend(done, MapAll(f.classes[i..], RewriteClass))
    {
      var step := ProcessClass(f.classes[i]);
      MapAllStep(f.classes, RewriteClass, done, i);
      if step.Err? {
        return Err(step.error);
      }
      done := done + [step.value];
      i := i + 1;
    }
    MapAllBounds(f.classes, RewriteClass, done);
    return Ok(SourceFile(done));
  }
}
