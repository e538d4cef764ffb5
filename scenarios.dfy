/** Concrete decorators and what the loader turns them into. */
module Scenarios {
  import opened Wrappers
  import opened Literal
  import opened JsDoc
  import opened Decorators
  import opened Loader

  const Nullable := Property("nullable", Code("true"))

  /** `@Field()` becomes `@Field({description: 'x'})`. */
  lemma EmptyCallScenario()
    ensures RewriteDecorator(Call("Field", []), "x", true) ==
      Ok(Call("Field", [ObjectLiteral([DescriptionAssignment("x")])]))
  {
  }

  /** `@Field(SomeType)` becomes `@Field(SomeType, {description: 'x'})`. */
  lemma OneTypeScenario()
    ensures RewriteDecorator(Call("Field", [Expression("SomeType")]), "x", true) ==
      Ok(Call("Field", [Expression("SomeType"), Comma, ObjectLiteral([DescriptionAssignment("x")])]))
  {
    var cs := [Expression("SomeType")];
    EmptyCallIff(cs);
    assert NodeText(cs[0]) != "";
    assert cs + [Comma, ObjectLiteral(WriteLiteral("x"))] ==
      [Expression("SomeType"), Comma, ObjectLiteral([DescriptionAssignment("x")])];
  }

  /** `@Field({nullable: true})` becomes `@Field({nullable: true, description: 'x'})`. */
  lemma MergeScenario()
    ensures RewriteDecorator(Call("Field", [ObjectLiteral([Nullable])]), "x", true) ==
      Ok(Call("Field", [ObjectLiteral([Nullable, DescriptionAssignment("x")])]))
  {
    var cs := [ObjectLiteral([Nullable])];
    NotEmptyWithLiteral(cs, 0);
    assert [Nullable][1..] == [];
    assert FindProperty([Nullable], DescriptionKey) == None;
    assert [Nullable] + [DescriptionAssignment("x")] == [Nullable, DescriptionAssignment("x")];
  }

  /** `@Field({description: 'old', nullable: true})` becomes `@Field({nullable: true, description: 'x'})`. */
  lemma OverrideScenario()
    ensures RewriteDecorator(Call("Field", [ObjectLiteral([DescriptionAssignment("old"), Nullable])]), "x", true) ==
      Ok(Call("Field", [ObjectLiteral([Nullable, DescriptionAssignment("x")])]))
  {
    var ps := [DescriptionAssignment("old"), Nullable];
    var cs := [ObjectLiteral(ps)];
    NotEmptyWithLiteral(cs, 0);
    assert FindProperty(ps, DescriptionKey) == Some(0);
    assert ps[..0] + ps[1..] + [DescriptionAssignment("x")] == [Nullable, DescriptionAssignment("x")];
  }

  /** `@Field(type, {nullable: true})` becomes `@Field(type, {nullable: true, description: 'x'})`. */
  lemma TwoArgumentScenario()
    ensures RewriteDecorator(Call("Field", [Expression("type"), Comma, ObjectLiteral([Nullable])]), "x", true) ==
      Ok(Call("Field", [Expression("type"), Comma, ObjectLiteral([Nullable, DescriptionAssignment("x")])]))
  {
    var cs := [Expression("type"), Comma, ObjectLiteral([Nullable])];
    NotEmptyWithLiteral(cs, 2);
    assert [Nullable][1..] == [];
    assert FindProperty([Nullable], DescriptionKey) == None;
    assert [Nullable] + [DescriptionAssignment("x")] == [Nullable, DescriptionAssignment("x")];
    assert cs[2 := ObjectLiteral([Nullable, DescriptionAssignment("x")])] ==
      [Expression("type"), Comma, ObjectLiteral([Nullable, DescriptionAssignment("x")])];
  }

  /** `@Field(a, b)` with a plain second argument throws. */
  lemma TwoPlainArgumentsScenario()
    ensures RewriteDecorator(Call("Field", [Expression("a"), Comma, Expression("b")]), "x", true) ==
      Err(NotObjectLiteral)
  {
    var cs := [Expression("a"), Comma, Expression("b")];
    EmptyCallIff(cs);
    assert NodeText(cs[1]) != "";
  }

  /** `@Field(type, opts, {nullable: true})`, five children, is left as it is. */
  lemma ThreeArgumentScenario()
    ensures var cs := [Expression("type"), Comma, Expression("opts"), Comma, ObjectLiteral([Nullable])];
      RewriteDecorator(Call("Field", cs), "x", true) == Ok(Call("Field", cs))
  {
    var cs := [Expression("type"), Comma, Expression("opts"), Comma, ObjectLiteral([Nullable])];
    NotEmptyWithLiteral(cs, 4);
  }

  /** A member whose one JSDoc block has no `typegraphql` tag is still described, by "\n". */
  lemma UntaggedDocScenario()
    ensures RewriteMember(Member("name", [Doc([Tag("deprecated", None)])], [Call("Field", [])])) ==
      Ok(Member("name", [Doc([Tag("deprecated", None)])], [Call("Field", [ObjectLiteral([DescriptionAssignment("\n")])])]))
  {
    var doc := Doc([Tag("deprecated", None)]);
    OneBlock(doc);
    assert doc.tags[..0] == [];
    assert Description([doc]) == "\n";
    var decs := [Call("Field", [])];
    var f := DecoratorRewriter("\n");
    assert f(decs[0]) == Ok(Call("Field", [ObjectLiteral([DescriptionAssignment("\n")])]));
    assert decs[1..] == [];
    assert MapAll(decs[1..], f) == Ok([]);
    var lit := Call("Field", [ObjectLiteral([DescriptionAssignment("\n")])]);
    assert [lit] + [] == [lit];
    assert MapAll(decs, f) == Ok([Call("Field", [ObjectLiteral([DescriptionAssignment("\n")])])]);
    assert |"\n"| == 1;
  }

  /** Only the first `description` is replaced, so a literal with two of them
      is not stable: a second merge replaces the other one as well. */
  lemma DuplicateDescriptionScenario()
    ensures var ps := [DescriptionAssignment("a"), DescriptionAssignment("b")];
      MergeDescription(ps, "x", true) == [DescriptionAssignment("b"), DescriptionAssignment("x")] &&
      MergeDescription(MergeDescription(ps, "x", true), "x", true) ==
        [DescriptionAssignment("x"), DescriptionAssignment("x")]
  {
    var ps := [DescriptionAssignment("a"), DescriptionAssignment("b")];
    assert FindProperty(ps, DescriptionKey) == Some(0);
    var once := [DescriptionAssignment("b"), DescriptionAssignment("x")];
    assert ps[..0] + ps[1..] + [DescriptionAssignment("x")] == once;
    assert FindProperty(once, DescriptionKey) == Some(0);
    assert once[..0] + once[1..] + [DescriptionAssignment("x")] == [DescriptionAssignment("x"), DescriptionAssignment("x")];
  }
}
