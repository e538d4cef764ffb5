/** The rewrite of one decorator's argument list (index.ts:54-79). */
module Decorators {
  import opened Wrappers
  import opened Literal

  /** A child of the call's argument syntax list (SyntaxList): the arguments
      with the comma tokens between them, so two arguments are three children. */
  datatype Node =
    | Comma
    | ObjectLiteral(properties: seq<Property>)
    | Expression(text: string)

  /** The expression after `@`: a call with its argument syntax list, or any
      other expression (a bare name such as `@Field`, a property access). */
  datatype Decorator =
    | Call(callee: string, arguments: seq<Node>)
    | NotCall(text: string)

  /** The two ways `getChildAtIndexIfKindOrThrow` throws. */
  datatype LoaderError =
    | NoArgumentList     // index.ts:66: child 2 of the decorator expression is not a syntax list
    | NotObjectLiteral   // index.ts:77: child 2 of the argument list is not an object literal

  function ValueText(v: Value): string
  {
    match v
    case Str(s) => "'" + s + "'"
    case Code(t) => t
  }

  function PropertiesText(ps: seq<Property>): string
  {
    if ps == [] then ""
    else ps[0].name + ": " + ValueText(ps[0].value) + (if |ps| > 1 then ", " else "") + PropertiesText(ps[1..])
  }

  /** `getText()` of a child. */
  function NodeText(n: Node): string
  {
    match n
    case Comma => ","
    case ObjectLiteral(ps) => "{" + PropertiesText(ps) + "}"
    case Expression(t) => t
  }

  /** `getText()` of a whole argument list. */
  function ChildrenText(cs: seq<Node>): string
  {
    if cs == [] then "" else NodeText(cs[0]) + ChildrenText(cs[1..])
  }

  /** The test of index.ts:59: the texts of `(`, the argument list and `)`,
      joined, read `()`. */
  predicate IsEmptyCall(cs: seq<Node>)
    ensures IsEmptyCall(cs) <==> ChildrenText(cs) == ""
  {
    var t := ChildrenText(cs);
    assert |"(" + t + ")"| == |t| + 2;
    assert t == "" ==> "(" + t + ")" == "()";
    "(" + t + ")" == "()"
  }

  /** A syntax list as a parser builds it: arguments at even positions, commas
      at odd ones (so a trailing comma makes the length even), and every
      expression with some text. */
  predicate WellFormed(cs: seq<Node>)
  {
    forall i :: 0 <= i < |cs| ==> (cs[i].Comma? <==> i % 2 == 1) && (cs[i].Expression? ==> cs[i].text != "")
  }

  /** The arguments proper: the children that are not commas. */
  function Arguments(cs: seq<Node>): (r: seq<Node>)
    ensures |r| <= |cs|
  {
    if cs == [] then []
    else (if cs[0].Comma? then [] else [cs[0]]) + Arguments(cs[1..])
  }

  /** The rewrite of one decorator with description `d` (index.ts:56-79). */
  function RewriteDecorator(dec: Decorator, d: string, override: bool): (r: Result<Decorator, LoaderError>)
    ensures r.Ok? ==> dec.Call? && r.value.Call? && r.value.callee == dec.callee
    ensures r.Err? ==> (r.error == NoArgumentList <==> dec.NotCall?)
  {
    match dec
    case NotCall(_) => Err(NoArgumentList)
    case Call(callee, cs) =>
      if IsEmptyCall(cs) then
        // index.ts:62: the empty list is replaced by `{description: d}`
        Ok(Call(callee, [ObjectLiteral(WriteLiteral(d))]))
      else if |cs| == 1 && !cs[0].ObjectLiteral? then
        // index.ts:71: `, {description: d}` is appended
        Ok(Call(callee, cs + [Comma, ObjectLiteral(WriteLiteral(d))]))
      else if |cs| == 1 then
        // index.ts:74: the only argument is the literal to merge into
        Ok(Call(callee, [ObjectLiteral(MergeDescription(cs[0].properties, d, override))]))
      else if |cs| == 3 then
        // index.ts:77: child 2 must be the literal to merge into
        if cs[2].ObjectLiteral? then
          Ok(Call(callee, cs[2 := ObjectLiteral(MergeDescription(cs[2].properties, d, override))]))
        else Err(NotObjectLiteral)
      else
        Ok(dec)
  }

  /** Every object literal among the children has at most one `description`. */
  predicate UniqueDescriptions(cs: seq<Node>)
  {
    forall i :: 0 <= i < |cs| && cs[i].ObjectLiteral? ==> CountNamed(cs[i].properties, DescriptionKey) <= 1
  }

  predicate DecoratorUnique(dec: Decorator)
  {
    dec.Call? ==> UniqueDescriptions(dec.arguments)
  }

  // ---------------------------------------------------------------------------
  // The text of an argument list

  lemma {:induction false} ChildrenTextEmpty(cs: seq<Node>)
    ensures ChildrenText(cs) == "" <==> forall i :: 0 <= i < |cs| ==> NodeText(cs[i]) == ""
  {
    if cs != [] {
      var head, tail := NodeText(cs[0]), cs[1..];
      ChildrenTextEmpty(tail);
      assert |ChildrenText(cs)| == |head| + |ChildrenText(tail)|;
      if ChildrenText(cs) == "" {
        forall i | 0 <= i < |cs| ensures NodeText(cs[i]) == "" {
          if i > 0 { assert tail[i - 1] == cs[i]; }
        }
      } else if head == "" {
        assert ChildrenText(tail) != "";
        var i :| 0 <= i < |tail| && NodeText(tail[i]) != "";
        assert tail[i] == cs[i + 1];
      }
    }
  }

  /** The test of index.ts:59 holds exactly when every child has empty text. */
  lemma EmptyCallIff(cs: seq<Node>)
    ensures IsEmptyCall(cs) <==> forall i :: 0 <= i < |cs| ==> NodeText(cs[i]) == ""
  {
    ChildrenTextEmpty(cs);
    var t := ChildrenText(cs);
    assert |"(" + t + ")"| == |t| + 2;
    assert t == "" ==> "(" + t + ")" == "()";
  }

  /** On a list a parser builds, that test recognises exactly `()`. */
  lemma EmptyCallOfWellFormed(cs: seq<Node>)
    requires WellFormed(cs)
    ensures IsEmptyCall(cs) <==> cs == []
  {
    EmptyCallIff(cs);
    if cs != [] {
      assert NodeText(cs[0]) != "" by {
        match cs[0]
        case ObjectLiteral(ps) => assert NodeText(cs[0])[0] == '{';
        case Expression(t) =>
      }
    }
  }

  /** The new literal has text, so a list holding it is never taken for `()`. */
  lemma NotEmptyWithLiteral(cs: seq<Node>, k: nat)
    requires k < |cs| && cs[k].ObjectLiteral?
    ensures !IsEmptyCall(cs)
  {
    EmptyCallIff(cs);
    assert NodeText(cs[k])[0] == '{';
  }

  // ---------------------------------------------------------------------------
  // Children and arguments

  /** In a well-formed list, argument `k` is child `2 * k`, and there are
      `(|cs| + 1) / 2` arguments. */
  lemma {:induction false} ArgumentAt(cs: seq<Node>)
    requires WellFormed(cs)
    ensures |Arguments(cs)| == (|cs| + 1) / 2
    ensures forall k :: 0 <= k < |Arguments(cs)| ==> Arguments(cs)[k] == cs[2 * k]
  {
    if |cs| >= 2 {
      var rest := cs[2..];
      assert forall i :: 0 <= i < |rest| ==> rest[i] == cs[i + 2];
      assert WellFormed(rest);
      ArgumentAt(rest);
      assert cs[1..][1..] == rest;
      assert Arguments(cs[1..]) == Arguments(rest);
      assert Arguments(cs) == [cs[0]] + Arguments(rest);
    } else if |cs| == 1 {
      assert cs[1..] == [];
    }
  }

  lemma {:induction false} ArgumentsAppend(a: seq<Node>, b: seq<Node>)
    ensures Arguments(a + b) == Arguments(a) + Arguments(b)
  {
    if a == [] {
      assert a + b == b;
    } else {
      assert (a + b)[1..] == a[1..] + b;
      ArgumentsAppend(a[1..], b);
    }
  }

  lemma {:induction false} UniqueAppend(a: seq<Node>, b: seq<Node>)
    requires UniqueDescriptions(a) && UniqueDescriptions(b)
    ensures UniqueDescriptions(a + b)
  {
    forall i | 0 <= i < |a + b| && (a + b)[i].ObjectLiteral?
      ensures CountNamed((a + b)[i].properties, DescriptionKey) <= 1
    {
      if i >= |a| { assert (a + b)[i] == b[i - |a|]; }
    }
  }

  // ---------------------------------------------------------------------------
  // What the rewrite does, by number of arguments

  /** A decorator that is not a call makes the loader throw (index.ts:66). */
  lemma NotCallFails(text: string, d: string, override: bool)
    ensures RewriteDecorator(NotCall(text), d, override) == Err(NoArgumentList)
  {
  }

  /** `@F()` becomes `@F({description: d})` (index.ts:59-62). */
  lemma RewriteNoArguments(callee: string, cs: seq<Node>, d: string, override: bool)
    requires WellFormed(cs) && Arguments(cs) == []
    ensures RewriteDecorator(Call(callee, cs), d, override) == Ok(Call(callee, [ObjectLiteral(WriteLiteral(d))]))
  {
    ArgumentAt(cs);
    EmptyCallOfWellFormed(cs);
  }

  /** `@F(x)` becomes `@F(x, {description: d})` when `x` is not an object
      literal, and `@F({... description: d})` when it is (index.ts:69-74). */
  lemma RewriteOneArgument(callee: string, cs: seq<Node>, d: string, override: bool)
    requires WellFormed(cs) && |Arguments(cs)| == 1 && !cs[|cs| - 1].Comma?
    ensures RewriteDecorator(Call(callee, cs), d, override).Ok?
    ensures var r := RewriteDecorator(Call(callee, cs), d, override).value;
      r.Call? && r.callee == callee && WellFormed(r.arguments) &&
      |r.arguments| == 2 * |Arguments(r.arguments)| - 1 &&
      Arguments(r.arguments) ==
        if Arguments(cs)[0].ObjectLiteral?
        then [ObjectLiteral(MergeDescription(Arguments(cs)[0].properties, d, override))]
        else Arguments(cs) + [ObjectLiteral(WriteLiteral(d))]
  {
    ArgumentAt(cs);
    EmptyCallOfWellFormed(cs);
    assert |cs| == 1;
    if !cs[0].ObjectLiteral? {
      AppendLiteral(cs, WriteLiteral(d));
    } else {
      var one := [ObjectLiteral(MergeDescription(cs[0].properties, d, override))];
      assert one[1..] == [];
      assert Arguments(one) == one;
    }
  }

  /** Appending `, {…}` after one argument keeps the list well-formed and adds one argument. */
  lemma AppendLiteral(cs: seq<Node>, ps: seq<Property>)
    requires WellFormed(cs) && |cs| == 1
    ensures WellFormed(cs + [Comma, ObjectLiteral(ps)])
    ensures Arguments(cs + [Comma, ObjectLiteral(ps)]) == Arguments(cs) + [ObjectLiteral(ps)]
  {
    var tail := [Comma, ObjectLiteral(ps)];
    var r := cs + tail;
    assert r[0] == cs[0] && r[1] == Comma && r[2] == ObjectLiteral(ps);
    ArgumentsAppend(cs, tail);
    assert tail[1..] == [ObjectLiteral(ps)];
    assert [ObjectLiteral(ps)][1..] == [];
  }


  /** `@F(x, y)`, two arguments and therefore three children, merges into `y`
      when it is an object literal and throws otherwise (index.ts:75-77). */
  lemma RewriteTwoArguments(callee: string, cs: seq<Node>, d: string, override: bool)
    requires WellFormed(cs) && |Arguments(cs)| == 2 && !cs[|cs| - 1].Comma?
    ensures RewriteDecorator(Call(callee, cs), d, override).Err? <==> !Arguments(cs)[1].ObjectLiteral?
    ensures RewriteDecorator(Call(callee, cs), d, override).Err? ==>
      RewriteDecorator(Call(callee, cs), d, override).error == NotObjectLiteral
    ensures Arguments(cs)[1].ObjectLiteral? ==>
      var r := RewriteDecorator(Call(callee, cs), d, override).value;
      r.Call? && r.callee == callee && WellFormed(r.arguments) &&
      |r.arguments| == 2 * |Arguments(r.arguments)| - 1 &&
      Arguments(r.arguments) ==
        [Arguments(cs)[0], ObjectLiteral(MergeDescription(Arguments(cs)[1].properties, d, override))]
  {
    ArgumentAt(cs);
    EmptyCallOfWellFormed(cs);
    assert |cs| == 3;
    if cs[2].ObjectLiteral? {
      var cs' := cs[2 := ObjectLiteral(MergeDescription(cs[2].properties, d, override))];
      assert WellFormed(cs');
      ArgumentAt(cs');
    }
  }

  /** Three or more arguments, or a trailing comma, leave the decorator as it
      is (index.ts:75: no branch for other child counts). */
  lemma RewriteOtherShapes(callee: string, cs: seq<Node>, d: string, override: bool)
    requires WellFormed(cs) && cs != []
    requires |Arguments(cs)| >= 3 || cs[|cs| - 1].Comma?
    ensures RewriteDecorator(Call(callee, cs), d, override) == Ok(Call(callee, cs))
  {
    ArgumentAt(cs);
    EmptyCallOfWellFormed(cs);
  }

  /** A successful rewrite turns a call into a call to the same callee and
      keeps a well-formed list well-formed. */
  lemma RewriteKeepsWellFormed(dec: Decorator, d: string, override: bool)
    requires RewriteDecorator(dec, d, override).Ok?
    ensures var r := RewriteDecorator(dec, d, override).value;
      r.Call? && dec.Call? && r.callee == dec.callee &&
      (WellFormed(dec.arguments) ==> WellFormed(r.arguments))
  {
    var cs := dec.arguments;
    if IsEmptyCall(cs) {
    } else if |cs| == 1 && !cs[0].ObjectLiteral? {
      if WellFormed(cs) { AppendLiteral(cs, WriteLiteral(d)); }
    } else if |cs| == 1 {
      assert [ObjectLiteral(MergeDescription(cs[0].properties, d, override))] ==
        cs[0 := ObjectLiteral(MergeDescription(cs[0].properties, d, override))];
    }
  }

  /** A successful rewrite keeps every literal's `description` unique. */
  lemma RewriteKeepsUnique(dec: Decorator, d: string, override: bool)
    requires DecoratorUnique(dec)
    requires RewriteDecorator(dec, d, override).Ok?
    ensures DecoratorUnique(RewriteDecorator(dec, d, override).value)
  {
    var cs := dec.arguments;
    if IsEmptyCall(cs) {
    } else if |cs| == 1 && !cs[0].ObjectLiteral? {
      var tail := [Comma, ObjectLiteral(WriteLiteral(d))];
      assert UniqueDescriptions(tail);
      UniqueAppend(cs, tail);
    } else if |cs| == 1 {
      MergeCount(cs[0].properties, d, override);
    } else if |cs| == 3 {
      MergeCount(cs[2].properties, d, override);
    }
  }

  /** With override, every handled shape ends with an object literal holding
      exactly one `description`, set to `d`, as its last property. */
  lemma RewriteWritesDescription(callee: string, cs: seq<Node>, d: string)
    requires UniqueDescriptions(cs)
    requires IsEmptyCall(cs) || |cs| == 1 || |cs| == 3
    requires RewriteDecorator(Call(callee, cs), d, true).Ok?
    ensures var r := RewriteDecorator(Call(callee, cs), d, true).value;
      exists k :: 0 <= k < |r.arguments| && r.arguments[k].ObjectLiteral? &&
        DescribesAs(r.arguments[k].properties, d)
  {
    var r := RewriteDecorator(Call(callee, cs), d, true).value;
    if IsEmptyCall(cs) {
      assert r.arguments[0].ObjectLiteral?;
    } else if |cs| == 1 && !cs[0].ObjectLiteral? {
      assert r.arguments[2].ObjectLiteral?;
    } else if |cs| == 1 {
      OverrideResult(cs[0].properties, d);
      assert r.arguments[0].ObjectLiteral?;
    } else {
      OverrideResult(cs[2].properties, d);
      assert r.arguments[2].ObjectLiteral?;
    }
  }

  /** Rewriting the rewritten decorator with the same description changes
      nothing more. */
  lemma RewriteIdempotent(dec: Decorator, d: string, override: bool)
    requires DecoratorUnique(dec)
    requires RewriteDecorator(dec, d, override).Ok?
    ensures var r := RewriteDecorator(dec, d, override).value;
      RewriteDecorator(r, d, override) == Ok(r)
  {
    var r := RewriteDecorator(dec, d, override).value;
    var cs := dec.arguments;
    var lit := WriteLiteral(d);
    if IsEmptyCall(cs) {
      NotEmptyWithLiteral(r.arguments, 0);
      MergeIdempotent([], d, override);
      assert MergeDescription([], d, override) == lit;
    } else if |cs| == 1 && !cs[0].ObjectLiteral? {
      NotEmptyWithLiteral(r.arguments, 2);
      MergeIdempotent([], d, override);
      assert MergeDescription([], d, override) == lit;
      assert r.arguments[2 := ObjectLiteral(MergeDescription(lit, d, override))] == r.arguments;
    } else if |cs| == 1 {
      NotEmptyWithLiteral(r.arguments, 0);
      MergeIdempotent(cs[0].properties, d, override);
    } else if |cs| == 3 {
      NotEmptyWithLiteral(r.arguments, 2);
      MergeIdempotent(cs[2].properties, d, override);
      assert r.arguments[2 := ObjectLiteral(MergeDescription(r.arguments[2].properties, d, override))] == r.arguments;
    }
  }
}
