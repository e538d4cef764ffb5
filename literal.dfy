/** Object literal arguments of a decorator and the merge-or-override of their
    `description` property (index.ts, `writeLiteral` and `operateOnLiteral`). */
module Literal {
  import opened Wrappers

  /** The property the loader writes. */
  const DescriptionKey := "description"

  /** A property's initializer: a string literal written by the loader, or any
      other expression kept as its source text. Quoting and escaping are abstract. */
  datatype Value = Str(s: string) | Code(text: string)

  /** A property assignment `name: value` of an object literal. */
  datatype Property = Property(name: string, value: Value)

  /** The assignment `description: '<d>'` the loader adds. */
  function DescriptionAssignment(d: string): Property
  {
    Property(DescriptionKey, Str(d))
  }

  /** Number of properties called `name`. */
  function CountNamed(ps: seq<Property>, name: string): (n: nat)
    ensures n <= |ps|
  {
    if ps == [] then 0
    else (if ps[0].name == name then 1 else 0) + CountNamed(ps[1..], name)
  }

  /** The properties other than `description`, in their original order. */
  function Others(ps: seq<Property>): (r: seq<Property>)
    ensures |r| <= |ps|
  {
    if ps == [] then []
    else (if ps[0].name == DescriptionKey then [] else [ps[0]]) + Others(ps[1..])
  }

  /** The literal holds exactly one `description`, the last property, set to `d`. */
  predicate DescribesAs(ps: seq<Property>, d: string)
  {
    CountNamed(ps, DescriptionKey) == 1 && ps != [] && ps[|ps| - 1] == DescriptionAssignment(d)
  }

  /** `writeLiteral` (index.ts:3-5): the new object literal `{description: '<d>'}`. */
  function WriteLiteral(d: string): (r: seq<Property>)
    ensures DescribesAs(r, d)
    ensures Others(r) == []
  {
    [DescriptionAssignment(d)]
  }

  /** `getProperty(name)`: the position of the first property called `name`. */
  function FindProperty(ps: seq<Property>, name: string): (r: Option<nat>)
    ensures r.Some? ==> r.value < |ps| && ps[r.value].name == name
    ensures r.Some? ==> forall j :: 0 <= j < r.value ==> ps[j].name != name
    ensures r.None? ==> forall j :: 0 <= j < |ps| ==> ps[j].name != name
  {
    if ps == [] then None
    else if ps[0].name == name then Some(0)
    else match FindProperty(ps[1..], name)
      case None => None
      case Some(i) => Some(i + 1)
  }

  /** `operateOnLiteral` (index.ts:7-20) on the property list of the literal:
      with no `description`, one is added at the end; with one and `override`,
      the first is removed and a fresh one added at the end; otherwise nothing
      changes. */
  function MergeDescription(ps: seq<Property>, d: string, override: bool): (r: seq<Property>)
    ensures FindProperty(ps, DescriptionKey).None? || override ==>
      r != [] && r[|r| - 1] == DescriptionAssignment(d)
    ensures |r| == |ps| + (if FindProperty(ps, DescriptionKey).None? then 1 else 0)
  {
    match FindProperty(ps, DescriptionKey)
    case None => ps + [DescriptionAssignment(d)]
    case Some(i) =>
      if override then ps[..i] + ps[i + 1..] + [DescriptionAssignment(d)] else ps
  }

  /** `getProperty` finds nothing exactly when no property has the name. */
  lemma {:induction false} FindAndCount(ps: seq<Property>, name: string)
    ensures FindProperty(ps, name).None? <==> CountNamed(ps, name) == 0
  {
    if ps != [] {
      FindAndCount(ps[1..], name);
    }
  }

  lemma {:induction false} CountAppend(a: seq<Property>, b: seq<Property>, name: string)
    ensures CountNamed(a + b, name) == CountNamed(a, name) + CountNamed(b, name)
  {
    if a != [] {
      assert (a + b)[1..] == a[1..] + b;
      CountAppend(a[1..], b, name);
    } else {
      assert a + b == b;
    }
  }

  lemma {:induction false} OthersAppend(a: seq<Property>, b: seq<Property>)
    ensures Others(a + b) == Others(a) + Others(b)
  {
    if a != [] {
      assert (a + b)[1..] == a[1..] + b;
      OthersAppend(a[1..], b);
    } else {
      assert a + b == b;
    }
  }

  /** A list without `description` is its own `Others`. */
  lemma {:induction false} OthersOfUndescribed(ps: seq<Property>)
    requires CountNamed(ps, DescriptionKey) == 0
    ensures Others(ps) == ps
  {
    if ps != [] {
      OthersOfUndescribed(ps[1..]);
      assert [ps[0]] + ps[1..] == ps;
    }
  }

  /** Removing a `description` at position `i` leaves `Others` alone and drops the count by one. */
  lemma RemoveDescription(ps: seq<Property>, i: nat)
    requires i < |ps| && ps[i].name == DescriptionKey
    ensures Others(ps[..i] + ps[i + 1..]) == Others(ps)
    ensures CountNamed(ps[..i] + ps[i + 1..], DescriptionKey) + 1 == CountNamed(ps, DescriptionKey)
  {
    var a, x, b := ps[..i], [ps[i]], ps[i + 1..];
    assert ps == a + (x + b);
    OthersOfOne(ps[i]);
    RemoveOthers(a, x, b);
    RemoveCount(a, x, b);
  }

  lemma RemoveOthers(a: seq<Property>, x: seq<Property>, b: seq<Property>)
    requires Others(x) == []
    ensures Others(a + b) == Others(a + (x + b))
  {
    OthersAppend(a, x + b);
    OthersAppend(x, b);
    OthersAppend(a, b);
  }

  lemma RemoveCount(a: seq<Property>, x: seq<Property>, b: seq<Property>)
    requires CountNamed(x, DescriptionKey) == 1
    ensures CountNamed(a + b, DescriptionKey) + 1 == CountNamed(a + (x + b), DescriptionKey)
  {
    CountAppend(a, x + b, DescriptionKey);
    CountAppend(x, b, DescriptionKey);
    CountAppend(a, b, DescriptionKey);
  }

  lemma OthersOfOne(p: Property)
    requires p.name == DescriptionKey
    ensures Others([p]) == [] && CountNamed([p], DescriptionKey) == 1
  {
    assert [p][1..] == [];
  }

  /** Whatever the flag, the properties other than `description` survive in
      their original relative order, and nothing else is added among them. */
  lemma MergeKeepsOthers(ps: seq<Property>, d: string, override: bool)
    ensures Others(MergeDescription(ps, d, override)) == Others(ps)
  {
    OthersAppend(ps, [DescriptionAssignment(d)]);
    match FindProperty(ps, DescriptionKey)
    case None =>
    case Some(i) =>
      if override {
        RemoveDescription(ps, i);
        OthersAppend(ps[..i] + ps[i + 1..], [DescriptionAssignment(d)]);
      }
  }

  /** How many `description` properties there are afterwards: one if there was
      none, otherwise as many as before (only the first one is replaced). */
  lemma MergeCount(ps: seq<Property>, d: string, override: bool)
    ensures CountNamed(MergeDescription(ps, d, override), DescriptionKey) ==
      if CountNamed(ps, DescriptionKey) == 0 then 1 else CountNamed(ps, DescriptionKey)
  {
    CountAppend(ps, [DescriptionAssignment(d)], DescriptionKey);
    OthersOfOne(DescriptionAssignment(d));
    FindAndCount(ps, DescriptionKey);
    match FindProperty(ps, DescriptionKey)
    case None =>
    case Some(i) =>
      if override {
        RemoveDescription(ps, i);
        CountAppend(ps[..i] + ps[i + 1..], [DescriptionAssignment(d)], DescriptionKey);
      }
  }

  /** With override on a literal that has at most one `description`, the result
      is the other properties in order followed by the one new `description`. */
  lemma OverrideResult(ps: seq<Property>, d: string)
    requires CountNamed(ps, DescriptionKey) <= 1
    ensures MergeDescription(ps, d, true) == Others(ps) + [DescriptionAssignment(d)]
    ensures DescribesAs(MergeDescription(ps, d, true), d)
  {
    MergeCount(ps, d, true);
    FindAndCount(ps, DescriptionKey);
    match FindProperty(ps, DescriptionKey)
    case None =>
      OthersOfUndescribed(ps);
    case Some(i) =>
      RemoveDescription(ps, i);
      OthersOfUndescribed(ps[..i] + ps[i + 1..]);
  }

  /** A literal that already has a `description` is left as it is when override is off. */
  lemma KeepExisting(ps: seq<Property>, d: string)
    requires CountNamed(ps, DescriptionKey) > 0
    ensures MergeDescription(ps, d, false) == ps
  {
  }

  /** Merging twice with the same description is merging once. */
  lemma MergeIdempotent(ps: seq<Property>, d: string, override: bool)
    requires CountNamed(ps, DescriptionKey) <= 1
    ensures MergeDescription(MergeDescription(ps, d, override), d, override) == MergeDescription(ps, d, override)
  {
    var once := MergeDescription(ps, d, override);
    MergeCount(ps, d, override);
    if override {
      OverrideResult(ps, d);
      OverrideResult(once, d);
      MergeKeepsOthers(ps, d, true);
    } else {
      FindAndCount(ps, DescriptionKey);
      FindAndCount(once, DescriptionKey);
    }
  }

  /** The object literal node of the syntax tree, whose property list
      `operateOnLiteral` changes in place. */
  class ObjectLiteralNode {
    var properties: seq<Property>

    constructor (ps: seq<Property>)
      ensures properties == ps
    {
      properties := ps;
    }

    /** `node.getProperty(name)`: the position of the first property called `name`. */
    method GetProperty(name: string) returns (r: Option<nat>)
      ensures r.Some? ==> r.value < |properties| && properties[r.value].name == name
      ensures r.Some? ==> forall j :: 0 <= j < r.value ==> properties[j].name != name
      ensures r.None? <==> forall j :: 0 <= j < |properties| ==> properties[j].name != name
    {
      var i := 0;
      while i < |properties| && properties[i].name != name
        invariant 0 <= i <= |properties|
        invariant forall j :: 0 <= j < i ==> properties[j].name != name
      {
        i := i + 1;
      }
      r := if i < |properties| then Some(i) else None;
    }

    /** `property.remove()` for the property at position `i`. */
    method RemoveProperty(i: nat)
      requires i < |properties|
      modifies this
      ensures properties == old(properties[..i] + properties[i + 1..])
    {
      properties := properties[..i] + properties[i + 1..];
    }

    /** `node.addPropertyAssignment(p)`: appends `p` as the last property. */
    method AddPropertyAssignment(p: Property)
      modifies this
      ensures properties == old(properties) + [p]
    {
      properties := properties + [p];
    }

    /** `operateOnLiteral(node, d, override)` (index.ts:7-20), in place. */
    method OperateOnLiteral(d: string, override: bool)
      modifies this
      ensures properties == MergeDescription(old(properties), d, override)
      ensures Others(properties) == Others(old(properties))
      ensures override && CountNamed(old(properties), DescriptionKey) <= 1 ==> DescribesAs(properties, d)
    {
      ghost var before := properties;
      MergeKeepsOthers(before, d, override);
      if override && CountNamed(before, DescriptionKey) <= 1 {
        OverrideResult(before, d);
      }
      var found := GetProperty(DescriptionKey);
      if found.None? {
        AddPropertyAssignment(DescriptionAssignment(d));
      } else if override {
        RemoveProperty(found.value);
        AddPropertyAssignment(DescriptionAssignment(d));
      }
    }
  }
}
