# typegraphql-description-loader, modelled in Dafny

The loader is a webpack loader. It parses a TypeScript module and visits
every top-level class. For each of the class's methods and then its properties, it
turns the member's JSDoc `@typegraphql` tags into a description string. It
then writes that string as the `description` option of every decorator on
the member. Each decorator call is handled according to the shape of its
argument list:

- it fills an empty `()`;
- it appends an object literal after a single plain argument;
- it merges into an object literal that is already there.

This project models that decision logic over an abstract syntax tree. The
tree has a source file, its classes, their members, each member's JSDoc
blocks and decorators, each decorator's argument syntax list, and the
object literals in that list. The project proves what each step does.

Modules, by file:

- `wrappers.dfy` (`Wrappers`): `Option`, `Result`, and `MapAll`. `MapAll` is
  a `forEach` whose callback may throw: it applies the callback to each
  element in order and stops at the first error.
- `literal.dfy` (`Literal`): object-literal properties. It holds
  `writeLiteral`, and `operateOnLiteral` in two forms. `MergeDescription` is
  the pure specification. The class `ObjectLiteralNode` is the node itself,
  whose methods change its property list in place the way
  `getProperty`/`remove`/`addPropertyAssignment` do.
- `jsdoc.dfy` (`JsDoc`): the description `reduce` with its inner `forEach`.
  It is specified by `BlockComment`/`Description` and implemented by the
  loop method `ExtractDescription`.
- `decorators.dfy` (`Decorators`): the argument syntax list, which holds the
  arguments with the comma tokens between them, and the rewrite of one
  decorator.
- `loader.dfy` (`Loader`): members, classes and the source file. It holds
  the specification functions of the walk and the three loop methods that
  perform it.
- `scenarios.dfy` (`Scenarios`): concrete decorators and what they become.

Where the code differs from a plain reading of what the loader is for, the
model follows the code (`index.ts`):

- The branch at index.ts:75-77 keys on the number of *children* of the
  argument syntax list, and that number counts commas. Three children
  means **two** arguments, and the literal merged into is the second one.
  With three or more arguments (five or more children), or with a trailing
  comma, the decorator is left unchanged. A two-argument call whose second
  argument is not an object literal **throws**; it is not passed through.
  See `RewriteTwoArguments`, `RewriteOtherShapes` and the scenarios.
- Every JSDoc block adds its comment followed by `"\n"`, even a block with
  no `typegraphql` tag. So the description is empty only for a member with
  no JSDoc block at all (`DescriptionEmptyIff`, `UntaggedDocScenario`). A
  documented member without the tag still has its decorators rewritten,
  with a description made of newlines.
- `getProperty('description')` finds the first property of that name, and
  only that one is removed. A literal with two `description` properties
  keeps two, and a second run changes it again (`MergeCount`,
  `DuplicateDescriptionScenario`). Uniqueness, and with it idempotence,
  holds only for literals with at most one `description`.
- A tag with no comment text makes `tag.getComment()` undefined, and the
  template literal at index.ts:50 then prints the word `undefined`
  (`CommentText`).
- A decorator that is not a call (`@Field`) has no syntax list at child
  index 2, so `getChildAtIndexIfKindOrThrow` at index.ts:66 throws
  (`NotCallFails`).

The override flag is a parameter of `MergeDescription` and of
`RewriteDecorator`. The loader passes it the constant `OverrideDescription`,
which is `true` (index.ts:30).

## Model

| member | source | states |
|---|---|---|
| `Literal.WriteLiteral` | index.ts:3-5 | the new literal has exactly one property, `description`, set to the description, and no other property |
| `Literal.FindProperty` | index.ts:8 | `getProperty` returns the position of the first property with the name, or nothing when no property has it |
| `Literal.FindAndCount` | index.ts:8 | `getProperty` finds nothing exactly when the literal has no property of that name |
| `Literal.MergeDescription` | index.ts:7-20 | `operateOnLiteral` on a property list: when there was no `description`, or override is on, the new `description` is the last property; the list grows by one exactly when there was no `description` |
| `Literal.MergeKeepsOthers` | index.ts:7-19 | whatever the override flag, the properties other than `description` stay, in their original relative order |
| `Literal.MergeCount` | index.ts:7-19 | afterwards there is one `description` if there was none, and otherwise as many as before, since only the first is replaced |
| `Literal.OverrideResult` | index.ts:8-18 | with override on a literal that has at most one `description`, the result is the other properties in order followed by the single new `description`, which is the last property |
| `Literal.KeepExisting` | index.ts:13 | with override off, a literal that already has a `description` is unchanged |
| `Literal.MergeIdempotent` | index.ts:7-19 | merging the same description twice gives the same literal as merging it once, when there was at most one `description` |
| `Literal.ObjectLiteralNode.GetProperty` | index.ts:8 | returns the first position whose property has the name, and returns nothing exactly when none has it |
| `Literal.ObjectLiteralNode.RemoveProperty` | index.ts:14 | the property at the position is removed and the others keep their order |
| `Literal.ObjectLiteralNode.AddPropertyAssignment` | index.ts:9-12 | the assignment is appended as the last property |
| `Literal.ObjectLiteralNode.OperateOnLiteral` | index.ts:7-20 | the node's properties become `MergeDescription` of the old ones; the other properties are kept; with override and at most one old `description`, exactly one `description` remains, holding the value |
| `JsDoc.CommentText` | index.ts:50 | the text a tag's comment prints is empty only for a present, empty comment; a missing comment prints `undefined` |
| `JsDoc.BlockComment` | index.ts:44-49 | the comment left after a block's tags is empty for a block with no tags |
| `JsDoc.CommentNeedsTag` | index.ts:44-49 | a block's comment is non-empty only when some tag of the block is a `typegraphql` tag |
| `JsDoc.Description` | index.ts:43-51 | the `reduce` over the blocks gives a string at least as long as the number of blocks, one newline per block |
| `JsDoc.LastTagWins` | index.ts:44-49 | a block's comment is the comment of its last `typegraphql` tag |
| `JsDoc.NoTagNoComment` | index.ts:44-49 | a block without a `typegraphql` tag has the empty comment |
| `JsDoc.OneBlock` | index.ts:50 | one block contributes its comment followed by a newline |
| `JsDoc.DescriptionConcat` | index.ts:43-51 | the description of consecutive blocks is the concatenation of their contributions, in order |
| `JsDoc.DescriptionEmptyIff` | index.ts:43-53 | the description is at least as long as the number of blocks, and it is empty exactly when there is no JSDoc block |
| `JsDoc.TwoBlocks` | index.ts:43-51 | two blocks tagged `a` and `b` give `"a\nb\n"` |
| `JsDoc.ExtractDescription` | index.ts:43-51 | the loop over blocks, and over tags within each block, returns `Description` of the blocks |
| `Decorators.IsEmptyCall` | index.ts:59 | the test that children 1 to 3 read `()` holds exactly when the argument list's text is empty |
| `Decorators.RewriteDecorator` | index.ts:54-79 | a successful rewrite comes from a call and gives a call with the same callee; it fails with the missing-argument-list error exactly when the decorator is not a call, and otherwise the error is the missing object literal |
| `Decorators.EmptyCallIff` | index.ts:59 | the joined text of `(`, the argument list and `)` is `()` exactly when every child of the list has empty text |
| `Decorators.EmptyCallOfWellFormed` | index.ts:59 | on a list a parser builds, that test holds exactly when the list has no children |
| `Decorators.ArgumentAt` | index.ts:66-67 | in a well-formed list there are `(children + 1) / 2` arguments, and argument `k` is child `2k`; so three children are two arguments and child 2 is the second |
| `Decorators.NotCallFails` | index.ts:56-66 | a decorator that is not a call makes the loader throw |
| `Decorators.RewriteNoArguments` | index.ts:59-62 | `@F()` becomes `@F({description: d})` |
| `Decorators.RewriteOneArgument` | index.ts:69-74 | with one argument the rewrite succeeds and keeps the list well-formed, with no trailing comma (`2 × arguments − 1` children); a plain argument is kept and followed by the new literal as second argument; a literal argument becomes its merge with `d` |
| `Decorators.RewriteTwoArguments` | index.ts:75-77 | with two arguments the rewrite throws exactly when the second is not an object literal; when it is one, the list stays well-formed with three children and no trailing comma, the first argument is kept and the second becomes its merge with `d` |
| `Decorators.RewriteOtherShapes` | index.ts:67-78 | three or more arguments, or a trailing comma, leave the decorator unchanged |
| `Decorators.RewriteKeepsWellFormed` | index.ts:59-78 | a successful rewrite turns a call into a call with the same callee and keeps a well-formed list well-formed |
| `Decorators.RewriteKeepsUnique` | index.ts:59-78 | a successful rewrite keeps every literal's `description` unique |
| `Decorators.RewriteWritesDescription` | index.ts:59-78 | with override, every handled shape ends with an object literal whose only `description`, its last property, holds `d` |
| `Decorators.RewriteIdempotent` | index.ts:59-78 | rewriting the rewritten decorator with the same description gives it back unchanged |
| `Loader.RewriteMember` | index.ts:38-82 | a member with no JSDoc block comes back unchanged; a rewritten member keeps its name, its JSDoc and its number of decorators |
| `Loader.ClassMembers` | index.ts:36 | `getMethods().concat(getProperties())`: the methods, in order, followed by the properties, in order |
| `Loader.RewriteClass` | index.ts:34-83 | a rewritten class keeps its name and its numbers of methods and of properties |
| `Loader.RewriteSourceFile` | index.ts:22-85 | a rewritten file has as many classes as the input |
| `Loader.MemberFails` | index.ts:53-80 | a member fails exactly when it is documented and one of its decorators fails with its description |
| `Loader.ScanFails` | index.ts:32-83 | the walk over the classes fails exactly when some visited member fails |
| `Loader.FileFails` | index.ts:22-85 | the loader throws exactly when some visited, documented member has a decorator whose rewrite with that member's description fails |
| `Loader.UndocumentedMemberUnchanged` | index.ts:42-53 | a member with no JSDoc block is left unchanged, whatever its decorators |
| `Loader.DocumentedMemberRewritten` | index.ts:53-80 | a documented member keeps its name and JSDoc, and every decorator is rewritten with the member's one description; the member fails exactly when one of its decorators does |
| `Loader.MemberIdempotent` | index.ts:38-82 | rewriting a rewritten member gives it back, and literal `description`s stay unique |
| `Loader.ClassIdempotent` | index.ts:34-83 | rewriting a rewritten class gives it back, when its literals have unique `description`s |
| `Loader.ClassRewritten` | index.ts:36-38 | a rewritten class keeps its name and method count; its methods-then-properties are the rewritten members in order |
| `Loader.ScanOrder` | index.ts:32-38 | across the file, the n-th visited member of the result is the rewrite of the n-th visited member of the input |
| `Loader.UndocumentedFileUnchanged` | index.ts:32-53 | a file in which no member has JSDoc comes back unchanged |
| `Loader.RewriteIdempotentFile` | index.ts:22-85 | running the loader on its own output gives that output again |
| `Loader.ProcessMember` | index.ts:38-82 | the member callback returns `RewriteMember`: members with an empty description are skipped, and the decorators are rewritten in order until the first throw |
| `Loader.ProcessClass` | index.ts:34-83 | the class callback visits `getMethods()` then `getProperties()` and returns `RewriteClass` |
| `Loader.ProcessSourceFile` | index.ts:22-85 | the loader visits the classes in document order and returns `RewriteSourceFile`, or the first error thrown |
| `Scenarios.EmptyCallScenario` | index.ts:59-62 | `@Field()` becomes `@Field({description: 'x'})` |
| `Scenarios.OneTypeScenario` | index.ts:69-71 | `@Field(SomeType)` becomes `@Field(SomeType, {description: 'x'})` |
| `Scenarios.MergeScenario` | index.ts:72-74 | `@Field({nullable: true})` becomes `@Field({nullable: true, description: 'x'})` |
| `Scenarios.OverrideScenario` | index.ts:13-18 | `@Field({description: 'old', nullable: true})` becomes `@Field({nullable: true, description: 'x'})` |
| `Scenarios.TwoArgumentScenario` | index.ts:75-77 | `@Field(type, {nullable: true})` becomes `@Field(type, {nullable: true, description: 'x'})` |
| `Scenarios.TwoPlainArgumentsScenario` | index.ts:77 | `@Field(a, b)` throws |
| `Scenarios.ThreeArgumentScenario` | index.ts:67-78 | `@Field(type, opts, {nullable: true})` is left unchanged |
| `Scenarios.UntaggedDocScenario` | index.ts:43-62 | a member whose only JSDoc block has no `typegraphql` tag still has `@Field()` filled, with description `"\n"` |
| `Scenarios.DuplicateDescriptionScenario` | index.ts:14 | with two `description`s only the first is replaced, and a second merge changes the literal again |

## Left out

- Parsing the module and printing it back (`new Project`, `createSourceFile`, `getFullText`, index.ts:26-27, 84) belong to the ts-morph library. The model starts from the parsed tree and ends with the rewritten tree.
- The webpack `this.cacheable()` call (index.ts:23) is host-pipeline plumbing and has no effect on the result.
- Quoting and escaping by `CodeBlockWriter.quote`, and the exact whitespace of generated text (index.ts:4, 11, 17), are library behaviour. A written description is the abstract string literal `Str(d)`. `getText()` of a node is modelled only as far as the `()` test of index.ts:59 needs it.
- The numeric syntax kinds 193 (object literal) and 323 (syntax list) are constructors of `Node` and `Decorator`, not integers.
- The `return sourceFile.getFullText()` guards test arrays, which are never falsy, so they are not modelled: the one at index.ts:33 is in the loader's own body, and those at index.ts:37 and 42 are inside the class and member callbacks. The guard at index.ts:53 is modelled only for its `!description` half, for the same reason.
- In-place mutation of the tree (`replaceWithText`, `addChildText`, and the literal edits reached from a decorator) is modelled by building the rewritten tree as a value. A syntax tree has no sharing between nodes, so nothing is lost to aliasing. When the loader throws, ts-morph leaves a partly edited tree that is never printed; the model returns only the error. The in-place literal edit itself is modelled by `Literal.ObjectLiteralNode`.
- Classes nested inside namespaces, functions or other blocks are not visited. `getClasses()` at index.ts:32 returns only the file's top-level class declarations, and the model's `SourceFile` holds exactly those.
- Decorators with type arguments (`@Field<T>()`) are not modelled. In that shape, child index 2 of the call is the type-argument list, not the argument list. The model assumes a call's children are callee, `(`, argument list and `)`.
- Decorator expressions that are not calls are assumed to have no syntax list at child index 2, and so to throw at index.ts:66. They are also assumed not to have the text `()` across children 1 to 3.
- Tag comments that ts-morph returns as arrays of nodes instead of a string are not modelled. A comment is either a string or absent.
- Object-literal members are all modelled as named property assignments. Shorthand properties, spread elements and methods are not distinguished.
- Loader.RewriteIdempotentFile: assumes every object literal in a decorator has at most one `description` property. Without that, the source is not idempotent, since only the first `description` is replaced (`Scenarios.DuplicateDescriptionScenario`).
- Loader.ClassIdempotent, Loader.MemberIdempotent, Decorators.RewriteIdempotent, Literal.MergeIdempotent: make the same at-most-one-`description` assumption, for the same reason.
- Literal.OverrideResult, Decorators.RewriteWritesDescription: state "exactly one `description`" only for literals that had at most one before. `Literal.MergeCount` gives the count in general.
- JsDoc.BlockComment: its own contract only says that a block with no tags has an empty comment; that a non-empty comment needs a `typegraphql` tag is the lemma `JsDoc.CommentNeedsTag`, kept apart so that proofs about `Description` stay cheap.
