# custom-html-renderer, modelled in Dafny

`renderTemplate(html, data, removeJsAttributes)` (src/index.ts) renders an HTML template by
interpreting directive attributes on its elements. The pieces are:

- **Path resolver.** `getValueByPath` walks a dotted path through the data. A `global.`
  prefix escapes to the root data.
- **Condition evaluator.** `evaluateExpression` replaces every identifier-shaped token of a
  condition with the JSON text of the value it names, or with `false` when that value is
  undefined. The host runs the result, and an exception counts as false.
- **Three passes over the body, in this order:**
  1. `js-if` / `js-if-not` add or remove the `remove-it` class.
  2. `js-value` replaces an element's text.
  3. `js-each="x in path"` replaces the element by one clone per array item. Each clone gets
     the conditional and value passes with the item bound to `x`.
- **Finalizer.** It deletes marked elements and, when `removeJsAttributes` is set, strips the
  directive attributes.

index.js holds an older engine with the same resolver and evaluator. It differs in four ways:
- It uses `data-*` attributes.
- One `processElement(root, ctx)` runs value, if, if-not and each over the root's
  descendants only.
- Conditionals set the inline `display` instead of marking elements.
- Every clone of a `data-each` template goes through the whole of `processElement` with the
  extended context.

## How the model is built

- **Elements are values.** The DOM is the `Node` datatype in module `Dom`. Each element has:
  - a tag;
  - an attribute map;
  - a class list (a sequence; `classList.add` appends a missing token and `remove` drops every copy);
  - an inline display;
  - children.
- **Passes, twice.** Every pass is first a function on trees (`Directives`,
  `LegacyDirectives`). It is then written the way the source performs it, as recursive
  methods with `for` loops over a snapshot of the children (`DirectiveProcessor`,
  `LegacyProcessor`). Each method is proved to compute its function.
  - A pass that replaces an element returns the nodes left in its place: none, the element, or
    its clones.
  - A pass that can throw returns `None`.
- **Properties.** They are lemmas about the functions:
  - `DirectiveProperties`, `FinalizerProperties` and `LegacyProperties` hold the general ones.
  - `PathResolver` and `Expressions` hold those of the resolver and evaluator.
  - `Scenarios` and `NestedScenario` work out whole renders of small templates.
- **Host pieces are parameters.** A `Host` value carries the JavaScript behaviour the
  renderer relies on without defining it:
  - building and running `new Function(...)`, with `None` for an exception;
  - `JSON.stringify`;
  - the text `textContent = v` stores;
  - property access on values that are not plain data objects.

## Model

| member | source | states |
|---|---|---|
| JsValues.Get | src/index.ts:14 | `acc[part]` on a data object is its own property, and undefined when it has none |
| Strings.IndexOf | src/index.ts:84 | the index of the first occurrence, none before it, and no result exactly when the pattern does not occur |
| Strings.BeforeFirst | src/index.ts:84 | the first piece of a split on a string: a prefix free of the separator that ends at its first occurrence (no occurrence starts earlier), the whole string when it does not occur |
| Strings.FirstTwoPieces | src/index.ts:84 | the first two pieces of a split on " in ": neither contains the separator, the value starts with them joined, and the rest is empty or starts with the separator |
| Strings.ReplaceFirstOfPrefix | src/index.ts:11 | replacing the first `global.` by nothing in a path that starts with it strips exactly that prefix |
| Strings.Split | src/index.ts:14 | `split('.')` gives at least one piece, no piece contains a dot, and the pieces joined by dots are the path |
| Strings.SplitJoin | src/index.ts:14 | splitting the dot-join of dot-free pieces gives those pieces back |
| Strings.SplitOfSeparatorFree | src/index.ts:14 | a path without a dot is a single segment |
| PathResolver.FalsyAbsorbs | src/index.ts:14 | a falsy accumulator is returned unchanged, whatever segments follow |
| PathResolver.WalkAppend | src/index.ts:14 | walking two segment lists in a row is walking the second from where the first ended |
| PathResolver.FalsyShortCircuit | src/index.ts:14 | once the walk of a prefix of the segments is falsy, the whole path gives that same falsy value, not necessarily undefined (index.js:9 is the same reduce) |
| PathResolver.TruthyResultTruthyAllTheWay | src/index.ts:14 | a truthy result means every intermediate accumulator was truthy |
| PathResolver.MissingKeyIsUndefined | src/index.ts:14 | a first segment the object lacks makes the path undefined, however many segments follow |
| PathResolver.NestedObjects | src/index.ts:14 | when every segment names an own property of the data object reached so far, the walk ends at the value the last one holds, at any depth |
| PathResolver.NestedPath | src/index.ts:9-14 | the dot-join of such segments names that value: from the current context without the `global.` prefix, and from the root data behind it |
| PathResolver.GlobalEscape | src/index.ts:10-14 | a `global.` path ignores the current context and walks the rest of the path, split on dots, from the root data (index.js:5-8 has the same rule) |
| PathResolver.LocalPath | src/index.ts:9-14 | every other path is resolved against the current context alone, whatever the root data |
| Expressions.RunLength | src/index.ts:20 | the length of the longest prefix made of `[a-zA-Z0-9_.]`, so a match ends only where such a character does not follow |
| Expressions.TokenizeRoundTrip | src/index.ts:20 | the scan of the regular expression loses and reorders nothing: its pieces spell the expression |
| Expressions.TokenizeWellFormed | src/index.ts:20 | every token matches `[a-zA-Z_][a-zA-Z0-9_.]*` in full, every other character cannot start one, and no token could have been longer |
| Expressions.TokenizeUnique | src/index.ts:20 | the scan is the only well-formed split of an expression into pieces |
| Expressions.TokenizeAppend | src/index.ts:20 | a character that cannot continue an identifier closes every token: scanning both sides separately gives the scan of the whole |
| Expressions.SubstituteOfPieces | src/index.ts:20-23 | over any well-formed split, substitution replaces exactly the tokens and copies the other characters in order |
| Expressions.SubstituteAppend | src/index.ts:20-23 | substitution distributes over a boundary no token crosses |
| Expressions.SubstituteWithoutIdentifiers | src/index.ts:20-23 | an expression without identifier-start characters comes through unchanged |
| Expressions.SubstituteIdentifier | src/index.ts:20-23 | a whole identifier, dots included, becomes the JSON text of its value, or `false` when that value is undefined |
| Expressions.KeywordIsLookedUp | src/index.ts:20-22 | `true` is looked up like any token and becomes `false` when the data has no key "true" |
| Expressions.QuotedWordIsSubstituted | src/index.ts:20-22 | quotes do not protect a word: the word inside a string literal is replaced too |
| Dom.AddClass | src/index.ts:60 | the marker is present afterwards, other tokens are as before, and nothing changes when it was already there |
| Dom.RemoveClass | src/index.ts:58 | the marker is absent afterwards, other tokens are as before, and nothing changes when it was not there |
| Dom.SetTextContent | src/index.ts:42 | the element keeps tag, attributes, classes and display, its children are text only, and its text is the one assigned |
| Directives.Toggle | src/index.ts:57-61 | the marker is present exactly when the condition is false, other classes unchanged |
| Directives.AfterConditionals | src/index.ts:52-79 | only class lists change; an element is marked exactly as its js-if-not decides, else its js-if, else as before; other classes are kept |
| Directives.AfterValues | src/index.ts:36-50 | tag, attributes, classes and display are kept; a resolving js-value leaves only the value's text; otherwise the children are kept in number, text nodes unchanged; height never grows |
| Directives.ParseEach | src/index.ts:84 | no result exactly when the value lacks " in "; otherwise the first two pieces of the split: the item ends at the first " in ", the name ends at the next one or at the end, and neither contains " in " |
| DirectiveProcessor.ProcessConditionals | src/index.ts:52-79 | the recursive pass over a snapshot of the children computes AfterConditionals |
| DirectiveProcessor.ProcessDynamicValues | src/index.ts:36-50 | the recursive pass computes AfterValues, for js-value and, in the older engine, data-value |
| DirectiveProcessor.ProcessEachOverSnapshot | src/index.ts:107-110 | the loop over the children snapshot computes the concatenated replacements, failing at the first throw |
| DirectiveProcessor.CloneForEachItem | src/index.ts:88-95 | one clone per item in array order, each with conditionals then values in `{...currentData, [itemName]: item}` |
| DirectiveProcessor.ProcessEachElements | src/index.ts:82-111 | computes the repetition pass AfterEach |
| DirectiveProcessor.FinalizeNodes | src/index.ts:118-139 | computes the finalizer in either mode |
| DirectiveProcessor.RenderTemplate | src/index.ts:113-139 | the three passes in order on the body with the root data as both contexts, then the finalizer |
| DirectiveProperties.ThrowingIfHides | src/index.ts:18-28 | fail-closed: a js-if (without js-if-not) whose condition makes the host throw counts as false, so the conditional pass marks the element |
| DirectiveProperties.ThrowingIfNotShows | src/index.ts:18-28 | fail-closed: a js-if-not whose condition makes the host throw counts as false, so the element is left unmarked whatever its js-if and earlier classes |
| DirectiveProperties.ConditionalDuality | src/index.ts:54-73 | the same expression under js-if on one element and js-if-not on another marks exactly one of them |
| DirectiveProperties.SameButClassesHeight | src/index.ts:52-79 | the conditional pass keeps the height of the tree |
| DirectiveProperties.ConditionalFreeUnchanged | src/index.ts:52-79 | without js-if and js-if-not the conditional pass changes nothing, in any context |
| DirectiveProperties.PlaceholderSurvives | src/index.ts:38-44 | an element whose path is undefined keeps its placeholder text |
| DirectiveProperties.LoopVariableBound | src/index.ts:91 | in a clone's context the loop variable names the item, shadowing any binding of the same name |
| DirectiveProperties.GlobalAtEveryDepth | src/index.ts:91-93 | a clone's js-value with a `global.` path shows the root data's value whatever the item and the enclosing context, and keeps its children when that value is undefined |
| DirectiveProperties.EachFailsExactly | src/index.ts:84-85 | the repetition pass throws exactly when some element it reaches has a js-each without " in " |
| DirectiveProperties.EachChildrenFailExactly | src/index.ts:98-100 | the walk over siblings throws exactly when one of them holds such an element |
| DirectiveProperties.EachExpandsArray | src/index.ts:86-104 | an array gives exactly one clone per item, in array order, and nothing of the original, even for an empty array |
| DirectiveProperties.SingleItem | src/index.ts:89-95 | an array of one gives exactly the clone of its item |
| DirectiveProperties.CloneKeepsTemplateAttributes | src/index.ts:90-93 | a clone has the template's tag and attributes, js-each included, and is marked as the template's conditionals decide in the item's context |
| DirectiveProperties.EachKeepsNonArray | src/index.ts:107-110 | a path that is not an array leaves the element in place with its attributes and classes, and its children are walked |
| DirectiveProperties.NoSpaceNoSeparator | src/index.ts:84 | text without a space has no " in " |
| DirectiveProperties.ParseSimpleEach | src/index.ts:84 | `item in name` with space-free parts splits into exactly those parts |
| FinalizerProperties.FinalizeAppend | src/index.ts:121 | the finalizer of a concatenation is the concatenation of the finalizers |
| FinalizerProperties.FinalizeLeavesNoDirectives | src/index.ts:118-130 | with removeJsAttributes, no js-* attribute is left anywhere |
| FinalizerProperties.FinalizeLeavesNothingToDelete | src/index.ts:118-139 | in either mode the output holds nothing that mode deletes |
| FinalizerProperties.KeepingModeChangesNothingElse | src/index.ts:131-139 | without removeJsAttributes, a tree with nothing to delete comes out exactly as it went in, attributes and all |
| FinalizerProperties.FinalizeIdempotent | src/index.ts:118-139 | a second finalizer run changes nothing, in either mode |
| FinalizerProperties.FinalizeNodeIdempotent | src/index.ts:118-139 | the same for the nodes one element leaves |
| FinalizerProperties.ModesAgree | src/index.ts:118-139 | when every marked element with a directive has a conditional, the removing mode gives the keeping mode's output with directive attributes stripped |
| NestedEach.SameButClassesNoLoops | src/index.ts:52-79 | the conditional pass creates no js-each |
| NestedEach.ValuesKeepNoLoops | src/index.ts:36-50 | the value pass creates no js-each |
| NestedEach.CloneKeepsNoLoopsBelow | src/index.ts:90-93 | a template with no loop below it gives clones with no loop below them |
| NestedEach.LoopFreeUnchanged | src/index.ts:82-111 | without any js-each the repetition pass leaves the tree as it is |
| NestedEach.LoopFreeChildrenUnchanged | src/index.ts:107-110 | the same for a sequence of siblings |
| NestedEach.NestedLoopSurvives | src/index.ts:89-103 | as written: a js-each child of a template survives in every clone with its js-each unexpanded |
| NestedEach.CloneHeight | src/index.ts:90-93 | a clone is no higher than its template |
| NestedEach.LoopFreeUnchangedFixed | src/index.ts:82-111 | the corrected pass also leaves a tree without js-each as it is |
| NestedEach.LoopFreeChildrenUnchangedFixed | src/index.ts:107-110 | the same for siblings |
| NestedEach.FixedKeepsNonArrayLeaf | src/index.ts:86 | the corrected pass keeps a non-array js-each as it is |
| NestedEach.FixedSingleItem | src/index.ts:89-95 | the corrected pass over an array of one gives the expanded clone of its item |
| NestedEach.ExpandedCloneOfFlatTemplate | src/index.ts:90-93 | expanding the clone of a template with no loop below it gives the plain clone |
| NestedEach.ExpandedClonesOfFlatTemplate | src/index.ts:89-95 | expanding the clones of such a template gives the plain clones |
| NestedEach.FixedFlatTemplate | src/index.ts:86-104 | on such a template the corrected pass gives exactly the clones of the pass as written |
| NestedEach.FixedAgreesWithoutNesting | src/index.ts:82-111 | the correction changes nothing for a tree without nested loops |
| NestedEach.FixedChildrenAgreeWithoutNesting | src/index.ts:107-110 | the same for siblings |
| Scenarios.PlaceholderKept | src/index.ts:38-44 | `<h1 js-value="user.name">placeholder</h1>` rendered with empty data keeps "placeholder"; the removing finalizer drops the attribute |
| Scenarios.HeadingShowsName | src/index.ts:38-44 | the same heading with `{user: {name: "Ann"}}` shows "Ann" |
| Scenarios.TwoClones | src/index.ts:89-95 | an array of two gives exactly its two clones, in order |
| Scenarios.RowClone | src/index.ts:90-93 | the row clone for one user has a cell showing that user's name |
| Scenarios.RowPerUser | src/index.ts:113-130 | a `js-each="u in users"` row over two users renders two rows, "A" then "B", with no directive attribute left |
| NestedScenario.ItemsUnboundAtTop | src/index.ts:98-100 | at the top level the inner loop's path `g.items` is undefined |
| NestedScenario.ItemsInGroup | src/index.ts:91 | in the outer clone's context it resolves to the group's items |
| NestedScenario.OuterCloneIsTemplate | src/index.ts:91-93 | the outer clone is the template itself: no `x` is bound in it |
| NestedScenario.NestedLoopAsWritten | src/index.ts:89-103 | as written: the nested template renders as the unexpanded inner `li` |
| NestedScenario.InnerExpanded | src/index.ts:89-95 | in the group's context the inner loop expands to one `li` per number |
| NestedScenario.NestedLoopFixed | src/index.ts:89-110 | corrected: the inner loop is expanded inside the outer clone, with `li` texts "1" then "2" |
| LegacyDirectives.DisplayFor | index.js:43 | the display is "none" exactly when the element is not shown, and empty when it is |
| LegacyDirectives.AfterDisplay | index.js:40-51 | only displays change, height included; an element with the attribute shows exactly when its condition (negated for data-if-not) holds |
| LegacyDirectives.LegacyProcessed | index.js:31-69 | processElement never changes the root's own tag, attributes, classes or display: only its descendants are selected |
| LegacyProcessor.ApplyConditional | index.js:40-51 | the display pass over a subtree computes AfterDisplay |
| LegacyProcessor.ValuesOverList | index.js:33-37 | the data-value loop applies the value pass to every child subtree of the root |
| LegacyProcessor.DisplayOverList | index.js:40-51 | the data-if and data-if-not loops apply the display pass to every child subtree |
| LegacyProcessor.ProcessElement | index.js:31-69 | the four loops in order compute processElement |
| LegacyProcessor.ProcessEachOverList | index.js:54 | the data-each loop over siblings in document order computes their replacements, failing at the first throw |
| LegacyProcessor.ProcessEach | index.js:54-68 | computes the data-each step on one element |
| LegacyProcessor.CloneAndProcess | index.js:60-65 | processes one copy of the template per item, in array order, with the item bound |
| LegacyProcessor.RenderLegacyTemplate | index.js:72 | renders the body with the root data as both contexts |
| LegacyProperties.PreparedElement | index.js:33-51 | after the value and conditional passes an element keeps tag, attributes and classes; data-if-not decides its display when present (it runs last), else data-if, else it is unchanged |
| LegacyProperties.ThrowingDataIfHides | index.js:13-23 | fail-closed: a data-if (without data-if-not) whose condition makes the host throw hides the element, display "none" |
| LegacyProperties.ThrowingDataIfNotShows | index.js:13-23 | fail-closed: a data-if-not whose condition makes the host throw shows the element, display "", whatever its data-if |
| LegacyProperties.ConditionalsRemoveNothing | index.js:40-51 | the conditionals add, remove and move no node: they change displays only |
| LegacyProperties.ValuesKeepWellFormed | index.js:33-37 | the value pass creates no malformed data-each |
| LegacyProperties.LegacyEachFailsExactly | index.js:54-56 | the data-each step throws exactly when some element it reaches has a data-each without " in " |
| LegacyProperties.LegacyEachChildrenFailExactly | index.js:54 | the data-each loop over siblings throws exactly when one of them holds such an element |
| LegacyProperties.LegacyProcessedFails | index.js:31-69 | processElement throws exactly when its data-each list reaches a malformed data-each, and then the root's descendants held one |
| LegacyProperties.LegacyClonesSucceed | index.js:60-65 | with well-formed descendants, every clone is produced, and clone i is the template run through processElement with item i bound |
| LegacyProperties.LegacyEachExpandsArray | index.js:55-66 | an array gives one fully processed clone per item, in order; each keeps the template's tag, attributes and display, so its own data-each is not expanded again; nothing of the original is left, even for an empty array |
| LegacyProperties.LegacyEachKeepsNonArray | index.js:57 | a path that is not an array leaves the element in place, attribute and all, with its descendants processed |
| LegacyProperties.ProcessedOnlyChildLoop | index.js:54-65 | processElement on an element whose only child is a data-each over an array replaces that child by one copy per item |
| LegacyProperties.LegacyNestedLoopExpanded | index.js:54-63 | a data-each nested in a template is expanded in each clone, with the outer item bound, into one copy per inner item |

## Left out

- Parsing the HTML string and serialising the document (jsdom, src/index.ts:33-34 and 141, index.js:28-29 and 74). The model starts and ends with the body element as a tree.
- The `<head>` and `<html>` elements. The finalizer's document-wide query also reaches them, but directives are modelled in the body only.
- Comment nodes and other node kinds besides elements and text.
- In-place mutation. The DOM is modelled on values, so aliasing between nodes is not modelled. The source never shares a subtree, and each clone comes from a deep copy taken before anything changes.
- `async`/`await`. There is no real suspension point, and the passes are sequential.
- `console.error` (src/index.ts:26, index.js:21). It has no effect on the result.
- Floating-point numbers. Numbers are integers.
- JavaScript's own behaviour, which goes through the `Host` parameter:
  - `JSON.stringify`;
  - `String(...)` coercion in `textContent = value`;
  - `new Function(...)()`;
  - property access on values that are not plain data objects, such as a string's `length`.
- Properties inherited through prototypes, such as `toString` on a data object. A key a data object does not hold itself is undefined.
- `if (parent)` (src/index.ts:94). Every element the repetition pass reaches has a parent.
- The effect of the walks over detached trees on those trees. In src/index.ts the second walk over the removed original (lines 107-110 after line 103) cannot throw once the walk at lines 98-100 did not, so only the first walk is modelled. In index.js the data-each list still holds the removed template's descendants; their walk is modelled by its failure (`LegacyEach` runs `LegacyEachChildren` on the original after cloning), and what it changes inside the detached template is not, since nothing of it reaches the output.
- Dom.AddClass: does not normalise duplicate tokens. jsdom's `classList` is an ordered set, and its `add` and `remove` rewrite the class attribute without duplicates; the model keeps a duplicated token of the template's class attribute where the browser would drop it. `Hidden` and the finalizer depend only on whether the marker is present, which the model computes exactly.
- Dom.RemoveClass: the same; only the marker's presence is modelled exactly.
- dist/index.js. It is the compiled form of src/index.ts. dist/index.d.ts holds types only.
- test.js. It is a demo script that writes a file. Its nested row template is the basis of the finding below.

## Findings

| source | as written | input that shows it | evidently intended | confidence | as-written member | corrected member |
|---|---|---|---|---|---|---|
| src/index.ts:89-103 | A clone of a js-each template gets only the conditional and value passes (lines 92-93). The repetition pass walks a snapshot that excludes the clones (lines 107-110). The js-each elements it does expand inside the template (lines 98-100) are removed with it (line 103). So a js-each nested in a template is never expanded. | `<ul js-each="g in groups"><li js-each="x in g.items" js-value="x">?</li></ul>` with `{groups: [{items: [1, 2]}]}` renders one `li` showing "?". The order rows nested in the user rows of test.js:27-37 have the same shape. | Each clone's children also get the repetition pass, in the clone's context, as index.js:63 does. | not executed | NestedEach.NestedLoopSurvives, NestedScenario.NestedLoopAsWritten | NestedEach.AfterEachFixed, NestedEach.FixedAgreesWithoutNesting, NestedScenario.NestedLoopFixed |
