# figma-node-serializer, modelled in Dafny

The plugin turns a Figma scene node into a plain JSON-like record (`serializeNode`) and
rebuilds a node from such a record (`deserializeNode`). It also provides a small tree walker
(`walk`, `asyncWalk`). This project models the plugin's core and proves what the code
promises about it:

- `host.dfy` (module `Host`) holds the data model.
  - A JavaScript value as a property getter returns it.
  - A live node as the plugin sees it through its prototype's property descriptors.
  - The serialized record.
  - The node the deserializer builds, described by the setter, resize and `appendChild`
    calls made on it.
  - The host's factories, font loader and component importer, gathered as oracles in
    `Figma`.
- `common.dfy` (module `Common`) holds the exclusion tables, the factory type tables and
  `mainNodeId`, including the exact behaviour of its regular expression.
- `serialize.dfy` (module `Serialize`) models `serializeNode`:
  - the fixed fields;
  - the reflective getter loop, including symbol deletion;
  - `_componentKey`;
  - the `_fonts` set, built the corrected way that skips fonts without a JSON text (see
    "## Findings"; the code as written throws on mixed-font text);
  - concise mode;
  - recursion over children.

  Each loop is a method proved equal to a specification function. Lemmas about those
  functions state what the record contains.
- `deserialize.dfy` (module `Deserialize`) models:
  - `gatherFonts` and `gatherComponentKeys`;
  - the `setProperties` write plan and its ordering by `sortPropsForSet`;
  - the `deserializeInner` dispatch;
  - `deserializeChildren`;
  - instance overrides;
  - `deserializeNode` with its font and component requests;
  - the round trip: serializing a tree of directly created nodes and deserializing the
    record keeps its type tags, child counts and order, and its dimensions whenever the
    deserializer resizes.
- `walk.dfy` (module `Walk`) models `walk` and `asyncWalk` as methods that record the
  callback calls they make. It proves:
  - pre-order;
  - pruning at `skipChildren`;
  - context threading;
  - complete coverage;
  - that `asyncWalk` makes the same calls as `walk` and finishes each subtree before starting
    the next.

Host behaviour enters only as parameters:

- the property descriptors of a node's prototype;
- the values its getters return;
- the node each factory returns;
- the fonts that can be loaded;
- the components that can be imported.

## Model

| member | source | states |
|---|---|---|
| Common.Without | src/serialization/serialize.ts:21-23 | the kept descriptors are exactly those whose name is not in the excluded set |
| Common.MainNodeId | src/serialization/common.ts:67-69 | the result is a suffix of the id. The removed prefix is empty or ends in `;` within the first line, and no `;` of the first line lies after it, which is the greedy match of `/^.*;/` |
| Common.MainNodeIdExample | src/serialization/common.ts:58-69 | the documented id `I4:1229;0:5435` maps to `0:5435` |
| Common.MainNodeIdWithoutSeparator | src/serialization/common.ts:67-69 | an id without `;` is returned unchanged |
| Common.MainNodeIdHasNoSeparator | src/serialization/common.ts:67-69 | for a single-line id the result contains no `;` |
| Common.MainNodeIdIdempotent | src/serialization/common.ts:67-69 | applying mainNodeId twice equals applying it once |
| Common.GroupSkipsWithinInstanceSkips | src/serialization/common.ts:20-32 | every group-skipped property is also skipped inside instances |
| Common.FactoryTypesExcludeSpecialTypes | src/serialization/common.ts:34-45 | no factory type is GROUP, BOOLEAN_OPERATION or INSTANCE, so the deserializer's branches never overlap |
| Common.HandledFieldsAreSkipped | src/serialization/common.ts:5-15 | `type`, `children`, `width`, `height` and `_fonts` are all excluded from reflection |
| Serialize.Dedup | src/serialization/serialize.ts:48-53 | a Set's contents: the same members as the input, with no duplicates |
| Serialize.DedupKeepsFirst | src/serialization/serialize.ts:48-53 | the first value added to a Set stays first |
| Serialize.DedupFirstSeenOrder | src/serialization/serialize.ts:48-53 | a Set lists its members in the order of their first insertion |
| Serialize.FontsAsWritten | src/serialization/serialize.ts:47-54 | the code as written throws exactly when one of the font texts is `undefined` |
| Serialize.MixedFontsThrowAsWritten | src/serialization/serialize.ts:47-54 | a text node whose `fontName` is the mixed symbol makes the code as written throw a SyntaxError |
| Serialize.CollectFonts | src/serialization/serialize.ts:47-54 | the loop over character indexes computes the `_fonts` list `Fonts` |
| Serialize.FontsAreParsedTexts | src/serialization/serialize.ts:53 | each entry of `_fonts` is the parse of the deduplicated JSON text at the same position |
| Serialize.FontsMembers | src/serialization/serialize.ts:47-54 | a font is listed iff it is `fontName` or the font of some character, and it has a JSON text |
| Serialize.FontsDistinct | src/serialization/serialize.ts:48-53 | `_fonts` has no two equal entries, so no two entries share a JSON text |
| Serialize.FontsLeadWithFontName | src/serialization/serialize.ts:48 | when `fontName` has a JSON text, it is the first entry |
| Serialize.FontsFirstSeenOrder | src/serialization/serialize.ts:48-53 | entries appear in the order their texts were first produced |
| Serialize.ReflectProps | src/serialization/serialize.ts:32-41 | the loop over the descriptors builds the specified map `Reflect` |
| Serialize.ReflectContents | src/serialization/serialize.ts:25-41 | a key is present iff its getter's value is not a symbol (for readable names) or it is a fixed field. A present key holds the getter's value, or else the fixed value |
| Serialize.DropDefaults | src/serialization/serialize.ts:61-68 | the concise loop deletes exactly the names `ConciseDrops` selects |
| Serialize.SerializeNode | src/serialization/serialize.ts:18-79 | the method returns the record the specification function `Serialize` describes, whose `_fonts` comes from the corrected `CollectFonts` rather than the as-written code that throws on mixed-font text |
| Serialize.SerializeChildList | src/serialization/serialize.ts:74-76 | the loop over the child nodes returns `RecordChildren`: one record per child, in order, or no `children` key for a node without children |
| Serialize.ReadableMeansVisited | src/serialization/serialize.ts:21-35 | a name is reflected iff its prototype has a getter for it and it is not excluded |
| Serialize.SerializeFixedFields | src/serialization/serialize.ts:25-30 | `type`, `width` and `height` always hold the node's own values. `id` is mainNodeId of the node's id unless the prototype has a readable `id` |
| Serialize.SerializeReflectedFields | src/serialization/serialize.ts:32-41 | without concise mode, a key is present iff its getter's value is not a symbol (or it is a fixed field), with the getter's value |
| Serialize.SerializeSkipsExcluded | src/serialization/serialize.ts:21-23 | no excluded name other than the fixed fields is ever a key of the record |
| Serialize.SerializeComponentKey | src/serialization/serialize.ts:43-45 | `_componentKey` is present iff the node has `mainComponent`, and then it holds the key, or `undefined` for a null component |
| Serialize.SerializeConcise | src/serialization/serialize.ts:56-72 | types without a factory are unchanged. For a factory type, a reflected name other than `id` and `type` is deleted iff its JSON text equals the default node's. Kept values are unchanged |
| Serialize.SerializeFonts | src/serialization/serialize.ts:47-54 | `_fonts` is present iff the node answers ranged font queries, and then equals `Fonts` |
| Serialize.SerializeChildren | src/serialization/serialize.ts:74-76 | `children` is present iff the node has children. It has the same length and order, and each child is serialized with the same concise flag |
| Deserialize.LocaleCompare | src/serialization/deserialize.ts:209 | the name comparison returns -1, 0 or 1, and 0 exactly for equal names |
| Deserialize.LocaleCompareAntisymmetric | src/serialization/deserialize.ts:209 | swapping the arguments negates the comparison |
| Deserialize.LocaleCompareTransitive | src/serialization/deserialize.ts:209 | the comparison is transitive |
| Deserialize.SetsBeforeTotal | src/serialization/deserialize.ts:206-210 | any two descriptors are ordered one way or the other |
| Deserialize.SetsBeforeTransitive | src/serialization/deserialize.ts:206-210 | the order sortPropsForSet induces is transitive |
| Deserialize.SortForSet | src/serialization/deserialize.ts:171-174 | sorting keeps the same descriptors, as a multiset |
| Deserialize.SortForSetSorted | src/serialization/deserialize.ts:171-174 | the sorted list is ordered by sortPropsForSet |
| Deserialize.WithoutSorted | src/serialization/deserialize.ts:175-180 | filtering the sorted list keeps it sorted |
| Deserialize.SetProperties | src/serialization/deserialize.ts:170-196 | the method makes exactly the calls of the plan `Plan`, in order |
| Deserialize.PlanWrites | src/serialization/deserialize.ts:170-191 | a property is written, with the record's value, iff all of the following hold: it is a record key with a setter; it is not excluded; it is not instance-skipped in an instance; it is not group-skipped on a group or boolean operation; it is not `layoutAlign` set to `CENTER` |
| Deserialize.PlanOrder | src/serialization/deserialize.ts:170-210 | `fontName` is written before every other property, and the rest in ascending name order. The resize is the last call and happens iff the node can resize and the width and height are truthy |
| Deserialize.FontsInTree | src/serialization/deserialize.ts:33-51 | gathered font texts are exactly the JSON texts of the `_fonts` entries of some node of the record tree |
| Deserialize.KeysInTree | src/serialization/deserialize.ts:56-72 | gathered keys are exactly the `_componentKey` values of some node of the tree |
| Deserialize.GatherFonts | src/serialization/deserialize.ts:33-51 | the loops compute the gathered font set `FontsIn` |
| Deserialize.GatherComponentKeys | src/serialization/deserialize.ts:56-72 | the loops compute the gathered key set `KeysIn` |
| Deserialize.CollectFailure | src/serialization/deserialize.ts:138-140 | children fail iff one child fails, and then with the first failure in child order |
| Deserialize.CollectNodes | src/serialization/deserialize.ts:138-140 | when no child fails, the result is exactly the non-null child nodes in their original order |
| Deserialize.FindChild | src/serialization/deserialize.ts:158 | the first child whose mainNodeId equals the record's `id`, or none when no child matches |
| Deserialize.RoutedMembers | src/serialization/deserialize.ts:156-163 | the records applied to a child node are exactly the child records whose `id` finds that node |
| Deserialize.InstanceChildRouting | src/serialization/deserialize.ts:155-163 | a child record is applied to child j iff its `id` equals j's mainNodeId and no earlier child matches. A record matching no child has no effect |
| Deserialize.OverridesShape | src/serialization/deserialize.ts:150-164 | `Overrides`, the model of deserializeInstanceOverrides: the overridden instance keeps the imported tree's shape: the same type, children exactly when the imported node has them and as many, and only setter calls and resizes on the node, never an append. The root receives the plans with `isInInstance` false, and each child record is applied with `isInInstance` true to the first immediate child whose main id equals the record's `id` (Deserialize.InstanceRoot, Deserialize.InstanceChildRouting) |
| Deserialize.InstanceRoot | src/serialization/deserialize.ts:126 | the instance root is written with `isInInstance` false, and no node below it writes an instance-skipped property |
| Deserialize.OverridesSkipInstanceProps | src/serialization/deserialize.ts:150-163 | below the root, overrides never write an instance-skipped or excluded property |
| Deserialize.PlanInInstanceAvoids | src/serialization/deserialize.ts:175-177 | with `isInInstance` set, no instance-skipped or excluded property is written |
| Deserialize.InnerFactory | src/serialization/deserialize.ts:82-91 | a factory type is created by its factory and receives the planned writes. If it holds children, one append per non-null child follows. It fails only when a child fails. A node that cannot hold children receives exactly the plan and has no children |
| Deserialize.InnerGroup | src/serialization/deserialize.ts:93-113 | a group or boolean operation is built from its non-null children. It fails iff a child fails or the boolean operation has no factory. On success it is the node `figma.group` or the operation's factory returns, and its calls are exactly setProperties' plan with `isInInstance` false |
| Deserialize.PlansOfEvents | src/serialization/deserialize.ts:155 | applying records through setProperties only sets properties and resizes the node |
| Deserialize.GroupSkipsGroupProps | src/serialization/deserialize.ts:96-112 | a rebuilt group or boolean operation never receives a property excluded on groups |
| Deserialize.InnerInstance | src/serialization/deserialize.ts:115-127 | an instance is null iff its key cannot be imported, and otherwise the imported component with its overrides applied |
| Deserialize.InnerUnknown | src/serialization/deserialize.ts:129-132 | any other type tag yields null |
| Deserialize.DeserializeInner | src/serialization/deserialize.ts:75-133 | the method returns the node, null or failure the specification function `Inner` describes |
| Deserialize.DeserializeChildren | src/serialization/deserialize.ts:138-140 | the method returns `ChildrenOf`, the collected child results |
| Deserialize.KeepNodes | src/serialization/deserialize.ts:140 | the filtering pass over the awaited results returns `Collect`: the first failure, or the non-null nodes |
| Deserialize.InnerFailsOnlyOnUnknownOp | src/serialization/deserialize.ts:75-133 | given host factories, property setters and other host calls that never throw, deserializeInner can fail only on a boolean operation without a factory |
| Deserialize.DeserializeNode | src/serialization/deserialize.ts:16-28 | the method's result is `Deserialize`. It requests every gathered font and component key, and nothing when a font text does not parse |
| Deserialize.DeserializeOutcome | src/serialization/deserialize.ts:16-28 | a SyntaxError is thrown iff some node lists a font without a JSON text. Otherwise a font failure occurs iff some listed font cannot be loaded. Otherwise the result is deserializeInner's |
| Deserialize.SerializedFontsParse | src/serialization/deserialize.ts:18-21 | the records the serializer produces never make font parsing throw |
| Deserialize.PlanResizes | src/serialization/deserialize.ts:193-195 | setProperties resizes only to the record's width and height, and does so iff the node can be resized and both values are truthy |
| Deserialize.CollectAllNodes | src/serialization/deserialize.ts:138-140 | when every child yields a node, the children are exactly those nodes, in order |
| Deserialize.RecordRebuilds | src/serialization/deserialize.ts:81-91 | a record holding a node's type, width and height, whose child records rebuild the node's children one for one, rebuilds the node: same type, resized to its dimensions iff resizable and both truthy, same children in order |
| Deserialize.RoundTripShape | src/serialization/deserialize.ts:81-91 | for a tree whose every node has a factory making a node of its own type, deserializing the serialized record gives a tree with the same type tags, the same dimensions whenever it is resized, and the same child counts and order at every level |
| Deserialize.ZeroDimensionNotRestored | src/serialization/deserialize.ts:193-195 | after the round trip, a node whose width or height is zero is never resized, so it keeps its factory's default size |
| Walk.Walk | src/util/walk.ts:3-13 | the method makes the calls of `Trace`, in order |
| Walk.TraceBelow | src/util/walk.ts:8-11 | every call is on the node its path leads to, below the starting path |
| Walk.TraceInPreOrder | src/util/walk.ts:3-13 | the calls are in pre-order of their paths |
| Walk.WalkOrder | src/util/walk.ts:3-13 | call a precedes call b iff a's path precedes b's in pre-order. So a node precedes its descendants, earlier children's subtrees precede later ones, and no node is called twice |
| Walk.SiblingSubtreesBefore | src/util/walk.ts:8-11 | in the pre-order on paths, any path through an earlier child of a node precedes any path through a later child |
| Walk.WalkSiblingSubtrees | src/util/walk.ts:8-11 | in a walk, every call reached through an earlier child of a node is made before every call reached through a later child |
| Walk.WalkVisits | src/util/walk.ts:3-13 | each call is on the node at its path. When no call returns `skipChildren`, every node of the tree is called |
| Walk.TraceComplete | src/util/walk.ts:3-13 | when no call returns `skipChildren`, every valid path below the start is called |
| Walk.TraceThreadsContext | src/util/walk.ts:4-11 | every call below the start received the context its parent's call returned |
| Walk.WalkContexts | src/util/walk.ts:3-11 | the first call is the root's with the initial context. Every later call is on a child of an earlier call's node, with the context returned there |
| Walk.TraceSkipPrunes | src/util/walk.ts:5-7 | nothing below a node whose callback returned `skipChildren` is called |
| Walk.WalkSkips | src/util/walk.ts:5-7 | the same, for the calls of a walk from the root |
| Walk.AsyncWalk | src/util/walk.ts:15-25 | the method produces the events and outcome of `AsyncTrace` |
| Walk.AsyncTraceStarts | src/util/walk.ts:15-25 | asyncWalk makes walk's calls in walk's order, up to and including the first rejected call, and all of them when none rejects. A call is rejected iff it is the last call of a rejected walk |
| Walk.AsyncTraceNested | src/util/walk.ts:15-25 | before a node that is not below an earlier one is called, the earlier node's walk has finished. Nothing at or below a finished node is called later. In a resolved walk every started node finishes |

## Left out

- Concurrency is not modelled: every `await` and `Promise.all` runs sequentially, including
  the un-awaited `deserializeInstanceOverrides` call at
  src/serialization/deserialize.ts:126. A rejected font load is one `FontUnavailable` result
  for the whole call. A rejected component import is caught and has no effect.
- The host API is a set of oracles, not real behaviour. This covers the `figma.create*`
  factories, `figma.group`, the boolean-operation factories, `loadFontAsync`,
  `importComponentByKeyAsync`, `createInstance`, `findChild`, `appendChild`, `remove`,
  `resizeWithoutConstraints`, and the property setter assignments of `setProperties`
  (src/serialization/deserialize.ts:170-196). None of these calls throws in the model,
  although the host may reject a value a setter is given. `figma.group` is assumed to
  accept any list of children, the empty list included.
- Runtime reflection through `Object.getOwnPropertyDescriptors(node.__proto__)` is a given
  list of (name, has getter, has setter) per prototype. Names inherited through the
  prototype chain, such as a `type` tag named `constructor` indexing `FACTORIES`, are not
  modelled.
- Node mutation is modelled on values. Each built node carries the log of calls made on it.
  The global interleaving of calls across different nodes, and aliasing between nodes, are
  not modelled.
- `JSON.stringify`/`JSON.parse` are an injective encoding: `undefined` and symbols have no
  text, and any other value's text determines it. Exact JSON formatting, key order and the
  loss of `undefined` entries inside arrays and objects are not modelled. A JavaScript
  `Set` of strings is modelled as deduplication on these texts.
- `localeCompare` collation is modelled as a code-point lexicographic order. The two orders
  differ on mixed-case property names: code points put `strokeWeight` before `strokes`
  (`W` precedes `s`), while the host's `localeCompare` puts `strokes` first. So the
  "ascending name order" of Deserialize.PlanOrder is not the host's write order for such
  pairs.
- Numbers are opaque integers. NaN, floating point and the numeric meaning of
  `width`/`height` are not modelled; the resize test is JavaScript truthiness on these
  values.
- Property-key coercion is not modelled: a `type` or `booleanOperation` value that is not a
  string is treated as matching no factory.
- Key insertion order of the serialized object is not modelled: a record's fields are a
  finite map.
- The order of children inside a built group or boolean operation is taken as the order
  of the list passed to the factory; the host's real group ordering is documented as
  inaccurate.
- `console.warn` messages and `emptyNode.remove()` (src/serialization/serialize.ts:70) have no
  observable effect in this model.
- src/main.ts (selection handling, timing, notifications, placement) is not part of this
  model, nor is the commented-out group strategy at src/serialization/deserialize.ts:104-109.
- Common.MainNodeIdHasNoSeparator: holds only for ids without a line terminator, because the
  regular expression's `.` does not match one, so a `;` on a later line survives.
- Serialize.SerializeComponentKey: requires that the prototype not have a readable property
  named `_componentKey`, which would otherwise be overwritten by the explicit assignment.
- Deserialize.RoundTripShape: promises the dimensions only when the deserializer resizes.
  The resize at src/serialization/deserialize.ts:193 needs both width and height to be
  truthy, so a node with a zero dimension keeps its factory's default size. Every line has
  height 0, so a line's width is not restored (Deserialize.ZeroDimensionNotRestored).
  Whether a zero-sized resize was meant to be skipped depends on the host, so this is not
  claimed as a finding.
- Serialize.SerializeFixedFields: promises the main-node `id` only when the prototype has
  no readable `id` property. The code assumes the host's prototypes never declare one: if
  one did, the reflective loop would overwrite the fixed `id` with the raw getter value
  (Serialize.SerializeReflectedFields states this), an instance child's composite id
  `I4:1229;0:5435` would then stay composite, and override matching at
  src/serialization/deserialize.ts:158, which compares with the child's main-node id,
  would route none of that record's overrides.
- Walk.Walk: the callback is a pure function of the node and the context. A callback that
  throws, whose result depends on earlier calls (a counter, an accumulator), or that
  changes `node.children` while the loop runs over them is not modelled.
- Walk.AsyncWalk: the async callback is likewise a pure function. Its failure is modelled:
  a rejected promise, and a synchronous throw, which inside the async function also
  rejects. A result that depends on earlier calls, or a callback that changes
  `node.children`, is not modelled.
- Serialize.SerializeConcise: states which names one concise pass omits, not that
  serializing concisely, deserializing and serializing concisely again omits the same set.
  That second half is not modelled, because a rebuilt node is the log of calls made on it
  and the model does not say what the host's getters return after its setters run. It
  also fails for the code as written in two cases. A read-only property whose value
  differs from the default node's is kept in the first record but never written back, so
  the rebuilt node reads the default and the second pass omits it. And `layoutAlign:
  'CENTER'` is kept by the serializer but skipped at
  src/serialization/deserialize.ts:184 (Deserialize.PlanWrites), with the same effect.
- Serialize.SerializeReflectedFields: is stated without concise mode and for names other
  than `_componentKey`; concise mode is covered by Serialize.SerializeConcise.

## Findings

| source | as written | input that shows it | evidently intended | confidence | as-written member | corrected member |
|---|---|---|---|---|---|---|
| src/serialization/serialize.ts:47-54 | every font, including a `fontName` of `figma.mixed`, is passed through `JSON.stringify`, and each resulting string goes through `JSON.parse` | a text node whose characters use two fonts: `fontName` is the mixed symbol, `JSON.stringify` returns `undefined`, and `JSON.parse(undefined)` throws a SyntaxError, so serializing the node fails | `_fonts` lists the distinct fonts that have a JSON text, in first-seen order, `fontName` first when it is a single font | not executed | Serialize.MixedFontsThrowAsWritten | Serialize.CollectFonts |
