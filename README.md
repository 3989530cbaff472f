# Optviz remark normaliser and dashboard aggregation, in Dafny

Optviz is a VS Code extension that loads LLVM optimization-remark YAML files
and shows them in a dashboard. This project models two pieces of its logic:

- **The remark normaliser** (`parseLLVMRemarks`). It takes the documents the
  YAML loader produced; each document may be tagged `!Missed`, `!Passed` or
  `!Analysis`. It drops every document that lacks a truthy `Pass`,
  `Function` or `DebugLoc`. For each other document it builds one
  `OptimizationRemark`:
  - `RemarkType` comes from the tag or the body, defaulting to `Analysis`;
  - the message is the `Args` fragments joined by single spaces;
  - pass, function and location are copied across.

  The loop is the method `LLVMParser.ParseLLVMRemarks`. It is proved equal to
  the recursive specification `LLVMParser.Parse`. Lemmas then prove that
  `Parse` is an order-preserving filter-map over the kept documents, with
  errors only from kept documents.
- **The dashboard aggregation** (the loop in `ChartDashboard.show`). It
  builds `chartData`, a count per pass and remark type. It also builds
  `metricsData`, a per-function snapshot of the latest defined
  `instructionsCount` and `stackSize`. The loop is the method
  `ChartDashboard.Show`, which returns the message it posts. It is proved
  against the fold specifications `ChartOf` and `MetricsOf`. Those are tied
  by lemmas to independent definitions:
  - counts over the input;
  - "some remark has this pass";
  - the last remark that defines each field.

Modules: `Wrappers` (Option, Result), `Remarks` (the `OptimizationRemark`
record of `src/model/OptimizationRemark.ts`), `LLVMParser`,
`ChartDashboard`.

JavaScript semantics made explicit:
- Truthiness: a property is truthy when present and not the empty string.
- `remark.Args || []`: an absent or falsy `Args` gives the empty message.
- `args.map` throws a `TypeError` when `Args` is a truthy non-array. So does
  `arg.String` when an argument is `null`. Both are modelled as `Err`
  results, because the source raises them rather than skipping the document.
- The `RemarkType` cast is unchecked. A body `RemarkType` such as `"Foo"`
  reaches the output, so the output keeps `RemarkType` as a string.

Two facts about `parseLLVMRemarks` that the model keeps:
- It keeps no metrics state and never sets `metrics` on a remark.
- A document without `DebugLoc` is dropped, never given a default location;
  `File`, `Line` and `Column` are copied from `DebugLoc` as they are.

## Model

| member | source | states |
|---|---|---|
| `LLVMParser.LookupTag` | src/parser/llvmParser.ts:7-12 | a token finds a registered kind exactly when some kind in the list is registered under it, and the kind found carries that token |
| `LLVMParser.RegisteredTokens` | src/parser/llvmParser.ts:7-8 | exactly `!Missed`, `!Passed` and `!Analysis` are registered (case-sensitive), each for its own kind |
| `LLVMParser.ResolveTagToken` | src/parser/llvmParser.ts:7-8 | each kind's token `'!' + tag` resolves back to that kind |
| `LLVMParser.Construct` | src/parser/llvmParser.ts:10 | the tag's constructor returns the document with `RemarkType` set to the tag's name and `Pass`, `Function`, `DebugLoc` and `Args` kept (what this means for a whole document is stated by `TaggedDocument`) |
| `LLVMParser.ConstructOverrides` | src/parser/llvmParser.ts:10 | the tag constructor keeps all other body fields and overrides any earlier `RemarkType` |
| `LLVMParser.TaggedDocument` | src/parser/llvmParser.ts:10 | a tagged document is kept exactly when its body is, and yields the body's remark with the tag as `RemarkType`, whatever the body said |
| `LLVMParser.FragmentsOf` | src/parser/llvmParser.ts:28-31 | one fragment per argument, in order: a string gives itself, an object with a string `String` gives that, anything else gives its serialisation |
| `LLVMParser.Join` | src/parser/llvmParser.ts:32 | the joined text is as long as the fragments plus one separator between each neighbouring pair; no fragments give "" |
| `LLVMParser.SplitJoin` | src/parser/llvmParser.ts:32 | splitting the joined message at spaces recovers the fragments when none contains a space, so exactly one space separates them |
| `LLVMParser.JoinSlot` | src/parser/llvmParser.ts:32 | in the joined text, fragment k starts after the fragments before it and one separator for each of them, whatever the fragments contain |
| `LLVMParser.JoinSeparator` | src/parser/llvmParser.ts:32 | exactly one space follows every fragment but the last in the joined text, whatever the fragments contain |
| `LLVMParser.JoinIsLaidOut` | src/parser/llvmParser.ts:32 | the joined text has that layout: its length, every fragment at its offset, and a space after each but the last |
| `LLVMParser.LaidOutIsJoin` | src/parser/llvmParser.ts:32 | the layout fixes every character: the only text laid out from the fragments is their join |
| `LLVMParser.Message` | src/parser/llvmParser.ts:27-32 | builds the message from `Args`: "" when `Args` is absent or falsy, the `ArgsNotAList` error for a truthy non-array, the `NullArgument` error for a null argument, otherwise the fragments joined by spaces; it fails exactly in those two error cases (its layout is stated by `MessageShape`) |
| `LLVMParser.MessageShape` | src/parser/llvmParser.ts:27-32 | no `Args` gives ""; the message fails exactly for a non-list `Args` or a null argument; a single fragment gets no added space; otherwise the message is the fragments laid out with one space between neighbours (fragment k after the fragments before it and one space for each), and it splits back into the fragments when none contains a space |
| `LLVMParser.NormaliseDocument` | src/parser/llvmParser.ts:23-42 | a document is dropped exactly when it is null or lacks a truthy Pass, Function or DebugLoc; a kept one throws exactly when its message does; otherwise its type is the truthy body type or `Analysis`, Pass and Function are copied, File/Line/Column come from DebugLoc, and `metrics` is unset |
| `LLVMParser.Parse` | src/parser/llvmParser.ts:20-45 | the whole-list conversion, one document at a time: on success it has one remark per kept document and none carries `metrics` (order and errors are stated by `ParseIsFilterMap` and `ParseFailsAtFirstThrow`) |
| `LLVMParser.KeptIndices` | src/parser/llvmParser.ts:22-23 | the positions of the kept documents: strictly increasing, all kept, every kept position present, no more than there are documents |
| `LLVMParser.ParseIsFilterMap` | src/parser/llvmParser.ts:22-43 | on success the output has exactly one remark per kept document, in document order |
| `LLVMParser.ParseSucceedsWithoutThrow` | src/parser/llvmParser.ts:22-43 | on success no document threw; dropped documents never raise an error |
| `LLVMParser.ParseFailsAtFirstThrow` | src/parser/llvmParser.ts:28-32 | on failure the error is that of the first document whose message could not be built |
| `LLVMParser.ParseFailsIffSomeThrow` | src/parser/llvmParser.ts:22-43 | the parse fails exactly when some document's conversion throws |
| `LLVMParser.ParseErrorPersists` | src/parser/llvmParser.ts:28 | once a prefix throws, the whole parse throws the same error |
| `LLVMParser.ParsedRemarks` | src/parser/llvmParser.ts:34-42 | the output has at most as many remarks as there were documents, and none carries `metrics` |
| `LLVMParser.ParseLLVMRemarks` | src/parser/llvmParser.ts:16-46 | the loop with `continue` and `push` returns exactly the specified parse (or its error), with at most one remark per document and no metrics |
| `ChartDashboard.CountRemark` | src/views/chartDashboard.ts:44-46 | one loop step on `chartData`: the remark's pass gets a row if it had none, its (pass, type) count rises by one, every other count and every other row is unchanged (over a whole list this gives `ChartCounts` and `CountRemarkTotal`) |
| `ChartDashboard.RecordMetrics` | src/views/chartDashboard.ts:49-58 | one loop step on `metricsData`: a remark without `metrics` changes nothing; otherwise its function gets an entry if it had none, each defined field overwrites that field, an undefined one keeps the old value, and other functions are untouched (over a whole list this gives `MetricsSnapshot`) |
| `ChartDashboard.CountAppend` | src/views/chartDashboard.ts:46 | appending one remark raises only its own (pass, type) count, by one |
| `ChartDashboard.ChartCounts` | src/views/chartDashboard.ts:43-46 | every `chartData[p][t]` equals the number of remarks with pass p and type t; absent entries mean zero, present ones are positive |
| `ChartDashboard.ChartRows` | src/views/chartDashboard.ts:44 | `chartData` has a row for p exactly when some remark has pass p |
| `ChartDashboard.SumValuesRemove` | src/views/chartDashboard.ts:46 | removing a key removes exactly its count from a row's or chart's sum |
| `ChartDashboard.SumValuesUpdate` | src/views/chartDashboard.ts:46 | setting one entry changes the sum by the new value minus the old |
| `ChartDashboard.CountRemarkTotal` | src/views/chartDashboard.ts:43-46 | one loop step adds exactly one to the total of all counts |
| `ChartDashboard.ChartTotal` | src/views/chartDashboard.ts:39-46 | all counts in `chartData` add up to the number of remarks |
| `ChartDashboard.LastDefinedIsLastWriter` | src/views/chartDashboard.ts:53-58 | the reference "last defined value" is absent iff no remark for f defines the field, and otherwise comes from a remark after which none for f defines it |
| `ChartDashboard.MetricsSnapshot` | src/views/chartDashboard.ts:49-58 | `metricsData` has f exactly when some remark for f has a `metrics` object, even an empty one; `instructionsCount` and `stackSize` are each the last defined value for f, 0 included, independently |
| `ChartDashboard.RemarkWithoutMetrics` | src/views/chartDashboard.ts:49 | a remark without `metrics` leaves `metricsData` unchanged wherever it stands |
| `ChartDashboard.RecordMetricsAsWritten` | src/views/chartDashboard.ts:49-58 | the step as written, on the own entries and on the fields left on `Object.prototype`: no `metrics` changes nothing; `__proto__` leaves the entries alone and sets each field its metrics define on the prototype; another inherited name without an entry changes nothing; every other name leaves the prototype alone and takes the intended step on its metrics read through the prototype, which is exactly the intended step while the prototype is clean |
| `ChartDashboard.InheritedNameLosesMetrics` | src/views/chartDashboard.ts:50-52 | as written, a remark for a function named `toString` with metrics leaves no `metricsData` entry |
| `ChartDashboard.PrototypeLeaksMetrics` | src/views/chartDashboard.ts:50-57 | as written, `__proto__` with `{instructionsCount: 42}` followed by `foo` with `{stackSize: 8}` leaves no `__proto__` entry, leaves 42 on `Object.prototype` after the call, and gives `foo` the entry (42, 8), where the intended snapshot has `__proto__` (42, none) and `foo` (none, 8) |
| `ChartDashboard.PrototypeIsLastWrite` | src/views/chartDashboard.ts:50-57 | each field `Object.prototype` holds after the loop is the last value a `__proto__` remark defined for it, or else the one it held before the call |
| `ChartDashboard.AsWrittenAgreesOnOwnNames` | src/views/chartDashboard.ts:49-58 | from a clean prototype, an inherited name never gets an entry as written; and when no `__proto__` remark defines a field, the as-written entry of every other name equals the intended one |
| `ChartDashboard.Show` | src/views/chartDashboard.ts:35-66 | the loop's maps are the specified chart and snapshot, with the count, row, key and last-defined properties above; the posted remarks are the input unchanged |

## Findings

| source | as written | input that shows it | evidently intended | confidence | as-written member | corrected member |
|---|---|---|---|---|---|---|
| src/views/chartDashboard.ts:50-52 | `!metricsData[functionName]` on a plain `{}` also sees members inherited from `Object.prototype`. For `toString` and the other inherited methods no own entry is created, and the values are written onto the inherited method, which the posted message does not carry | one remark with `Function` `toString` and `metrics` `{instructionsCount: 42}` | an entry `toString: {instructionsCount: 42}` in `metricsData` | medium, not executed | `ChartDashboard.InheritedNameLosesMetrics` | `ChartDashboard.MetricsSnapshot` |
| src/views/chartDashboard.ts:50-57 | for a function named `__proto__`, `metricsData["__proto__"]` is `Object.prototype` itself, so no entry is created and the values are written onto `Object.prototype`. Every later `remark.metrics` object inherits them, so lines 53 and 56 read a missing field as defined and copy the value into that function's entry; the change also outlives the call | `[{Function: "__proto__", metrics: {instructionsCount: 42}}, {Function: "foo", metrics: {stackSize: 8}}]` gives `foo: {instructionsCount: 42, stackSize: 8}` | entries `__proto__: {instructionsCount: 42}` and `foo: {stackSize: 8}`, and `Object.prototype` untouched | medium, not executed | `ChartDashboard.PrototypeLeaksMetrics` | `ChartDashboard.MetricsSnapshot` |

The model's `Show` and `MetricsOf` use the intended behaviour. The
as-written step is `ChartDashboard.RecordMetricsAsWritten`. It carries the
two metrics fields of `Object.prototype` next to the own entries, starting
from whatever earlier calls left there.

## Left out

- Reading the file (`fs.readFileSync`) and YAML loading (`yaml.loadAll`,
  `yaml.Type`, `DEFAULT_SCHEMA.extend`) are foreign library calls. The
  loader's output is the input, a sequence of optional documents. The
  loader's own failures are not modelled, for example an unregistered tag
  or a tag on a non-mapping node.
- `JSON.stringify` in the message fallback is not computed. A non-string
  argument carries its serialisation as opaque text (`Arg.Value.serialised`).
- Document properties of other JavaScript types are not modelled. A numeric
  `Pass`, `Function` or `RemarkType` would be kept and copied as a number;
  the model's document properties are strings.
- A `DebugLoc` that is truthy but not a mapping, or that lacks `File`, `Line`
  or `Column`, is not modelled. The source would copy `undefined`; the
  model's `DebugLoc` has all three.
- `Line`, `Column`, the counts and the metrics values are unbounded integers.
  Non-integer JavaScript numbers and the 2^53 limit are not modelled.
- A metrics field set to `null` is not modelled. The source treats it as
  defined, since `null !== undefined`.
- ChartDashboard.Show: does not model `chartData` keys that collide with
  inherited `Object.prototype` members, including `instructionsCount` and
  `stackSize` once a `__proto__` remark has set them. Such a pass or remark
  type name is mishandled by the same mechanism as in the findings above.
  LLVM pass names and the three remark types never collide, so `Show` uses
  ordinary map semantics for `chartData`.
- ChartDashboard.RecordMetricsAsWritten: treats a function named
  `instructionsCount` or `stackSize` as an own name, even after a
  `__proto__` remark has set that field to a non-zero number. The source
  then finds the inherited number, creates no entry, and assigns a
  property to a number, which throws or is ignored depending on strict
  mode.
- ChartDashboard.AsWrittenAgreesOnOwnNames: states agreement only for a call
  that starts with a clean prototype and has no `__proto__` remark that
  defines a field. Otherwise entries can differ, as
  `PrototypeLeaksMetrics` shows; the prototype itself is stated by
  `PrototypeIsLastWrite`, but there is no closed form for each entry.
- The webview panel is UI and is not modelled: creating, revealing and
  disposing it, the static singleton, loading its HTML, and delivering
  `postMessage`. The posted message is the method's result.
- `src/extension.ts` is not part of this model: command registration, the
  file picker, progress UI, timing and memory logging, and the global cache.
  The other parser entry point it calls, `parseLLVMRemarksStream`, is outside
  the model as well.
