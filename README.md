# Dependency analyzer: two-pass call classification

This project models the core of a small static dependency analyzer for Maven
projects written in Java. Given the project's source files, the analyzer prints, for
every method and constructor, the methods it calls. It marks each call as
internal ("(Interna)") or external ("(Externa)").

The analysis works in two passes over the files:

1. **Registry.** The first pass collects the simple name of every class and
   interface declared anywhere, at any nesting depth, into one set.
2. **Extraction.** The second pass visits every method and constructor. It
   renders the callable's signature: the enclosing class name (or
   `UnknownClass`), a dot, the callable's name and a parameter list. The
   parameter list is `(...)`, or the declared types separated by `", "` when
   parameters are shown. Each call found in the body is then classified with
   a heuristic. An unqualified call is internal. A qualified call is internal
   exactly when the literal text of its receiver is a registered name.

Modules, leaf first:

- `Optional` (optional.dfy): the option type.
- `SourceModel` (source_model.dfy): the parsed input. A file's parse result
  (`None` when parsing failed) holds class and interface declarations as
  trees, and methods and constructors in declaration order. Each callable has
  its kind, name, parameters, enclosing class name and the calls in its body.
- `Text` (text.dfy): joining with `", "`, splitting it back, first and last
  index of a character.
- `SymbolRegistry` (symbol_registry.dfy): the first pass.
- `CallClassifier` (call_classifier.dfy): the classification rule and the
  callee text.
- `Signatures` (signatures.dfy): the parameter list and the signature.
- `DependencyExtractor` (dependency_extractor.dfy): the visit of one callable
  and of one file.
- `AnalysisReport` (analysis_report.dfy): the second pass over all files and
  the two passes together.

The printed lines become values. A `DependencyRecord` holds a signature and
its classified callees. A `FileReport` holds a file name and its records.
The report is the list of file reports.

The source keeps the registry and the parameter flag in static fields. The
model passes them as values. `BuildRegistry` still builds the set by adding
one name at a time in nested loops, starting from the set it is given.

Points of the code's behaviour that the model keeps as they are:

- Only class and interface declarations are registered (App.java, line 66);
  enums, records and annotation types are not.
- A file whose parse fails is skipped in both passes; its header (line 83) is
  never printed.
- An explicit `this.run()` or `super.run()` has a receiver, `this` or
  `super`, so it takes the qualified branch (lines 126-132). No type can be
  named `this` or `super`, so such a call comes out external, although the
  comment at line 134 counts `this` among the internal cases.

## Model

| member | source | states |
|---|---|---|
| `SymbolRegistry.BuildRegistry` | src/main/java/com/example/App.java:62-75 | The registry after the first pass is the starting set plus every class and interface name declared in every file that parsed. Files that failed to parse add nothing. Names are only ever added. |
| `SymbolRegistry.FindAllIsComplete` | src/main/java/com/example/App.java:66-68 | The tree search lists a name exactly when some declaration at some nesting depth has it. This is checked against an independent existential definition. |
| `SymbolRegistry.RegistryMembership` | src/main/java/com/example/App.java:63-68 | A name is registered if and only if some file that parsed declares it, at any depth. |
| `SymbolRegistry.RegistryIgnoresOrderAndRepetition` | src/main/java/com/example/App.java:25 | Because the registry is a set, two file lists with the same files give the same registry, whatever their order and repetitions. |
| `SymbolRegistry.RegistryOfConcat` | src/main/java/com/example/App.java:63-68 | The registry of two groups of files is the union of their registries. |
| `Text.SplitJoin` | src/main/java/com/example/App.java:174-178 | Splitting the `", "`-joined list gives back exactly the items, provided none is empty or contains a comma. |
| `Signatures.ParametersString` | src/main/java/com/example/App.java:169-182 | The string-builder loop produces the parameter list: `(...)` when parameters are hidden, otherwise the declared types joined by `", "` inside parentheses. |
| `Signatures.ParametersTextShape` | src/main/java/com/example/App.java:170-181 | Hidden parameters always render as `(...)`. Shown parameters render inside parentheses, as `()` exactly when there are none. Splitting what is inside gives the declared types in order: no names and no trailing separator. |
| `Signatures.SignatureRoundTrip` | src/main/java/com/example/App.java:114-117 | The signature starts with the enclosing class name, or `UnknownClass` when there is none, followed by a dot. The callable's name and, when shown, the parameter types can be read back from it. |
| `Signatures.ExampleSignatures` | src/main/java/com/example/App.java:145-148 | For `foo(int x, String y)` in `Foo`, the signatures are `Foo.foo(int, String)` when typed and `Foo.foo(...)` when compact. Without an enclosing class the name is `UnknownClass.foo(...)`. |
| `CallClassifier.UnqualifiedCallIsInternal` | src/main/java/com/example/App.java:133-136 | A call without a receiver is internal under every registry, the empty one included. Its callee text is the bare method name. |
| `CallClassifier.QualifiedCallIsInternalIffRegistered` | src/main/java/com/example/App.java:126-132 | A call with a receiver is internal if and only if the receiver's literal text is registered. Otherwise it is external. |
| `CallClassifier.ThisCallIsExternal` | src/main/java/com/example/App.java:126-134 | An explicit `this.run()` has the receiver text `this`; unless `this` is registered, which no type name can be, it is classified external, with the callee text `this.run`. |
| `CallClassifier.ClassifyFlip` | src/main/java/com/example/App.java:155-161 | Adding or removing one registry name changes the classification of exactly the calls whose receiver text is that name. It never changes the callee text. |
| `CallClassifier.ClassifyMonotone` | src/main/java/com/example/App.java:128 | Registering more names never turns an internal call external. |
| `CallClassifier.DescribeRoundTrip` | src/main/java/com/example/App.java:121 | The callee text is `receiver.name`, or `name` alone without a receiver. Receiver and name can be read back from it when the method name contains no dot. |
| `DependencyExtractor.VisitCallable` | src/main/java/com/example/App.java:112-140 | Visiting a method or constructor gives its record: the rendered signature, then the classified calls in encounter order. |
| `DependencyExtractor.VisitUnit` | src/main/java/com/example/App.java:84 | Visiting a file gives one record per callable, in declaration order. |
| `DependencyExtractor.CalleesPointwise` | src/main/java/com/example/App.java:119-139 | There is exactly one classified entry per call, and the entry at each position is that call's classification. |
| `DependencyExtractor.RecordsPointwise` | src/main/java/com/example/App.java:143-149 | Every callable gets exactly one record, in declaration order, including a callable with no calls. |
| `DependencyExtractor.RecordContents` | src/main/java/com/example/App.java:150-166 | A record holds the callable's signature, then one entry per call: the callee text with its kind. A callable with no calls has an empty callee list. |
| `DependencyExtractor.RecordIgnoresKind` | src/main/java/com/example/App.java:143-167 | Methods and constructors follow the same rule: changing the callable's kind does not change its record. |
| `DependencyExtractor.RecordFlip` | src/main/java/com/example/App.java:126-138 | Flipping one registry name keeps the signature, the callee count and every callee text. The kind changes exactly at the calls whose receiver is that name. |
| `DependencyExtractor.CalleesDependOnlyOnScopes` | src/main/java/com/example/App.java:150-165 | Two registries that agree on every receiver text used by the calls give the same callees. |
| `DependencyExtractor.RecordsDependOnlyOnScopes` | src/main/java/com/example/App.java:119-139 | Two registries that agree on every receiver text used in the callables give the same records. |
| `AnalysisReport.Analyze` | src/main/java/com/example/App.java:79-91 | The second pass reports every file that parsed, in order, with its records. A file that failed to parse is skipped. |
| `AnalysisReport.Run` | src/main/java/com/example/App.java:62-91 | The run builds the full registry first and then classifies every call against it. |
| `AnalysisReport.ReportPositions` | src/main/java/com/example/App.java:80-84 | There is one report entry per parsed file. The file at index `j` sits at the position given by the number of parsed files before it, under its own name, with one record per callable. |
| `AnalysisReport.TwoPassSeesEveryDeclaration` | src/main/java/com/example/App.java:62-84 | A call whose receiver names a type declared in any parsed file is reported as internal. This holds for types in later files too. |
| `AnalysisReport.UndeclaredReceiverIsExternal` | src/main/java/com/example/App.java:126-132 | Conversely, a call whose receiver text no parsed file declares is reported as external in the full run. |
| `AnalysisReport.ReportDependsOnlyOnScopes` | src/main/java/com/example/App.java:126-132 | Two registries that agree on every receiver text used in the parsed files give the same report. |
| `AnalysisReport.PartialRegistryMisclassifies` | src/main/java/com/example/App.java:62-63 | A registry holding only the first file's names would classify a call into a type of the second file as external. The full registry classifies it as internal. |
| `AnalysisReport.ExampleProject` | src/main/java/com/example/App.java:112-138 | In a three-file project: `baz()` is internal, `helper.util()` is external, `Util.run()` is internal, a constructor with no calls keeps its empty record, and an unparsable file has no entry. |

## Left out

- Command-line parsing, its error messages and early exits (App.java lines 27-60): `showParameters` and the list of files are parameters instead.
- The recursive directory walk `listJavaFiles` (lines 94-107): the files are given as a sequence.
- Parsing and the parser's tree searches (`parse`, `findAll`, `findAncestor`) are not part of this model. A file's parse result is given, with its class and interface declarations, its callables, each callable's enclosing class name and the calls in its body.
- Exception handling and diagnostics (lines 64-74 and 81-90): a file that fails to parse is a file whose parse result is `None`, skipped in both passes. Both passes use the same parse result, because parsing is deterministic. A failure after the header is printed (line 83) is not modelled.
- Console output: the "Analisando N arquivos" line, the file headers, the labels and the "(Interna)"/"(Externa)" text are not modelled. Records are values instead.
- Traversal order of the parser's visitor: the visitor visits a callable's children first (lines 113 and 144), so callables nested in a body are printed before the callable that contains them. The model keeps a flat list of callables in declaration order.
- Calls inside local or anonymous classes: `findAll` on a callable also collects these, so they are printed for both the inner and the outer callable. The model takes each callable's list of calls as given.
- Modifiers of callables are not used by the analyzer and are not modelled.
- `Signatures.ParametersTextShape`, `Signatures.SignatureRoundTrip` and `Text.SplitJoin`: reading back is stated only for readable names. Class names hold no dot, method names hold no parenthesis, and parameter types are non-empty with no comma. A generic type such as `Map<K, V>` renders with a comma, so its signature does not split back into types. The rendering itself is stated for all inputs by `Signatures.ParametersString`.
- `CallClassifier.DescribeRoundTrip`: reading back is stated only for method names without a dot, which holds for every Java identifier.
