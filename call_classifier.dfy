/** Deciding whether a call targets a type of the project, and rendering the
    callee (App.java, lines 120-138 and 151-165; the rule is written out
    twice there, once for methods and once for constructors). */
module CallClassifier {
  import opened Optional
  import opened SourceModel
  import opened Text

  /** Printed as "(Interna)" and "(Externa)". */
  datatype DependencyKind = Internal | External

  /** One classified call as it appears in a record. */
  datatype Classification = Classification(callee: string, kind: DependencyKind)

  /** The callee as printed: the receiver text, a dot and the method name,
      or the method name alone for an unqualified call. */
  function Describe(call: CallExpr): string
  {
    match call.scope
    case None => call.name
    case Some(s) => s + "." + call.name
  }

  /** The heuristic: an unqualified call is internal; a qualified one is
      internal exactly when the receiver's literal text is a registered type
      name. The receiver is not resolved to its declared type. */
  function KindOf(call: CallExpr, registry: set<string>): DependencyKind
  {
    match call.scope
    case None => Internal
    case Some(s) => if s in registry then Internal else External
  }

  function Classify(call: CallExpr, registry: set<string>): Classification
  {
    Classification(Describe(call), KindOf(call, registry))
  }

  /** Reads a printed callee back: the method name follows the last dot. */
  function ParseCallee(callee: string): CallExpr
  {
    match LastIndexOf(callee, '.')
    case None => CallExpr(callee, None)
    case Some(i) => CallExpr(callee[i + 1..], Some(callee[..i]))
  }

  /** An unqualified call is internal whatever the registry holds, the empty
      registry included. */
  lemma UnqualifiedCallIsInternal(call: CallExpr, registry: set<string>)
    requires call.scope.None?
    ensures Classify(call, registry) == Classification(call.name, Internal)
  {
  }

  /** A qualified call is internal if and only if its receiver text is in the
      registry. */
  lemma QualifiedCallIsInternalIffRegistered(call: CallExpr, registry: set<string>)
    requires call.scope.Some?
    ensures Classify(call, registry).kind == Internal <==> call.scope.value in registry
    ensures Classify(call, registry).kind == External <==> call.scope.value !in registry
  {
  }

  /** An explicit `this.run()` has a receiver, so it is classified by the
      registry like any qualified call; `this` is never a type name, so it
      comes out external. */
  lemma ThisCallIsExternal(registry: set<string>)
    requires "this" !in registry
    ensures Classify(CallExpr("run", Some("this")), registry) == Classification("this.run", External)
  {
  }

  /** Registering or removing one name `n` changes the classification of
      exactly the calls whose receiver text is `n`, and never the callee text. */
  lemma ClassifyFlip(call: CallExpr, registry: set<string>, n: string)
    ensures Classify(call, registry + {n}).callee == Classify(call, registry - {n}).callee
    ensures Classify(call, registry + {n}) != Classify(call, registry - {n}) <==> call.scope == Some(n)
  {
  }

  /** A larger registry never turns an internal call external. */
  lemma ClassifyMonotone(call: CallExpr, small: set<string>, large: set<string>)
    requires small <= large
    requires Classify(call, small).kind == Internal
    ensures Classify(call, large).kind == Internal
  {
  }

  /** The printed callee identifies the call when the method name holds no
      dot: receiver text and method name can both be read back. */
  lemma DescribeRoundTrip(call: CallExpr)
    requires '.' !in call.name
    ensures ParseCallee(Describe(call)) == call
  {
    match call.scope
    case None =>
    case Some(s) =>
      var d := Describe(call);
      assert d == s + ['.'] + call.name;
      LastIndexOfBefore(s, '.', call.name);
      assert d[..|s|] == s;
      assert d[|s| + 1..] == call.name;
  }
}
