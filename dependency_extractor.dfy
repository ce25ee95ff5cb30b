/** The second pass over one file: one record per method or constructor,
    holding its signature and its classified calls
    (App.java, lines 84 and 109-167). */
module DependencyExtractor {
  import opened Optional
  import opened SourceModel
  import opened Signatures
  import opened CallClassifier

  /** What the analyzer prints for one callable: its signature, then one line
      per call. */
  datatype DependencyRecord = DependencyRecord(signature: string, callees: seq<Classification>)

  /** The calls classified in encounter order. */
  function Callees(calls: seq<CallExpr>, registry: set<string>): seq<Classification>
  {
    if calls == [] then []
    else Callees(calls[..|calls| - 1], registry) + [Classify(calls[|calls| - 1], registry)]
  }

  function RecordOf(c: Callable, registry: set<string>, showParameters: bool): DependencyRecord
  {
    DependencyRecord(Signature(c, showParameters), Callees(c.calls, registry))
  }

  /** The records of the callables, in declaration order. */
  function RecordsOf(callables: seq<Callable>, registry: set<string>, showParameters: bool): seq<DependencyRecord>
  {
    if callables == [] then []
    else
      var init, last := callables[..|callables| - 1], callables[|callables| - 1];
      RecordsOf(init, registry, showParameters) + [RecordOf(last, registry, showParameters)]
  }

  /** Visiting one method or constructor: render its signature, then classify
      each call found in its body, in order. */
  method VisitCallable(c: Callable, registry: set<string>, showParameters: bool) returns (rec: DependencyRecord)
    ensures rec == RecordOf(c, registry, showParameters)
  {
    var params := ParametersString(c.params, showParameters);
    var signature := ClassName(c) + "." + c.name + params;
    var callees := [];
    for i := 0 to |c.calls|
      invariant callees == Callees(c.calls[..i], registry)
    {
      var call := c.calls[i];
      var kind;
      if call.scope.Some? {
        if call.scope.value in registry {
          kind := Internal;
        } else {
          kind := External;
        }
      } else {
        kind := Internal;
      }
      assert c.calls[..i + 1][..i] == c.calls[..i];
      callees := callees + [Classification(Describe(call), kind)];
    }
    assert c.calls[..|c.calls|] == c.calls;
    rec := DependencyRecord(signature, callees);
  }

  /** Visiting one file: every callable, in declaration order. */
  method VisitUnit(unit: CompilationUnit, registry: set<string>, showParameters: bool) returns (records: seq<DependencyRecord>)
    ensures records == RecordsOf(unit.callables, registry, showParameters)
  {
    records := [];
    for i := 0 to |unit.callables|
      invariant records == RecordsOf(unit.callables[..i], registry, showParameters)
    {
      var rec := VisitCallable(unit.callables[i], registry, showParameters);
      assert unit.callables[..i + 1][..i] == unit.callables[..i];
      records := records + [rec];
    }
    assert unit.callables[..|unit.callables|] == unit.callables;
  }

  /** One classified entry per call, in the order the calls were found. */
  lemma {:induction false} CalleesPointwise(calls: seq<CallExpr>, registry: set<string>)
    ensures |Callees(calls, registry)| == |calls|
    ensures forall i :: 0 <= i < |calls| ==> Callees(calls, registry)[i] == Classify(calls[i], registry)
  {
    if calls != [] {
      CalleesPointwise(calls[..|calls| - 1], registry);
    }
  }

  /** One record per callable, in declaration order; a callable without
      calls still gets its record, with no callees. */
  lemma {:induction false} RecordsPointwise(callables: seq<Callable>, registry: set<string>, showParameters: bool)
    ensures |RecordsOf(callables, registry, showParameters)| == |callables|
    ensures forall i :: 0 <= i < |callables| ==>
      RecordsOf(callables, registry, showParameters)[i] == RecordOf(callables[i], registry, showParameters)
  {
    if callables != [] {
      RecordsPointwise(callables[..|callables| - 1], registry, showParameters);
    }
  }

  /** The record of a callable: its signature, and one entry per call in
      order, each the call's printed callee with its classification. A
      callable with no calls has an empty list of callees. */
  lemma RecordContents(c: Callable, registry: set<string>, showParameters: bool)
    ensures RecordOf(c, registry, showParameters).signature == Signature(c, showParameters)
    ensures |RecordOf(c, registry, showParameters).callees| == |c.calls|
    ensures forall i :: 0 <= i < |c.calls| ==>
      RecordOf(c, registry, showParameters).callees[i] == Classification(Describe(c.calls[i]), KindOf(c.calls[i], registry))
  {
    CalleesPointwise(c.calls, registry);
  }

  /** Methods and constructors follow the same rule: the kind of callable
      does not change its record. */
  lemma RecordIgnoresKind(c: Callable, kind: CallableKind, registry: set<string>, showParameters: bool)
    ensures RecordOf(c.(kind := kind), registry, showParameters) == RecordOf(c, registry, showParameters)
  {
  }

  /** Registering or removing one name `n` keeps every signature and callee
      text and changes the classification of exactly the calls whose receiver
      text is `n`. */
  lemma RecordFlip(c: Callable, registry: set<string>, n: string, showParameters: bool)
    ensures
      var with, without := RecordOf(c, registry + {n}, showParameters), RecordOf(c, registry - {n}, showParameters);
      && with.signature == without.signature
      && |with.callees| == |without.callees| == |c.calls|
      && forall i :: 0 <= i < |c.calls| ==>
           && with.callees[i].callee == without.callees[i].callee
           && (with.callees[i].kind != without.callees[i].kind <==> c.calls[i].scope == Some(n))
  {
    CalleesPointwise(c.calls, registry + {n});
    CalleesPointwise(c.calls, registry - {n});
  }

  /** Two registries that agree on every receiver text used by the calls give
      the same callees. */
  lemma {:induction false} CalleesDependOnlyOnScopes(calls: seq<CallExpr>, r1: set<string>, r2: set<string>)
    requires forall call :: call in calls && call.scope.Some? ==> (call.scope.value in r1 <==> call.scope.value in r2)
    ensures Callees(calls, r1) == Callees(calls, r2)
  {
    if calls != [] {
      CalleesDependOnlyOnScopes(calls[..|calls| - 1], r1, r2);
    }
  }

  /** Two registries that agree on every receiver text used in the callables
      give the same records. */
  lemma {:induction false} RecordsDependOnlyOnScopes(callables: seq<Callable>, r1: set<string>, r2: set<string>, showParameters: bool)
    requires forall c, call :: c in callables && call in c.calls && call.scope.Some? ==>
      (call.scope.value in r1 <==> call.scope.value in r2)
    ensures RecordsOf(callables, r1, showParameters) == RecordsOf(callables, r2, showParameters)
  {
    if callables != [] {
      var init, last := callables[..|callables| - 1], callables[|callables| - 1];
      RecordsDependOnlyOnScopes(init, r1, r2, showParameters);
      CalleesDependOnlyOnScopes(last.calls, r1, r2);
    }
  }
}
