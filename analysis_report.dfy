/** The whole analysis: the first pass over every file builds the registry,
    then the second pass visits every file with it (App.java, lines 62-91).
    The printed lines become a report value: one entry per file that parsed,
    in file order, each holding its callables' records. */
module AnalysisReport {
  import opened Optional
  import opened SourceModel
  import opened SymbolRegistry
  import opened CallClassifier
  import opened Signatures
  import opened DependencyExtractor

  /** The lines printed under one file's header. */
  datatype FileReport = FileReport(fileName: string, records: seq<DependencyRecord>)

  /** The second pass over `files` with a given registry; a file that failed
      to parse has no entry. */
  function ReportOf(files: seq<SourceFile>, registry: set<string>, showParameters: bool): seq<FileReport>
  {
    if files == [] then []
    else
      var init, last := files[..|files| - 1], files[|files| - 1];
      ReportOf(init, registry, showParameters) +
        match last.parsed
        case None => []
        case Some(unit) => [FileReport(last.name, RecordsOf(unit.callables, registry, showParameters))]
  }

  /** The number of files that parsed. */
  function AcceptedCount(files: seq<SourceFile>): nat
  {
    if files == [] then 0
    else AcceptedCount(files[..|files| - 1]) + if files[|files| - 1].parsed.Some? then 1 else 0
  }

  /** The second pass: each file that parsed gets its header and the records
      of its callables; a file that failed to parse is skipped. */
  method Analyze(files: seq<SourceFile>, registry: set<string>, showParameters: bool) returns (report: seq<FileReport>)
    ensures report == ReportOf(files, registry, showParameters)
  {
    report := [];
    for i := 0 to |files|
      invariant report == ReportOf(files[..i], registry, showParameters)
    {
      match files[i].parsed {
        case None =>
        case Some(unit) =>
          var records := VisitUnit(unit, registry, showParameters);
          report := report + [FileReport(files[i].name, records)];
      }
      assert files[..i + 1][..i] == files[..i];
    }
    assert files[..|files|] == files;
  }

  /** Both passes in order: the registry is complete before any call is
      classified. */
  method Run(files: seq<SourceFile>, showParameters: bool) returns (report: seq<FileReport>)
    ensures report == ReportOf(files, RegistryOf(files), showParameters)
  {
    var registry := BuildRegistry(files, {});
    assert registry == RegistryOf(files);
    report := Analyze(files, registry, showParameters);
  }

  /** The report has one entry per file that parsed, in file order: the file
      at index `j` is reported at the position given by the number of files
      before it that parsed, under its own name, with one record per callable. */
  lemma {:induction false} ReportPositions(files: seq<SourceFile>, registry: set<string>, showParameters: bool)
    ensures |ReportOf(files, registry, showParameters)| == AcceptedCount(files)
    ensures forall j :: 0 <= j < |files| && files[j].parsed.Some? ==>
      && AcceptedCount(files[..j]) < |ReportOf(files, registry, showParameters)|
      && ReportOf(files, registry, showParameters)[AcceptedCount(files[..j])]
           == FileReport(files[j].name, RecordsOf(files[j].parsed.value.callables, registry, showParameters))
  {
    if files != [] {
      var init := files[..|files| - 1];
      ReportPositions(init, registry, showParameters);
      forall j | 0 <= j < |files| - 1
        ensures files[..j] == init[..j]
      {
      }
    }
  }

  /** The pass ordering matters: a call whose receiver names a type declared
      in ANY file that parsed, earlier or later than the caller's file, is
      reported as internal. */
  lemma TwoPassSeesEveryDeclaration(files: seq<SourceFile>, showParameters: bool, i: nat, k: nat, m: nat, j: nat)
    requires i < |files| && files[i].parsed.Some?
    requires k < |files[i].parsed.value.callables|
    requires m < |files[i].parsed.value.callables[k].calls|
    requires j < |files| && files[j].parsed.Some?
    requires
      var call := files[i].parsed.value.callables[k].calls[m];
      call.scope.Some? && Declares(files[j].parsed.value.types, call.scope.value)
    ensures
      var report := ReportOf(files, RegistryOf(files), showParameters);
      var pos := AcceptedCount(files[..i]);
      && pos < |report|
      && k < |report[pos].records|
      && m < |report[pos].records[k].callees|
      && report[pos].records[k].callees[m].kind == Internal
  {
    var callables := files[i].parsed.value.callables;
    var call := callables[k].calls[m];
    RegistryMembership(files, call.scope.value);
    assert files[j] in files;
    ReportPositions(files, RegistryOf(files), showParameters);
    RecordsPointwise(callables, RegistryOf(files), showParameters);
    CalleesPointwise(callables[k].calls, RegistryOf(files));
  }

  /** The converse: a call whose receiver text no parsed file declares is
      reported as external. */
  lemma UndeclaredReceiverIsExternal(files: seq<SourceFile>, showParameters: bool, i: nat, k: nat, m: nat)
    requires i < |files| && files[i].parsed.Some?
    requires k < |files[i].parsed.value.callables|
    requires m < |files[i].parsed.value.callables[k].calls|
    requires
      var call := files[i].parsed.value.callables[k].calls[m];
      && call.scope.Some?
      && forall f :: f in files && f.parsed.Some? ==> !Declares(f.parsed.value.types, call.scope.value)
    ensures
      var report := ReportOf(files, RegistryOf(files), showParameters);
      var pos := AcceptedCount(files[..i]);
      && pos < |report|
      && k < |report[pos].records|
      && m < |report[pos].records[k].callees|
      && report[pos].records[k].callees[m].kind == External
  {
    var callables := files[i].parsed.value.callables;
    var call := callables[k].calls[m];
    RegistryMembership(files, call.scope.value);
    ReportPositions(files, RegistryOf(files), showParameters);
    RecordsPointwise(callables, RegistryOf(files), showParameters);
    CalleesPointwise(callables[k].calls, RegistryOf(files));
  }

  /** Two registries that agree on every receiver text used in the parsed
      files give the same report: a registry name that no call uses as its
      receiver changes nothing. */
  lemma {:induction false} ReportDependsOnlyOnScopes(files: seq<SourceFile>, r1: set<string>, r2: set<string>, showParameters: bool)
    requires forall f, c, call :: f in files && f.parsed.Some? && c in f.parsed.value.callables && call in c.calls && call.scope.Some? ==>
      (call.scope.value in r1 <==> call.scope.value in r2)
    ensures ReportOf(files, r1, showParameters) == ReportOf(files, r2, showParameters)
  {
    if files != [] {
      var init, last := files[..|files| - 1], files[|files| - 1];
      assert forall f :: f in init ==> f in files;
      ReportDependsOnlyOnScopes(init, r1, r2, showParameters);
      if last.parsed.Some? {
        RecordsDependOnlyOnScopes(last.parsed.value.callables, r1, r2, showParameters);
      }
    }
  }

  /** Classifying while the registry is still being built would be wrong: with
      only the first file registered, a call into a type declared in the
      second file is external, while the two-pass run reports it internal. */
  lemma PartialRegistryMisclassifies()
    ensures
      var call := CallExpr("run", Some("Util"));
      var foo := SourceFile("Foo.java", Some(CompilationUnit([TypeDecl("Foo", [])],
        [Callable(Method, "bar", [], Some("Foo"), [call])])));
      var util := SourceFile("Util.java", Some(CompilationUnit([TypeDecl("Util", [])], [])));
      && Classify(call, RegistryOf([foo, util][..1])).kind == External
      && Classify(call, RegistryOf([foo, util])).kind == Internal
  {
    var call := CallExpr("run", Some("Util"));
    var foo := SourceFile("Foo.java", Some(CompilationUnit([TypeDecl("Foo", [])],
      [Callable(Method, "bar", [], Some("Foo"), [call])])));
    var util := SourceFile("Util.java", Some(CompilationUnit([TypeDecl("Util", [])], [])));
    assert [foo, util][..1] == [foo];
    assert [foo, util][..1][..0] == [];
    assert FindAll([TypeDecl("Foo", [])]) == ["Foo"];
    assert FindAll([TypeDecl("Util", [])]) == ["Util"];
  }

  /** Class `Foo` whose method `bar()` calls `baz()` and `helper.util()`, and
      class `Util` whose constructor calls nothing and whose `run()` is called
      as `Util.run()`: the unqualified call and the call on the registered
      type are internal, the call on the variable `helper` is external, and
      the constructor has its record with no callees. */
  lemma ExampleProject()
    ensures
      var bar := Callable(Method, "bar", [], Some("Foo"),
        [CallExpr("baz", None), CallExpr("util", Some("helper")), CallExpr("run", Some("Util"))]);
      var ctor := Callable(Constructor, "Util", [], Some("Util"), []);
      var files := [
        SourceFile("Foo.java", Some(CompilationUnit([TypeDecl("Foo", [])], [bar]))),
        SourceFile("Broken.java", None),
        SourceFile("Util.java", Some(CompilationUnit([TypeDecl("Util", [])], [ctor])))];
      ReportOf(files, RegistryOf(files), false) == [
        FileReport("Foo.java", [DependencyRecord("Foo.bar(...)", [
          Classification("baz", Internal),
          Classification("helper.util", External),
          Classification("Util.run", Internal)])]),
        FileReport("Util.java", [DependencyRecord("Util.Util(...)", [])])]
  {
    var bar := Callable(Method, "bar", [], Some("Foo"),
      [CallExpr("baz", None), CallExpr("util", Some("helper")), CallExpr("run", Some("Util"))]);
    var ctor := Callable(Constructor, "Util", [], Some("Util"), []);
    var foo := SourceFile("Foo.java", Some(CompilationUnit([TypeDecl("Foo", [])], [bar])));
    var broken := SourceFile("Broken.java", None);
    var util := SourceFile("Util.java", Some(CompilationUnit([TypeDecl("Util", [])], [ctor])));
    var files := [foo, broken, util];
    assert files[..2] == [foo, broken] && files[..2][..1] == [foo] && [foo][..0] == [];
    assert FindAll([TypeDecl("Foo", [])]) == ["Foo"];
    assert FindAll([TypeDecl("Util", [])]) == ["Util"];
    assert FileNames(foo) == {"Foo"} && FileNames(util) == {"Util"};
    assert RegistryOf([foo]) == {"Foo"};
    assert RegistryOf(files) == {"Foo", "Util"};
    var registry := RegistryOf(files);
    assert Callees(bar.calls, registry) == [
      Classification("baz", Internal), Classification("helper.util", External), Classification("Util.run", Internal)]
    by {
      CalleesPointwise(bar.calls, registry);
      assert "helper" !in registry && "Util" in registry;
      assert Describe(bar.calls[1]) == "helper.util";
      assert Describe(bar.calls[2]) == "Util.run";
    }
    assert RecordsOf([bar], registry, false) == [RecordOf(bar, registry, false)];
    assert RecordsOf([ctor], registry, false) == [RecordOf(ctor, registry, false)];
    assert ReportOf([foo], registry, false) == [FileReport("Foo.java", RecordsOf([bar], registry, false))];
    assert ReportOf(files[..2], registry, false) == ReportOf([foo], registry, false);
    assert ReportOf(files, registry, false)
      == ReportOf(files[..2], registry, false) + [FileReport("Util.java", RecordsOf([ctor], registry, false))];
    assert Signature(bar, false) == "Foo.bar(...)";
    assert Signature(ctor, false) == "Util.Util(...)";
  }
}
