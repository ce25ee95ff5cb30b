/** Rendering the signature that heads each callable's record
    (App.java, lines 114-117, 145-148 and 169-182). */
module Signatures {
  import opened Optional
  import opened SourceModel
  import opened Text

  /** The class name used when a callable has no enclosing class or interface. */
  const UnknownClass: string := "UnknownClass"

  /** The parameter list as rendered when parameters are not shown. */
  const CompactParameters: string := "(...)"

  /** The simple name of the enclosing class, or the placeholder. */
  function ClassName(c: Callable): string
  {
    match c.enclosingClass
    case Some(n) => n
    case None => UnknownClass
  }

  /** The declared types of the parameters, in order, without their names. */
  function TypeNames(params: seq<Parameter>): (r: seq<string>)
    ensures |r| == |params|
    ensures forall i :: 0 <= i < |params| ==> r[i] == params[i].typeName
  {
    seq(|params|, i requires 0 <= i < |params| => params[i].typeName)
  }

  /** The parameter list: the fixed placeholder, or the declared types
      between parentheses, separated by ", ". */
  function ParametersText(params: seq<Parameter>, showParameters: bool): string
  {
    if showParameters then "(" + Join(TypeNames(params)) + ")" else CompactParameters
  }

  /** Builds the parameter list one parameter at a time, putting a separator
      after every type but the last. */
  method ParametersString(params: seq<Parameter>, showParameters: bool) returns (s: string)
    ensures s == ParametersText(params, showParameters)
  {
    if !showParameters {
      return CompactParameters;
    }
    var sb := "(";
    ghost var types := TypeNames(params);
    for i := 0 to |params|
      invariant sb == "(" + Join(types[..i]) + (if 0 < i < |params| then Separator else "")
    {
      sb := sb + params[i].typeName;
      if i < |params| - 1 {
        sb := sb + Separator;
      }
      assert types[..i + 1] == types[..i] + [types[i]];
      if i > 0 {
        JoinSnoc(types[..i], types[i]);
      }
    }
    assert types[..|params|] == types;
    s := sb + ")";
  }

  /** The signature heading a callable's record: class, dot, name, parameters. */
  function Signature(c: Callable, showParameters: bool): string
  {
    ClassName(c) + "." + c.name + ParametersText(c.params, showParameters)
  }

  /** What a reader of the report can recover from a signature. `paramTypes`
      is `None` when parameters are not shown. */
  datatype ParsedSignature = ParsedSignature(className: string, name: string, paramTypes: Option<seq<string>>)

  /** Reads a rendered signature back: the class name ends at the first dot,
      the callable name at the first parenthesis after it. */
  function ParseSignature(sig: string, showParameters: bool): Option<ParsedSignature>
  {
    match IndexOf(sig, '.')
    case None => None
    case Some(i) =>
      var rest := sig[i + 1..];
      match IndexOf(rest, '(')
      case None => None
      case Some(j) =>
        var params := rest[j..];
        if !showParameters then
          if params == CompactParameters then Some(ParsedSignature(sig[..i], rest[..j], None)) else None
        else if 2 <= |params| && params[|params| - 1] == ')' then
          Some(ParsedSignature(sig[..i], rest[..j], Some(Split(params[1..|params| - 1]))))
        else None
  }

  /** A callable whose names read back unambiguously: a simple class name
      holds no dot, a method name no parenthesis, and a parameter type is
      never empty and holds no comma. */
  predicate Readable(c: Callable)
  {
    && '.' !in ClassName(c)
    && '(' !in c.name
    && forall i :: 0 <= i < |c.params| ==> c.params[i].typeName != [] && ',' !in c.params[i].typeName
  }

  /** With parameters hidden, the list is the placeholder whatever the
      parameters; with parameters shown, it is enclosed in parentheses, is
      "()" exactly when there are none, and reading the types back between
      the separators gives the declared types in order. */
  lemma ParametersTextShape(params: seq<Parameter>, showParameters: bool)
    requires forall i :: 0 <= i < |params| ==> params[i].typeName != [] && ',' !in params[i].typeName
    ensures !showParameters ==> ParametersText(params, showParameters) == "(...)"
    ensures showParameters ==>
      var r := ParametersText(params, showParameters);
      && 2 <= |r| && r[0] == '(' && r[|r| - 1] == ')'
      && (r == "()" <==> params == [])
      && Split(r[1..|r| - 1]) == TypeNames(params)
  {
    if showParameters {
      var r := ParametersText(params, showParameters);
      assert r[1..|r| - 1] == Join(TypeNames(params));
      SplitJoin(TypeNames(params));
      if params != [] {
        assert Split(Join(TypeNames(params))) != [];
      }
    }
  }

  /** Reading back `cls + "." + name + params` cuts at the dot after `cls`
      and at the parenthesis that starts `params`. */
  lemma ParseSignatureParts(cls: string, name: string, params: string, showParameters: bool)
    requires '.' !in cls && '(' !in name
    requires params != [] && params[0] == '('
    ensures ParseSignature(cls + "." + name + params, showParameters)
      == if !showParameters then
           if params == CompactParameters then Some(ParsedSignature(cls, name, None)) else None
         else if 2 <= |params| && params[|params| - 1] == ')' then
           Some(ParsedSignature(cls, name, Some(Split(params[1..|params| - 1]))))
         else None
  {
    var sig := cls + "." + name + params;
    assert sig == cls + ['.'] + (name + params);
    IndexOfAfter(cls, '.', name + params);
    var rest := sig[|cls| + 1..];
    assert rest == name + ['('] + params[1..];
    IndexOfAfter(name, '(', params[1..]);
    assert sig[..|cls|] == cls;
    assert rest[..|name|] == name;
    assert rest[|name|..] == params;
  }

  /** The signature identifies the callable: the enclosing class (or the
      placeholder), the callable's name and, when shown, its parameter types
      can all be read back from it. */
  lemma SignatureRoundTrip(c: Callable, showParameters: bool)
    requires Readable(c)
    ensures ParseSignature(Signature(c, showParameters), showParameters)
      == Some(ParsedSignature(ClassName(c), c.name, if showParameters then Some(TypeNames(c.params)) else None))
  {
    ParametersTextShape(c.params, showParameters);
    ParseSignatureParts(ClassName(c), c.name, ParametersText(c.params, showParameters), showParameters);
  }

  /** `foo(int x, String y)` in class `Foo`: typed rendering lists the types
      without the names, compact rendering hides them. */
  lemma ExampleSignatures()
    ensures
      var foo := Callable(Method, "foo", [Parameter("int", "x"), Parameter("String", "y")], Some("Foo"), []);
      && Signature(foo, true) == "Foo.foo(int, String)"
      && Signature(foo, false) == "Foo.foo(...)"
      && Signature(foo.(enclosingClass := None), false) == "UnknownClass.foo(...)"
  {
    var params := [Parameter("int", "x"), Parameter("String", "y")];
    assert TypeNames(params) == ["int", "String"];
    assert Join(["int", "String"]) == "int, String";
  }
}
