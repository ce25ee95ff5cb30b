/** The parsed source that the analyzer reads. In the analyzed program these
    are the syntax trees of a Java parser; here they are plain values holding
    exactly what the analyzer looks at. */
module SourceModel {
  import opened Optional

  /** A class or interface declaration together with the class and interface
      declarations written inside it, at any depth. */
  datatype TypeDecl = TypeDecl(name: string, nested: seq<TypeDecl>)

  /** A declared parameter: its type as the parser renders it, and its name. */
  datatype Parameter = Parameter(typeName: string, name: string)

  datatype CallableKind = Method | Constructor

  /** A method call expression: the called method's name and the text of the
      receiver written before the dot, absent for an unqualified call. */
  datatype CallExpr = CallExpr(name: string, scope: Option<string>)

  /** A method or constructor declaration. `enclosingClass` is the simple name
      of the nearest enclosing class or interface, if there is one; `calls`
      holds every method call found anywhere in its body, in the order a
      pre-order search of the body finds them. */
  datatype Callable = Callable(
    kind: CallableKind,
    name: string,
    params: seq<Parameter>,
    enclosingClass: Option<string>,
    calls: seq<CallExpr>)

  /** One parsed source file: its class and interface declarations as trees,
      and its methods and constructors in declaration order. */
  datatype CompilationUnit = CompilationUnit(types: seq<TypeDecl>, callables: seq<Callable>)

  /** A source file as the analyzer meets it: its name and the result of
      parsing it, `None` when parsing failed. */
  datatype SourceFile = SourceFile(name: string, parsed: Option<CompilationUnit>)
}
