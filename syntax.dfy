/**
 * The slice of the Swift syntax tree that the two macros inspect. Each
 * constructor stands for one node kind of the syntax library; a node kind the
 * macros never look inside is folded into a catch-all constructor.
 */
module Syntax {

  datatype Option<+T> = None | Some(value: T)

  /** The written form of a type annotation (`Int`, `[String: Int]`), kept as text. */
  type TypeText = string

  /** Expressions. */
  datatype Expr =
    | DeclReference(baseName: string)                       // `foo`
    | MemberAccess(base: Option<Expr>, declName: string)    // `.foo`, `a.foo`
    | FunctionCall(calledExpression: Expr, arguments: seq<Expr>)  // `callee(arguments)`
    | ArrayLiteral(elements: seq<ArrayElement>)             // `[e0, e1, ...]`
    | Literal(text: string)                                 // `1`, `"a"`, `nil`, ...

  /** One element of an array literal. */
  datatype ArrayElement = ArrayElement(expression: Expr)

  /** The pattern on the left of a variable binding. */
  datatype Pattern =
    | IdentifierPattern(identifier: string)   // `count`
    | TuplePattern(elements: seq<Pattern>)    // `(a, b)`
    | WildcardPattern                         // `_`

  datatype AccessorSpecifier = Get | Set | WillSet | DidSet

  /** An accessor block written on a binding: `{ get ... set ... }`, `{ didSet ... }`. */
  datatype AccessorBlock = AccessorBlock(specifiers: seq<AccessorSpecifier>)

  /** One binding of a `var`/`let` declaration: `pattern: Type = initializer { accessors }`. */
  datatype PatternBinding = PatternBinding(
    pattern: Pattern,
    typeAnnotation: Option<TypeText>,
    initializer: Option<Expr>,
    accessorBlock: Option<AccessorBlock>)

  /** One name introduced by an enum `case` line. */
  datatype EnumCaseElement = EnumCaseElement(name: string)

  /** One entry of a type's member block. */
  datatype MemberBlockItem = MemberBlockItem(decl: Decl)

  /** Declarations. */
  datatype Decl =
    | EnumDecl(name: string, members: seq<MemberBlockItem>)
    | EnumCaseDecl(elements: seq<EnumCaseElement>)           // `case a, b, c`
    | VariableDecl(bindings: seq<PatternBinding>)            // `var x: T = e, y = f`
    | StructDecl(name: string, members: seq<MemberBlockItem>)
    | ClassDecl(name: string, members: seq<MemberBlockItem>)
    | FunctionDecl(name: string)
    | OtherNamedDecl(name: string)                           // `actor`, `protocol`, `typealias`, `macro`, ...
    | OtherDecl                                              // `extension`, `import`, `init`, ...

  /**
   * The name of a declaration that is a named declaration in the syntax
   * library's sense (an enum, struct, class, function, actor, protocol,
   * typealias, associatedtype, macro or precedencegroup). A variable
   * declaration is not one: its names live in its bindings' patterns.
   */
  function DeclName(d: Decl): (r: Option<string>)
    ensures r.Some? <==> d.EnumDecl? || d.StructDecl? || d.ClassDecl? || d.FunctionDecl? || d.OtherNamedDecl?
    ensures r.Some? ==> r.value == d.name
  {
    match d
    case EnumDecl(name, _) => Some(name)
    case StructDecl(name, _) => Some(name)
    case ClassDecl(name, _) => Some(name)
    case FunctionDecl(name) => Some(name)
    case OtherNamedDecl(name) => Some(name)
    case _ => None
  }
}
