/** The parts of a TypeScript syntax tree that the OnPush patcher looks at.
    The tree is produced by the compiler (not part of this model) and handed
    in as data; every node the patcher anchors an edit to carries its end
    offset (`getEnd()`) in the original text. */
module Syntax {
  import opened Wrappers

  /** An expression, reduced to the shapes the patcher distinguishes. */
  datatype Expr =
      /** A bare name; it has no `expression` child. */
    | Identifier(escapedText: string)
      /** `callee(arguments...)`. */
    | Call(callee: Expr, arguments: seq<Expr>)
      /** Any other node whose `expression` child is `inner`: a
          parenthesised expression, a property access `inner.name`, a
          non-null assertion `inner!`, ... */
    | Wrapped(inner: Expr)
      /** `{ p1, ..., pn }`. */
    | ObjectLiteral(properties: seq<Property>)
      /** Any other node without an `expression` child (literals, arrays, ...). */
    | OtherExpr

  /** One property of an object literal, with its key and end offset. */
  datatype Property = Property(name: string, end: nat)

  datatype Decorator = Decorator(expression: Expr)

  /** One name of `import { a, b } from '...'`. */
  datatype ImportSpecifier = ImportSpecifier(name: string, end: nat)

  datatype NamedBindings =
    | NamedImports(elements: seq<ImportSpecifier>)
    | NamespaceImport(alias: string)

  /** `import <default>, <namedBindings> from ...`; the bindings are absent
      for a default-only import. */
  datatype ImportClause = ImportClause(namedBindings: Option<NamedBindings>)

  /** A top-level child of the source file. */
  datatype Statement =
      /** `decorators` is absent when the class has none. */
    | ClassDeclaration(decorators: Option<seq<Decorator>>)
      /** The clause is absent for a side-effect import `import 'm';`. */
    | ImportDeclaration(moduleSpecifier: string, importClause: Option<ImportClause>)
    | OtherStatement

  /** Every end offset in the expression is at most n. */
  predicate ExprWithin(e: Expr, n: nat) {
    match e
    case Identifier(_) => true
    case Call(callee, args) => ExprWithin(callee, n) && forall a :: a in args ==> ExprWithin(a, n)
    case Wrapped(inner) => ExprWithin(inner, n)
    case ObjectLiteral(ps) => forall p :: p in ps ==> p.end <= n
    case OtherExpr => true
  }

  /** Every end offset in the statement is at most n. */
  predicate StatementWithin(s: Statement, n: nat) {
    match s
    case ClassDeclaration(ds) =>
      ds.Some? ==> forall d :: d in ds.value ==> ExprWithin(d.expression, n)
    case ImportDeclaration(_, clause) =>
      clause.Some? && clause.value.namedBindings.Some? && clause.value.namedBindings.value.NamedImports? ==>
        forall sp :: sp in clause.value.namedBindings.value.elements ==> sp.end <= n
    case OtherStatement => true
  }

  /** The tree was parsed from a text of length n: no offset lies beyond it. */
  predicate TreeWithin(nodes: seq<Statement>, n: nat) {
    forall j :: 0 <= j < |nodes| ==> StatementWithin(nodes[j], n)
  }
}
