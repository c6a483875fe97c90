/** The slice of the syntax tree the conditional-compilation pass inspects:
    namespaces, their top-level items, and the attributes on those items. */
module Ast {

  /** Attribute arguments. Only a parenthesised path is ever looked into;
      every other expression form is `OtherExpr`. A path is represented by its
      final identifier, the only part of it the pass reads. */
  datatype Expr =
    | Paren(inner: Expr)
    | Path(name: string)
    | OtherExpr

  /** `@Name(arg)` on a declaration. */
  datatype Attr = Attr(name: string, arg: Expr)

  /** Callables and type definitions carry a name; every other item kind is
      opaque to the pass. */
  datatype ItemKind =
    | Callable(name: string)
    | Ty(name: string)
    | OtherItem

  datatype Item = Item(attrs: seq<Attr>, kind: ItemKind)

  datatype Namespace = Namespace(name: string, items: seq<Item>)

}
