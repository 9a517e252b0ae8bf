/** The parsed translation unit, as far as the top-level lowering looks at it. */
module Ast {
  import opened Results
  import Ir

  datatype Declaration =
      // A function with its body; the body is lowered elsewhere.
    | FunctionDefinition(definition: string)
      // One declaration statement, carried here already split by the
      // normalizer into the declaration infos it stands for.
    | SymbolDeclaration(normalized: seq<Ir.ScopedDeclarationInfo>)
    | PInvokeDeclaration(declaration: string, prefix: Option<string>)
      // Any other kind of top-level declaration.
    | OtherDeclaration(description: string)

  datatype TranslationUnit = TranslationUnit(declarations: seq<Declaration>)
}
