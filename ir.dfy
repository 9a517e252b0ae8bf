/** The intermediate representation the top-level lowering consumes and
    produces: C types, the few expression forms it builds, normalized
    declaration infos, block items and the two error kinds. */
module Ir {
  import opened Results

  /** A compile-time constant as the constant evaluator returns it. */
  datatype Constant =
    | IntegerConstant(value: int)
    | NonIntegerConstant(kind: string)   // floating-point, character, string, ...

  datatype AssignmentOperator = Assign | CompoundAssign(binaryOperator: string)

  datatype Expr =
    | IdentifierExpression(identifier: string)
    | ConstantLiteralExpression(constant: Constant)
      // `doReturn` is the last constructor argument of the assignment node;
      // the top-level initializer statement passes false.
    | AssignmentExpression(target: Expr, op: AssignmentOperator, value: Expr, doReturn: bool)
      // Any other expression of the source; its structure is not inspected here.
    | SourceExpression(text: string)

  datatype StorageClass = Auto | Static | Extern

  /** One member of an enum: an optional name and an optional initializer. */
  datatype Enumerator = Enumerator(identifier: Option<string>, initializer: Option<Expr>)

  datatype CType =
    | PrimitiveType(name: string)
    | PointerType(base: CType)
    | InPlaceArrayType(element: CType, size: int)
    | StructType(tag: Option<string>)
    | EnumType(tag: Option<string>, members: seq<Enumerator>)
    | NamedType(name: string)
    | FunctionType(returnType: CType, parameters: seq<CType>)
      // Any other type (const-qualified, union, ...): no top-level rule exists for it.
    | OtherType(description: string)

  /** A declarator: its type, its optional name and the optional name of
      the CLI member it imports. */
  datatype LocalDeclarationInfo = LocalDeclarationInfo(
    declaredType: CType, identifier: Option<string>, cliImportMemberName: Option<string>)

  /** A declaration as the external normalizer hands it over. */
  datatype ScopedDeclarationInfo =
    | ScopedIdentifierDeclaration(
        storageClass: StorageClass, declaration: LocalDeclarationInfo, initializer: Option<Expr>)
    | TypeDefDeclaration(types: seq<LocalDeclarationInfo>)
    | OtherScopedDeclaration(description: string)

  datatype BlockItem =
    | FunctionDefinition(definition: string)
    | FunctionDeclaration(
        identifier: string, storageClass: StorageClass, functionType: CType, cliImportMemberName: Option<string>)
    | GlobalVariableDefinition(storageClass: StorageClass, variableType: CType, identifier: string)
    | ExpressionStatement(expression: Expr)
    | TagBlockItem(declarations: seq<LocalDeclarationInfo>)
    | TypeDefBlockItem(types: seq<LocalDeclarationInfo>)
    | EnumConstantDefinition(identifier: string, enumType: CType, value: Expr)
    | PInvokeDefinition(declaration: string, prefix: Option<string>)

  /** The two exception kinds: an invalid program, and a construct the
      compiler does not support yet, with its tracking number. */
  datatype Error = CompilationError | Wip(code: int)

  /** The constant evaluator, already bound to the declaration scope the
      lowering runs in. */
  type ConstantEvaluator = Expr -> Result<Constant, Error>
}
