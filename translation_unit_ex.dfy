/** The top-level lowering of a translation unit (TranslationUnitEx):
    every top-level declaration becomes zero or more IR block items, in
    source order. */
module TranslationUnitEx {
  import opened Results
  import opened Ir
  import opened ItemOrder
  import Ast
  import EnumNumbering

  // ---------------------------------------------------------------------
  // Classification of one normalized declaration

  /** Declaring `identifier` with a struct type declares a variable of that
      struct type, not the struct tag itself, when the struct's tag is not
      the declared name; an untagged struct counts as different. */
  predicate DeclaresStructVariable(t: CType, identifier: string): (b: bool)
    ensures b ==> t.StructType?
    ensures t.StructType? && t.tag.None? ==> b
    ensures t.StructType? && t.tag.Some? && t.tag.value != identifier ==> b
    ensures t.StructType? && t.tag == Some(identifier) ==> !b
  {
    t.StructType? && t.tag != Some(identifier)
  }

  /** The types for which a top-level declaration defines a global variable:
      never a function, enum or unsupported type, so the variable test does
      not shadow the branches for those. */
  predicate IsVariableType(t: CType, identifier: string): (b: bool)
    ensures t.PrimitiveType? || t.PointerType? || t.InPlaceArrayType? || t.NamedType? ==> b
    ensures t.StructType? ==> (b <==> DeclaresStructVariable(t, identifier))
    ensures b ==> !t.FunctionType? && !t.EnumType? && !t.OtherType?
  {
    || t.PrimitiveType?
    || t.PointerType?
    || t.InPlaceArrayType?
    || DeclaresStructVariable(t, identifier)
    || t.NamedType?
  }

  /** The statement `identifier = initializer;` that initializes a global. */
  function InitializerStatement(identifier: string, initializer: Expr): BlockItem
  {
    ExpressionStatement(AssignmentExpression(IdentifierExpression(identifier), Assign, initializer, false))
  }

  /** What a typedef's member declaration adds after the typedef item: the
      constants of an enum type, nothing for any other type. */
  function TypeDefMemberConstants(eval: ConstantEvaluator): LocalDeclarationInfo -> Result<seq<BlockItem>, Error>
  {
    (d: LocalDeclarationInfo) => if d.declaredType.EnumType? then EnumNumbering.EnumConstants(d.declaredType, eval) else Success([])
  }

  /** The items of a declaration of one identifier. An unnamed declaration,
      and a CLI import on anything but a function, are rejected; a successful
      expansion opens with the function declaration, the variable or the tag
      item of the declared identifier. */
  function IdentifierDeclarationItems(
    storageClass: StorageClass, declaration: LocalDeclarationInfo, initializer: Option<Expr>, eval: ConstantEvaluator)
    : (r: Result<seq<BlockItem>, Error>)
    ensures declaration.identifier.None? ==> r == Failure(CompilationError)
    ensures r.Success? && declaration.cliImportMemberName.Some? ==> declaration.declaredType.FunctionType?
    ensures r.Success? ==>
      && 1 <= |r.value|
      && (|| r.value[0] == FunctionDeclaration(declaration.identifier.value, storageClass, declaration.declaredType, declaration.cliImportMemberName)
          || r.value[0] == GlobalVariableDefinition(storageClass, declaration.declaredType, declaration.identifier.value)
          || r.value[0] == TagBlockItem([declaration]))
  {
    match declaration.identifier
    case None => Failure(CompilationError)
    case Some(identifier) =>
      var t := declaration.declaredType;
      if t.FunctionType? then
        if initializer.Some? then Failure(CompilationError)
        else Success([FunctionDeclaration(identifier, storageClass, t, declaration.cliImportMemberName)])
      else if declaration.cliImportMemberName.Some? then Failure(CompilationError)
      else if IsVariableType(t, identifier) then
        Success([GlobalVariableDefinition(storageClass, t, identifier)]
                + (if initializer.Some? then [InitializerStatement(identifier, initializer.value)] else []))
      else if t.EnumType? then
        Chain(Success([TagBlockItem([declaration])]), EnumNumbering.EnumConstants(t, eval))
      else if t.StructType? then
        Success([TagBlockItem([declaration])])
      else
        Failure(Wip(75))
  }

  /** The items of a typedef: its typedef item first, then the constants of
      its enum member types; it fails only when one of those enums fails to
      number. */
  function TypeDefItems(types: seq<LocalDeclarationInfo>, eval: ConstantEvaluator): (r: Result<seq<BlockItem>, Error>)
    ensures r.Success? ==> 1 <= |r.value| && r.value[0] == TypeDefBlockItem(types)
    ensures r.Failure? ==>
      exists k :: 0 <= k < |types| && types[k].declaredType.EnumType? && EnumNumbering.EnumConstants(types[k].declaredType, eval).Failure?
  {
    FlatMapSucceeds(types, TypeDefMemberConstants(eval));
    Chain(Success([TypeDefBlockItem(types)]), FlatMap(types, TypeDefMemberConstants(eval)))
  }

  /** The items one normalized declaration lowers to; every successful
      expansion is well ordered on its own. */
  function DeclarationItems(d: ScopedDeclarationInfo, eval: ConstantEvaluator): (r: Result<seq<BlockItem>, Error>)
    ensures r.Success? ==> WellOrdered(r.value)
  {
    match d
    case ScopedIdentifierDeclaration(storageClass, declaration, initializer) =>
      IdentifierDeclarationWellOrdered(storageClass, declaration, initializer, eval);
      IdentifierDeclarationItems(storageClass, declaration, initializer, eval)
    case TypeDefDeclaration(types) =>
      TypeDefWellOrdered(types, eval);
      TypeDefItems(types, eval)
    case OtherScopedDeclaration(_) =>
      Failure(Wip(212))
  }

  function DeclarationLowering(eval: ConstantEvaluator): ScopedDeclarationInfo -> Result<seq<BlockItem>, Error>
  {
    (d: ScopedDeclarationInfo) => DeclarationItems(d, eval)
  }

  /** The items of a sequence of normalized declarations, each expanded in
      turn: the lowering succeeds exactly when every declaration does, and
      its output is well ordered. */
  function TopLevelItems(normalized: seq<ScopedDeclarationInfo>, eval: ConstantEvaluator)
    : (r: Result<seq<BlockItem>, Error>)
    ensures r.Success? <==> forall i :: 0 <= i < |normalized| ==> DeclarationItems(normalized[i], eval).Success?
    ensures r.Success? ==> WellOrdered(r.value)
  {
    FlatMapSucceeds(normalized, DeclarationLowering(eval));
    WellOrderedClosed();
    FlatMapPreserves(normalized, DeclarationLowering(eval), WellOrdered);
    FlatMap(normalized, DeclarationLowering(eval))
  }

  // ---------------------------------------------------------------------
  // The imperative walk over one symbol declaration

  /** Walks the normalized declarations of `sym` and emits their items one
      declaration after the other, stopping at the first error. */
  method GetTopLevelDeclarations(sym: Ast.Declaration, eval: ConstantEvaluator) returns (r: Result<seq<BlockItem>, Error>)
    requires sym.SymbolDeclaration?
    ensures r == TopLevelItems(sym.normalized, eval)
  {
    var normalized := sym.normalized;
    var items: seq<BlockItem> := [];
    var i := 0;
    assert Chain(Success(items), TopLevelItems(normalized, eval)) == TopLevelItems(normalized, eval) by {
      var all := TopLevelItems(normalized, eval);
      if all.Success? { assert items + all.value == all.value; }
    }
    while i < |normalized|
      invariant 0 <= i <= |normalized|
      invariant TopLevelItems(normalized, eval) == Chain(Success(items), TopLevelItems(normalized[i..], eval))
    {
      assert normalized[i..][0] == normalized[i] && normalized[i..][1..] == normalized[i + 1..];
      var block := EmitDeclaration(normalized[i], eval);
      if block.Failure? {
        return Failure(block.error);
      }
      ghost var rest := TopLevelItems(normalized[i + 1..], eval);
      if rest.Success? {
        assert items + (block.value + rest.value) == (items + block.value) + rest.value;
      }
      items := items + block.value;
      i := i + 1;
    }
    assert normalized[i..] == [];
    assert items + [] == items;
    return Success(items);
  }

  /** The body of the walk: classifies one normalized declaration and emits
      its items, or raises its error. */
  method EmitDeclaration(d: ScopedDeclarationInfo, eval: ConstantEvaluator) returns (r: Result<seq<BlockItem>, Error>)
    ensures r == DeclarationItems(d, eval)
  {
    match d {
      case ScopedIdentifierDeclaration(storageClass, declaration, initializer) =>
        if declaration.identifier.None? {
          return Failure(CompilationError);
        }
        var identifier := declaration.identifier.value;
        var t := declaration.declaredType;
        if t.FunctionType? {
          if initializer.Some? {
            return Failure(CompilationError);
          }
          return Success([FunctionDeclaration(identifier, storageClass, t, declaration.cliImportMemberName)]);
        }
        if declaration.cliImportMemberName.Some? {
          return Failure(CompilationError);
        }
        if IsVariableType(t, identifier) {
          var block := [GlobalVariableDefinition(storageClass, t, identifier)];
          if initializer.Some? {
            block := block + [InitializerStatement(identifier, initializer.value)];
          } else {
            assert block + [] == block;
          }
          return Success(block);
        }
        if t.EnumType? {
          var constants := EnumNumbering.FindEnumConstants(t, eval);
          if constants.Failure? {
            return Failure(constants.error);
          }
          return Success([TagBlockItem([declaration])] + constants.value);
        }
        if t.StructType? {
          return Success([TagBlockItem([declaration])]);
        }
        return Failure(Wip(75));
      case TypeDefDeclaration(types) =>
        var block := [TypeDefBlockItem(types)];
        var j := 0;
        while j < |types|
          invariant 0 <= j <= |types|
          invariant TypeDefItems(types, eval) == Chain(Success(block), FlatMap(types[j..], TypeDefMemberConstants(eval)))
        {
          assert types[j..][0] == types[j] && types[j..][1..] == types[j + 1..];
          ghost var rest := FlatMap(types[j + 1..], TypeDefMemberConstants(eval));
          if types[j].declaredType.EnumType? {
            var constants := EnumNumbering.FindEnumConstants(types[j].declaredType, eval);
            if constants.Failure? {
              return Failure(constants.error);
            }
            if rest.Success? {
              assert block + (constants.value + rest.value) == (block + constants.value) + rest.value;
            }
            block := block + constants.value;
          } else if rest.Success? {
            assert [] + rest.value == rest.value;
          }
          j := j + 1;
        }
        assert types[j..] == [];
        assert block + [] == block;
        return Success(block);
      case OtherScopedDeclaration(_) =>
        return Failure(Wip(212));
    }
  }

  // ---------------------------------------------------------------------
  // The whole translation unit

  function LowerDeclaration(d: Ast.Declaration, eval: ConstantEvaluator): (r: Result<seq<BlockItem>, Error>)
    ensures r.Success? ==> WellOrdered(r.value)
  {
    match d
    case FunctionDefinition(definition) => Success([FunctionDefinition(definition)])
    case SymbolDeclaration(normalized) => TopLevelItems(normalized, eval)
    case PInvokeDeclaration(declaration, prefix) => Success([PInvokeDefinition(declaration, prefix)])
    case OtherDeclaration(_) => Failure(Wip(212))
  }

  function Lowering(eval: ConstantEvaluator): Ast.Declaration -> Result<seq<BlockItem>, Error>
  {
    (d: Ast.Declaration) => LowerDeclaration(d, eval)
  }

  /** Lowers a translation unit: the concatenation, in source order, of the
      items of each declaration. It succeeds exactly when every declaration
      lowers, and then initializers follow their variables and enum
      constants follow the registration of their type. */
  function ToIntermediate(unit: Ast.TranslationUnit, eval: ConstantEvaluator): (r: Result<seq<BlockItem>, Error>)
    ensures r.Success? <==>
      forall i :: 0 <= i < |unit.declarations| ==> LowerDeclaration(unit.declarations[i], eval).Success?
    ensures r.Success? ==> WellOrdered(r.value)
  {
    FlatMapSucceeds(unit.declarations, Lowering(eval));
    WellOrderedClosed();
    FlatMapPreserves(unit.declarations, Lowering(eval), WellOrdered);
    FlatMap(unit.declarations, Lowering(eval))
  }

  // ---------------------------------------------------------------------
  // Well-ordering of each expansion

  lemma WellOrderedClosed()
    ensures WellOrdered([])
    ensures forall a: seq<BlockItem>, b: seq<BlockItem> :: WellOrdered(a) && WellOrdered(b) ==> WellOrdered(a + b)
  {
    forall a: seq<BlockItem>, b: seq<BlockItem> | WellOrdered(a) && WellOrdered(b) ensures WellOrdered(a + b) {
      WellOrderedConcat(a, b);
    }
  }

  lemma IdentifierDeclarationWellOrdered(
    storageClass: StorageClass, declaration: LocalDeclarationInfo, initializer: Option<Expr>, eval: ConstantEvaluator)
    ensures var r := IdentifierDeclarationItems(storageClass, declaration, initializer, eval);
      r.Success? ==> WellOrdered(r.value)
  {
    var r := IdentifierDeclarationItems(storageClass, declaration, initializer, eval);
    var t := declaration.declaredType;
    if r.Success? && declaration.cliImportMemberName.None? && t.EnumType?
       && !IsVariableType(t, declaration.identifier.value) {
      var constants := EnumNumbering.EnumConstants(t, eval).value;
      assert r.value == [TagBlockItem([declaration])] + constants;
      assert Registers(r.value[0], t) by { assert declaration in [declaration]; }
      forall p | 0 <= p < |r.value| && r.value[p].EnumConstantDefinition?
        ensures exists q :: 0 <= q < p && Registers(r.value[q], r.value[p].enumType)
      {
        assert r.value[p] == constants[p - 1];
      }
    }
  }

  /** Every item a typedef's members add is a constant of one of the
      typedef's enum member types. */
  lemma {:induction false} TypeDefMemberConstantsOfMembers(types: seq<LocalDeclarationInfo>, eval: ConstantEvaluator)
    ensures var r := FlatMap(types, TypeDefMemberConstants(eval));
      r.Success? ==> forall p :: 0 <= p < |r.value| ==>
        r.value[p].EnumConstantDefinition?
        && exists d :: d in types && d.declaredType.EnumType? && d.declaredType == r.value[p].enumType
    decreases |types|
  {
    if types != [] {
      var f := TypeDefMemberConstants(eval);
      TypeDefMemberConstantsOfMembers(types[1..], eval);
      var head, rest := f(types[0]), FlatMap(types[1..], f);
      if head.Success? && rest.Success? {
        var all := head.value + rest.value;
        forall p | 0 <= p < |all|
          ensures all[p].EnumConstantDefinition? && exists d :: d in types && d.declaredType.EnumType? && d.declaredType == all[p].enumType
        {
          if p < |head.value| {
            assert types[0].declaredType.EnumType?;
            assert EnumNumbering.IsConstantOf(head.value[p], types[0].declaredType, types[0].declaredType.members[p]);
            assert all[p] == head.value[p];
            assert types[0] in types;
          } else {
            var q := p - |head.value|;
            assert all[p] == rest.value[q];
            assert rest.value[q].EnumConstantDefinition?;
            var d :| d in types[1..] && d.declaredType.EnumType? && d.declaredType == rest.value[q].enumType;
            assert d in types;
          }
        }
      }
    }
  }

  lemma TypeDefWellOrdered(types: seq<LocalDeclarationInfo>, eval: ConstantEvaluator)
    ensures TypeDefItems(types, eval).Success? ==> WellOrdered(TypeDefItems(types, eval).value)
  {
    var r := TypeDefItems(types, eval);
    if r.Success? {
      TypeDefMemberConstantsOfMembers(types, eval);
      var constants := FlatMap(types, TypeDefMemberConstants(eval)).value;
      assert r.value == [TypeDefBlockItem(types)] + constants;
      forall p | 0 <= p < |r.value| && r.value[p].EnumConstantDefinition?
        ensures exists q :: 0 <= q < p && Registers(r.value[q], r.value[p].enumType)
      {
        assert r.value[p] == constants[p - 1];
        assert Registers(r.value[0], r.value[p].enumType);
      }
    }
  }
}
