/** Properties of the top-level lowering: what each kind of declaration
    lowers to, which errors it raises, and how the items of a translation
    unit are put together. */
module LoweringProperties {
  import opened Results
  import opened Ir
  import Ast
  import opened EnumNumbering
  import opened TranslationUnitEx

  // ---------------------------------------------------------------------
  // Identifier declarations

  /** A function-typed declaration lowers to exactly its function
      declaration (carrying the CLI import name, if any) and never to a
      variable; with an initializer it is a compilation error. */
  lemma FunctionTypeDeclaration(
    storageClass: StorageClass, declaration: LocalDeclarationInfo, initializer: Option<Expr>, eval: ConstantEvaluator)
    requires declaration.identifier.Some? && declaration.declaredType.FunctionType?
    ensures var r := IdentifierDeclarationItems(storageClass, declaration, initializer, eval);
      && (r.Success? <==> initializer.None?)
      && (r.Failure? ==> r.error == CompilationError)
      && (r.Success? ==> r.value == [FunctionDeclaration(declaration.identifier.value, storageClass,
                                       declaration.declaredType, declaration.cliImportMemberName)])
  {
  }

  /** An unnamed declaration, and a non-function declaration that names a
      CLI import, are compilation errors whatever their type and initializer:
      no item of theirs is produced. */
  lemma RejectedDeclarations(
    storageClass: StorageClass, declaration: LocalDeclarationInfo, initializer: Option<Expr>, eval: ConstantEvaluator)
    ensures declaration.identifier.None? ==>
      IdentifierDeclarationItems(storageClass, declaration, initializer, eval) == Failure(CompilationError)
    ensures declaration.identifier.Some? && !declaration.declaredType.FunctionType?
            && declaration.cliImportMemberName.Some? ==>
      IdentifierDeclarationItems(storageClass, declaration, initializer, eval) == Failure(CompilationError)
  {
  }

  /** A variable-like declaration defines one global variable, followed
      immediately by `identifier = initializer;` when it has an initializer,
      and by nothing otherwise. */
  lemma VariableDeclaration(
    storageClass: StorageClass, declaration: LocalDeclarationInfo, initializer: Option<Expr>, eval: ConstantEvaluator)
    requires declaration.identifier.Some? && declaration.cliImportMemberName.None?
    requires IsVariableType(declaration.declaredType, declaration.identifier.value)
    ensures var r := IdentifierDeclarationItems(storageClass, declaration, initializer, eval);
      var identifier := declaration.identifier.value;
      && r.Success?
      && |r.value| == (if initializer.Some? then 2 else 1)
      && r.value[0] == GlobalVariableDefinition(storageClass, declaration.declaredType, identifier)
      && (initializer.Some? ==>
            r.value[1] == ExpressionStatement(
              AssignmentExpression(IdentifierExpression(identifier), Assign, initializer.value, false)))
  {
  }

  /** A struct-typed declaration registers the struct tag and nothing else
      exactly when the tag is the declared name; otherwise it defines a
      variable of that struct type. */
  lemma StructDeclarationIsTagOrVariable(
    storageClass: StorageClass, declaration: LocalDeclarationInfo, initializer: Option<Expr>, eval: ConstantEvaluator)
    requires declaration.identifier.Some? && declaration.cliImportMemberName.None?
    requires declaration.declaredType.StructType?
    ensures var r := IdentifierDeclarationItems(storageClass, declaration, initializer, eval);
      && r.Success?
      && (r.value == [TagBlockItem([declaration])] <==> declaration.declaredType.tag == declaration.identifier)
      && (declaration.declaredType.tag != declaration.identifier ==>
            r.value[0] == GlobalVariableDefinition(storageClass, declaration.declaredType, declaration.identifier.value))
  {
    var r := IdentifierDeclarationItems(storageClass, declaration, initializer, eval);
    if declaration.declaredType.tag != declaration.identifier {
      assert r.value[0] != TagBlockItem([declaration]);
    }
  }

  /** An enum-typed declaration registers the enum tag, then defines one
      constant per enumerator in member order, valued by the C rule; it fails
      exactly when an enumerator is faulty, with the first one's error. */
  lemma EnumDeclaration(
    storageClass: StorageClass, declaration: LocalDeclarationInfo, initializer: Option<Expr>, eval: ConstantEvaluator)
    requires declaration.identifier.Some? && declaration.cliImportMemberName.None?
    requires declaration.declaredType.EnumType?
    ensures var r := IdentifierDeclarationItems(storageClass, declaration, initializer, eval);
      var t := declaration.declaredType;
      && (r.Success? <==> forall k :: 0 <= k < |t.members| ==> EnumeratorError(t.members[k], eval).None?)
      && (r.Failure? ==> forall k :: FirstFaulty(t.members, eval, k) ==> r.error == EnumeratorError(t.members[k], eval).value)
      && (r.Success? ==>
            && |r.value| == 1 + |t.members|
            && r.value[0] == TagBlockItem([declaration])
            && forall i :: 0 <= i < |t.members| ==>
                 r.value[i + 1] == EnumConstantDefinition(t.members[i].identifier.value, t,
                                     ConstantLiteralExpression(IntegerConstant(ExpectedValue(t.members, eval, -1, i)))))
  {
    var r := IdentifierDeclarationItems(storageClass, declaration, initializer, eval);
    var t := declaration.declaredType;
    EnumConstantsFailure(t, t.members, eval, -1);
    if r.Success? {
      var constants := EnumConstants(t, eval).value;
      EnumValuesFollowC(t, t.members, eval, -1);
      assert r.value == [TagBlockItem([declaration])] + constants;
      forall i | 0 <= i < |t.members|
        ensures r.value[i + 1] == EnumConstantDefinition(t.members[i].identifier.value, t,
                                    ConstantLiteralExpression(IntegerConstant(ExpectedValue(t.members, eval, -1, i))))
      {
        assert r.value[i + 1] == constants[i];
      }
    }
  }

  /** A declaration of any other type (neither function, variable-like,
      enum nor struct) is not supported yet: tracking number 75. */
  lemma UnsupportedTypeIsWip(
    storageClass: StorageClass, declaration: LocalDeclarationInfo, initializer: Option<Expr>, eval: ConstantEvaluator)
    requires declaration.identifier.Some? && declaration.cliImportMemberName.None?
    requires declaration.declaredType.OtherType?
    ensures IdentifierDeclarationItems(storageClass, declaration, initializer, eval) == Failure(Wip(75))
  {
  }

  // ---------------------------------------------------------------------
  // Typedefs

  /** The number of enumerators of the enum types among `types`. */
  function EnumeratorCount(types: seq<LocalDeclarationInfo>): nat
  {
    if types == [] then 0
    else (if types[0].declaredType.EnumType? then |types[0].declaredType.members| else 0) + EnumeratorCount(types[1..])
  }

  /** A typedef's members add one constant per enumerator of its enum
      member types, and fail exactly when one of those enums fails to number. */
  lemma {:induction false} TypeDefMemberConstantsCount(types: seq<LocalDeclarationInfo>, eval: ConstantEvaluator)
    ensures var r := FlatMap(types, TypeDefMemberConstants(eval));
      && (r.Success? <==> forall k :: 0 <= k < |types| && types[k].declaredType.EnumType? ==>
                            EnumConstants(types[k].declaredType, eval).Success?)
      && (r.Success? ==> |r.value| == EnumeratorCount(types))
    decreases |types|
  {
    if types != [] {
      TypeDefMemberConstantsCount(types[1..], eval);
      assert forall k :: 1 <= k < |types| ==> types[1..][k - 1] == types[k];
    }
  }

  /** A typedef lowers to its typedef item followed by one constant per
      enumerator of its enum member types, each of one of those types. */
  lemma TypeDefDeclaration(types: seq<LocalDeclarationInfo>, eval: ConstantEvaluator)
    ensures var r := DeclarationItems(ScopedDeclarationInfo.TypeDefDeclaration(types), eval);
      && (r.Success? <==> forall k :: 0 <= k < |types| && types[k].declaredType.EnumType? ==>
                            EnumConstants(types[k].declaredType, eval).Success?)
      && (r.Success? ==> |r.value| == 1 + EnumeratorCount(types) && r.value[0] == TypeDefBlockItem(types))
      && (r.Success? ==> forall p :: 1 <= p < |r.value| ==>
            && r.value[p].EnumConstantDefinition?
            && exists d :: d in types && d.declaredType.EnumType? && d.declaredType == r.value[p].enumType)
  {
    TypeDefMemberConstantsCount(types, eval);
    TypeDefMemberConstantsOfMembers(types, eval);
    var r := DeclarationItems(ScopedDeclarationInfo.TypeDefDeclaration(types), eval);
    if r.Success? {
      var constants := FlatMap(types, TypeDefMemberConstants(eval)).value;
      assert r.value == [TypeDefBlockItem(types)] + constants;
      assert forall p :: 1 <= p < |r.value| ==> r.value[p] == constants[p - 1];
    }
  }

  /** The constants a typedef adds, defined member by member from its last
      member back: those of all members but the last, then the last member's
      own constants when it is an enum. */
  function EnumMemberConstants(types: seq<LocalDeclarationInfo>, eval: ConstantEvaluator): Result<seq<BlockItem>, Error>
    decreases |types|
  {
    if types == [] then Success([])
    else
      var last := types[|types| - 1];
      Chain(EnumMemberConstants(types[..|types| - 1], eval),
            if last.declaredType.EnumType? then EnumConstants(last.declaredType, eval) else Success([]))
  }

  /** A typedef lowers to its typedef item followed by the constants of its
      enum member types, member by member in declaration order. */
  lemma TypeDefConstantsInMemberOrder(types: seq<LocalDeclarationInfo>, eval: ConstantEvaluator)
    ensures DeclarationItems(ScopedDeclarationInfo.TypeDefDeclaration(types), eval)
         == Chain(Success([TypeDefBlockItem(types)]), EnumMemberConstants(types, eval))
  {
    MemberConstantsInOrder(types, eval);
  }

  /** The constants the typedef loop collects are those of `EnumMemberConstants`. */
  lemma {:induction false} MemberConstantsInOrder(types: seq<LocalDeclarationInfo>, eval: ConstantEvaluator)
    ensures FlatMap(types, TypeDefMemberConstants(eval)) == EnumMemberConstants(types, eval)
    decreases |types|
  {
    var f := TypeDefMemberConstants(eval);
    if types != [] {
      var init, last := types[..|types| - 1], types[|types| - 1];
      assert types == init + [last];
      MemberConstantsInOrder(init, eval);
      FlatMapAppend(init, [last], f);
      assert [last][1..] == [];
      var own := f(last);
      if own.Success? {
        assert own.value + [] == own.value;
      }
      assert FlatMap([last], f) == own;
    }
  }

  /** A typedef of two enum types that both number lowers to its typedef
      item, the first enum's constants, then the second's. */
  lemma TypeDefOfTwoEnums(a: LocalDeclarationInfo, b: LocalDeclarationInfo, eval: ConstantEvaluator)
    requires a.declaredType.EnumType? && b.declaredType.EnumType?
    requires EnumConstants(a.declaredType, eval).Success? && EnumConstants(b.declaredType, eval).Success?
    ensures DeclarationItems(ScopedDeclarationInfo.TypeDefDeclaration([a, b]), eval)
         == Success([TypeDefBlockItem([a, b])] + EnumConstants(a.declaredType, eval).value + EnumConstants(b.declaredType, eval).value)
  {
    var item := TypeDefBlockItem([a, b]);
    var ca, cb := EnumConstants(a.declaredType, eval).value, EnumConstants(b.declaredType, eval).value;
    TypeDefConstantsInMemberOrder([a, b], eval);
    TwoEnumMembers(a, b, eval);
    assert [item] + (ca + cb) == [item] + ca + cb;
  }

  /** The constants of two enum members are the first's, then the second's. */
  lemma TwoEnumMembers(a: LocalDeclarationInfo, b: LocalDeclarationInfo, eval: ConstantEvaluator)
    requires a.declaredType.EnumType? && b.declaredType.EnumType?
    requires EnumConstants(a.declaredType, eval).Success? && EnumConstants(b.declaredType, eval).Success?
    ensures EnumMemberConstants([a, b], eval)
         == Success(EnumConstants(a.declaredType, eval).value + EnumConstants(b.declaredType, eval).value)
  {
    var ca := EnumConstants(a.declaredType, eval).value;
    assert EnumMemberConstants([a], eval) == Success(ca) by {
      assert [a][..0] == [];
      assert [] + ca == ca;
    }
    assert [a, b][..1] == [a] && [a, b][1] == b;
  }

  /** A typedef none of whose member types is an enum lowers to its typedef
      item alone. */
  lemma TypeDefWithoutEnums(types: seq<LocalDeclarationInfo>, eval: ConstantEvaluator)
    requires forall k :: 0 <= k < |types| ==> !types[k].declaredType.EnumType?
    ensures DeclarationItems(ScopedDeclarationInfo.TypeDefDeclaration(types), eval) == Success([TypeDefBlockItem(types)])
  {
    TypeDefDeclaration(types, eval);
    NoEnumsNoEnumerators(types);
    var r := DeclarationItems(ScopedDeclarationInfo.TypeDefDeclaration(types), eval);
    assert r.value == [TypeDefBlockItem(types)];
  }

  lemma {:induction false} NoEnumsNoEnumerators(types: seq<LocalDeclarationInfo>)
    requires forall k :: 0 <= k < |types| ==> !types[k].declaredType.EnumType?
    ensures EnumeratorCount(types) == 0
    decreases |types|
  {
    if types != [] {
      assert forall k :: 0 <= k < |types[1..]| ==> types[1..][k] == types[k + 1];
      NoEnumsNoEnumerators(types[1..]);
    }
  }

  // ---------------------------------------------------------------------
  // Translation units

  /** The items of a unit are those of its first part followed by those of
      the rest: lowering respects source order. */
  lemma ToIntermediateConcatenates(first: seq<Ast.Declaration>, second: seq<Ast.Declaration>, eval: ConstantEvaluator)
    ensures ToIntermediate(Ast.TranslationUnit(first + second), eval)
         == Chain(ToIntermediate(Ast.TranslationUnit(first), eval), ToIntermediate(Ast.TranslationUnit(second), eval))
  {
    FlatMapAppend(first, second, Lowering(eval));
  }

  /** A unit whose `k`-th declaration is the first one that fails raises
      that declaration's error. */
  lemma ToIntermediateFirstError(unit: Ast.TranslationUnit, eval: ConstantEvaluator, k: nat)
    requires k < |unit.declarations| && LowerDeclaration(unit.declarations[k], eval).Failure?
    requires forall j :: 0 <= j < k ==> LowerDeclaration(unit.declarations[j], eval).Success?
    ensures ToIntermediate(unit, eval) == Failure(LowerDeclaration(unit.declarations[k], eval).error)
  {
    FlatMapFirstFailure(unit.declarations, Lowering(eval), k);
  }

  /** A declaration kind with no lowering rule makes the unit fail with
      tracking number 212 when every declaration before it lowers. */
  lemma UnsupportedDeclarationIsWip(unit: Ast.TranslationUnit, eval: ConstantEvaluator, k: nat)
    requires k < |unit.declarations| && unit.declarations[k].OtherDeclaration?
    requires forall j :: 0 <= j < k ==> LowerDeclaration(unit.declarations[j], eval).Success?
    ensures ToIntermediate(unit, eval) == Failure(Wip(212))
  {
    ToIntermediateFirstError(unit, eval, k);
  }

  /** Function definitions and P/Invoke declarations lower to exactly one
      item each, at the same position, carrying the declaration (and the
      prefix). */
  lemma {:induction false} DefinitionsLowerOneToOne(declarations: seq<Ast.Declaration>, eval: ConstantEvaluator)
    requires forall i :: 0 <= i < |declarations| ==>
      declarations[i].FunctionDefinition? || declarations[i].PInvokeDeclaration?
    ensures var r := ToIntermediate(Ast.TranslationUnit(declarations), eval);
      && r.Success?
      && |r.value| == |declarations|
      && (forall i :: 0 <= i < |declarations| && declarations[i].FunctionDefinition? ==>
            r.value[i] == FunctionDefinition(declarations[i].definition))
      && (forall i :: 0 <= i < |declarations| && declarations[i].PInvokeDeclaration? ==>
            r.value[i] == PInvokeDefinition(declarations[i].declaration, declarations[i].prefix))
    decreases |declarations|
  {
    if declarations != [] {
      var tail := declarations[1..];
      assert forall i :: 1 <= i < |declarations| ==> tail[i - 1] == declarations[i];
      DefinitionsLowerOneToOne(tail, eval);
      var r := ToIntermediate(Ast.TranslationUnit(declarations), eval);
      var rest := ToIntermediate(Ast.TranslationUnit(tail), eval);
      assert r == Chain(LowerDeclaration(declarations[0], eval), rest);
      assert r.value == LowerDeclaration(declarations[0], eval).value + rest.value;
      assert forall i :: 1 <= i < |declarations| ==> r.value[i] == rest.value[i - 1];
    }
  }
}
