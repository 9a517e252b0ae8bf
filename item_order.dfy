/** Ordering invariants of a lowered item sequence: an initializer statement
    comes right after the global variable it assigns, and every enum constant
    comes after an item that registers its enum type. */
module ItemOrder {
  import opened Ir

  /** `statement` assigns (with plain `=`) to the variable `variable` defines. */
  predicate InitializesVariable(statement: BlockItem, variable: BlockItem)
  {
    && variable.GlobalVariableDefinition?
    && statement.ExpressionStatement?
    && statement.expression.AssignmentExpression?
    && statement.expression.target == IdentifierExpression(variable.identifier)
    && statement.expression.op == Assign
  }

  predicate InitializersFollowVariables(items: seq<BlockItem>)
  {
    forall p :: 0 <= p < |items| && items[p].ExpressionStatement? ==>
      0 < p && InitializesVariable(items[p], items[p - 1])
  }

  /** `item` is a tag or typedef item that declares something of type `t`. */
  predicate Registers(item: BlockItem, t: CType)
  {
    match item
    case TagBlockItem(declarations) => exists d :: d in declarations && d.declaredType == t
    case TypeDefBlockItem(types) => exists d :: d in types && d.declaredType == t
    case _ => false
  }

  predicate ConstantsAreRegistered(items: seq<BlockItem>)
  {
    forall p :: 0 <= p < |items| && items[p].EnumConstantDefinition? ==>
      exists q :: 0 <= q < p && Registers(items[q], items[p].enumType)
  }

  predicate WellOrdered(items: seq<BlockItem>)
  {
    InitializersFollowVariables(items) && ConstantsAreRegistered(items)
  }

  /** Both invariants survive concatenation, so a sequence of well-ordered
      blocks is well ordered. */
  lemma WellOrderedConcat(a: seq<BlockItem>, b: seq<BlockItem>)
    requires WellOrdered(a) && WellOrdered(b)
    ensures WellOrdered(a + b)
  {
    var ab := a + b;
    forall p | 0 <= p < |ab| && ab[p].ExpressionStatement?
      ensures 0 < p && InitializesVariable(ab[p], ab[p - 1])
    {
      if p >= |a| {
        assert ab[p] == b[p - |a|] && ab[p - 1] == b[p - |a| - 1];
      }
    }
    forall p | 0 <= p < |ab| && ab[p].EnumConstantDefinition?
      ensures exists q :: 0 <= q < p && Registers(ab[q], ab[p].enumType)
    {
      if p < |a| {
        var q :| 0 <= q < p && Registers(a[q], a[p].enumType);
        assert ab[q] == a[q];
      } else {
        assert ab[p] == b[p - |a|];
        var q :| 0 <= q < p - |a| && Registers(b[q], b[p - |a|].enumType);
        assert ab[q + |a|] == b[q];
      }
    }
  }
}
