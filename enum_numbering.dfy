/** Numbering of enumerators (FindEnumConstants): the C rule of section
    6.7.2.2 of ISO/IEC 9899 (C11). A running counter starts at -1; an
    enumerator without an initializer takes the counter plus one, one with an
    integer initializer sets the counter to exactly that value. */
module EnumNumbering {
  import opened Results
  import opened Ir

  /** One step of the numbering: the enumerator's name and the new counter,
      or the error the enumerator raises. */
  function NextEnumerator(e: Enumerator, eval: ConstantEvaluator, counter: int): Result<(string, int), Error>
  {
    match e.identifier
    case None => Failure(CompilationError)
    case Some(name) =>
      match e.initializer
      case None => Success((name, counter + 1))
      case Some(init) =>
        match eval(init)
        case Failure(err) => Failure(err)
        case Success(IntegerConstant(v)) => Success((name, v))
        case Success(NonIntegerConstant(_)) => Failure(CompilationError)
  }

  /** The item emitted for `e` is its constant definition in `enumType`,
      with an integer literal as its value. */
  predicate IsConstantOf(item: BlockItem, enumType: CType, e: Enumerator)
  {
    && item.EnumConstantDefinition?
    && item.enumType == enumType
    && e.identifier == Some(item.identifier)
    && item.value.ConstantLiteralExpression?
    && item.value.constant.IntegerConstant?
  }

  /** The constants of `members`, numbered on from `counter`. */
  function EnumConstantsFrom(enumType: CType, members: seq<Enumerator>, eval: ConstantEvaluator, counter: int)
    : (r: Result<seq<BlockItem>, Error>)
    ensures r.Success? ==>
      && |r.value| == |members|
      && forall i :: 0 <= i < |members| ==> IsConstantOf(r.value[i], enumType, members[i])
    decreases |members|
  {
    if members == [] then Success([])
    else
      match NextEnumerator(members[0], eval, counter)
      case Failure(e) => Failure(e)
      case Success((name, value)) =>
        Chain(Success([EnumConstantDefinition(name, enumType, ConstantLiteralExpression(IntegerConstant(value)))]),
              EnumConstantsFrom(enumType, members[1..], eval, value))
  }

  /** The constants of an enum type, its counter starting at -1. */
  function EnumConstants(enumType: CType, eval: ConstantEvaluator): Result<seq<BlockItem>, Error>
    requires enumType.EnumType?
  {
    EnumConstantsFrom(enumType, enumType.members, eval, -1)
  }

  /** The imperative numbering loop, with the counter as a local variable. */
  method FindEnumConstants(enumType: CType, eval: ConstantEvaluator) returns (r: Result<seq<BlockItem>, Error>)
    requires enumType.EnumType?
    ensures r == EnumConstants(enumType, eval)
  {
    var members := enumType.members;
    var currentValue := -1;
    var items: seq<BlockItem> := [];
    var i := 0;
    assert Chain(Success(items), EnumConstantsFrom(enumType, members, eval, currentValue))
        == EnumConstantsFrom(enumType, members, eval, currentValue) by {
      var rest := EnumConstantsFrom(enumType, members, eval, currentValue);
      if rest.Success? { assert items + rest.value == rest.value; }
    }
    while i < |members|
      invariant 0 <= i <= |members|
      invariant EnumConstants(enumType, eval)
             == Chain(Success(items), EnumConstantsFrom(enumType, members[i..], eval, currentValue))
    {
      var step := NumberEnumerator(members[i], eval, currentValue);
      if step.Failure? {
        NumberingStops(enumType, eval, items, i, currentValue);
        return Failure(step.error);
      }
      var (name, value) := step.value;
      NumberingAdvances(enumType, eval, items, i, currentValue, name, value);
      items := items + [EnumConstantDefinition(name, enumType, ConstantLiteralExpression(IntegerConstant(value)))];
      currentValue := value;
      i := i + 1;
    }
    assert members[i..] == [];
    assert items + [] == items;
    return Success(items);
  }

  /** The body of the numbering loop for one enumerator: its name and the
      new counter, or the error it raises. */
  method NumberEnumerator(e: Enumerator, eval: ConstantEvaluator, currentValue: int)
    returns (r: Result<(string, int), Error>)
    ensures r == NextEnumerator(e, eval, currentValue)
  {
    if e.identifier.None? {
      return Failure(CompilationError);
    }
    var name := e.identifier.value;
    if e.initializer.None? {
      return Success((name, currentValue + 1));
    }
    var constantValue := eval(e.initializer.value);
    if constantValue.Failure? {
      return Failure(constantValue.error);
    }
    if !constantValue.value.IntegerConstant? {
      return Failure(CompilationError);
    }
    return Success((name, constantValue.value.value));
  }

  /** Numbering from enumerator `i` is its step followed by the numbering
      of the rest from the new counter. */
  lemma NumberingStep(enumType: CType, members: seq<Enumerator>, eval: ConstantEvaluator, i: nat, counter: int)
    requires i < |members|
    ensures var step := NextEnumerator(members[i], eval, counter);
      EnumConstantsFrom(enumType, members[i..], eval, counter) ==
        if step.Failure? then Failure(step.error)
        else Chain(Success([EnumConstantDefinition(step.value.0, enumType, ConstantLiteralExpression(IntegerConstant(step.value.1)))]),
                   EnumConstantsFrom(enumType, members[i + 1..], eval, step.value.1))
  {
    assert members[i..][0] == members[i] && members[i..][1..] == members[i + 1..];
  }

  /** An enumerator that numbers as `value` extends the items emitted so far
      by its constant, and numbering goes on from `value`. */
  lemma NumberingAdvances(
    enumType: CType, eval: ConstantEvaluator, items: seq<BlockItem>, i: nat, counter: int, name: string, value: int)
    requires enumType.EnumType? && i < |enumType.members|
    requires EnumConstants(enumType, eval)
          == Chain(Success(items), EnumConstantsFrom(enumType, enumType.members[i..], eval, counter))
    requires NextEnumerator(enumType.members[i], eval, counter) == Success((name, value))
    ensures EnumConstants(enumType, eval)
         == Chain(Success(items + [EnumConstantDefinition(name, enumType, ConstantLiteralExpression(IntegerConstant(value)))]),
                  EnumConstantsFrom(enumType, enumType.members[i + 1..], eval, value))
  {
    var item := EnumConstantDefinition(name, enumType, ConstantLiteralExpression(IntegerConstant(value)));
    NumberingStep(enumType, enumType.members, eval, i, counter);
    ChainAssociative(Success(items), Success([item]), EnumConstantsFrom(enumType, enumType.members[i + 1..], eval, value));
  }

  /** An enumerator that raises an error ends the numbering with that error. */
  lemma NumberingStops(enumType: CType, eval: ConstantEvaluator, items: seq<BlockItem>, i: nat, counter: int)
    requires enumType.EnumType? && i < |enumType.members|
    requires EnumConstants(enumType, eval)
          == Chain(Success(items), EnumConstantsFrom(enumType, enumType.members[i..], eval, counter))
    requires NextEnumerator(enumType.members[i], eval, counter).Failure?
    ensures EnumConstants(enumType, eval) == Failure(NextEnumerator(enumType.members[i], eval, counter).error)
  {
    NumberingStep(enumType, enumType.members, eval, i, counter);
  }

  // ---------------------------------------------------------------------
  // Errors

  /** The error an enumerator raises wherever it stands: a missing name or
      a non-integer initializer is a compilation error, and an error of the
      constant evaluator is passed on. */
  function EnumeratorError(e: Enumerator, eval: ConstantEvaluator): Option<Error>
  {
    if e.identifier.None? then Some(CompilationError)
    else if e.initializer.None? then None
    else
      match eval(e.initializer.value)
      case Failure(err) => Some(err)
      case Success(c) => if c.IntegerConstant? then None else Some(CompilationError)
  }

  /** `k` is the first enumerator of `members` that raises an error. */
  predicate FirstFaulty(members: seq<Enumerator>, eval: ConstantEvaluator, k: int)
  {
    && 0 <= k < |members|
    && EnumeratorError(members[k], eval).Some?
    && forall j :: 0 <= j < k ==> EnumeratorError(members[j], eval).None?
  }

  /** The numbering fails exactly when some enumerator is faulty, and then
      with the error of the first faulty one, whatever the counter. */
  lemma {:induction false} EnumConstantsFailure(
    enumType: CType, members: seq<Enumerator>, eval: ConstantEvaluator, counter: int)
    ensures EnumConstantsFrom(enumType, members, eval, counter).Failure?
        <==> exists k :: 0 <= k < |members| && EnumeratorError(members[k], eval).Some?
    ensures forall k :: FirstFaulty(members, eval, k) ==>
      EnumConstantsFrom(enumType, members, eval, counter) == Failure(EnumeratorError(members[k], eval).value)
    decreases |members|
  {
    if members != [] {
      var tail := members[1..];
      assert forall j :: 0 <= j < |tail| ==> tail[j] == members[j + 1];
      var step := NextEnumerator(members[0], eval, counter);
      if step.Success? {
        EnumConstantsFailure(enumType, tail, eval, step.value.1);
        assert EnumeratorError(members[0], eval).None?;
        forall k | FirstFaulty(members, eval, k)
          ensures EnumConstantsFrom(enumType, members, eval, counter) == Failure(EnumeratorError(members[k], eval).value)
        {
          assert FirstFaulty(tail, eval, k - 1);
        }
        if exists k :: 0 <= k < |members| && EnumeratorError(members[k], eval).Some? {
          var k :| 0 <= k < |members| && EnumeratorError(members[k], eval).Some?;
          assert EnumeratorError(tail[k - 1], eval).Some?;
        }
      } else {
        assert EnumeratorError(members[0], eval) == Some(step.error);
        assert forall k :: FirstFaulty(members, eval, k) ==> k == 0;
      }
    }
  }

  // ---------------------------------------------------------------------
  // Values

  /** The value of an integer initializer, if the enumerator has one. */
  function InitializerValue(e: Enumerator, eval: ConstantEvaluator): Option<int>
  {
    match e.initializer
    case None => None
    case Some(init) =>
      match eval(init)
      case Success(IntegerConstant(v)) => Some(v)
      case _ => None
  }

  /** The nearest enumerator at or before `i` with an integer initializer,
      and that initializer's value. */
  function LastExplicit(members: seq<Enumerator>, eval: ConstantEvaluator, i: nat): Option<(nat, int)>
    requires i < |members|
  {
    match InitializerValue(members[i], eval)
    case Some(v) => Some((i, v))
    case None => if i == 0 then None else LastExplicit(members, eval, i - 1)
  }

  /** The value C gives enumerator `i`: the last explicit value at or before
      it plus the distance to it, or, when there is none, its position
      counted on from `start + 1`. */
  function ExpectedValue(members: seq<Enumerator>, eval: ConstantEvaluator, start: int, i: nat): int
    requires i < |members|
  {
    match LastExplicit(members, eval, i)
    case Some((j, v)) => v + (i - j)
    case None => start + 1 + i
  }

  lemma {:induction false} LastExplicitInTail(members: seq<Enumerator>, eval: ConstantEvaluator, i: nat)
    requires 1 <= i < |members|
    ensures LastExplicit(members, eval, i) ==
      match LastExplicit(members[1..], eval, i - 1)
      case Some((j, v)) => Some((j + 1, v))
      case None => LastExplicit(members, eval, 0)
    decreases i
  {
    assert members[1..][i - 1] == members[i];
    if InitializerValue(members[i], eval).None? && i > 1 {
      LastExplicitInTail(members, eval, i - 1);
    }
  }

  /** Every constant carries its enumerator's name, the enum type, and the
      value the C rule gives it. */
  lemma {:induction false} EnumValuesFollowC(
    enumType: CType, members: seq<Enumerator>, eval: ConstantEvaluator, start: int)
    requires EnumConstantsFrom(enumType, members, eval, start).Success?
    ensures var items := EnumConstantsFrom(enumType, members, eval, start).value;
      forall i :: 0 <= i < |members| ==>
        && members[i].identifier.Some?
        && items[i] == EnumConstantDefinition(members[i].identifier.value, enumType,
                         ConstantLiteralExpression(IntegerConstant(ExpectedValue(members, eval, start, i))))
    decreases |members|
  {
    if members != [] {
      var items := EnumConstantsFrom(enumType, members, eval, start).value;
      var step := NextEnumerator(members[0], eval, start);
      var v0 := step.value.1;
      var tail := members[1..];
      EnumValuesFollowC(enumType, tail, eval, v0);
      var tailItems := EnumConstantsFrom(enumType, tail, eval, v0).value;
      assert items == [EnumConstantDefinition(step.value.0, enumType, ConstantLiteralExpression(IntegerConstant(v0)))] + tailItems;
      assert ExpectedValue(members, eval, start, 0) == v0;
      forall i | 1 <= i < |members|
        ensures ExpectedValue(members, eval, start, i) == ExpectedValue(tail, eval, v0, i - 1)
      {
        LastExplicitInTail(members, eval, i);
      }
      forall i | 1 <= i < |members|
        ensures items[i] == EnumConstantDefinition(members[i].identifier.value, enumType,
                  ConstantLiteralExpression(IntegerConstant(ExpectedValue(members, eval, start, i))))
      {
        assert items[i] == tailItems[i - 1] && tail[i - 1] == members[i];
      }
    }
  }

  /** The value of each enumerator follows from its predecessor's: an
      integer initializer sets it exactly, otherwise it is one more than the
      previous value (and 0 for the first). */
  lemma EnumeratorValueSteps(members: seq<Enumerator>, eval: ConstantEvaluator, start: int, i: nat)
    requires i < |members|
    ensures InitializerValue(members[i], eval).Some? ==>
      ExpectedValue(members, eval, start, i) == InitializerValue(members[i], eval).value
    ensures InitializerValue(members[i], eval).None? ==>
      ExpectedValue(members, eval, start, i) ==
        (if i == 0 then start + 1 else ExpectedValue(members, eval, start, i - 1) + 1)
  {
  }

  lemma {:induction false} NoInitializerNoExplicit(members: seq<Enumerator>, eval: ConstantEvaluator, i: nat)
    requires i < |members|
    requires forall j :: 0 <= j < |members| ==> members[j].initializer.None?
    ensures LastExplicit(members, eval, i).None?
    decreases i
  {
    if i > 0 {
      NoInitializerNoExplicit(members, eval, i - 1);
    }
  }

  /** An enum whose enumerators are all named and none has an initializer
      numbers them 0, 1, 2, ... in member order. */
  lemma ImplicitEnumeratorsCountFromZero(enumType: CType, eval: ConstantEvaluator)
    requires enumType.EnumType?
    requires forall j :: 0 <= j < |enumType.members| ==>
      enumType.members[j].identifier.Some? && enumType.members[j].initializer.None?
    ensures EnumConstants(enumType, eval).Success?
    ensures forall i :: 0 <= i < |enumType.members| ==>
      EnumConstants(enumType, eval).value[i].value == ConstantLiteralExpression(IntegerConstant(i))
  {
    var members := enumType.members;
    EnumConstantsFailure(enumType, members, eval, -1);
    EnumValuesFollowC(enumType, members, eval, -1);
    forall i | 0 <= i < |members| ensures ExpectedValue(members, eval, -1, i) == i {
      NoInitializerNoExplicit(members, eval, i);
    }
  }

  /** `enum { A, B = 5, C }` numbers A, B and C as 0, 5 and 6. */
  lemma ExplicitValueResetsCounter(a: string, b: string, c: string, five: Expr, eval: ConstantEvaluator)
    requires eval(five) == Success(IntegerConstant(5))
    ensures var enumType := EnumType(None, [Enumerator(Some(a), None), Enumerator(Some(b), Some(five)), Enumerator(Some(c), None)]);
      EnumConstants(enumType, eval) == Success([
        EnumConstantDefinition(a, enumType, ConstantLiteralExpression(IntegerConstant(0))),
        EnumConstantDefinition(b, enumType, ConstantLiteralExpression(IntegerConstant(5))),
        EnumConstantDefinition(c, enumType, ConstantLiteralExpression(IntegerConstant(6)))])
  {
    var members := [Enumerator(Some(a), None), Enumerator(Some(b), Some(five)), Enumerator(Some(c), None)];
    var enumType := EnumType(None, members);
    EnumConstantsFailure(enumType, members, eval, -1);
    assert forall j :: 0 <= j < 3 ==> EnumeratorError(members[j], eval).None?;
    EnumValuesFollowC(enumType, members, eval, -1);
    assert LastExplicit(members, eval, 0).None?;
    assert LastExplicit(members, eval, 1) == Some((1, 5));
    assert LastExplicit(members, eval, 2) == Some((1, 5));
    var items := EnumConstants(enumType, eval).value;
    assert items == [
      EnumConstantDefinition(a, enumType, ConstantLiteralExpression(IntegerConstant(0))),
      EnumConstantDefinition(b, enumType, ConstantLiteralExpression(IntegerConstant(5))),
      EnumConstantDefinition(c, enumType, ConstantLiteralExpression(IntegerConstant(6)))];
  }
}
