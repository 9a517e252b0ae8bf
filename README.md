# Top-level declaration lowering of the Cesium C compiler, in Dafny

This project models `TranslationUnitEx`, the pass of Cesium's code generator
that turns a parsed C translation unit into the flat, ordered list of IR block
items the emitter consumes:

- `ToIntermediate` dispatches on each top-level declaration. A function
  definition becomes one `FunctionDefinition` item. A symbol declaration is
  expanded by `GetTopLevelDeclarations`. A P/Invoke declaration becomes one
  `PInvokeDefinition` with its prefix. Any other kind raises `WipException(212)`.
  The expansions are concatenated in source order.
- `GetTopLevelDeclarations` classifies each normalized declaration.
  - An identifier declaration becomes a function declaration, a global
    variable (followed by its initializing assignment when it has one), an
    enum tag with its constants, or a struct tag.
  - Otherwise it raises a compilation error, or `WipException(75)` for an
    unsupported type.
  - A typedef becomes a typedef item followed by the constants of its enum
    member types.
- `FindEnumConstants` numbers enumerators by the C rule of section 6.7.2.2 of
  ISO/IEC 9899 (C11). A counter starts at -1. An implicit enumerator takes
  counter + 1. An integer initializer sets the counter exactly.

Files:

- `results.dfy` (module `Results`): `Option`, `Result`, and `FlatMap`, the
  model of LINQ's `SelectMany` over producers that may throw. Its lemmas cover
  concatenation, success and the first failure.
- `ir.dfy` (module `Ir`): C types, expressions, normalized declaration infos,
  block items, the two error kinds and the constant evaluator's signature.
- `ast.dfy` (module `Ast`): the top-level declarations of a translation unit.
- `enum_numbering.dfy` (module `EnumNumbering`): the numbering loop
  `FindEnumConstants` and its body `NumberEnumerator`, the specification it meets, and a closed form of the
  value C gives each enumerator.
- `item_order.dfy` (module `ItemOrder`): the ordering invariants of a lowered
  item sequence.
- `translation_unit_ex.dfy` (module `TranslationUnitEx`): the classification of
  one declaration, the walk `GetTopLevelDeclarations`, and `ToIntermediate`.
- `lowering_properties.dfy` (module `LoweringProperties`): what each kind of
  declaration lowers to, and how a unit's items are composed.

Each imperative loop of the source is a method proved equal to a pure
specification function: `FindEnumConstants` to `EnumConstants`, and
`GetTopLevelDeclarations` / `EmitDeclaration` to `TopLevelItems` /
`DeclarationItems`. `ToIntermediate`, a single `SelectMany`, is a function.

Points of the code worth noting:

- A normalized declaration of an unknown shape raises `WipException(212)`
  (TranslationUnitEx.cs line 103).
- A typedef always yields its typedef item (line 86), so its expansion is
  never empty.
- Only enum constants are preceded by an item registering their type. A
  variable of struct type gets no tag item of its own (lines 51-61).
- A declaration of enum type, such as `enum E { A } e = init;`, yields the
  enum's tag item and constants only: no variable `e` is defined and the
  initializer is dropped (lines 66-74).

## Model

| member | source | states |
|---|---|---|
| `TranslationUnitEx.ToIntermediate` | Cesium.CodeGen/Extensions/TranslationUnitEx.cs:12-19 | lowering a unit succeeds exactly when every declaration lowers; the output is well ordered (initializers right after their variable, enum constants after the item registering their type) |
| `TranslationUnitEx.LowerDeclaration` | Cesium.CodeGen/Extensions/TranslationUnitEx.cs:13-18 | the expansion of any single top-level declaration is well ordered |
| `LoweringProperties.ToIntermediateConcatenates` | Cesium.CodeGen/Extensions/TranslationUnitEx.cs:13 | the items of `first + second` are the items of `first` followed by those of `second` (source order) |
| `LoweringProperties.ToIntermediateFirstError` | Cesium.CodeGen/Extensions/TranslationUnitEx.cs:13-18 | when declaration k is the first that fails, the unit fails with exactly its error |
| `LoweringProperties.UnsupportedDeclarationIsWip` | Cesium.CodeGen/Extensions/TranslationUnitEx.cs:18 | an unsupported declaration kind, reached with everything before it lowering, fails the unit with WIP 212 |
| `LoweringProperties.DefinitionsLowerOneToOne` | Cesium.CodeGen/Extensions/TranslationUnitEx.cs:15-17 | a unit of function definitions and P/Invoke declarations lowers to one item per declaration at the same position, carrying the definition, or the declaration and its prefix |
| `TranslationUnitEx.GetTopLevelDeclarations` | Cesium.CodeGen/Extensions/TranslationUnitEx.cs:21-106 | the imperative walk over the normalized declarations returns exactly `TopLevelItems`: the concatenation of each declaration's items, or the first error |
| `TranslationUnitEx.EmitDeclaration` | Cesium.CodeGen/Extensions/TranslationUnitEx.cs:26-104 | the loop body, with its early returns and the inner typedef loop, returns exactly `DeclarationItems` of the declaration |
| `TranslationUnitEx.TopLevelItems` | Cesium.CodeGen/Extensions/TranslationUnitEx.cs:24-105 | a symbol declaration expands successfully exactly when each of its normalized declarations does, and the expansion is well ordered |
| `TranslationUnitEx.DeclarationItems` | Cesium.CodeGen/Extensions/TranslationUnitEx.cs:26-104 | each normalized declaration's successful expansion is well ordered |
| `TranslationUnitEx.IdentifierDeclarationItems` | Cesium.CodeGen/Extensions/TranslationUnitEx.cs:30-82 | an unnamed declaration is a compilation error; a successful expansion uses a CLI import name only for a function type, and opens with the declared identifier's function declaration, global variable or tag item |
| `TranslationUnitEx.DeclaresStructVariable` | Cesium.CodeGen/Extensions/TranslationUnitEx.cs:52 | a struct-typed declaration declares a variable exactly when the struct's tag is not the declared name; an untagged struct declares a variable, a struct whose tag is the name does not |
| `TranslationUnitEx.IsVariableType` | Cesium.CodeGen/Extensions/TranslationUnitEx.cs:51-53 | primitive, pointer, in-place array and named types always declare a variable, a struct type exactly when it declares a struct variable, and function, enum and unsupported types never do |
| `TranslationUnitEx.TypeDefItems` | Cesium.CodeGen/Extensions/TranslationUnitEx.cs:84-101 | a typedef's successful expansion opens with its typedef item; it fails only when one of its enum member types fails to number |
| `TranslationUnitEx.IdentifierDeclarationWellOrdered` | Cesium.CodeGen/Extensions/TranslationUnitEx.cs:55-72 | an identifier declaration's items are well ordered: the assignment follows its variable, and the enum tag item comes before the constants |
| `TranslationUnitEx.TypeDefMemberConstantsOfMembers` | Cesium.CodeGen/Extensions/TranslationUnitEx.cs:88-99 | every item a typedef's members add is an enum constant whose type is one of the typedef's member types |
| `TranslationUnitEx.TypeDefWellOrdered` | Cesium.CodeGen/Extensions/TranslationUnitEx.cs:86-99 | a typedef's items are well ordered: its typedef item registers the type of every constant after it |
| `ItemOrder.WellOrderedConcat` | Cesium.CodeGen/Extensions/TranslationUnitEx.cs:13 | the ordering invariants survive concatenation of the blocks of successive declarations |
| `LoweringProperties.FunctionTypeDeclaration` | Cesium.CodeGen/Extensions/TranslationUnitEx.cs:35-44 | a named function-typed declaration succeeds exactly when it has no initializer. It then yields exactly one `FunctionDeclaration` (name, storage class, type, CLI import name) and no variable; otherwise it is a compilation error |
| `LoweringProperties.RejectedDeclarations` | Cesium.CodeGen/Extensions/TranslationUnitEx.cs:32-49 | an unnamed declaration, or a non-function declaration with a CLI import name, is a compilation error whatever its type and initializer |
| `LoweringProperties.VariableDeclaration` | Cesium.CodeGen/Extensions/TranslationUnitEx.cs:51-63 | a variable-like declaration yields its `GlobalVariableDefinition`. With an initializer, exactly one plain `identifier = initializer` statement follows; without one, nothing follows |
| `LoweringProperties.StructDeclarationIsTagOrVariable` | Cesium.CodeGen/Extensions/TranslationUnitEx.cs:51-80 | a struct declaration yields only its tag item exactly when the struct's tag equals the declared name. Otherwise (an untagged struct included) it defines a variable |
| `LoweringProperties.EnumDeclaration` | Cesium.CodeGen/Extensions/TranslationUnitEx.cs:66-74 | an enum declaration yields its tag item, then one constant per enumerator in order, each valued by the C rule. It succeeds exactly when no enumerator is faulty; otherwise it fails with the first faulty enumerator's error |
| `LoweringProperties.UnsupportedTypeIsWip` | Cesium.CodeGen/Extensions/TranslationUnitEx.cs:82 | a named declaration of any other type without CLI import raises WIP 75 |
| `LoweringProperties.TypeDefMemberConstantsCount` | Cesium.CodeGen/Extensions/TranslationUnitEx.cs:88-99 | a typedef's members succeed exactly when each enum member type numbers successfully; they add one constant per enumerator of those enums |
| `LoweringProperties.TypeDefDeclaration` | Cesium.CodeGen/Extensions/TranslationUnitEx.cs:84-101 | a typedef succeeds exactly when each enum member type numbers; it yields its `TypeDefBlockItem` first, then exactly one constant per enumerator of its enum member types, each of one of those enum types |
| `LoweringProperties.TypeDefConstantsInMemberOrder` | Cesium.CodeGen/Extensions/TranslationUnitEx.cs:84-99 | a typedef lowers to its typedef item followed by `EnumMemberConstants`: the constants of each enum member type, member by member in declaration order, and nothing for other members |
| `LoweringProperties.MemberConstantsInOrder` | Cesium.CodeGen/Extensions/TranslationUnitEx.cs:88-99 | the constants the typedef loop collects equal the reference definition built from the last member back |
| `LoweringProperties.TypeDefOfTwoEnums` | Cesium.CodeGen/Extensions/TranslationUnitEx.cs:84-99 | a typedef of two enum types that both number lowers to its typedef item, the first enum's constants, then the second's |
| `LoweringProperties.TypeDefWithoutEnums` | Cesium.CodeGen/Extensions/TranslationUnitEx.cs:88-99 | a typedef with no enum member type yields its typedef item alone |
| `EnumNumbering.FindEnumConstants` | Cesium.CodeGen/Extensions/TranslationUnitEx.cs:108-134 | the counter loop returns exactly `EnumConstants`, the numbering from -1 |
| `EnumNumbering.NumberEnumerator` | Cesium.CodeGen/Extensions/TranslationUnitEx.cs:113-128 | one pass of the loop body returns exactly `NextEnumerator`: an unnamed enumerator is a compilation error, an implicit one takes the counter plus one, an evaluator error is passed on, a non-integer constant is a compilation error, an integer constant becomes the new counter |
| `EnumNumbering.EnumConstantsFrom` | Cesium.CodeGen/Extensions/TranslationUnitEx.cs:111-132 | a successful numbering yields exactly one constant per enumerator, in member order. Each carries the enumerator's name, the enum type and an integer literal |
| `EnumNumbering.EnumConstantsFailure` | Cesium.CodeGen/Extensions/TranslationUnitEx.cs:113-126 | numbering fails exactly when some enumerator is unnamed, has a non-integer initializer or an initializer the evaluator rejects. The error is the first such enumerator's |
| `EnumNumbering.EnumValuesFollowC` | Cesium.CodeGen/Extensions/TranslationUnitEx.cs:110-131 | the constant of enumerator i carries the last explicit value at or before i plus the distance to it; with no explicit value before it, its position counted from the start |
| `EnumNumbering.EnumeratorValueSteps` | Cesium.CodeGen/Extensions/TranslationUnitEx.cs:115-128 | an integer initializer sets an enumerator's value exactly. An implicit enumerator is one more than its predecessor, or 0 for the first |
| `EnumNumbering.ImplicitEnumeratorsCountFromZero` | Cesium.CodeGen/Extensions/TranslationUnitEx.cs:110-118 | named enumerators without initializers are numbered 0, 1, 2, ... in member order |
| `EnumNumbering.ExplicitValueResetsCounter` | Cesium.CodeGen/Extensions/TranslationUnitEx.cs:115-128 | `enum { A, B = 5, C }` yields A = 0, B = 5, C = 6 |
| `Results.FlatMapAppend` | Cesium.CodeGen/Extensions/TranslationUnitEx.cs:13 | flattening distributes over concatenation of the inputs |
| `Results.FlatMapSucceeds` | Cesium.CodeGen/Extensions/TranslationUnitEx.cs:13 | flattening succeeds exactly when every element's producer succeeds |
| `Results.FlatMapFirstFailure` | Cesium.CodeGen/Extensions/TranslationUnitEx.cs:13 | flattening fails with the error of the first element whose producer fails |
| `Results.FlatMapPreserves` | Cesium.CodeGen/Extensions/TranslationUnitEx.cs:13 | a property closed under concatenation that holds of every block holds of the flattening |

## Left out

- Lazy enumeration (`IEnumerable` with `yield`): the result is an eager
  sequence or the first error. Items the source yields before it throws are
  not modelled.
- Because the evaluator is one fixed function, an enumerator's initializer
  cannot depend on names the caller registers in the scope while it consumes
  the lazy sequence (such as `A` in `enum { A, B = A + 1 }`).
- The 64-bit `long` counter of `FindEnumConstants` and the width of
  `IntegerConstant`: values are unbounded integers, so wrap-around at
  `currentValue++` is not modelled.
- `IScopedDeclarationInfo.Of` is not part of this model. A symbol declaration
  carries the normalized declarations it stands for.
- `ConstantEvaluator.GetConstantValue` and the declaration scope are not part
  of this model. They are one total function parameter from an expression to a
  constant or an error, and its errors are passed on unchanged.
- The lowering of function bodies and the IR node constructors are not part of
  this model. A function definition and a P/Invoke declaration are carried as
  opaque text.
- Type identity is structural equality of the `CType` datatype. A struct's tag
  is compared with the declared name as an optional string.
- Exception messages: only the error kind is modelled (compilation error, or
  WIP with its number).
- Lowering the same unit twice gives the same items, because every operation
  is a function of its inputs. The model has no separate statement of this.
