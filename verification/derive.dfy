/**
 The `#[derive(Size)]` generator of the value-size-derive crate.

 The generator reads the declared shape of a type and emits an
 `impl value_size::Size` whose only method, `indirect_size`, matches on
 `self` with one arm per variant and sums `indirect_size` over the arm's
 bindings. Token streams are not modelled: the emitted impl is described by
 the `SizeImpl` datatype, and its meaning by `EvalIndirectSize`, which evaluates
 the emitted arms against a value of the derived type.
 */
module Derive {
  import opened Wrappers
  import Decimal
  import ValueSize

  /*** The input: a type's declared shape ***/

  /** The field set of a struct or of one enum variant. */
  datatype Fields = Named(names: seq<string>) | Unnamed(arity: nat) | Unit

  datatype Variant = Variant(ident: string, fields: Fields)

  /** The body of the type the derive is applied to. */
  datatype Data = Struct(fields: Fields) | Enum(variants: seq<Variant>) | Union(fieldNames: seq<string>)

  datatype GenericParam = TypeParam(ident: string) | LifetimeParam(ident: string) | ConstParam(ident: string)

  /** A where-clause predicate: one the user wrote, or a `P: value_size::Size` bound. */
  datatype WherePredicate = Written(text: string) | SizeBound(param: string)

  datatype DeriveInput = DeriveInput(
    ident: string,
    params: seq<GenericParam>,
    predicates: seq<WherePredicate>,
    data: Data)

  /** A struct or an enum variant, seen uniformly: a struct has no variant name. */
  datatype MaybeVariant = MaybeVariant(ident: Option<string>, fields: Fields)

  /*** The output: the emitted impl ***/

  /** What follows the arm's path: `{ a, b }`, `( field0, field1 )`, or nothing. */
  datatype PatternKind = Braces | Parens | NoPattern

  /**
   One summand of an arm body: `value_size::Size::indirect_size(b)`.
   `Zero`, a literal `0`, is emitted only by the corrected generator.
   */
  datatype Term = IndirectSizeOf(binding: string) | Zero

  /** `#typeIdent::#variant #pattern => #body,` (or `#typeIdent #pattern => #body,` for a struct). */
  datatype Arm = Arm(
    typeIdent: string,
    variant: Option<string>,
    pattern: PatternKind,
    bindings: seq<string>,
    body: seq<Term>)

  /**
   `impl<params> value_size::Size for selfTy<params> where predicates` with
   the single method `indirect_size`, whose `match self` has the given arms.
   There is no part for `full_size`: the trait's provided method applies.
   */
  datatype SizeImpl = SizeImpl(
    selfTy: string,
    params: seq<GenericParam>,
    predicates: seq<WherePredicate>,
    arms: seq<Arm>)

  /** The result of expanding the derive: an impl, or a compile-time panic. */
  datatype Expansion = Expanded(impl: SizeImpl) | Panicked(message: string)

  const UnionMessage := "unions are for people, not data!"

  /*** The generator ***/

  /** One `MaybeVariant` per struct or per enum variant, in declaration order; unions have none. */
  function Variants(data: Data): Option<seq<MaybeVariant>>
  {
    match data
    case Struct(fields) => Some([MaybeVariant(None, fields)])
    case Enum(vs) => Some(seq(|vs|, i requires 0 <= i < |vs| => MaybeVariant(Some(vs[i].ident), vs[i].fields)))
    case Union(_) => None
  }

  /** The number of fields a field set declares. */
  function Arity(fields: Fields): nat
  {
    match fields
    case Named(names) => |names|
    case Unnamed(n) => n
    case Unit => 0
  }

  /** The identifier `format_ident!("field{i}")` makes for the `i`-th positional field. */
  function FieldName(i: nat): string
  {
    "field" + Decimal.Show(i)
  }

  /** The field pattern and the names it binds, one per field in declaration order. */
  function Bindings(fields: Fields): (r: (PatternKind, seq<string>))
    ensures |r.1| == Arity(fields)
  {
    match fields
    case Named(names) => (Braces, names)
    case Unnamed(n) => (Parens, seq(n, i requires 0 <= i => FieldName(i)))
    case Unit => (NoPattern, [])
  }

  /** The `+`-joined `indirect_size` calls, one per binding, in binding order. */
  function Body(bindings: seq<string>): seq<Term>
  {
    seq(|bindings|, i requires 0 <= i < |bindings| => IndirectSizeOf(bindings[i]))
  }

  function ArmFor(typeIdent: string, v: MaybeVariant): Arm
  {
    var (pattern, names) := Bindings(v.fields);
    Arm(typeIdent, v.ident, pattern, names, Body(names))
  }

  /** One `P: value_size::Size` per type parameter, in declaration order. */
  function TypeParamBounds(params: seq<GenericParam>): seq<WherePredicate>
  {
    if params == [] then []
    else
      var p := params[|params| - 1];
      TypeParamBounds(params[..|params| - 1]) + (if p.TypeParam? then [SizeBound(p.ident)] else [])
  }

  /** The where clause after `make_where_clause().predicates.extend(..)`. */
  function ExtendWhereClause(params: seq<GenericParam>, predicates: seq<WherePredicate>): seq<WherePredicate>
  {
    predicates + TypeParamBounds(params)
  }

  /** `derive_size`: the expansion of `#[derive(Size)]` on the given type. */
  function DeriveSize(input: DeriveInput): (r: Expansion)
    ensures r.Panicked? <==> input.data.Union?
    ensures r.Panicked? ==> r.message == UnionMessage
    ensures r.Expanded? ==>
      && r.impl.selfTy == input.ident
      && r.impl.params == input.params
      && |r.impl.predicates| >= |input.predicates|
      && r.impl.predicates[..|input.predicates|] == input.predicates
  {
    match Variants(input.data)
    case None => Panicked(UnionMessage)
    case Some(vs) =>
      var arms := seq(|vs|, i requires 0 <= i < |vs| => ArmFor(input.ident, vs[i]));
      Expanded(SizeImpl(input.ident, input.params, ExtendWhereClause(input.params, input.predicates), arms))
  }

  /*** Properties of the generator ***/

  /** A union is rejected with a panic and no impl is produced. */
  lemma UnionPanics(input: DeriveInput)
    requires input.data.Union?
    ensures DeriveSize(input) == Panicked(UnionMessage)
  {
  }

  /** A struct gives exactly one arm, without a variant name, whose path is the bare type name. */
  lemma StructGivesOneArm(input: DeriveInput)
    requires input.data.Struct?
    ensures DeriveSize(input).Expanded?
    ensures |DeriveSize(input).impl.arms| == 1
    ensures DeriveSize(input).impl.arms[0].typeIdent == input.ident
    ensures DeriveSize(input).impl.arms[0].variant == None
    ensures DeriveSize(input).impl.arms[0].bindings == Bindings(input.data.fields).1
  {
  }

  /** An enum gives one arm per variant, in declaration order, each on its own variant's path. */
  lemma EnumGivesArmPerVariant(input: DeriveInput)
    requires input.data.Enum?
    ensures DeriveSize(input).Expanded?
    ensures |DeriveSize(input).impl.arms| == |input.data.variants|
    ensures forall i :: 0 <= i < |input.data.variants| ==>
      && DeriveSize(input).impl.arms[i].typeIdent == input.ident
      && DeriveSize(input).impl.arms[i].variant == Some(input.data.variants[i].ident)
      && DeriveSize(input).impl.arms[i].bindings == Bindings(input.data.variants[i].fields).1
  {
  }

  /** Named fields are bound by their own names, in declaration order, inside braces. */
  lemma NamedFieldsBindOwnNames(names: seq<string>)
    ensures Bindings(Named(names)) == (Braces, names)
  {
  }

  /** Positional fields are bound as `field0` .. `field{n-1}`; unit fields bind nothing. */
  lemma PositionalFieldNames(n: nat)
    ensures Bindings(Unnamed(n)).0 == Parens
    ensures forall i :: 0 <= i < n ==> Bindings(Unnamed(n)).1[i] == "field" + Decimal.Show(i)
    ensures Bindings(Unit) == (NoPattern, [])
  {
  }

  predicate Distinct<T(==)>(s: seq<T>)
  {
    forall i, j :: 0 <= i < j < |s| ==> s[i] != s[j]
  }

  /** The synthesised positional names never clash. */
  lemma PositionalNamesDistinct(n: nat)
    ensures Distinct(Bindings(Unnamed(n)).1)
  {
    var names := Bindings(Unnamed(n)).1;
    forall i, j | 0 <= i < j < n
      ensures names[i] != names[j]
    {
      Decimal.ShowInjective(i, j);
      assert names[i][5..] == Decimal.Show(i);
      assert names[j][5..] == Decimal.Show(j);
    }
  }

  /** An arm's body has one `indirect_size` term per binding, in binding order. */
  lemma BodyFollowsBindings(bindings: seq<string>)
    ensures |Body(bindings)| == |bindings|
    ensures forall i :: 0 <= i < |bindings| ==> Body(bindings)[i] == IndirectSizeOf(bindings[i])
    ensures bindings == [] ==> Body(bindings) == []
  {
  }

  /** Number of occurrences of `x` in `s`. */
  function Count<T(==)>(s: seq<T>, x: T): nat
  {
    multiset(s)[x]
  }

  /**
   Exactly one `P: value_size::Size` bound per type parameter named `P`;
   lifetime and const parameters get none, and nothing but such bounds is added.
   */
  lemma {:induction false} OneBoundPerTypeParam(params: seq<GenericParam>, x: string)
    ensures Count(TypeParamBounds(params), SizeBound(x)) == Count(params, TypeParam(x))
    ensures forall i :: 0 <= i < |TypeParamBounds(params)| ==> TypeParamBounds(params)[i].SizeBound?
    decreases |params|
  {
    if params != [] {
      var init, p := params[..|params| - 1], params[|params| - 1];
      OneBoundPerTypeParam(init, x);
      assert params == init + [p];
      assert multiset(params) == multiset(init) + multiset{p};
      var added := if p.TypeParam? then [SizeBound(p.ident)] else [];
      assert TypeParamBounds(params) == TypeParamBounds(init) + added;
      assert multiset(TypeParamBounds(params)) == multiset(TypeParamBounds(init)) + multiset(added);
    }
  }

  /** The predicates the user wrote stay first; the added bounds follow them. */
  lemma WhereClauseExtension(input: DeriveInput, x: string)
    requires !input.data.Union?
    ensures DeriveSize(input).Expanded?
    ensures DeriveSize(input).impl.predicates == input.predicates + TypeParamBounds(input.params)
    ensures Count(DeriveSize(input).impl.predicates, SizeBound(x))
         == Count(input.predicates, SizeBound(x)) + Count(input.params, TypeParam(x))
  {
    OneBoundPerTypeParam(input.params, x);
  }

  /*** Meaning of the emitted impl ***/

  /**
   A value of the derived type: the active variant (`None` for a struct) and
   the values of its fields in declaration order. Fields are values of the
   types with a built-in `Size` implementation.
   */
  datatype Instance = Instance(variant: Option<string>, fields: seq<ValueSize.Value>)

  /** `inst` is a value of the declared type: an existing variant with its declared field count. */
  predicate Conforms(data: Data, inst: Instance)
  {
    match data
    case Struct(fields) => inst.variant == None && |inst.fields| == Arity(fields)
    case Enum(vs) =>
      exists j :: 0 <= j < |vs| && inst.variant == Some(vs[j].ident) && |inst.fields| == Arity(vs[j].fields)
    case Union(_) => false
  }

  /** What the Rust compiler itself enforces: distinct variant names and distinct field names. */
  predicate WellFormed(data: Data)
  {
    match data
    case Struct(fields) => fields.Named? ==> Distinct(fields.names)
    case Enum(vs) =>
      && (forall i, j :: 0 <= i < j < |vs| ==> vs[i].ident != vs[j].ident)
      && (forall i :: 0 <= i < |vs| && vs[i].fields.Named? ==> Distinct(vs[i].fields.names))
    case Union(_) => true
  }

  /** The arm `match` takes: the first one whose path names the active variant. */
  function SelectArm(arms: seq<Arm>, variant: Option<string>): (r: Option<Arm>)
    ensures r.Some? ==> r.value in arms && r.value.variant == variant
    ensures r.None? <==> forall i :: 0 <= i < |arms| ==> arms[i].variant != variant
    ensures r.Some? ==> exists j :: 0 <= j < |arms| && arms[j] == r.value
                                  && forall i :: 0 <= i < j ==> arms[i].variant != variant
  {
    if arms == [] then None
    else if arms[0].variant == variant then Some(arms[0])
    else SelectArm(arms[1..], variant)
  }

  /** The pattern's bindings, left to right, each to the field in its position. */
  function Bind(names: seq<string>, values: seq<ValueSize.Value>): map<string, ValueSize.Value>
    requires |names| == |values|
  {
    if names == [] then map[]
    else Bind(names[..|names| - 1], values[..|values| - 1])[names[|names| - 1] := values[|values| - 1]]
  }

  function TermValue(sz: ValueSize.Layout, env: map<string, ValueSize.Value>, t: Term): Option<nat>
  {
    match t
    case Zero => Some(0)
    case IndirectSizeOf(b) => if b in env then Some(ValueSize.IndirectSize(sz, env[b])) else None
  }

  /** The sum of the terms; `None` if a term names an unbound identifier. */
  function SumTerms(sz: ValueSize.Layout, env: map<string, ValueSize.Value>, terms: seq<Term>): Option<nat>
  {
    if terms == [] then Some(0)
    else
      match (SumTerms(sz, env, terms[..|terms| - 1]), TermValue(sz, env, terms[|terms| - 1]))
      case (Some(a), Some(b)) => Some(a + b)
      case _ => None
  }

  /**
   The emitted `match self { .. }` is Rust only if every arm body is an
   expression; an empty `+`-list is not one, and a single such arm makes the
   whole impl fail to parse.
   */
  predicate Parses(impl: SizeImpl)
  {
    forall i :: 0 <= i < |impl.arms| ==> impl.arms[i].body != []
  }

  /**
   The emitted `indirect_size` applied to `inst`; `None` when the emitted
   impl does not parse, or when no arm takes the value.
   */
  function EvalIndirectSize(sz: ValueSize.Layout, impl: SizeImpl, inst: Instance): Option<nat>
  {
    if !Parses(impl) then None
    else
      match SelectArm(impl.arms, inst.variant)
      case None => None
      case Some(arm) =>
        if |arm.bindings| != |inst.fields| then None
        else SumTerms(sz, Bind(arm.bindings, inst.fields), arm.body)
  }

  /**
   `full_size` on the derived type: the generator never overrides it, so it
   is the trait's default, the type's inline slot `slot` plus the emitted
   `indirect_size`.
   */
  function EvalFullSize(sz: ValueSize.Layout, slot: nat, impl: SizeImpl, inst: Instance): Option<nat>
  {
    match EvalIndirectSize(sz, impl, inst)
    case Some(n) => Some(slot + n)
    case None => None
  }

  lemma {:induction false} SelectArmFinds(arms: seq<Arm>, variant: Option<string>, j: nat)
    requires j < |arms| && arms[j].variant == variant
    requires forall i :: 0 <= i < j ==> arms[i].variant != variant
    ensures SelectArm(arms, variant) == Some(arms[j])
    decreases j
  {
    if j > 0 {
      SelectArmFinds(arms[1..], variant, j - 1);
    }
  }

  lemma {:induction false} BindLookup(names: seq<string>, values: seq<ValueSize.Value>)
    requires |names| == |values|
    requires Distinct(names)
    ensures forall i :: 0 <= i < |names| ==>
      names[i] in Bind(names, values) && Bind(names, values)[names[i]] == values[i]
    decreases |names|
  {
    if names != [] {
      var n := |names| - 1;
      BindLookup(names[..n], values[..n]);
      forall i | 0 <= i < |names|
        ensures names[i] in Bind(names, values) && Bind(names, values)[names[i]] == values[i]
      {
        if i < n {
          assert names[..n][i] == names[i] && values[..n][i] == values[i];
        }
      }
    }
  }

  /** A body whose bindings are bound to `values` sums what those values own indirectly. */
  lemma {:induction false} SumTermsOfBody(sz: ValueSize.Layout, env: map<string, ValueSize.Value>,
                                          names: seq<string>, values: seq<ValueSize.Value>)
    requires |names| == |values|
    requires forall i :: 0 <= i < |names| ==> names[i] in env && env[names[i]] == values[i]
    ensures SumTerms(sz, env, Body(names)) == Some(ValueSize.SumIndirect(sz, values))
    decreases |names|
  {
    if names != [] {
      var n := |names| - 1;
      assert Body(names)[..n] == Body(names[..n]);
      SumTermsOfBody(sz, env, names[..n], values[..n]);
    }
  }

  /** The arm `DeriveSize` emits for the active variant, with the variant's declared fields. */
  lemma ActiveArm(input: DeriveInput, inst: Instance) returns (fields: Fields)
    requires WellFormed(input.data)
    requires Conforms(input.data, inst)
    ensures DeriveSize(input).Expanded?
    ensures SelectArm(DeriveSize(input).impl.arms, inst.variant) == Some(ArmFor(input.ident, MaybeVariant(inst.variant, fields)))
    ensures Arity(fields) == |inst.fields|
    ensures fields.Named? ==> Distinct(fields.names)
  {
    var arms := DeriveSize(input).impl.arms;
    match input.data
    case Struct(f) =>
      fields := f;
      SelectArmFinds(arms, inst.variant, 0);
    case Enum(vs) =>
      var j :| 0 <= j < |vs| && inst.variant == Some(vs[j].ident) && |inst.fields| == Arity(vs[j].fields);
      fields := vs[j].fields;
      SelectArmFinds(arms, inst.variant, j);
  }

  /** Whatever the field set, its bindings are pairwise distinct. */
  lemma BindingsDistinct(fields: Fields)
    requires fields.Named? ==> Distinct(fields.names)
    ensures Distinct(Bindings(fields).1)
  {
    if fields.Unnamed? {
      PositionalNamesDistinct(fields.arity);
    }
  }

  /** Every struct or enum variant declares at least one field. */
  predicate EveryVariantHasFields(data: Data)
  {
    match data
    case Struct(fields) => Arity(fields) > 0
    case Enum(vs) => forall i :: 0 <= i < |vs| ==> Arity(vs[i].fields) > 0
    case Union(_) => false
  }

  /** The emitted impl parses exactly when no struct or variant is field-less. */
  lemma ParsesIffEveryVariantHasFields(input: DeriveInput)
    requires !input.data.Union?
    ensures DeriveSize(input).Expanded?
    ensures Parses(DeriveSize(input).impl) <==> EveryVariantHasFields(input.data)
  {
    var arms := DeriveSize(input).impl.arms;
    match input.data
    case Struct(f) =>
      assert |arms[0].body| == Arity(f);
    case Enum(vs) =>
      forall i | 0 <= i < |vs|
        ensures |arms[i].body| == Arity(vs[i].fields)
      {
        assert arms[i] == ArmFor(input.ident, MaybeVariant(Some(vs[i].ident), vs[i].fields));
      }
  }

  /**
   The emitted `indirect_size` of a value is the sum of the indirect sizes of
   the active variant's fields; fields of other variants play no part. When
   any struct or variant of the type has no field, the emitted `match` holds
   an arm `Path => ,`, the impl does not parse, and no value has a size.
   */
  lemma DerivedSizeIsFieldSum(sz: ValueSize.Layout, input: DeriveInput, inst: Instance)
    requires WellFormed(input.data)
    requires Conforms(input.data, inst)
    ensures DeriveSize(input).Expanded?
    ensures EvalIndirectSize(sz, DeriveSize(input).impl, inst)
         == if EveryVariantHasFields(input.data) then Some(ValueSize.SumIndirect(sz, inst.fields)) else None
  {
    var fields := ActiveArm(input, inst);
    var names := Bindings(fields).1;
    ParsesIffEveryVariantHasFields(input);
    BindingsDistinct(fields);
    BindLookup(names, inst.fields);
    SumTermsOfBody(sz, Bind(names, inst.fields), names, inst.fields);
  }

  /**
   `enum E { A(u8), B }` emits `E::B => ,` beside the arm for `A`, so even a
   value of the variant with a field gets no size.
   */
  lemma MixedEnumHasNoSize(sz: ValueSize.Layout)
    ensures EvalIndirectSize(sz,
              DeriveSize(DeriveInput("E", [], [], Enum([Variant("A", Unnamed(1)), Variant("B", Unit)]))).impl,
              Instance(Some("A"), [ValueSize.ScalarV(ValueSize.U8)]))
         == None
  {
    var vs := [Variant("A", Unnamed(1)), Variant("B", Unit)];
    var input := DeriveInput("E", [], [], Enum(vs));
    assert vs[0].ident == "A" && Arity(vs[0].fields) == 1;
    assert Arity(vs[1].fields) == 0;
    DerivedSizeIsFieldSum(sz, input, Instance(Some("A"), [ValueSize.ScalarV(ValueSize.U8)]));
  }

  /*** A field-less arm, as emitted and as evidently intended ***/

  /**
   `struct Marker;` expands to the arm `Marker => ,`, whose body is empty:
   the emitted impl has no value for the only value of the type.
   */
  lemma FieldlessArmHasNoValue(sz: ValueSize.Layout)
    ensures DeriveSize(DeriveInput("Marker", [], [], Struct(Unit)))
         == Expanded(SizeImpl("Marker", [], [], [Arm("Marker", None, NoPattern, [], [])]))
    ensures EvalIndirectSize(sz, DeriveSize(DeriveInput("Marker", [], [], Struct(Unit))).impl, Instance(None, []))
         == None
  {
    var input := DeriveInput("Marker", [], [], Struct(Unit));
    var arms := DeriveSize(input).impl.arms;
    assert |arms| == 1 && arms[0] == ArmFor("Marker", MaybeVariant(None, Unit));
    assert Body([]) == [];
    assert arms == [Arm("Marker", None, NoPattern, [], [])];
    assert ExtendWhereClause([], []) == [];
  }

  /** The corrected arm: a literal `0` stands for the empty sum. */
  function FixArm(arm: Arm): Arm
  {
    if arm.body == [] then arm.(body := [Zero]) else arm
  }

  function FixArms(arms: seq<Arm>): (r: seq<Arm>)
    ensures |r| == |arms|
  {
    seq(|arms|, i requires 0 <= i < |arms| => FixArm(arms[i]))
  }

  /** `derive_size` with the empty-body arm corrected; everything else as emitted. */
  function DeriveSizeFixed(input: DeriveInput): (r: Expansion)
    ensures r.Panicked? <==> input.data.Union?
    ensures r.Expanded? ==> forall i :: 0 <= i < |r.impl.arms| ==> r.impl.arms[i].body != []
  {
    match DeriveSize(input)
    case Panicked(m) => Panicked(m)
    case Expanded(impl) => Expanded(impl.(arms := FixArms(impl.arms)))
  }

  lemma {:induction false} SelectFixedArm(arms: seq<Arm>, variant: Option<string>)
    ensures SelectArm(FixArms(arms), variant)
         == if SelectArm(arms, variant).Some? then Some(FixArm(SelectArm(arms, variant).value)) else None
    decreases |arms|
  {
    if arms != [] {
      assert FixArms(arms)[1..] == FixArms(arms[1..]);
      SelectFixedArm(arms[1..], variant);
    }
  }

  /**
   With the correction, the derived `indirect_size` of every value is the sum
   of the indirect sizes of the active variant's fields (0 when it has none),
   and `full_size` adds the type's inline slot.
   */
  lemma FixedDerivedSizeIsFieldSum(sz: ValueSize.Layout, slot: nat, input: DeriveInput, inst: Instance)
    requires WellFormed(input.data)
    requires Conforms(input.data, inst)
    ensures DeriveSizeFixed(input).Expanded?
    ensures EvalIndirectSize(sz, DeriveSizeFixed(input).impl, inst) == Some(ValueSize.SumIndirect(sz, inst.fields))
    ensures EvalFullSize(sz, slot, DeriveSizeFixed(input).impl, inst) == Some(slot + ValueSize.SumIndirect(sz, inst.fields))
  {
    var fields := ActiveArm(input, inst);
    var names := Bindings(fields).1;
    var impl := DeriveSizeFixed(input).impl;
    var arm := FixArm(ArmFor(input.ident, MaybeVariant(inst.variant, fields)));
    SelectFixedArm(DeriveSize(input).impl.arms, inst.variant);
    assert SelectArm(impl.arms, inst.variant) == Some(arm);
    assert arm.bindings == names && |names| == |inst.fields|;
    if names == [] {
      assert arm.body == [Zero] by {
        assert Body(names) == [];
      }
      assert SumTerms(sz, Bind(names, inst.fields), [Zero]) == Some(0) by {
        assert [Zero][..0] == [];
      }
    } else {
      assert arm.body == Body(names);
      BindingsDistinct(fields);
      BindLookup(names, inst.fields);
      SumTermsOfBody(sz, Bind(names, inst.fields), names, inst.fields);
    }
    assert SumTerms(sz, Bind(names, inst.fields), arm.body) == Some(ValueSize.SumIndirect(sz, inst.fields));
    assert Parses(impl);
  }

  /**
   `#[derive(Size)] struct Wrapper<T> { inner: T }` gets the bound `T: Size`
   and reports exactly the indirect size of its field.
   */
  lemma WrapperExample(sz: ValueSize.Layout, inner: ValueSize.Value)
    ensures DeriveSize(DeriveInput("Wrapper", [TypeParam("T")], [], Struct(Named(["inner"])))).impl.predicates
         == [SizeBound("T")]
    ensures EvalIndirectSize(sz, DeriveSize(DeriveInput("Wrapper", [TypeParam("T")], [], Struct(Named(["inner"])))).impl,
                             Instance(None, [inner]))
         == Some(ValueSize.IndirectSize(sz, inner))
  {
    var input := DeriveInput("Wrapper", [TypeParam("T")], [], Struct(Named(["inner"])));
    DerivedSizeIsFieldSum(sz, input, Instance(None, [inner]));
    assert [inner][..0] == [];
    assert [TypeParam("T")][..0] == [];
  }
}
