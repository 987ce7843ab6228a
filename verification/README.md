# value-size in Dafny

A model of the two crates of `value-size`, a memory-profiling helper for Rust.

- **value-size** defines the trait `Size`. Its required method `indirect_size` reports the bytes a value owns outside its own inline slot. Its provided method `full_size` adds `size_of::<Self>()`. The crate also implements the trait for scalars, `Option`, `Box`, `Vec`, `BTreeMap`, `String`, `serde_json::Value` and `serde_json::Map`. Module `ValueSize` (`value_size.dfy`) covers this crate. Values are trees (`Value`, `Entry`) tagged with type descriptors (`Ty`). `IndirectSize` and `FullSize` state the per-type rules. `size_of` is platform dependent, so it is the parameter `sz: Layout` and is never given concrete values. `OwnedBlocks` states the same rules flattened into the list of out-of-line blocks a value owns, directly or through its parts, and the lemmas prove the two views agree. The vector rule is also characterised differently: a well-typed vector is charged its spare capacity in element slots plus the full size of each element. Strings are kept as their UTF-8 bytes, so length and capacity count bytes as `String::capacity` does.
- **value-size-derive** provides `#[derive(Size)]`. Module `Derive` (`derive.dfy`) covers this crate, with help from `Decimal` (`decimal.dfy`) for the `field{i}` names. The generator takes a type's declared shape (`DeriveInput`) and produces either a panic (for a union) or a `SizeImpl`. A `SizeImpl` is the emitted impl without tokens: the type, its generics, the extended where clause, and one `Arm` per variant. Each arm has an optional variant name, a pattern kind, ordered binding names, and a body, which is the ordered list of `indirect_size(b)` terms. `EvalIndirectSize` gives the emitted code its meaning. The emitted impl has a meaning only if every arm body is an expression. When it does, `EvalIndirectSize` selects the arm the way `match` does, binds the fields, and sums the terms using `ValueSize.IndirectSize`.

`Wrappers` (`wrappers.dfy`) holds `Option`.

## Model

| member | source | states |
|---|---|---|
| `ValueSize.FullSize` | value-size/src/lib.rs:12-14 | the provided `full_size` is never below the type's inline slot and never below the indirect size |
| `ValueSize.FullSizeIsSlotPlusOwnedBytes` | value-size/src/lib.rs:11-19 | for every value, `full_size` is the inline slot of its type plus every byte of every block it owns out of line |
| `ValueSize.IndirectSizeIsOwnedBytes` | value-size/src/lib.rs:16-19 | for every value, the per-type rules charge exactly the total of the out-of-line blocks the value owns (reference view `OwnedBlocks`) |
| `ValueSize.ItemsAreOwnedBytes` | value-size/src/lib.rs:35 | summing the elements' indirect sizes charges exactly the blocks the elements own |
| `ValueSize.EntriesAreOwnedBytes` | value-size/src/lib.rs:41-43 | summing key and value full sizes charges exactly each entry's two inline slots plus the blocks key and value own |
| `ValueSize.ScalarOwnsNothing` | value-size/src/lib.rs:72-87 | every scalar (`u8`, `i32`, `i64`, `f64`, `bool`, `DateTime<Utc>`, `Number`) has indirect size 0 and full size equal to its inline slot |
| `ValueSize.InlineOnlyOwnsNothing` | value-size/src/lib.rs:16-26 | a well-typed value of a scalar type or of nested options of one owns no block, has indirect size 0 and full size equal to its slot |
| `ValueSize.OptionRule` | value-size/src/lib.rs:22-26 | `None` is charged 0; `Some(x)` is charged what `x` owns indirectly and owns exactly `x`'s blocks |
| `ValueSize.BoxRule` | value-size/src/lib.rs:27-31 | a box is charged the content's full size, inline slot included; its own full size is the pointer slot plus the content's full size |
| `ValueSize.VecReserve` | value-size/src/lib.rs:32-37 | raising a vector's capacity by `d` with the same elements adds exactly `d` element slots |
| `ValueSize.VecPush` | value-size/src/lib.rs:32-37 | adding an element without changing capacity adds exactly that element's indirect size |
| `ValueSize.VecIsSpareSlotsPlusElements` | value-size/src/lib.rs:32-37 | a well-typed vector is charged exactly its spare capacity (capacity minus length) in element slots plus the full size of every element |
| `ValueSize.SumFullOfTyped` | value-size/src/lib.rs:12-14 | the full sizes of values of one type `T` add up to one `size_of::<T>()` per value plus their indirect sizes |
| `ValueSize.VecChargesAtLeastItsElements` | value-size/src/lib.rs:32-37 | since capacity is never below length, a well-typed vector is charged at least one slot per element plus what the elements own |
| `ValueSize.SumEntriesInsert` | value-size/src/lib.rs:41-43 | adding an entry at any position of the iteration order adds exactly that entry's key and value full sizes |
| `ValueSize.MapInsert` | value-size/src/lib.rs:38-45 | adding an entry under a new key, whose key has type `K` and value type `V`, to a `BTreeMap<K, V>` adds `size_of::<K>()` plus the key's indirect size plus `size_of::<V>()` plus the value's, and nothing for nodes |
| `ValueSize.EmptyMapsOwnNothing` | value-size/src/lib.rs:38-45 | an empty `BTreeMap` and an empty JSON map are charged 0 |
| `ValueSize.JsonMapIsMapRule` | value-size/src/lib.rs:58-65 | the JSON object map is charged exactly as a `BTreeMap<String, Value>` with the same entries |
| `ValueSize.StringIsCapacity` | value-size/src/lib.rs:66-70 | a string is charged its capacity, whatever its contents |
| `ValueSize.JsonScalarsOwnNothing` | value-size/src/lib.rs:46-51 | well-typed JSON `Null`, `Bool` and `Number` are charged 0 |
| `ValueSize.JsonContainersDelegate` | value-size/src/lib.rs:52-54 | JSON `String`, `Array` and `Object` are charged what their `String`, `Vec` and `Map` payloads are charged |
| `ValueSize.StringExample` | value-size/src/lib.rs:66-70 | a string of capacity 16 holding 3 bytes is charged 16 |
| `ValueSize.VecExample` | value-size/src/lib.rs:32-37 | four scalars in a vector of capacity 8 are charged 8 element slots |
| `Decimal.Show` | value-size-derive/src/lib.rs:55 | the rendered index is a non-empty string of digits with no leading zero |
| `Decimal.ParseShow` | value-size-derive/src/lib.rs:55 | reading the rendered index back gives the index |
| `Decimal.ShowInjective` | value-size-derive/src/lib.rs:55 | distinct indices are rendered differently |
| `Derive.DeriveSize` | value-size-derive/src/lib.rs:16-91 | the expansion panics with the union message exactly for unions; otherwise the impl is for the input type, keeps its generics, and keeps the written predicates as a prefix of the where clause |
| `Derive.UnionPanics` | value-size-derive/src/lib.rs:31 | a union yields the panic "unions are for people, not data!" and no impl |
| `Derive.StructGivesOneArm` | value-size-derive/src/lib.rs:19-40 | a struct yields exactly one arm, with no variant name, whose path is the bare type name and which binds the struct's fields |
| `Derive.EnumGivesArmPerVariant` | value-size-derive/src/lib.rs:24-40 | an enum yields one arm per variant, in declaration order, each on `Type::Variant` and binding that variant's fields |
| `Derive.Bindings` | value-size-derive/src/lib.rs:41-60 | a field set binds exactly one name per declared field |
| `Derive.NamedFieldsBindOwnNames` | value-size-derive/src/lib.rs:42-48 | named fields are bound inside braces by their own names in declaration order |
| `Derive.PositionalFieldNames` | value-size-derive/src/lib.rs:50-59 | `n` positional fields are bound in parentheses as `field0` to `field{n-1}`; unit fields have no pattern and no bindings |
| `Derive.PositionalNamesDistinct` | value-size-derive/src/lib.rs:50-58 | the synthesised positional names are pairwise distinct |
| `Derive.BodyFollowsBindings` | value-size-derive/src/lib.rs:61-64 | an arm body is one `indirect_size(b)` term per binding, in binding order, and is empty when there are no bindings |
| `Derive.OneBoundPerTypeParam` | value-size-derive/src/lib.rs:67-75 | for every identifier, the added bounds contain exactly as many `P: Size` bounds as there are type parameters named `P`; lifetime and const parameters add none, and only such bounds are added |
| `Derive.WhereClauseExtension` | value-size-derive/src/lib.rs:67-80 | the where clause is the written predicates followed by the added bounds, so each type parameter gains exactly one `Size` bound |
| `Derive.SelectArm` | value-size-derive/src/lib.rs:86-88 | the selected arm is the first arm that names the active variant; there is none exactly when no arm names it |
| `Derive.DerivedSizeIsFieldSum` | value-size-derive/src/lib.rs:34-66 | for every well-formed type and value of it, the emitted `indirect_size` is the sum of the active variant's fields' indirect sizes when every struct or variant of the type has a field, and other variants' fields play no part; when any of them has no field, no value has a size |
| `Derive.ParsesIffEveryVariantHasFields` | value-size-derive/src/lib.rs:59-65 | the emitted `match` has only expression bodies exactly when every struct or variant declares at least one field |
| `Derive.MixedEnumHasNoSize` | value-size-derive/src/lib.rs:83-90 | for `enum E { A(u8), B }`, the arm `E::B => ,` leaves even `E::A(x)` without a size |
| `Derive.FieldlessArmHasNoValue` | value-size-derive/src/lib.rs:59-65 | `struct Marker;` expands to the single arm `Marker => ,` with an empty body, which gives its value no size |
| `Derive.DeriveSizeFixed` | value-size-derive/src/lib.rs:61-65 | with the correction, every arm body is non-empty, and unions still panic |
| `Derive.FixedDerivedSizeIsFieldSum` | value-size-derive/src/lib.rs:83-91 | with the correction, every value's derived `indirect_size` is the sum over the active variant's fields (0 when there are none), and `full_size` is the type's slot plus that sum |
| `Derive.WrapperExample` | value-size-derive/src/lib.rs:61-80 | `struct Wrapper<T> { inner: T }` gets exactly the bound `T: Size` and reports the indirect size of `inner` |

## Findings

| source | as written | input that shows it | evidently intended | confidence | as-written member | corrected member |
|---|---|---|---|---|---|---|
| value-size-derive/src/lib.rs:61-65 | the arm body is the `+`-joined list of `indirect_size` calls, so an arm with no bindings is emitted as `Path => ,`, which is not an expression, and the whole emitted `match self` fails to parse | `#[derive(Size)] struct Marker;` or `#[derive(Size)] enum E { A(u8), B }` (also `struct S {}` or `struct S();`) | an arm with no fields reports 0, the empty sum | not executed; high | `Derive.MixedEnumHasNoSize` | `Derive.FixedDerivedSizeIsFieldSum` |

The emitted arms are modelled as written. `DeriveSize` gives a field-less arm an empty body. One such arm anywhere makes the whole emitted impl unparsable, so `EvalIndirectSize` gives no value of the type a size (`Derive.ParsesIffEveryVariantHasFields`, `Derive.FieldlessArmHasNoValue`, `Derive.MixedEnumHasNoSize`). `DeriveSizeFixed` emits a literal `0` in that case, and every value's size is proved for that version. The two generators agree only on types in which every struct or variant has a field (`Derive.DerivedSizeIsFieldSum`). Descriptions of the generator say an arm with no fields sums to 0. The code emits nothing in that case, and this model follows the code.

## Left out

- Token plumbing: `syn` parsing, `quote!` and `split_for_impl` are not modelled. The emitted impl is the `SizeImpl` datatype, not a token stream. `#[proc_macro_derive(Size)]` registration is also out.
- Concrete `std::mem::size_of` values are not modelled, because they depend on platform and layout. Every rule takes the layout as the parameter `sz`. For a derived type, its inline slot is the parameter `slot`.
- `usize` overflow is not modelled: sizes are unbounded `nat`. The Rust sums do no overflow handling, so they would wrap in release builds and panic in debug builds.
- Allocator and B-tree node overhead are not modelled, because the source deliberately ignores them.
- Scalar internals are not modelled. The contents of `f64`, `DateTime<Utc>` and `serde_json::Number` matter only as tags of size 0.
- Strings are kept as their UTF-8 bytes. That those bytes are valid UTF-8 is not modelled, because the charge depends only on capacity.
- Map entries are a sequence in iteration order. Key uniqueness and sortedness are not modelled, so `WellTyped` admits two entries under one key. The insertion lemmas are about adding an entry under a new key; replacing the value of an existing key is not modelled. `ValueSize.SumEntriesInsert` covers insertion at any position.
- Hand-written `Size` impls that override `full_size` are out of scope. No implementation in this crate does so, so `FullSize` is always the trait's provided method.
- Fields of a derived type are limited to values of the built-in types. A field whose type is another derived type is not modelled, so nesting of derived types is not covered.
- The crate-level README doc include is not modelled.
- ValueSize.FullSize: its own contract only bounds the result. The exact equation is proved by `ValueSize.FullSizeIsSlotPlusOwnedBytes`.
- Derive.Bindings: its own contract states only the number of bindings. The names themselves are proved by `Derive.NamedFieldsBindOwnNames` and `Derive.PositionalFieldNames`.
