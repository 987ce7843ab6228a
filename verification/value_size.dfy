/**
 The `Size` trait of the value-size crate and its built-in implementations.

 A value is modelled as a tree of owned parts. `IndirectSize` is the trait's
 required method: the bytes a value owns outside its own inline slot.
 `FullSize` is the trait's provided method: the inline slot of the value's
 type plus its indirect size. The inline slot (`std::mem::size_of`) is
 platform dependent, so every function here takes it as a parameter `sz`.
 */
module ValueSize {
  import opened Wrappers

  /** The scalar types given an `impl_scalar!` instance. */
  datatype Scalar = U8 | I32 | I64 | F64 | Bool | DateTimeUtc | JsonNumber

  /** Descriptors of the types that have a built-in `Size` implementation. */
  datatype Ty =
    | ScalarTy(scalar: Scalar)
    | OptionTy(elem: Ty)
    | BoxTy(elem: Ty)
    | VecTy(elem: Ty)
    | BTreeMapTy(key: Ty, val: Ty)
    | StringTy
    | JsonValueTy
    | JsonMapTy

  /** `std::mem::size_of` for each type: any function of this type is a possible platform. */
  type Layout = Ty -> nat

  /**
   Values of the types above. Containers keep the static type of their
   elements, because the size rules use it even when no element is present.
   Scalar contents are irrelevant to the size and are not kept.
   */
  datatype Value =
    | ScalarV(scalar: Scalar)
    | OptionV(elem: Ty, content: Option<Value>)
    | BoxV(inner: Value)
    | VecV(elem: Ty, capacity: nat, items: seq<Value>)
    | BTreeMapV(key: Ty, val: Ty, entries: seq<Entry>)
    // the UTF-8 bytes of the text and the buffer capacity, both counted in bytes
    | StringV(utf8: seq<bv8>, capacity: nat)
    // the variants of serde_json::Value; each payload is a value of the payload's own type
    | JsonNull
    | JsonBool(b: Value)
    | JsonNumberV(n: Value)
    | JsonString(s: Value)
    | JsonArray(a: Value)
    | JsonObject(o: Value)
    // serde_json::Map<String, serde_json::Value>
    | JsonMapV(entries: seq<Entry>)

  /** One key/value pair of a map, in the map's iteration order. */
  datatype Entry = Entry(key: Value, val: Value)

  /** The static type of a value. */
  function TypeOf(v: Value): Ty
  {
    match v
    case ScalarV(s) => ScalarTy(s)
    case OptionV(t, _) => OptionTy(t)
    case BoxV(x) => BoxTy(TypeOf(x))
    case VecV(t, _, _) => VecTy(t)
    case BTreeMapV(k, w, _) => BTreeMapTy(k, w)
    case StringV(_, _) => StringTy
    case JsonMapV(_) => JsonMapTy
    case _ => JsonValueTy
  }

  /**
   The values Rust's type checker and the containers' own invariants allow:
   elements have the declared element type, length never exceeds capacity
   (for a string both count bytes; that the bytes are valid UTF-8 is not
   kept), and each JSON payload has the type serde_json gives it.
   */
  predicate WellTyped(v: Value)
    decreases v
  {
    match v
    case ScalarV(_) => true
    case OptionV(t, c) => c.Some? ==> WellTyped(c.value) && TypeOf(c.value) == t
    case BoxV(x) => WellTyped(x)
    case VecV(t, cap, items) =>
      && |items| <= cap
      && forall i :: 0 <= i < |items| ==> WellTyped(items[i]) && TypeOf(items[i]) == t
    case BTreeMapV(k, w, es) => forall i :: 0 <= i < |es| ==> EntryWellTyped(es[i], k, w)
    case StringV(utf8, cap) => |utf8| <= cap
    case JsonNull => true
    case JsonBool(b) => WellTyped(b) && TypeOf(b) == ScalarTy(Bool)
    case JsonNumberV(n) => WellTyped(n) && TypeOf(n) == ScalarTy(JsonNumber)
    case JsonString(s) => WellTyped(s) && TypeOf(s) == StringTy
    case JsonArray(a) => WellTyped(a) && TypeOf(a) == VecTy(JsonValueTy)
    case JsonObject(o) => WellTyped(o) && TypeOf(o) == JsonMapTy
    case JsonMapV(es) => forall i :: 0 <= i < |es| ==> EntryWellTyped(es[i], StringTy, JsonValueTy)
  }

  predicate EntryWellTyped(e: Entry, k: Ty, w: Ty)
    decreases e
  {
    WellTyped(e.key) && TypeOf(e.key) == k && WellTyped(e.val) && TypeOf(e.val) == w
  }

  /** `Size::indirect_size`: the bytes owned by `v` outside its inline slot. */
  function IndirectSize(sz: Layout, v: Value): nat
    decreases v, 1
  {
    match v
    case ScalarV(_) => 0
    case OptionV(_, None) => 0
    case OptionV(_, Some(x)) => IndirectSize(sz, x)
    case BoxV(x) => FullSize(sz, x)
    case VecV(t, cap, items) => cap * sz(t) + SumIndirect(sz, items)
    case BTreeMapV(_, _, es) => SumEntries(sz, es)
    case StringV(_, cap) => cap
    case JsonNull => 0
    case JsonBool(b) => IndirectSize(sz, b)
    case JsonNumberV(n) => IndirectSize(sz, n)
    case JsonString(s) => IndirectSize(sz, s)
    case JsonArray(a) => IndirectSize(sz, a)
    case JsonObject(o) => IndirectSize(sz, o)
    case JsonMapV(es) => SumEntries(sz, es)
  }

  /** `Size::full_size`, the trait's provided method; no implementation here overrides it. */
  function FullSize(sz: Layout, v: Value): (r: nat)
    decreases v, 2
    ensures r >= sz(TypeOf(v))
    ensures r >= IndirectSize(sz, v)
  {
    sz(TypeOf(v)) + IndirectSize(sz, v)
  }

  /** `iter().map(Size::indirect_size).sum()` over a vector's elements. */
  function SumIndirect(sz: Layout, items: seq<Value>): nat
    decreases items
  {
    if items == [] then 0
    else SumIndirect(sz, items[..|items| - 1]) + IndirectSize(sz, items[|items| - 1])
  }

  /** What one map entry contributes: `k.full_size() + v.full_size()`. */
  function EntryFullSize(sz: Layout, e: Entry): nat
    decreases e
  {
    FullSize(sz, e.key) + FullSize(sz, e.val)
  }

  /** The sum over a map's entries. */
  function SumEntries(sz: Layout, es: seq<Entry>): nat
    decreases es
  {
    if es == [] then 0
    else SumEntries(sz, es[..|es| - 1]) + EntryFullSize(sz, es[|es| - 1])
  }

  /*** Reference view: the out-of-line blocks a value owns ***/

  /** Sum of a list of byte counts. */
  function Total(blocks: seq<nat>): nat
  {
    if blocks == [] then 0 else Total(blocks[..|blocks| - 1]) + blocks[|blocks| - 1]
  }

  /**
   The same rules, flattened into the list of out-of-line blocks `v` owns,
   directly or through the parts it owns, instead of a sum. A box owns one
   block holding its content's inline slot; a vector owns one buffer of
   `capacity` element slots; a string owns its byte buffer; a map owns, per
   entry, the inline slots of the key and the value (node bookkeeping is
   deliberately not counted). Scalars, options and JSON tags own nothing
   beyond what their payload owns.
   */
  function OwnedBlocks(sz: Layout, v: Value): seq<nat>
    decreases v, 1
  {
    match v
    case ScalarV(_) => []
    case OptionV(_, None) => []
    case OptionV(_, Some(x)) => OwnedBlocks(sz, x)
    case BoxV(x) => [sz(TypeOf(x))] + OwnedBlocks(sz, x)
    case VecV(t, cap, items) => [cap * sz(t)] + ItemBlocks(sz, items)
    case BTreeMapV(_, _, es) => EntriesBlocks(sz, es)
    case StringV(_, cap) => [cap]
    case JsonNull => []
    case JsonBool(b) => OwnedBlocks(sz, b)
    case JsonNumberV(n) => OwnedBlocks(sz, n)
    case JsonString(s) => OwnedBlocks(sz, s)
    case JsonArray(a) => OwnedBlocks(sz, a)
    case JsonObject(o) => OwnedBlocks(sz, o)
    case JsonMapV(es) => EntriesBlocks(sz, es)
  }

  function ItemBlocks(sz: Layout, items: seq<Value>): seq<nat>
    decreases items
  {
    if items == [] then []
    else ItemBlocks(sz, items[..|items| - 1]) + OwnedBlocks(sz, items[|items| - 1])
  }

  function EntryBlocks(sz: Layout, e: Entry): seq<nat>
    decreases e
  {
    [sz(TypeOf(e.key)), sz(TypeOf(e.val))] + OwnedBlocks(sz, e.key) + OwnedBlocks(sz, e.val)
  }

  function EntriesBlocks(sz: Layout, es: seq<Entry>): seq<nat>
    decreases es
  {
    if es == [] then []
    else EntriesBlocks(sz, es[..|es| - 1]) + EntryBlocks(sz, es[|es| - 1])
  }

  lemma {:induction false} TotalConcat(a: seq<nat>, b: seq<nat>)
    ensures Total(a + b) == Total(a) + Total(b)
    decreases |b|
  {
    if b == [] {
      assert a + b == a;
    } else {
      var b' := b[..|b| - 1];
      assert (a + b)[..|a + b| - 1] == a + b';
      TotalConcat(a, b');
    }
  }

  /** The indirect size is exactly the number of bytes in the blocks the value owns. */
  lemma {:induction false} IndirectSizeIsOwnedBytes(sz: Layout, v: Value)
    ensures IndirectSize(sz, v) == Total(OwnedBlocks(sz, v))
    decreases v, 1
  {
    match v
    case ScalarV(_) =>
    case OptionV(_, None) =>
    case OptionV(_, Some(x)) => IndirectSizeIsOwnedBytes(sz, x);
    case BoxV(x) =>
      IndirectSizeIsOwnedBytes(sz, x);
      TotalConcat([sz(TypeOf(x))], OwnedBlocks(sz, x));
      assert Total([sz(TypeOf(x))]) == sz(TypeOf(x));
    case VecV(t, cap, items) =>
      ItemsAreOwnedBytes(sz, items);
      TotalConcat([cap * sz(t)], ItemBlocks(sz, items));
      assert Total([cap * sz(t)]) == cap * sz(t);
    case BTreeMapV(_, _, es) => EntriesAreOwnedBytes(sz, es);
    case StringV(_, cap) =>
      assert Total([cap]) == cap;
    case JsonNull =>
    case JsonBool(b) => IndirectSizeIsOwnedBytes(sz, b);
    case JsonNumberV(n) => IndirectSizeIsOwnedBytes(sz, n);
    case JsonString(s) => IndirectSizeIsOwnedBytes(sz, s);
    case JsonArray(a) => IndirectSizeIsOwnedBytes(sz, a);
    case JsonObject(o) => IndirectSizeIsOwnedBytes(sz, o);
    case JsonMapV(es) => EntriesAreOwnedBytes(sz, es);
  }

  lemma {:induction false} ItemsAreOwnedBytes(sz: Layout, items: seq<Value>)
    ensures SumIndirect(sz, items) == Total(ItemBlocks(sz, items))
    decreases items
  {
    if items != [] {
      var last := items[|items| - 1];
      ItemsAreOwnedBytes(sz, items[..|items| - 1]);
      IndirectSizeIsOwnedBytes(sz, last);
      TotalConcat(ItemBlocks(sz, items[..|items| - 1]), OwnedBlocks(sz, last));
    }
  }

  lemma {:induction false} EntryIsOwnedBytes(sz: Layout, e: Entry)
    ensures EntryFullSize(sz, e) == Total(EntryBlocks(sz, e))
    decreases e
  {
    var slots := [sz(TypeOf(e.key)), sz(TypeOf(e.val))];
    IndirectSizeIsOwnedBytes(sz, e.key);
    IndirectSizeIsOwnedBytes(sz, e.val);
    TotalConcat(slots, OwnedBlocks(sz, e.key));
    TotalConcat(slots + OwnedBlocks(sz, e.key), OwnedBlocks(sz, e.val));
    assert Total(slots) == sz(TypeOf(e.key)) + sz(TypeOf(e.val)) by {
      assert slots[..1] == [sz(TypeOf(e.key))];
      assert Total([sz(TypeOf(e.key))]) == sz(TypeOf(e.key));
    }
  }

  lemma {:induction false} EntriesAreOwnedBytes(sz: Layout, es: seq<Entry>)
    ensures SumEntries(sz, es) == Total(EntriesBlocks(sz, es))
    decreases es
  {
    if es != [] {
      var last := es[|es| - 1];
      EntriesAreOwnedBytes(sz, es[..|es| - 1]);
      EntryIsOwnedBytes(sz, last);
      TotalConcat(EntriesBlocks(sz, es[..|es| - 1]), EntryBlocks(sz, last));
    }
  }

  /** The full size is the type's inline slot plus every byte the value owns elsewhere. */
  lemma FullSizeIsSlotPlusOwnedBytes(sz: Layout, v: Value)
    ensures FullSize(sz, v) == sz(TypeOf(v)) + Total(OwnedBlocks(sz, v))
  {
    IndirectSizeIsOwnedBytes(sz, v);
  }

  /*** The per-type rules ***/

  /** Every `impl_scalar!` type owns nothing: its full size is its inline slot. */
  lemma ScalarOwnsNothing(sz: Layout, s: Scalar)
    ensures IndirectSize(sz, ScalarV(s)) == 0
    ensures FullSize(sz, ScalarV(s)) == sz(ScalarTy(s))
  {
  }

  /** Types whose values live entirely in their inline slot: scalars and options of them. */
  predicate InlineOnly(t: Ty)
  {
    match t
    case ScalarTy(_) => true
    case OptionTy(e) => InlineOnly(e)
    case _ => false
  }

  /** A value of an inline-only type owns no block and has indirect size 0. */
  lemma {:induction false} InlineOnlyOwnsNothing(sz: Layout, v: Value)
    requires WellTyped(v)
    requires InlineOnly(TypeOf(v))
    ensures OwnedBlocks(sz, v) == []
    ensures IndirectSize(sz, v) == 0
    ensures FullSize(sz, v) == sz(TypeOf(v))
  {
    match v
    case ScalarV(_) =>
    case OptionV(_, None) =>
    case OptionV(_, Some(x)) => InlineOnlyOwnsNothing(sz, x);
  }

  /** `Option`: nothing for `None`, the content's indirect size for `Some`. */
  lemma OptionRule(sz: Layout, t: Ty, c: Option<Value>)
    ensures c.None? ==> IndirectSize(sz, OptionV(t, c)) == 0
    ensures c.Some? ==> IndirectSize(sz, OptionV(t, c)) == IndirectSize(sz, c.value)
    ensures c.Some? ==> OwnedBlocks(sz, OptionV(t, c)) == OwnedBlocks(sz, c.value)
  {
  }

  /**
   `Box`: the content's whole representation is out of line, so the box's
   indirect size is the content's full size, inline slot included.
   */
  lemma BoxRule(sz: Layout, x: Value)
    ensures IndirectSize(sz, BoxV(x)) == sz(TypeOf(x)) + IndirectSize(sz, x)
    ensures FullSize(sz, BoxV(x)) == sz(BoxTy(TypeOf(x))) + FullSize(sz, x)
  {
  }

  lemma {:induction false} SumIndirectConcat(sz: Layout, a: seq<Value>, b: seq<Value>)
    ensures SumIndirect(sz, a + b) == SumIndirect(sz, a) + SumIndirect(sz, b)
    decreases |b|
  {
    if b == [] {
      assert a + b == a;
    } else {
      var b' := b[..|b| - 1];
      assert (a + b)[..|a + b| - 1] == a + b';
      SumIndirectConcat(sz, a, b');
    }
  }

  /** `Vec`: reserving extra capacity adds exactly one element slot per unit. */
  lemma VecReserve(sz: Layout, t: Ty, cap: nat, extra: nat, items: seq<Value>)
    ensures IndirectSize(sz, VecV(t, cap + extra, items))
         == IndirectSize(sz, VecV(t, cap, items)) + extra * sz(t)
  {
  }

  /** `Vec`: pushing into spare capacity adds only what the new element owns. */
  lemma VecPush(sz: Layout, t: Ty, cap: nat, items: seq<Value>, e: Value)
    ensures IndirectSize(sz, VecV(t, cap, items + [e]))
         == IndirectSize(sz, VecV(t, cap, items)) + IndirectSize(sz, e)
  {
  }

  /** `iter().map(Size::full_size).sum()`: the full sizes of a sequence of values. */
  function SumFull(sz: Layout, items: seq<Value>): nat
  {
    if items == [] then 0
    else SumFull(sz, items[..|items| - 1]) + FullSize(sz, items[|items| - 1])
  }

  lemma {:induction false} SumFullOfTyped(sz: Layout, t: Ty, items: seq<Value>)
    requires forall i :: 0 <= i < |items| ==> TypeOf(items[i]) == t
    ensures SumFull(sz, items) == |items| * sz(t) + SumIndirect(sz, items)
    decreases |items|
  {
    if items != [] {
      var n := |items| - 1;
      SumFullOfTyped(sz, t, items[..n]);
      assert (n + 1) * sz(t) == n * sz(t) + sz(t);
    }
  }

  /**
   `Vec`: a well-typed vector is charged its spare capacity in element slots
   plus the full size of every element, the element's own slot included.
   */
  lemma VecIsSpareSlotsPlusElements(sz: Layout, t: Ty, cap: nat, items: seq<Value>)
    requires WellTyped(VecV(t, cap, items))
    ensures IndirectSize(sz, VecV(t, cap, items)) == (cap - |items|) * sz(t) + SumFull(sz, items)
  {
    SumFullOfTyped(sz, t, items);
    VecReserve(sz, t, |items|, cap - |items|, items);
  }

  /**
   `Vec`: capacity, never below length, is what is charged, so a vector is
   charged at least one element slot per element plus what the elements own.
   */
  lemma VecChargesAtLeastItsElements(sz: Layout, t: Ty, cap: nat, items: seq<Value>)
    requires WellTyped(VecV(t, cap, items))
    ensures IndirectSize(sz, VecV(t, cap, items)) >= |items| * sz(t) + SumIndirect(sz, items)
  {
    VecReserve(sz, t, |items|, cap - |items|, items);
  }

  lemma {:induction false} SumEntriesConcat(sz: Layout, a: seq<Entry>, b: seq<Entry>)
    ensures SumEntries(sz, a + b) == SumEntries(sz, a) + SumEntries(sz, b)
    decreases |b|
  {
    if b == [] {
      assert a + b == a;
    } else {
      var b' := b[..|b| - 1];
      assert (a + b)[..|a + b| - 1] == a + b';
      SumEntriesConcat(sz, a, b');
    }
  }

  /**
   `BTreeMap`: an entry added under a new key, at whatever position of the
   iteration order the key sorts to, adds the full size of its key and of its
   value, and nothing for tree nodes.
   */
  lemma MapInsert(sz: Layout, k: Ty, w: Ty, es: seq<Entry>, i: nat, key: Value, val: Value)
    requires i <= |es|
    requires TypeOf(key) == k && TypeOf(val) == w
    ensures IndirectSize(sz, BTreeMapV(k, w, es[..i] + [Entry(key, val)] + es[i..]))
         == IndirectSize(sz, BTreeMapV(k, w, es))
            + sz(k) + IndirectSize(sz, key) + sz(w) + IndirectSize(sz, val)
  {
    var e := Entry(key, val);
    var es' := es[..i] + [e] + es[i..];
    SumEntriesInsert(sz, es, i, e);
    MapIsEntrySum(sz, k, w, es);
    MapIsEntrySum(sz, k, w, es');
    assert EntryFullSize(sz, e) == sz(k) + IndirectSize(sz, key) + sz(w) + IndirectSize(sz, val);
  }

  lemma MapIsEntrySum(sz: Layout, k: Ty, w: Ty, es: seq<Entry>)
    ensures IndirectSize(sz, BTreeMapV(k, w, es)) == SumEntries(sz, es)
  {
  }

  lemma {:induction false} SumEntriesInsert(sz: Layout, es: seq<Entry>, i: nat, e: Entry)
    requires i <= |es|
    ensures SumEntries(sz, es[..i] + [e] + es[i..]) == SumEntries(sz, es) + EntryFullSize(sz, e)
  {
    var pre, post := es[..i], es[i..];
    SumEntriesConcat(sz, pre + [e], post);
    SumEntriesConcat(sz, pre, [e]);
    SumEntriesConcat(sz, pre, post);
    assert SumEntries(sz, [e]) == EntryFullSize(sz, e) by {
      assert [e][..0] == [];
    }
    assert pre + post == es;
  }

  /** Maps with no entries own nothing. */
  lemma EmptyMapsOwnNothing(sz: Layout, k: Ty, w: Ty)
    ensures IndirectSize(sz, BTreeMapV(k, w, [])) == 0
    ensures IndirectSize(sz, JsonMapV([])) == 0
  {
  }

  /** The JSON object map follows the same entry rule as a `BTreeMap<String, Value>`. */
  lemma JsonMapIsMapRule(sz: Layout, es: seq<Entry>)
    ensures IndirectSize(sz, JsonMapV(es)) == IndirectSize(sz, BTreeMapV(StringTy, JsonValueTy, es))
  {
  }

  /** `String`: its capacity, whatever its contents. */
  lemma StringIsCapacity(sz: Layout, text: seq<bv8>, other: seq<bv8>, cap: nat)
    ensures IndirectSize(sz, StringV(text, cap)) == cap
    ensures IndirectSize(sz, StringV(text, cap)) == IndirectSize(sz, StringV(other, cap))
  {
  }

  /** JSON null, booleans and numbers own nothing. */
  lemma JsonScalarsOwnNothing(sz: Layout, v: Value)
    requires WellTyped(v)
    requires v.JsonNull? || v.JsonBool? || v.JsonNumberV?
    ensures IndirectSize(sz, v) == 0
  {
  }

  /** JSON strings, arrays and objects cost what their `String`, `Vec` and `Map` payloads cost. */
  lemma JsonContainersDelegate(sz: Layout, p: Value)
    ensures IndirectSize(sz, JsonString(p)) == IndirectSize(sz, p)
    ensures IndirectSize(sz, JsonArray(p)) == IndirectSize(sz, p)
    ensures IndirectSize(sz, JsonObject(p)) == IndirectSize(sz, p)
  {
  }

  /** A string of capacity 16 holding the three bytes of "abc" is charged 16, not 3. */
  lemma StringExample(sz: Layout)
    ensures IndirectSize(sz, StringV([0x61, 0x62, 0x63], 16)) == 16
  {
  }

  /** Four scalars in a vector of capacity 8 are charged eight element slots. */
  lemma VecExample(sz: Layout, s: Scalar)
    ensures IndirectSize(sz, VecV(ScalarTy(s), 8, [ScalarV(s), ScalarV(s), ScalarV(s), ScalarV(s)]))
         == 8 * sz(ScalarTy(s))
  {
    var x := ScalarV(s);
    SumIndirectConcat(sz, [x, x], [x, x]);
    SumIndirectConcat(sz, [x], [x]);
    assert SumIndirect(sz, [x]) == 0 by {
      assert [x][..0] == [];
    }
    assert [x, x] + [x, x] == [x, x, x, x];
  }
}
