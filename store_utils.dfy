/** Helpers shared by the stores (src/store/utils/index.ts): the check that a
    new selection is of a different kind than the current one, and the
    lookup of a variant by id. */
module StoreUtils {
  import opened Common
  import opened Types

  /** A selected item; only its optional `type` is read here. */
  datatype SelectedItem = SelectedItem(kind: Option<string>)

  /** `items[0]?.type`: undefined for an empty list or an untyped item. */
  function FirstType(items: seq<SelectedItem>): (t: Option<string>)
    ensures t.Some? <==> |items| > 0 && items[0].kind.Some?
    ensures t.Some? ==> t.value == items[0].kind.value
  {
    if |items| == 0 then None else items[0].kind
  }

  /** Truthiness of an optional string: defined and not empty. */
  predicate Present(t: Option<string>) {
    t.Some? && t.value != ""
  }

  /** `switchedType`, read as the truthiness of the `&&` chain. */
  predicate SwitchedType(items1: seq<SelectedItem>, items2: seq<SelectedItem>) {
    Present(FirstType(items1)) && Present(FirstType(items2)) && FirstType(items1).value != FirstType(items2).value
  }

  /** Falsy whenever either list is empty. */
  lemma SwitchedTypeNeedsBothLists(items1: seq<SelectedItem>, items2: seq<SelectedItem>)
    requires items1 == [] || items2 == []
    ensures !SwitchedType(items1, items2)
  {
  }

  /** True exactly when both first items have a (non-empty) type and the two
      types differ. */
  lemma SwitchedTypeMeansDifferentKinds(items1: seq<SelectedItem>, items2: seq<SelectedItem>)
    ensures SwitchedType(items1, items2) <==>
              && |items1| > 0 && |items2| > 0
              && items1[0].kind.Some? && items1[0].kind.value != ""
              && items2[0].kind.Some? && items2[0].kind.value != ""
              && items1[0].kind.value != items2[0].kind.value
  {
  }

  /** Only the first item of each list is inspected. */
  lemma SwitchedTypeReadsFirstItems(items1: seq<SelectedItem>, items2: seq<SelectedItem>,
                                    rest1: seq<SelectedItem>, rest2: seq<SelectedItem>)
    requires |items1| > 0 && |items2| > 0
    ensures SwitchedType([items1[0]] + rest1, [items2[0]] + rest2) == SwitchedType(items1, items2)
  {
  }

  /** The answer does not depend on which list is the current one, and a
      list never switches type against itself. */
  lemma SwitchedTypeSymmetric(items1: seq<SelectedItem>, items2: seq<SelectedItem>)
    ensures SwitchedType(items1, items2) == SwitchedType(items2, items1)
    ensures !SwitchedType(items1, items1)
  {
  }

  /** The result of `getVariantsWithIdCheck`: the copied list, the element at
      `index` (`undefined` when out of range) and the index. */
  datatype Lookup = Lookup(variants: seq<Variant>, variant: Option<Variant>, index: int)

  /** `variants[index]` in JavaScript. */
  function At(variants: seq<Variant>, index: int): (r: Option<Variant>)
    ensures r.Some? <==> 0 <= index < |variants|
    ensures r.Some? ==> r.value == variants[index]
  {
    if 0 <= index < |variants| then Some(variants[index]) else None
  }

  /** `findIndex(v => v.id === variantId)`. */
  function IndexOfId(variants: seq<Variant>, variantId: string): (index: int)
    ensures -1 <= index < |variants|
    ensures index == -1 <==> forall i :: 0 <= i < |variants| ==> variants[i].id != variantId
    ensures index >= 0 ==> variants[index].id == variantId
                           && forall i :: 0 <= i < index ==> variants[i].id != variantId
  {
    FindIndex(variants, (v: Variant) => v.id == variantId)
  }

  function NotFoundMessage(variantId: string): string {
    "Variant with id \"" + variantId + "\" not found."
  }

  /** `getVariantsWithIdCheck` as written, with the store's list passed in:
      its guard compares a number with `undefined`, so it never throws. */
  function GetVariantsWithIdCheckAsWritten(store: seq<Variant>, variantId: string): (r: Result<Lookup, string>)
    ensures r.Ok?
    ensures r.value.variants == store
    ensures r.value.index == IndexOfId(store, variantId)
    ensures r.value.variant == At(store, r.value.index)
  {
    var variants := store;
    var index: int := IndexOfId(variants, variantId);
    // `index === undefined` is false for every number.
    Ok(Lookup(variants, At(variants, index), index))
  }

  /** With an id no variant has, the lookup as written hands back index -1
      and an undefined variant instead of reporting the missing id. */
  lemma MissingIdIsNotReported(store: seq<Variant>, variantId: string)
    requires forall i :: 0 <= i < |store| ==> store[i].id != variantId
    ensures GetVariantsWithIdCheckAsWritten(store, variantId) == Ok(Lookup(store, None, -1))
    ensures GetVariantsWithIdCheck(store, variantId) == Err(NotFoundMessage(variantId))
  {
  }

  /** `getVariantsWithIdCheck` as intended: a missing id is an error;
      otherwise the copy, the first variant with that id and its index. */
  function GetVariantsWithIdCheck(store: seq<Variant>, variantId: string): (r: Result<Lookup, string>)
    ensures r.Err? <==> forall i :: 0 <= i < |store| ==> store[i].id != variantId
    ensures r.Err? ==> r.error == NotFoundMessage(variantId)
    ensures r.Ok? ==> && r.value.variants == store
                      && 0 <= r.value.index < |store|
                      && r.value.variant == Some(store[r.value.index])
                      && store[r.value.index].id == variantId
                      && forall i :: 0 <= i < r.value.index ==> store[i].id != variantId
  {
    var variants := store;
    var index := IndexOfId(variants, variantId);
    if index == -1 then Err(NotFoundMessage(variantId))
    else Ok(Lookup(variants, At(variants, index), index))
  }

  /** Both versions agree whenever the id is present. */
  lemma LookupAgreesWhenFound(store: seq<Variant>, variantId: string)
    requires exists i :: 0 <= i < |store| && store[i].id == variantId
    ensures GetVariantsWithIdCheck(store, variantId) == GetVariantsWithIdCheckAsWritten(store, variantId)
  {
  }
}
