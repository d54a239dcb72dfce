/** The default name of a newly added variant
    (src/features/settings/variants/add-variant.tsx): one more than the
    largest `Variant N` among the existing names, or one more than the number
    of variants when no name has that form. */
module VariantNames {
  import opened Common
  import opened Types

  const DefaultNamePrefix := "Variant "

  /** `name.match(/^Variant (\d+)$/)` followed by `parseInt(match[1], 10)`:
      the number of a name of the default form, if it has that form. */
  function DefaultNumber(name: string): Option<nat> {
    if |name| > |DefaultNamePrefix| && name[..|DefaultNamePrefix|] == DefaultNamePrefix
       && AllDigits(name[|DefaultNamePrefix|..])
    then Some(ParseDigits(name[|DefaultNamePrefix|..]))
    else None
  }

  /** `Variant ${n}` */
  function DefaultName(n: nat): string {
    DefaultNamePrefix + NatToString(n)
  }

  /** A default name reads back as its own number. */
  lemma DefaultNumberOfDefaultName(n: nat)
    ensures DefaultNumber(DefaultName(n)) == Some(n)
  {
    var name := DefaultName(n);
    assert name[..|DefaultNamePrefix|] == DefaultNamePrefix;
    assert name[|DefaultNamePrefix|..] == NatToString(n);
    ParseDigitsOfNatToString(n);
  }

  /** The two variables of the loop: whether some name matched, and the
      largest number seen. */
  datatype Tally = Tally(hasMatch: bool, maxNumber: nat)

  /** The loop's variables after it has visited `names` in order. */
  function TallyOf(names: seq<string>): Tally {
    if names == [] then Tally(false, 0)
    else
      var t := TallyOf(names[..|names| - 1]);
      match DefaultNumber(names[|names| - 1])
      case Some(n) => Tally(true, if n > t.maxNumber then n else t.maxNumber)
      case None => t
  }

  /** After the loop, `hasMatch` says whether some name has the default form,
      and `maxNumber` is the largest number among those names (0 when there
      are none). */
  lemma {:induction false} TallyIsLargestDefaultNumber(names: seq<string>)
    ensures TallyOf(names).hasMatch <==> exists i :: 0 <= i < |names| && DefaultNumber(names[i]).Some?
    ensures forall i :: 0 <= i < |names| && DefaultNumber(names[i]).Some? ==>
                          DefaultNumber(names[i]).value <= TallyOf(names).maxNumber
    ensures TallyOf(names).hasMatch ==>
              exists i :: 0 <= i < |names| && DefaultNumber(names[i]) == Some(TallyOf(names).maxNumber)
    ensures !TallyOf(names).hasMatch ==> TallyOf(names).maxNumber == 0
  {
    if names != [] {
      var init := names[..|names| - 1];
      TallyIsLargestDefaultNumber(init);
      assert forall i :: 0 <= i < |init| ==> init[i] == names[i];
      if TallyOf(names).hasMatch && DefaultNumber(names[|names| - 1]) != Some(TallyOf(names).maxNumber) {
        var i :| 0 <= i < |init| && DefaultNumber(init[i]) == Some(TallyOf(init).maxNumber);
        assert DefaultNumber(names[i]) == Some(TallyOf(names).maxNumber);
      }
    }
  }

  /** The name `getNextVariantName` returns for a list with these names. */
  function NextVariantName(names: seq<string>): string {
    var t := TallyOf(names);
    if t.hasMatch then DefaultName(t.maxNumber + 1) else DefaultName(|names| + 1)
  }

  /** With no name of the default form, the new name counts the variants. */
  lemma NextNameCountsVariants(names: seq<string>)
    requires forall i :: 0 <= i < |names| ==> DefaultNumber(names[i]).None?
    ensures NextVariantName(names) == DefaultName(|names| + 1)
  {
    TallyIsLargestDefaultNumber(names);
  }

  /** Otherwise the new name follows the largest number in use. */
  lemma NextNameFollowsLargest(names: seq<string>, k: nat, n: nat)
    requires k < |names| && DefaultNumber(names[k]) == Some(n)
    requires forall i :: 0 <= i < |names| && DefaultNumber(names[i]).Some? ==> DefaultNumber(names[i]).value <= n
    ensures NextVariantName(names) == DefaultName(n + 1)
  {
    TallyIsLargestDefaultNumber(names);
  }

  /** The new name always has the default form, with a number of at least 1. */
  lemma NextNameIsDefault(names: seq<string>)
    ensures DefaultNumber(NextVariantName(names)).Some?
    ensures DefaultNumber(NextVariantName(names)).value >= 1
  {
    var t := TallyOf(names);
    DefaultNumberOfDefaultName(if t.hasMatch then t.maxNumber + 1 else |names| + 1);
  }

  /** The new name differs from every existing name. */
  lemma NextNameIsFresh(names: seq<string>)
    ensures forall i :: 0 <= i < |names| ==> names[i] != NextVariantName(names)
  {
    var t := TallyOf(names);
    TallyIsLargestDefaultNumber(names);
    DefaultNumberOfDefaultName(if t.hasMatch then t.maxNumber + 1 else |names| + 1);
  }

  /** A name that is not of the default form (`Variant 3 copy`, say) does not
      change the outcome, wherever it is inserted, as long as some name has
      the default form. */
  lemma NonDefaultNameIsIgnored(names: seq<string>, j: nat, name: string)
    requires j <= |names|
    requires DefaultNumber(name).None?
    requires exists i :: 0 <= i < |names| && DefaultNumber(names[i]).Some?
    ensures NextVariantName(names[..j] + [name] + names[j..]) == NextVariantName(names)
  {
    var longer := names[..j] + [name] + names[j..];
    TallyIsLargestDefaultNumber(names);
    var n := TallyOf(names).maxNumber;
    var k :| 0 <= k < |names| && DefaultNumber(names[k]) == Some(n);
    assert longer[..j] == names[..j];
    assert longer[j + 1..] == names[j..];
    var k' := if k < j then k else k + 1;
    assert longer[k'] == names[k] by {
      if k < j { assert longer[..j][k] == names[..j][k]; } else { assert longer[j + 1..][k - j] == names[j..][k - j]; }
    }
    forall i | 0 <= i < |longer| && DefaultNumber(longer[i]).Some?
      ensures DefaultNumber(longer[i]).value <= n
    {
      if i < j {
        assert longer[i] == longer[..j][i] == names[..j][i] == names[i];
      } else if i > j {
        assert longer[i] == longer[j + 1..][i - j - 1] == names[j..][i - j - 1] == names[i - 1];
      }
    }
    NextNameFollowsLargest(longer, k', n);
  }

  /** The names of the variants, in list order. */
  function Names(variants: seq<Variant>): (names: seq<string>)
    ensures |names| == |variants|
    ensures forall i :: 0 <= i < |variants| ==> names[i] == variants[i].name
  {
    seq(|variants|, i requires 0 <= i < |variants| => variants[i].name)
  }

  /** `getNextVariantName`: the `forEach` over the variants. */
  method GetNextVariantName(variants: seq<Variant>) returns (name: string)
    ensures name == NextVariantName(Names(variants))
  {
    var maxNumber: nat := 0;
    var hasMatch := false;
    var i := 0;
    while i < |variants|
      invariant 0 <= i <= |variants|
      invariant TallyOf(Names(variants)[..i]) == Tally(hasMatch, maxNumber)
    {
      var number := DefaultNumber(variants[i].name);
      assert Names(variants)[..i + 1][..i] == Names(variants)[..i];
      if number.Some? {
        hasMatch := true;
        if number.value > maxNumber {
          maxNumber := number.value;
        }
      }
      i := i + 1;
    }
    assert Names(variants)[..i] == Names(variants);
    if hasMatch {
      name := DefaultName(maxNumber + 1);
    } else {
      name := DefaultName(|variants| + 1);
    }
  }

  /** `handleAdd`: the variant passed to the store, with the id made from the
      current time, the generated name and the default settings. */
  function NewVariant(now: nat, variants: seq<Variant>, defaults: VariantSettings): (v: Variant)
    ensures v.id == "v-" + NatToString(now)
    ensures v.settings == defaults
    ensures DefaultNumber(v.name).Some? && DefaultNumber(v.name).value >= 1
    ensures forall i :: 0 <= i < |variants| ==> variants[i].name != v.name
  {
    NextNameIsDefault(Names(variants));
    NextNameIsFresh(Names(variants));
    Variant("v-" + NatToString(now), NextVariantName(Names(variants)), defaults)
  }
}
