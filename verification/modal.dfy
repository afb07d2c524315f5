/** The recipe detail overlay: the ingredient list drawn from the twenty numbered
    ingredient/measure slots, the numbered instruction steps, and the optional sections. */
module RecipeModal {
  import opened Options
  import opened Seqs
  import opened Text
  import opened Catalogue

  const SlotCount: nat := 20

  /** Instructions are cut at every carriage-return/line-feed pair, and only there. */
  const StepSeparator: string := "\r\n"

  /** Slot `n` (counted from 1) of a numbered property family; `undefined` past the end. */
  function Slot(values: seq<Option<string>>, n: nat): (v: Option<string>)
    ensures n == 0 || n > |values| ==> v == None
  {
    if 1 <= n <= |values| then values[n - 1] else None
  }

  datatype IngredientSlot = IngredientSlot(ingredient: Option<string>, measure: Option<string>)

  /** Slot n of the recipe's ingredient and measure properties, as the map over 1..20 builds it. */
  function SlotPair(r: Recipe, n: nat): IngredientSlot {
    IngredientSlot(Slot(r.ingredients, n), Slot(r.measures, n))
  }

  /** The twenty slot pairs, slot 1 first. */
  function SlotPairs(r: Recipe): (slots: seq<IngredientSlot>)
    ensures |slots| == SlotCount
    ensures forall i :: 0 <= i < SlotCount ==> slots[i] == SlotPair(r, i + 1)
  {
    seq(SlotCount, i requires 0 <= i < SlotCount => SlotPair(r, i + 1))
  }

  /** The filter `ingredient && measure`: both values present and non-empty. */
  predicate Listed(slot: IngredientSlot) {
    Truthy(slot.ingredient) && Truthy(slot.measure)
  }

  /** The ingredient list: the listed slot pairs, values copied as they are (not trimmed). */
  function Ingredients(r: Recipe): (lines: seq<IngredientSlot>)
    ensures |lines| <= SlotCount
    ensures forall k :: 0 <= k < |lines| ==> Listed(lines[k])
  {
    Filter(SlotPairs(r), Listed)
  }

  /** Zero-based positions turned into one-based slot numbers. */
  function SlotNumbers(ks: seq<nat>): (ns: seq<nat>)
    ensures |ns| == |ks|
    ensures forall k :: 0 <= k < |ks| ==> ns[k] == ks[k] + 1
    ensures forall n: nat :: n in ns <==> 1 <= n && n - 1 in ks
    ensures StrictlyIncreasing(ks) ==> StrictlyIncreasing(ns)
  {
    var ns := seq(|ks|, k requires 0 <= k < |ks| => ks[k] + 1);
    assert forall n: nat :: n in ns ==> 1 <= n && n - 1 in ks by {
      forall n: nat | n in ns ensures 1 <= n && n - 1 in ks {
        var k :| 0 <= k < |ns| && ns[k] == n;
        assert ks[k] == n - 1;
      }
    }
    assert forall n: nat :: 1 <= n && n - 1 in ks ==> n in ns by {
      forall n: nat | 1 <= n && n - 1 in ks ensures n in ns {
        var k :| 0 <= k < |ks| && ks[k] == n - 1;
        assert ns[k] == n;
      }
    }
    ns
  }

  /** The slot numbers behind the ingredient list, entry by entry: they increase strictly,
      lie in 1..20, the entry is that slot's pair verbatim, and a slot appears exactly when
      both its ingredient and its measure are non-empty (a slot with only one is dropped). */
  function IngredientSlots(r: Recipe): (ns: seq<nat>)
    ensures |ns| == |Ingredients(r)|
    ensures StrictlyIncreasing(ns)
    ensures forall k :: 0 <= k < |ns| ==> 1 <= ns[k] <= SlotCount && Ingredients(r)[k] == SlotPair(r, ns[k])
    ensures forall n :: 1 <= n <= SlotCount ==>
      (n in ns <==> Truthy(Slot(r.ingredients, n)) && Truthy(Slot(r.measures, n)))
  {
    var slots := SlotPairs(r);
    var ks := Positions(slots, Listed);
    FilterSelectsPositions(slots, Listed);
    var ns := SlotNumbers(ks);
    SlotNumbersEntries(r, ks, ns);
    SlotNumbersListed(r, ks, ns);
    ns
  }

  lemma SlotNumbersEntries(r: Recipe, ks: seq<nat>, ns: seq<nat>)
    requires ks == Positions(SlotPairs(r), Listed)
    requires SelectedBy(Ingredients(r), SlotPairs(r), ks)
    requires |ns| == |ks| && forall k :: 0 <= k < |ks| ==> ns[k] == ks[k] + 1
    ensures forall k :: 0 <= k < |ns| ==> 1 <= ns[k] <= SlotCount && Ingredients(r)[k] == SlotPair(r, ns[k])
  {
    forall k | 0 <= k < |ns|
      ensures 1 <= ns[k] <= SlotCount && Ingredients(r)[k] == SlotPair(r, ns[k])
    {
      assert Ingredients(r)[k] == SlotPairs(r)[ks[k]];
    }
  }

  lemma SlotNumbersListed(r: Recipe, ks: seq<nat>, ns: seq<nat>)
    requires ks == Positions(SlotPairs(r), Listed)
    requires forall n: nat :: n in ns <==> 1 <= n && n - 1 in ks
    ensures forall n :: 1 <= n <= SlotCount ==>
      (n in ns <==> Truthy(Slot(r.ingredients, n)) && Truthy(Slot(r.measures, n)))
  {
    forall n | 1 <= n <= SlotCount
      ensures n in ns <==> Truthy(Slot(r.ingredients, n)) && Truthy(Slot(r.measures, n))
    {
      assert SlotPairs(r)[n - 1] == SlotPair(r, n);
      assert n in ns <==> n - 1 in ks;
    }
  }

  /** A whitespace-only value is non-empty, so its slot is listed, untrimmed. */
  lemma WhitespaceSlotIsListed(r: Recipe)
    requires |r.ingredients| >= 1 && |r.measures| >= 1
    requires r.ingredients[0] == Some(" ") && r.measures[0] == Some(" ")
    ensures |Ingredients(r)| >= 1 && Ingredients(r)[0] == IngredientSlot(Some(" "), Some(" "))
  {
    var ns := IngredientSlots(r);
    assert 1 in ns;
    var k :| 0 <= k < |ns| && ns[k] == 1;
    if k > 0 {
      assert ns[0] < ns[k];
    }
  }

  predicate NotBlank(s: string) {
    !IsBlank(s)
  }

  /** `strInstructions.split('\r\n').filter(step => step.trim().length > 0)`. */
  function Steps(instructions: string): (steps: seq<string>)
    ensures |steps| <= |Split(instructions, StepSeparator)|
    ensures forall k :: 0 <= k < |steps| ==> !AllWhitespace(steps[k])
  {
    var steps := Filter(Split(instructions, StepSeparator), NotBlank);
    assert forall k :: 0 <= k < |steps| ==> !AllWhitespace(steps[k]) by {
      forall k | 0 <= k < |steps| ensures !AllWhitespace(steps[k]) {
        BlankIffAllWhitespace(steps[k]);
      }
    }
    steps
  }

  /** The steps are exactly the pieces of the split that are not all whitespace, untrimmed and
      in their original order; the pieces contain no separator and rejoin to the instructions. */
  lemma StepsArePieces(instructions: string)
    ensures var pieces := Split(instructions, StepSeparator);
      var keep := Positions(pieces, NotBlank);
      && SelectedBy(Steps(instructions), pieces, keep)
      && (forall j :: 0 <= j < |pieces| ==> (j in keep <==> !AllWhitespace(pieces[j])))
      && (forall j :: 0 <= j < |pieces| ==> !Contains(pieces[j], StepSeparator))
      && Join(pieces, StepSeparator) == instructions
  {
    var pieces := Split(instructions, StepSeparator);
    FilterSelectsPositions(pieces, NotBlank);
    forall j | 0 <= j < |pieces| ensures NotBlank(pieces[j]) <==> !AllWhitespace(pieces[j]) {
      BlankIffAllWhitespace(pieces[j]);
    }
    SplitPiecesAvoidSeparator(instructions, StepSeparator);
    JoinSplit(instructions, StepSeparator);
  }

  /** Text without a carriage-return/line-feed pair is one step, however many lone line feeds
      it holds, or no step when it is all whitespace. */
  lemma SingleStepWithoutSeparator(instructions: string)
    requires !Contains(instructions, StepSeparator)
    ensures Steps(instructions) == (if AllWhitespace(instructions) then [] else [instructions])
  {
    SplitWithoutSeparator(instructions, StepSeparator);
    BlankIffAllWhitespace(instructions);
    FilterSingleton(instructions, NotBlank);
  }

  datatype NumberedStep = NumberedStep(number: nat, text: string)

  /** What the overlay shows. A section that is not rendered is `None`. */
  datatype ModalView = ModalView(
    title: string,
    category: string,
    area: string,
    tagsBadge: Option<string>,
    ingredients: seq<IngredientSlot>,
    steps: seq<NumberedStep>,
    video: Option<string>)

  /** The overlay for a recipe: the tags badge and the video section appear only for a
      non-empty `strTags` and `strYoutube`; steps are numbered 1, 2, ... in order. */
  function View(r: Recipe): (v: ModalView)
    ensures v.title == r.strMeal && v.category == r.strCategory && v.area == r.strArea
    ensures v.tagsBadge.Some? <==> Truthy(r.strTags)
    ensures v.tagsBadge.Some? ==> v.tagsBadge == r.strTags
    ensures v.video.Some? <==> Truthy(r.strYoutube)
    ensures v.video.Some? ==> v.video == r.strYoutube
    ensures v.ingredients == Ingredients(r)
    ensures |v.steps| == |Steps(r.strInstructions)|
    ensures forall k :: 0 <= k < |v.steps| ==>
      v.steps[k].number == k + 1 && v.steps[k].text == Steps(r.strInstructions)[k]
  {
    var steps := Steps(r.strInstructions);
    ModalView(
      r.strMeal,
      r.strCategory,
      r.strArea,
      if Truthy(r.strTags) then r.strTags else None,
      Ingredients(r),
      seq(|steps|, k requires 0 <= k < |steps| => NumberedStep(k + 1, steps[k])),
      if Truthy(r.strYoutube) then r.strYoutube else None)
  }
}
