/** Recipes with their ingredients and ordered steps, and the loop that
    creates a recipe's steps one save at a time. */
module Cookbook {
  import opened Common
  import opened Signals

  datatype Recipe = Recipe(name: string, photo: string, url: string)

  /** A stored step: its text and its order within the recipe. */
  datatype Step = Step(text: string, order: int)

  /** A submitted step; the order is optional. */
  datatype StepInput = StepInput(step: string, order: Option<int>)

  /** Upper bounds on the lists a recipe mutation accepts. */
  const MaxIngredients := 150
  const MaxSteps := 200

  /** The orders of a recipe's steps, as the rows are listed. */
  function Orders(s: seq<Step>): (r: seq<int>)
    ensures |r| == |s| && forall k :: 0 <= k < |s| ==> r[k] == s[k].order
  {
    seq(|s|, k requires 0 <= k < |s| => s[k].order)
  }

  /** `if step.order:` — an order is used only when present and not 0:
      None and 0 are the orders Python treats as false. */
  predicate OrderGiven(s: StepInput)
    ensures !OrderGiven(s) <==> s.order in {None, Some(0)}
  {
    s.order.Some? && s.order.value != 0
  }

  /** What happens to one submitted step. */
  datatype StepSave = Saved(step: Step) | Refused(error: Error)

  /** Saving one step after the rows `stored`. A step with an order is
      saved with it, subject to the uniqueness rule. Without one,
      creation (`onCreate`) goes through a relation name that does not
      exist and fails, while an update saves it without an order and
      the auto-numbering receiver picks the first gap. */
  function SaveStep(stored: seq<Step>, s: StepInput, onCreate: bool): (r: StepSave)
    ensures OrderGiven(s) && r.Saved? ==> r.step == Step(s.step, s.order.value)
    ensures !OrderGiven(s) && r.Saved? ==> !onCreate && r.step == Step(s.step, FirstGap(Orders(stored)))
    ensures r.Saved? ==> StepOrderUnique(r.step.order, Orders(stored)) == Ok
    ensures onCreate && !OrderGiven(s) ==> r == Refused(MissingStepRelation)
  {
    if OrderGiven(s) then
      var check := StepOrderUnique(s.order.value, Orders(stored));
      if check == Ok then Saved(Step(s.step, s.order.value)) else Refused(check.error)
    else if onCreate then Refused(MissingStepRelation)
    else
      var order := FirstGap(Orders(stored));
      var check := StepOrderUnique(order, Orders(stored));
      if check == Ok then Saved(Step(s.step, order)) else Refused(check.error)
  }

  /** The rows after the loop and how it ended. */
  datatype Stepping = Stepping(steps: seq<Step>, outcome: Outcome)

  /** Specification of the step loop: save the inputs in turn after
      `stored`, stopping at the first refusal. */
  function StepsAfter(stored: seq<Step>, inputs: seq<StepInput>, onCreate: bool): (r: Stepping)
    ensures |stored| <= |r.steps| <= |stored| + |inputs| && r.steps[..|stored|] == stored
    ensures r.outcome == Ok <==> |r.steps| == |stored| + |inputs|
    decreases |inputs|
  {
    if inputs == [] then Stepping(stored, Ok)
    else match SaveStep(stored, inputs[0], onCreate)
      case Refused(e) => Stepping(stored, Err(e))
      case Saved(st) =>
        var r := StepsAfter(stored + [st], inputs[1..], onCreate);
        assert r.steps[..|stored|] == r.steps[..|stored| + 1][..|stored|];
        r
  }

  /** The step loop of both recipe mutations. */
  method CreateSteps(stored: seq<Step>, inputs: seq<StepInput>, onCreate: bool)
    returns (steps: seq<Step>, r: Outcome)
    ensures Stepping(steps, r) == StepsAfter(stored, inputs, onCreate)
  {
    steps := stored;
    for i := 0 to |inputs|
      invariant StepsAfter(steps, inputs[i..], onCreate) == StepsAfter(stored, inputs, onCreate)
    {
      var s := inputs[i];
      assert inputs[i..][0] == s && inputs[i..][1..] == inputs[i + 1..];
      var order: int;
      if s.order.Some? && s.order.value != 0 {
        order := s.order.value;
      } else if onCreate {
        return steps, Err(MissingStepRelation);
      } else {
        order := AssignStepOrder(Orders(steps), None);
      }
      var check := StepOrderUnique(order, Orders(steps));
      if check != Ok {
        return steps, check;
      }
      steps := steps + [Step(s.step, order)];
    }
    return steps, Ok;
  }

  /** The loop only appends, and every recipe's orders stay positive and
      distinct. */
  lemma {:induction false} StepsKeepOrdersDistinct(stored: seq<Step>, inputs: seq<StepInput>, onCreate: bool)
    requires DistinctPositive(Orders(stored))
    ensures var r := StepsAfter(stored, inputs, onCreate).steps;
            |stored| <= |r| && r[..|stored|] == stored && DistinctPositive(Orders(r))
    decreases |inputs|
  {
    if inputs != [] {
      match SaveStep(stored, inputs[0], onCreate)
      case Refused(_) =>
      case Saved(st) =>
        var next := stored + [st];
        assert Orders(next) == Orders(stored) + [st.order];
        AcceptedStepKeepsOrdersDistinct(Orders(stored), st.order);
        StepsKeepOrdersDistinct(next, inputs[1..], onCreate);
        var r := StepsAfter(next, inputs[1..], onCreate).steps;
        assert r[..|stored|] == r[..|next|][..|stored|];
    }
  }

  /** The steps `inputs` numbered m + 1, m + 2, ... in input order. */
  function Numbered(inputs: seq<StepInput>, m: int): (r: seq<Step>)
    ensures |r| == |inputs| && forall k :: 0 <= k < |r| ==> r[k] == Step(inputs[k].step, m + k + 1)
  {
    seq(|inputs|, k requires 0 <= k < |inputs| => Step(inputs[k].step, m + k + 1))
  }

  /** On update, steps without an order that follow steps numbered
      1..m get m + 1, m + 2, ... in input order; after the wipe (m = 0)
      a run of n of them is numbered 1..n. */
  lemma {:induction false} OrderlessStepsNumberedInTurn(stored: seq<Step>, inputs: seq<StepInput>)
    requires Orders(stored) == Run(|stored|)
    requires forall k :: 0 <= k < |inputs| ==> !OrderGiven(inputs[k])
    ensures StepsAfter(stored, inputs, false) == Stepping(stored + Numbered(inputs, |stored|), Ok)
    decreases |inputs|
  {
    if inputs != [] {
      var m := |stored|;
      FirstGapAfterRun(m);
      var st := Step(inputs[0].step, m + 1);
      assert SaveStep(stored, inputs[0], false) == Saved(st);
      var next := stored + [st];
      assert Orders(next) == Run(m + 1);
      OrderlessStepsNumberedInTurn(next, inputs[1..]);
      NumberedShift(stored, inputs);
    }
  }

  /** Numbering the first step onto the stored ones leaves the combined
      steps unchanged. */
  lemma NumberedShift(stored: seq<Step>, inputs: seq<StepInput>)
    requires inputs != []
    ensures var m := |stored|;
            stored + [Step(inputs[0].step, m + 1)] + Numbered(inputs[1..], m + 1) == stored + Numbered(inputs, m)
  {
  }

  /** The orders of submitted steps that all carry one. */
  function GivenOrders(inputs: seq<StepInput>): (r: seq<int>)
    requires forall k :: 0 <= k < |inputs| ==> inputs[k].order.Some?
    ensures |r| == |inputs| && forall k :: 0 <= k < |r| ==> r[k] == inputs[k].order.value
  {
    seq(|inputs|, k requires 0 <= k < |inputs| => inputs[k].order.value)
  }

  /** The steps as submitted, each with its own order. */
  function AsGiven(inputs: seq<StepInput>): (r: seq<Step>)
    requires forall k :: 0 <= k < |inputs| ==> inputs[k].order.Some?
    ensures |r| == |inputs| && forall k :: 0 <= k < |r| ==> r[k] == Step(inputs[k].step, inputs[k].order.value)
  {
    seq(|inputs|, k requires 0 <= k < |inputs| => Step(inputs[k].step, inputs[k].order.value))
  }

  /** A first step whose order is positive and distinct from the stored
      ones is saved with that order. */
  lemma FirstGivenAccepted(stored: seq<Step>, inputs: seq<StepInput>, onCreate: bool)
    requires inputs != [] && forall k :: 0 <= k < |inputs| ==> inputs[k].order.Some?
    requires DistinctPositive(Orders(stored) + GivenOrders(inputs))
    ensures SaveStep(stored, inputs[0], onCreate) == Saved(Step(inputs[0].step, inputs[0].order.value))
  {
    var all := Orders(stored) + GivenOrders(inputs);
    var o := inputs[0].order.value;
    assert all[|stored|] == o;
    forall k | 0 <= k < |stored| ensures Orders(stored)[k] != o {
      assert all[k] != all[|stored|];
    }
  }

  /** Moving the first submitted step onto the stored ones changes
      neither the combined orders nor the combined steps. */
  lemma GivenShift(stored: seq<Step>, inputs: seq<StepInput>)
    requires inputs != [] && forall k :: 0 <= k < |inputs| ==> inputs[k].order.Some?
    ensures var next := stored + [Step(inputs[0].step, inputs[0].order.value)];
            && Orders(next) + GivenOrders(inputs[1..]) == Orders(stored) + GivenOrders(inputs)
            && next + AsGiven(inputs[1..]) == stored + AsGiven(inputs)
  {
  }

  /** On creation and on update alike, steps that all carry orders which
      are positive and distinct from each other and from the stored ones
      are stored as given, in input order. */
  lemma {:induction false} GivenOrdersKept(stored: seq<Step>, inputs: seq<StepInput>, onCreate: bool)
    requires forall k :: 0 <= k < |inputs| ==> inputs[k].order.Some?
    requires DistinctPositive(Orders(stored) + GivenOrders(inputs))
    ensures StepsAfter(stored, inputs, onCreate) == Stepping(stored + AsGiven(inputs), Ok)
    decreases |inputs|
  {
    if inputs != [] {
      FirstGivenAccepted(stored, inputs, onCreate);
      GivenShift(stored, inputs);
      var next := stored + [Step(inputs[0].step, inputs[0].order.value)];
      GivenOrdersKept(next, inputs[1..], onCreate);
    }
  }

  /** On creation, any step without an order makes the loop fail. */
  lemma {:induction false} CreateWithOrderlessStepFails(stored: seq<Step>, inputs: seq<StepInput>, k: nat)
    requires k < |inputs| && !OrderGiven(inputs[k])
    ensures StepsAfter(stored, inputs, true).outcome.Err?
    decreases |inputs|
  {
    if k > 0 {
      match SaveStep(stored, inputs[0], true)
      case Refused(_) =>
      case Saved(st) =>
        assert inputs[1..][k - 1] == inputs[k];
        CreateWithOrderlessStepFails(stored + [st], inputs[1..], k - 1);
    }
  }

  /** So creation succeeds only when every submitted step has an order. */
  lemma CreateNeedsEveryOrder(stored: seq<Step>, inputs: seq<StepInput>)
    ensures StepsAfter(stored, inputs, true).outcome == Ok ==> forall k :: 0 <= k < |inputs| ==> OrderGiven(inputs[k])
  {
    forall k | 0 <= k < |inputs| && !OrderGiven(inputs[k]) ensures StepsAfter(stored, inputs, true).outcome.Err? {
      CreateWithOrderlessStepFails(stored, inputs, k);
    }
  }

  /** Two concrete runs on update after the wipe: a repeated order stops
      the loop after the first step; an order-less step followed by an
      explicit order 1 is numbered 1 and the explicit 1 then collides. */
  lemma StepLoopExamples()
    ensures StepsAfter([], [StepInput("a", Some(1)), StepInput("b", Some(1))], false)
         == Stepping([Step("a", 1)], Err(DuplicateStepOrder))
    ensures StepsAfter([], [StepInput("a", None), StepInput("b", Some(1))], false)
         == Stepping([Step("a", 1)], Err(DuplicateStepOrder))
  {
    var a1 := StepInput("a", Some(1));
    var b1 := StepInput("b", Some(1));
    assert [a1, b1][1..] == [b1] && [b1][1..] == [];
    assert Orders([Step("a", 1)]) == [1];
    var a0 := StepInput("a", None);
    assert [a0, b1][1..] == [b1];
    FirstGapExamples();
    assert Orders([]) == [];
    assert SaveStep([], a0, false) == Saved(Step("a", 1));
    assert SaveStep([Step("a", 1)], b1, false) == Refused(DuplicateStepOrder);
    assert StepsAfter([Step("a", 1)], [b1], false) == Stepping([Step("a", 1)], Err(DuplicateStepOrder));
    assert [] + [Step("a", 1)] == [Step("a", 1)];
  }

  /** On update, steps given orders 3 and then 1 are listed as [3, 1], so
      an order-less step after them is numbered 1 and refused, although
      2 is free. */
  lemma DescendingStepsCollide()
    ensures StepsAfter([], [StepInput("a", Some(3)), StepInput("b", Some(1)), StepInput("c", None)], false)
         == Stepping([Step("a", 3), Step("b", 1)], Err(DuplicateStepOrder))
  {
    var a, b, c := StepInput("a", Some(3)), StepInput("b", Some(1)), StepInput("c", None);
    assert [a, b, c][1..] == [b, c] && [b, c][1..] == [c];
    assert Orders([]) == [];
    assert Orders([Step("a", 3)]) == [3];
    assert Orders([Step("a", 3), Step("b", 1)]) == [3, 1];
    FirstGapUnique([3, 1], 1);
    var s1, s2 := [Step("a", 3)], [Step("a", 3), Step("b", 1)];
    assert SaveStep([], a, false) == Saved(Step("a", 3));
    assert SaveStep(s1, b, false) == Saved(Step("b", 1));
    assert SaveStep(s2, c, false) == Refused(DuplicateStepOrder);
    assert StepsAfter(s2, [c], false) == Stepping(s2, Err(DuplicateStepOrder));
    assert s1 + [Step("b", 1)] == s2;
    assert StepsAfter(s1, [b, c], false) == StepsAfter(s2, [c], false);
    assert [] + [Step("a", 3)] == s1;
  }

  /** The URL of every stored recipe. */
  function Urls(recipes: map<RecipeId, Recipe>): (u: map<RecipeId, string>)
    ensures u.Keys == recipes.Keys && forall k :: k in u ==> u[k] == recipes[k].url
  {
    map k | k in recipes :: recipes[k].url
  }

  /** The names of the stored recipes. */
  function Names(recipes: map<RecipeId, Recipe>): set<string>
  {
    set k | k in recipes :: recipes[k].name
  }

  /** No two recipes share a name (the name column is unique). */
  ghost predicate RecipeNamesUnique(recipes: map<RecipeId, Recipe>)
  {
    forall a, b :: a in recipes && b in recipes && recipes[a].name == recipes[b].name ==> a == b
  }

  /** The recipe an (id, name) argument pair designates. */
  ghost function FindRecipe(recipes: map<RecipeId, Recipe>, id: RecipeId, name: string): (r: Option<RecipeId>)
    ensures r.Some? ==> r.value in recipes
    ensures id != "" ==> (r.Some? <==> id in recipes) && (r.Some? ==> r.value == id)
    ensures id == "" ==> (r.Some? <==> name in Names(recipes))
    ensures id == "" && r.Some? ==> recipes[r.value].name == name
  {
    if id != "" then
      if id in recipes then Some(id) else None
    else if name in Names(recipes) then
      Some(var k :| k in recipes && recipes[k].name == name; k)
    else None
  }

  /** Giving a recipe a name no other recipe has keeps names unique. */
  lemma RenameKeepsNamesUnique(recipes: map<RecipeId, Recipe>, id: RecipeId, recipe: Recipe)
    requires RecipeNamesUnique(recipes) && id in recipes && recipe.name !in Names(recipes - {id})
    ensures RecipeNamesUnique(recipes[id := recipe])
  {
    forall a | a in recipes && a != id ensures recipes[a].name != recipe.name {
      assert (recipes - {id})[a].name in Names(recipes - {id});
    }
  }

  /** Adding a recipe under a fresh id with an unused name keeps names
      unique. */
  lemma NewNameKeepsNamesUnique(recipes: map<RecipeId, Recipe>, id: RecipeId, recipe: Recipe)
    requires RecipeNamesUnique(recipes) && id !in recipes && recipe.name !in Names(recipes)
    ensures RecipeNamesUnique(recipes[id := recipe])
  {
    forall a | a in recipes ensures recipes[a].name != recipe.name {
      assert recipes[a].name in Names(recipes);
    }
  }

  /** Every recipe's step orders are positive and distinct. */
  ghost predicate OrdersDistinct(steps: map<RecipeId, seq<Step>>)
  {
    forall k :: k in steps ==> DistinctPositive(Orders(steps[k]))
  }

  /** Storing a step list whose orders are positive and distinct keeps
      every recipe's orders so. */
  lemma StoreStepsKeepsOrdersDistinct(steps: map<RecipeId, seq<Step>>, id: RecipeId, s: seq<Step>)
    requires OrdersDistinct(steps) && DistinctPositive(Orders(s))
    ensures OrdersDistinct(steps[id := s])
  {
  }

  /** Replacing a recipe by one with the same URL leaves the URL column
      as it was. */
  lemma SameUrlKeepsUrls(recipes: map<RecipeId, Recipe>, id: RecipeId, recipe: Recipe)
    requires id in recipes && recipe.url == recipes[id].url
    ensures Urls(recipes[id := recipe]) == Urls(recipes)
  {
    assert Urls(recipes[id := recipe]).Keys == Urls(recipes).Keys;
  }

  /** Re-saving a stored recipe without touching its URL passes both URL
      receivers. */
  lemma ResaveKeepsUrl(recipes: map<RecipeId, Recipe>, id: RecipeId)
    requires id in recipes && UrlsUnique(Urls(recipes))
    ensures RecipePreSave(id, recipes[id].url, Urls(recipes)) == Ok
  {
  }

  /** Storing a recipe both URL receivers accept keeps non-blank URLs
      unique. */
  lemma NewRecipeKeepsUrls(recipes: map<RecipeId, Recipe>, id: RecipeId, recipe: Recipe)
    requires UrlsUnique(Urls(recipes)) && RecipePreSave(id, recipe.url, Urls(recipes)) == Ok
    ensures UrlsUnique(Urls(recipes[id := recipe]))
  {
    AcceptedSaveKeepsUrls(id, recipe.url, Urls(recipes));
    assert Urls(recipes[id := recipe]) == Urls(recipes)[id := recipe.url];
  }

  /** The abstract value of a RecipeBook. */
  datatype Tables = Tables(recipes: map<RecipeId, Recipe>,
                           ingredients: map<RecipeId, seq<Item>>,
                           steps: map<RecipeId, seq<Step>>)

  /** The recipe tables. */
  class RecipeBook {
    var recipes: map<RecipeId, Recipe>
    var ingredients: map<RecipeId, seq<Item>>
    var steps: map<RecipeId, seq<Step>>

    function Value(): Tables
      reads this
    {
      Tables(recipes, ingredients, steps)
    }

    /** Every recipe has its lists, names are unique, non-blank URLs are
        unique and each recipe's step orders are positive and distinct. */
    ghost predicate Valid()
      reads this
    {
      && ingredients.Keys == recipes.Keys && steps.Keys == recipes.Keys
      && RecipeNamesUnique(recipes)
      && UrlsUnique(Urls(recipes))
      && OrdersDistinct(steps)
    }

    constructor ()
      ensures Valid() && recipes == map[] && ingredients == map[] && steps == map[]
    {
      recipes, ingredients, steps := map[], map[], map[];
    }

    /** Inserts a new recipe row that passed the URL receivers and has an
        unused name; it starts with no ingredients and no steps. */
    method Insert(id: RecipeId, recipe: Recipe)
      requires Valid() && id !in recipes
      requires RecipePreSave(id, recipe.url, Urls(recipes)) == Ok && recipe.name !in Names(recipes)
      modifies this
      ensures Valid()
      ensures recipes == old(recipes)[id := recipe]
      ensures ingredients == old(ingredients)[id := []] && steps == old(steps)[id := []]
    {
      NewRecipeKeepsUrls(recipes, id, recipe);
      NewNameKeepsNamesUnique(recipes, id, recipe);
      assert Orders([]) == [];
      StoreStepsKeepsOrdersDistinct(steps, id, []);
      recipes := recipes[id := recipe];
      ingredients := ingredients[id := []];
      steps := steps[id := []];
    }

    /** Replaces a recipe's ingredient list. */
    method SetIngredients(id: RecipeId, items: seq<Item>)
      requires Valid() && id in recipes
      modifies this
      ensures Valid()
      ensures Value() == old(Value()).(ingredients := old(ingredients)[id := items])
    {
      ingredients := ingredients[id := items];
    }

    /** Replaces a recipe's steps by a list with positive, distinct
        orders. */
    method SetSteps(id: RecipeId, made: seq<Step>)
      requires Valid() && id in recipes && DistinctPositive(Orders(made))
      modifies this
      ensures Valid()
      ensures Value() == old(Value()).(steps := old(steps)[id := made])
    {
      StoreStepsKeepsOrdersDistinct(steps, id, made);
      steps := steps[id := made];
    }

    /** Saves a stored recipe with new field values but its own URL; the
        new name is no other recipe's. */
    method Resave(id: RecipeId, recipe: Recipe)
      requires Valid() && id in recipes && recipe.url == recipes[id].url
      requires recipe.name !in Names(recipes - {id})
      modifies this
      ensures Valid()
      ensures recipes == old(recipes)[id := recipe]
      ensures ingredients == old(ingredients) && steps == old(steps)
    {
      SameUrlKeepsUrls(recipes, id, recipe);
      RenameKeepsNamesUnique(recipes, id, recipe);
      recipes := recipes[id := recipe];
    }
  }

  /** The lists a recipe mutation accepts. */
  predicate WithinLimits(ingredients: seq<Item>, steps: seq<StepInput>)
  {
    |ingredients| <= MaxIngredients && |steps| <= MaxSteps
  }
}
