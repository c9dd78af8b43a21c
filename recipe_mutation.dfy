/** The recipe mutations. The caller is authenticated; a new recipe's id
    is supplied by the caller of the model. */
module RecipeMutation {
  import opened Common
  import opened Signals
  import opened Cookbook

  /** `CreateRecipe`: the size limits are checked before anything is
      saved; the recipe row is saved (URL receivers, then the unique
      name); its ingredients are created, then its steps in turn. A step
      without an order makes creation fail, after the recipe, its
      ingredients and the steps before it are saved. */
  method CreateRecipe(b: RecipeBook, name: string, photo: string, url: string,
                      ingredients: seq<Item>, steps: seq<StepInput>, newId: RecipeId)
    returns (r: Outcome)
    requires b.Valid() && newId !in b.recipes
    modifies b
    ensures b.Valid()
    ensures |ingredients| > MaxIngredients ==> r == Err(TooManyIngredients)
    ensures |ingredients| <= MaxIngredients && |steps| > MaxSteps ==> r == Err(TooManySteps)
    ensures WithinLimits(ingredients, steps) && UrlUniqueIfExists(newId, url, Urls(old(b.recipes))) != Ok
            ==> r == Err(DuplicateUrl)
    ensures WithinLimits(ingredients, steps) && UrlUniqueIfExists(newId, url, Urls(old(b.recipes))) == Ok
            && name in Names(old(b.recipes))
            ==> r == Err(DuplicateName)
    ensures !CreateAdmitted(old(b.recipes), name, url, ingredients, steps, newId) ==>
              b.Value() == old(b.Value())
    ensures CreateAdmitted(old(b.recipes), name, url, ingredients, steps, newId) ==>
              b.Value() == Tables(old(b.recipes)[newId := Recipe(name, photo, url)],
                                  old(b.ingredients)[newId := ingredients],
                                  old(b.steps)[newId := StepsAfter([], steps, true).steps])
              && r == StepsAfter([], steps, true).outcome
    ensures r == Ok ==> forall k :: 0 <= k < |steps| ==> OrderGiven(steps[k])
  {
    if |ingredients| > MaxIngredients {
      return Err(TooManyIngredients);
    }
    if |steps| > MaxSteps {
      return Err(TooManySteps);
    }
    r := SaveNewRecipe(b, name, photo, url, newId);
    if r != Ok {
      return;
    }
    r := ReplaceLists(b, newId, ingredients, steps, true);
    UpdateTwice(old(b.ingredients), newId, [], ingredients);
    UpdateTwice(old(b.steps), newId, [], StepsAfter([], steps, true).steps);
    CreateNeedsEveryOrder([], steps);
  }

  /** The row part of `CreateRecipe`: photo and URL are set only when
      non-empty, then the row is saved, which runs the URL receivers and
      then meets the unique name column. */
  method SaveNewRecipe(b: RecipeBook, name: string, photo: string, url: string, newId: RecipeId)
    returns (r: Outcome)
    requires b.Valid() && newId !in b.recipes
    modifies b
    ensures b.Valid()
    ensures UrlUniqueIfExists(newId, url, Urls(old(b.recipes))) != Ok ==> r == Err(DuplicateUrl)
    ensures UrlUniqueIfExists(newId, url, Urls(old(b.recipes))) == Ok && name in Names(old(b.recipes))
            ==> r == Err(DuplicateName)
    ensures r != Ok ==> b.recipes == old(b.recipes) && b.ingredients == old(b.ingredients) && b.steps == old(b.steps)
    ensures r == Ok <==> UrlUniqueIfExists(newId, url, Urls(old(b.recipes))) == Ok && name !in Names(old(b.recipes))
    ensures r == Ok ==> b.recipes == old(b.recipes)[newId := Recipe(name, photo, url)]
                        && b.ingredients == old(b.ingredients)[newId := []]
                        && b.steps == old(b.steps)[newId := []]
  {
    var recipe := Recipe(name, "", "");
    if photo != "" {
      recipe := recipe.(photo := photo);
    }
    if url != "" {
      recipe := recipe.(url := url);
    }
    var check := RecipePreSave(newId, recipe.url, Urls(b.recipes));
    if check != Ok {
      return check;
    }
    if name in Names(b.recipes) {
      return Err(DuplicateName);
    }
    b.Insert(newId, recipe);
    return Ok;
  }

  /** CreateRecipe gets past its checks and saves the recipe row. */
  predicate CreateAdmitted(recipes: map<RecipeId, Recipe>, name: string, url: string,
                           ingredients: seq<Item>, steps: seq<StepInput>, newId: RecipeId)
  {
    WithinLimits(ingredients, steps) && UrlUniqueIfExists(newId, url, Urls(recipes)) == Ok
    && name !in Names(recipes)
  }

  /** The list part of both recipe mutations: a non-empty ingredient list
      replaces the stored one exactly; a non-empty step list replaces the
      stored steps through the step loop. */
  method ReplaceLists(b: RecipeBook, id: RecipeId, ingredients: seq<Item>, steps: seq<StepInput>,
                      onCreate: bool)
    returns (r: Outcome)
    requires b.Valid() && id in b.recipes
    modifies b
    ensures b.Valid()
    ensures b.recipes == old(b.recipes)
    ensures b.ingredients == if |ingredients| > 0 then old(b.ingredients)[id := ingredients] else old(b.ingredients)
    ensures b.steps == if |steps| > 0 then old(b.steps)[id := StepsAfter([], steps, onCreate).steps] else old(b.steps)
    ensures r == if |steps| > 0 then StepsAfter([], steps, onCreate).outcome else Ok
  {
    if |ingredients| > 0 {
      var items := StoreItems(ingredients);
      b.SetIngredients(id, items);
    }
    r := Ok;
    if |steps| > 0 {
      StepsKeepOrdersDistinct([], steps, onCreate);
      var made, outcome := CreateSteps([], steps, onCreate);
      b.SetSteps(id, made);
      r := outcome;
    }
  }

  /** UpdateRecipe gets past its checks. */
  predicate UpdateAdmitted(recipes: map<RecipeId, Recipe>, id: RecipeId, name: string,
                           ingredients: seq<Item>, steps: seq<StepInput>)
  {
    id in recipes && WithinLimits(ingredients, steps) && !(name != "" && name in Names(recipes - {id}))
  }

  /** `UpdateRecipe`: the recipe must exist and the lists be within the
      limits before anything changes. A non-empty name or photo is set
      and the row saved (a name another recipe has is refused); the URL
      is never touched. A non-empty ingredient list replaces the old
      one; a non-empty step list replaces the old steps, numbering those
      without an order. Empty lists leave the stored ones. */
  method UpdateRecipe(b: RecipeBook, id: RecipeId, name: string, photo: string,
                      ingredients: seq<Item>, steps: seq<StepInput>)
    returns (r: Outcome)
    requires b.Valid()
    modifies b
    ensures b.Valid()
    ensures id !in old(b.recipes) ==> r == Err(RecipeNotFound)
    ensures id in old(b.recipes) && |ingredients| > MaxIngredients ==> r == Err(TooManyIngredients)
    ensures id in old(b.recipes) && |ingredients| <= MaxIngredients && |steps| > MaxSteps ==> r == Err(TooManySteps)
    ensures id in old(b.recipes) && WithinLimits(ingredients, steps)
            && name != "" && name in Names(old(b.recipes) - {id})
            ==> r == Err(DuplicateName)
    ensures !UpdateAdmitted(old(b.recipes), id, name, ingredients, steps) ==>
              b.recipes == old(b.recipes) && b.ingredients == old(b.ingredients) && b.steps == old(b.steps)
    ensures UpdateAdmitted(old(b.recipes), id, name, ingredients, steps) ==>
              && b.recipes == old(b.recipes)[id := Recipe(if name != "" then name else old(b.recipes)[id].name,
                                                          if photo != "" then photo else old(b.recipes)[id].photo,
                                                          old(b.recipes)[id].url)]
              && b.ingredients == (if |ingredients| > 0 then old(b.ingredients)[id := ingredients] else old(b.ingredients))
              && b.steps == (if |steps| > 0 then old(b.steps)[id := StepsAfter([], steps, false).steps] else old(b.steps))
              && r == (if |steps| > 0 then StepsAfter([], steps, false).outcome else Ok)
  {
    if id !in b.recipes {
      return Err(RecipeNotFound);
    }
    if |ingredients| > 0 && |ingredients| > MaxIngredients {
      return Err(TooManyIngredients);
    }
    if |steps| > 0 && |steps| > MaxSteps {
      return Err(TooManySteps);
    }
    r := SaveFields(b, id, name, photo);
    if r != Ok {
      return;
    }
    r := ReplaceLists(b, id, ingredients, steps, false);
  }

  /** The field part of `UpdateRecipe`: a non-empty name or photo is set
      and the row saved. The URL receivers pass because the URL is the
      stored one; a name another recipe has is refused by the unique
      column. */
  method SaveFields(b: RecipeBook, id: RecipeId, name: string, photo: string) returns (r: Outcome)
    requires b.Valid() && id in b.recipes
    modifies b
    ensures b.Valid()
    ensures b.ingredients == old(b.ingredients) && b.steps == old(b.steps)
    ensures r == Ok <==> !(name != "" && name in Names(old(b.recipes) - {id}))
    ensures r != Ok ==> r == Err(DuplicateName) && b.recipes == old(b.recipes)
    ensures r == Ok ==> b.recipes == old(b.recipes)[id := Recipe(if name != "" then name else old(b.recipes)[id].name,
                                                                 if photo != "" then photo else old(b.recipes)[id].photo,
                                                                 old(b.recipes)[id].url)]
  {
    var recipe := b.recipes[id];
    if name != "" {
      recipe := recipe.(name := name);
    }
    if photo != "" {
      recipe := recipe.(photo := photo);
    }
    if name != "" || photo != "" {
      ResaveKeepsUrl(b.recipes, id);
      if recipe.name in Names(b.recipes - {id}) {
        return Err(DuplicateName);
      }
      b.Resave(id, recipe);
    } else {
      assert recipe == b.recipes[id] && b.recipes[id := recipe] == b.recipes;
    }
    return Ok;
  }

  /** `DeleteRecipe`: exactly one of id and name designates the recipe,
      which is then deleted with its ingredients and steps. */
  method DeleteRecipe(b: RecipeBook, id: RecipeId, name: string) returns (r: Outcome)
    requires b.Valid()
    modifies b
    ensures b.Valid()
    ensures id != "" && name != "" ==> r == Err(BothIdAndName)
    ensures id == "" && name == "" ==> r == Err(MissingIdOrName)
    ensures (id == "") != (name == "") && FindRecipe(old(b.recipes), id, name).None? ==> r == Err(RecipeNotFound)
    ensures r != Ok ==> b.recipes == old(b.recipes) && b.ingredients == old(b.ingredients) && b.steps == old(b.steps)
    ensures r == Ok <==> (id == "") != (name == "") && FindRecipe(old(b.recipes), id, name).Some?
    ensures r == Ok ==>
              var k := FindRecipe(old(b.recipes), id, name).value;
              && k !in b.recipes
              && b.recipes == old(b.recipes) - {k}
              && b.ingredients == old(b.ingredients) - {k}
              && b.steps == old(b.steps) - {k}
  {
    if id != "" && name != "" {
      return Err(BothIdAndName);
    }
    if id == "" && name == "" {
      return Err(MissingIdOrName);
    }
    var k: RecipeId;
    if id != "" {
      if id !in b.recipes {
        return Err(RecipeNotFound);
      }
      k := id;
    } else {
      if name !in Names(b.recipes) {
        return Err(RecipeNotFound);
      }
      k :| k in b.recipes && b.recipes[k].name == name;
    }
    assert Urls(b.recipes - {k}) == Urls(b.recipes) - {k};
    b.recipes := b.recipes - {k};
    b.ingredients := b.ingredients - {k};
    b.steps := b.steps - {k};
    return Ok;
  }
}
