/** Building an owner's meals from a submitted list, shared by the
    individual and the group update: sort with the slot comparison, then
    create one row per meal according to whether a recipe id and a text
    were given, each creation passing the meal-slot rule. */
module MealPlans {
  import opened Common
  import opened Comparison
  import opened Signals

  /** A meal as submitted; `text` and `recipeId` are "" when absent. */
  datatype MealInput = MealInput(text: string, recipeId: string, day: Day, time: Time)

  /** A stored meal row. */
  datatype Meal = Meal(recipe: Option<RecipeId>, text: string, day: Day, time: Time)

  function InputSlot(m: MealInput): Slot
  {
    Slot(m.day, m.time)
  }

  function MealSlot(m: Meal): Slot
  {
    Slot(m.day, m.time)
  }

  /** The (day, time) pairs of stored rows, as the meal-slot rule reads them. */
  function MealSlots(s: seq<Meal>): (r: seq<Slot>)
    ensures |r| == |s| && forall k :: 0 <= k < |s| ==> r[k] == MealSlot(s[k])
  {
    seq(|s|, k requires 0 <= k < |s| => MealSlot(s[k]))
  }

  // ---------------------------------------------------------------
  // Sorting with compare_as_key
  // ---------------------------------------------------------------

  predicate SortedBySlot(s: seq<MealInput>)
  {
    forall j, k :: 0 <= j < k < |s| ==> Compare(InputSlot(s[j]), InputSlot(s[k])) <= 0
  }

  /** Place `x` before the first element it does not follow. */
  function Insert(x: MealInput, s: seq<MealInput>): seq<MealInput>
  {
    if s == [] then [x]
    else if Compare(InputSlot(x), InputSlot(s[0])) <= 0 then [x] + s
    else [s[0]] + Insert(x, s[1..])
  }

  /** The list after `meals.sort(key=compare_as_key)`: the same meals,
      in non-decreasing slot order. */
  function SortMeals(s: seq<MealInput>): (r: seq<MealInput>)
    ensures multiset(r) == multiset(s)
    ensures SortedBySlot(r)
  {
    if s == [] then []
    else
      var t := SortMeals(s[1..]);
      InsertStep(s, t);
      Insert(s[0], t)
  }

  /** Inserting the head into a sorted permutation of the tail gives a
      sorted permutation of the whole list. */
  lemma InsertStep(s: seq<MealInput>, t: seq<MealInput>)
    requires s != [] && multiset(t) == multiset(s[1..]) && SortedBySlot(t)
    ensures multiset(Insert(s[0], t)) == multiset(s) && SortedBySlot(Insert(s[0], t))
  {
    InsertPermutes(s[0], t);
    InsertSorted(s[0], t);
    assert s == [s[0]] + s[1..];
  }

  lemma {:induction false} InsertPermutes(x: MealInput, s: seq<MealInput>)
    ensures multiset(Insert(x, s)) == multiset(s) + multiset{x}
  {
    if s != [] {
      assert s == [s[0]] + s[1..];
      if Compare(InputSlot(x), InputSlot(s[0])) > 0 {
        InsertPermutes(x, s[1..]);
      }
    }
  }

  /** A slot that precedes `x` and all of `s` precedes all of Insert(x, s). */
  lemma {:induction false} InsertKeepsLowerBound(lo: Slot, x: MealInput, s: seq<MealInput>)
    requires Compare(lo, InputSlot(x)) <= 0
    requires forall k :: 0 <= k < |s| ==> Compare(lo, InputSlot(s[k])) <= 0
    ensures forall k :: 0 <= k < |Insert(x, s)| ==> Compare(lo, InputSlot(Insert(x, s)[k])) <= 0
  {
    if s != [] && Compare(InputSlot(x), InputSlot(s[0])) > 0 {
      InsertKeepsLowerBound(lo, x, s[1..]);
    }
  }

  lemma {:induction false} InsertSorted(x: MealInput, s: seq<MealInput>)
    requires SortedBySlot(s)
    ensures SortedBySlot(Insert(x, s))
  {
    if s == [] {
    } else if Compare(InputSlot(x), InputSlot(s[0])) <= 0 {
      var r := [x] + s;
      forall k | 1 <= k < |r| ensures Compare(InputSlot(x), InputSlot(r[k])) <= 0 {
        if k > 1 {
          CompareTransitive(InputSlot(x), InputSlot(s[0]), InputSlot(s[k - 1]));
        }
      }
    } else {
      var t := s[1..];
      InsertSorted(x, t);
      CompareAntisymmetric(InputSlot(x), InputSlot(s[0]));
      InsertKeepsLowerBound(InputSlot(s[0]), x, t);
    }
  }

  /** The meals of `s` at `slot`, in their order in `s`. */
  function AtSlot(s: seq<MealInput>, slot: Slot): seq<MealInput>
  {
    if s == [] then []
    else (if InputSlot(s[0]) == slot then [s[0]] else []) + AtSlot(s[1..], slot)
  }

  lemma {:induction false} InsertStable(x: MealInput, s: seq<MealInput>, slot: Slot)
    ensures AtSlot(Insert(x, s), slot)
         == if InputSlot(x) == slot then [x] + AtSlot(s, slot) else AtSlot(s, slot)
  {
    if s == [] {
    } else if Compare(InputSlot(x), InputSlot(s[0])) <= 0 {
      assert ([x] + s)[1..] == s;
    } else {
      InsertStable(x, s[1..], slot);
      assert ([s[0]] + Insert(x, s[1..]))[1..] == Insert(x, s[1..]);
      assert InputSlot(s[0]) != InputSlot(x);
    }
  }

  /** The sort is stable: meals that share a slot keep their submitted
      order. With the sortedness of SortMeals this pins the result down to the one
      Python's stable sort produces. */
  lemma {:induction false} SortMealsStable(s: seq<MealInput>, slot: Slot)
    ensures AtSlot(SortMeals(s), slot) == AtSlot(s, slot)
  {
    if s != [] {
      SortMealsStable(s[1..], slot);
      InsertStable(s[0], SortMeals(s[1..]), slot);
    }
  }

  /** Sunday-other, Monday-breakfast, Wednesday-lunch sort to Monday,
      Wednesday, Sunday. */
  lemma SortExample(t1: string, t2: string, t3: string)
    ensures SortMeals([MealInput(t1, "", SUN, O), MealInput(t2, "", MON, B), MealInput(t3, "", WED, L)])
         == [MealInput(t2, "", MON, B), MealInput(t3, "", WED, L), MealInput(t1, "", SUN, O)]
  {
    var a, b, c := MealInput(t1, "", SUN, O), MealInput(t2, "", MON, B), MealInput(t3, "", WED, L);
    assert [a, b, c][1..] == [b, c] && [b, c][1..] == [c] && [c][1..] == [];
    SortMealsStep([c]);
    SortMealsStep([b, c]);
    SortMealsStep([a, b, c]);
    InsertExamples(t1, t2, t3);
  }

  /** The two insertions the example above performs. */
  lemma InsertExamples(t1: string, t2: string, t3: string)
    ensures Insert(MealInput(t2, "", MON, B), [MealInput(t3, "", WED, L)])
         == [MealInput(t2, "", MON, B), MealInput(t3, "", WED, L)]
    ensures Insert(MealInput(t1, "", SUN, O), [MealInput(t2, "", MON, B), MealInput(t3, "", WED, L)])
         == [MealInput(t2, "", MON, B), MealInput(t3, "", WED, L), MealInput(t1, "", SUN, O)]
  {
    var a, b, c := MealInput(t1, "", SUN, O), MealInput(t2, "", MON, B), MealInput(t3, "", WED, L);
    assert Compare(Slot(MON, B), Slot(WED, L)) == -1;
    assert Compare(Slot(SUN, O), Slot(MON, B)) == 1;
    assert Compare(Slot(SUN, O), Slot(WED, L)) == 1;
    assert [b, c][1..] == [c] && [c][1..] == [];
    assert Insert(a, []) == [a];
    assert Insert(a, [c]) == [c] + Insert(a, []);
    assert Insert(a, [b, c]) == [b] + Insert(a, [c]);
  }

  /** One step of the insertion sort. */
  lemma SortMealsStep(s: seq<MealInput>)
    requires s != []
    ensures SortMeals(s) == Insert(s[0], SortMeals(s[1..]))
  {
  }

  // ---------------------------------------------------------------
  // The four-way meal rule
  // ---------------------------------------------------------------

  /** The row a submitted meal asks for, before the slot rule is applied:
      recipe and text give recipe and text when the recipe exists and
      text alone otherwise; a recipe alone gives the recipe when it exists
      and nothing otherwise; text alone gives text; neither gives nothing. */
  function Intended(m: MealInput, known: set<RecipeId>): (r: Option<Meal>)
    ensures r.None? <==> m.text == "" && (m.recipeId == "" || m.recipeId !in known)
    ensures r.Some? ==> MealSlot(r.value) == InputSlot(m) && r.value.text == m.text
    ensures r.Some? ==> (r.value.recipe.Some? <==> m.recipeId != "" && m.recipeId in known)
    ensures r.Some? && r.value.recipe.Some? ==> r.value.recipe.value == m.recipeId
  {
    if m.recipeId != "" && m.text != "" then
      if m.recipeId in known then Some(Meal(Some(m.recipeId), m.text, m.day, m.time))
      else Some(Meal(None, m.text, m.day, m.time))
    else if m.recipeId != "" && m.text == "" then
      if m.recipeId in known then Some(Meal(Some(m.recipeId), "", m.day, m.time))
      else None
    else if m.recipeId == "" && m.text != "" then Some(Meal(None, m.text, m.day, m.time))
    else None
  }

  /** Only the recipe-only branch catches the slot rule's error (its
      `except` skips the meal); the other branches let it propagate. */
  predicate SwallowsClash(m: MealInput)
    ensures SwallowsClash(m) ==> forall known :: Intended(m, known).Some? ==>
              Intended(m, known).value.text == "" && Intended(m, known).value.recipe == Some(m.recipeId)
    ensures !SwallowsClash(m) ==> forall known :: Intended(m, known).Some? ==> Intended(m, known).value.text != ""
  {
    m.recipeId != "" && m.text == ""
  }

  /** The rows created and whether the loop ran to the end. */
  datatype Creation = Creation(stored: seq<Meal>, ok: bool)

  /** Specification of the creation loop over `inputs` (already sorted),
      starting from an owner with no meals. */
  function Created(inputs: seq<MealInput>, known: set<RecipeId>): (r: Creation)
    ensures |r.stored| <= |inputs|
    ensures inputs != [] && r.ok ==> Created(inputs[..|inputs| - 1], known).ok
  {
    if inputs == [] then Creation([], true)
    else
      var prior := Created(inputs[..|inputs| - 1], known);
      var m := inputs[|inputs| - 1];
      if !prior.ok then prior
      else match Intended(m, known)
        case None => prior
        case Some(meal) =>
          if MealSlotUnique(MealSlot(meal), MealSlots(prior.stored)) == Ok then Creation(prior.stored + [meal], true)
          else if SwallowsClash(m) then prior
          else Creation(prior.stored, false)
  }

  /** Once the loop has stopped on an error, later meals change nothing. */
  lemma {:induction false} FailurePersists(inputs: seq<MealInput>, known: set<RecipeId>, n: nat)
    requires n <= |inputs| && !Created(inputs[..n], known).ok
    ensures Created(inputs, known) == Created(inputs[..n], known)
  {
    if n < |inputs| {
      var front := inputs[..|inputs| - 1];
      assert front[..n] == inputs[..n];
      FailurePersists(front, known, n);
    } else {
      assert inputs[..n] == inputs;
    }
  }

  /** The creation loop of both meal updates, branch by branch. */
  method CreateMeals(inputs: seq<MealInput>, known: set<RecipeId>) returns (stored: seq<Meal>, ok: bool)
    ensures Creation(stored, ok) == Created(inputs, known)
  {
    stored, ok := [], true;
    var i := 0;
    while i < |inputs|
      invariant 0 <= i <= |inputs|
      invariant ok && Creation(stored, ok) == Created(inputs[..i], known)
    {
      var m := inputs[i];
      assert inputs[..i + 1][..i] == inputs[..i];
      var slot := Slot(m.day, m.time);
      if m.recipeId != "" && m.text != "" {
        var meal := if m.recipeId in known then Meal(Some(m.recipeId), m.text, m.day, m.time)
                    else Meal(None, m.text, m.day, m.time);
        if MealSlotUnique(slot, MealSlots(stored)) != Ok {
          // the retry without the recipe hits the same rule and raises
          ok := false;
          assert Creation(stored, ok) == Created(inputs[..i + 1], known);
          FailurePersists(inputs, known, i + 1);
          return;
        }
        stored := stored + [meal];
      } else if m.recipeId != "" && m.text == "" {
        if m.recipeId in known && MealSlotUnique(slot, MealSlots(stored)) == Ok {
          stored := stored + [Meal(Some(m.recipeId), "", m.day, m.time)];
        }
      } else if m.recipeId == "" && m.text != "" {
        if MealSlotUnique(slot, MealSlots(stored)) != Ok {
          ok := false;
          assert Creation(stored, ok) == Created(inputs[..i + 1], known);
          FailurePersists(inputs, known, i + 1);
          return;
        }
        stored := stored + [Meal(None, m.text, m.day, m.time)];
      }
      i := i + 1;
    }
    assert inputs[..i] == inputs;
  }

  /** The rows every submitted meal asks for, in submitted order. */
  function Planned(inputs: seq<MealInput>, known: set<RecipeId>): seq<Meal>
  {
    if inputs == [] then []
    else
      var prior := Planned(inputs[..|inputs| - 1], known);
      match Intended(inputs[|inputs| - 1], known)
      case None => prior
      case Some(meal) => prior + [meal]
  }

  function InputSlots(s: seq<MealInput>): (r: seq<Slot>)
    ensures |r| == |s| && forall k :: 0 <= k < |s| ==> r[k] == InputSlot(s[k])
  {
    seq(|s|, k requires 0 <= k < |s| => InputSlot(s[k]))
  }

  /** Every stored row sits at the slot of some submitted meal. */
  lemma {:induction false} CreatedSlotsFromInputs(inputs: seq<MealInput>, known: set<RecipeId>)
    ensures forall k :: 0 <= k < |Created(inputs, known).stored| ==>
              MealSlot(Created(inputs, known).stored[k]) in InputSlots(inputs)
  {
    if inputs != [] {
      var front := inputs[..|inputs| - 1];
      CreatedSlotsFromInputs(front, known);
      forall s | s in InputSlots(front) ensures s in InputSlots(inputs) {
        var k :| 0 <= k < |front| && InputSlots(front)[k] == s;
        assert InputSlots(inputs)[k] == s;
      }
      assert InputSlots(inputs)[|inputs| - 1] == InputSlot(inputs[|inputs| - 1]);
    }
  }

  /** Whatever the input, the stored rows never share a slot. */
  lemma {:induction false} CreatedSlotsDistinct(inputs: seq<MealInput>, known: set<RecipeId>)
    ensures SlotsDistinct(MealSlots(Created(inputs, known).stored))
  {
    if inputs != [] {
      var front := inputs[..|inputs| - 1];
      var prior := Created(front, known);
      CreatedSlotsDistinct(front, known);
      var c := Created(inputs, known);
      if c.stored != prior.stored {
        var meal := c.stored[|c.stored| - 1];
        assert c.stored == prior.stored + [meal];
        assert MealSlots(c.stored) == MealSlots(prior.stored) + [MealSlot(meal)];
        AcceptedMealKeepsSlotsDistinct(MealSlots(prior.stored), MealSlot(meal));
      }
    }
  }

  /** When no two submitted meals share a slot, every meal the four-way
      rule asks for is stored, in submitted order, and the loop succeeds. */
  lemma {:induction false} CreatedAllWhenSlotsDistinct(inputs: seq<MealInput>, known: set<RecipeId>)
    requires SlotsDistinct(InputSlots(inputs))
    ensures Created(inputs, known) == Creation(Planned(inputs, known), true)
  {
    if inputs != [] {
      var n := |inputs| - 1;
      var front := inputs[..n];
      assert InputSlots(front) == InputSlots(inputs)[..n];
      CreatedAllWhenSlotsDistinct(front, known);
      CreatedSlotsFromInputs(front, known);
    }
  }

  /** Rows in strictly increasing week order. */
  predicate InWeekOrder(st: seq<Meal>)
  {
    forall j, k :: 0 <= j < k < |st| ==> KeyLess(MealSlot(st[j]), MealSlot(st[k]))
  }

  /** Sorted input gives rows in strictly increasing week order. */
  lemma {:induction false} CreatedInWeekOrder(inputs: seq<MealInput>, known: set<RecipeId>)
    requires SortedBySlot(inputs)
    ensures InWeekOrder(Created(inputs, known).stored)
  {
    if inputs != [] {
      var n := |inputs| - 1;
      var front := inputs[..n];
      CreatedInWeekOrder(front, known);
      CreatedSlotsFromInputs(front, known);
      CreatedSlotsDistinct(inputs, known);
      var prior := Created(front, known);
      var st := Created(inputs, known).stored;
      if st != prior.stored {
        var meal := st[|st| - 1];
        assert st == prior.stored + [meal];
        assert MealSlot(meal) == InputSlot(inputs[n]);
        forall j, k | 0 <= j < k < |st| ensures KeyLess(MealSlot(st[j]), MealSlot(st[k])) {
          if k == |st| - 1 {
            assert st[j] == prior.stored[j];
            var i :| 0 <= i < |front| && InputSlots(front)[i] == MealSlot(st[j]);
            assert InputSlot(front[i]) == MealSlot(st[j]) && front[i] == inputs[i];
            assert Compare(InputSlot(inputs[i]), InputSlot(inputs[n])) <= 0;
            assert MealSlots(st)[j] != MealSlots(st)[k];
            assert st[k] == meal;
          } else {
            assert st[j] == prior.stored[j] && st[k] == prior.stored[k];
          }
        }
      }
    }
  }

  /** A repeated recipe-only meal is skipped, a repeated text meal fails
      the whole loop after the first one is stored. */
  lemma ClashOutcomes(r: RecipeId, t: string)
    requires r != "" && t != ""
    ensures Created([MealInput("", r, MON, B), MealInput("", r, MON, B)], {r})
         == Creation([Meal(Some(r), "", MON, B)], true)
    ensures Created([MealInput(t, "", MON, B), MealInput(t, "", MON, B)], {})
         == Creation([Meal(None, t, MON, B)], false)
  {
    var a := MealInput("", r, MON, B);
    assert [a, a][..1] == [a] && [a][..0] == [];
    assert Created([a], {r}) == Creation([Meal(Some(r), "", MON, B)], true);
    assert MealSlots([Meal(Some(r), "", MON, B)]) == [Slot(MON, B)];
    var b := MealInput(t, "", MON, B);
    assert [b, b][..1] == [b] && [b][..0] == [];
    assert Created([b], {}) == Creation([Meal(None, t, MON, B)], true);
    assert MealSlots([Meal(None, t, MON, B)]) == [Slot(MON, B)];
  }

  /** The meal update shared by individuals and groups, after the old
      meals are deleted: sort the submitted meals by the slot key, then
      run the creation loop over them. */
  method ReplaceMeals(inputs: seq<MealInput>, known: set<RecipeId>) returns (stored: seq<Meal>, ok: bool)
    ensures Creation(stored, ok) == Created(SortMeals(inputs), known)
    ensures SlotsDistinct(MealSlots(stored)) && InWeekOrder(stored)
  {
    var sorted := SortMeals(inputs);
    stored, ok := CreateMeals(sorted, known);
    CreatedSlotsDistinct(sorted, known);
    CreatedInWeekOrder(sorted, known);
  }
}
