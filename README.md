# Meal planner backend: a verified model of its mutations

The system is a GraphQL backend for planning meals. Users own an
*individual* profile. Individuals form *groups*. Individuals and groups
each keep a shopping list and a weekly meal plan. Meal plan entries sit in
(day, time) slots: Monday to Sunday; Breakfast, Lunch, Dinner, Other.
*Recipes* carry ingredients and ordered steps. The model covers:

- the slot ordering used to sort submitted meals (`comparison.dfy`);
- the pre-save receivers that number steps and refuse duplicate step
  orders, duplicate meal slots and duplicate or changed recipe URLs, and
  the post-save receiver that gives each new user a profile
  (`signals.dfy`, `profile_signal.dfy`);
- the mutations on individuals, groups, recipes and account details
  (`individual_mutation.dfy`, `group_mutation.dfy`, `recipe_mutation.dfy`,
  `user_mutation.dfy`).

These mutations work on the database rows. `Store.Planner`,
`Cookbook.RecipeBook` and `Accounts.Directory` are classes whose fields
are those tables. Each mutation is a method that changes them step by
step, in the source's order. Nothing is rolled back: a mutation that
fails halfway keeps what it already saved, and the contracts say so. For
example, the meals saved before a slot clash stay saved, and so do the
steps saved before a refused step order and a new email saved before its
username is refused.

Each method is proved against a specification function on values:
`Created` for the meal loop, `StepsAfter` for the step loop,
`WithMember`, `WithGroup` and `WithoutGroup` for membership changes, and
`DetailsAfter` for account details. Lemmas then prove what the system
promises about those functions. Examples: sorted meals end up in strict
week order with distinct slots; orders stay positive and distinct;
group names, recipe names, non-blank URLs and usernames stay unique;
when a mutation succeeds, the caller's row holds exactly the details it
was given.

Membership and join requests are each stored twice: once on the group's
side and once on the individual's side. These are two separate tables.
`Store.Consistent` holds the invariants the model keeps:
- referential integrity and the unique group-name column, both enforced
  by the database;
- distinct meal slots for each owner, enforced by the pre-save receivers;
- one shopping list and one meal plan per owner, which is the shape this
  model gives the tables.
`Store.Paired` holds the agreement between the two sides. Every mutation
keeps `Consistent` and, when it held before, `Paired`. The mutations check
both sides one by one. Because `Paired` is not part of `Consistent`, the
model keeps the checks the source makes when only one side records a
request or a membership.

The step auto-numbering scans the stored orders in the order the rows are
listed. It returns one more than the length of the leading run 1, 2, 3, ...
(`Signals.FirstGap`). For stored orders [1, 2, 4] that is 3
(`Signals.FirstGapExamples`). This is the lowest free order only when the
rows are listed in ascending order (`Signals.FirstGapIsLowestFree`).
Otherwise the scan can pick an order that is already taken: [1, 3, 2]
gives 2, which the uniqueness rule then refuses
(`Signals.UnorderedListingCollides`).

Other behaviours taken from the code as written:

- In `CreateRecipe`, a step whose order is missing or 0 is saved through
  a misspelled relation name (`recipeste_set`). That fails after the
  recipe, its ingredients and the earlier steps are saved (error
  `MissingStepRelation`). `UpdateRecipe` saves such a step without an
  order, and the step is auto-numbered.
- In a meal update, a meal with a recipe and no text has its slot clash
  swallowed: the meal is skipped. A clash in the other branches ends the
  mutation with an error.
- An email or username lookup counts as a conflict only when exactly one
  row holds the value. Two users may already share an email. The lookup
  then raises, the bare `except` catches it, and the caller's email is
  saved as well (`Accounts.SharedEmailNotRefused`,
  `Accounts.SharedEmailExample`).
- A username pattern check with `$` also accepts one trailing newline
  (`Accounts.TrailingNewlineAccepted`).
- `DeleteGroup` tests `if group.members:`, which is always true. It then
  removes the group from every member's side, one member at a time, and
  deletes the row.

## Model

| member | source | states |
|---|---|---|
| Comparison.Compare | utils/comparison.py:3-28 | compare returns -1, 0 or 1, and 0 exactly when the two meals share day and time |
| Comparison.CompareIsLexicographic | utils/comparison.py:3-28 | compare is -1 exactly when the first slot comes earlier by (day, then time) in the days and times tables, and 1 exactly when it comes later |
| Comparison.SameDayOrdersByTime | utils/comparison.py:6-15 | on one day, breakfast < lunch < dinner < other |
| Comparison.OtherDaysOrderByDay | utils/comparison.py:16-28 | on different days the day decides, whatever the times |
| Comparison.CompareAntisymmetric | utils/comparison.py:3-28 | compare(a, b) == -compare(b, a) |
| Comparison.CompareTransitive | utils/comparison.py:3-28 | compare(a, b) <= 0 and compare(b, c) <= 0 give compare(a, c) <= 0, with 0 only when all three are equal |
| Comparison.KeyLessIsStrictTotalOrder | utils/comparison.py:30 | the key cmp_to_key(compare) hands to sort is irreflexive, transitive and total on distinct slots |
| Signals.FirstGap | aww/signals.py:53-72 | the auto-numbered order lies in 1..n+1, every earlier listed order equals its position, and the order listed at its position is not itself |
| Signals.AssignStepOrder | aww/signals.py:50-72 | a missing order becomes FirstGap of the listed orders; a given order, 0 included, is kept |
| Signals.FirstGapAfterRun | aww/signals.py:69-72 | after orders 1..n the new step gets n + 1 |
| Signals.FirstGapUnique | aww/signals.py:55-72 | any value with FirstGap's three properties is FirstGap, so the scan's answer is determined |
| Signals.FirstGapExamples | aww/signals.py:55-72 | [] gives 1, [1,2,4] gives 3, [2,3] gives 1, [1,2,3] gives 4 |
| Signals.FirstGapIsLowestFree | aww/signals.py:55-72 | on ascending positive orders the scan gives the lowest positive order not taken |
| Signals.StepOrderUnique | aww/signals.py:75-80 | a step is accepted exactly when its order is >= 1 and not among the recipe's stored orders, with the matching error otherwise |
| Signals.AcceptedStepKeepsOrdersDistinct | aww/signals.py:75-80 | an accepted step keeps the recipe's orders positive and pairwise distinct |
| Signals.AutoNumberedOrderAccepted | aww/signals.py:50-80 | on ascending stored orders the auto-numbered order always passes the uniqueness rule |
| Signals.UnorderedListingCollides | aww/signals.py:50-80 | listed as [1,3,2] the scan picks 2, which the uniqueness rule refuses |
| Signals.MealSlotUnique | aww/signals.py:82-98 | a meal is accepted exactly when its owner has no meal at the same (time, day) |
| Signals.AcceptedMealKeepsSlotsDistinct | aww/signals.py:82-98 | an accepted meal keeps the owner's slots pairwise distinct |
| Signals.UrlUniqueIfExists | aww/signals.py:28-33 | a save passes exactly when the URL is blank or no recipe with another id has it |
| Signals.UrlCannotBeChanged | aww/signals.py:36-46 | a save passes exactly when the recipe is new or keeps its stored URL |
| Signals.BlankUrlNeverRejected | aww/signals.py:28-33 | a blank URL is never refused as a duplicate |
| Signals.AcceptedSaveKeepsUrls | aww/signals.py:28-46 | a save both receivers accept keeps non-blank URLs unique and leaves a stored recipe's URL as it was |
| Signals.RecipePreSave | aww/signals.py:28-46 | both URL receivers in registration order: a save passes exactly when the URL is blank or held by no other recipe and a stored recipe keeps its URL; a duplicate URL is reported before a changed one |
| ProfileSignal.CreateProfile | aww/signals.py:21-24 | a created user gets one new individual row linked to it, with empty lists; a later save changes nothing; consistency and pairing are kept |
| ProfileSignal.ProfileIsUnique | aww/signals.py:21-24 | afterwards exactly one individual is linked to the new user, and there is one more individual |
| Store.AddedIndividualConsistent | aww/signals.py:24 | storing a fresh individual for a user without one keeps the state consistent and paired |
| Store.Planner.AddIndividual | aww/signals.py:24 | the table gains the individual, linked to the user, with an empty shopping list and no meals |
| Store.WithIndividual | aww/signals.py:24 | the new individual joins the individual rows, linked to its user |
| Common.StoreItems | schema/mutations/individual_mutation.py:43-45 | creating one row per submitted item leaves the owner's list equal to the submitted items, in order |
| MealPlans.SortMeals | schema/mutations/individual_mutation.py:50 | sorting submitted meals keeps exactly the same meals (a permutation) and puts them in non-decreasing slot order by compare |
| MealPlans.SortMealsStable | schema/mutations/individual_mutation.py:50 | meals that share a slot keep their submitted relative order (Python's sort is stable) |
| MealPlans.SortExample | schema/mutations/individual_mutation.py:50 | a Sunday-other, Monday-breakfast, Wednesday-lunch submission sorts to Monday, Wednesday, Sunday |
| MealPlans.Intended | schema/mutations/individual_mutation.py:51-73 | the row a meal asks for: none exactly when it has no text and no existing recipe; otherwise at its slot with its text, linked to the recipe exactly when the recipe id names a stored recipe |
| MealPlans.SwallowsClash | schema/mutations/individual_mutation.py:62-70 | only a meal with a recipe id and no text has its slot clash absorbed: every row such a meal asks for is recipe-only, linked to its recipe, and every row any other meal asks for carries text |
| MealPlans.CreateMeals | schema/mutations/individual_mutation.py:51-73 | the creation loop's rows and success flag equal the specification Created |
| MealPlans.Created | schema/mutations/individual_mutation.py:51-73 | the meal loop of both meal updates (also schema/mutations/group_mutation.py:79-105): stores the Intended rows in turn, skips a swallowed clash and stops at the first other clash; it never stores more rows than meals submitted, and a success means the loop also succeeded on the submission without its last meal; characterized by CreatedSlotsDistinct, CreatedAllWhenSlotsDistinct, FailurePersists and ClashOutcomes |
| MealPlans.FailurePersists | schema/mutations/individual_mutation.py:51-73 | once the loop stops on a clash, later meals add nothing |
| MealPlans.CreatedSlotsFromInputs | schema/mutations/individual_mutation.py:51-73 | every stored meal sits at the slot of a submitted meal |
| MealPlans.CreatedSlotsDistinct | schema/mutations/individual_mutation.py:51-73 | whatever is submitted, the stored meals never share a slot |
| MealPlans.CreatedAllWhenSlotsDistinct | schema/mutations/individual_mutation.py:51-73 | with no two submitted meals in one slot, every meal Intended asks for is stored, in order, and the loop succeeds |
| MealPlans.CreatedInWeekOrder | schema/mutations/individual_mutation.py:46-73 | from sorted input the stored meals are in strictly increasing week order |
| MealPlans.ClashOutcomes | schema/mutations/individual_mutation.py:52-70 | a repeated recipe-only meal is skipped and the loop succeeds; a repeated text meal stores the first and fails |
| MealPlans.ReplaceMeals | schema/mutations/individual_mutation.py:46-73 | the wipe-sort-create sequence stores Created(SortMeals(input)); the result has distinct slots in week order |
| IndividualMutation.UpdateIndividual | schema/mutations/individual_mutation.py:36-74 | a given shopping list replaces the caller's list exactly; given meals replace the plan by the created rows, in week order; the result is an error exactly when the meal loop stopped on a clash it does not swallow; nothing else changes |
| IndividualMutation.RequestAccess | schema/mutations/individual_mutation.py:89-100 | succeeds exactly when the group exists and neither side records a request, then records it on both sides; otherwise the matching error and no change |
| IndividualMutation.CancelRequest | schema/mutations/individual_mutation.py:115-128 | succeeds exactly when the group exists and both sides record the request, then removes it from both; each missing side has its own error |
| IndividualMutation.InviteToGroup | schema/mutations/individual_mutation.py:144-164 | succeeds exactly when both rows exist, the inviter is a member and the invited is not; the state becomes WithMember (requests cleared, membership on both sides) |
| IndividualMutation.LeaveGroup | schema/mutations/individual_mutation.py:179-203 | exactly one of id and name; the group found by it; the caller a member on both sides; then the last member's leaving deletes the group, any other leaving removes the membership on both sides |
| Store.Find | schema/mutations/individual_mutation.py:184-187 | the group an id or a name designates, when one exists |
| Store.FindByNameUnique | schema/mutations/individual_mutation.py:184-187 | with unique names, a name designates its one group |
| Store.WithMember | schema/mutations/individual_mutation.py:155-162 | after joining, the membership is on both sides and no request remains on either |
| Store.WithMemberConsistent | schema/mutations/individual_mutation.py:155-162 | joining keeps the state consistent and paired |
| Store.Planner.Join | schema/mutations/individual_mutation.py:155-162 | the conditional removals and the two additions produce WithMember of the old state |
| Store.Planner.SetIndividualItems | schema/mutations/individual_mutation.py:38-45 | the individual's shopping list becomes the given items; nothing else changes and the invariants hold |
| Store.Planner.SetIndividualMeals | schema/mutations/individual_mutation.py:46-73 | the individual's meal plan becomes the given rows, whose slots are distinct; nothing else changes |
| Store.Planner.SetGroupItems | schema/mutations/group_mutation.py:67-73 | the group's shopping list becomes the given items; nothing else changes and the invariants hold |
| Store.Planner.SetGroupMeals | schema/mutations/group_mutation.py:74-105 | the group's meal plan becomes the given rows, whose slots are distinct; nothing else changes |
| Store.NoMealsKeepsSlotsDistinct | schema/mutations/group_mutation.py:37-38 | a new owner with an empty plan keeps every owner's meal slots distinct |
| Store.NewNameKeepsNamesUnique | schema/mutations/group_mutation.py:37-38 | a fresh group under an unused name keeps group names unique |
| Store.Planner.Leave | schema/mutations/individual_mutation.py:194-201 | when the caller is the group's only member the state becomes WithoutGroup; otherwise just the membership pair leaves both sides |
| Store.MembersOf | schema/mutations/individual_mutation.py:197 | an individual is listed exactly when the group's side records the membership |
| Store.WithGroup | schema/mutations/group_mutation.py:37-41 | creating a group adds exactly its id to the group rows |
| Store.WithGroupConsistent | schema/mutations/group_mutation.py:37-41 | a fresh id, an unused name and an existing creator keep the state consistent and paired |
| Store.NewGroupMembers | schema/mutations/group_mutation.py:37-41 | the new group's only member is its creator |
| Store.Planner.AddGroup | schema/mutations/group_mutation.py:37-41 | the save and the two membership additions produce WithGroup of the old state |
| GroupMutation.CreateGroup | schema/mutations/group_mutation.py:36-42 | succeeds exactly when no group has the name (the unique column), creating the group with the caller as member on both sides; a taken name changes nothing |
| Store.RenameKeepsNamesUnique | schema/mutations/group_mutation.py:63-65 | renaming to a name no other group has keeps names unique |
| GroupMutation.UpdateGroup | schema/mutations/group_mutation.py:56-106 | missing group or non-member: error, no change; a name another group has: error, no change; otherwise the rename, then the list and meal replacement of UpdateIndividual, and an error exactly when the meal loop stopped on a clash it does not swallow |
| GroupMutation.ReplaceGroupLists | schema/mutations/group_mutation.py:67-105 | the group's list becomes the given items and its plan the created meals, in week order, with nothing else changed |
| Store.WithoutGroup | schema/mutations/group_mutation.py:129-134 | deleting a group removes its row, its lists and every pair naming it on either side |
| Store.WithoutGroupConsistent | schema/mutations/group_mutation.py:129-134 | deleting a group keeps the state consistent and paired |
| Store.Planner.DeleteGroupRow | schema/mutations/group_mutation.py:134 | the row delete and its cascade produce WithoutGroup of the old state |
| GroupMutation.DeleteGroup | schema/mutations/group_mutation.py:121-135 | a missing group or a non-member caller gets an error and no change; otherwise the state becomes WithoutGroup |
| Cookbook.SaveStep | schema/mutations/recipe_mutation.py:126-135 | a step with an order is saved with it; without one, creation fails on the missing relation and an update saves it at FirstGap; a saved step always passes the uniqueness rule |
| Cookbook.OrderGiven | schema/mutations/recipe_mutation.py:58 | a submitted order is used exactly when it is not one of the values Python treats as false, None and 0 |
| Cookbook.StepsAfter | schema/mutations/recipe_mutation.py:122-135 | the step loop of both recipe mutations (also lines 56-66): applies SaveStep to the inputs in turn and stops at the first refusal; it only appends after the stored steps, and it succeeds exactly when every input was saved; characterized by StepsKeepOrdersDistinct, OrderlessStepsNumberedInTurn and GivenOrdersKept |
| Cookbook.CreateSteps | schema/mutations/recipe_mutation.py:122-135 | the step loop's rows and outcome equal the specification StepsAfter |
| Cookbook.StepsKeepOrdersDistinct | schema/mutations/recipe_mutation.py:122-135 | the loop only appends to the stored steps, and the orders stay positive and distinct |
| Cookbook.OrderlessStepsNumberedInTurn | schema/mutations/recipe_mutation.py:122-135 | on update, order-less steps after steps 1..m are numbered m+1, m+2, ... in input order and all saved |
| Cookbook.FirstGivenAccepted | schema/mutations/recipe_mutation.py:127-131 | a step whose order is positive and not yet stored is saved with that order, on creation and on update |
| Cookbook.GivenOrdersKept | schema/mutations/recipe_mutation.py:56-66 | steps with positive orders, distinct among themselves and from the stored ones, are saved as given, in order |
| Cookbook.CreateWithOrderlessStepFails | schema/mutations/recipe_mutation.py:56-66 | on creation, a step without an order (or with order 0) makes the loop fail |
| Cookbook.CreateNeedsEveryOrder | schema/mutations/recipe_mutation.py:56-66 | creation's step loop succeeds only when every step carries a non-zero order |
| Cookbook.StepLoopExamples | schema/mutations/recipe_mutation.py:122-135 | two steps with order 1 store the first and fail; an order-less step gets 1 and a following explicit 1 collides |
| Cookbook.DescendingStepsCollide | schema/mutations/recipe_mutation.py:122-135 | on update, steps given orders 3 then 1 are stored, and a following order-less step is numbered 1 and refused as a duplicate |
| Cookbook.NewNameKeepsNamesUnique | schema/mutations/recipe_mutation.py:41-47 | a new recipe with an unused name keeps names unique |
| Cookbook.NewRecipeKeepsUrls | schema/mutations/recipe_mutation.py:41-47 | saving a new recipe that both URL receivers accept keeps non-blank URLs unique |
| Cookbook.RecipeBook.Insert | schema/mutations/recipe_mutation.py:41-47 | a row both URL receivers accept, with an unused name, is stored with no ingredients and no steps; names and URLs stay unique |
| Cookbook.RecipeBook.SetIngredients | schema/mutations/recipe_mutation.py:113-119 | the recipe's ingredient list becomes the given one; nothing else changes and the invariants hold |
| Cookbook.RecipeBook.SetSteps | schema/mutations/recipe_mutation.py:122-135 | the recipe's steps become rows with positive, distinct orders; nothing else changes |
| Cookbook.StoreStepsKeepsOrdersDistinct | schema/mutations/recipe_mutation.py:122-135 | storing a step list with positive, distinct orders keeps every recipe's orders distinct |
| RecipeMutation.SaveNewRecipe | schema/mutations/recipe_mutation.py:41-47 | the URL receivers refuse first, then the unique name; on success the row is stored with the non-empty photo and URL |
| RecipeMutation.CreateRecipe | schema/mutations/recipe_mutation.py:35-67 | the limits (150 ingredients, 200 steps) and the save's errors leave everything unchanged; otherwise the recipe, its ingredients and the steps of StepsAfter are stored, and success means every step had an order |
| RecipeMutation.ReplaceLists | schema/mutations/recipe_mutation.py:113-135 | a non-empty ingredient list replaces the stored one exactly; a non-empty step list is replaced by the step loop's rows; empty lists keep the stored ones |
| Cookbook.RenameKeepsNamesUnique | schema/mutations/recipe_mutation.py:99-105 | renaming to a name no other recipe has keeps names unique |
| Cookbook.SameUrlKeepsUrls | schema/mutations/recipe_mutation.py:99-105 | re-saving a recipe with its own URL leaves the URL column unchanged |
| Cookbook.ResaveKeepsUrl | schema/mutations/recipe_mutation.py:99-105 | re-saving a stored recipe with its own URL passes both URL receivers |
| Cookbook.RecipeBook.Resave | schema/mutations/recipe_mutation.py:99-105 | the row gets its new fields; ingredients and steps are untouched and all invariants hold |
| RecipeMutation.SaveFields | schema/mutations/recipe_mutation.py:99-105 | a non-empty name or photo is set and saved, the URL kept; a name another recipe has is refused without change |
| RecipeMutation.UpdateRecipe | schema/mutations/recipe_mutation.py:86-137 | missing recipe, limits and a taken name: error, no change; otherwise the fields, the ingredients and the steps of StepsAfter, with order-less steps numbered |
| Cookbook.FindRecipe | schema/mutations/recipe_mutation.py:155-159 | the recipe an id or a name designates, when one exists |
| RecipeMutation.DeleteRecipe | schema/mutations/recipe_mutation.py:150-164 | exactly one of id and name; the designated recipe is removed with its ingredients and steps; a missing one is an error without change |
| Accounts.UsernamePattern | schema/mutations/user_mutation.py:42 | the search `^[\w\.@+-]+$`: a match is never empty, every non-empty string of class characters matches, and a match that does not end in a newline consists of class characters only (a single final newline is also admitted, see TrailingNewlineAccepted) |
| Accounts.UsernameValidShape | schema/mutations/user_mutation.py:42-43 | an accepted username has 1 to 150 characters, all in [\w.@+-] except perhaps a final newline |
| Accounts.UsernameValid | schema/mutations/user_mutation.py:42-43 | an accepted username has 1 to 150 characters, and every string of 1 to 150 class characters is accepted |
| Accounts.TrailingNewlineAccepted | schema/mutations/user_mutation.py:42 | a valid username under 150 characters is also accepted with one newline appended, but not with two (the newline not being a word character) |
| Accounts.AtMostOneHolder | schema/mutations/user_mutation.py:44-45 | with the unique username column, at most one user holds a username |
| Accounts.EmailTaken | schema/mutations/user_mutation.py:27-33 | a taken email is not held by the caller, and a single holder that is not refused is the caller |
| Accounts.UsernameTaken | schema/mutations/user_mutation.py:44-51 | a taken username is not held by the caller, and a single holder that is not refused is the caller |
| Accounts.EmailTakenByAnother | schema/mutations/user_mutation.py:27-33 | the email conflict holds exactly when one other user, and only that user, holds the address |
| Accounts.FreeUsername | schema/mutations/user_mutation.py:44-54 | a username without conflict is held by nobody or by the caller |
| Accounts.EmailStep | schema/mutations/user_mutation.py:24-39 | the email part never touches the username, and on success the caller's email is the given one |
| Accounts.UsernameStep | schema/mutations/user_mutation.py:41-57 | the username part keeps the email, and a refusal keeps the row as the email part left it |
| Accounts.UsernameStepIgnoresEmail | schema/mutations/user_mutation.py:34-57 | saving a new email first does not change what the username part decides |
| Accounts.DetailsAfter | schema/mutations/user_mutation.py:19-59 | a refused update leaves the username as it was |
| Accounts.DetailsAfterOk | schema/mutations/user_mutation.py:19-59 | success exactly when something is given, a given email matches the pattern and is free, and a given username is valid and free; then the row holds exactly the given details |
| Accounts.EmailInUseChangesNothing | schema/mutations/user_mutation.py:27-39 | another user's email refuses the update and leaves both email and username unchanged |
| Accounts.OwnEmailChangesNothing | schema/mutations/user_mutation.py:29-31 | resubmitting one's own email succeeds and changes nothing |
| Accounts.EmailSavedBeforeUsernameCheck | schema/mutations/user_mutation.py:24-57 | a valid email that is not taken ends up in the caller's row whatever username comes with it; an invalid or taken username is refused with the new email already saved |
| Accounts.SharedEmailNotRefused | schema/mutations/user_mutation.py:27-36 | whenever two or more users share an address, it does not count as taken, and the caller's update to it succeeds and saves it |
| Accounts.SharedEmailExample | schema/mutations/user_mutation.py:27-36 | two users hold x@y.z and a third user takes it too |
| Accounts.DetailsAfterKeepsUsernamesUnique | schema/mutations/user_mutation.py:41-57 | the updated row keeps usernames unique |
| UserMutation.UpdateDetails | schema/mutations/user_mutation.py:19-59 | the outcome and the caller's new row are those of DetailsAfter, no other row changes, and usernames stay unique |
| UserMutation.SaveEmail | schema/mutations/user_mutation.py:24-39 | the pattern check, the lookup with its deferred error and the save give EmailStep |
| UserMutation.SaveUsername | schema/mutations/user_mutation.py:41-57 | the pattern and length check, the lookup with its deferred error and the save give UsernameStep |

## Left out

- The object-relational mapper and the database are modelled as maps and sets of rows. Row ordering in query results is not modelled.
- Cookbook.SaveStep, Cookbook.CreateSteps: the query for a recipe's existing steps has no ordering, but the model assumes it lists the rows in the order they were inserted. `Signals.FirstGap` takes whatever listing it is given, but the step loop always passes the insertion order. So after steps with orders 3 and 1, an order-less step is numbered 1 and refused, while a listing [1, 3] would give it 2 (`Cookbook.DescendingStepsCollide`). The outcome of a step loop that mixes given and missing orders therefore depends on a listing order the database does not fix.
- IndividualMutation.UpdateIndividual, GroupMutation.CreateGroup, GroupMutation.UpdateGroup, GroupMutation.ReplaceGroupLists, RecipeMutation.CreateRecipe, RecipeMutation.UpdateRecipe, RecipeMutation.ReplaceLists, RecipeMutation.SaveFields: these ignore the column widths, so they promise success and an exact replacement whatever the string lengths. The widths are: group and recipe names 200 characters, recipe photo 254, item name and quantity 100, unit 50 (aww/models.py:13-15, 74-75, 94). A longer value is refused by the database part-way through a save loop, and the rows saved before it stay saved.
- Authentication is a precondition. The caller's individual is passed as `me` (individual mutations), and so is the caller's user (account details).
- Fresh UUIDs for new groups, recipes and individuals are arguments, required to be unused.
- Recipe lookups by meal recipe ids are a set `known` of stored recipe ids. Any failure of that lookup counts as "no such recipe".
- UserMutation.UpdateDetails: the email address pattern is an uninterpreted predicate `isEmail` (whether Python's `re.search` finds a match). The `\w` class of the username pattern is an uninterpreted predicate `isWord`.
- Signals.StepOrderUnique: the `order % 1 != 0` test is not modelled. Orders are integers, so it never fires.
- The unique constraint on the recipe URL column is not modelled. The URL receivers are. The migration marks the column unique, but the repository's own tests expect several recipes with a blank URL (aww/tests.py:34-42).
- What happens to meals that refer to a deleted recipe (the foreign key is set to null) is not modelled. The meal tables do not hold recipe rows.
- Concurrency is not modelled: each mutation runs alone.
- Atomicity is not modelled because the source has none; partial saves are part of every contract.
- The other mutations are not part of this model: account activation and email sending, in schema/mutations/other_mutation.py. Neither are the queries and the GraphQL types (schema/queries.py, schema/types.py).
- Payloads returned to the client, such as the individual or group objects, are not modelled. Only the outcome and the new table contents are.
