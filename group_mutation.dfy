/** The mutations on a group as a whole. The caller is authenticated;
    `me` is the individual linked to the calling user, and because users
    and individuals are one-to-one, "the caller's user is among the
    members' users" is "`me` is a member". */
module GroupMutation {
  import opened Common
  import opened Signals
  import opened MealPlans
  import opened Store

  /** UpdateGroup gets past its checks: the group exists, the caller is a
      member, and a new name, if any, is not another group's name. */
  predicate UpdateAdmitted(s: State, me: IndividualId, id: GroupId, name: string)
  {
    id in s.groups && (id, me) in s.members && (name == "" || name !in (s.groups - {id}).Values)
  }

  /** `CreateGroup`: a group with a new id and a name no other group has,
      with the creator as its only member on both sides. */
  method CreateGroup(p: Planner, me: IndividualId, name: string, newId: GroupId) returns (r: Outcome)
    requires p.Valid() && me in p.individuals
    requires newId !in p.groups
    modifies p
    ensures p.Valid() && (old(p.Synced()) ==> p.Synced())
    ensures r == Ok <==> name !in old(p.groups).Values
    ensures r != Ok ==> r == Err(DuplicateName) && p.Value() == old(p.Value())
    ensures r == Ok ==> p.Value() == WithGroup(old(p.Value()), newId, name, me)
    ensures r == Ok ==> MembersOf(p.Value(), newId) == {me}
  {
    if name in p.groups.Values {
      return Err(DuplicateName);
    }
    p.AddGroup(newId, name, me);
    return Ok;
  }

  /** `UpdateGroup`: only a member may update an existing group. A
      non-empty name renames it unless another group has that name; a
      given shopping list replaces the old one exactly; given meals
      replace the old ones, sorted by slot and built by the four-way
      rule. Each step is saved before the next one runs. */
  method UpdateGroup(p: Planner, me: IndividualId, id: GroupId, name: string,
                     shoppingList: Option<seq<Item>>, meals: Option<seq<MealInput>>,
                     known: set<RecipeId>)
    returns (r: Outcome)
    requires p.Valid() && me in p.individuals
    modifies p
    ensures p.Valid() && (old(p.Synced()) ==> p.Synced())
    ensures id !in old(p.groups) ==> r == Err(GroupNotFound)
    ensures id in old(p.groups) && (id, me) !in old(p.members) ==> r == Err(NotMember)
    ensures id !in old(p.groups) || (id, me) !in old(p.members) ==> p.Value() == old(p.Value())
    ensures id in old(p.groups) && (id, me) in old(p.members) && name != ""
            && name in (old(p.groups) - {id}).Values
            ==> r == Err(DuplicateName) && p.Value() == old(p.Value())
    ensures r == Ok <==> UpdateAdmitted(old(p.Value()), me, id, name)
                         && (meals.None? || Created(SortMeals(meals.value), known).ok)
    ensures UpdateAdmitted(old(p.Value()), me, id, name) ==>
              p.Value() == old(p.Value()).(
                groups := if name != "" then old(p.groups)[id := name] else old(p.groups),
                groupItems := if shoppingList.Some? then old(p.groupItems)[id := shoppingList.value]
                              else old(p.groupItems),
                groupMeals := if meals.Some? then old(p.groupMeals)[id := Created(SortMeals(meals.value), known).stored]
                              else old(p.groupMeals))
    ensures UpdateAdmitted(old(p.Value()), me, id, name) && meals.Some? ==> InWeekOrder(p.groupMeals[id])
    ensures UpdateAdmitted(old(p.Value()), me, id, name) && r != Ok ==> r == Err(DuplicateMealSlot)
  {
    if id !in p.groups {
      return Err(GroupNotFound);
    }
    if (id, me) !in p.members {
      return Err(NotMember);
    }
    if name != "" {
      if name in (p.groups - {id}).Values {
        return Err(DuplicateName);
      }
      RenameKeepsNamesUnique(p.groups, id, name);
      p.groups := p.groups[id := name];
    }
    r := ReplaceGroupLists(p, id, shoppingList, meals, known);
  }

  /** The list part of `UpdateGroup`: a given shopping list replaces the
      old one exactly, then given meals replace the old ones. */
  method ReplaceGroupLists(p: Planner, id: GroupId, shoppingList: Option<seq<Item>>,
                           meals: Option<seq<MealInput>>, known: set<RecipeId>)
    returns (r: Outcome)
    requires p.Valid() && id in p.groups
    modifies p
    ensures p.Valid() && (old(p.Synced()) ==> p.Synced())
    ensures p.Value() == old(p.Value()).(
              groupItems := if shoppingList.Some? then old(p.groupItems)[id := shoppingList.value]
                            else old(p.groupItems),
              groupMeals := if meals.Some? then old(p.groupMeals)[id := Created(SortMeals(meals.value), known).stored]
                            else old(p.groupMeals))
    ensures r == Ok <==> meals.None? || Created(SortMeals(meals.value), known).ok
    ensures r != Ok ==> r == Err(DuplicateMealSlot)
    ensures meals.Some? ==> InWeekOrder(p.groupMeals[id])
  {
    if shoppingList.Some? {
      var items := StoreItems(shoppingList.value);
      p.SetGroupItems(id, items);
    }
    if meals.Some? {
      var stored, ok := ReplaceMeals(meals.value, known);
      p.SetGroupMeals(id, stored);
      if !ok {
        return Err(DuplicateMealSlot);
      }
    }
    return Ok;
  }

  /** `DeleteGroup`: only a member may delete an existing group. The
      group is removed from every member's groups, one member at a time,
      and then the group row is deleted with everything that cascades
      from it. */
  method DeleteGroup(p: Planner, me: IndividualId, id: GroupId) returns (r: Outcome)
    requires p.Valid() && me in p.individuals
    modifies p
    ensures p.Valid() && (old(p.Synced()) ==> p.Synced())
    ensures r == Ok <==> id in old(p.groups) && (id, me) in old(p.members)
    ensures id !in old(p.groups) ==> r == Err(GroupNotFound)
    ensures id in old(p.groups) && (id, me) !in old(p.members) ==> r == Err(NotMember)
    ensures r != Ok ==> p.Value() == old(p.Value())
    ensures r == Ok ==> p.Value() == WithoutGroup(old(p.Value()), id)
  {
    if id !in p.groups {
      return Err(GroupNotFound);
    }
    if (id, me) !in p.members {
      return Err(NotMember);
    }
    ghost var before := p.Value();
    var pending := MembersOf(p.Value(), id);
    var memberOf := p.memberOf;
    while pending != {}
      invariant pending <= MembersOf(p.Value(), id)
      invariant forall q :: q in memberOf <==>
                  q in p.memberOf && !(q.1 == id && q.0 in MembersOf(p.Value(), id) && q.0 !in pending)
      decreases pending
    {
      var m :| m in pending;
      memberOf := memberOf - {(m, id)};
      pending := pending - {m};
    }
    p.memberOf := memberOf;
    p.DeleteGroupRow(id);
    assert p.memberOf == DropGroupFromIndividuals(before.memberOf, id);
    return Ok;
  }
}
