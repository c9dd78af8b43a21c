/** The mutations an individual runs on its own rows and on its group
    relations. The caller is authenticated; `me` is the individual linked
    to the calling user. */
module IndividualMutation {
  import opened Common
  import opened MealPlans
  import opened Store

  /** `UpdateIndividual`: a given shopping list replaces the old one
      exactly; given meals replace the old ones, sorted by slot and built
      by the four-way rule. The shopping list is written first and kept
      if the meals then fail. */
  method UpdateIndividual(p: Planner, me: IndividualId, shoppingList: Option<seq<Item>>,
                          meals: Option<seq<MealInput>>, known: set<RecipeId>)
    returns (r: Outcome)
    requires p.Valid() && me in p.individuals
    modifies p
    ensures p.Valid() && (old(p.Synced()) ==> p.Synced())
    ensures p.Value() == old(p.Value()).(
              individualItems := if shoppingList.Some? then old(p.individualItems)[me := shoppingList.value]
                                 else old(p.individualItems),
              individualMeals := if meals.Some? then old(p.individualMeals)[me := Created(SortMeals(meals.value), known).stored]
                                 else old(p.individualMeals))
    ensures r == Ok <==> meals.None? || Created(SortMeals(meals.value), known).ok
    ensures r != Ok ==> r == Err(DuplicateMealSlot)
    ensures meals.Some? ==> InWeekOrder(p.individualMeals[me])
  {
    if shoppingList.Some? {
      var items := StoreItems(shoppingList.value);
      p.SetIndividualItems(me, items);
    }
    if meals.Some? {
      var stored, ok := ReplaceMeals(meals.value, known);
      p.SetIndividualMeals(me, stored);
      if !ok {
        return Err(DuplicateMealSlot);
      }
    }
    return Ok;
  }

  /** `RequestAccess`: the group must exist and no request may be
      recorded on either side; the request is then recorded on both. */
  method RequestAccess(p: Planner, me: IndividualId, id: GroupId) returns (r: Outcome)
    requires p.Valid() && me in p.individuals
    modifies p
    ensures p.Valid() && (old(p.Synced()) ==> p.Synced())
    ensures r == Ok <==> id in old(p.groups) && (id, me) !in old(p.joinRequests) && (me, id) !in old(p.requestsMade)
    ensures id !in old(p.groups) ==> r == Err(GroupNotFound)
    ensures id in old(p.groups) && r != Ok ==> r == Err(AlreadyRequested)
    ensures r != Ok ==> p.Value() == old(p.Value())
    ensures r == Ok ==> p.Value() == old(p.Value()).(joinRequests := old(p.joinRequests) + {(id, me)},
                                                     requestsMade := old(p.requestsMade) + {(me, id)})
  {
    if id !in p.groups {
      return Err(GroupNotFound);
    }
    if (id, me) in p.joinRequests || (me, id) in p.requestsMade {
      return Err(AlreadyRequested);
    }
    p.joinRequests := p.joinRequests + {(id, me)};
    p.requestsMade := p.requestsMade + {(me, id)};
    return Ok;
  }

  /** `CancelRequest`: the request must be recorded on both sides; it is
      then removed from both. */
  method CancelRequest(p: Planner, me: IndividualId, id: GroupId) returns (r: Outcome)
    requires p.Valid() && me in p.individuals
    modifies p
    ensures p.Valid() && (old(p.Synced()) ==> p.Synced())
    ensures r == Ok <==> id in old(p.groups) && (id, me) in old(p.joinRequests) && (me, id) in old(p.requestsMade)
    ensures id !in old(p.groups) ==> r == Err(GroupNotFound)
    ensures id in old(p.groups) && (id, me) !in old(p.joinRequests) ==> r == Err(NotInJoinRequests)
    ensures id in old(p.groups) && (id, me) in old(p.joinRequests) && (me, id) !in old(p.requestsMade)
            ==> r == Err(NotInGroupRequests)
    ensures r != Ok ==> p.Value() == old(p.Value())
    ensures r == Ok ==> p.Value() == old(p.Value()).(joinRequests := old(p.joinRequests) - {(id, me)},
                                                     requestsMade := old(p.requestsMade) - {(me, id)})
  {
    if id !in p.groups {
      return Err(GroupNotFound);
    }
    if (id, me) !in p.joinRequests {
      return Err(NotInJoinRequests);
    }
    if (me, id) !in p.requestsMade {
      return Err(NotInGroupRequests);
    }
    p.joinRequests := p.joinRequests - {(id, me)};
    p.requestsMade := p.requestsMade - {(me, id)};
    return Ok;
  }

  /** `InviteToGroup`: both rows must exist, the inviter must be a member
      and the invited individual must not be; any pending request is
      cleared on both sides and membership is recorded on both. */
  method InviteToGroup(p: Planner, me: IndividualId, invited: IndividualId, groupId: GroupId)
    returns (r: Outcome)
    requires p.Valid() && me in p.individuals
    modifies p
    ensures p.Valid() && (old(p.Synced()) ==> p.Synced())
    ensures r == Ok <==> invited in old(p.individuals) && groupId in old(p.groups)
                         && (groupId, me) in old(p.members) && (groupId, invited) !in old(p.members)
    ensures invited !in old(p.individuals) || groupId !in old(p.groups) ==> r == Err(GroupOrIndividualNotFound)
    ensures invited in old(p.individuals) && groupId in old(p.groups) && (groupId, me) !in old(p.members)
            ==> r == Err(InviterNotMember)
    ensures invited in old(p.individuals) && groupId in old(p.groups)
            && (groupId, me) in old(p.members) && (groupId, invited) in old(p.members)
            ==> r == Err(AlreadyMember)
    ensures r != Ok ==> p.Value() == old(p.Value())
    ensures r == Ok ==> p.Value() == WithMember(old(p.Value()), groupId, invited)
  {
    if invited !in p.individuals || groupId !in p.groups {
      return Err(GroupOrIndividualNotFound);
    }
    if (groupId, me) !in p.members {
      return Err(InviterNotMember);
    }
    if (groupId, invited) in p.members {
      return Err(AlreadyMember);
    }
    p.Join(groupId, invited);
    return Ok;
  }

  /** `LeaveGroup`: exactly one of id and name designates the group, and
      the caller must be a member on both sides. Membership is removed
      from both; when the caller was the last member the group is
      deleted, with everything that cascades from it. */
  method LeaveGroup(p: Planner, me: IndividualId, id: GroupId, name: string) returns (r: Outcome)
    requires p.Valid() && me in p.individuals
    modifies p
    ensures p.Valid() && (old(p.Synced()) ==> p.Synced())
    ensures id == "" && name == "" ==> r == Err(MissingIdOrName)
    ensures id != "" && name != "" ==> r == Err(BothIdAndName)
    ensures (id == "") != (name == "") && Find(old(p.Value()), id, name).None? ==> r == Err(GroupNotFound)
    ensures (id == "") != (name == "") && Find(old(p.Value()), id, name).Some? ==>
              var g := Find(old(p.Value()), id, name).value;
              if (g, me) !in old(p.members) || (me, g) !in old(p.memberOf) then r == Err(NotInGroup)
              else r == Ok && p.Value() == if MembersOf(old(p.Value()), g) == {me} then WithoutGroup(old(p.Value()), g)
                                           else old(p.Value()).(members := old(p.members) - {(g, me)},
                                                                memberOf := old(p.memberOf) - {(me, g)})
    ensures r != Ok ==> p.Value() == old(p.Value())
  {
    if id == "" && name == "" {
      return Err(MissingIdOrName);
    }
    if id != "" && name != "" {
      return Err(BothIdAndName);
    }
    var g: GroupId;
    if name != "" {
      if name !in p.groups.Values {
        return Err(GroupNotFound);
      }
      g :| g in p.groups && p.groups[g] == name;
      FindByNameUnique(p.Value(), name, g);
    } else {
      if id !in p.groups {
        return Err(GroupNotFound);
      }
      g := id;
    }
    if (g, me) !in p.members || (me, g) !in p.memberOf {
      return Err(NotInGroup);
    }
    p.Leave(g, me);
    return Ok;
  }
}
