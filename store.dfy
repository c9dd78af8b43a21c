/** The rows the group and individual mutations work on. Each
    many-to-many relation is a set of pairs; membership and join requests
    are each stored twice, once from the group's side and once from the
    individual's side. */
module Store {
  import opened Common
  import opened Signals
  import opened MealPlans

  type GroupSide = set<(GroupId, IndividualId)>
  type IndividualSide = set<(IndividualId, GroupId)>

  /** The abstract value of a Planner. */
  datatype State = State(
    individuals: set<IndividualId>,
    userOf: map<IndividualId, UserId>,
    groups: map<GroupId, string>,
    members: GroupSide,
    joinRequests: GroupSide,
    memberOf: IndividualSide,
    requestsMade: IndividualSide,
    individualItems: map<IndividualId, seq<Item>>,
    individualMeals: map<IndividualId, seq<Meal>>,
    groupItems: map<GroupId, seq<Item>>,
    groupMeals: map<GroupId, seq<Meal>>)

  /** The two sides of a relation hold the same pairs. */
  ghost predicate Mirrored(r: GroupSide, s: IndividualSide)
  {
    forall g, i :: (g, i) in r <==> (i, g) in s
  }

  /** No two groups share a name (the name column is unique). */
  ghost predicate NamesUnique(groups: map<GroupId, string>)
  {
    forall g, h :: g in groups && h in groups && groups[g] == groups[h] ==> g == h
  }

  /** No user is linked to two individuals (the user column is a
      one-to-one link). */
  ghost predicate OneToOne(userOf: map<IndividualId, UserId>)
  {
    forall a, b :: a in userOf && b in userOf && userOf[a] == userOf[b] ==> a == b
  }

  /** What the database itself guarantees: pairs refer to stored rows,
      every owner has its lists, group names are unique and no owner has
      two meals in one slot. */
  ghost predicate Consistent(s: State)
  {
    && (forall p :: p in s.members ==> p.0 in s.groups && p.1 in s.individuals)
    && (forall p :: p in s.joinRequests ==> p.0 in s.groups && p.1 in s.individuals)
    && (forall p :: p in s.memberOf ==> p.0 in s.individuals && p.1 in s.groups)
    && (forall p :: p in s.requestsMade ==> p.0 in s.individuals && p.1 in s.groups)
    && s.groupItems.Keys == s.groups.Keys && s.groupMeals.Keys == s.groups.Keys
    && s.individualItems.Keys == s.individuals && s.individualMeals.Keys == s.individuals
    && s.userOf.Keys == s.individuals && OneToOne(s.userOf)
    && MealsDistinct(s.groupMeals) && MealsDistinct(s.individualMeals)
    && NamesUnique(s.groups)
  }

  /** What the mutations keep between the two sides of each relation:
      the individual is among the group's members exactly when the group
      is among the individual's groups, and likewise for join requests.
      The database does not enforce this; the two sides are separate
      tables. */
  ghost predicate Paired(s: State)
  {
    Mirrored(s.members, s.memberOf) && Mirrored(s.joinRequests, s.requestsMade)
  }

  /** The group an (id, name) argument pair designates: by id when an id
      is given, otherwise by name. */
  ghost function Find(s: State, id: GroupId, name: string): (r: Option<GroupId>)
    ensures r.Some? ==> r.value in s.groups
    ensures id != "" ==> (r.Some? <==> id in s.groups) && (r.Some? ==> r.value == id)
    ensures id == "" ==> (r.Some? <==> exists g :: g in s.groups && s.groups[g] == name)
    ensures id == "" && r.Some? ==> s.groups[r.value] == name
  {
    if id != "" then
      if id in s.groups then Some(id) else None
    else if exists g :: g in s.groups && s.groups[g] == name then
      Some(var g :| g in s.groups && s.groups[g] == name; g)
    else None
  }

  /** With unique names, a name designates one group at most. */
  lemma FindByNameUnique(s: State, name: string, g: GroupId)
    requires NamesUnique(s.groups)
    requires g in s.groups && s.groups[g] == name
    ensures Find(s, "", name) == Some(g)
  {
  }

  /** A set of size one holding x is {x}. */
  lemma SingletonOf<T>(s: set<T>, x: T)
    requires x in s && |s| == 1
    ensures s == {x}
  {
    assert |s - {x}| == 0;
  }

  /** The pairs of `r` that do not mention group `g`. */
  function DropGroup(r: GroupSide, g: GroupId): (d: GroupSide)
    ensures forall p :: p in d <==> p in r && p.0 != g
  {
    set p | p in r && p.0 != g
  }

  function DropGroupFromIndividuals(r: IndividualSide, g: GroupId): (d: IndividualSide)
    ensures forall p :: p in d <==> p in r && p.1 != g
  {
    set p | p in r && p.1 != g
  }

  /** The state after the group row `g` is deleted, with the rows that
      cascade from it: its lists and every relation pair naming it. */
  function WithoutGroup(s: State, g: GroupId): (t: State)
    ensures g !in t.groups && t.groups.Keys == s.groups.Keys - {g}
    ensures forall i :: (g, i) !in t.members && (i, g) !in t.memberOf
    ensures forall i :: (g, i) !in t.joinRequests && (i, g) !in t.requestsMade
  {
    s.(groups := s.groups - {g},
       members := DropGroup(s.members, g),
       joinRequests := DropGroup(s.joinRequests, g),
       memberOf := DropGroupFromIndividuals(s.memberOf, g),
       requestsMade := DropGroupFromIndividuals(s.requestsMade, g),
       groupItems := s.groupItems - {g},
       groupMeals := s.groupMeals - {g})
  }

  /** Deleting a group keeps the state consistent. */
  lemma WithoutGroupConsistent(s: State, g: GroupId)
    requires Consistent(s)
    ensures Consistent(WithoutGroup(s, g))
    ensures Paired(s) ==> Paired(WithoutGroup(s, g))
  {
    var t := WithoutGroup(s, g);
    forall h | h in t.groupMeals ensures SlotsDistinct(MealSlots(t.groupMeals[h])) {
      assert t.groupMeals[h] == s.groupMeals[h];
    }
  }

  /** The state after individual `i` joins group `g`: any pending request
      is cleared on both sides and membership recorded on both. */
  function WithMember(s: State, g: GroupId, i: IndividualId): (t: State)
    ensures (g, i) in t.members && (i, g) in t.memberOf
    ensures (g, i) !in t.joinRequests && (i, g) !in t.requestsMade
  {
    s.(requestsMade := s.requestsMade - {(i, g)},
       joinRequests := s.joinRequests - {(g, i)},
       memberOf := s.memberOf + {(i, g)},
       members := s.members + {(g, i)})
  }

  /** Joining keeps the state consistent and both sides paired. */
  lemma WithMemberConsistent(s: State, g: GroupId, i: IndividualId)
    requires Consistent(s) && g in s.groups && i in s.individuals
    ensures Consistent(WithMember(s, g, i))
    ensures Paired(s) ==> Paired(WithMember(s, g, i))
  {
  }

  /** The individuals of group `g`, read from the group's side. */
  function MembersOf(s: State, g: GroupId): (ms: set<IndividualId>)
    ensures forall i :: i in ms <==> (g, i) in s.members
  {
    set p | p in s.members && p.0 == g :: p.1
  }

  /** The state after group `g` is created with `name` and its creator
      `me` as member on both sides. */
  function WithGroup(s: State, g: GroupId, name: string, me: IndividualId): (t: State)
    ensures t.groups.Keys == s.groups.Keys + {g}
  {
    s.(groups := s.groups[g := name],
       groupItems := s.groupItems[g := []],
       groupMeals := s.groupMeals[g := []],
       members := s.members + {(g, me)},
       memberOf := s.memberOf + {(me, g)})
  }

  /** Creating a group under a fresh id and an unused name keeps the
      state consistent and both sides paired. */
  lemma WithGroupConsistent(s: State, g: GroupId, name: string, me: IndividualId)
    requires Consistent(s) && g !in s.groups && me in s.individuals && name !in s.groups.Values
    ensures Consistent(WithGroup(s, g, name, me))
    ensures Paired(s) ==> Paired(WithGroup(s, g, name, me))
  {
    assert SlotsDistinct(MealSlots([]));
    NoMealsKeepsSlotsDistinct(s.groupMeals, g);
    NewNameKeepsNamesUnique(s.groups, g, name);
  }

  /** A group created under a fresh id has its creator as only member. */
  lemma NewGroupMembers(s: State, g: GroupId, name: string, me: IndividualId)
    requires Consistent(s) && g !in s.groups
    ensures MembersOf(WithGroup(s, g, name, me), g) == {me}
  {
    assert forall i :: (g, i) !in s.members;
  }

  /** Every owner's meals occupy distinct slots. */
  ghost predicate MealsDistinct<K>(meals: map<K, seq<Meal>>)
  {
    forall k :: k in meals ==> SlotsDistinct(MealSlots(meals[k]))
  }

  /** Giving an owner an empty meal plan keeps every owner's slots
      distinct. */
  lemma NoMealsKeepsSlotsDistinct<K>(meals: map<K, seq<Meal>>, k: K)
    requires MealsDistinct(meals)
    ensures MealsDistinct(meals[k := []])
  {
    assert SlotsDistinct(MealSlots([]));
  }

  /** Adding a group under a fresh id with an unused name keeps names
      unique. */
  lemma NewNameKeepsNamesUnique(groups: map<GroupId, string>, g: GroupId, name: string)
    requires NamesUnique(groups) && g !in groups && name !in groups.Values
    ensures NamesUnique(groups[g := name])
  {
    forall a | a in groups ensures groups[a] != name {
      assert groups[a] in groups.Values;
    }
  }

  /** Renaming a group to a name no other group has keeps names unique. */
  lemma RenameKeepsNamesUnique(groups: map<GroupId, string>, id: GroupId, name: string)
    requires NamesUnique(groups) && id in groups && name !in (groups - {id}).Values
    ensures NamesUnique(groups[id := name])
  {
    forall a | a in groups && a != id ensures groups[a] != name {
      assert (groups - {id})[a] in (groups - {id}).Values;
    }
  }

  /** Adding an individual row with empty lists keeps the state
      consistent. */
  lemma AddedIndividualConsistent(s: State, i: IndividualId, user: UserId)
    requires Consistent(s) && i !in s.individuals && user !in s.userOf.Values
    ensures Consistent(WithIndividual(s, i, user))
    ensures Paired(s) ==> Paired(WithIndividual(s, i, user))
  {
    NoMealsKeepsSlotsDistinct(s.individualMeals, i);
    forall a | a in s.userOf ensures s.userOf[a] != user {
      assert s.userOf[a] in s.userOf.Values;
    }
  }

  /** The state after an individual row `i` linked to `user` is stored,
      with an empty shopping list and no meals. */
  function WithIndividual(s: State, i: IndividualId, user: UserId): (t: State)
    ensures t.individuals == s.individuals + {i} && i in t.userOf && t.userOf[i] == user
  {
    s.(individuals := s.individuals + {i},
       userOf := s.userOf[i := user],
       individualItems := s.individualItems[i := []],
       individualMeals := s.individualMeals[i := []])
  }

  class Planner {
    var individuals: set<IndividualId>
    var userOf: map<IndividualId, UserId>   // Individual.user
    var groups: map<GroupId, string>
    var members: GroupSide                // Group.members
    var joinRequests: GroupSide           // Group.join_requests
    var memberOf: IndividualSide          // Individual.groups
    var requestsMade: IndividualSide      // Individual.group_requests
    var individualItems: map<IndividualId, seq<Item>>
    var individualMeals: map<IndividualId, seq<Meal>>
    var groupItems: map<GroupId, seq<Item>>
    var groupMeals: map<GroupId, seq<Meal>>

    function Value(): State
      reads this
    {
      State(individuals, userOf, groups, members, joinRequests, memberOf, requestsMade,
            individualItems, individualMeals, groupItems, groupMeals)
    }

    ghost predicate Valid()
      reads this
    {
      Consistent(Value())
    }

    ghost predicate Synced()
      reads this
    {
      Paired(Value())
    }

    /** An empty database. */
    constructor ()
      ensures Valid() && Synced()
      ensures Value() == State({}, map[], map[], {}, {}, {}, {}, map[], map[], map[], map[])
    {
      individuals, userOf, groups := {}, map[], map[];
      members, joinRequests, memberOf, requestsMade := {}, {}, {}, {};
      individualItems, individualMeals := map[], map[];
      groupItems, groupMeals := map[], map[];
    }

    /** Stores a new individual row linked to `user`, which has no
        individual yet. */
    method AddIndividual(i: IndividualId, user: UserId)
      requires Valid() && i !in individuals && user !in userOf.Values
      modifies this
      ensures Valid() && (old(Synced()) ==> Synced())
      ensures Value() == WithIndividual(old(Value()), i, user)
    {
      AddedIndividualConsistent(Value(), i, user);
      Write(WithIndividual(Value(), i, user));
    }

    /** Saves the group row `g` named `name`, with an empty shopping
        list and no meals, and records `me` as a member on both sides. */
    method AddGroup(g: GroupId, name: string, me: IndividualId)
      requires Valid() && g !in groups && me in individuals && name !in groups.Values
      modifies this
      ensures Valid() && (old(Synced()) ==> Synced())
      ensures Value() == WithGroup(old(Value()), g, name, me)
      ensures MembersOf(Value(), g) == {me}
    {
      WithGroupConsistent(Value(), g, name, me);
      NewGroupMembers(Value(), g, name, me);
      Write(WithGroup(Value(), g, name, me));
    }

    /** Writes every column at once. */
    method Write(t: State)
      modifies this
      ensures Value() == t
    {
      individuals, userOf, groups := t.individuals, t.userOf, t.groups;
      members, joinRequests, memberOf, requestsMade := t.members, t.joinRequests, t.memberOf, t.requestsMade;
      individualItems, individualMeals := t.individualItems, t.individualMeals;
      groupItems, groupMeals := t.groupItems, t.groupMeals;
    }

    /** Replaces group `g`'s shopping list. */
    method SetGroupItems(g: GroupId, items: seq<Item>)
      requires Valid() && g in groups
      modifies this
      ensures Valid() && (old(Synced()) ==> Synced())
      ensures Value() == old(Value()).(groupItems := old(groupItems)[g := items])
    {
      groupItems := groupItems[g := items];
    }

    /** Replaces group `g`'s meal plan by one with distinct slots. */
    method SetGroupMeals(g: GroupId, plan: seq<Meal>)
      requires Valid() && g in groups && SlotsDistinct(MealSlots(plan))
      modifies this
      ensures Valid() && (old(Synced()) ==> Synced())
      ensures Value() == old(Value()).(groupMeals := old(groupMeals)[g := plan])
    {
      groupMeals := groupMeals[g := plan];
    }

    /** Replaces individual `i`'s shopping list. */
    method SetIndividualItems(i: IndividualId, items: seq<Item>)
      requires Valid() && i in individuals
      modifies this
      ensures Valid() && (old(Synced()) ==> Synced())
      ensures Value() == old(Value()).(individualItems := old(individualItems)[i := items])
    {
      individualItems := individualItems[i := items];
    }

    /** Replaces individual `i`'s meal plan by one with distinct slots. */
    method SetIndividualMeals(i: IndividualId, plan: seq<Meal>)
      requires Valid() && i in individuals && SlotsDistinct(MealSlots(plan))
      modifies this
      ensures Valid() && (old(Synced()) ==> Synced())
      ensures Value() == old(Value()).(individualMeals := old(individualMeals)[i := plan])
    {
      individualMeals := individualMeals[i := plan];
    }

    /** The joining steps of an invitation: clear a pending request on
        each side where it is recorded, then add membership on both. */
    method Join(g: GroupId, i: IndividualId)
      requires Valid() && g in groups && i in individuals
      modifies this
      ensures Valid() && (old(Synced()) ==> Synced())
      ensures Value() == WithMember(old(Value()), g, i)
    {
      WithMemberConsistent(Value(), g, i);
      ghost var t := WithMember(Value(), g, i);
      var made, received := requestsMade, joinRequests;
      if (i, g) in made {
        made := made - {(i, g)};
      }
      if (g, i) in received {
        received := received - {(g, i)};
      }
      assert made == t.requestsMade && received == t.joinRequests;
      Write(Value().(requestsMade := made, joinRequests := received,
                     memberOf := memberOf + {(i, g)}, members := members + {(g, i)}));
    }

    /** The leaving steps: `me` is removed from its groups, then either
        the group is deleted, when `me` was its only member, or `me` is
        removed from the group's members. */
    method Leave(g: GroupId, me: IndividualId)
      requires Valid() && (g, me) in members && (me, g) in memberOf
      modifies this
      ensures Valid() && (old(Synced()) ==> Synced())
      ensures Value() == if MembersOf(old(Value()), g) == {me} then WithoutGroup(old(Value()), g)
                         else old(Value()).(members := old(members) - {(g, me)},
                                            memberOf := old(memberOf) - {(me, g)})
    {
      ghost var before := Value();
      memberOf := memberOf - {(me, g)};
      if |MembersOf(Value(), g)| == 1 {
        SingletonOf(MembersOf(Value(), g), me);
        DeleteGroupRow(g);
        assert memberOf == DropGroupFromIndividuals(before.memberOf, g);
      } else {
        members := members - {(g, me)};
      }
    }

    /** `group.delete()`: the row and everything that cascades from it. */
    method DeleteGroupRow(g: GroupId)
      requires Valid()
      modifies this
      ensures Valid() && (old(Synced()) ==> Synced())
      ensures Value() == WithoutGroup(old(Value()), g)
    {
      WithoutGroupConsistent(Value(), g);
      Write(WithoutGroup(Value(), g));
    }
  }
}
