/** The post-save receiver on user rows: every newly created user gets
    its individual profile. */
module ProfileSignal {
  import opened Common
  import opened Store

  /** The individuals linked to `user`. */
  function LinkedTo(s: State, user: UserId): (ids: set<IndividualId>)
    ensures forall i :: i in ids <==> i in s.userOf && s.userOf[i] == user
  {
    set i | i in s.userOf && s.userOf[i] == user
  }

  /** `create_profile`: when the saved user row was just created, one
      individual row linked to it is created; a later save of the same
      user creates nothing. */
  method CreateProfile(p: Planner, user: UserId, created: bool, newId: IndividualId)
    requires p.Valid() && newId !in p.individuals
    requires created ==> user !in p.userOf.Values
    modifies p
    ensures p.Valid() && (old(p.Synced()) ==> p.Synced())
    ensures !created ==> p.Value() == old(p.Value())
    ensures created ==> p.Value() == WithIndividual(old(p.Value()), newId, user)
  {
    if created {
      p.AddIndividual(newId, user);
    }
  }

  /** A new user ends up with exactly one individual, the new one, and
      the number of individuals grows by one. */
  lemma ProfileIsUnique(s: State, i: IndividualId, user: UserId)
    requires Consistent(s) && i !in s.individuals && user !in s.userOf.Values
    ensures LinkedTo(WithIndividual(s, i, user), user) == {i}
    ensures |WithIndividual(s, i, user).individuals| == |s.individuals| + 1
  {
    var t := WithIndividual(s, i, user);
    forall j | j in t.userOf && j != i ensures t.userOf[j] != user {
      assert s.userOf[j] in s.userOf.Values;
    }
  }
}
