/** The pre-save receivers: step auto-numbering and the integrity rules
    that reject a save. "The rows already stored" is a parameter and
    raising an integrity error is an `Err` outcome. */
module Signals {
  import opened Common
  import opened Comparison

  // ---------------------------------------------------------------
  // Step auto-numbering
  // ---------------------------------------------------------------

  /** Length of the run starting at `i` in which each entry equals its
      position plus one. */
  function RunFrom(s: seq<int>, i: nat): (n: nat)
    requires i <= |s|
    ensures i <= n <= |s|
    ensures forall k :: i <= k < n ==> s[k] == k + 1
    ensures n < |s| ==> s[n] != n + 1
    decreases |s| - i
  {
    if i < |s| && s[i] == i + 1 then RunFrom(s, i + 1) else i
  }

  /** The order the gap-finding scan yields for the stored orders `s`,
      taken in the order the rows are listed: one more than the length
      of the leading run 1, 2, 3, ... */
  function FirstGap(s: seq<int>): (r: int)
    ensures 1 <= r <= |s| + 1
    ensures forall k :: 0 <= k < r - 1 ==> s[k] == k + 1
    ensures r <= |s| ==> s[r - 1] != r
  {
    RunFrom(s, 0) + 1
  }

  /** `step_order_assignment`: an order that is None is replaced by the
      first gap in the existing orders; any given order, 0 included, is
      left as it is. */
  method AssignStepOrder(existing: seq<int>, order: Option<int>) returns (given: int)
    ensures order.Some? ==> given == order.value
    ensures order.None? ==> given == FirstGap(existing)
  {
    if order.Some? {
      return order.value;
    }
    if |existing| > 0 {
      var prev := 0;
      var i := 0;
      while i < |existing|
        invariant 0 <= i <= |existing|
        invariant prev == i
        invariant forall k :: 0 <= k < i ==> existing[k] == k + 1
      {
        var cur := existing[i];
        if cur != prev + 1 {
          return prev + 1;
        }
        prev := cur;
        i := i + 1;
      }
    }
    given := |existing| + 1;
  }

  /** The orders 1, 2, ..., n. */
  function Run(n: nat): (s: seq<int>)
    ensures |s| == n && forall k :: 0 <= k < n ==> s[k] == k + 1
  {
    seq(n, k => k + 1)
  }

  /** With no gap the scan appends: after 1..n comes n + 1. */
  lemma FirstGapAfterRun(n: nat)
    ensures FirstGap(Run(n)) == n + 1
  {
  }

  /** The scan's result is determined: every r meeting FirstGap's three
      postconditions is FirstGap. */
  lemma FirstGapUnique(s: seq<int>, r: int)
    requires 1 <= r <= |s| + 1
    requires forall k :: 0 <= k < r - 1 ==> s[k] == k + 1
    requires r <= |s| ==> s[r - 1] != r
    ensures r == FirstGap(s)
  {
  }

  /** Concrete outcomes of the scan: empty gives 1, [1,2,4] gives 3,
      [2,3] gives 1, [1,2,3] gives 4. */
  lemma FirstGapExamples()
    ensures FirstGap([]) == 1
    ensures FirstGap([1, 2, 4]) == 3
    ensures FirstGap([2, 3]) == 1
    ensures FirstGap([1, 2, 3]) == 4
  {
    FirstGapUnique([1, 2, 4], 3);
    FirstGapUnique([2, 3], 1);
    FirstGapUnique([1, 2, 3], 4);
  }

  /** Strictly increasing positive orders, as after deletions from a
      numbered list. */
  predicate AscendingPositive(s: seq<int>)
  {
    (forall k :: 0 <= k < |s| ==> 1 <= s[k])
    && (forall j, k :: 0 <= j < k < |s| ==> s[j] < s[k])
  }

  /** When the stored orders are listed ascending, the scan finds the
      lowest positive order that is free. */
  lemma FirstGapIsLowestFree(s: seq<int>)
    requires AscendingPositive(s)
    ensures FirstGap(s) !in s
    ensures forall k :: 1 <= k < FirstGap(s) ==> k in s
  {
    var r := FirstGap(s);
    forall k | 1 <= k < r ensures k in s {
      assert s[k - 1] == k;
    }
    if r <= |s| {
      assert r - 1 == 0 || s[r - 2] == r - 1;
      assert s[r - 1] > r;
      forall j | 0 <= j < |s| ensures s[j] != r {
        if j < r - 1 {
          assert s[j] == j + 1;
        } else if j > r - 1 {
          assert s[r - 1] < s[j];
        }
      }
    } else {
      forall j | 0 <= j < |s| ensures s[j] != r {
        assert s[j] == j + 1;
      }
    }
  }

  // ---------------------------------------------------------------
  // Step order uniqueness
  // ---------------------------------------------------------------

  /** `step_order_unique`: an order below 1, or one already stored for
      the same recipe (the row's own stored order included), is refused. */
  function StepOrderUnique(order: int, existing: seq<int>): (r: Outcome)
    ensures r == Ok <==> 1 <= order && order !in existing
    ensures order < 1 ==> r == Err(StepOrderOutOfRange)
    ensures 1 <= order && order in existing ==> r == Err(DuplicateStepOrder)
  {
    if order < 1 then Err(StepOrderOutOfRange)
    else if order in existing then Err(DuplicateStepOrder)
    else Ok
  }

  /** Orders that are positive and pairwise distinct: what the rule keeps. */
  predicate DistinctPositive(s: seq<int>)
  {
    (forall k :: 0 <= k < |s| ==> 1 <= s[k])
    && (forall j, k :: 0 <= j < k < |s| ==> s[j] != s[k])
  }

  /** An accepted step keeps the recipe's orders positive and distinct. */
  lemma AcceptedStepKeepsOrdersDistinct(existing: seq<int>, order: int)
    requires DistinctPositive(existing)
    requires StepOrderUnique(order, existing) == Ok
    ensures DistinctPositive(existing + [order])
  {
    var t := existing + [order];
    forall j, k | 0 <= j < k < |t| ensures t[j] != t[k] {
      if k == |existing| {
        assert t[j] == existing[j];
      }
    }
  }

  /** On ascending stored orders, the auto-numbered order always passes
      the uniqueness rule. */
  lemma AutoNumberedOrderAccepted(existing: seq<int>)
    requires AscendingPositive(existing)
    ensures StepOrderUnique(FirstGap(existing), existing) == Ok
  {
    FirstGapIsLowestFree(existing);
  }

  /** Because the scan follows the rows as listed, an unordered listing
      can make it pick an order that is taken: [1,3,2] yields 2, which
      the uniqueness rule then refuses. */
  lemma UnorderedListingCollides()
    ensures FirstGap([1, 3, 2]) == 2
    ensures StepOrderUnique(FirstGap([1, 3, 2]), [1, 3, 2]) == Err(DuplicateStepOrder)
  {
    FirstGapUnique([1, 3, 2], 2);
  }

  // ---------------------------------------------------------------
  // Meal slot uniqueness (group meals and individual meals alike)
  // ---------------------------------------------------------------

  /** `meal_time_day_unique_for_group` / `_for_individual`: a meal whose
      (time, day) pair already exists for the same owner is refused. */
  function MealSlotUnique(slot: Slot, existing: seq<Slot>): (r: Outcome)
    ensures r == Ok <==> slot !in existing
    ensures r != Ok ==> r == Err(DuplicateMealSlot)
  {
    if slot in existing then Err(DuplicateMealSlot) else Ok
  }

  /** No two entries share a slot. */
  predicate SlotsDistinct(s: seq<Slot>)
  {
    forall j, k :: 0 <= j < k < |s| ==> s[j] != s[k]
  }

  /** An accepted meal keeps the owner's slots distinct. */
  lemma AcceptedMealKeepsSlotsDistinct(existing: seq<Slot>, slot: Slot)
    requires SlotsDistinct(existing)
    requires MealSlotUnique(slot, existing) == Ok
    ensures SlotsDistinct(existing + [slot])
  {
    var t := existing + [slot];
    forall j, k | 0 <= j < k < |t| ensures t[j] != t[k] {
      if k == |existing| {
        assert t[j] == existing[j];
      }
    }
  }

  // ---------------------------------------------------------------
  // Recipe URL rules
  // ---------------------------------------------------------------

  /** `url_unique_if_exists`: a non-blank URL is refused when a recipe
      with another id already has it; `urls` maps stored recipe ids to
      their URLs. */
  function UrlUniqueIfExists(id: RecipeId, url: string, urls: map<RecipeId, string>): (r: Outcome)
    ensures r == Ok <==> url == "" || forall other :: other in urls && other != id ==> urls[other] != url
    ensures r != Ok ==> r == Err(DuplicateUrl)
  {
    if url != "" && exists other :: other in urls && other != id && urls[other] == url
    then Err(DuplicateUrl)
    else Ok
  }

  /** `url_cannot_be_changed_on_update`: a stored recipe keeps its URL;
      a recipe not yet stored passes. */
  function UrlCannotBeChanged(id: RecipeId, url: string, urls: map<RecipeId, string>): (r: Outcome)
    ensures r == Ok <==> id !in urls || urls[id] == url
    ensures r != Ok ==> r == Err(UrlChanged)
  {
    if id in urls && urls[id] != url then Err(UrlChanged) else Ok
  }

  /** Both recipe receivers, in the order they are registered: a save
      passes exactly when both pass, and a duplicate URL is reported
      before a changed one. */
  function RecipePreSave(id: RecipeId, url: string, urls: map<RecipeId, string>): (r: Outcome)
    ensures r == Ok <==> (url == "" || forall other :: other in urls && other != id ==> urls[other] != url)
                         && (id !in urls || urls[id] == url)
    ensures r != Ok && UrlUniqueIfExists(id, url, urls) != Ok ==> r == Err(DuplicateUrl)
    ensures r != Ok && UrlUniqueIfExists(id, url, urls) == Ok ==> r == Err(UrlChanged)
  {
    var unique := UrlUniqueIfExists(id, url, urls);
    if unique != Ok then unique else UrlCannotBeChanged(id, url, urls)
  }

  /** Non-blank URLs belong to one recipe at most. */
  predicate UrlsUnique(urls: map<RecipeId, string>)
  {
    forall a, b :: a in urls && b in urls && a != b && urls[a] != "" ==> urls[a] != urls[b]
  }

  /** Blank URLs are never refused by the uniqueness rule. */
  lemma BlankUrlNeverRejected(id: RecipeId, urls: map<RecipeId, string>)
    ensures UrlUniqueIfExists(id, "", urls) == Ok
  {
  }

  /** A save both receivers accept keeps non-blank URLs unique and never
      changes the URL of a stored recipe. */
  lemma AcceptedSaveKeepsUrls(id: RecipeId, url: string, urls: map<RecipeId, string>)
    requires UrlsUnique(urls)
    requires RecipePreSave(id, url, urls) == Ok
    ensures UrlsUnique(urls[id := url])
    ensures id in urls ==> urls[id := url] == urls
  {
    var u := urls[id := url];
    forall a, b | a in u && b in u && a != b && u[a] != "" ensures u[a] != u[b] {
      if a == id {
        assert u[b] == urls[b];
      } else if b == id {
        assert u[a] == urls[a];
      }
    }
  }
}
