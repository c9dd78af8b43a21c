/** The weekly meal-slot ordering: a three-way comparison of (day, time)
    codes, and the sort key built from it. */
module Comparison {

  /** Day-of-week codes, in the order of the `days` table. */
  datatype Day = MON | TUE | WED | THU | FRI | SAT | SUN

  /** Time-of-day codes: Breakfast, Lunch, Dinner, Other. */
  datatype Time = B | L | D | O

  /** The (day, time) position of a meal in the weekly plan. */
  datatype Slot = Slot(day: Day, time: Time)

  const Days: seq<Day> := [MON, TUE, WED, THU, FRI, SAT, SUN]
  const Times: seq<Time> := [B, L, D, O]

  /** Position of a day code in `Days`. */
  function DayRank(d: Day): (k: nat)
    ensures k < |Days| && Days[k] == d
  {
    match d
    case MON => 0
    case TUE => 1
    case WED => 2
    case THU => 3
    case FRI => 4
    case SAT => 5
    case SUN => 6
  }

  /** Position of a time code in `Times`. */
  function TimeRank(t: Time): (k: nat)
    ensures k < |Times| && Times[k] == t
  {
    match t
    case B => 0
    case L => 1
    case D => 2
    case O => 3
  }

  /** Reference order: lexicographic on (day rank, time rank). */
  predicate Before(a: Slot, b: Slot)
  {
    DayRank(a.day) < DayRank(b.day)
    || (DayRank(a.day) == DayRank(b.day) && TimeRank(a.time) < TimeRank(b.time))
  }

  /** The source's chain of conditionals: on the same day, a time is
      earlier when the other time is not among the times before it;
      on different days, likewise with the days table. */
  function Compare(a: Slot, b: Slot): (r: int)
    ensures r == -1 || r == 0 || r == 1
    ensures r == 0 <==> a == b
  {
    if a.day == b.day then
      if a.time == b.time then 0
      else if a.time == B then -1
      else if a.time == L && b.time !in Times[..1] then -1
      else if a.time == D && b.time !in Times[..2] then -1
      else 1
    else if a.day == MON then -1
    else if a.day == TUE && b.day !in Days[..1] then -1
    else if a.day == WED && b.day !in Days[..2] then -1
    else if a.day == THU && b.day !in Days[..3] then -1
    else if a.day == FRI && b.day !in Days[..4] then -1
    else if a.day == SAT && b.day !in Days[..5] then -1
    else 1
  }

  /** The ordering `compare_as_key` gives to `sort`: a key is smaller
      exactly when `compare` returns a negative number. */
  predicate KeyLess(a: Slot, b: Slot)
  {
    Compare(a, b) < 0
  }

  /** Both orders agree: compare's sign is the lexicographic comparison
      of the ranks of day and time. */
  lemma CompareIsLexicographic(a: Slot, b: Slot)
    ensures Compare(a, b) == -1 <==> Before(a, b)
    ensures Compare(a, b) == 1 <==> Before(b, a)
  {
    assert Times[..1] == [B] && Times[..2] == [B, L];
    assert Days[..1] == [MON] && Days[..2] == [MON, TUE] && Days[..3] == [MON, TUE, WED];
    assert Days[..4] == [MON, TUE, WED, THU] && Days[..5] == [MON, TUE, WED, THU, FRI];
  }

  /** On the same day, breakfast < lunch < dinner < other. */
  lemma SameDayOrdersByTime(d: Day, t1: Time, t2: Time)
    ensures Compare(Slot(d, t1), Slot(d, t2)) == -1 <==> TimeRank(t1) < TimeRank(t2)
  {
    CompareIsLexicographic(Slot(d, t1), Slot(d, t2));
  }

  /** On different days, Monday < ... < Sunday whatever the times. */
  lemma OtherDaysOrderByDay(a: Slot, b: Slot)
    requires a.day != b.day
    ensures Compare(a, b) == if DayRank(a.day) < DayRank(b.day) then -1 else 1
  {
    CompareIsLexicographic(a, b);
  }

  /** compare(a, b) == -compare(b, a). */
  lemma CompareAntisymmetric(a: Slot, b: Slot)
    ensures Compare(a, b) == -Compare(b, a)
  {
    CompareIsLexicographic(a, b);
    CompareIsLexicographic(b, a);
  }

  /** Non-strict transitivity: a <= b and b <= c give a <= c. */
  lemma CompareTransitive(a: Slot, b: Slot, c: Slot)
    requires Compare(a, b) <= 0 && Compare(b, c) <= 0
    ensures Compare(a, c) <= 0
    ensures Compare(a, c) == 0 ==> a == b == c
  {
    CompareIsLexicographic(a, b);
    CompareIsLexicographic(b, c);
    CompareIsLexicographic(a, c);
  }

  /** The sort key is a strict total order on slots: irreflexive,
      transitive, and any two distinct slots are comparable. */
  lemma KeyLessIsStrictTotalOrder(a: Slot, b: Slot, c: Slot)
    ensures !KeyLess(a, a)
    ensures KeyLess(a, b) && KeyLess(b, c) ==> KeyLess(a, c)
    ensures a != b ==> KeyLess(a, b) != KeyLess(b, a)
  {
    if KeyLess(a, b) && KeyLess(b, c) {
      CompareTransitive(a, b, c);
    }
    CompareAntisymmetric(a, b);
  }
}
