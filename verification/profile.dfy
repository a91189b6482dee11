/**
 * The two computations of the profile screen: which pet is shown, and the
 * activity list grouped by month, months in ascending order.
 */
module Profile {
  import opened Wrappers
  import opened Calendar
  import opened PetRecord
  import opened ActivityRecord

  /** `pets.find { it.id == selectedPetId }`: the first pet with the selected id; none when nothing is selected. */
  function FindCurrentPet(pets: seq<Pet>, selected: Option<int>): (r: Option<Pet>)
    ensures r.Some? <==> selected.Some? && exists i :: 0 <= i < |pets| && pets[i].id == selected.value
    ensures r.Some? ==> exists i :: (0 <= i < |pets| && pets[i] == r.value && pets[i].id == selected.value
      && forall j :: 0 <= j < i ==> pets[j].id != selected.value)
  {
    if selected.None? || pets == [] then None
    else if pets[0].id == selected.value then Some(pets[0])
    else
      var r := FindCurrentPet(pets[1..], selected);
      assert forall i :: 1 <= i < |pets| ==> pets[i] == pets[1..][i - 1];
      r
  }

  // ---------------------------------------------------------------------
  // Grouping by month

  /** The (year, month) an activity falls in. */
  datatype YearMonth = YearMonth(year: int, month: int)

  function MonthOf(a: PetActivity): YearMonth {
    YearMonth(a.dateTime.date.year, a.dateTime.date.month)
  }

  /** `compareBy { it.first }.thenBy { it.second }`, strictly. */
  predicate EarlierMonth(a: YearMonth, b: YearMonth) {
    a.year < b.year || (a.year == b.year && a.month < b.month)
  }

  predicate StrictlyAscending(keys: seq<YearMonth>) {
    forall i, j :: 0 <= i < j < |keys| ==> EarlierMonth(keys[i], keys[j])
  }

  /** One entry of the sorted map: a month and its activities. */
  datatype MonthGroup = MonthGroup(key: YearMonth, activities: seq<PetActivity>)

  /** The activities of month `key`, in their input order. */
  function InMonth(s: seq<PetActivity>, key: YearMonth): (r: seq<PetActivity>)
    ensures forall a :: a in r <==> a in s && MonthOf(a) == key
    ensures NewestFirst(s) ==> NewestFirst(r)
  {
    if s == [] then []
    else if MonthOf(s[0]) == key then
      var rest := InMonth(s[1..], key);
      NewestFirstTail(s);
      PrependNewest(s[0], rest);
      [s[0]] + rest
    else
      NewestFirstTail(s);
      InMonth(s[1..], key)
  }

  /** `keys` with `k` added in its place, unless it is already there. */
  function InsertMonth(k: YearMonth, keys: seq<YearMonth>): (r: seq<YearMonth>)
    requires StrictlyAscending(keys)
    ensures StrictlyAscending(r)
    ensures forall x :: x in r <==> x == k || x in keys
  {
    if keys == [] then [k]
    else if k == keys[0] then keys
    else if EarlierMonth(k, keys[0]) then
      assert forall i :: 1 <= i < |[k] + keys| ==> ([k] + keys)[i] == keys[i - 1];
      [k] + keys
    else
      var rest := InsertMonth(k, keys[1..]);
      assert forall i :: 0 <= i < |rest| ==> EarlierMonth(keys[0], rest[i]) by {
        forall i | 0 <= i < |rest| ensures EarlierMonth(keys[0], rest[i]) {
          assert rest[i] in rest;
          if rest[i] != k {
            var j :| 0 <= j < |keys[1..]| && keys[1..][j] == rest[i];
            assert rest[i] == keys[j + 1];
          }
        }
      }
      assert forall i :: 1 <= i < |[keys[0]] + rest| ==> ([keys[0]] + rest)[i] == rest[i - 1];
      [keys[0]] + rest
  }

  /** The distinct months of the activities, ascending. */
  function MonthsOf(s: seq<PetActivity>): (r: seq<YearMonth>)
    ensures StrictlyAscending(r)
    ensures forall k :: k in r <==> exists a :: a in s && MonthOf(a) == k
  {
    if s == [] then []
    else
      var rest := MonthsOf(s[1..]);
      assert forall a :: a in s <==> a == s[0] || a in s[1..];
      InsertMonth(MonthOf(s[0]), rest)
  }

  function GroupsOf(s: seq<PetActivity>, keys: seq<YearMonth>): (r: seq<MonthGroup>)
    ensures |r| == |keys|
    ensures forall i :: 0 <= i < |keys| ==> r[i] == MonthGroup(keys[i], InMonth(s, keys[i]))
  {
    if keys == [] then [] else [MonthGroup(keys[0], InMonth(s, keys[0]))] + GroupsOf(s, keys[1..])
  }

  /** `activities.groupBy { year to month }.toSortedMap(...)`, as the list of its entries. */
  function GroupByMonth(s: seq<PetActivity>): seq<MonthGroup> {
    GroupsOf(s, MonthsOf(s))
  }

  /** All activities of the groups, group after group. */
  function Flatten(groups: seq<MonthGroup>): seq<PetActivity> {
    if groups == [] then [] else groups[0].activities + Flatten(groups[1..])
  }

  /**
   * The grouping is a partition: months strictly ascending, no group empty,
   * every member of a group in the group's month, every activity in the group of its month.
   */
  lemma GroupByMonthPartitions(s: seq<PetActivity>)
    ensures var g := GroupByMonth(s);
      && StrictlyAscending(seq(|g|, i requires 0 <= i < |g| => g[i].key))
      && (forall i :: 0 <= i < |g| ==> g[i].activities != [])
      && (forall i, a :: 0 <= i < |g| && a in g[i].activities ==> a in s && MonthOf(a) == g[i].key)
      && (forall a :: a in s ==> exists i :: 0 <= i < |g| && g[i].key == MonthOf(a) && a in g[i].activities)
  {
    var keys := MonthsOf(s);
    var g := GroupByMonth(s);
    assert seq(|g|, i requires 0 <= i < |g| => g[i].key) == keys;
    forall i | 0 <= i < |g| ensures g[i].activities != [] {
      assert keys[i] in keys;
      var a :| a in s && MonthOf(a) == keys[i];
      assert a in g[i].activities;
    }
    forall a | a in s ensures exists i :: 0 <= i < |g| && g[i].key == MonthOf(a) && a in g[i].activities {
      assert MonthOf(a) in keys;
      var i :| 0 <= i < |keys| && keys[i] == MonthOf(a);
      assert a in g[i].activities;
    }
  }

  /** Given the query's order, each month's activities are listed latest first. */
  lemma GroupsKeepQueryOrder(s: seq<PetActivity>)
    requires NewestFirst(s)
    ensures forall g :: g in GroupByMonth(s) ==> NewestFirst(g.activities)
  {
  }

  /** No activities, no groups: the screen shows its "No activities" text instead. */
  lemma GroupByMonthEmpty(s: seq<PetActivity>)
    ensures GroupByMonth(s) == [] <==> s == []
  {
    if s != [] {
      assert MonthOf(s[0]) in MonthsOf(s);
    }
  }

  /** The activities whose month is one of `months`, in their input order. */
  function InMonths(s: seq<PetActivity>, months: set<YearMonth>): seq<PetActivity> {
    if s == [] then []
    else (if MonthOf(s[0]) in months then [s[0]] else []) + InMonths(s[1..], months)
  }

  lemma {:induction false} InMonthsNone(s: seq<PetActivity>)
    ensures InMonths(s, {}) == []
  {
    if s != [] {
      InMonthsNone(s[1..]);
    }
  }

  lemma {:induction false} InMonthsAll(s: seq<PetActivity>, months: set<YearMonth>)
    requires forall a :: a in s ==> MonthOf(a) in months
    ensures InMonths(s, months) == s
  {
    if s != [] {
      InMonthsAll(s[1..], months);
    }
  }

  lemma {:induction false} InMonthsAddMonth(s: seq<PetActivity>, k: YearMonth, months: set<YearMonth>)
    requires k !in months
    ensures multiset(InMonths(s, months + {k})) == multiset(InMonth(s, k)) + multiset(InMonths(s, months))
  {
    if s != [] {
      InMonthsAddMonth(s[1..], k, months);
    }
  }

  lemma {:induction false} FlattenGroupsOf(s: seq<PetActivity>, keys: seq<YearMonth>)
    requires StrictlyAscending(keys)
    ensures multiset(Flatten(GroupsOf(s, keys))) == multiset(InMonths(s, set k | k in keys))
  {
    if keys == [] {
      InMonthsNone(s);
      assert (set k | k in keys) == {};
    } else {
      var rest := keys[1..];
      assert StrictlyAscending(rest);
      FlattenGroupsOf(s, rest);
      assert GroupsOf(s, keys)[1..] == GroupsOf(s, rest);
      assert (set k | k in keys) == (set k | k in rest) + {keys[0]};
      forall j | 0 <= j < |rest|
        ensures rest[j] != keys[0]
      {
        assert EarlierMonth(keys[0], keys[j + 1]);
      }
      InMonthsAddMonth(s, keys[0], set k | k in rest);
    }
  }

  /** The groups, read one after another, hold exactly the input activities: each once per occurrence. */
  lemma GroupByMonthIsPermutation(s: seq<PetActivity>)
    ensures multiset(Flatten(GroupByMonth(s))) == multiset(s)
  {
    var keys := MonthsOf(s);
    FlattenGroupsOf(s, keys);
    InMonthsAll(s, set k | k in keys);
  }
}
