/**
 * The activity record of the `pet_activities` table. Its `petId` is a foreign
 * key to `pets.id` with ON DELETE CASCADE; the store keeps that constraint.
 */
module ActivityRecord {
  import opened Wrappers
  import opened Calendar

  /** A row of `pet_activities`; `id` 0 means "not yet generated". */
  datatype PetActivity = PetActivity(
    id: int,
    petId: int,
    activityType: string,
    description: Option<string>,
    dateTime: LocalDateTime)

  /** The id a record carries before the store generates one. */
  const UnsetId: int := 0

  /** `r` is ordered by `dateTime`, latest first. */
  predicate NewestFirst(r: seq<PetActivity>) {
    forall i, j :: 0 <= i < j < |r| ==> ToNanos(r[j].dateTime) <= ToNanos(r[i].dateTime)
  }

  /** No two elements of `r` are the same row. */
  predicate DistinctIds(r: seq<PetActivity>) {
    forall i, j :: 0 <= i < j < |r| ==> r[i].id != r[j].id
  }

  /** Putting an element no earlier and with a new id in front keeps the order and the distinctness. */
  lemma {:induction false} PrependNewest(x: PetActivity, s: seq<PetActivity>)
    ensures NewestFirst(s) && (forall y :: y in s ==> ToNanos(y.dateTime) <= ToNanos(x.dateTime))
      ==> NewestFirst([x] + s)
    ensures DistinctIds(s) && (forall y :: y in s ==> y.id != x.id) ==> DistinctIds([x] + s)
  {
    var r := [x] + s;
    forall i | 1 <= i < |r|
      ensures r[i] == s[i - 1] && r[i] in s
    {
    }
  }

  /** Behind the first element of a list ordered latest first come only elements no later than it. */
  lemma {:induction false} NewestFirstTail(s: seq<PetActivity>)
    requires s != []
    ensures NewestFirst(s) ==>
      NewestFirst(s[1..]) && forall x :: x in s[1..] ==> ToNanos(x.dateTime) <= ToNanos(s[0].dateTime)
    ensures DistinctIds(s) ==>
      DistinctIds(s[1..]) && forall x :: x in s[1..] ==> x.id != s[0].id
  {
    forall x | x in s[1..]
      ensures NewestFirst(s) ==> ToNanos(x.dateTime) <= ToNanos(s[0].dateTime)
      ensures DistinctIds(s) ==> x.id != s[0].id
    {
      var j :| 0 <= j < |s[1..]| && s[1..][j] == x;
      assert x == s[j + 1];
    }
  }
}
