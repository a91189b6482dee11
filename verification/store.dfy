/**
 * The two tables behind `PetDao` and `PetActivityDao`: `pets` and
 * `pet_activities`, each keyed by an auto-generated id, with the foreign key
 * from activities to pets and its cascading delete.
 */
module PetStore {
  import opened Wrappers
  import opened Calendar
  import opened PetRecord
  import opened ActivityRecord

  /** The store refused a write (`SQLiteConstraintException`). */
  datatype StoreError = ConstraintViolation

  // ---------------------------------------------------------------------
  // Reading a table in key order

  lemma MinimumExists(keys: set<int>)
    requires keys != {}
    ensures exists m :: m in keys && forall k :: k in keys ==> m <= k
    decreases |keys|
  {
    assert (forall k :: k !in keys) ==> keys == {};
    var x :| x in keys;
    if keys != {x} {
      var rest := keys - {x};
      MinimumExists(rest);
      assert keys == rest + {x};
      var m :| m in rest && forall k :: k in rest ==> m <= k;
      var least := if x < m then x else m;
      assert least in keys && forall k :: k in keys ==> least <= k;
    } else {
      assert forall k :: k in keys ==> x <= k;
    }
  }

  function MinKey(keys: set<int>): (m: int)
    requires keys != {}
    ensures m in keys && forall k :: k in keys ==> m <= k
  {
    MinimumExists(keys);
    var m :| m in keys && forall k :: k in keys ==> m <= k;
    m
  }

  /** The keys of a table in ascending order, the order in which SQLite scans a rowid table. */
  function KeysAscending(keys: set<int>): (r: seq<int>)
    ensures forall k :: k in r <==> k in keys
    ensures forall i, j :: 0 <= i < j < |r| ==> r[i] < r[j]
    decreases keys
  {
    if keys == {} then []
    else
      var m := MinKey(keys);
      [m] + KeysAscending(keys - {m})
  }

  /** The rows stored under `keys`, in that order. */
  function Rows<T>(table: map<int, T>, keys: seq<int>): (r: seq<T>)
    requires forall i :: 0 <= i < |keys| ==> keys[i] in table
    ensures |r| == |keys|
    ensures forall i :: 0 <= i < |keys| ==> r[i] == table[keys[i]]
  {
    if keys == [] then [] else [table[keys[0]]] + Rows(table, keys[1..])
  }

  // ---------------------------------------------------------------------
  // Table invariants

  /** Every pet is stored under its own id, which is neither 0 nor at or above the next generated id. */
  ghost predicate PetsKeyed(pets: map<int, Pet>, nextId: int) {
    forall k :: k in pets ==> pets[k].id == k && k != UnsetId && k < nextId
  }

  /** Every activity is stored under its own id, as `PetsKeyed`, and refers to a stored pet. */
  ghost predicate ActivitiesKeyed(activities: map<int, PetActivity>, nextId: int, pets: set<int>) {
    forall k :: k in activities ==>
      activities[k].id == k && k != UnsetId && k < nextId && activities[k].petId in pets
  }

  // ---------------------------------------------------------------------
  // Activity query: WHERE petId = :petId ORDER BY dateTime DESC

  /** What the query promises: exactly the pet's activities, each once, latest first. */
  ghost predicate IsActivityQueryResult(activities: map<int, PetActivity>, petId: int, r: seq<PetActivity>) {
    && (forall a :: a in r <==> a in activities.Values && a.petId == petId)
    && DistinctIds(r)
    && NewestFirst(r)
  }

  /** The elements of `s` that belong to pet `petId`, in their order. */
  function OfPet(s: seq<PetActivity>, petId: int): (r: seq<PetActivity>)
    ensures forall a :: a in r <==> a in s && a.petId == petId
  {
    if s == [] then []
    else if s[0].petId == petId then [s[0]] + OfPet(s[1..], petId)
    else OfPet(s[1..], petId)
  }

  /** Filtering keeps the order, latest first, and the distinctness of the rows. */
  lemma {:induction false} OfPetKeepsOrder(s: seq<PetActivity>, petId: int)
    ensures NewestFirst(s) ==> NewestFirst(OfPet(s, petId))
    ensures DistinctIds(s) ==> DistinctIds(OfPet(s, petId))
  {
    if s != [] {
      NewestFirstTail(s);
      OfPetKeepsOrder(s[1..], petId);
      if s[0].petId == petId {
        PrependNewest(s[0], OfPet(s[1..], petId));
      }
    }
  }

  /** `s` with `a` placed before the first element that is not later than it. */
  function InsertNewestFirst(a: PetActivity, s: seq<PetActivity>): (r: seq<PetActivity>)
    requires NewestFirst(s)
    ensures NewestFirst(r)
    ensures |r| == |s| + 1
    ensures forall x :: x in r <==> x == a || x in s
  {
    if s == [] || ToNanos(s[0].dateTime) <= ToNanos(a.dateTime) then
      PrependNewest(a, s);
      [a] + s
    else
      var rest := InsertNewestFirst(a, s[1..]);
      NewestFirstTail(s);
      PrependNewest(s[0], rest);
      [s[0]] + rest
  }

  /** A non-empty sequence's rows are its head and the rows of its tail. */
  lemma MultisetOfCons<T>(s: seq<T>)
    requires s != []
    ensures multiset(s) == multiset{s[0]} + multiset(s[1..])
  {
    assert s == [s[0]] + s[1..];
  }

  /** Insertion adds exactly the new row: every other row stays as often as before. */
  lemma {:induction false} InsertNewestFirstContents(a: PetActivity, s: seq<PetActivity>)
    requires NewestFirst(s)
    ensures multiset(InsertNewestFirst(a, s)) == multiset(s) + multiset{a}
  {
    if s != [] && ToNanos(s[0].dateTime) > ToNanos(a.dateTime) {
      NewestFirstTail(s);
      InsertNewestFirstContents(a, s[1..]);
      MultisetOfCons(s);
    }
  }

  /** Inserting a row whose id is new keeps the ids distinct. */
  lemma {:induction false} InsertKeepsIdsDistinct(a: PetActivity, s: seq<PetActivity>)
    requires NewestFirst(s)
    ensures DistinctIds(s) && (forall y :: y in s ==> y.id != a.id) ==> DistinctIds(InsertNewestFirst(a, s))
  {
    if DistinctIds(s) && (forall y :: y in s ==> y.id != a.id) {
      if s == [] || ToNanos(s[0].dateTime) <= ToNanos(a.dateTime) {
        PrependNewest(a, s);
      } else {
        NewestFirstTail(s);
        InsertKeepsIdsDistinct(a, s[1..]);
        var rest := InsertNewestFirst(a, s[1..]);
        PrependNewest(s[0], rest);
      }
    }
  }

  /** Insertion sort by `dateTime`, latest first; rows with equal times keep their order. */
  function SortNewestFirst(s: seq<PetActivity>): (r: seq<PetActivity>)
    ensures NewestFirst(r)
    ensures |r| == |s|
    ensures forall x :: x in r <==> x in s
    ensures DistinctIds(s) ==> DistinctIds(r)
  {
    if s == [] then []
    else
      var rest := SortNewestFirst(s[1..]);
      NewestFirstTail(s);
      InsertKeepsIdsDistinct(s[0], rest);
      InsertNewestFirst(s[0], rest)
  }

  /** Sorting is a permutation: every row stays as often as before. */
  lemma {:induction false} SortNewestFirstIsPermutation(s: seq<PetActivity>)
    ensures multiset(SortNewestFirst(s)) == multiset(s)
  {
    if s != [] {
      SortNewestFirstIsPermutation(s[1..]);
      InsertNewestFirstContents(s[0], SortNewestFirst(s[1..]));
      MultisetOfCons(s);
    }
  }

  /** `getActivitiesForPet`, on a snapshot of the activity table. */
  function ActivitiesOfPet(activities: map<int, PetActivity>, petId: int): (r: seq<PetActivity>)
    requires forall k :: k in activities ==> activities[k].id == k
    ensures IsActivityQueryResult(activities, petId, r)
  {
    var rows := AllRows(activities);
    var mine := OfPet(rows, petId);
    OfPetKeepsOrder(rows, petId);
    var r := SortNewestFirst(mine);
    assert forall a :: a in r <==> a in activities.Values && a.petId == petId by {
      forall a ensures a in r <==> a in activities.Values && a.petId == petId {
        assert a in r <==> a in mine;
        assert a in mine <==> a in rows && a.petId == petId;
      }
    }
    r
  }

  /** Every row of a table keyed by id, each once, in ascending id order. */
  function AllRows(activities: map<int, PetActivity>): (r: seq<PetActivity>)
    requires forall k :: k in activities ==> activities[k].id == k
    ensures DistinctIds(r)
    ensures forall a :: a in r <==> a in activities.Values
  {
    var keys := KeysAscending(activities.Keys);
    RowsIncludeTable(activities, keys);
    RowsWithinTable(activities, keys);
    RowsDistinct(activities, keys);
    Rows(activities, keys)
  }

  /** Reading every key of a table gives back each of its rows. */
  lemma RowsIncludeTable<T>(activities: map<int, T>, keys: seq<int>)
    requires forall i :: 0 <= i < |keys| ==> keys[i] in activities
    requires forall k :: k in activities ==> k in keys
    ensures forall a :: a in activities.Values ==> a in Rows(activities, keys)
  {
    var rows := Rows(activities, keys);
    forall a | a in activities.Values ensures a in rows {
      assert (forall k :: k in activities ==> activities[k] != a) ==> a !in activities.Values;
      var k :| k in activities && activities[k] == a;
      assert k in keys;
      var i :| 0 <= i < |keys| && keys[i] == k;
      assert rows[i] == a;
    }
  }

  /** Reading keys of a table gives back only its rows. */
  lemma RowsWithinTable<T>(activities: map<int, T>, keys: seq<int>)
    requires forall i :: 0 <= i < |keys| ==> keys[i] in activities
    ensures forall a :: a in Rows(activities, keys) ==> a in activities.Values
  {
    var rows := Rows(activities, keys);
    forall a | a in rows ensures a in activities.Values {
      var i :| 0 <= i < |rows| && rows[i] == a;
      assert keys[i] in activities;
    }
  }

  /** Rows read under strictly ascending keys of a table keyed by id have distinct ids. */
  lemma RowsDistinct(activities: map<int, PetActivity>, keys: seq<int>)
    requires forall k :: k in activities ==> activities[k].id == k
    requires forall i :: 0 <= i < |keys| ==> keys[i] in activities
    requires forall i, j :: 0 <= i < j < |keys| ==> keys[i] < keys[j]
    ensures DistinctIds(Rows(activities, keys))
  {
    var rows := Rows(activities, keys);
    forall i | 0 <= i < |rows| ensures rows[i].id == keys[i] {
      assert keys[i] in activities;
    }
  }

  /** The cascade of deleting pet `petId`: its activities go, all others stay as they are. */
  function CascadeDelete(activities: map<int, PetActivity>, petId: int): (r: map<int, PetActivity>)
    ensures forall k :: k in r ==> k in activities && r[k] == activities[k] && r[k].petId != petId
    ensures forall k :: k in activities && activities[k].petId != petId ==> k in r
  {
    map k | k in activities && activities[k].petId != petId :: activities[k]
  }

  /** After the cascade, every remaining activity refers to a pet that is still stored. */
  lemma CascadeKeepsForeignKey(activities: map<int, PetActivity>, nextId: int, pets: set<int>, petId: int)
    requires ActivitiesKeyed(activities, nextId, pets)
    ensures ActivitiesKeyed(CascadeDelete(activities, petId), nextId, pets - {petId})
  {
  }

  /** Pets read under strictly ascending keys of a table keyed by id come by ascending id. */
  lemma PetRowsAscending(pets: map<int, Pet>, keys: seq<int>)
    requires forall k :: k in pets ==> pets[k].id == k
    requires forall i :: 0 <= i < |keys| ==> keys[i] in pets
    requires forall i, j :: 0 <= i < j < |keys| ==> keys[i] < keys[j]
    ensures var r := Rows(pets, keys); forall i, j :: 0 <= i < j < |r| ==> r[i].id < r[j].id
  {
    var r := Rows(pets, keys);
    forall i | 0 <= i < |r| ensures r[i].id == keys[i] {
      assert keys[i] in pets;
    }
  }

  /** The query for a pet that is not stored finds nothing, since every activity refers to a stored pet. */
  lemma NoActivitiesOfMissingPet(activities: map<int, PetActivity>, nextId: int, pets: set<int>, petId: int, r: seq<PetActivity>)
    requires ActivitiesKeyed(activities, nextId, pets)
    requires IsActivityQueryResult(activities, petId, r)
    requires petId !in pets
    ensures r == []
  {
    forall a | a in activities.Values
      ensures a.petId in pets
    {
      assert (forall k :: k in activities ==> activities[k] != a) ==> a !in activities.Values;
      var k :| k in activities && activities[k] == a;
    }
    assert |r| > 0 ==> r[0] in r && r[0].petId in pets;
  }

  // ---------------------------------------------------------------------
  // The database

  /**
   * The app's database: both tables and the next id each table's AUTOINCREMENT
   * will hand out (one past the largest id the table has ever held).
   */
  class PetDatabase {
    var pets: map<int, Pet>
    var activities: map<int, PetActivity>
    var nextPetId: int
    var nextActivityId: int

    ghost predicate Valid()
      reads this
    {
      && 1 <= nextPetId && 1 <= nextActivityId
      && PetsKeyed(pets, nextPetId)
      && ActivitiesKeyed(activities, nextActivityId, pets.Keys)
    }

    constructor ()
      ensures Valid()
      ensures pets == map[] && activities == map[]
    {
      pets := map[];
      activities := map[];
      nextPetId := 1;
      nextActivityId := 1;
    }

    /** `PetDao.getAllPets`: every stored pet once; this model lists them by ascending id. */
    function GetAllPets(): (r: seq<Pet>)
      reads this
      requires Valid()
      ensures forall p :: p in r <==> p in pets.Values
      ensures forall i, j :: 0 <= i < j < |r| ==> r[i].id < r[j].id
    {
      var keys := KeysAscending(pets.Keys);
      RowsIncludeTable(pets, keys);
      RowsWithinTable(pets, keys);
      PetRowsAscending(pets, keys);
      Rows(pets, keys)
    }

    /** The point lookup the view-model calls as `getPetById`. */
    function GetPetById(id: int): (r: Option<Pet>)
      reads this
      requires Valid()
      ensures r.Some? <==> id in pets
      ensures r.Some? ==> r.value == pets[id] && r.value.id == id
    {
      if id in pets then Some(pets[id]) else None
    }

    /** `PetActivityDao.getActivitiesForPet`. */
    function GetActivitiesForPet(petId: int): (r: seq<PetActivity>)
      reads this
      requires Valid()
      ensures IsActivityQueryResult(activities, petId, r)
      ensures petId !in pets ==> r == []
    {
      var r := ActivitiesOfPet(activities, petId);
      if petId in pets then r
      else
        NoActivitiesOfMissingPet(activities, nextActivityId, pets.Keys, petId, r);
        r
    }

    /**
     * `PetDao.insertPet`: a record with id 0 gets the next generated id; a record
     * with an id already in the table is refused. Returns the row's id.
     */
    method InsertPet(p: Pet) returns (r: Result<int, StoreError>)
      requires Valid()
      modifies this
      ensures Valid()
      ensures activities == old(activities)
      ensures nextActivityId == old(nextActivityId)
      ensures p.id != UnsetId && p.id in old(pets) ==> r == Failure(ConstraintViolation) && pets == old(pets)
      ensures p.id == UnsetId ==> r == Success(old(nextPetId)) && old(nextPetId) !in old(pets)
      ensures p.id != UnsetId && p.id !in old(pets) ==> r == Success(p.id)
      ensures r.Success? ==> pets == old(pets)[r.value := p.(id := r.value)]
      ensures nextPetId == if r.Success? && old(nextPetId) <= r.value then r.value + 1 else old(nextPetId)
    {
      if p.id == UnsetId {
        var id := nextPetId;
        pets := pets[id := p.(id := id)];
        nextPetId := nextPetId + 1;
        r := Success(id);
      } else if p.id in pets {
        r := Failure(ConstraintViolation);
      } else {
        pets := pets[p.id := p];
        if nextPetId <= p.id {
          nextPetId := p.id + 1;
        }
        r := Success(p.id);
      }
    }

    /** `PetDao.updatePet`: replaces the row with the record's id; no row, no change. */
    method UpdatePet(p: Pet)
      requires Valid()
      modifies this
      ensures Valid()
      ensures pets == if p.id in old(pets) then old(pets)[p.id := p] else old(pets)
      ensures activities == old(activities)
      ensures nextPetId == old(nextPetId) && nextActivityId == old(nextActivityId)
    {
      if p.id in pets {
        pets := pets[p.id := p];
      }
    }

    /** `PetDao.deletePet`: removes the row with the record's id, and by cascade that pet's activities. */
    method DeletePet(p: Pet)
      requires Valid()
      modifies this
      ensures Valid()
      ensures pets == old(pets) - {p.id}
      ensures activities == CascadeDelete(old(activities), p.id)
      ensures nextPetId == old(nextPetId) && nextActivityId == old(nextActivityId)
    {
      CascadeKeepsForeignKey(activities, nextActivityId, pets.Keys, p.id);
      pets := pets - {p.id};
      activities := CascadeDelete(activities, p.id);
    }

    /**
     * `PetActivityDao.insertActivity`: refused when the pet does not exist or the
     * id is taken; otherwise stored, under the next generated id when it is 0.
     */
    method InsertActivity(a: PetActivity) returns (r: Result<int, StoreError>)
      requires Valid()
      modifies this
      ensures Valid()
      ensures pets == old(pets) && nextPetId == old(nextPetId)
      ensures r.Failure? <==> a.petId !in old(pets) || (a.id != UnsetId && a.id in old(activities))
      ensures r.Failure? ==> activities == old(activities)
      ensures r.Success? && a.id == UnsetId ==> r.value == old(nextActivityId) && old(nextActivityId) !in old(activities)
      ensures r.Success? && a.id != UnsetId ==> r.value == a.id
      ensures r.Success? ==> activities == old(activities)[r.value := a.(id := r.value)]
      ensures nextActivityId == if r.Success? && old(nextActivityId) <= r.value then r.value + 1 else old(nextActivityId)
    {
      if a.petId !in pets || (a.id != UnsetId && a.id in activities) {
        r := Failure(ConstraintViolation);
      } else if a.id == UnsetId {
        var id := nextActivityId;
        activities := activities[id := a.(id := id)];
        nextActivityId := nextActivityId + 1;
        r := Success(id);
      } else {
        activities := activities[a.id := a];
        if nextActivityId <= a.id {
          nextActivityId := a.id + 1;
        }
        r := Success(a.id);
      }
    }

    /**
     * `PetActivityDao.updateActivity`: replaces the row with the record's id and
     * reports how many rows changed; refused when the new `petId` is not a pet.
     */
    method UpdateActivity(a: PetActivity) returns (r: Result<int, StoreError>)
      requires Valid()
      modifies this
      ensures Valid()
      ensures pets == old(pets) && nextPetId == old(nextPetId) && nextActivityId == old(nextActivityId)
      ensures a.id !in old(activities) ==> r == Success(0) && activities == old(activities)
      ensures a.id in old(activities) && a.petId !in pets ==> r == Failure(ConstraintViolation) && activities == old(activities)
      ensures a.id in old(activities) && a.petId in pets ==> r == Success(1) && activities == old(activities)[a.id := a]
    {
      if a.id !in activities {
        r := Success(0);
      } else if a.petId !in pets {
        r := Failure(ConstraintViolation);
      } else {
        activities := activities[a.id := a];
        r := Success(1);
      }
    }

    /** `PetActivityDao.deleteActivity`: removes only the row with the record's id. */
    method DeleteActivity(a: PetActivity)
      requires Valid()
      modifies this
      ensures Valid()
      ensures activities == old(activities) - {a.id}
      ensures pets == old(pets) && nextPetId == old(nextPetId) && nextActivityId == old(nextActivityId)
    {
      activities := activities - {a.id};
    }
  }
}
