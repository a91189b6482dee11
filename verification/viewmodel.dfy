/**
 * The pet view-model: the single writer of the pet database. It normalises
 * names, converts birthdays to epoch days, keeps the pet images in the app's
 * own files, tracks the selected pet, and hands reminders to the work queue
 * when an activity is added.
 *
 * The background coroutine of each operation runs here to completion, one
 * operation at a time. The clock readings and the outcome of copying an image
 * are parameters.
 */
module ViewModel {
  import opened Wrappers
  import opened Calendar
  import opened Text
  import opened PetRecord
  import opened ActivityRecord
  import opened PetStore
  import opened Reminders
  import opened Profile

  const UnknownPetName: string := "Unknown Pet"

  /** `name.ifBlank { "Unknown Pet" }`: a stored name is never blank. */
  function NormalizeName(name: string): (r: string)
    ensures !IsBlank(r)
    ensures IsBlank(name) ==> r == UnknownPetName
    ensures !IsBlank(name) ==> r == name
  {
    assert !IsWhitespace(UnknownPetName[0]);
    if IsBlank(name) then UnknownPetName else name
  }

  /** Normalising an already stored name leaves it alone. */
  lemma NormalizeNameIdempotent(name: string)
    ensures NormalizeName(NormalizeName(name)) == NormalizeName(name)
  {
  }

  /** A content URI picked by the user: only its scheme matters to the model. */
  datatype Uri = Uri(scheme: Option<string>, path: string)

  const ContentScheme: string := "content"

  /**
   * The image path a new pet gets: the copy of the picked image, when one was
   * picked (`copied` is what the copy returned: a fresh path, or None when it
   * failed).
   */
  function NewPetImage(source: Option<Uri>, copied: Option<string>): (r: Option<string>)
    ensures source.None? ==> r.None?
    ensures source.Some? ==> r == copied
  {
    match source
    case None => None
    case Some(_) => copied
  }

  /** A content URI means a newly picked image; anything else keeps the old one. */
  predicate PicksNewImage(source: Option<Uri>) {
    source.Some? && source.value.scheme == Some(ContentScheme)
  }

  /** The image path an edited pet gets: the new copy, or the current pet's path. */
  function UpdatedImage(current: Option<Pet>, source: Option<Uri>, copied: Option<string>): (r: Option<string>)
    ensures PicksNewImage(source) ==> r == copied
    ensures !PicksNewImage(source) && current.Some? ==> r == current.value.imageUri
    ensures !PicksNewImage(source) && current.None? ==> r.None?
  {
    if PicksNewImage(source) then copied
    else match current
      case None => None
      case Some(p) => p.imageUri
  }

  /** The files left after replacing an image: the new copy added, the current pet's old file removed. */
  function FilesAfterImageUpdate(files: set<string>, current: Option<Pet>, source: Option<Uri>, copied: Option<string>): (r: set<string>)
    ensures !PicksNewImage(source) ==> r == files
    ensures PicksNewImage(source) && copied.Some? && (current.None? || current.value.imageUri != copied)
      ==> copied.value in r
    ensures forall f :: f in r && f !in files ==> copied == Some(f)
    ensures forall f :: f in files && (current.None? || current.value.imageUri != Some(f)) ==> f in r
    ensures (PicksNewImage(source) && current.Some? && current.value.imageUri.Some? && current.value.imageUri != copied)
      ==> current.value.imageUri.value !in r
  {
    if !PicksNewImage(source) then files
    else
      var added := if copied.Some? then files + {copied.value} else files;
      if current.Some? && current.value.imageUri.Some? then added - {current.value.imageUri.value} else added
  }

  /** `ensureSelection`: select the first pet when nothing is selected. */
  function SelectionAfter(selected: Option<int>, pets: seq<Pet>): (r: Option<int>)
    ensures selected.Some? ==> r == selected
    ensures r.Some? <==> selected.Some? || pets != []
    ensures selected.None? && pets != [] ==> r == Some(pets[0].id)
  {
    if selected.None? && pets != [] then Some(pets[0].id) else selected
  }

  lemma SelectionAfterIdempotent(selected: Option<int>, pets: seq<Pet>)
    ensures SelectionAfter(SelectionAfter(selected, pets), pets) == SelectionAfter(selected, pets)
  {
  }

  /** With no pet selected, ensuring a selection makes the profile show the first pet of the list. */
  lemma EnsuredSelectionShowsFirstPet(pets: seq<Pet>)
    requires pets != []
    ensures FindCurrentPet(pets, SelectionAfter(None, pets)) == Some(pets[0])
  {
  }

  class PetViewModel {
    const db: PetDatabase
    /** The selected pet id (`selectedPetId`), None when nothing is selected. */
    var selectedPetId: Option<int>
    /** The paths of the image files in the app's internal storage. */
    var files: set<string>
    /** The work requests enqueued so far, in order. */
    var workQueue: seq<WorkRequest>

    /** Every stored pet has a non-blank name. */
    ghost predicate NamesPresent()
      reads this, db
    {
      forall id :: id in db.pets ==> !IsBlank(db.pets[id].name)
    }

    ghost predicate Valid()
      reads this, db
    {
      db.Valid() && NamesPresent()
    }

    /** Every stored image path names an existing file, and no two pets share one. */
    ghost predicate ImagesStored()
      reads this, db
    {
      && (forall id :: id in db.pets && db.pets[id].imageUri.Some? ==> db.pets[id].imageUri.value in files)
      && (forall i, j :: i in db.pets && j in db.pets && i != j && db.pets[i].imageUri.Some?
            ==> db.pets[i].imageUri != db.pets[j].imageUri)
    }

    constructor (db: PetDatabase, files: set<string>)
      requires db.Valid()
      requires forall id :: id in db.pets ==> !IsBlank(db.pets[id].name)
      ensures Valid()
      ensures this.db == db && this.files == files
      ensures selectedPetId == None && workQueue == []
    {
      this.db := db;
      this.files := files;
      selectedPetId := None;
      workQueue := [];
    }

    /** `allPets`: every stored pet, by ascending id. */
    function AllPets(): (r: seq<Pet>)
      reads this, db
      requires Valid()
      ensures forall p :: p in r <==> p in db.pets.Values
      ensures forall p :: p in r ==> !IsBlank(p.name)
    {
      db.GetAllPets()
    }

    /** `petActivities`: the selected pet's activities, newest first; none while nothing is selected. */
    function PetActivities(): (r: seq<PetActivity>)
      reads this, db
      requires Valid()
      ensures selectedPetId.None? ==> r == []
      ensures selectedPetId.Some? ==> IsActivityQueryResult(db.activities, selectedPetId.value, r)
    {
      match selectedPetId
      case None => []
      case Some(id) => db.GetActivitiesForPet(id)
    }

    /** `addPet`: store a new pet under a fresh id, with its image copied into the app's files. */
    method AddPet(name: string, birthday: LocalDate, source: Option<Uri>, copied: Option<string>)
      requires Valid()
      requires copied.Some? ==> copied.value !in files
      modifies this, db
      ensures Valid()
      ensures var id := old(db.nextPetId);
        && id !in old(db.pets)
        && db.pets == old(db.pets)[id := Pet(id, NormalizeName(name), ToEpochDay(birthday), NewPetImage(source, copied))]
        && Birthday(db.pets[id]) == birthday
      ensures db.activities == old(db.activities)
      ensures db.nextPetId == old(db.nextPetId) + 1 && db.nextActivityId == old(db.nextActivityId)
      ensures files == if source.Some? && copied.Some? then old(files) + {copied.value} else old(files)
      ensures selectedPetId == old(selectedPetId) && workQueue == old(workQueue)
      ensures old(ImagesStored()) ==> ImagesStored()
    {
      var image := NewPetImage(source, copied);
      if image.Some? {
        files := files + {image.value};
      }
      var r := db.InsertPet(Pet(UnsetId, NormalizeName(name), ToEpochDay(birthday), image));
      OfEpochDayOfToEpochDay(birthday);
    }

    /**
     * `updatePet`: rewrite the pet's name, birthday and image. A newly picked
     * image replaces the old file; otherwise the current path is kept. A pet
     * that is no longer stored stays absent.
     */
    method UpdatePet(id: int, name: string, birthday: LocalDate, source: Option<Uri>, copied: Option<string>)
      requires Valid()
      requires copied.Some? ==> copied.value !in files
      modifies this, db
      ensures Valid()
      ensures var current := if id in old(db.pets) then Some(old(db.pets[id])) else None;
        && files == FilesAfterImageUpdate(old(files), current, source, copied)
        && db.pets == if id in old(db.pets)
          then old(db.pets)[id := Pet(id, NormalizeName(name), ToEpochDay(birthday), UpdatedImage(current, source, copied))]
          else old(db.pets)
      ensures id in db.pets ==> Birthday(db.pets[id]) == birthday && !IsBlank(db.pets[id].name)
      ensures db.activities == old(db.activities)
      ensures db.nextPetId == old(db.nextPetId) && db.nextActivityId == old(db.nextActivityId)
      ensures selectedPetId == old(selectedPetId) && workQueue == old(workQueue)
      ensures old(ImagesStored()) ==> ImagesStored()
    {
      var current := db.GetPetById(id);
      var image := UpdatedImage(current, source, copied);
      files := FilesAfterImageUpdate(files, current, source, copied);
      db.UpdatePet(Pet(id, NormalizeName(name), ToEpochDay(birthday), image));
      OfEpochDayOfToEpochDay(birthday);
    }

    /**
     * `deletePet`: remove the pet's image file, the pet and, by the cascade,
     * its activities; clear the selection when it was this pet.
     */
    method DeletePet(pet: Pet)
      requires Valid()
      modifies this, db
      ensures Valid()
      ensures files == if pet.imageUri.Some? then old(files) - {pet.imageUri.value} else old(files)
      ensures db.pets == old(db.pets) - {pet.id}
      ensures db.activities == CascadeDelete(old(db.activities), pet.id)
      ensures db.GetActivitiesForPet(pet.id) == []
      ensures db.nextPetId == old(db.nextPetId) && db.nextActivityId == old(db.nextActivityId)
      ensures selectedPetId == if old(selectedPetId) == Some(pet.id) then None else old(selectedPetId)
      ensures workQueue == old(workQueue)
      ensures old(ImagesStored()) && (pet.id in old(db.pets) && old(db.pets[pet.id]).imageUri == pet.imageUri)
        ==> ImagesStored()
    {
      if pet.imageUri.Some? {
        files := files - {pet.imageUri.value};
      }
      db.DeletePet(pet);
      if selectedPetId == Some(pet.id) {
        selectedPetId := None;
      }
    }

    /** `ensureSelection`. */
    method EnsureSelection(pets: seq<Pet>)
      modifies this`selectedPetId
      ensures selectedPetId == SelectionAfter(old(selectedPetId), pets)
    {
      if selectedPetId.None? && pets != [] {
        selectedPetId := Some(pets[0].id);
      }
    }

    /** The `pet_name` a reminder carries: the stored name, when the pet exists. */
    function PetName(petId: int): (r: Option<string>)
      reads this, db
      requires Valid()
      ensures r.Some? <==> petId in db.pets
      ensures r.Some? ==> r.value == db.pets[petId].name && !IsBlank(r.value)
    {
      match db.GetPetById(petId)
      case None => None
      case Some(p) => Some(p.name)
    }

    /** `scheduleNotification`: enqueue the immediate and the delayed reminders for an activity. */
    method ScheduleNotification(petId: int, dateTime: LocalDateTime, activityType: string, nowThirty: LocalDateTime, nowDay: LocalDateTime)
      requires Valid()
      modifies this`workQueue
      ensures workQueue == old(workQueue)
        + PlanReminders(dateTime, nowThirty, nowDay, Payload(PetName(petId), activityType, FormatActivityTime(dateTime)))
    {
      var payload := Payload(PetName(petId), activityType, FormatActivityTime(dateTime));
      workQueue := workQueue + PlanReminders(dateTime, nowThirty, nowDay, payload);
    }

    /**
     * `addPetActivity`: store the activity under a fresh id, then schedule its
     * reminders. When the pet is gone the insert fails, nothing is stored and
     * nothing is scheduled.
     */
    method AddPetActivity(petId: int, activityType: string, description: Option<string>, dateTime: LocalDateTime,
                          nowThirty: LocalDateTime, nowDay: LocalDateTime) returns (r: Result<int, StoreError>)
      requires Valid()
      modifies this, db
      ensures Valid()
      ensures r.Failure? <==> petId !in old(db.pets)
      ensures r.Failure? ==> db.activities == old(db.activities) && workQueue == old(workQueue)
      ensures r.Success? ==>
        && r.value == old(db.nextActivityId)
        && r.value !in old(db.activities)
        && petId in db.pets
        && db.activities == old(db.activities)[r.value := PetActivity(r.value, petId, activityType, description, dateTime)]
        && workQueue == old(workQueue) + PlanReminders(dateTime, nowThirty, nowDay,
             Payload(Some(db.pets[petId].name), activityType, FormatActivityTime(dateTime)))
      ensures db.pets == old(db.pets) && files == old(files) && selectedPetId == old(selectedPetId)
      ensures db.nextPetId == old(db.nextPetId)
      ensures db.nextActivityId == if r.Success? then old(db.nextActivityId) + 1 else old(db.nextActivityId)
    {
      r := db.InsertActivity(PetActivity(UnsetId, petId, activityType, description, dateTime));
      if r.Success? {
        ghost var stored := PetActivity(r.value, petId, activityType, description, dateTime);
        assert db.activities[r.value] == stored;
        assert stored in db.activities.Values;
        assert PetName(petId) == Some(db.pets[petId].name);
        ScheduleNotification(petId, dateTime, activityType, nowThirty, nowDay);
      }
    }

    /** `updatePetActivity`: rewrite a stored activity; a missing one is left absent. */
    method UpdatePetActivity(activity: PetActivity)
      requires Valid()
      modifies db
      ensures Valid()
      ensures db.activities == if activity.id in old(db.activities) && activity.petId in old(db.pets)
        then old(db.activities)[activity.id := activity] else old(db.activities)
      ensures db.pets == old(db.pets)
      ensures db.nextPetId == old(db.nextPetId) && db.nextActivityId == old(db.nextActivityId)
    {
      var _ := db.UpdateActivity(activity);
    }

    /** `deletePetActivity`: remove the activity with this id. */
    method DeletePetActivity(activity: PetActivity)
      requires Valid()
      modifies db
      ensures Valid()
      ensures db.activities == old(db.activities) - {activity.id}
      ensures db.pets == old(db.pets)
      ensures db.nextPetId == old(db.nextPetId) && db.nextActivityId == old(db.nextActivityId)
    {
      db.DeleteActivity(activity);
    }
  }
}
