/** The saved-trips list of a session and the four operations the request
    handlers perform on it: save (append the pending trip), view, edit and
    delete by position. Every operation returns the new list together with
    what the handler reports; a positional operation whose index fails the
    bounds check returns the list untouched. */
module TripStore {
  import opened Wrappers
  import opened Trips
  import opened Interests

  datatype Reply = Reply(trips: seq<Trip>, status: Status)

  /** The handlers' guard, `not (trip_id < 0 or trip_id >= len(trips))`. */
  predicate InRange(trips: seq<Trip>, id: int) {
    0 <= id < |trips|
  }

  /** `save_trip`: append a copy of the pending trip, stamped with the save
      time, or refuse when no trip is pending. */
  function Save(current: Option<Trip>, trips: seq<Trip>, now: string): (r: Reply)
    ensures current.None? ==> r.trips == trips && r.status == NoTripToSave
    ensures current.Some? ==>
      && r.status == TripSaved
      && |r.trips| == |trips| + 1
      && r.trips[..|trips|] == trips
      && r.trips[|trips|] == current.value.(createdAt := now)
  {
    match current
    case None => Reply(trips, NoTripToSave)
    case Some(t) => Reply(trips + [t.(createdAt := now)], TripSaved)
  }

  /** `view_trip`: show the trip at a position. */
  function View(trips: seq<Trip>, id: int): (r: Reply)
    ensures r.trips == trips
    ensures r.status == TripNotFound <==> !InRange(trips, id)
    ensures InRange(trips, id) ==> r.status == ShowTrip(trips[id], id)
  {
    if id < 0 || id >= |trips| then Reply(trips, TripNotFound)
    else Reply(trips, ShowTrip(trips[id], id))
  }

  /** `edit_trip` on GET: show the edit form for the trip at a position. */
  function EditForm(trips: seq<Trip>, id: int): (r: Reply)
    ensures r.trips == trips
    ensures r.status == TripNotFound <==> !InRange(trips, id)
    ensures InRange(trips, id) ==> r.status == ShowEditForm(trips[id], id)
  {
    if id < 0 || id >= |trips| then Reply(trips, TripNotFound)
    else Reply(trips, ShowEditForm(trips[id], id))
  }

  /** `t` carries the submitted form fields and the edit stamp. */
  predicate FromForm(t: Trip, form: TripForm, days: int, now: string) {
    && t.city == form.city
    && t.days == days
    && t.interests == Listed(InterestList(form.interests))
    && t.transport == form.transport
    && t.budget == form.budget
    && t.groupType == form.groupType
    && t.updatedAt == Some(now)
  }

  /** `{**old, 'city': ..., ..., 'updated_at': now}`: the form fields and the
      edit stamp over the prior record, whose itinerary, photos and creation
      time survive. */
  function Merge(prior: Trip, form: TripForm, days: int, now: string): (t: Trip)
    ensures FromForm(t, form, days, now)
    ensures SameOrigin(t, prior)
  {
    prior.(city := form.city, days := days, interests := Listed(InterestList(form.interests)),
         transport := form.transport, budget := form.budget, groupType := form.groupType,
         updatedAt := Some(now))
  }

  /** The merged record is the one record that takes the form fields and keeps
      the prior record's itinerary, photos and creation time: the two halves
      together leave no field undetermined. */
  lemma MergeCharacterized(prior: Trip, form: TripForm, days: int, now: string, t: Trip)
    ensures FromForm(t, form, days, now) && SameOrigin(t, prior) <==> t == Merge(prior, form, days, now)
  {
  }

  /** `edit_trip` on POST: merge the form over the trip at a position. */
  function Edit(trips: seq<Trip>, id: int, form: TripForm, now: string): (r: Reply)
    ensures !InRange(trips, id) ==> r.trips == trips && r.status == TripNotFound
    ensures InRange(trips, id) && form.days.None? ==> r.trips == trips && r.status == InternalError
    ensures InRange(trips, id) && form.days.Some? ==>
      && r.status == TripUpdated(id)
      && |r.trips| == |trips|
      && FromForm(r.trips[id], form, form.days.value, now)
      && SameOrigin(r.trips[id], trips[id])
      && (forall j :: 0 <= j < |trips| && j != id ==> r.trips[j] == trips[j])
  {
    if id < 0 || id >= |trips| then Reply(trips, TripNotFound)
    else match form.days
      case None => Reply(trips, InternalError)
      case Some(d) => Reply(trips[id := Merge(trips[id], form, d, now)], TripUpdated(id))
  }

  /** `delete_trip`: remove the trip at a position; later trips move down. */
  function Delete(trips: seq<Trip>, id: int): (r: Reply)
    ensures !InRange(trips, id) ==> r.trips == trips && r.status == TripNotFound
    ensures InRange(trips, id) ==>
      && r.status == TripDeleted
      && |r.trips| == |trips| - 1
      && (forall j :: 0 <= j < id ==> r.trips[j] == trips[j])
      && (forall j :: id <= j < |r.trips| ==> r.trips[j] == trips[j + 1])
  {
    if id < 0 || id >= |trips| then Reply(trips, TripNotFound)
    else Reply(trips[..id] + trips[id + 1..], TripDeleted)
  }

  /** Deletion loses exactly the deleted trip: putting it back where it was
      restores the list. */
  lemma DeleteThenReinsert(trips: seq<Trip>, id: int)
    requires InRange(trips, id)
    ensures var rest := Delete(trips, id).trips;
      rest[..id] + [trips[id]] + rest[id..] == trips
  {
    var rest := Delete(trips, id).trips;
    assert rest[..id] == trips[..id];
    assert rest[id..] == trips[id + 1..];
    assert trips == trips[..id] + [trips[id]] + trips[id + 1..];
  }

  /** As a bag of trips, deletion removes one copy of the deleted trip. */
  lemma DeleteMultiset(trips: seq<Trip>, id: int)
    requires InRange(trips, id)
    ensures multiset(Delete(trips, id).trips) + multiset{trips[id]} == multiset(trips)
  {
    DeleteThenReinsert(trips, id);
    var rest := Delete(trips, id).trips;
    assert rest == rest[..id] + rest[id..];
  }

  /** Saving and then deleting the last position undoes the save. */
  lemma SaveThenDeleteLast(current: Trip, trips: seq<Trip>, now: string)
    ensures var saved := Save(Some(current), trips, now).trips;
      Delete(saved, |trips|) == Reply(trips, TripDeleted)
  {
    var saved := Save(Some(current), trips, now).trips;
    assert saved[..|trips|] + saved[|trips| + 1..] == trips;
  }

  /** A saved trip can be viewed at the position it was appended at. */
  lemma SaveThenView(current: Trip, trips: seq<Trip>, now: string)
    ensures View(Save(Some(current), trips, now).trips, |trips|).status
      == ShowTrip(current.(createdAt := now), |trips|)
  {
  }

  /** Positions are not stable across deletes: after deleting `id`, viewing
      position `j` shows what was at `j` before when `j < id`, and what was
      at `j + 1` otherwise. */
  lemma ViewAfterDelete(trips: seq<Trip>, id: int, j: int)
    requires InRange(trips, id)
    requires 0 <= j < |trips| - 1
    ensures View(Delete(trips, id).trips, j).status
      == ShowTrip(if j < id then trips[j] else trips[j + 1], j)
  {
  }

  /** Deleting the last trip twice: the second request finds nothing and
      changes nothing. */
  lemma DeleteLastTwice(trips: seq<Trip>)
    requires |trips| > 0
    ensures var once := Delete(trips, |trips| - 1);
      && once.status == TripDeleted
      && Delete(once.trips, |trips| - 1) == Reply(once.trips, TripNotFound)
  {
  }

  /** An edit is visible to the next view of the same position. */
  lemma EditThenView(trips: seq<Trip>, id: int, form: TripForm, d: int, now: string)
    requires InRange(trips, id) && form.days == Some(d)
    ensures View(Edit(trips, id, form, now).trips, id).status
      == ShowTrip(Merge(trips[id], form, d, now), id)
  {
  }

  /** Submitting the same edit twice (with the same stamp) is the same as
      submitting it once. */
  lemma EditIdempotent(trips: seq<Trip>, id: int, form: TripForm, now: string)
    ensures Edit(Edit(trips, id, form, now).trips, id, form, now).trips == Edit(trips, id, form, now).trips
  {
  }

  /** Edits of two different positions do not interfere. */
  lemma EditsCommute(trips: seq<Trip>, i: int, fi: TripForm, j: int, fj: TripForm, now: string)
    requires i != j
    ensures Edit(Edit(trips, i, fi, now).trips, j, fj, now).trips
         == Edit(Edit(trips, j, fj, now).trips, i, fi, now).trips
  {
  }

  /** No edit changes any trip's itinerary, photos or creation time. */
  lemma EditKeepsOrigins(trips: seq<Trip>, id: int, form: TripForm, now: string)
    ensures var after := Edit(trips, id, form, now).trips;
      |after| == |trips| && forall j :: 0 <= j < |trips| ==> SameOrigin(after[j], trips[j])
  {
  }
}
