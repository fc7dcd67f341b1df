/** The session-level request handlers that touch the pending trip:
    `generate_trip` (POST) builds it, `save_trip` copies it into the saved
    list. The language-model call, the clock and the upload names are
    parameters: `completion` is the model's reply (None when the call
    raised), `now` the timestamp text, `uploads` the submitted files with the
    names they would be stored under. */
module Routes {
  import opened Wrappers
  import opened Trips
  import opened Interests
  import opened Uploads
  import opened TripStore

  /** The planner's session: `current_trip` (absent = None) and
      `saved_trips` (absent reads as the empty list). */
  datatype Session = Session(currentTrip: Option<Trip>, savedTrips: seq<Trip>)

  datatype Response = Response(session: Session, status: Status)

  /** The record `generate_trip` builds from the form before storing it. */
  predicate GeneratedFrom(t: Trip, form: TripForm, uploads: seq<Upload>, itinerary: string, now: string) {
    && form.days == Some(t.days)
    && t.city == form.city
    && t.interests == Joined(NormalizeInterests(form.interests))
    && t.transport == form.transport
    && t.budget == form.budget
    && t.groupType == form.groupType
    && t.photos == AcceptedPhotos(uploads)
    && t.itinerary == itinerary
    && t.createdAt == now
    && t.updatedAt == None
  }

  /** `generate_trip` on POST. A failure (an unparsable day count or a
      failed model call) is reported and leaves the session as it was. */
  function GenerateTrip(s: Session, form: TripForm, uploads: seq<Upload>,
                        completion: Option<string>, now: string): (r: Response)
    ensures form.days.None? || completion.None? ==> r == Response(s, GenerationFailed)
    ensures form.days.Some? && completion.Some? ==>
      && r.session.savedTrips == s.savedTrips
      && r.session.currentTrip.Some?
      && GeneratedFrom(r.session.currentTrip.value, form, uploads, completion.value, now)
      && r.status == ItineraryGenerated(r.session.currentTrip.value)
  {
    match form.days
    case None => Response(s, GenerationFailed)
    case Some(d) =>
      match completion
      case None => Response(s, GenerationFailed)
      case Some(text) =>
        var trip := Trip(form.city, d, Joined(NormalizeInterests(form.interests)), form.transport,
                         form.budget, form.groupType, AcceptedPhotos(uploads), text, now, None);
        Response(s.(currentTrip := Some(trip)), ItineraryGenerated(trip))
  }

  /** `save_trip`: with nothing pending nothing changes; otherwise a copy of
      the pending trip, stamped with the save time, is appended. The pending
      trip stays pending. */
  function SaveTrip(s: Session, now: string): (r: Response)
    ensures r.session.currentTrip == s.currentTrip
    ensures s.currentTrip.None? ==> r == Response(s, NoTripToSave)
    ensures s.currentTrip.Some? ==>
      && r.status == TripSaved
      && r.session.savedTrips == s.savedTrips + [s.currentTrip.value.(createdAt := now)]
  {
    var reply := Save(s.currentTrip, s.savedTrips, now);
    Response(s.(savedTrips := reply.trips), reply.status)
  }

  /** Generate, save, then view the new position: the detail page shows the
      submitted city, days, budget, transport and group type, the normalised
      interests, the accepted photos and the save time. */
  lemma GenerateSaveView(s: Session, form: TripForm, uploads: seq<Upload>, itinerary: string,
                         genTime: string, saveTime: string)
    requires form.days.Some?
    ensures var generated := GenerateTrip(s, form, uploads, Some(itinerary), genTime).session;
      var saved := SaveTrip(generated, saveTime).session;
      var shown := View(saved.savedTrips, |s.savedTrips|).status;
      && |saved.savedTrips| == |s.savedTrips| + 1
      && shown.ShowTrip?
      && GeneratedFrom(shown.trip, form, uploads, itinerary, saveTime)
  {
  }

  /** Saving does not consume the pending trip: a second save appends a
      second copy, differing from the first only in its save time. */
  lemma SaveTwice(s: Session, t1: string, t2: string)
    requires s.currentTrip.Some?
    ensures var twice := SaveTrip(SaveTrip(s, t1).session, t2);
      && twice.status == TripSaved
      && twice.session.savedTrips
         == s.savedTrips + [s.currentTrip.value.(createdAt := t1), s.currentTrip.value.(createdAt := t2)]
  {
  }

  /** A session where nothing was generated has nothing to save, and saving
      changes nothing. */
  lemma SaveWithoutPending(saved: seq<Trip>, now: string)
    ensures SaveTrip(Session(None, saved), now) == Response(Session(None, saved), NoTripToSave)
  {
  }

  /** Rejected uploads never reach the photo list and do not abort the
      request: when no file name passes `allowed_file`, generation still
      succeeds, with no photos. */
  lemma RejectedUploadsIgnored(s: Session, form: TripForm, uploads: seq<Upload>,
                               itinerary: string, now: string)
    requires form.days.Some?
    requires forall k :: 0 <= k < |uploads| ==> !AllowedFile(uploads[k].filename)
    ensures var r := GenerateTrip(s, form, uploads, Some(itinerary), now);
      r.status.ItineraryGenerated? && r.status.trip.photos == []
  {
    AcceptedPhotosNoneAllowed(uploads);
  }
}
