/** Trip records as the planner keeps them in the session, the edit form,
    and the outcome each request handler reports (its flash message or the
    page it renders). */
module Trips {
  import opened Wrappers

  /** The create path stores the interests as one `", "`-joined string, the
      edit path as a list of strings; both shapes occur in saved trips. */
  datatype InterestsField = Joined(text: string) | Listed(items: seq<string>)

  /** One trip record. Timestamps and the generated itinerary are opaque
      strings; `updatedAt` is None until the first edit adds `updated_at`. */
  datatype Trip = Trip(
    city: string,
    days: int,
    interests: InterestsField,
    transport: string,
    budget: string,
    groupType: string,
    photos: seq<string>,
    itinerary: string,
    createdAt: string,
    updatedAt: Option<string>)

  /** The trip form fields. `days` is what `int(request.form['days'])`
      produced, or None when `int` raised `ValueError`. */
  datatype TripForm = TripForm(
    city: string,
    days: Option<int>,
    interests: string,
    transport: string,
    budget: string,
    groupType: string)

  /** What a handler reports: its flash message, or the page it renders. */
  datatype Status =
    | ItineraryGenerated(trip: Trip)   // result.html
    | GenerationFailed                 // "Error generating itinerary: ..."
    | NoTripToSave                     // "No trip to save"
    | TripSaved                        // "Trip saved successfully!"
    | TripNotFound                     // "Trip not found"
    | ShowTrip(trip: Trip, id: int)    // trip_detail.html
    | ShowEditForm(trip: Trip, id: int) // edit_trip.html
    | TripUpdated(id: int)             // "Trip updated successfully!"
    | TripDeleted                      // "Trip deleted successfully"
    | InternalError                    // uncaught exception: HTTP 500

  /** The fields that only the create path sets and no edit touches. */
  predicate SameOrigin(a: Trip, b: Trip) {
    a.itinerary == b.itinerary && a.photos == b.photos && a.createdAt == b.createdAt
  }
}
