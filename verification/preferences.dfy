/** `addFacultyPreference` of `FacultyPreferenceController.java`: a faculty
    preference is checked for a faculty name, preferred days and preferred
    times, in that order, and stored only when all three are present. */
module Preferences {
  import opened Wrappers
  import opened JavaText
  import opened Entities

  const FacultyRequired := "Faculty name is required"
  const DaysRequired := "At least one preferred day is required"
  const TimesRequired := "At least one preferred time slot is required"
  const SavedMessage := "Faculty preference added successfully"
  const SaveFailedPrefix := "Failed to save faculty preference: "

  /** The three responses: 400 with a message, 200 with the stored
      preference, or 500 with the store's error. */
  datatype Reply =
    | BadRequest(message: string)
    | Added(message: string, data: FacultyPreference)
    | ServerError(message: string)

  /** A list given and holding at least one element. */
  predicate Given<T>(xs: Option<seq<T>>) {
    xs.Some? && |xs.value| > 0
  }

  /** Every message a preference deserves, in the order of the checks. */
  function Problems(p: FacultyPreference): seq<string> {
    (if p.faculty.None? || p.faculty.value == "" then [FacultyRequired] else [])
    + (if !Given(p.preferredDays) then [DaysRequired] else [])
    + (if !Given(p.preferredTime) then [TimesRequired] else [])
  }

  /** The endpoint, given the preferences stored so far and the failure of
      the store's `save`, if it fails (its exception message may be null).
      Returns the reply and the preferences stored afterwards. */
  function AddFacultyPreference(p: FacultyPreference, store: seq<FacultyPreference>, saveFailure: Option<Option<string>>)
    : (r: (Reply, seq<FacultyPreference>))
    ensures r.0.BadRequest? <==> Problems(p) != []
    ensures r.0.BadRequest? ==> r.0.message == Problems(p)[0]
    ensures r.0.Added? <==> Problems(p) == [] && saveFailure.None?
    ensures r.0.Added? ==> r.0.message == SavedMessage && r.0.data == p && r.1 == store + [p]
    ensures !r.0.Added? ==> r.1 == store
    ensures r.0.ServerError? ==> saveFailure.Some? && r.0.message == SaveFailedPrefix + JavaString(saveFailure.value)
  {
    if p.faculty.None? || p.faculty.value == "" then (BadRequest(FacultyRequired), store)
    else if !Given(p.preferredDays) then (BadRequest(DaysRequired), store)
    else if !Given(p.preferredTime) then (BadRequest(TimesRequired), store)
    else match saveFailure
      case Some(error) => (ServerError(SaveFailedPrefix + JavaString(error)), store)
      case None => (Added(SavedMessage, p), store + [p])
  }
}
