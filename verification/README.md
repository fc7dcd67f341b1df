# TripGenius trip store — a Dafny model

TripGenius is a small Flask application: a form collects a city, a number of
days, interests, transport, budget and group type; a language model writes an
itinerary; the result is kept in the browser session as the *current trip*
and can be saved into the session's list of *saved trips*, then viewed,
edited and deleted by position. This project models the logic of `app.py`
that is more than framework plumbing:

- `Text` — the Python string operations the handlers rely on: `str.strip()`
  (with Python's full `isspace` set), ASCII `lower()`, `split(',')`,
  `", ".join(...)` and the last-dot cut of `rsplit('.', 1)`.
- `Uploads` — `allowed_file` and the photo loop of `generate_trip`: only
  names whose text after the last dot, lower-cased, is `png`, `jpg`, `jpeg`
  or `gif` become photos; other files are skipped silently.
- `Interests` — the two normalisations of the interests field: the create
  path stores the stripped comma-separated pieces joined with `", "`; the
  edit path stores the list of stripped pieces.
- `Trips` — the trip record, the submitted form and the outcome each handler
  reports (flash message or rendered page).
- `TripStore` — save / view / edit (GET and POST) / delete on the saved list,
  each a pure function from the list to the new list and the outcome.
- `Routes` — the session (`current_trip`, `saved_trips`) with
  `generate_trip` and `save_trip`, and scenario lemmas across handlers.

The language-model reply, the current time and the names uploaded files
are stored under are parameters: `completion` (None when the model call
raised), `now` (an opaque timestamp string) and `Upload.storedAs`.

Two behaviours of `app.py` that a reader might not expect are modelled as
written:

- `save_trip` appends a copy of `current_trip` to the saved list, and no
  handler removes `current_trip` from the session (app.py:134-136). A second
  save therefore appends a second copy (`Routes.SaveTwice`).
- The number of days is whatever `int()` returns (app.py:93, 157). No
  handler checks that it is positive, so zero and negative counts are stored.

## Model

| member | source | states |
|---|---|---|
| `Uploads.AllowedFileIff` | app.py:80-81 | `allowed_file` (`Uploads.AllowedFile`) accepts a name exactly when some dot in it has no dot after it and the text after that dot, lower-cased, is one of png/jpg/jpeg/gif |
| `Uploads.AllowedFileAccepts` | app.py:80-81 | `A.PNG`, `holiday.photo.Jpeg` and `.gif` are accepted |
| `Uploads.AllowedFileRejects` | app.py:80-81 | `png`, `a.png.exe`, `a.` and the empty name are rejected |
| `Uploads.AllowedFileCaseInsensitive` | app.py:81 | lower-casing the whole file name first never changes the decision |
| `Uploads.Extension` | app.py:81 | `rsplit('.', 1)[1]`: there is an extension exactly when the name contains a dot, and then it is the suffix that follows a dot and contains no dot, i.e. the text after the last dot |
| `Uploads.CollectPhotos` | app.py:101-106 | the photo loop produces exactly the stored names of the accepted uploads, in submission order |
| `Uploads.AcceptedPhotosAppend` | app.py:102-106 | files are judged one at a time: the photos of a concatenated batch are the photos of each part, concatenated |
| `Uploads.AcceptedPhotos` | app.py:101-106 | the photo list has one entry per upload that passes `allowed_file`, so a rejected file adds nothing |
| `Uploads.AcceptedPhotosAround` | app.py:102-106 | an upload that passes `allowed_file` contributes its stored name, placed after the photos of the earlier uploads and before those of the later ones |
| `Uploads.AcceptedPhotosComplete` | app.py:103-106 | the stored name of every upload that passes `allowed_file` is in the photo list |
| `Uploads.AcceptedPhotosSound` | app.py:103-106 | every photo is the stored name of an upload whose name passed `allowed_file` |
| `Uploads.AcceptedPhotosNoneAllowed` | app.py:101-106 | when no upload passes `allowed_file`, the photo list stays empty |
| `Text.Strip` | app.py:94 | `str.strip()` returns a piece of its input with no whitespace at either end, and only whitespace was cut off on both sides |
| `Text.StripUnique` | app.py:94 | any piece of `s` that has no whitespace at its ends and was cut from `s` by removing only whitespace equals `strip(s)`, so strip removes exactly the surrounding whitespace |
| `Text.StripIdempotent` | app.py:94 | stripping twice is stripping once |
| `Text.LastIndexOf` | app.py:81 | finds the last occurrence: the character is there, and not after it; None only when it does not occur |
| `Text.LowerChar` | app.py:81 | lower-casing one character never yields an upper-case ASCII letter; the only characters it changes are `A`-`Z`, each moved 32 code points up to its lower-case letter; a character becomes `.` exactly when it was `.` |
| `Text.Lower` | app.py:81 | `.lower()` keeps the length and lower-cases each character on its own |
| `Text.Split` | app.py:94 | `split(',')` gives at least one piece and no piece contains a comma |
| `Text.SplitCount` | app.py:94 | `split(c)` yields one more piece than the string has occurrences of `c` |
| `Text.JoinSplit` | app.py:94 | joining the pieces of `split(c)` with `c` gives back the original string |
| `Text.SplitJoin` | app.py:94 | splitting a join of `c`-free pieces on `c` gives back the pieces |
| `Text.Join` | app.py:94 | `sep.join(pieces)` of no pieces is empty; otherwise it starts with the first piece and ends right after the last piece, which starts at `Offset`: behind all earlier pieces and one separator per earlier piece |
| `Text.JoinPieceAt` | app.py:94 | piece `k` of `sep.join(pieces)` sits at `Offset(pieces, sep, k)`: the total length of the earlier pieces plus `k` separators |
| `Text.JoinSepBefore` | app.py:94 | every piece of `sep.join(pieces)` after the first is immediately preceded by one `sep` |
| `Interests.InterestList` | app.py:158 | the edit-path list `[x.strip() for x in raw.split(',')]` has one entry per comma-separated piece (the number of commas plus one); entry `k` is piece `k` stripped, with no whitespace at either end and no comma |
| `Interests.SplitJoinedInterests` | app.py:94 | splitting `", ".join(pieces)` on commas and stripping the parts gives the stripped pieces back, when no piece contains a comma |
| `Interests.NormalizeInterests` | app.py:94 | the create-path text splits on commas into exactly the stripped pieces, every piece after the first behind the one space of its `", "` separator; read back the way the edit path reads interests (line 158), it gives the same list as the original form text |
| `Interests.SplitJoinComma` | app.py:94 | splitting `", ".join(pieces)` of comma-free pieces on commas gives the first piece and then each later piece with one space in front |
| `Interests.NormalizeDetermined` | app.py:94 | any text whose comma-split is the stripped pieces with one space before each later piece is the create-path text, so the text stored at line 94 is exactly `", ".join` of the stripped pieces |
| `Interests.NormalizeIdempotent` | app.py:94 | normalising already normalised interests text changes nothing |
| `TripStore.Save` | app.py:127-137 | with no pending trip the list is unchanged and "No trip to save" is reported; otherwise the list grows by exactly one, earlier entries are unchanged, and the last entry is the pending trip with only `created_at` replaced |
| `TripStore.View` | app.py:172-177 | the list is never changed; "Trip not found" is reported exactly when the index is outside `[0, len)`; otherwise the trip at the index is shown |
| `TripStore.EditForm` | app.py:148-169 | GET edit never changes the list; "Trip not found" is reported exactly when the index is out of range; otherwise the form shows the trip at the index |
| `TripStore.Edit` | app.py:148-167 | out of range: list unchanged, "Trip not found". Unparsable days: list unchanged, server error. Otherwise the length is kept and only position `i` changes. That entry takes city/days/interests (as a list)/transport/budget/group type from the form and sets `updated_at`. It keeps the itinerary, photos and `created_at` of the old record |
| `TripStore.Merge` | app.py:154-163 | the `{**old, ...}` record takes city, days, interests (as a list), transport, budget and group type from the form and the edit stamp as `updated_at`, and keeps the old itinerary, photos and `created_at` |
| `TripStore.MergeCharacterized` | app.py:154-163 | the merged record is the only record that takes the form fields and the edit stamp and keeps the old itinerary, photos and creation time |
| `TripStore.Delete` | app.py:180-189 | out of range: list unchanged, "Trip not found"; otherwise the length drops by one, `new[j] == old[j]` for `j < i` and `new[j] == old[j+1]` for `j >= i` |
| `TripStore.DeleteThenReinsert` | app.py:185 | putting the deleted trip back at its position restores the original list |
| `TripStore.DeleteMultiset` | app.py:185 | as a bag, deletion removes exactly one copy of the deleted trip |
| `TripStore.SaveThenDeleteLast` | app.py:132-137 | deleting the last position right after a save restores the list as it was before the save |
| `TripStore.SaveThenView` | app.py:136 | a saved trip is shown at the position it was appended at, with the save time as `created_at` |
| `TripStore.ViewAfterDelete` | app.py:185 | after deleting position `i`, position `j` shows the old `j` when `j < i` and the old `j + 1` otherwise |
| `TripStore.DeleteLastTwice` | app.py:182-185 | deleting the last position twice: the second request reports "Trip not found" and changes nothing |
| `TripStore.EditThenView` | app.py:154-167 | after an edit, viewing the same position shows the merged record |
| `TripStore.EditIdempotent` | app.py:154-164 | submitting the same edit twice with the same time stamp gives the same list as submitting it once |
| `TripStore.EditsCommute` | app.py:154-164 | edits of two different positions can be applied in either order |
| `TripStore.EditKeepsOrigins` | app.py:154-163 | no edit changes any trip's itinerary, photos or creation time, and no edit changes the length |
| `Routes.GenerateTrip` | app.py:89-122 | an unparsable day count or a failed model call is reported and leaves the session unchanged. Otherwise the saved list is untouched and the current trip is the submitted fields with joined interests, the accepted photos, the model's text and the creation time |
| `Routes.SaveTrip` | app.py:127-139 | the pending trip stays pending; with none, "No trip to save" is reported and the session is unchanged; otherwise "Trip saved successfully!" is reported and the saved list gains the pending trip stamped with the save time as its last entry |
| `Routes.GenerateSaveView` | app.py:91-137 | generate, save and view the new position: it shows the submitted city/days/transport/budget/group type, the normalised interests, the accepted photos and the save time |
| `Routes.SaveTwice` | app.py:132-137 | saving twice without generating again appends two copies of the pending trip, differing only in `created_at` |
| `Routes.SaveWithoutPending` | app.py:128-130 | with no current trip, save reports "No trip to save" and leaves the session unchanged |
| `Routes.RejectedUploadsIgnored` | app.py:101-106 | if no uploaded name is allowed, generation still succeeds and the trip has no photos |

## Left out

- The itinerary prompt and the language-model call (`ChatGroq`, `itinerary_prompt`, app.py:39-78 and 109). These are an external network service with nondeterministic output. The reply is the `completion` parameter, and None stands for any exception the call raises.
- Writing uploaded files, the `uuid4` prefix and `secure_filename` (app.py:104-105). These are file-system I/O, randomness, and a library routine that is not part of this model. The stored name is the opaque `Upload.storedAs`. The `file and ...` test is modelled as a non-empty file name; `allowed_file` rejects the empty name anyway.
- `datetime.now()`, `isoformat`/`strftime` and the `datetimeformat` filter (app.py:24-37, 113, 135, 162). These are the clock and date formatting. Timestamps are opaque strings passed in as `now`.
- How `int()` parses the day count. The form carries the outcome of `int()` as `Option<int>`, and its accepted syntax is not modelled.
- A missing form field, which makes `request.form[...]` raise `KeyError`. In `generate_trip` the reads sit inside the `try` (app.py:91-97), so the `except Exception` at app.py:119-122 catches the error and reports a generation failure. In the model's terms that is `GenerationFailed` with the session unchanged, the same outcome as an unparsable day count. In `edit_trip` (app.py:155-161) the error is not caught. Flask answers HTTP 400, or, in debug mode (as app.py:207 starts the app), treats it as an unhandled error and answers HTTP 500. The model's form always carries every field, so neither case is a separate input.
- The upload size cap `MAX_CONTENT_LENGTH` (app.py:20). The request body is parsed on the first `request.form` access (app.py:92), inside the `try` of `generate_trip`. An oversized upload therefore raises there, and the `except` at app.py:119-122 reports it as a generation failure, which is `GenerationFailed` in the model. The model has no notion of body size, so it does not derive this case.
- Flask routing, session storage, templates, redirects and flash rendering (app.py:1-22, 83-86, 141-144, 191-204). The outcome of each handler is a `Status` value. `home`, `about`, `my_trips` (it only reads the list) and the no-op `contact` handler are not modelled.
- The `<int:trip_id>` URL converter, which never passes a negative id. Ids are unbounded integers, and the handlers' `trip_id < 0` guard is kept as written.
- Concurrent requests on one session. Each handler is one sequential state transition.
- Debug `print` output and the front-end script `static/js/script.js` (menu, flash fade-out, animation, confirm dialog). Neither has any effect on the trip data.
- Text.Lower: maps only ASCII `A`-`Z` to lower case, whereas Python's `str.lower()` covers all of Unicode (and can change lengths). The only non-ASCII characters whose lower case reaches ASCII are U+212A (to `k`) and U+0130 (to `i` followed by U+0307), and neither result is a name over the letters of png/jpg/jpeg/gif. So `allowed_file`'s decision is the same.
- Text.LowerChar: changes only `A`-`Z`, whereas Python also lower-cases non-ASCII letters (for example `É` to `é`). This has the same reason and the same harmlessness for `allowed_file` as `Text.Lower` above.

