# Book management screen, modelled in Dafny

This project models the book-management screen of a React Native catalog
client (`src/screens/BookScreen.tsx`). The screen keeps five pieces of state:
the cached book list, a loading flag, the visibility of the add/edit form,
the book being edited (if any) and the form's four text fields. It talks to a
remote book service through four calls: list, create, update and delete.

The model is a pure state record (`ScreenState.Screen`) and one transition
function per handler. A transition returns a `Step`: the next state, the
requests sent to the service (`Remote.Call`) and the notices shown to the
user (`Alert.alert`), each in order. The service is not modelled. Every
transition that awaits a request takes that request's outcome as a
parameter: data, a response without data, or a rejection with a message.

Modules, in dependency order:

- `Text` (text.dfy): JavaScript's `trim` and `length`. Every ECMAScript
  white-space and line-terminator code point is trimmed. `length` counts
  UTF-16 units, as JavaScript does.
- `Books` (books.dfy): the `Book` record, the form's `Draft`, and the
  trimmed payload.
- `Validation` (validation.dfy): `validateForm`.
- `Remote` (remote.dfy): calls and outcomes.
- `ScreenState` (state.dfy): the state record and notices. It also gives the
  Closed/Open view of the edit session.
- `Catalog` (catalog.dfy): `fetchBooks` and the mount-time fetch.
- `EditSession` (session.dfy): add, edit, field edits, cancel and submit.
- `DeleteFlow` (deletion.dfy): `handleDelete`.
- `BookScreen` (screen.dfy): user actions applied in sequence, properties
  of whole runs, and two worked scenarios.

Behaviour worth noting:

- Validation stops at the first failing check and shows one notice for it.
- Cancel, the close icon and the back gesture only hide the form. The draft
  and the edited book are kept until the next add or edit overwrites them.
- Editing a book whose author is "A" and saving sends no update. The author
  fails the 3-character minimum even in edit mode.
- After a successful save, the refresh runs before the success notice. After
  a successful delete, the success notice comes before the refresh.

## Model

| member | source | states |
|---|---|---|
| Text.Trim | src/screens/BookScreen.tsx:143-148 | the trimmed string has no white space at either end and is no longer than its input |
| Text.TrimStrips | src/screens/BookScreen.tsx:143-148 | what trim keeps is an infix of the input with only white space around it |
| Text.TrimUnique | src/screens/BookScreen.tsx:143-148 | that infix is unique: any trimmed infix with only white space around it is the result of trim |
| Text.TrimIdempotent | src/screens/BookScreen.tsx:143-148 | trimming an already trimmed field changes nothing |
| Text.TrimEmptyIffAllSpace | src/screens/BookScreen.tsx:99-101 | a trimmed field is empty (falsy) exactly when the field is all white space |
| Text.Utf16Length | src/screens/BookScreen.tsx:103 | `length` counts between one and two units per character and is zero only for the empty string |
| Books.DraftOf | src/screens/BookScreen.tsx:85-90 | a record opens as a blank form exactly when all four of its attributes are missing or empty |
| Books.TrimDraft | src/screens/BookScreen.tsx:143-148 | the payload is the field-wise trim of the form, so no payload field has surrounding white space |
| Books.TrimDraftIdempotent | src/screens/BookScreen.tsx:143-148 | the payload of a payload is the payload |
| Books.WithCommutes | src/screens/BookScreen.tsx:253-286 | typing into two different fields gives the same form in either order |
| Books.WithOverwrites | src/screens/BookScreen.tsx:253-286 | a later edit of a field replaces an earlier one |
| Validation.Validate | src/screens/BookScreen.tsx:98-135 | accepts iff the trimmed title and author have length at least 3, the description at least 10 and the genre at least 1; a reported error fails its check and no earlier check fails |
| Validation.FirstFailureUnique | src/screens/BookScreen.tsx:98-135 | any check that fails with every earlier check passing is exactly the one reported |
| Validation.ValidateIgnoresSurroundingSpace | src/screens/BookScreen.tsx:98-148 | the trimmed payload gets the same verdict as the form, so a sent payload is itself valid |
| Validation.ValidPayloadFieldsNonEmpty | src/screens/BookScreen.tsx:129-132 | a valid form yields a payload with no empty field |
| Validation.ShortAuthorRejected | src/screens/BookScreen.tsx:112-115 | a one-character trimmed author is rejected as too short whenever the title passes |
| Validation.EmojiTitleMeetsMinimum | src/screens/BookScreen.tsx:103 | a letter plus one emoji meets the 3-character title minimum, because `length` counts UTF-16 units |
| Remote.ErrorText | src/screens/BookScreen.tsx:60 | the notice is never blank when the fallback is not; it is the error's own message whenever there is one, and the fallback otherwise |
| ScreenState.SessionOf | src/screens/BookScreen.tsx:39-48 | the session is closed iff the form is hidden; when open, it edits iff a book is selected, on the current form fields |
| Catalog.Fetch | src/screens/BookScreen.tsx:50-64 | one list request; the list is replaced only by response data; a failure keeps the old list and shows an error; loading ends false; nothing else changes |
| Catalog.Mount | src/screens/BookScreen.tsx:66-68 | mount sends one list request and ends with the form closed, a blank draft and loading false |
| Catalog.FetchKeepsSession | src/screens/BookScreen.tsx:50-64 | a refresh never touches the form, the selected book or the form's visibility |
| Catalog.FetchNoDataLikeFailure | src/screens/BookScreen.tsx:55-63 | a response without data leaves the same state as a failed request |
| Catalog.FetchIdempotent | src/screens/BookScreen.tsx:50-64 | refreshing twice with the same response is refreshing once |
| EditSession.AddBook | src/screens/BookScreen.tsx:70-79 | opens the session to create, on a blank draft; the list and loading flag are untouched |
| EditSession.EditBook | src/screens/BookScreen.tsx:81-91 | opens the session to edit the given book, on a copy of its attributes; the list is untouched |
| EditSession.ChangeField | src/screens/BookScreen.tsx:253-286 | a field edit sets exactly that field; the other fields and the rest of the state are unchanged |
| EditSession.Close | src/screens/BookScreen.tsx:289-296 | cancel (also the close icon and back gesture, lines 233 and 241) closes the session and changes nothing else |
| EditSession.FailureText | src/screens/BookScreen.tsx:162-184 | a failed save always shows a non-empty message: the error's own message when it has one, otherwise "Failed to update book" when editing and "Failed to create book" when adding |
| EditSession.Submit | src/screens/BookScreen.tsx:137-193 | no request iff the form is invalid, and then nothing changes; a valid form sends the trimmed payload, as an update of the selected book when one is selected and as a create otherwise; success closes the form and refreshes, leaving exactly the state and notices of that refresh followed by the success notice; any other outcome keeps the state and shows one error |
| EditSession.SubmitSendsValidPayload | src/screens/BookScreen.tsx:139-148 | every create or update payload sent is valid and trimmed, whatever the service answers |
| EditSession.SubmitNoDataLikeFailure | src/screens/BookScreen.tsx:158-167 | a save response without data is handled exactly like a rejection without a message |
| EditSession.FailedSubmitKeepsSession | src/screens/BookScreen.tsx:162-184 | a failed save keeps the session open on the same target and draft, and the list unchanged |
| EditSession.EditThenSaveSendsBookBack | src/screens/BookScreen.tsx:143-155 | opening a valid book and saving it untouched sends an update of that book with its own trimmed attributes |
| EditSession.ReopenOverwritesHiddenDraft | src/screens/BookScreen.tsx:70-91 | the target and draft a cancel leaves behind are never seen again: add or edit after a cancel gives the same state as without it |
| EditSession.AddForgetsTarget | src/screens/BookScreen.tsx:70-79 | add after edit is the same as add alone: the edited book is forgotten |
| EditSession.ShortAuthorNeverSaved | src/screens/BookScreen.tsx:112-115 | with a one-character author, a save sends nothing and changes nothing, even in edit mode |
| DeleteFlow.RequestDelete | src/screens/BookScreen.tsx:195-212 | a prompt is always shown; cancel sends nothing and changes nothing; confirm sends the delete first; success shows a notice and then refreshes; failure shows an error and keeps the state |
| DeleteFlow.RefreshOnlyAfterSuccessfulDelete | src/screens/BookScreen.tsx:201-208 | the list is requested iff the delete was confirmed and succeeded, and only after the delete |
| DeleteFlow.DeleteKeepsSession | src/screens/BookScreen.tsx:195-212 | deleting never touches the edit session |
| BookScreen.Apply | src/screens/BookScreen.tsx:214-227 | form actions send no requests; only save and delete can change the list |
| BookScreen.EnabledDeleteIsListed | src/screens/BookScreen.tsx:222-225 | a delete the screen offers (no spinner, form hidden, button on a listed book) is always of a book on the list shown |
| BookScreen.Launch | src/screens/BookScreen.tsx:66-68 | the first request of every session of the screen is the list request |
| BookScreen.RunSendsOnlyValidPayloads | src/screens/BookScreen.tsx:137-155 | across any sequence of actions and outcomes, every create or update sent carries a valid, trimmed payload |
| BookScreen.ApplyTarget | src/screens/BookScreen.tsx:70-91 | an action keeps, clears or sets the selected book to the one it opens, and updates only the selected book |
| BookScreen.RunUpdatesOnlyOpenedBooks | src/screens/BookScreen.tsx:152-155 | every update sent targets a book opened for editing during the run, or the one open at its start |
| BookScreen.ApplyDeletes | src/screens/BookScreen.tsx:195-212 | an action deletes only the book whose deletion it confirms |
| BookScreen.RunDeletesOnlyConfirmed | src/screens/BookScreen.tsx:195-212 | every delete sent in a run was confirmed on the prompt by some action of the run |
| BookScreen.FormActionsAreLocal | src/screens/BookScreen.tsx:253-296 | any run of add, edit, typing and cancel sends nothing and leaves the list as it was |
| BookScreen.LoadingStaysDown | src/screens/BookScreen.tsx:61-63 | once loading is false it is false again after every action of any run (between actions, not while a refresh is pending) |
| BookScreen.EditThenCancel | src/screens/BookScreen.tsx:81-91 | edit followed by cancel sends nothing, keeps the list, closes the session and keeps the copied draft |
| BookScreen.RetitledDraftRejected | src/screens/BookScreen.tsx:112-115 | a draft titled "New Title" with author "A" fails with "Author must be at least 3 characters" |
| BookScreen.ShortAuthorEditIsRejected | src/screens/BookScreen.tsx:152-155 | editing a stored book whose author is "A", retitling it and saving sends no update and keeps the session open on the edited draft |
| BookScreen.HelloWorldTrims | src/screens/BookScreen.tsx:143-148 | the form " Hello World " / "Jane Doe" / ... / "Fantasy\n" is valid and trims to the intended book |
| BookScreen.CreateHelloWorld | src/screens/BookScreen.tsx:169-177 | adding that book sends exactly one create with the trimmed fields, then a list request, and closes the form on the refreshed list |

## Left out

- Rendering: JSX, styles, `Modal`, `FlatList`, the loading spinner and `console.log` calls. They are presentation only.
- The service functions in `../services/api` are not part of this model. Their outcomes are parameters.
- Concurrency: async interleaving, the missing guard against a double submit, and the un-awaited `fetchBooks()` after a delete (line 205). Every flow is taken to run to completion before the next action.
- A service call that rejects with `null` or `undefined` as its reason. Reading `error.message` (lines 60, 167 and 183) then throws a TypeError:
  - in `fetchBooks`, the promise rejects after the `finally` has cleared loading, and no notice is shown;
  - in `handleSubmit`, the TypeError reaches the outer catch at lines 186-192, whose notice shows its text;
  - after a successful save, the `await fetchBooks()` at lines 160 and 176 rejects into the inner catch at 165 or 181, so an error notice replaces the success notice while the form is already hidden.

  The model assumes every rejection carries an object reason, so its message is a string (`""` when absent). The outer catch at lines 186-192 is reachable only in this case. The catch at lines 92-95 cannot be reached from a well-formed `Book`.
- A book without `_id`: `Book.id` is always present.
- The content of a successful create or update response. The screen only checks that `data` is present.
- HomeScreen's own list fetch, BookDetailScreen and ProfileScreen. They are I/O and rendering outside this screen.
- BookScreen.Apply: it states only which actions can send requests or change the list. The handlers' own contracts state the rest.
- BookScreen.Run: it accepts every action in every state, although the screen offers only the actions `BookScreen.Enabled` describes (lines 230-331): no action while the spinner is shown, typing, cancel and save only while the form is shown, add, edit and delete only while it is hidden, and edit and delete only for listed books. The run lemmas quantify over all these sequences, so they also hold for the ones the screen allows.
- The intermediate `loading = true` of each refresh (line 52), during which only the spinner is shown (lines 310-312). Each refresh is one step that ends with loading false, so BookScreen.LoadingStaysDown speaks of the states between actions only.
- BookScreen.Launch: it states only that the first request is the list request. The rest follows from Catalog.Mount and BookScreen.Run.
