/**
 The add/edit session: opening the form for a new or an existing book,
 editing its fields, hiding it, and saving it.
 */
module EditSession {
  import opened Text
  import opened Books
  import opened Validation
  import opened Remote
  import opened ScreenState
  import opened Catalog

  const CreatedText := "Book created successfully"
  const CreateFailedText := "Failed to create book"
  const UpdatedText := "Book updated successfully"
  const UpdateFailedText := "Failed to update book"

  /** `handleAddBook`: open the form on a blank draft to create a book. */
  function AddBook(s: Screen): (r: Screen)
    ensures SessionOf(r) == Open(Creating, Blank)
    ensures r.books == s.books && r.loading == s.loading
  {
    s.(selectedBook := None, formData := Blank, dialogVisible := true)
  }

  /** `handleEditBook`: open the form on a copy of `b`'s attributes to edit
      `b`; a missing attribute shows as an empty field. */
  function EditBook(s: Screen, b: Book): (r: Screen)
    ensures SessionOf(r) == Open(Editing(b), DraftOf(b))
    ensures r.books == s.books && r.loading == s.loading
  {
    s.(selectedBook := Some(b), formData := DraftOf(b), dialogVisible := true)
  }

  /** A text input's `onChangeText`: field `f` now holds `text`; the other
      fields and the rest of the state stay as they were. */
  function ChangeField(s: Screen, f: Field, text: string): (r: Screen)
    ensures r.formData.Get(f) == text
    ensures forall g :: g != f ==> r.formData.Get(g) == s.formData.Get(g)
    ensures r.(formData := s.formData) == s
  {
    s.(formData := s.formData.With(f, text))
  }

  /** Cancel, the close icon and the back gesture: hide the form. The target
      and draft stay as they are until the next add or edit overwrites them. */
  function Close(s: Screen): (r: Screen)
    ensures SessionOf(r) == Closed
    ensures r.(dialogVisible := s.dialogVisible) == s
  {
    s.(dialogVisible := false)
  }

  /** The request a save sends: an update of the edited book, or a create. */
  function SaveCall(target: Option<Book>, payload: Draft): Call
  {
    match target
    case Some(b) => Update(b.id, payload)
    case None => Create(payload)
  }

  /** The error notice's text for a save that did not succeed: the error's
      message if it has one, else the fallback naming the operation. */
  function FailureText(target: Option<Book>, saved: SaveOutcome): (text: string)
    requires !saved.SaveOk?
    ensures text != ""
    ensures saved.SaveFailed? && saved.message != "" ==> text == saved.message
    ensures saved.SaveNoData? || saved.message == "" ==>
      text == (if target.Some? then UpdateFailedText else CreateFailedText)
  {
    var fallback := if target.Some? then UpdateFailedText else CreateFailedText;
    match saved
    case SaveNoData => fallback
    case SaveFailed(message) => ErrorText(message, fallback)
  }

  /** `handleSubmit` once the save request (if any) has come back with `saved`
      and the refresh that follows a successful save with `refreshed`.

      An invalid draft is reported and nothing else happens. A valid one is
      trimmed and sent as an update of the edited book or as a new book. If
      the response carries data the form is hidden, the list refreshed and a
      success notice shown; otherwise, exactly as if the request had failed,
      the state is left alone and an error notice is shown. */
  function Submit(s: Screen, saved: SaveOutcome, refreshed: ListOutcome): (r: Step)
    ensures r.calls == [] <==> !IsValid(s.formData)
    ensures !IsValid(s.formData) ==>
      r.screen == s && r.notices == [ValidationNotice(Validate(s.formData).error)]
    ensures IsValid(s.formData) ==>
      r.calls[0] == SaveCall(s.selectedBook, TrimDraft(s.formData))
    ensures IsValid(s.formData) && saved.SaveOk? ==>
      && r.calls == [r.calls[0], List]
      && SessionOf(r.screen) == Closed
      && !r.screen.loading
      && r.screen.selectedBook == s.selectedBook
      && r.screen.formData == s.formData
      && r.screen == Fetch(s.(dialogVisible := false), refreshed).screen
      && r.notices == Fetch(s.(dialogVisible := false), refreshed).notices
                      + [SuccessNotice(if s.selectedBook.Some? then UpdatedText else CreatedText)]
    ensures IsValid(s.formData) && !saved.SaveOk? ==>
      && r.calls == [r.calls[0]]
      && r.screen == s
      && r.notices == [ErrorNotice(FailureText(s.selectedBook, saved))]
  {
    match Validate(s.formData)
    case Rejected(e) => Step(s, [], [ValidationNotice(e)])
    case Accepted =>
      var call := SaveCall(s.selectedBook, TrimDraft(s.formData));
      var done := if s.selectedBook.Some? then UpdatedText else CreatedText;
      if saved.SaveOk? then
        var refresh := Fetch(s.(dialogVisible := false), refreshed);
        Step(refresh.screen, [call] + refresh.calls, refresh.notices + [SuccessNotice(done)])
      else
        Step(s, [call], [ErrorNotice(FailureText(s.selectedBook, saved))])
  }

  /** Whatever the service does, every payload a save sends is valid and has
      no leading or trailing white space in any field. */
  lemma SubmitSendsValidPayload(s: Screen, saved: SaveOutcome, refreshed: ListOutcome)
    ensures forall c :: c in Submit(s, saved, refreshed).calls && (c.Create? || c.Update?) ==>
      IsValid(c.payload) && IsTrimmedDraft(c.payload)
  {
    ValidateIgnoresSurroundingSpace(s.formData);
  }

  /** A response without data is handled exactly like a rejection that
      carries no message. */
  lemma SubmitNoDataLikeFailure(s: Screen, refreshed: ListOutcome)
    ensures Submit(s, SaveNoData, refreshed) == Submit(s, SaveFailed(""), refreshed)
  {
  }

  /** A failed save, whatever the reason, leaves the session open on the same
      target and draft so the user can correct and retry. */
  lemma FailedSubmitKeepsSession(s: Screen, saved: SaveOutcome, refreshed: ListOutcome)
    requires !saved.SaveOk?
    ensures SessionOf(Submit(s, saved, refreshed).screen) == SessionOf(s)
    ensures Submit(s, saved, refreshed).screen.books == s.books
  {
  }

  /** Opening a book for editing and saving it untouched sends that book's
      own attributes back, trimmed, as an update of that book. */
  lemma EditThenSaveSendsBookBack(s: Screen, b: Book, saved: SaveOutcome, refreshed: ListOutcome)
    requires IsValid(DraftOf(b))
    ensures Submit(EditBook(s, b), saved, refreshed).calls[0] == Update(b.id, TrimDraft(DraftOf(b)))
  {
  }

  /** The target and draft that cancel leaves behind are never seen again:
      the only ways back into the form, add and edit, overwrite both, so
      reopening after a cancel is the same as reopening without it. */
  lemma ReopenOverwritesHiddenDraft(s: Screen, b: Book)
    ensures AddBook(Close(s)) == AddBook(s)
    ensures EditBook(Close(s), b) == EditBook(s, b)
  {
  }

  /** Adding after editing forgets the edited book: a save then creates. */
  lemma AddForgetsTarget(s: Screen, b: Book)
    ensures AddBook(EditBook(s, b)) == AddBook(s)
  {
  }

  /** Saving with a one-character author never reaches the service, even when
      editing an existing book. */
  lemma ShortAuthorNeverSaved(s: Screen, saved: SaveOutcome, refreshed: ListOutcome)
    requires |Trim(s.formData.author)| == 1
    ensures Submit(s, saved, refreshed).calls == []
    ensures Submit(s, saved, refreshed).screen == s
  {
  }
}
