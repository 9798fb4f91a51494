/**
 Deleting a book (`handleDelete`): a confirmation prompt, then the delete
 request, then a refresh of the list when, and only when, the delete went
 through.
 */
module DeleteFlow {
  import opened Remote
  import opened ScreenState
  import opened Catalog

  const DeletedText := "Book deleted successfully"
  const DeleteFailedText := "Failed to delete book"

  /** The button the user presses on the confirmation prompt. */
  datatype Confirmation = Cancelled | Confirmed

  /** `handleDelete(id)` once the user has answered the prompt with `choice`,
      the delete request (if sent) has come back with `deleted` and the
      refresh that follows a successful delete with `refreshed`. The success
      notice is shown before the refresh is issued. */
  function RequestDelete(s: Screen, id: string, choice: Confirmation,
                         deleted: DeleteOutcome, refreshed: ListOutcome): (r: Step)
    ensures r.notices != [] && r.notices[0] == ConfirmDelete
    ensures choice == Cancelled ==> r.screen == s && r.calls == [] && r.notices == [ConfirmDelete]
    ensures choice == Confirmed ==> r.calls != [] && r.calls[0] == Delete(id)
    ensures choice == Confirmed && deleted.Deleted? ==>
      && r.calls == [Delete(id), List]
      && r.notices == [ConfirmDelete, SuccessNotice(DeletedText)] + Fetch(s, refreshed).notices
      && r.screen == Fetch(s, refreshed).screen
    ensures choice == Confirmed && deleted.DeleteFailed? ==>
      && r.calls == [Delete(id)]
      && r.screen == s
      && r.notices == [ConfirmDelete, ErrorNotice(ErrorText(deleted.message, DeleteFailedText))]
  {
    match choice
    case Cancelled => Step(s, [], [ConfirmDelete])
    case Confirmed =>
      match deleted
      case Deleted =>
        var refresh := Fetch(s, refreshed);
        Step(refresh.screen, [Delete(id)] + refresh.calls,
             [ConfirmDelete, SuccessNotice(DeletedText)] + refresh.notices)
      case DeleteFailed(message) =>
        Step(s, [Delete(id)], [ConfirmDelete, ErrorNotice(ErrorText(message, DeleteFailedText))])
  }

  /** The list is refreshed after a delete exactly when the delete succeeded,
      and never before the delete request. */
  lemma RefreshOnlyAfterSuccessfulDelete(s: Screen, id: string, choice: Confirmation,
                                         deleted: DeleteOutcome, refreshed: ListOutcome)
    ensures List in RequestDelete(s, id, choice, deleted, refreshed).calls <==>
      choice == Confirmed && deleted.Deleted?
    ensures var calls := RequestDelete(s, id, choice, deleted, refreshed).calls;
      List in calls ==> calls == [Delete(id), List]
  {
  }

  /** A delete never touches the edit session. */
  lemma DeleteKeepsSession(s: Screen, id: string, choice: Confirmation,
                           deleted: DeleteOutcome, refreshed: ListOutcome)
    ensures SessionOf(RequestDelete(s, id, choice, deleted, refreshed).screen) == SessionOf(s)
  {
    FetchKeepsSession(s, refreshed);
  }
}
