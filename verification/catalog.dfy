/**
 The catalog refresh (`fetchBooks`): one list request, whose data replaces the
 list when there is any, with the loading flag raised around it.
 */
module Catalog {
  import opened Books
  import opened Remote
  import opened ScreenState

  const FetchFailedText := "Failed to fetch books"

  /** `fetchBooks` once `getAllBooks` has come back with `listed`. Only a
      response with data changes the list; a failure shows a notice; the
      loading flag is down afterwards whatever happened, and nothing else
      in the state changes. */
  function Fetch(s: Screen, listed: ListOutcome): (r: Step)
    ensures r.calls == [List]
    ensures !r.screen.loading
    ensures listed.ListData? ==> r.screen.books == listed.data
    ensures !listed.ListData? ==> r.screen.books == s.books
    ensures r.screen.(books := s.books, loading := s.loading) == s
    ensures listed.ListFailed? ==> r.notices == [ErrorNotice(ErrorText(listed.message, FetchFailedText))]
    ensures !listed.ListFailed? ==> r.notices == []
  {
    var loading := s.(loading := true);
    match listed
    case ListData(data) => Step(loading.(books := data, loading := false), [List], [])
    case ListNoData => Step(loading.(loading := false), [List], [])
    case ListFailed(message) =>
      Step(loading.(loading := false), [List], [ErrorNotice(ErrorText(message, FetchFailedText))])
  }

  /** The screen after mount: the first list request has resolved. */
  function Mount(listed: ListOutcome): (r: Step)
    ensures r.calls == [List]
    ensures !r.screen.loading
    ensures SessionOf(r.screen) == Closed
    ensures r.screen.selectedBook == None && r.screen.formData == Blank
    ensures listed.ListData? ==> r.screen.books == listed.data
    ensures !listed.ListData? ==> r.screen.books == []
  {
    Fetch(Initial, listed)
  }

  /** A refresh never touches the edit session. */
  lemma FetchKeepsSession(s: Screen, listed: ListOutcome)
    ensures SessionOf(Fetch(s, listed).screen) == SessionOf(s)
    ensures Fetch(s, listed).screen.formData == s.formData
    ensures Fetch(s, listed).screen.selectedBook == s.selectedBook
  {
  }

  /** A response without data leaves the state exactly as a failed request
      does: the cached list stays. Only the notice differs. */
  lemma FetchNoDataLikeFailure(s: Screen, message: string)
    ensures Fetch(s, ListNoData).screen == Fetch(s, ListFailed(message)).screen == s.(loading := false)
  {
  }

  /** Refreshing twice with the same response is refreshing once. */
  lemma FetchIdempotent(s: Screen, listed: ListOutcome)
    ensures Fetch(Fetch(s, listed).screen, listed).screen == Fetch(s, listed).screen
  {
  }
}
