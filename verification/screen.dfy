/**
 The book screen as a whole: the user's actions, each paired with the
 outcomes of the requests it awaits, applied one after another from mount.
 The properties here are about whole runs: what can ever be sent to the
 service, whatever the user does and whatever the service answers.
 */
module BookScreen {
  import opened Text
  import opened Books
  import opened Validation
  import opened Remote
  import opened ScreenState
  import opened Catalog
  import opened EditSession
  import opened DeleteFlow

  /** One user action on the screen, with the outcomes it will see. */
  datatype Event =
    | AddPressed
    | EditPressed(book: Book)
    | FieldChanged(field: Field, text: string)
    | Dismissed
    | SavePressed(saved: SaveOutcome, refreshed: ListOutcome)
    | DeletePressed(id: string, choice: Confirmation, deleted: DeleteOutcome, refreshed: ListOutcome)

  /** The handler the action triggers. */
  function Apply(s: Screen, e: Event): (r: Step)
    ensures e.AddPressed? || e.EditPressed? || e.FieldChanged? || e.Dismissed? ==> r.calls == []
    ensures r.screen.books != s.books ==> e.SavePressed? || e.DeletePressed?
  {
    match e
    case AddPressed => Quiet(AddBook(s))
    case EditPressed(b) => Quiet(EditBook(s, b))
    case FieldChanged(f, text) => Quiet(ChangeField(s, f, text))
    case Dismissed => Quiet(Close(s))
    case SavePressed(saved, refreshed) => Submit(s, saved, refreshed)
    case DeletePressed(id, choice, deleted, refreshed) => RequestDelete(s, id, choice, deleted, refreshed)
  }

  /** The actions the screen offers in state `s`. While loading only the
      spinner is shown. The form's inputs, cancel and save exist only while
      the form is shown; the form covers the main view, whose add button and
      per-book edit and delete buttons exist only for listed books. */
  predicate Enabled(s: Screen, e: Event) {
    && !s.loading
    && match e
       case FieldChanged(_, _) => s.dialogVisible
       case Dismissed => s.dialogVisible
       case SavePressed(_, _) => s.dialogVisible
       case AddPressed => !s.dialogVisible
       case EditPressed(b) => !s.dialogVisible && b in s.books
       case DeletePressed(id, _, _, _) => !s.dialogVisible && exists b :: b in s.books && b.id == id
  }

  /** A delete the screen offers is always of a book on the list shown. */
  lemma EnabledDeleteIsListed(s: Screen, e: Event)
    requires Enabled(s, e)
    ensures forall c :: c in Apply(s, e).calls && c.Delete? ==>
      exists b :: b in s.books && b.id == c.id
  {
  }

  /** The actions applied in order; the calls and notices are concatenated. */
  function Run(s: Screen, events: seq<Event>): (r: Step)
    ensures events == [] ==> r == Quiet(s)
    decreases |events|
  {
    if events == [] then Quiet(s)
    else
      var first := Apply(s, events[0]);
      var rest := Run(first.screen, events[1..]);
      Step(rest.screen, first.calls + rest.calls, first.notices + rest.notices)
  }

  /** The screen from mount: the first list request resolves with `listed`,
      then the user acts. */
  function Launch(listed: ListOutcome, events: seq<Event>): (r: Step)
    ensures |r.calls| > 0 && r.calls[0] == List
  {
    var mounted := Mount(listed);
    var rest := Run(mounted.screen, events);
    Step(rest.screen, mounted.calls + rest.calls, mounted.notices + rest.notices)
  }

  /** A call that carries a payload carries a valid, trimmed one. */
  predicate SendsValidPayload(c: Call) {
    (c.Create? || c.Update?) ==> IsValid(c.payload) && IsTrimmedDraft(c.payload)
  }

  /** No run, whatever the user types and whatever the service answers, ever
      sends an invalid or untrimmed book to the service. */
  lemma {:induction false} RunSendsOnlyValidPayloads(s: Screen, events: seq<Event>)
    ensures forall c :: c in Run(s, events).calls ==> SendsValidPayload(c)
    decreases |events|
  {
    if events != [] {
      var first := Apply(s, events[0]);
      var rest := Run(first.screen, events[1..]);
      RunSendsOnlyValidPayloads(first.screen, events[1..]);
      match events[0]
      case SavePressed(saved, refreshed) => SubmitSendsValidPayload(s, saved, refreshed);
      case _ =>
        assert forall c :: c in first.calls ==> SendsValidPayload(c);
        assert Run(s, events).calls == first.calls + rest.calls;
    }
  }

  /** `e` opened `id` for editing. */
  predicate OpensForEdit(e: Event, id: string) {
    e.EditPressed? && e.book.id == id
  }

  /** The book a save in state `s` would update, if any, has this id. */
  predicate TargetIs(s: Screen, id: string) {
    s.selectedBook.Some? && s.selectedBook.value.id == id
  }

  /** An action leaves the target alone, clears it, or sets it to the book it
      opens; and it updates nothing but the current target. */
  lemma ApplyTarget(s: Screen, e: Event)
    ensures var r := Apply(s, e);
      || r.screen.selectedBook == s.selectedBook
      || r.screen.selectedBook == None
      || (e.EditPressed? && r.screen.selectedBook == Some(e.book))
    ensures forall c :: c in Apply(s, e).calls && c.Update? ==> TargetIs(s, c.id)
  {
  }

  /** Every update a run sends is for a book the user opened for editing
      during the run, or for the one already open when it started. */
  lemma {:induction false} RunUpdatesOnlyOpenedBooks(s: Screen, events: seq<Event>)
    ensures forall c :: c in Run(s, events).calls && c.Update? ==>
      TargetIs(s, c.id) || exists j :: 0 <= j < |events| && OpensForEdit(events[j], c.id)
    decreases |events|
  {
    if events != [] {
      var first := Apply(s, events[0]);
      var rest := Run(first.screen, events[1..]);
      RunUpdatesOnlyOpenedBooks(first.screen, events[1..]);
      ApplyTarget(s, events[0]);
      assert Run(s, events).calls == first.calls + rest.calls;
      forall c | c in rest.calls && c.Update?
        ensures TargetIs(s, c.id) || exists j :: 0 <= j < |events| && OpensForEdit(events[j], c.id)
      {
        if TargetIs(first.screen, c.id) {
          if first.screen.selectedBook != s.selectedBook {
            assert OpensForEdit(events[0], c.id);
          }
        } else {
          var j :| 0 <= j < |events[1..]| && OpensForEdit(events[1..][j], c.id);
          assert OpensForEdit(events[j + 1], c.id);
        }
      }
    }
  }

  /** `e` is a delete of `id` the user confirmed. */
  predicate ConfirmsDelete(e: Event, id: string) {
    e.DeletePressed? && e.id == id && e.choice == Confirmed
  }

  /** An action deletes nothing but the book whose deletion it confirms. */
  lemma ApplyDeletes(s: Screen, e: Event)
    ensures forall c :: c in Apply(s, e).calls && c.Delete? ==> ConfirmsDelete(e, c.id)
  {
  }

  /** Every delete a run sends was confirmed by the user on the prompt. */
  lemma {:induction false} RunDeletesOnlyConfirmed(s: Screen, events: seq<Event>)
    ensures forall c :: c in Run(s, events).calls && c.Delete? ==>
      exists j :: 0 <= j < |events| && ConfirmsDelete(events[j], c.id)
    decreases |events|
  {
    if events != [] {
      var first := Apply(s, events[0]);
      var rest := Run(first.screen, events[1..]);
      RunDeletesOnlyConfirmed(first.screen, events[1..]);
      ApplyDeletes(s, events[0]);
      assert Run(s, events).calls == first.calls + rest.calls;
      forall c | c in Run(s, events).calls && c.Delete?
        ensures exists j :: 0 <= j < |events| && ConfirmsDelete(events[j], c.id)
      {
        if c in first.calls {
          assert ConfirmsDelete(events[0], c.id);
        } else {
          var j :| 0 <= j < |events[1..]| && ConfirmsDelete(events[1..][j], c.id);
          assert ConfirmsDelete(events[j + 1], c.id);
        }
      }
    }
  }

  /** Opening, typing into and hiding the form never reaches the service and
      never changes the list. */
  lemma {:induction false} FormActionsAreLocal(s: Screen, events: seq<Event>)
    requires forall j :: 0 <= j < |events| ==> !events[j].SavePressed? && !events[j].DeletePressed?
    ensures Run(s, events).calls == []
    ensures Run(s, events).screen.books == s.books
    decreases |events|
  {
    if events != [] {
      FormActionsAreLocal(Apply(s, events[0]).screen, events[1..]);
    }
  }

  /** Once the first list request has resolved, the loading flag is down
      between actions: every later refresh raises it only while its request
      is pending and lowers it again when the request settles. */
  lemma {:induction false} LoadingStaysDown(s: Screen, events: seq<Event>)
    requires !s.loading
    ensures !Run(s, events).screen.loading
    decreases |events|
  {
    if events != [] {
      LoadingStaysDown(Apply(s, events[0]).screen, events[1..]);
    }
  }

  /** Editing a book and cancelling sends nothing and leaves the list as it
      was; the draft stays behind in the hidden form. */
  lemma EditThenCancel(s: Screen, b: Book)
    ensures Run(s, [EditPressed(b), Dismissed]).calls == []
    ensures Run(s, [EditPressed(b), Dismissed]).screen.books == s.books
    ensures SessionOf(Run(s, [EditPressed(b), Dismissed]).screen) == Closed
    ensures Run(s, [EditPressed(b), Dismissed]).screen.formData == DraftOf(b)
  {
  }

  /** A draft with a one-letter author, "A", fails on its author although
      its title is long enough. */
  lemma RetitledDraftRejected()
    ensures Validate(Draft("New Title", "A", "Short desc text", "Drama")) == Rejected(AuthorTooShort)
  {
    var d := Draft("New Title", "A", "Short desc text", "Drama");
    TrimIsIdentityOnTrimmed(d.title);
    TrimIsIdentityOnTrimmed(d.author);
    ShortAuthorRejected(d);
  }

  /** Editing a stored book whose author is "A", retitling it "New Title" and
      saving sends no update: the one-letter author fails validation first,
      and the form stays open on the edited draft. */
  lemma ShortAuthorEditIsRejected(s: Screen, saved: SaveOutcome, refreshed: ListOutcome)
    ensures var b := Book("42", Some("Old"), Some("A"), Some("Short desc text"), Some("Drama"));
      var r := Submit(ChangeField(EditBook(s, b), Title, "New Title"), saved, refreshed);
      && r.calls == []
      && r.notices == [ValidationNotice(AuthorTooShort)]
      && SessionOf(r.screen) == Open(Editing(b), Draft("New Title", "A", "Short desc text", "Drama"))
  {
    RetitledDraftRejected();
  }

  /** The title typed with a space at each end. */
  lemma TitleTrims()
    ensures Trim(" Hello World ") == "Hello World"
  {
    var t := " Hello World ";
    assert Strips(t, 1, "Hello World") by {
      assert t[..1] == " " && t[12..] == " ";
    }
    TrimUnique(t, 1, "Hello World");
  }

  /** The genre typed with a trailing line feed. */
  lemma GenreTrims()
    ensures Trim("Fantasy\n") == "Fantasy"
  {
    var t := "Fantasy\n";
    assert Strips(t, 0, "Fantasy") by {
      assert t[..0] == "" && t[7..] == "\n";
    }
    TrimUnique(t, 0, "Fantasy");
  }

  /** The form as typed: " Hello World " by "Jane Doe", the genre ending in
      a line feed. */
  const HelloWorldForm := Draft(" Hello World ", "Jane Doe", "A story about adventure", "Fantasy\n")

  /** The book the user meant to add. */
  const HelloWorldBook := Draft("Hello World", "Jane Doe", "A story about adventure", "Fantasy")

  /** The typed form passes validation and trims to the intended book. */
  lemma HelloWorldTrims()
    ensures TrimDraft(HelloWorldForm) == HelloWorldBook
    ensures IsValid(HelloWorldForm)
  {
    TitleTrims();
    TrimIsIdentityOnTrimmed(HelloWorldForm.author);
    TrimIsIdentityOnTrimmed(HelloWorldForm.description);
    GenreTrims();
  }

  /** Add, then type the four fields. */
  function FillNew(s: Screen, d: Draft): (r: Screen)
    ensures SessionOf(r) == Open(Creating, d)
    ensures r.books == s.books
  {
    ChangeField(ChangeField(ChangeField(ChangeField(AddBook(s),
      Title, d.title), Author, d.author), Description, d.description), Genre, d.genre)
  }

  /** Adding "Hello World" by "Jane Doe" with stray white space in the form
      sends exactly the trimmed book to the create endpoint, then a refresh,
      and closes the form on the refreshed list. */
  lemma CreateHelloWorld(s: Screen, created: Book, listed: seq<Book>)
    ensures var r := Submit(FillNew(s, HelloWorldForm), SaveOk(created), ListData(listed));
      && r.calls == [Create(HelloWorldBook), List]
      && r.screen.books == listed
      && SessionOf(r.screen) == Closed
  {
    HelloWorldTrims();
  }
}
