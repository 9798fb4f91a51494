/**
 The state of the book screen and what one transition produces: the next
 state, the calls it sent to the service and the notices (`Alert.alert`) it
 showed, each in order.
 */
module ScreenState {
  import opened Books
  import opened Validation
  import opened Remote

  /** The screen's five pieces of state. */
  datatype Screen = Screen(
    books: seq<Book>,
    loading: bool,
    dialogVisible: bool,
    selectedBook: Option<Book>,
    formData: Draft)

  /** The state at mount, before the first list request resolves. */
  const Initial := Screen([], true, false, None, Blank)

  /** A notice shown to the user, identified by its kind and message. */
  datatype Notice =
    | ValidationNotice(error: ValidationError)   // "Validation Error"
    | ErrorNotice(message: string)               // "Error"
    | SuccessNotice(message: string)             // "Success"
    | ConfirmDelete                              // "Delete Book" with Cancel / Delete

  datatype Step = Step(screen: Screen, calls: seq<Call>, notices: seq<Notice>)

  /** A transition that neither calls the service nor shows anything. */
  function Quiet(s: Screen): Step
  {
    Step(s, [], [])
  }

  /** The edit session as a state machine: closed, or open on a draft either
      to create a book or to edit the given one. */
  datatype Mode = Creating | Editing(target: Book)
  datatype Session = Closed | Open(mode: Mode, draft: Draft)

  /** The edit session the screen state represents. While the dialog is
      hidden the target and draft are kept but not in use. */
  function SessionOf(s: Screen): (v: Session)
    ensures v.Closed? <==> !s.dialogVisible
    ensures v.Open? ==> v.draft == s.formData
    ensures v.Open? ==> (v.mode.Editing? <==> s.selectedBook.Some?)
  {
    if !s.dialogVisible then Closed
    else match s.selectedBook
      case Some(b) => Open(Editing(b), s.formData)
      case None => Open(Creating, s.formData)
  }
}
