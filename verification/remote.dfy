/**
 The remote book service as the screen sees it: the calls it issues, and the
 outcomes those calls can come back with. The service itself is not part of
 this model; every outcome is a parameter of the transition that awaits it.
 */
module Remote {
  import opened Books

  /** A request sent to the service, in the order the screen sends them. */
  datatype Call =
    | List                                 // getAllBooks()
    | Create(payload: Draft)               // createBook(bookData)
    | Update(id: string, payload: Draft)   // updateBook(id, bookData)
    | Delete(id: string)                   // deleteBook(id)

  /** What `getAllBooks` resolves to: a response carrying `data` (an empty
      list is still data), a response without it, or a rejection whose
      error message is `message` ("" when the error has none). A rejection
      is taken to carry an object reason: one with `null` or `undefined`
      as its reason makes `error.message` itself throw, and is not
      modelled. */
  datatype ListOutcome =
    | ListData(data: seq<Book>)
    | ListNoData
    | ListFailed(message: string)

  /** What `createBook` or `updateBook` resolves to; a rejection, as for
      `ListFailed`, is taken to carry an object reason. */
  datatype SaveOutcome =
    | SaveOk(data: Book)
    | SaveNoData
    | SaveFailed(message: string)

  /** What `deleteBook` resolves to. Any resolved value counts as success:
      the screen does not look at it. A rejection, as for `ListFailed`, is
      taken to carry an object reason. */
  datatype DeleteOutcome =
    | Deleted
    | DeleteFailed(message: string)

  /** `error.message || fallback`: the notice never comes out blank as long
      as the fallback is not blank, and it shows the error's own message
      whenever there is one. */
  function ErrorText(message: string, fallback: string): (text: string)
    ensures fallback != "" ==> text != ""
    ensures text == message || text == fallback
    ensures message != "" ==> text == message
    ensures message == "" ==> text == fallback
  {
    if message == "" then fallback else message
  }
}
