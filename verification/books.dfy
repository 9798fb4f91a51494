/**
 The records the book screen works with: a catalog entry (`Book`) and the
 four free-text fields of the add/edit form (`Draft`), which is also the
 shape of the payload sent to the create and update endpoints.
 */
module Books {
  import opened Text

  datatype Option<+T> = None | Some(value: T)

  /** A catalog entry as the list endpoint returns it. The four attributes
      are optional because the screen defends against records that lack
      them (`None` stands for a missing, `null` or `undefined` attribute). */
  datatype Book = Book(
    id: string,
    title: Option<string>,
    author: Option<string>,
    description: Option<string>,
    genre: Option<string>)

  /** The four editable fields, in the order the form shows them. */
  datatype Field = Title | Author | Description | Genre

  datatype Draft = Draft(title: string, author: string, description: string, genre: string)
  {
    function Get(f: Field): string {
      match f
      case Title => title
      case Author => author
      case Description => description
      case Genre => genre
    }

    /** The draft with field `f` replaced by `text` (`{...formData, f: text}`). */
    function With(f: Field, text: string): (d: Draft)
      ensures d.Get(f) == text
      ensures forall g :: g != f ==> d.Get(g) == Get(g)
    {
      match f
      case Title => this.(title := text)
      case Author => this.(author := text)
      case Description => this.(description := text)
      case Genre => this.(genre := text)
    }
  }

  /** The form's contents after "add": every field empty. */
  const Blank := Draft("", "", "", "")

  /** `value || ""`: a missing attribute, like an empty one, reads as "",
      and only those do. */
  function OrEmpty(o: Option<string>): (s: string)
    ensures s == "" <==> Absent(o)
  {
    match o
    case Some(v) => v
    case None => ""
  }

  /** An attribute that shows as an empty field: missing, or present but "". */
  predicate Absent(o: Option<string>) {
    o == None || o == Some("")
  }

  /** The form's contents after "edit" on `b`. A record comes up as a blank
      form exactly when all four of its attributes are absent. */
  function DraftOf(b: Book): (d: Draft)
    ensures d == Blank <==> Absent(b.title) && Absent(b.author) && Absent(b.description) && Absent(b.genre)
    ensures d.Get(Title) == OrEmpty(b.title)
    ensures d.Get(Author) == OrEmpty(b.author)
    ensures d.Get(Description) == OrEmpty(b.description)
    ensures d.Get(Genre) == OrEmpty(b.genre)
  {
    Draft(OrEmpty(b.title), OrEmpty(b.author), OrEmpty(b.description), OrEmpty(b.genre))
  }

  /** No field carries leading or trailing white space. */
  predicate IsTrimmedDraft(d: Draft) {
    forall f :: IsTrimmed(d.Get(f))
  }

  /** The payload built from the form: each field trimmed on its own. */
  function TrimDraft(d: Draft): (p: Draft)
    ensures IsTrimmedDraft(p)
    ensures p.title == Trim(d.title) && p.author == Trim(d.author)
    ensures p.description == Trim(d.description) && p.genre == Trim(d.genre)
  {
    var p := Draft(Trim(d.title), Trim(d.author), Trim(d.description), Trim(d.genre));
    assert forall f :: p.Get(f) in [p.title, p.author, p.description, p.genre];
    p
  }

  /** A draft with no surrounding white space is its own payload, so the
      payload of a payload is the payload. */
  lemma TrimDraftIdempotent(d: Draft)
    ensures TrimDraft(TrimDraft(d)) == TrimDraft(d)
  {
    TrimIdempotent(d.title);
    TrimIdempotent(d.author);
    TrimIdempotent(d.description);
    TrimIdempotent(d.genre);
  }

  /** Edits to two different fields commute. */
  lemma WithCommutes(d: Draft, f: Field, g: Field, x: string, y: string)
    requires f != g
    ensures d.With(f, x).With(g, y) == d.With(g, y).With(f, x)
  {
  }

  /** A later edit of the same field overwrites an earlier one. */
  lemma WithOverwrites(d: Draft, f: Field, x: string, y: string)
    ensures d.With(f, x).With(f, y) == d.With(f, y)
  {
  }
}
