/**
 Validation of the add/edit form (`validateForm`). Seven checks run in a
 fixed order over the trimmed fields; the first that fails is reported and
 stops the rest.
 */
module Validation {
  import opened Text
  import opened Books

  const MinTitleLength := 3
  const MinAuthorLength := 3
  const MinDescriptionLength := 10

  /** The seven checks, in the order the form applies them. */
  datatype ValidationError =
    | TitleRequired
    | TitleTooShort
    | AuthorRequired
    | AuthorTooShort
    | DescriptionRequired
    | DescriptionTooShort
    | GenreRequired
  {
    /** Position of the check in the order it is applied. */
    function Rank(): nat {
      match this
      case TitleRequired => 0
      case TitleTooShort => 1
      case AuthorRequired => 2
      case AuthorTooShort => 3
      case DescriptionRequired => 4
      case DescriptionTooShort => 5
      case GenreRequired => 6
    }

    /** The text of the "Validation Error" notice. */
    function Message(): string {
      match this
      case TitleRequired => "Title is required"
      case TitleTooShort => "Title must be at least 3 characters"
      case AuthorRequired => "Author is required"
      case AuthorTooShort => "Author must be at least 3 characters"
      case DescriptionRequired => "Description is required"
      case DescriptionTooShort => "Description must be at least 10 characters"
      case GenreRequired => "Genre is required"
    }
  }

  /** Every check, in the order the form applies them. */
  const Checks: seq<ValidationError> := [
    TitleRequired, TitleTooShort, AuthorRequired, AuthorTooShort,
    DescriptionRequired, DescriptionTooShort, GenreRequired
  ]

  datatype Verdict = Accepted | Rejected(error: ValidationError)

  /** The condition check `e` fails on, taken on its own, over the trimmed
      fields `p`. A "required" check fails on an empty field (an empty string
      is falsy); a length check compares JavaScript's `length`, which counts
      UTF-16 units. */
  predicate FailsOn(p: Draft, e: ValidationError) {
    match e
    case TitleRequired => p.title == ""
    case TitleTooShort => Utf16Length(p.title) < MinTitleLength
    case AuthorRequired => p.author == ""
    case AuthorTooShort => Utf16Length(p.author) < MinAuthorLength
    case DescriptionRequired => p.description == ""
    case DescriptionTooShort => Utf16Length(p.description) < MinDescriptionLength
    case GenreRequired => p.genre == ""
  }

  /** Check `e` fails on draft `d`: every check looks at the trimmed fields. */
  predicate Violates(d: Draft, e: ValidationError) {
    FailsOn(TrimDraft(d), e)
  }

  /** What an acceptable draft looks like, stated as bounds on the lengths of
      its trimmed fields. */
  predicate IsValid(d: Draft) {
    && Utf16Length(Trim(d.title)) >= MinTitleLength
    && Utf16Length(Trim(d.author)) >= MinAuthorLength
    && Utf16Length(Trim(d.description)) >= MinDescriptionLength
    && Utf16Length(Trim(d.genre)) >= 1
  }

  /** `validateForm`: accepts exactly the valid drafts, and otherwise reports
      a failing check with no failing check before it. */
  function Validate(d: Draft): (v: Verdict)
    ensures v.Accepted? <==> IsValid(d)
    ensures v.Accepted? ==> forall e :: !Violates(d, e)
    ensures v.Rejected? ==> Violates(d, v.error)
    ensures v.Rejected? ==> forall i :: 0 <= i < v.error.Rank() ==> !Violates(d, Checks[i])
  {
    var p := TrimDraft(d);
    if p.title == "" then Rejected(TitleRequired)
    else if Utf16Length(p.title) < MinTitleLength then Rejected(TitleTooShort)
    else if p.author == "" then Rejected(AuthorRequired)
    else if Utf16Length(p.author) < MinAuthorLength then Rejected(AuthorTooShort)
    else if p.description == "" then Rejected(DescriptionRequired)
    else if Utf16Length(p.description) < MinDescriptionLength then Rejected(DescriptionTooShort)
    else if p.genre == "" then Rejected(GenreRequired)
    else Accepted
  }

  /** The reported error is determined by the draft alone: no other check
      both fails and has only passing checks before it. */
  lemma FirstFailureUnique(d: Draft, e: ValidationError)
    requires Violates(d, e)
    requires forall i :: 0 <= i < e.Rank() ==> !Violates(d, Checks[i])
    ensures Validate(d) == Rejected(e)
  {
    var k := e.Rank();
    if k > 0 { assert !Violates(d, Checks[0]); }
    if k > 1 { assert !Violates(d, Checks[1]); }
    if k > 2 { assert !Violates(d, Checks[2]); }
    if k > 3 { assert !Violates(d, Checks[3]); }
    if k > 4 { assert !Violates(d, Checks[4]); }
    if k > 5 { assert !Violates(d, Checks[5]); }
  }

  /** The payload of a valid draft is itself valid; trimming never changes
      the verdict. */
  lemma ValidateIgnoresSurroundingSpace(d: Draft)
    ensures Validate(TrimDraft(d)) == Validate(d)
  {
    TrimIdempotent(d.title);
    TrimIdempotent(d.author);
    TrimIdempotent(d.description);
    TrimIdempotent(d.genre);
  }

  /** Any valid draft has non-empty fields after trimming, so the payload
      never carries an empty attribute. */
  lemma ValidPayloadFieldsNonEmpty(d: Draft)
    requires IsValid(d)
    ensures forall f :: TrimDraft(d).Get(f) != ""
  {
  }

  /** A one-character author never passes, whatever the other fields hold. */
  lemma ShortAuthorRejected(d: Draft)
    requires Utf16Length(Trim(d.title)) >= MinTitleLength
    requires |Trim(d.author)| == 1
    ensures Validate(d) == Rejected(AuthorTooShort)
  {
  }

  /** JavaScript counts UTF-16 units: a title of one letter and one emoji
      (outside the Basic Multilingual Plane) already meets the 3-character
      minimum although it holds two code points. */
  lemma EmojiTitleMeetsMinimum()
    ensures !Violates(Draft("a\U{1F600}", "", "", ""), TitleTooShort)
  {
    var t := "a\U{1F600}";
    assert Trim(t) == t;
    assert Utf16Length(t) == 1 + Utf16Length(t[1..]);
  }
}
