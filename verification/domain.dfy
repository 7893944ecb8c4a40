/**
  Values shared by every part of the model: the outcome of an operation, the
  exceptions the services throw, calendar dates, users and films.
 */
module Domain {

  datatype Option<+T> = None | Some(value: T)

  /** The entity a NotFoundException is about. */
  datatype Entity = UserEntity | FilmEntity | MpaEntity | GenreEntity

  /** Which ValidationException was thrown: each has its own message in the source. */
  datatype Reason =
    | AlreadyFriends        // "user is already a friend"
    | FriendNotFound        // "friend not found"
    | RequestNotFound       // "friend request not found"
    | AlreadyLiked          // "the user already liked this film"
    | LikeNotFound          // "like not found"
    | NonPositiveCount      // "the number of films must be positive"
    | NoReleaseDate         // "release date may not be empty"
    | ReleaseTooEarly       // "release date may not be before 28 December 1895"
    | MpaMissing            // "MPA rating may not be null"
    | UnknownUser           // in-memory update of an id that is not stored
    | UnknownFilm           // in-memory update of an id that is not stored

  /** NotFoundException, ValidationException, or a NullPointerException the code does not guard against. */
  datatype Error = NotFound(entity: Entity) | Validation(reason: Reason) | NullReference

  /** A call that returns a value or throws. */
  datatype Result<+T> = Ok(value: T) | Err(error: Error)

  /** A void call that returns normally or throws. */
  datatype Outcome = Pass | Fail(error: Error)

  /** A LocalDate as its (year, month, day) fields. */
  datatype Date = Date(year: int, month: int, day: int)

  /** LocalDate.isBefore: the chronological order of the fields, year first. */
  predicate IsBefore(a: Date, b: Date) {
    a.year < b.year
    || (a.year == b.year && a.month < b.month)
    || (a.year == b.year && a.month == b.month && a.day < b.day)
  }

  lemma IsBeforeIsStrictTotalOrder(a: Date, b: Date, c: Date)
    ensures !IsBefore(a, a)
    ensures IsBefore(a, b) && IsBefore(b, c) ==> IsBefore(a, c)
    ensures a != b ==> IsBefore(a, b) || IsBefore(b, a)
    ensures !(IsBefore(a, b) && IsBefore(b, a))
  {
  }

  /** The users row / User object; a null name or a NULL birthday is None. */
  datatype User = User(id: int, email: string, login: string, name: Option<string>, birthday: Option<Date>)

  /**
    A Film object: the MPA rating is given by its id (None for a null rating),
    the genres by their ids (None for a null set).
   */
  datatype Film = Film(
    id: int,
    name: string,
    description: string,
    releaseDate: Option<Date>,
    duration: int,
    mpa: Option<int>,
    genres: Option<set<int>>)

  /** A row of the films table (its key is the film_id). */
  datatype FilmRow = FilmRow(title: string, description: string, releaseDate: Date, duration: int, mpa: int)

  /** status_id values of the friendships table. */
  const PENDING := 1
  const CONFIRMED := 2

  /** Character.isWhitespace: the Unicode space, line and paragraph separators except the
      no-break spaces, and the control characters TAB..CR and FS..US. */
  predicate IsWhitespace(c: char) {
    c == ' ' || ('\t' <= c <= '\r') || ('\U{1C}' <= c <= '\U{1F}')
    || c == '\U{1680}' || ('\U{2000}' <= c <= '\U{2006}') || ('\U{2008}' <= c <= '\U{200A}')
    || c == '\U{2028}' || c == '\U{2029}' || c == '\U{205F}' || c == '\U{3000}'
  }

  /** String.isBlank: empty or only whitespace. */
  predicate IsBlank(s: string) {
    forall i :: 0 <= i < |s| ==> IsWhitespace(s[i])
  }
}
