/**
 * The exceptions the core raises and catches. HandlerException carries one
 * of eleven UUID-tagged kinds; the other kinds are those of the form layer,
 * the database layer and the HTTP layer that the controllers tell apart.
 */
module Exceptions {
  import opened Values

  /** The eleven HandlerException codes. */
  datatype HandlerErrorKind =
    | AccessDenied
    | BadRequest
    | MissingFormType
    | InvalidId
    | MissingEntityClass
    | AnonymousUserNotAllowed
    | MissingDependency
    | InvalidEntityRouteKey
    | InvalidKey
    | InvalidType
    | DuplicateEntry

  /** The UUID each kind is tagged with (its first two characters set apart). */
  function Uuid(k: HandlerErrorKind): string
  {
    match k
    case AccessDenied => "36" + "d0d55d-079f-44e6-92b9-024ab4ebebb4"
    case BadRequest => "a2" + "ccce5f-6268-41c1-b5a1-654f965242da"
    case MissingFormType => "65" + "d126dd-7bc5-4f67-b9a3-04e875fdc5fd"
    case InvalidId => "b7" + "c00792-4f01-4750-89db-21c828a39ab1"
    case MissingEntityClass => "85" + "79aa41-430a-4b9a-bba5-e7191cf0dad9"
    case AnonymousUserNotAllowed => "73" + "966900-482e-49f1-a44c-e264ff4089f0"
    case MissingDependency => "21" + "8931d1-2055-4e91-b3ef-f146ee1e9ba8"
    case InvalidEntityRouteKey => "ab" + "769448-7426-482f-892f-fd4ab5ef4680"
    case InvalidKey => "9d" + "654e29-7aba-49f3-b137-124c12ddaa22"
    case InvalidType => "dd" + "7a8d8c-eba8-449e-ae1e-7f64afc71c4d"
    case DuplicateEntry => "c3" + "df04db-c3ee-4f62-b59c-04a142a06c91"
  }

  /** Reads a kind back from the first two characters of its UUID. */
  function KindOfTag(u: string): Option<HandlerErrorKind>
  {
    if |u| < 2 then None
    else
      match (u[0], u[1])
      case ('3', '6') => Some(AccessDenied)
      case ('a', '2') => Some(BadRequest)
      case ('6', '5') => Some(MissingFormType)
      case ('b', '7') => Some(InvalidId)
      case ('8', '5') => Some(MissingEntityClass)
      case ('7', '3') => Some(AnonymousUserNotAllowed)
      case ('2', '1') => Some(MissingDependency)
      case ('a', 'b') => Some(InvalidEntityRouteKey)
      case ('9', 'd') => Some(InvalidKey)
      case ('d', 'd') => Some(InvalidType)
      case ('c', '3') => Some(DuplicateEntry)
      case _ => None
  }

  /** The first two characters of a kind's UUID identify it. */
  lemma KindOfTagUuid(k: HandlerErrorKind)
    ensures KindOfTag(Uuid(k)) == Some(k)
  {
  }

  /** A switch on the UUID tells the kinds apart: no two kinds share a tag. */
  lemma UuidInjective(a: HandlerErrorKind, b: HandlerErrorKind)
    ensures Uuid(a) == Uuid(b) ==> a == b
  {
    KindOfTagUuid(a);
    KindOfTagUuid(b);
  }

  const HttpOk := 200
  const HttpCreated := 201
  const HttpNoContent := 204
  const HttpBadRequest := 400
  const HttpForbidden := 403
  const HttpConflict := 409
  const HttpInternalServerError := 500

  /**
   * An exception as the controllers see it. An InvalidFormException is
   * reduced to its code (None: the class's default code) and the text of its
   * form's errors; the form itself is not modelled.
   */
  datatype Failure =
    | HandlerFailure(kind: HandlerErrorKind, message: string)
    | InvalidForm(code: Option<int>, formErrors: string)
    | NotNullViolation(message: string)
    | UniqueViolation(message: string)
    | NotFound(message: string)
    | Other(message: string)

  /** The text the message of an InvalidFormException always carries. */
  const InvalidFormMessage := "Invalid submitted data"

  /** `getMessage()`: the text every exception carries. */
  function Message(f: Failure): string
  {
    if f.InvalidForm? then InvalidFormMessage else f.message
  }
}
