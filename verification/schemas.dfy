/**
  The request and response shapes of the seller API and the pydantic
  validation that builds them.

  Every seller shape inherits the `email` field validator of the common base
  class, so building any of them from untrusted data either yields the value
  unchanged or fails with the one validation error.  None of the output shapes
  has a password field; `ReturnedBookSeller` is a book without its owner id.
 */
module Schemas {
  import opened Email

  /** The custom pydantic error: an error type and a message. */
  datatype FieldError = FieldError(errorType: string, message: string)

  /** What `validate_email` raises for a value the pattern turns away. */
  const IncorrectEmail := FieldError("Validation error", "incorrect email!")

  /** The outcome of validating untrusted data against a shape. */
  datatype Result<T> = Parsed(value: T) | Rejected(error: FieldError)

  /** The POST body: the base fields plus the plain-text password. */
  datatype IncomingSeller = IncomingSeller(firstName: string, lastName: string, email: string, password: string)

  /** A seller as returned after creation or update, and as the PUT body. */
  datatype ReturnedNewSeller = ReturnedNewSeller(firstName: string, lastName: string, email: string, id: int)

  /** A book as nested inside a seller: every column except the owner id. */
  datatype ReturnedBookSeller = ReturnedBookSeller(id: int, title: string, author: string, year: int, countPages: int)

  /** A single seller together with the books it owns. */
  datatype ReturnedSeller = ReturnedSeller(
    firstName: string, lastName: string, email: string, id: int, books: seq<ReturnedBookSeller>)

  /** The listing of all sellers, without their books. */
  datatype ReturnedAllSellers = ReturnedAllSellers(sellers: seq<ReturnedNewSeller>)

  /** The `email` field validator of the base class: the value comes back
      unchanged when `re.match` accepts it, otherwise the validation error. */
  function ValidateEmail(val: string): (r: Result<string>)
    ensures r.Parsed? <==> RegexMatch(val)
    ensures r.Parsed? ==> r.value == val
    ensures r.Rejected? ==> r.error == IncorrectEmail
  {
    IsEmailIffRegexMatch(val);
    if IsEmail(val) then Parsed(val) else Rejected(IncorrectEmail)
  }

  /** Validates a POST body. */
  function ParseIncomingSeller(raw: IncomingSeller): (r: Result<IncomingSeller>)
    ensures r.Parsed? <==> RegexMatch(raw.email)
    ensures r.Parsed? ==> r.value == raw
    ensures r.Rejected? ==> r.error == IncorrectEmail
  {
    match ValidateEmail(raw.email)
    case Rejected(e) => Rejected(e)
    case Parsed(email) => Parsed(raw.(email := email))
  }

  /** Validates a PUT body or a seller about to be returned. */
  function ParseReturnedNewSeller(raw: ReturnedNewSeller): (r: Result<ReturnedNewSeller>)
    ensures r.Parsed? <==> RegexMatch(raw.email)
    ensures r.Parsed? ==> r.value == raw
    ensures r.Rejected? ==> r.error == IncorrectEmail
  {
    match ValidateEmail(raw.email)
    case Rejected(e) => Rejected(e)
    case Parsed(email) => Parsed(raw.(email := email))
  }

  /** Validates a single seller with its books about to be returned. */
  function ParseReturnedSeller(raw: ReturnedSeller): (r: Result<ReturnedSeller>)
    ensures r.Parsed? <==> RegexMatch(raw.email)
    ensures r.Parsed? ==> r.value == raw
    ensures r.Rejected? ==> r.error == IncorrectEmail
  {
    match ValidateEmail(raw.email)
    case Rejected(e) => Rejected(e)
    case Parsed(email) => Parsed(raw.(email := email))
  }

  /** Validates the listing of all sellers: each entry is validated in turn,
      so the listing is accepted exactly when every entry's email is. */
  function ParseReturnedAllSellers(sellers: seq<ReturnedNewSeller>): (r: Result<ReturnedAllSellers>)
    ensures r.Parsed? <==> forall i :: 0 <= i < |sellers| ==> RegexMatch(sellers[i].email)
    ensures r.Parsed? ==> r.value.sellers == sellers
    ensures r.Rejected? ==> r.error == IncorrectEmail
    decreases |sellers|
  {
    if sellers == [] then Parsed(ReturnedAllSellers([]))
    else
      match ParseReturnedNewSeller(sellers[0])
      case Rejected(e) => Rejected(e)
      case Parsed(head) =>
        match ParseReturnedAllSellers(sellers[1..])
        case Rejected(e) => Rejected(e)
        case Parsed(tail) => Parsed(ReturnedAllSellers([head] + tail.sellers))
  }
}
