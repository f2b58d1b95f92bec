# Seller API of the bookstore backend, modelled in Dafny

The bookstore backend keeps two tables: sellers and books. Each book row
carries the id of the seller that owns it. This project models the seller
half of the HTTP API:

- the pydantic schemas that validate seller data on the way in and on the
  way out;
- the email check they share, Python's `re.match` of `[^@]+@[^@]+\.[^@]+`;
- the five seller endpoints (create, list, get one, delete, update), each
  as one atomic transition over the two tables.

Modules, one per file:

- `Email` (`email.dfy`): what `re.match` accepts. `RegexMatch` states it
  literally: some prefix of the value is a full match, with explicit split
  points. `IsEmail` decides it with forward scans. The two are proved equal
  on every string, and the algebra of the accepted set is proved once.
- `Schemas` (`schemas.dfy`): `IncomingSeller`, `ReturnedNewSeller`,
  `ReturnedSeller`, `ReturnedAllSellers` and the nested book shape. Each has
  a `Parse…` function that runs the inherited validator. None of the output
  shapes has a password field.
- `Models` (`models.dfy`): the tables as `map<int, Seller>` and
  `map<int, Book>`, keyed by primary key. The seller's `books` relationship
  is derived (`OwnedBooks`): it is the set of book rows whose `sellerId`
  holds the seller's id. The module also holds the id the store assigns and
  the store invariant `Valid`. `Valid` says every stored email passed the
  validator and every book's owner exists.
- `SellerRouter` (`seller_router.dfy`): the endpoints. Create, delete and
  update are pure functions `Store × input → Store × Response`. The two
  reads are methods, because the database lists rows in an order of its
  own choosing; their contracts hold for every order.
- `SellerRouterLaws` (`seller_router_laws.dfy`): how the endpoints relate:
  invariant preservation, cascade, idempotence, create/delete round trip,
  row counts, and that responses never depend on passwords.
- `Api` (`api.dfy`): dispatch of one request, and a run of many.

Each endpoint is modelled as the whole request:

1. The body is validated. A rejected body answers 422 and the store is
   untouched.
2. The handler runs as one atomic step.
3. The result is validated against the endpoint's response shape.

Every response shape inherits the email validator. So a stored email the
pattern rejects turns a read into a server error (500). No endpoint can
store such an email, and `Api.Handle` proves that from a valid store no
answer is a 500.

The update endpoint does re-validate the email. Its body is typed
`ReturnedNewSeller` (src/routers/v1/seller.py:76), a subclass of the
validating base class (src/schemas/seller.py:10-28).

## Model

| member | source | states |
|---|---|---|
| Email.IsEmailIffRegexMatch | src/schemas/seller.py:18 | The scan accepts a string exactly when `re.match` of the pattern does, i.e. when some prefix is a non-empty '@'-free run, '@', a non-empty '@'-free run, '.', and one more non-'@' character (both directions) |
| Email.RegexMatchExtends | src/schemas/seller.py:18 | `re.match` is anchored only at the start: if `s` is accepted then `s + t` is accepted for every `t` |
| Email.IsEmailExtends | src/schemas/seller.py:18 | The same extension law holds for the executable check |
| Email.AcceptedShape | src/schemas/seller.py:18 | Every accepted value has at least 5 characters, does not start with '@', and has an '@' that is later followed by a '.' |
| Email.ComposedIsAccepted | src/schemas/seller.py:18 | Any non-empty '@'-free local part, '@', non-empty '@'-free domain, '.', non-empty '@'-free suffix make an accepted value |
| Email.CreateTestAddressAccepted | src/tests/test_books_with_pytest.py:10 | The address the create test posts, "vp@ya.ru", is accepted |
| Email.FixtureAddressesAccepted | src/tests/test_books_with_pytest.py:32-33 | The stored test sellers' addresses "iht@ya.ru" and "isht@ya.ru" are accepted |
| Email.UpdateTestAddressAccepted | src/tests/test_books_with_pytest.py:95 | The address the update test sends, "js_forever@ya.ru", is accepted |
| Email.MissingPartsRejected | src/schemas/seller.py:18-19 | Values with no '@' ("a.b.c"), an empty local part ("@b.c") or no dot in the domain ("a@bc") are rejected |
| Email.MisplacedDotRejected | src/schemas/seller.py:18-19 | Values with the dot right after '@' ("a@.c"), at the end ("a@b.") or right before another '@' ("a@b.@c") are rejected |
| Schemas.ValidateEmail | src/schemas/seller.py:15-20 | The validator returns the value unchanged exactly when the pattern matches it, and otherwise fails with ("Validation error", "incorrect email!") |
| Schemas.ParseIncomingSeller | src/schemas/seller.py:23-24 | A POST body is accepted, unchanged, exactly when its email passes the inherited validator |
| Schemas.ParseReturnedNewSeller | src/schemas/seller.py:27-28 | A PUT body, or a seller about to be returned, is accepted unchanged exactly when its email passes the inherited validator |
| Schemas.ParseReturnedSeller | src/schemas/seller.py:31-33 | A seller with its books is accepted unchanged exactly when its email passes the inherited validator |
| Schemas.ParseReturnedAllSellers | src/schemas/seller.py:36-37 | The listing is accepted unchanged exactly when every entry's email passes; otherwise it fails with the email error |
| Models.FreshSellerId | src/models/seller.py:12 | The id the store assigns a new seller is not in use, is at least 1, and is larger than every id in use |
| Models.Enumerate | src/routers/v1/seller.py:44-46 | Listing a table's keys yields every key exactly once, in some order |
| SellerRouter.CreateSeller | src/routers/v1/seller.py:24-38 | A body with a bad email answers 422 and leaves the store unchanged. Otherwise exactly one seller row is added, under an id not in use before, with the given names and email and `hash(password)`. Books and other sellers are unchanged, and the answer is 201 with {names, email, new id} |
| SellerRouter.GetAllSellers | src/routers/v1/seller.py:42-47 | With valid stored emails the answer is 200 with exactly one password-free, book-free entry per stored seller; otherwise the response shape fails (500) |
| SellerRouter.GetSeller | src/routers/v1/seller.py:51-59 | An absent id answers 404. A present id answers 200 with the seller's fields and exactly the books whose owner column holds that id, each once; an invalid stored email fails the response shape |
| SellerRouter.DeleteSeller | src/routers/v1/seller.py:62-71 | Always answers 204. A present seller is removed together with every book it owns, and all other rows are unchanged. An absent id changes nothing |
| SellerRouter.UpdateSeller | src/routers/v1/seller.py:75-87 | A body with a bad email answers 422 and an absent id answers 404, both with the store unchanged. Otherwise names and email are overwritten, while password, books and other sellers are kept, and the answer carries the new values and the path id |
| SellerRouterLaws.CreatePreservesValid | src/routers/v1/seller.py:29-36 | Create keeps every stored email valid and every book's owner present |
| SellerRouterLaws.DeletePreservesValid | src/routers/v1/seller.py:66-68 | Delete keeps the invariant, because the cascade removes exactly the books that would point at the removed seller |
| SellerRouterLaws.UpdatePreservesValid | src/routers/v1/seller.py:78-83 | Update keeps the invariant |
| SellerRouterLaws.CascadeIsNeeded | src/routers/v1/seller.py:67 | Removing a seller that owns books without the book delete would leave books whose owner does not exist |
| SellerRouterLaws.CreatedSellerHasNoBooks | src/tests/test_books_with_pytest.py:72-78 | In a store where every book's owner exists, a freshly created seller owns no books, so reading it back shows `books: []` |
| SellerRouterLaws.CreateAddsOneRow | src/routers/v1/seller.py:35 | A successful create adds exactly one seller row and no book row |
| SellerRouterLaws.CreateThenDeleteRestores | src/routers/v1/seller.py:62-68 | In a store where every book's owner exists, deleting the seller just created gives back the original store |
| SellerRouterLaws.CreateResponseHidesPassword | src/routers/v1/seller.py:24 | The create response is the same whatever password was sent |
| SellerRouterLaws.DeleteIdempotent | src/routers/v1/seller.py:64-71 | Deleting the same id twice is the same as deleting it once, store and answer |
| SellerRouterLaws.DeleteCommutes | src/routers/v1/seller.py:64-68 | Two deletes give the same store in either order |
| SellerRouterLaws.DeleteRowCounts | src/tests/test_books_with_pytest.py:314-324 | Deleting a present seller removes one seller row and exactly as many book rows as it owned |
| SellerRouterLaws.UpdateIgnoresBodyId | src/routers/v1/seller.py:76-84 | The id inside the PUT body has no effect on the store or the answer |
| SellerRouterLaws.UpdateIdempotent | src/routers/v1/seller.py:78-85 | Sending the same update twice gives the same store and answer as sending it once |
| SellerRouterLaws.UpdateThenReadBack | src/tests/test_books_with_pytest.py:93-107 | After a successful update, the seller read back shows the body's names and email under the path id, and owns the same books |
| SellerRouterLaws.ListingIsSetOfProjections | src/routers/v1/seller.py:44-47 | A listing of all sellers repeats no entry and, as a set, is the password-free projection of the sellers table |
| SellerRouterLaws.ReadsHidePasswords | src/schemas/seller.py:27-37 | For two stores that differ only in passwords, the admissible listings, book lists and seller projections are the same |
| Api.Handle | src/routers/v1/seller.py:17-87 | Routing one request: from a valid store the next store is valid and no answer is a 500; the reads change nothing. A create answers 201 or 422, an update 200, 404 or 422, a delete always 204; from a valid store the listing answers 200 and a single read 200 or 404 |
| Api.Serve | src/routers/v1/seller.py:17-87 | A run of requests gets one answer per request. From a valid store the invariant holds throughout and no answer is a 500 |

## Left out

- The book endpoints and book schemas are not part of this model. Only the book columns the seller endpoints read are modelled: id, title, author, year, page count and owner id.
- Python's `hash()` is randomised per process, so it is a parameter of `CreateSeller`. The model only relies on the stored password being `hash` of the one sent.
- Models.FreshSellerId: the database's id allocation is modelled as one past the largest id in use (1 for an empty table). The proofs rely only on the id being fresh, so a sequence that never reuses ids behaves the same as far as these laws go.
- SellerRouter.GetAllSellers and SellerRouter.GetSeller do not fix the order of the listed rows, because the code does not ask the database for one. The contracts state "every row exactly once".
- Sessions, `async`/`await`, flush and commit are left out. Each endpoint is one atomic step, so the window between the two deletes of the seller delete is not modelled.
- A response shape rejecting a row the create or update had just written is not modelled: it cannot happen, because the email was validated on the way in.
- The `icecream` debug output in the delete endpoint is left out.
- Column widths and nullability (src/models/seller.py:13-16) are database-engine constraints the handlers never check, so they are left out.
- Request bodies arrive already typed. Pydantic's rejection of missing or mistyped fields (also a 422) is not modelled, and neither is the JSON shape of the 422 error detail.
- Characters are Dafny `char`s. `[^@]` is read as "any character but '@'", newline included, as in Python's `re`. There is no Unicode normalisation.
