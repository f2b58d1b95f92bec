/**
  The five seller endpoints as transitions over the store.

  Each endpoint is modelled as the whole request: the request body is
  validated first (a rejected body never reaches the store), the handler then
  reads or changes the store as one atomic step, and the value it returns is
  validated against the endpoint's response shape.  The response shapes
  inherit the email validator too, so a stored email the pattern rejects
  turns a read into a server error; `Valid` rules that out.

  The two reads are methods: the database lists rows in an order of its own
  choosing, and their contracts hold for every order.
 */
module SellerRouter {
  import opened Email
  import opened Schemas
  import opened Models

  /** The JSON body of a successful response. */
  datatype Body =
    | NewSellerBody(seller: ReturnedNewSeller)
    | SellerBody(detail: ReturnedSeller)
    | AllSellersBody(all: ReturnedAllSellers)

  /** What an endpoint answers. */
  datatype Response =
    | Created(body: Body)                  // 201
    | Ok(body: Body)                       // 200
    | NoContent                            // 204, no body
    | NotFound                             // 404, no body
    | ValidationError(error: FieldError)   // 422: the request body was rejected
    | ResponseInvalid(error: FieldError)   // 500: the response shape rejected the result

  /** The HTTP status line of each response. */
  function StatusCode(r: Response): int {
    match r
    case Created(_) => 201
    case Ok(_) => 200
    case NoContent => 204
    case NotFound => 404
    case ValidationError(_) => 422
    case ResponseInvalid(_) => 500
  }

  /** A stored seller as a response shape: its id and names, never its password. */
  function SellerOut(id: int, s: Seller): ReturnedNewSeller {
    ReturnedNewSeller(s.firstName, s.lastName, s.email, id)
  }

  /** A stored book as nested in a seller: everything but the owner column. */
  function BookOut(id: int, b: Book): ReturnedBookSeller {
    ReturnedBookSeller(id, b.title, b.author, b.year, b.countPages)
  }

  /** `list` names every stored seller exactly once, each as its projection. */
  ghost predicate ListsAllSellers(list: seq<ReturnedNewSeller>, st: Store) {
    && |list| == |st.sellers|
    && (forall i :: 0 <= i < |list| ==>
          list[i].id in st.sellers && list[i] == SellerOut(list[i].id, st.sellers[list[i].id]))
    && (forall i, j :: 0 <= i < j < |list| ==> list[i].id != list[j].id)
    && (forall k :: k in st.sellers ==> exists i :: 0 <= i < |list| && list[i].id == k)
  }

  /** `list` names every book owned by `sellerId` exactly once, each as its
      projection. */
  ghost predicate ListsOwnedBooks(list: seq<ReturnedBookSeller>, st: Store, sellerId: int) {
    && |list| == |OwnedBooks(st, sellerId)|
    && (forall i :: 0 <= i < |list| ==>
          list[i].id in OwnedBooks(st, sellerId) && list[i] == BookOut(list[i].id, st.books[list[i].id]))
    && (forall i, j :: 0 <= i < j < |list| ==> list[i].id != list[j].id)
    && (forall b :: b in OwnedBooks(st, sellerId) ==> exists i :: 0 <= i < |list| && list[i].id == b)
  }

  /** POST /seller/: a body with a well-formed email adds one seller under an
      id not in use before, storing the hash of the password; the response
      echoes the fields and the new id.  Any other body changes nothing. */
  function CreateSeller(st: Store, body: IncomingSeller, hash: string -> string): (r: (Store, Response))
    ensures !RegexMatch(body.email) ==> r == (st, ValidationError(IncorrectEmail))
    ensures RegexMatch(body.email) ==>
      && r.1.Created? && r.1.body.NewSellerBody?
      && var id := r.1.body.seller.id;
      && id !in st.sellers
      && r.1.body.seller == ReturnedNewSeller(body.firstName, body.lastName, body.email, id)
      && r.0.sellers.Keys == st.sellers.Keys + {id}
      && r.0.sellers[id] == Seller(body.firstName, body.lastName, body.email, hash(body.password))
      && (forall k :: k in st.sellers ==> r.0.sellers[k] == st.sellers[k])
      && r.0.books == st.books
  {
    match ParseIncomingSeller(body)
    case Rejected(e) => (st, ValidationError(e))
    case Parsed(seller) =>
      var id := FreshSellerId(st);
      var row := Seller(seller.firstName, seller.lastName, seller.email, hash(seller.password));
      var st' := Store(st.sellers[id := row], st.books);
      match ParseReturnedNewSeller(SellerOut(id, row))
      case Rejected(e) => (st', ResponseInvalid(e))
      case Parsed(out) => (st', Created(NewSellerBody(out)))
  }

  /** GET /seller/: every stored seller once, without books or password; a
      stored email the pattern rejects fails the response shape. */
  method GetAllSellers(st: Store) returns (resp: Response)
    ensures EmailsValid(st) ==>
      resp.Ok? && resp.body.AllSellersBody? && ListsAllSellers(resp.body.all.sellers, st)
    ensures !EmailsValid(st) ==> resp == ResponseInvalid(IncorrectEmail)
  {
    var ids := Enumerate(st.sellers.Keys);
    var list := seq(|ids|, i requires 0 <= i < |ids| => SellerOut(ids[i], st.sellers[ids[i]]));
    assert forall i :: 0 <= i < |list| ==> list[i].id == ids[i];
    match ParseReturnedAllSellers(list)
    case Rejected(e) =>
      resp := ResponseInvalid(e);
    case Parsed(all) =>
      forall k | k in st.sellers ensures RegexMatch(st.sellers[k].email) {
        var i :| 0 <= i < |ids| && ids[i] == k;
        assert list[i].email == st.sellers[k].email;
      }
      resp := Ok(AllSellersBody(all));
  }

  /** GET /seller/{seller_id}: the seller with exactly the books whose owner
      column holds its id, or 404 when there is no such seller. */
  method GetSeller(st: Store, sellerId: int) returns (resp: Response)
    ensures sellerId !in st.sellers ==> resp == NotFound
    ensures sellerId in st.sellers && !RegexMatch(st.sellers[sellerId].email) ==>
      resp == ResponseInvalid(IncorrectEmail)
    ensures sellerId in st.sellers && RegexMatch(st.sellers[sellerId].email) ==>
      && resp.Ok? && resp.body.SellerBody?
      && var d := resp.body.detail;
      && ReturnedNewSeller(d.firstName, d.lastName, d.email, d.id) == SellerOut(sellerId, st.sellers[sellerId])
      && ListsOwnedBooks(d.books, st, sellerId)
  {
    if sellerId !in st.sellers {
      return NotFound;
    }
    var s := st.sellers[sellerId];
    var owned := OwnedBooks(st, sellerId);
    var ids := Enumerate(owned);
    var books := seq(|ids|, i requires 0 <= i < |ids| => BookOut(ids[i], st.books[ids[i]]));
    assert forall i :: 0 <= i < |books| ==> books[i].id == ids[i];
    match ParseReturnedSeller(ReturnedSeller(s.firstName, s.lastName, s.email, sellerId, books))
    case Rejected(e) =>
      resp := ResponseInvalid(e);
    case Parsed(detail) =>
      resp := Ok(SellerBody(detail));
  }

  /** DELETE /seller/{seller_id}: an existing seller goes together with every
      book it owns; nothing else changes.  The answer is 204 either way. */
  function DeleteSeller(st: Store, sellerId: int): (r: (Store, Response))
    ensures r.1 == NoContent
    ensures sellerId !in st.sellers ==> r.0 == st
    ensures sellerId in st.sellers ==>
      && r.0.sellers.Keys == st.sellers.Keys - {sellerId}
      && (forall k :: k in r.0.sellers ==> r.0.sellers[k] == st.sellers[k])
      && r.0.books.Keys == st.books.Keys - OwnedBooks(st, sellerId)
      && (forall b :: b in r.0.books ==> r.0.books[b] == st.books[b])
  {
    if sellerId in st.sellers then
      var kept := map b | b in st.books && st.books[b].sellerId != sellerId :: st.books[b];
      (Store(st.sellers - {sellerId}, kept), NoContent)
    else
      (st, NoContent)
  }

  /** PUT /seller/{seller_id}: the body is validated like any seller shape; an
      existing seller gets the body's names and email and keeps its password
      and books.  The id in the body plays no part: the path id is answered. */
  function UpdateSeller(st: Store, sellerId: int, body: ReturnedNewSeller): (r: (Store, Response))
    ensures !RegexMatch(body.email) ==> r == (st, ValidationError(IncorrectEmail))
    ensures RegexMatch(body.email) && sellerId !in st.sellers ==> r == (st, NotFound)
    ensures RegexMatch(body.email) && sellerId in st.sellers ==>
      && r.0.books == st.books
      && r.0.sellers.Keys == st.sellers.Keys
      && (forall k :: k in st.sellers && k != sellerId ==> r.0.sellers[k] == st.sellers[k])
      && r.0.sellers[sellerId] == Seller(body.firstName, body.lastName, body.email, st.sellers[sellerId].password)
      && r.1 == Ok(NewSellerBody(ReturnedNewSeller(body.firstName, body.lastName, body.email, sellerId)))
  {
    match ParseReturnedNewSeller(body)
    case Rejected(e) => (st, ValidationError(e))
    case Parsed(data) =>
      if sellerId !in st.sellers then (st, NotFound)
      else
        var row := st.sellers[sellerId].(firstName := data.firstName, lastName := data.lastName, email := data.email);
        var st' := Store(st.sellers[sellerId := row], st.books);
        match ParseReturnedNewSeller(SellerOut(sellerId, row))
        case Rejected(e) => (st', ResponseInvalid(e))
        case Parsed(out) => (st', Ok(NewSellerBody(out)))
  }
}
