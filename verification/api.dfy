/**
  The seller router as a whole: a request names one of the five endpoints,
  and a run serves requests one after another against the same store.
 */
module Api {
  import opened Models
  import opened Schemas
  import opened SellerRouter
  import opened SellerRouterLaws

  /** One request to the seller router. */
  datatype Request =
    | PostSeller(body: IncomingSeller)
    | GetSellers
    | GetSellerById(sellerId: int)
    | DeleteSellerById(sellerId: int)
    | PutSeller(sellerId: int, update: ReturnedNewSeller)

  /** Routes one request.  From a store that satisfies the invariant every
      endpoint leads to a store that does, and no response fails its shape;
      the reads leave the store as it was. */
  method Handle(st: Store, req: Request, hash: string -> string) returns (st': Store, resp: Response)
    ensures Valid(st) ==> Valid(st') && !resp.ResponseInvalid?
    ensures req.GetSellers? || req.GetSellerById? ==> st' == st
    ensures req.DeleteSellerById? ==> resp == NoContent
    ensures req.PostSeller? ==> StatusCode(resp) in {201, 422}
    ensures req.PutSeller? ==> StatusCode(resp) in {200, 404, 422}
    ensures req.DeleteSellerById? ==> StatusCode(resp) == 204
    ensures Valid(st) && req.GetSellers? ==> StatusCode(resp) == 200
    ensures Valid(st) && req.GetSellerById? ==> StatusCode(resp) in {200, 404}
  {
    match req
    case PostSeller(body) =>
      if Valid(st) {
        CreatePreservesValid(st, body, hash);
      }
      var r := CreateSeller(st, body, hash);
      st', resp := r.0, r.1;
    case GetSellers =>
      st' := st;
      resp := GetAllSellers(st);
    case GetSellerById(id) =>
      st' := st;
      resp := GetSeller(st, id);
    case DeleteSellerById(id) =>
      if Valid(st) {
        DeletePreservesValid(st, id);
      }
      var r := DeleteSeller(st, id);
      st', resp := r.0, r.1;
    case PutSeller(id, body) =>
      if Valid(st) {
        UpdatePreservesValid(st, id, body);
      }
      var r := UpdateSeller(st, id, body);
      st', resp := r.0, r.1;
  }

  /** Serves a sequence of requests in order, one answer per request.  From a
      store that satisfies the invariant, the invariant holds after every
      step and no answer is a server error. */
  method Serve(st: Store, reqs: seq<Request>, hash: string -> string) returns (st': Store, resps: seq<Response>)
    ensures |resps| == |reqs|
    ensures Valid(st) ==> Valid(st')
    ensures Valid(st) ==> forall i :: 0 <= i < |resps| ==> !resps[i].ResponseInvalid?
    ensures forall i :: 0 <= i < |reqs| && reqs[i].DeleteSellerById? ==> resps[i] == NoContent
  {
    st' := st;
    resps := [];
    var n := 0;
    while n < |reqs|
      invariant 0 <= n <= |reqs|
      invariant |resps| == n
      invariant Valid(st) ==> Valid(st')
      invariant Valid(st) ==> forall i :: 0 <= i < n ==> !resps[i].ResponseInvalid?
      invariant forall i :: 0 <= i < n && reqs[i].DeleteSellerById? ==> resps[i] == NoContent
    {
      var resp;
      st', resp := Handle(st', reqs[n], hash);
      resps := resps + [resp];
      n := n + 1;
    }
  }
}
