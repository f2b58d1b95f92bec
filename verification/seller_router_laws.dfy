/**
  Laws that relate the seller endpoints to each other and to the store
  invariant: what each keeps true, which ones undo or repeat each other, and
  what the responses never depend on.
 */
module SellerRouterLaws {
  import opened Email
  import opened Schemas
  import opened Models
  import opened SellerRouter

  // ---------------------------------------------------------------------------
  // The store invariant

  /** Creating a seller keeps every email valid and every book owned. */
  lemma CreatePreservesValid(st: Store, body: IncomingSeller, hash: string -> string)
    requires Valid(st)
    ensures Valid(CreateSeller(st, body, hash).0)
  {
    var st' := CreateSeller(st, body, hash).0;
    if RegexMatch(body.email) {
      var id := CreateSeller(st, body, hash).1.body.seller.id;
      forall k | k in st'.sellers ensures RegexMatch(st'.sellers[k].email) {
        if k != id {
          assert k in st.sellers;
        }
      }
    }
  }

  /** Deleting a seller keeps the invariant: the cascade removes exactly the
      books that would otherwise point at the missing seller. */
  lemma DeletePreservesValid(st: Store, sellerId: int)
    requires Valid(st)
    ensures Valid(DeleteSeller(st, sellerId).0)
  {
    var st' := DeleteSeller(st, sellerId).0;
    if sellerId in st.sellers {
      forall b | b in st'.books ensures st'.books[b].sellerId in st'.sellers {
        assert b !in OwnedBooks(st, sellerId);
      }
    }
  }

  /** Updating a seller keeps the invariant: the new email passed the validator
      and no id comes or goes. */
  lemma UpdatePreservesValid(st: Store, sellerId: int, body: ReturnedNewSeller)
    requires Valid(st)
    ensures Valid(UpdateSeller(st, sellerId, body).0)
  {
  }

  /** Without the cascade the invariant would not survive: removing only the
      seller row leaves its books pointing at nothing. */
  lemma CascadeIsNeeded(st: Store, sellerId: int)
    requires sellerId in st.sellers
    requires OwnedBooks(st, sellerId) != {}
    ensures !BooksOwned(Store(st.sellers - {sellerId}, st.books))
  {
    NonEmptyHasMember(OwnedBooks(st, sellerId));
    var b :| b in OwnedBooks(st, sellerId);
    assert st.books[b].sellerId !in st.sellers - {sellerId};
  }

  // ---------------------------------------------------------------------------
  // Create

  /** A freshly created seller owns no books yet, so reading it back shows an
      empty `books` list. */
  lemma CreatedSellerHasNoBooks(st: Store, body: IncomingSeller, hash: string -> string)
    requires BooksOwned(st)
    requires RegexMatch(body.email)
    ensures OwnedBooks(CreateSeller(st, body, hash).0, CreateSeller(st, body, hash).1.body.seller.id) == {}
  {
    var id := CreateSeller(st, body, hash).1.body.seller.id;
    var st' := CreateSeller(st, body, hash).0;
    forall b | b in st'.books ensures st'.books[b].sellerId != id {
      assert st.books[b].sellerId in st.sellers;
    }
    if OwnedBooks(st', id) != {} {
      NonEmptyHasMember(OwnedBooks(st', id));
      assert false;
    }
  }

  /** Create adds exactly one seller row and no book row. */
  lemma CreateAddsOneRow(st: Store, body: IncomingSeller, hash: string -> string)
    requires RegexMatch(body.email)
    ensures |CreateSeller(st, body, hash).0.sellers| == |st.sellers| + 1
    ensures |CreateSeller(st, body, hash).0.books| == |st.books|
  {
    var r := CreateSeller(st, body, hash);
    var id := r.1.body.seller.id;
    assert r.0.sellers.Keys == st.sellers.Keys + {id};
    assert |r.0.sellers.Keys| == |st.sellers.Keys| + 1;
  }

  /** Deleting the seller that was just created gives back the store as it
      was: the new id owns no book, so the cascade removes nothing else. */
  lemma CreateThenDeleteRestores(st: Store, body: IncomingSeller, hash: string -> string)
    requires BooksOwned(st)
    requires RegexMatch(body.email)
    ensures DeleteSeller(CreateSeller(st, body, hash).0, CreateSeller(st, body, hash).1.body.seller.id).0 == st
  {
    var r := CreateSeller(st, body, hash);
    var id := r.1.body.seller.id;
    CreatedSellerHasNoBooks(st, body, hash);
    var st' := DeleteSeller(r.0, id).0;
    assert st'.sellers == st.sellers;
    assert st'.books == st.books;
  }

  /** The response to Create does not depend on the password it was given. */
  lemma CreateResponseHidesPassword(st: Store, body: IncomingSeller, password: string, hash: string -> string)
    ensures CreateSeller(st, body, hash).1 == CreateSeller(st, body.(password := password), hash).1
  {
  }

  // ---------------------------------------------------------------------------
  // Delete

  /** Deleting the same id twice is the same as deleting it once. */
  lemma DeleteIdempotent(st: Store, sellerId: int)
    ensures DeleteSeller(DeleteSeller(st, sellerId).0, sellerId) == DeleteSeller(st, sellerId)
  {
  }

  /** Deletes of two ids can be done in either order. */
  lemma DeleteCommutes(st: Store, a: int, b: int)
    ensures DeleteSeller(DeleteSeller(st, a).0, b).0 == DeleteSeller(DeleteSeller(st, b).0, a).0
  {
    var ab := DeleteSeller(DeleteSeller(st, a).0, b).0;
    var ba := DeleteSeller(DeleteSeller(st, b).0, a).0;
    assert ab.sellers == ba.sellers;
    assert ab.books == ba.books;
  }

  /** Deleting an existing seller removes one seller row and exactly as many
      book rows as the seller owned. */
  lemma DeleteRowCounts(st: Store, sellerId: int)
    requires sellerId in st.sellers
    ensures |DeleteSeller(st, sellerId).0.sellers| == |st.sellers| - 1
    ensures |DeleteSeller(st, sellerId).0.books| == |st.books| - |OwnedBooks(st, sellerId)|
  {
    var st' := DeleteSeller(st, sellerId).0;
    assert st'.sellers.Keys == st.sellers.Keys - {sellerId};
    assert OwnedBooks(st, sellerId) <= st.books.Keys;
    assert st'.books.Keys == st.books.Keys - OwnedBooks(st, sellerId);
    assert |st'.books.Keys| == |st.books.Keys| - |OwnedBooks(st, sellerId)|;
  }

  // ---------------------------------------------------------------------------
  // Update

  /** The id carried in the PUT body is ignored: only the path id counts. */
  lemma UpdateIgnoresBodyId(st: Store, sellerId: int, body: ReturnedNewSeller, otherId: int)
    ensures UpdateSeller(st, sellerId, body) == UpdateSeller(st, sellerId, body.(id := otherId))
  {
  }

  /** Sending the same update twice leaves the store as sending it once, and
      gets the same answer. */
  lemma UpdateIdempotent(st: Store, sellerId: int, body: ReturnedNewSeller)
    ensures UpdateSeller(UpdateSeller(st, sellerId, body).0, sellerId, body) == UpdateSeller(st, sellerId, body)
  {
    var r := UpdateSeller(st, sellerId, body);
    if RegexMatch(body.email) && sellerId in st.sellers {
      var r2 := UpdateSeller(r.0, sellerId, body);
      assert r2.0.sellers == r.0.sellers;
    }
  }

  /** After a successful update, reading the seller back shows the new fields
      under the path id and the same books as before. */
  lemma UpdateThenReadBack(st: Store, sellerId: int, body: ReturnedNewSeller)
    requires RegexMatch(body.email)
    requires sellerId in st.sellers
    ensures SellerOut(sellerId, UpdateSeller(st, sellerId, body).0.sellers[sellerId]) == body.(id := sellerId)
    ensures OwnedBooks(UpdateSeller(st, sellerId, body).0, sellerId) == OwnedBooks(st, sellerId)
  {
  }

  // ---------------------------------------------------------------------------
  // Reads

  /** A listing of all sellers is, as a set, the projection of the sellers
      table, and it repeats no entry. */
  lemma ListingIsSetOfProjections(list: seq<ReturnedNewSeller>, st: Store)
    requires ListsAllSellers(list, st)
    ensures (set i | 0 <= i < |list| :: list[i]) == (set k | k in st.sellers :: SellerOut(k, st.sellers[k]))
    ensures forall i, j :: 0 <= i < j < |list| ==> list[i] != list[j]
  {
    var listed := set i | 0 <= i < |list| :: list[i];
    var stored := set k | k in st.sellers :: SellerOut(k, st.sellers[k]);
    forall v | v in stored ensures v in listed {
      var k :| k in st.sellers && v == SellerOut(k, st.sellers[k]);
      var i :| 0 <= i < |list| && list[i].id == k;
      assert list[i] == v;
    }
  }

  /** Two stores that differ only in passwords. */
  ghost predicate SamePublicData(st1: Store, st2: Store) {
    && st1.books == st2.books
    && st1.sellers.Keys == st2.sellers.Keys
    && forall k :: k in st1.sellers ==>
         st1.sellers[k].(password := "") == st2.sellers[k].(password := "")
  }

  /** No read shows a password: the listings a read may answer with are the
      same for two stores that differ only in passwords. */
  lemma ReadsHidePasswords(st1: Store, st2: Store, sellers: seq<ReturnedNewSeller>,
                           books: seq<ReturnedBookSeller>, sellerId: int)
    requires SamePublicData(st1, st2)
    ensures ListsAllSellers(sellers, st1) <==> ListsAllSellers(sellers, st2)
    ensures ListsOwnedBooks(books, st1, sellerId) <==> ListsOwnedBooks(books, st2, sellerId)
    ensures sellerId in st1.sellers ==>
      SellerOut(sellerId, st1.sellers[sellerId]) == SellerOut(sellerId, st2.sellers[sellerId])
  {
    assert OwnedBooks(st1, sellerId) == OwnedBooks(st2, sellerId);
    forall k | k in st1.sellers ensures SellerOut(k, st1.sellers[k]) == SellerOut(k, st2.sellers[k]) {
      assert st1.sellers[k].(password := "").email == st2.sellers[k].(password := "").email;
      assert st1.sellers[k].(password := "").firstName == st2.sellers[k].(password := "").firstName;
      assert st1.sellers[k].(password := "").lastName == st2.sellers[k].(password := "").lastName;
    }
  }
}
