/**
  The two tables the seller handlers work on, and the facts the handlers keep
  true of them.

  A table is a map from primary key to row, so a row does not repeat its own
  id.  The seller's `books` relationship is not stored: it is the set of book
  rows whose `sellerId` column holds the seller's id (`OwnedBooks`).
 */
module Models {
  import opened Email

  /** A row of the sellers table (its id is the key it is stored under). */
  datatype Seller = Seller(firstName: string, lastName: string, email: string, password: string)

  /** A row of the books table; `sellerId` is the owner column. */
  datatype Book = Book(title: string, author: string, year: int, countPages: int, sellerId: int)

  /** The database as the handlers see it. */
  datatype Store = Store(sellers: map<int, Seller>, books: map<int, Book>)

  /** Ids of the books whose owner column holds `sellerId`: the seller's
      `books` relationship. */
  function OwnedBooks(st: Store, sellerId: int): set<int> {
    set b | b in st.books && st.books[b].sellerId == sellerId
  }

  /** Every stored email passed the validator. */
  ghost predicate EmailsValid(st: Store) {
    forall k :: k in st.sellers ==> RegexMatch(st.sellers[k].email)
  }

  /** Every book's owner exists: the owner column names a stored seller. */
  predicate BooksOwned(st: Store) {
    forall b :: b in st.books ==> st.books[b].sellerId in st.sellers
  }

  /** The store invariant the seller handlers maintain. */
  ghost predicate Valid(st: Store) {
    EmailsValid(st) && BooksOwned(st)
  }

  /** A non-empty set has a member to pick. */
  lemma NonEmptyHasMember(s: set<int>)
    requires s != {}
    ensures exists x :: x in s
  {
    if forall x :: x !in s {
      assert false;
    }
  }

  /** A finite non-empty set of integers has a largest element. */
  lemma {:induction false} MaxExists(ks: set<int>)
    requires ks != {}
    ensures exists m :: m in ks && forall k :: k in ks ==> k <= m
    decreases ks
  {
    NonEmptyHasMember(ks);
    var x :| x in ks;
    var rest := ks - {x};
    if rest == {} {
      assert ks == {x};
    } else {
      MaxExists(rest);
      var m :| m in rest && forall k :: k in rest ==> k <= m;
      var top := if x <= m then m else x;
      forall k | k in ks ensures k <= top {
        if k != x {
          assert k in rest;
        }
      }
    }
  }

  /** The id the database assigns to a new seller: one past the largest id in
      use, and 1 for an empty table.  It is never an id already in use. */
  function FreshSellerId(st: Store): (id: int)
    ensures id !in st.sellers
    ensures id >= 1
    ensures forall k :: k in st.sellers ==> k < id
  {
    var ks := st.sellers.Keys;
    if ks == {} then 1
    else
      MaxExists(ks);
      var m :| m in ks && forall k :: k in ks ==> k <= m;
      if m < 1 then 1 else m + 1
  }

  /** Lists the keys of a table in some order the database chooses: every key
      exactly once. */
  method Enumerate(ks: set<int>) returns (r: seq<int>)
    ensures |r| == |ks|
    ensures forall i :: 0 <= i < |r| ==> r[i] in ks
    ensures forall i, j :: 0 <= i < j < |r| ==> r[i] != r[j]
    ensures forall k :: k in ks ==> k in r
  {
    r := [];
    var rest := ks;
    while rest != {}
      invariant rest <= ks
      invariant forall i :: 0 <= i < |r| ==> r[i] in ks && r[i] !in rest
      invariant forall i, j :: 0 <= i < j < |r| ==> r[i] != r[j]
      invariant forall k :: k in ks ==> k in rest || k in r
      invariant |r| + |rest| == |ks|
      decreases rest
    {
      NonEmptyHasMember(rest);
      var k :| k in rest;
      r := r + [k];
      rest := rest - {k};
    }
  }
}
