/** The document store behind the rental routes, as three maps from id to
    record, and the per-member rental count the open-rental rule consults. */
module Store {
  import opened Records

  /** The most rentals one member may hold when a new one is opened. */
  const MaxRentals: nat := 2

  datatype Store = Store(
    members: map<MemberId, Member>,
    books: map<BookId, Book>,
    rentals: map<RentalId, Rental>)

  /** The ids of the rental records whose `memberId` is `m`: the documents a
      `countDocuments({ memberId })` query matches. */
  function RentalsOf(rentals: map<RentalId, Rental>, m: MemberId): set<RentalId>
  {
    set k | k in rentals && rentals[k].memberId == m
  }

  /** How many rental records name member `m`. */
  function Count(rentals: map<RentalId, Rental>, m: MemberId): nat
  {
    |RentalsOf(rentals, m)|
  }

  /** The cap on open rentals holds for every member id. */
  ghost predicate CapHolds(s: Store)
  {
    forall m :: Count(s.rentals, m) <= MaxRentals
  }

  /** Inserting a record under a fresh id adds one to its member's count and
      leaves every other member's count alone. */
  lemma CountInsert(rentals: map<RentalId, Rental>, k: RentalId, r: Rental, m: MemberId)
    requires k !in rentals
    ensures Count(rentals[k := r], m) == Count(rentals, m) + (if r.memberId == m then 1 else 0)
  {
    if r.memberId == m {
      assert RentalsOf(rentals[k := r], m) == RentalsOf(rentals, m) + {k};
    } else {
      assert RentalsOf(rentals[k := r], m) == RentalsOf(rentals, m);
    }
  }

  /** Removing a record takes one from its member's count and leaves every
      other member's count alone. */
  lemma CountRemove(rentals: map<RentalId, Rental>, k: RentalId, m: MemberId)
    requires k in rentals
    ensures Count(rentals - {k}, m) == Count(rentals, m) - (if rentals[k].memberId == m then 1 else 0)
  {
    if rentals[k].memberId == m {
      assert RentalsOf(rentals, m) == RentalsOf(rentals - {k}, m) + {k};
    } else {
      assert RentalsOf(rentals - {k}, m) == RentalsOf(rentals, m);
    }
  }

  /** The count query as the store runs it: a scan over every rental
      document, counting those whose `memberId` matches. */
  method CountDocuments(rentals: map<RentalId, Rental>, m: MemberId) returns (n: nat)
    ensures n == Count(rentals, m)
  {
    var todo := rentals.Keys;
    n := 0;
    while todo != {}
      invariant todo <= rentals.Keys
      invariant n == |RentalsOf(rentals, m) - todo|
      decreases todo
    {
      var k :| k in todo;
      if rentals[k].memberId == m {
        assert RentalsOf(rentals, m) - (todo - {k}) == (RentalsOf(rentals, m) - todo) + {k};
        n := n + 1;
      } else {
        assert RentalsOf(rentals, m) - (todo - {k}) == RentalsOf(rentals, m) - todo;
      }
      todo := todo - {k};
    }
  }
}
