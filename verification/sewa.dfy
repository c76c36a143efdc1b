/** The rental ("sewa") routes: open, read, update and close a rental, each as
    a transition over the store that either fails with an error, leaving the
    store as it was, or yields the new store. */
module Sewa {
  import opened Results
  import opened Records
  import opened Store
  import opened Lateness

  /** A rental with its member and book references resolved, as a populated
      query returns it: a reference whose record is gone resolves to nothing. */
  datatype Resolved = Resolved(
    id: RentalId,
    member: Option<Member>,
    book: Option<Book>,
    startDate: Millis,
    endDate: Millis)

  /** The body of an update request: every field may be absent. */
  datatype Patch = Patch(
    memberId: Option<MemberId>,
    bookId: Option<BookId>,
    startDate: Option<Millis>,
    endDate: Option<Millis>)

  /** The store once a request has been handled: the new store on success,
      the unchanged one on any error. */
  function After(s: Store, r: Result<Store>): Store
  {
    if r.Ok? then r.value else s
  }

  /** Find-by-id on one collection of the store. */
  function FindById<K, V>(m: map<K, V>, k: K): (r: Option<V>)
    ensures r.Some? <==> k in m
    ensures r.Some? ==> r.value == m[k]
  {
    if k in m then Some(m[k]) else None
  }

  function Resolve(s: Store, id: RentalId, r: Rental): Resolved
  {
    Resolved(id, FindById(s.members, r.memberId), FindById(s.books, r.bookId), r.startDate, r.endDate)
  }

  // ----- Reading -----

  /** Look a rental up by id and resolve its references; the guard every
      by-id route runs first. */
  function Get(s: Store, id: RentalId): (r: Result<Resolved>)
    ensures r.Err? <==> id !in s.rentals
    ensures r.Err? ==> r.error == NotFound
    ensures r.Ok? ==> r.value.id == id
    ensures r.Ok? ==> r.value.startDate == s.rentals[id].startDate && r.value.endDate == s.rentals[id].endDate
    ensures r.Ok? ==> (r.value.member.Some? <==> s.rentals[id].memberId in s.members)
    ensures r.Ok? && r.value.member.Some? ==> r.value.member.value == s.members[s.rentals[id].memberId]
    ensures r.Ok? ==> (r.value.book.Some? <==> s.rentals[id].bookId in s.books)
    ensures r.Ok? && r.value.book.Some? ==> r.value.book.value == s.books[s.rentals[id].bookId]
  {
    if id in s.rentals then Ok(Resolve(s, id, s.rentals[id])) else Err(NotFound)
  }

  /** Every rental, resolved; each entry is what a by-id read returns. */
  function List(s: Store): (rs: map<RentalId, Resolved>)
    ensures rs.Keys == s.rentals.Keys
    ensures forall k :: k in rs ==> Get(s, k) == Ok(rs[k])
  {
    map k | k in s.rentals :: Resolve(s, k, s.rentals[k])
  }

  // ----- Opening -----

  /** Open a rental under the id `newId` the store assigns. Both references
      must exist, and the member may not already hold `MaxRentals` rentals. */
  function Open(s: Store, newId: RentalId, memberId: MemberId, bookId: BookId,
                startDate: Millis, endDate: Millis): (r: Result<Store>)
    requires newId !in s.rentals
    ensures r == Err(NotFound) <==> memberId !in s.members || bookId !in s.books
    ensures r == Err(LimitExceeded) <==>
      memberId in s.members && bookId in s.books && Count(s.rentals, memberId) >= MaxRentals
    ensures r.Ok? ==>
      && r.value.members == s.members
      && r.value.books == s.books
      && r.value.rentals.Keys == s.rentals.Keys + {newId}
      && r.value.rentals[newId] == Rental(memberId, bookId, startDate, endDate)
      && (forall k :: k in s.rentals ==> r.value.rentals[k] == s.rentals[k])
      && Count(r.value.rentals, memberId) == Count(s.rentals, memberId) + 1
  {
    if memberId !in s.members || bookId !in s.books then
      Err(NotFound)
    else if Count(s.rentals, memberId) >= MaxRentals then
      Err(LimitExceeded)
    else
      var rental := Rental(memberId, bookId, startDate, endDate);
      CountInsert(s.rentals, newId, rental, memberId);
      Ok(s.(rentals := s.rentals[newId := rental]))
  }

  /** The open-rental handler step by step: two lookups, the count query,
      then the insert. It decides exactly as `Open` does. */
  method HandleOpen(s: Store, newId: RentalId, memberId: MemberId, bookId: BookId,
                    startDate: Millis, endDate: Millis) returns (r: Result<Store>)
    requires newId !in s.rentals
    ensures r == Open(s, newId, memberId, bookId, startDate, endDate)
  {
    var member := FindById(s.members, memberId);
    var book := FindById(s.books, bookId);
    if member.None? || book.None? {
      return Err(NotFound);
    }
    var count := CountDocuments(s.rentals, memberId);
    if count >= MaxRentals {
      return Err(LimitExceeded);
    }
    var rental := Rental(memberId, bookId, startDate, endDate);
    r := Ok(s.(rentals := s.rentals[newId := rental]));
  }

  /** Whatever its outcome, opening a rental keeps every member within the
      cap, and changes no member's count except the opener's. */
  lemma OpenPreservesCap(s: Store, newId: RentalId, memberId: MemberId, bookId: BookId,
                         startDate: Millis, endDate: Millis)
    requires newId !in s.rentals
    requires CapHolds(s)
    ensures CapHolds(After(s, Open(s, newId, memberId, bookId, startDate, endDate)))
    ensures forall m :: m != memberId ==>
      Count(After(s, Open(s, newId, memberId, bookId, startDate, endDate)).rentals, m) == Count(s.rentals, m)
  {
    var r := Open(s, newId, memberId, bookId, startDate, endDate);
    if r.Ok? {
      var rental := Rental(memberId, bookId, startDate, endDate);
      assert r.value.rentals == s.rentals[newId := rental];
      forall m
        ensures Count(r.value.rentals, m) == Count(s.rentals, m) + (if m == memberId then 1 else 0)
      {
        CountInsert(s.rentals, newId, rental, m);
      }
    }
  }

  /** A freshly opened rental resolves both of its references. */
  lemma OpenedRentalResolves(s: Store, newId: RentalId, memberId: MemberId, bookId: BookId,
                             startDate: Millis, endDate: Millis)
    requires newId !in s.rentals
    requires Open(s, newId, memberId, bookId, startDate, endDate).Ok?
    ensures Get(Open(s, newId, memberId, bookId, startDate, endDate).value, newId)
      == Ok(Resolved(newId, Some(s.members[memberId]), Some(s.books[bookId]), startDate, endDate))
  {
  }

  // ----- Updating -----

  /** The rental with every supplied field of `p` written over it. */
  function Patched(was: Rental, p: Patch): (now: Rental)
    ensures p.memberId.Some? ==> now.memberId == p.memberId.value
    ensures p.memberId.None? ==> now.memberId == was.memberId
    ensures p.bookId.Some? ==> now.bookId == p.bookId.value
    ensures p.bookId.None? ==> now.bookId == was.bookId
    ensures p.startDate.Some? ==> now.startDate == p.startDate.value
    ensures p.startDate.None? ==> now.startDate == was.startDate
    ensures p.endDate.Some? ==> now.endDate == p.endDate.value
    ensures p.endDate.None? ==> now.endDate == was.endDate
  {
    Rental(p.memberId.GetOr(was.memberId), p.bookId.GetOr(was.bookId),
           p.startDate.GetOr(was.startDate), p.endDate.GetOr(was.endDate))
  }

  /** Update a rental in place. Neither the cap nor the new references are
      checked again. */
  function Update(s: Store, id: RentalId, p: Patch): (r: Result<Store>)
    ensures r.Err? <==> id !in s.rentals
    ensures r.Err? ==> r.error == NotFound
    ensures r.Ok? ==>
      && r.value.members == s.members
      && r.value.books == s.books
      && r.value.rentals.Keys == s.rentals.Keys
      && (forall k :: k in s.rentals && k != id ==> r.value.rentals[k] == s.rentals[k])
    ensures r.Ok? ==>
      var was, now := s.rentals[id], r.value.rentals[id];
      && (if p.memberId.Some? then now.memberId == p.memberId.value else now.memberId == was.memberId)
      && (if p.bookId.Some? then now.bookId == p.bookId.value else now.bookId == was.bookId)
      && (if p.startDate.Some? then now.startDate == p.startDate.value else now.startDate == was.startDate)
      && (if p.endDate.Some? then now.endDate == p.endDate.value else now.endDate == was.endDate)
  {
    match Get(s, id)
    case Err(e) => Err(e)
    case Ok(_) => Ok(s.(rentals := s.rentals[id := Patched(s.rentals[id], p)]))
  }

  /** An update that supplies no field changes nothing. */
  lemma UpdateWithNothingIsIdentity(s: Store, id: RentalId)
    ensures After(s, Update(s, id, Patch(None, None, None, None))) == s
  {
  }

  /** Applying the same update twice is the same as applying it once. */
  lemma UpdateIdempotent(s: Store, id: RentalId, p: Patch)
    ensures Update(After(s, Update(s, id, p)), id, p) == Update(s, id, p)
  {
    if id in s.rentals {
      var s1 := After(s, Update(s, id, p));
      assert Patched(s1.rentals[id], p) == s1.rentals[id];
      assert s1.rentals[id := Patched(s1.rentals[id], p)] == s1.rentals;
    }
  }

  /** A store where member 1 holds two rentals and member 2 holds one. */
  function CapExample(): Store
  {
    Store(
      map[1 := Member("M1", "A", "", NoPenalty), 2 := Member("M2", "B", "", NoPenalty)],
      map[1 := Book("B1", "T", "W", 1)],
      map[10 := Rental(1, 1, 0, MsPerDay),
          11 := Rental(1, 1, 0, MsPerDay),
          12 := Rental(2, 1, 0, MsPerDay)])
  }

  /** Because update never consults the cap, moving member 2's rental over
      to member 1 leaves member 1 holding three rentals. */
  lemma UpdateCanBreakCap()
    ensures CapHolds(CapExample())
    ensures Update(CapExample(), 12, Patch(Some(1), None, None, None)).Ok?
    ensures !CapHolds(Update(CapExample(), 12, Patch(Some(1), None, None, None)).value)
  {
    var s := CapExample();
    forall m ensures Count(s.rentals, m) <= MaxRentals {
      if m == 1 {
        assert RentalsOf(s.rentals, m) == {10, 11};
      } else if m == 2 {
        assert RentalsOf(s.rentals, m) == {12};
      } else {
        assert RentalsOf(s.rentals, m) == {};
      }
    }
    var after := Update(s, 12, Patch(Some(1), None, None, None)).value;
    assert RentalsOf(after.rentals, 1) == {10, 11, 12};
    assert Count(after.rentals, 1) == 3;
  }

  // ----- Closing -----

  /** The members with `m`'s penalty flag set, when `m` is a member. */
  function Penalize(members: map<MemberId, Member>, m: MemberId): (r: map<MemberId, Member>)
    ensures r.Keys == members.Keys
    ensures forall k :: k in members && k != m ==> r[k] == members[k]
    ensures m in members ==> r[m] == members[m].(penalty := Flagged)
  {
    if m in members then members[m := members[m].(penalty := Flagged)] else members
  }

  /** Close a rental: delete its record, then flag its member when the
      closing time lies more than seven days, rounded up, from the end date. */
  function Close(s: Store, id: RentalId, now: Millis): (r: Result<Store>)
    ensures r.Err? <==> id !in s.rentals
    ensures r.Err? ==> r.error == NotFound
    ensures r.Ok? ==>
      && r.value.books == s.books
      && r.value.rentals.Keys == s.rentals.Keys - {id}
      && (forall k :: k in r.value.rentals ==> r.value.rentals[k] == s.rentals[k])
      && r.value.members.Keys == s.members.Keys
    ensures r.Ok? ==> forall m :: m in s.members && m != s.rentals[id].memberId ==>
      r.value.members[m] == s.members[m]
    ensures r.Ok? && Abs(now - s.rentals[id].endDate) <= GraceDays * MsPerDay ==>
      r.value.members == s.members
    ensures r.Ok? ==> forall m :: m in s.members ==>
      && (s.members[m].penalty != Flagged ==>
            (r.value.members[m].penalty == Flagged <==>
               m == s.rentals[id].memberId && Abs(now - s.rentals[id].endDate) > GraceDays * MsPerDay))
      && (r.value.members[m] == s.members[m] || r.value.members[m] == s.members[m].(penalty := Flagged))
  {
    match Get(s, id)
    case Err(e) => Err(e)
    case Ok(_) =>
      var closed := s.rentals[id];
      var removed := s.(rentals := s.rentals - {id});
      if IsLate(now, closed.endDate) then
        Ok(removed.(members := Penalize(removed.members, closed.memberId)))
      else
        Ok(removed)
  }

  /** Closing the same rental twice: the second call finds nothing and
      applies no penalty again. */
  lemma CloseTwiceFails(s: Store, id: RentalId, now: Millis, later: Millis)
    requires Close(s, id, now).Ok?
    ensures Close(Close(s, id, now).value, id, later) == Err(NotFound)
    ensures After(Close(s, id, now).value, Close(Close(s, id, now).value, id, later)) == Close(s, id, now).value
  {
  }

  /** A member already flagged stays flagged, and no closure ever resets a
      penalty. */
  lemma ClosePenaltyIsMonotone(s: Store, id: RentalId, now: Millis, m: MemberId)
    requires m in s.members
    ensures m in After(s, Close(s, id, now)).members
    ensures s.members[m].penalty == Flagged ==> After(s, Close(s, id, now)).members[m].penalty == Flagged
    ensures After(s, Close(s, id, now)).members[m].penalty == s.members[m].penalty
         || After(s, Close(s, id, now)).members[m].penalty == Flagged
  {
  }

  /** Whatever its outcome, closing a rental keeps every member within the
      cap: counts only fall. */
  lemma ClosePreservesCap(s: Store, id: RentalId, now: Millis)
    requires CapHolds(s)
    ensures CapHolds(After(s, Close(s, id, now)))
  {
    var r := Close(s, id, now);
    if r.Ok? {
      assert r.value.rentals == s.rentals - {id};
      forall m ensures Count(r.value.rentals, m) <= MaxRentals {
        CountRemove(s.rentals, id, m);
      }
    }
  }

  /** 2023-06-01T00:00:00Z in milliseconds. */
  const June1: Millis := 1_685_577_600_000

  /** A rental ending on June 1 and closed on June 10 flags its member. */
  lemma CloseNineDaysLateFlags(s: Store, id: RentalId)
    requires id in s.rentals && s.rentals[id].endDate == June1
    requires s.rentals[id].memberId in s.members
    ensures Close(s, id, June1 + 9 * MsPerDay).Ok?
    ensures Close(s, id, June1 + 9 * MsPerDay).value.members[s.rentals[id].memberId].penalty == Flagged
  {
  }

  /** A rental ending on June 1 and closed on June 5 leaves every member as
      it was. */
  lemma CloseFourDaysLateKeepsMembers(s: Store, id: RentalId)
    requires id in s.rentals && s.rentals[id].endDate == June1
    ensures Close(s, id, June1 + 4 * MsPerDay).Ok?
    ensures Close(s, id, June1 + 4 * MsPerDay).value.members == s.members
  {
  }
}
