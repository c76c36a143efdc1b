/** The three record kinds the rental workflow touches: members, books and
    rentals. Identifiers are abstract numbers standing for the ids the
    document store assigns. */
module Records {

  type MemberId = nat
  type BookId = nat
  type RentalId = nat

  /** A point in time as a JavaScript `Date` holds it: whole milliseconds
      since the epoch. */
  type Millis = int

  /** The value a member's penalty field carries when it is created. */
  const NoPenalty: string := "n"

  /** The value the late-return rule writes into a member's penalty field. */
  const Flagged: string := "t"

  /** A library member. The penalty is a free string in the store; only
      `NoPenalty` and `Flagged` are ever written by the rental workflow. */
  datatype Member = Member(code: string, name: string, email: string, penalty: string)

  /** A book. Its stock is never read or written by the rental workflow. */
  datatype Book = Book(code: string, title: string, author: string, stock: int)

  /** A rental ("sewa"): one member holding one book over a date range. */
  datatype Rental = Rental(memberId: MemberId, bookId: BookId, startDate: Millis, endDate: Millis)
}
