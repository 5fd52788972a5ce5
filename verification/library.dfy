/**
 * The persisted entities of the book library: books in the "library"
 * collection and reservations in the "reservations" collection, each a
 * sequence read and written as a whole.
 */
module Library {
  import opened Seqs

  /** Java's 32-bit `Integer`, the type of a book's ISBN and a reservation's period. */
  type Int32 = x: int | -0x8000_0000 <= x < 0x8000_0000

  /** A publication date in ISO form; no operation here inspects it. */
  datatype Date = Date(iso: string)

  /** A catalogued book; its GUID is the key every lookup and removal uses. */
  datatype Book = Book(
    name: string,
    author: string,
    category: string,
    language: string,
    publicationDate: Date,
    isbn: Int32,
    guid: string)

  /** A person's reservation of one book, referring to the book by its GUID. */
  datatype Reservation = Reservation(person: string, period: Int32, bookGuid: string)

  /** Both collections as they are on disk. */
  datatype Store = Store(library: seq<Book>, reservations: seq<Reservation>)

  /** What can be saved: a book or a reservation. */
  datatype Record = BookRecord(book: Book) | ReservationRecord(reservation: Reservation)

  /** The message an operation returns, with the store it leaves behind. */
  datatype Reply = Reply(message: string, store: Store)

  const LibraryFile := "library"
  const ReservationsFile := "reservations"

  /** The most reservations one person may hold at once. */
  const MaxReservations := 3

  function BookGuid(b: Book): string
  {
    b.guid
  }

  function ReservedGuid(r: Reservation): string
  {
    r.bookGuid
  }

  function Person(r: Reservation): string
  {
    r.person
  }

  /** The GUID under which a record is stored and removed. */
  function RecordGuid(rec: Record): string
  {
    match rec
    case BookRecord(b) => b.guid
    case ReservationRecord(r) => r.bookGuid
  }

  /** At most one reservation per book GUID and at most three per person. */
  ghost predicate LedgerInvariant(reservations: seq<Reservation>)
  {
    && UniqueKeys(reservations, ReservedGuid)
    && forall p :: CountKey(reservations, Person, p) <= MaxReservations
  }

  /** Book GUIDs are unique and the ledger keeps its limits. */
  ghost predicate StoreInvariant(s: Store)
  {
    UniqueKeys(s.library, BookGuid) && LedgerInvariant(s.reservations)
  }
}
