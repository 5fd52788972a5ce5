/**
 * Whole-collection persistence, `saveDataToFile` and `removeBooksByGUID` of
 * both Tasks.java and BookService.java: read the named collection, change it
 * in memory, write it back. Reading and writing the JSON file are treated as
 * the identity on the collection.
 */
module RecordStore {
  import opened Common
  import opened Seqs
  import opened Library

  datatype StoreError =
    | WrongFileName(message: string)  // IllegalArgumentException with this message
    | RecordDoesNotFit                // a book aimed at "reservations" or the reverse

  const SaveNameError := "Wrong file name in saveDataToFile(Object object, String fileName)"
  const RemoveNameError := "Wrong file name in removeBooksByGUID(String GUID, String fileName)"

  /** The only two collection names storage accepts. */
  predicate IsCollection(fileName: string)
  {
    fileName == LibraryFile || fileName == ReservationsFile
  }

  /** A record goes to the collection of its own kind. */
  predicate Fits(rec: Record, fileName: string)
  {
    match rec
    case BookRecord(_) => fileName == LibraryFile
    case ReservationRecord(_) => fileName == ReservationsFile
  }

  /** The record, placed after every record already in its collection. */
  function Append(s: Store, rec: Record): (s': Store)
    ensures rec.BookRecord? ==>
      && s'.reservations == s.reservations
      && |s'.library| == |s.library| + 1
      && s'.library[..|s.library|] == s.library
      && s'.library[|s.library|] == rec.book
    ensures rec.ReservationRecord? ==>
      && s'.library == s.library
      && |s'.reservations| == |s.reservations| + 1
      && s'.reservations[..|s.reservations|] == s.reservations
      && s'.reservations[|s.reservations|] == rec.reservation
  {
    match rec
    case BookRecord(b) => s.(library := s.library + [b])
    case ReservationRecord(r) => s.(reservations := s.reservations + [r])
  }

  /** `saveDataToFile`: reject an unknown collection name, otherwise append. */
  function Save(s: Store, rec: Record, fileName: string): (r: Result<Store, StoreError>)
    ensures !IsCollection(fileName) ==> r == Err(WrongFileName(SaveNameError))
    ensures r.Ok? <==> IsCollection(fileName) && Fits(rec, fileName)
    ensures r.Ok? ==> r.value == Append(s, rec)
  {
    if fileName != LibraryFile && fileName != ReservationsFile then Err(WrongFileName(SaveNameError))
    else if !Fits(rec, fileName) then Err(RecordDoesNotFit)
    else Ok(Append(s, rec))
  }

  /** `getListOfBooks`: every stored book in storage order. */
  function ListBooks(s: Store): seq<Book>
  {
    s.library
  }

  /**
   * `removeBooksByGUID`: reject an unknown collection name; otherwise drop
   * every record of that collection whose GUID is `guid`, keep the rest in
   * order, and leave the other collection alone.
   */
  function Remove(s: Store, guid: string, fileName: string): (r: Result<Store, StoreError>)
    ensures !IsCollection(fileName) ==> r == Err(WrongFileName(RemoveNameError))
    ensures fileName == LibraryFile ==>
      && r.Ok?
      && r.value.reservations == s.reservations
      && (forall i :: 0 <= i < |r.value.library| ==> r.value.library[i].guid != guid)
      && IsSubsequence(r.value.library, s.library)
      && |r.value.library| == |s.library| - CountKey(s.library, BookGuid, guid)
    ensures fileName == ReservationsFile ==>
      && r.Ok?
      && r.value.library == s.library
      && (forall i :: 0 <= i < |r.value.reservations| ==> r.value.reservations[i].bookGuid != guid)
      && IsSubsequence(r.value.reservations, s.reservations)
      && |r.value.reservations| == |s.reservations| - CountKey(s.reservations, ReservedGuid, guid)
  {
    if fileName == LibraryFile then Ok(s.(library := Without(s.library, BookGuid, guid)))
    else if fileName == ReservationsFile then Ok(s.(reservations := Without(s.reservations, ReservedGuid, guid)))
    else Err(WrongFileName(RemoveNameError))
  }

  /** The source's removal: the name check, then the index loop that removes in place. */
  method RemoveBooksByGuid(s: Store, guid: string, fileName: string) returns (r: Result<Store, StoreError>)
    ensures r == Remove(s, guid, fileName)
  {
    if fileName != LibraryFile && fileName != ReservationsFile {
      return Err(WrongFileName(RemoveNameError));
    }
    if fileName == LibraryFile {
      var books := RemoveMatching(s.library, BookGuid, guid);
      r := Ok(s.(library := books));
    } else {
      var reservations := RemoveMatching(s.reservations, ReservedGuid, guid);
      r := Ok(s.(reservations := reservations));
    }
  }

  /** Removing a GUID that no record of the collection carries is a no-op. */
  lemma RemoveAbsent(s: Store, guid: string, fileName: string)
    requires fileName == LibraryFile ==> forall i :: 0 <= i < |s.library| ==> s.library[i].guid != guid
    requires fileName == ReservationsFile ==>
      forall i :: 0 <= i < |s.reservations| ==> s.reservations[i].bookGuid != guid
    requires IsCollection(fileName)
    ensures Remove(s, guid, fileName) == Ok(s)
  {
    if fileName == LibraryFile {
      WithoutAbsent(s.library, BookGuid, guid);
    } else {
      WithoutAbsent(s.reservations, ReservedGuid, guid);
    }
  }

  /** Saving a record under a fresh GUID and then removing that GUID restores the store. */
  lemma SaveThenRemove(s: Store, rec: Record, fileName: string)
    requires Fits(rec, fileName)
    requires rec.BookRecord? ==> forall i :: 0 <= i < |s.library| ==> s.library[i].guid != rec.book.guid
    requires rec.ReservationRecord? ==>
      forall i :: 0 <= i < |s.reservations| ==> s.reservations[i].bookGuid != rec.reservation.bookGuid
    ensures Save(s, rec, fileName).Ok?
    ensures Remove(Save(s, rec, fileName).value, RecordGuid(rec), fileName) == Ok(s)
  {
    match rec
    case BookRecord(b) =>
      WithoutAppend(s.library, [b], BookGuid, b.guid);
      WithoutAbsent(s.library, BookGuid, b.guid);
      assert Without(s.library + [b], BookGuid, b.guid) == s.library;
    case ReservationRecord(x) =>
      WithoutAppend(s.reservations, [x], ReservedGuid, x.bookGuid);
      WithoutAbsent(s.reservations, ReservedGuid, x.bookGuid);
      assert Without(s.reservations + [x], ReservedGuid, x.bookGuid) == s.reservations;
  }

  /**
   * What `getListOfBooks` reads back after a write: a saved book is listed
   * last, a removal lists the books without that GUID, and writes to the
   * reservations collection leave the list alone.
   */
  lemma ListAfterWrite(s: Store, rec: Record, guid: string, fileName: string)
    requires IsCollection(fileName)
    ensures Save(s, rec, fileName).Ok? ==>
      ListBooks(Save(s, rec, fileName).value)
      == if rec.BookRecord? then ListBooks(s) + [rec.book] else ListBooks(s)
    ensures fileName == LibraryFile ==>
      ListBooks(Remove(s, guid, fileName).value) == Without(ListBooks(s), BookGuid, guid)
    ensures fileName == ReservationsFile ==> ListBooks(Remove(s, guid, fileName).value) == ListBooks(s)
  {
  }

  /** Removal never breaks GUID uniqueness or the per-person limit. */
  lemma RemoveKeepsInvariant(s: Store, guid: string, fileName: string)
    requires StoreInvariant(s)
    requires IsCollection(fileName)
    ensures StoreInvariant(Remove(s, guid, fileName).value)
  {
    if fileName == LibraryFile {
      UniqueWithout(s.library, BookGuid, guid);
    } else {
      var after := Without(s.reservations, ReservedGuid, guid);
      UniqueWithout(s.reservations, ReservedGuid, guid);
      forall p ensures CountKey(after, Person, p) <= MaxReservations {
        CountWithout(s.reservations, ReservedGuid, guid, Person, p);
      }
    }
  }
}
