/**
 * Book lookup by GUID in both variants, and the controllers' guard that
 * refuses to add a book whose GUID is already catalogued.
 */
module Catalog {
  import opened Common
  import opened Seqs
  import opened Library
  import RecordStore

  const AddedMessage := "Successfully added."
  const DuplicateMessage := "Book with specified unique GUID is in the library. Try different GUID."

  /** Some catalogued book carries `guid`. */
  ghost predicate HasBook(library: seq<Book>, guid: string)
  {
    exists i :: 0 <= i < |library| && library[i].guid == guid
  }

  /** BookService's `findBookByGUID`: the first book with this GUID, or None for `null`. */
  function FindBook(library: seq<Book>, guid: string): (r: Option<Book>)
    ensures r.None? <==> !HasBook(library, guid)
    ensures r.Some? ==>
      (exists i :: 0 <= i < |library| && library[i] == r.value && r.value.guid == guid
                   && forall j :: 0 <= j < i ==> library[j].guid != guid)
  {
    First(library, BookGuid, guid)
  }

  /** Tasks' result object: a filled-in book, or an empty one whose getters all return null. */
  datatype BookObject = EmptyBook | LoadedBook(book: Book)
  {
    /** `getGUID()`. */
    function Guid(): Option<string>
    {
      match this
      case EmptyBook => None
      case LoadedBook(b) => Some(b.guid)
    }
  }

  /**
   * Tasks' `findBookByGUID`: scan the library, copy the first match into a
   * fresh book and stop; with no match the book stays empty.
   */
  method FindBookOrEmpty(library: seq<Book>, guid: string) returns (book: BookObject)
    ensures book.Guid() == None <==> !HasBook(library, guid)
    ensures book.Guid() != None ==> book.Guid() == Some(guid)
    ensures FindBook(library, guid).Some? ==> book == LoadedBook(FindBook(library, guid).value)
  {
    book := EmptyBook;
    var i := 0;
    while i < |library|
      invariant 0 <= i <= |library|
      invariant book == EmptyBook
      invariant First(library, BookGuid, guid) == First(library[i..], BookGuid, guid)
    {
      if library[i].guid == guid {
        book := LoadedBook(library[i]);
        return;
      }
      assert library[i..][1..] == library[i + 1..];
      i := i + 1;
    }
  }

  /**
   * The controllers' add-book step: add the book only when no catalogued
   * book has its GUID, so GUIDs stay unique.
   */
  function AddBook(s: Store, b: Book): (r: Reply)
    ensures HasBook(s.library, b.guid) ==> r == Reply(DuplicateMessage, s)
    ensures !HasBook(s.library, b.guid) ==>
      r.message == AddedMessage && r.store == RecordStore.Append(s, BookRecord(b))
    ensures UniqueKeys(s.library, BookGuid) ==> UniqueKeys(r.store.library, BookGuid)
    ensures r.store.reservations == s.reservations
  {
    if FindBook(s.library, b.guid).None? then
      Reply(AddedMessage, RecordStore.Append(s, BookRecord(b)))
    else
      Reply(DuplicateMessage, s)
  }

  /** A book just added is what a lookup of its GUID returns. */
  lemma AddThenFind(s: Store, b: Book)
    requires !HasBook(s.library, b.guid)
    ensures FindBook(AddBook(s, b).store.library, b.guid) == Some(b)
  {
  }

  /** After a book GUID is removed from the library, a lookup of it finds nothing. */
  lemma RemoveThenFind(s: Store, guid: string)
    ensures FindBook(RecordStore.Remove(s, guid, LibraryFile).value.library, guid) == None
  {
  }
}
