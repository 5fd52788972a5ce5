# Book library catalog and reservation ledger, modelled in Dafny

The repository is a small Spring application that keeps a book catalog
(the `library` collection) and a reservation ledger (the `reservations`
collection) as two JSON arrays on disk. Every operation reads a whole
collection, changes it in memory and writes it back. The domain logic
exists twice. `Tasks` is the legacy class: it returns an empty `Book`
when a lookup misses and keeps filter options in an ordered list.
`BookService` is the refactored class: it returns `null` and keeps
filter options in a `HashSet`.

This project models that logic over an immutable `Store` of two
sequences:

- `Seqs`: the scans every operation is built from. It has first match
  by key, count by key, removal by key, and the in-place removal loop.
- `Decimal`: `Integer.toString`, used by the ISBN filter. It comes with
  a parser, a round-trip proof and an injectivity proof.
- `Library`: the `Book`, `Reservation`, `Store` and `Record`
  datatypes, and the store invariant. The invariant is: book GUIDs are
  unique, there is at most one reservation per book GUID, and at most
  three reservations per person.
- `RecordStore`: `saveDataToFile` and `removeBooksByGUID`, shared by
  both classes.
- `Catalog`: book lookup in both variants, and the controllers'
  duplicate-GUID guard.
- `Ledger`: reservation lookup, the per-person count, and `takeBook`.
  BookService's `takeBook` is the function `TakeBook`. Tasks' `takeBook`
  is the method `TakeBookLegacy`, and it is proved to return exactly
  what `TakeBook` returns.
- `Filters`: the taken/available partition, the field filter,
  `getBooksByParameters`, and both variants of `getListOfParameters`.
- `Scenarios`: the unit tests' scenarios, stated as lemmas. Some use
  the tests' own data. Others generalise a test to every input of its
  shape.

Tasks' `findBookByGUID`, `findReservationByGUID` and
`findCountOfTakenBooks` each get a Dafny method with Tasks' loop,
proved equal to the function that states the result. The listing and
filter loops (`getListOfBooks`, `getListOfParameters`,
`getBooksByParameters`, `findTakenOrAvailableBooks`) are modelled
directly as recursive functions, with no loop method. The index loop of `removeBooksByGUID` is the
same in both classes, and it too is a method proved equal to its
function. The two classes differ in three places, each modelled
separately: how a lookup reports "not found", the type of the option
collection, and the `""` option described below. Saving a record into
the collection of the other kind also differs; see "Left out".

The filter functions read the reservations collection inside the source.
In the model it is an explicit parameter holding the stored sequence.

For a field name the switch statements do not know, the two variants
differ, and the model follows each. With at least one book, BookService
returns `{""}`. Tasks returns an empty list.

## Model

| member | source | states |
|---|---|---|
| RecordStore.Save | src/main/java/com/example/booklibrary/services/BookService.java:262-294 | A name other than "library"/"reservations" fails with the fixed `saveDataToFile` message, and no store is produced. Success happens exactly when the name is valid and fits the record's kind, and then the result is the record appended. |
| RecordStore.Append | src/main/java/com/example/booklibrary/Tasks.java:33-49 | The new record becomes the last element of its own collection. Every earlier record stays in place, and the other collection is untouched. |
| RecordStore.ListAfterWrite | src/main/java/com/example/booklibrary/Tasks.java:95-109 | `getListOfBooks` lists a saved book after every earlier book. After a removal from the library it lists exactly the books without that GUID, in order. Writes to the reservations collection leave the list unchanged. BookService's version (BookService.java:43-53) reads the same collection. |
| RecordStore.Remove | src/main/java/com/example/booklibrary/services/BookService.java:169-186 | A bad name fails with the fixed `removeBooksByGUID` message. Otherwise no survivor carries the GUID, the survivors form an order-preserving subsequence, exactly the matching records are dropped (the length falls by their count), and the other collection is unchanged. |
| RecordStore.RemoveBooksByGuid | src/main/java/com/example/booklibrary/Tasks.java:237-264 | The name check followed by the in-place index loop gives exactly `Remove`'s result. |
| Seqs.RemoveMatching | src/main/java/com/example/booklibrary/Tasks.java:246-252 | The loop (`remove(i); i--` on a match) leaves exactly the non-matching elements, in order. No element is skipped after a removal. |
| Seqs.Without | src/main/java/com/example/booklibrary/services/BookService.java:177-183 | Removal by key: no survivor has the key, the result is a subsequence of the input, and its length is the input length minus the number of matches. |
| Seqs.WithoutContains | src/main/java/com/example/booklibrary/Tasks.java:246-252 | A record survives removal if and only if it was present and its key differs. |
| RecordStore.RemoveAbsent | src/main/java/com/example/booklibrary/Tasks.java:245-252 | Removing a GUID that no record of the collection carries returns the store unchanged. |
| RecordStore.SaveThenRemove | src/main/java/com/example/booklibrary/services/BookService.java:262-294 | Saving a record with a fresh GUID and then removing that GUID from the same collection restores the original store. |
| RecordStore.RemoveKeepsInvariant | src/main/java/com/example/booklibrary/services/BookService.java:169-186 | Removal preserves unique book GUIDs, unique reserved GUIDs and the three-per-person limit. |
| Catalog.FindBook | src/main/java/com/example/booklibrary/services/BookService.java:23-36 | The result is None (null) if and only if no book has the GUID. Otherwise it is the book at the first index whose GUID equals the argument. |
| Catalog.FindBookOrEmpty | src/main/java/com/example/booklibrary/Tasks.java:65-88 | The result's GUID is null if and only if no book has the GUID. Otherwise it is that GUID, and the loaded book is the one BookService finds. |
| Catalog.AddBook | src/main/java/com/example/booklibrary/EventController.java:60-67 | A book whose GUID is already catalogued is refused with the duplicate message and no change. Otherwise it is appended with "Successfully added.". Unique GUIDs stay unique, and reservations are untouched. |
| Catalog.AddThenFind | src/main/java/com/example/booklibrary/controllers/BookController.java:50-57 | After a book with a fresh GUID is added, looking up its GUID returns that book. |
| Catalog.RemoveThenFind | src/main/java/com/example/booklibrary/services/BookService.java:169-186 | After a GUID is removed from the library, looking it up finds nothing. |
| Ledger.FindReservation | src/main/java/com/example/booklibrary/services/BookService.java:221-234 | The result is None (null) if and only if no reservation refers to the GUID. Otherwise it is the reservation at the first index whose GUID equals the argument. |
| Ledger.FindReservationOrEmpty | src/main/java/com/example/booklibrary/Tasks.java:306-325 | The empty reservation (its GUID is null) comes back if and only if the book is unreserved. Otherwise the result is the reservation BookService finds. |
| Ledger.CountOfTakenBooks | src/main/java/com/example/booklibrary/services/BookService.java:242-254 | The count is at most the ledger's size. It is zero if and only if no reservation names the person. |
| Seqs.CountAppend | src/main/java/com/example/booklibrary/services/BookService.java:247-251 | Appending a record raises the count of its own key by exactly one and leaves every other key's count unchanged. |
| Ledger.CountTakenBooks | src/main/java/com/example/booklibrary/Tasks.java:333-349 | The counting loop computes the per-person count. |
| Ledger.TakeBook | src/main/java/com/example/booklibrary/services/BookService.java:195-213 | The checks run in this order: no such book, then already reserved, then three held. Each failure returns its fixed message and leaves the store unchanged. Only when all three pass is exactly this reservation appended, with "Book has been successfully taken.". |
| Ledger.TakeBookLegacy | src/main/java/com/example/booklibrary/Tasks.java:273-298 | Tasks' version (empty-object checks, `count < 3`) returns the same message and store as BookService's on every input. |
| Ledger.TakeBookKeepsInvariant | src/main/java/com/example/booklibrary/Tasks.java:278-287 | `takeBook` preserves at most one reservation per book GUID and at most three per person, and keeps book GUIDs unique. |
| Ledger.TakeTwiceRefused | src/main/java/com/example/booklibrary/services/BookService.java:201-204 | After a successful take, any take of the same book GUID gets "Book is already reserved." and changes nothing. |
| Ledger.RequestTake | src/main/java/com/example/booklibrary/controllers/BookController.java:90-98 | A period outside 1 to 60 days is refused with its message and no change. A period inside that range hands the request to `takeBook` and gets its reply. Valid periods in the ledger stay valid, and the library is untouched. |
| Filters.FieldValue | src/main/java/com/example/booklibrary/Tasks.java:168-189 | A field name selects a text exactly when it is one of author, category, language, ISBN or name. |
| Filters.IsTaken | src/main/java/com/example/booklibrary/services/BookService.java:141-150 | A book is Taken if and only if some reservation carries its GUID. |
| Filters.FindTakenOrAvailable | src/main/java/com/example/booklibrary/services/BookService.java:137-160 | Every book returned has the requested taken state. The result is an order-preserving subsequence of the input. |
| Filters.TakenCounts | src/main/java/com/example/booklibrary/Tasks.java:203-228 | A book keeps all of its copies in the partition of its own state and none in the other. |
| Filters.TakenAvailablePartition | src/main/java/com/example/booklibrary/Tasks.java:209-223 | The Taken and Available results together are exactly the input, as multisets and in total length, so every book lands in exactly one of them. |
| Filters.FilterByField | src/main/java/com/example/booklibrary/services/BookService.java:100-123 | Every book returned has the requested field text. The result is an order-preserving subsequence of the input. |
| Filters.FilterCounts | src/main/java/com/example/booklibrary/Tasks.java:167-190 | The field filter keeps every copy of each matching book and drops each other book. |
| Filters.GetBooksByParameters | src/main/java/com/example/booklibrary/Tasks.java:160-193 | "Taken" and "Available" select by reservation state whatever `filterBy` is. Any other option selects by exact field equality, and an unknown `filterBy` gives nothing. The result is always an order-preserving subsequence of the input. The BookService version (BookService.java:92-127) is identical. |
| Filters.GetBooksByParametersCounts | src/main/java/com/example/booklibrary/services/BookService.java:92-127 | Completeness and soundness together: each book the option selects keeps every one of its copies in the result, and no other book appears. A book is in the result if and only if it is in the input and selected. |
| Filters.IsbnFilter | src/main/java/com/example/booklibrary/Tasks.java:181-183 | Filtering by `toString` of an ISBN selects exactly the books with that ISBN. |
| Decimal.IntRoundTrip | src/main/java/com/example/booklibrary/Tasks.java:138-140 | Parsing the decimal rendering of any integer gives the integer back. |
| Decimal.IntToDecimalInjective | src/main/java/com/example/booklibrary/services/BookService.java:114-117 | Two ISBNs render to the same text if and only if they are equal. |
| Filters.Values | src/main/java/com/example/booklibrary/Tasks.java:124-147 | For a known field there is one text per book, in book order, each being that book's field value. For an unknown field there are none. |
| Filters.Distinct | src/main/java/com/example/booklibrary/Tasks.java:127-128 | The contains-then-add step gives a list with no repeats and the same elements as its input. |
| Filters.DistinctOrder | src/main/java/com/example/booklibrary/Tasks.java:124-147 | The distinct texts appear in the order of their first occurrence. |
| Filters.ParameterList | src/main/java/com/example/booklibrary/Tasks.java:118-150 | "taken or available books" gives exactly ["Taken","Available"]. A known field gives the observed values without repeats, and an unknown field gives nothing. |
| Filters.ParameterListOrder | src/main/java/com/example/booklibrary/Tasks.java:118-150 | Tasks' options follow the order in which the books first show them. |
| Filters.ParameterSet | src/main/java/com/example/booklibrary/services/BookService.java:62-82 | "taken or available books" gives exactly {"Taken","Available"}. A known field gives the set of observed values, and no books give {}. An unknown field with at least one book gives {""}. |
| Filters.ParameterVariantsAgree | src/main/java/com/example/booklibrary/services/BookService.java:65-78 | For the pseudo-field and every known field, Tasks' list holds exactly BookService's set. For an unknown field they differ only by the `""` entry. |
| Scenarios.ThreeSavesListedInOrder | src/test/java/com/example/booklibrary/TasksTest.java:85-109 | Saving books "1", "2", "3" into an empty library lists exactly those books, in that order. |
| Scenarios.WrongFileNameRefused | src/test/java/com/example/booklibrary/BookServiceTest.java:26-35 | Saving under the name "bookLibrary" fails with the fixed `saveDataToFile` message, as this test checks. Removing under that name fails with the fixed `removeBooksByGUID` message, as TasksTest.java:237-246 checks. |
| Scenarios.FourthTakeRefused | src/test/java/com/example/booklibrary/TasksTest.java:360-392 | Generalised from the test: for any four distinct shelved books and an empty ledger, one person's takes succeed three times. The fourth is refused with the limit message, and the ledger stays as the third take left it. |
| Scenarios.SecondTakerRefused | src/test/java/com/example/booklibrary/TasksTest.java:294-331 | With the tests' book "1064A", "Person" takes it for 10 days, and "Person2" asking for 15 days is told it is reserved, with no change. Asking for the mistyped GUID "1001" reports that the book does not exist. |
| Scenarios.NoBooksNoOptions | src/test/java/com/example/booklibrary/BookServiceTest.java:119-130 | With no books, neither variant offers an option for any field name. |
| Scenarios.SharedCategoryOnce | src/test/java/com/example/booklibrary/TasksTest.java:157-170 | Generalised from the test: any two books in the same category yield that category exactly once in both variants. |

## Left out

- JSON parsing and writing, file paths and `FileReader`/`FileWriter`: the model treats a collection file as its in-memory sequence. Reading and writing are the identity, and a GUID or ISBN read back equals the one written.
- I/O failure paths: Tasks swallows read errors and may rewrite an empty array. BookService's `readFromFile` returns `null`, and its callers would then fail. Neither is modelled.
- `Book(JSONObject)`, `returnBookAsJSONObject` and `returnReservationAsJSONObject`: their bodies are not part of this model. Converting a record to JSON and back is taken to be lossless.
- RecordStore.Save: a book saved under "reservations", or a reservation under "library", is refused as `RecordDoesNotFit`, because the two typed collections cannot hold it. The source behaves differently. Tasks writes such a record into the other file, in its own kind's JSON shape. BookService throws a `ClassCastException` for a book sent to "reservations". BookService writes a reservation sent to "library" as a book, because its `BookReservation` extends `Book` (src/main/java/com/example/booklibrary/models/BookReservation.java:3 and services/BookService.java:285-287). No caller does any of these.
- The Spring controllers (form parsing, view attributes, page state): only the duplicate-GUID guard (`Catalog.AddBook`) and the 1 to 60 day period check (`Ledger.RequestTake`) are modelled. The controllers' empty-field checks, date/integer parsing and catch-all error message are not.
- Java `null` arguments and fields: every string in the model is a real string. The empty `Book` of Tasks is its own constructor, whose GUID reads as None.
- The publication date: it is an opaque value, and no operation inspects it.
- Concurrency: the check-then-act race in `takeBook` under simultaneous requests is outside a sequential model.
- Cascading deletion: removing a book leaves its reservations in place (`RecordStore.Remove` leaves the other collection unchanged), just as in the source.
- `HashSet` iteration order, which one BookService test asserts, is unspecified. `ParameterSet` is an unordered set.
- `BookLibraryApplication.java`: this is Spring bootstrap only.
