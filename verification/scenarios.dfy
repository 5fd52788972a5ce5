/**
 * The repository's unit-test scenarios, stated over the model. Some use the
 * tests' own data; others generalise a test to every input of its shape.
 */
module Scenarios {
  import opened Common
  import opened Seqs
  import opened Library
  import opened RecordStore
  import opened Catalog
  import opened Ledger
  import opened Filters

  function TestBook(name: string, author: string, category: string, isbn: Int32, guid: string): Book
  {
    Book(name, author, category, "Language", Date("2020-12-12"), isbn, guid)
  }

  const Empty := Store([], [])

  /** Saving books "1", "2", "3" into an empty library lists exactly them, in that order. */
  lemma ThreeSavesListedInOrder()
    ensures
      var b1 := TestBook("Book1", "Author", "Category", 100, "1");
      var b2 := TestBook("Book2", "Author", "Category", 200, "2");
      var b3 := TestBook("Book3", "Author", "Category", 300, "3");
      var s1 := Save(Empty, BookRecord(b1), LibraryFile);
      var s2 := Save(s1.value, BookRecord(b2), LibraryFile);
      var s3 := Save(s2.value, BookRecord(b3), LibraryFile);
      s3.Ok? && ListBooks(s3.value) == [b1, b2, b3]
  {
  }

  /** A collection name other than "library" or "reservations" is refused by both operations. */
  lemma WrongFileNameRefused(s: Store, rec: Record, guid: string)
    ensures Save(s, rec, "bookLibrary") == Err(WrongFileName(SaveNameError))
    ensures Remove(s, guid, "bookLibrary") == Err(WrongFileName(RemoveNameError))
  {
  }

  /** A ledger in which every reservation is held by `p` counts all of them for `p`. */
  lemma {:induction false} CountAllHeldBy(xs: seq<Reservation>, p: string)
    requires forall i :: 0 <= i < |xs| ==> xs[i].person == p
    ensures CountKey(xs, Person, p) == |xs|
    decreases |xs|
  {
    if |xs| > 0 {
      CountAllHeldBy(xs[1..], p);
    }
  }

  /** Four takes by one person of four distinct shelved books, starting from an empty ledger. */
  ghost predicate FourTakes(s: Store, rs: seq<Reservation>)
  {
    && |rs| == 4
    && (forall k :: 0 <= k < 4 ==> HasBook(s.library, rs[k].bookGuid) && rs[k].person == rs[0].person)
    && (forall k, m :: 0 <= k < m < 4 ==> rs[k].bookGuid != rs[m].bookGuid)
  }

  /** Take number `k + 1` of the scenario, with the first `k` reservations already made. */
  lemma TakeStep(s: Store, rs: seq<Reservation>, k: nat)
    requires FourTakes(s, rs) && k < 4
    ensures k < 3 ==>
      TakeBook(s.(reservations := rs[..k]), rs[k]) == Reply(TakenMessage, s.(reservations := rs[..k + 1]))
    ensures k == 3 ==>
      TakeBook(s.(reservations := rs[..k]), rs[k]) == Reply(LimitMessage, s.(reservations := rs[..k]))
  {
    var held := rs[..k];
    assert !IsReserved(held, rs[k].bookGuid);
    CountAllHeldBy(held, rs[k].person);
    assert rs[..k + 1] == held + [rs[k]];
  }

  /**
   * Three takes by one person succeed and the fourth is refused with the
   * limit message, leaving the ledger as the third take left it.
   */
  lemma FourthTakeRefused(s: Store, rs: seq<Reservation>)
    requires s.reservations == []
    requires FourTakes(s, rs)
    ensures
      var t1 := TakeBook(s, rs[0]);
      var t2 := TakeBook(t1.store, rs[1]);
      var t3 := TakeBook(t2.store, rs[2]);
      var t4 := TakeBook(t3.store, rs[3]);
      && t1.message == TakenMessage && t2.message == TakenMessage && t3.message == TakenMessage
      && t4 == Reply(LimitMessage, t3.store)
      && t3.store.reservations == rs[..3]
  {
    assert s.(reservations := rs[..0]) == s;
    TakeStep(s, rs, 0);
    TakeStep(s, rs, 1);
    TakeStep(s, rs, 2);
    TakeStep(s, rs, 3);
  }

  /**
   * The tests' book "1064A": "Person" takes it for 10 days, and "Person2"
   * asking for it for 15 days is told it is reserved; asking for the
   * mistyped GUID "1001" reports that the book does not exist.
   */
  lemma SecondTakerRefused()
    ensures
      var s0 := Store([Book("Name", "Author", "Category", "Language", Date("2000-10-10"), 100, "1064A")], []);
      var first := TakeBook(s0, Reservation("Person", 10, "1064A"));
      var second := TakeBook(first.store, Reservation("Person2", 15, "1064A"));
      first.message == TakenMessage && second == Reply(ReservedMessage, first.store)
      && TakeBook(s0, Reservation("Person", 10, "1001")) == Reply(NoBookMessage, s0)
  {
  }

  /** With no books, neither variant offers any option for a field name. */
  lemma NoBooksNoOptions(filterBy: string)
    requires filterBy != TakenOrAvailable
    ensures ParameterList([], filterBy) == [] && ParameterSet([], filterBy) == {}
  {
  }

  /** The category texts of two books, in book order. */
  lemma TwoCategories(b1: Book, b2: Book)
    ensures Values([b1, b2], "category") == [b1.category, b2.category]
  {
  }

  /** Two books in one category yield that category once. */
  lemma SharedCategoryOnce(b1: Book, b2: Book)
    requires b1.category == b2.category
    ensures ParameterList([b1, b2], "category") == [b1.category]
    ensures ParameterSet([b1, b2], "category") == {b1.category}
  {
    TwoCategories(b1, b2);
    var vs := [b1.category, b2.category];
    assert vs[..1] == [b1.category];
    assert vs[..1][..0] == [];
    assert Distinct(vs[..1]) == [b1.category];
  }
}
