/**
 * The query/filter engine: the options a filter menu offers for a field,
 * and the books a chosen option selects. `GetBooksByParameters` and
 * `FindTakenOrAvailable` are the same in Tasks.java and BookService.java;
 * the option lists differ (an ordered list without repeats in Tasks, a set
 * in BookService) and have one function each.
 */
module Filters {
  import opened Common
  import opened Seqs
  import opened Decimal
  import opened Library
  import opened Ledger

  /** The pseudo-field whose options are "Taken" and "Available". */
  const TakenOrAvailable := "taken or available books"
  const TakenOption := "Taken"
  const AvailableOption := "Available"

  /** The field names the switch statements know. */
  predicate IsField(field: string)
  {
    field == "author" || field == "category" || field == "language" || field == "ISBN" || field == "name"
  }

  /** The text a field name selects from a book (the ISBN rendered by `toString`); None for other names. */
  function FieldValue(b: Book, field: string): (v: Option<string>)
    ensures v.Some? <==> IsField(field)
  {
    if field == "author" then Some(b.author)
    else if field == "category" then Some(b.category)
    else if field == "language" then Some(b.language)
    else if field == "ISBN" then Some(IntToDecimal(b.isbn))
    else if field == "name" then Some(b.name)
    else None
  }

  /** The inner scan of `findTakenOrAvailableBooks`: some reservation carries the book's GUID. */
  function IsTaken(b: Book, reservations: seq<Reservation>): (t: bool)
    ensures t <==> IsReserved(reservations, b.guid)
  {
    First(reservations, ReservedGuid, b.guid).Some?
  }

  /** `findTakenOrAvailableBooks`: the books whose taken state is `wantTaken`, in input order. */
  function FindTakenOrAvailable(books: seq<Book>, reservations: seq<Reservation>, wantTaken: bool): (r: seq<Book>)
    ensures forall i :: 0 <= i < |r| ==> IsTaken(r[i], reservations) == wantTaken
    ensures IsSubsequence(r, books)
  {
    if |books| == 0 then []
    else if IsTaken(books[0], reservations) == wantTaken then
      [books[0]] + FindTakenOrAvailable(books[1..], reservations, wantTaken)
    else FindTakenOrAvailable(books[1..], reservations, wantTaken)
  }

  /** The books whose `field` text equals `value`, in input order. */
  function FilterByField(books: seq<Book>, field: string, value: string): (r: seq<Book>)
    ensures forall i :: 0 <= i < |r| ==> FieldValue(r[i], field) == Some(value)
    ensures IsSubsequence(r, books)
  {
    if |books| == 0 then []
    else if FieldValue(books[0], field) == Some(value) then
      [books[0]] + FilterByField(books[1..], field, value)
    else FilterByField(books[1..], field, value)
  }

  /**
   * `getBooksByParameters`: the option "Taken" or "Available" selects by
   * reservation state whatever `filterBy` says; any other option selects
   * the books whose `filterBy` field equals it.
   */
  function GetBooksByParameters(books: seq<Book>, reservations: seq<Reservation>, filterBy: string, parameter: string): (r: seq<Book>)
    ensures IsSubsequence(r, books)
    ensures parameter == TakenOption ==> forall i :: 0 <= i < |r| ==> IsReserved(reservations, r[i].guid)
    ensures parameter == AvailableOption ==> forall i :: 0 <= i < |r| ==> !IsReserved(reservations, r[i].guid)
    ensures parameter != TakenOption && parameter != AvailableOption ==>
      forall i :: 0 <= i < |r| ==> FieldValue(r[i], filterBy) == Some(parameter)
    ensures parameter != TakenOption && parameter != AvailableOption && !IsField(filterBy) ==> r == []
  {
    if parameter == TakenOption then FindTakenOrAvailable(books, reservations, true)
    else if parameter == AvailableOption then FindTakenOrAvailable(books, reservations, false)
    else FilterByField(books, filterBy, parameter)
  }

  /** Each book keeps all its copies when its taken state is `wantTaken`, and none otherwise. */
  lemma {:induction false} TakenCounts(books: seq<Book>, reservations: seq<Reservation>, wantTaken: bool, b: Book)
    ensures multiset(FindTakenOrAvailable(books, reservations, wantTaken))[b]
            == if IsTaken(b, reservations) == wantTaken then multiset(books)[b] else 0
    decreases |books|
  {
    if |books| > 0 {
      var rest := FindTakenOrAvailable(books[1..], reservations, wantTaken);
      TakenCounts(books[1..], reservations, wantTaken, b);
      assert books == [books[0]] + books[1..];
      assert multiset(books) == multiset([books[0]]) + multiset(books[1..]);
      if IsTaken(books[0], reservations) == wantTaken {
        assert multiset([books[0]] + rest) == multiset([books[0]]) + multiset(rest);
      }
    }
  }

  /** "Taken" and "Available" split the books: every book lands in exactly one of them. */
  lemma TakenAvailablePartition(books: seq<Book>, reservations: seq<Reservation>)
    ensures multiset(FindTakenOrAvailable(books, reservations, true))
            + multiset(FindTakenOrAvailable(books, reservations, false)) == multiset(books)
    ensures |FindTakenOrAvailable(books, reservations, true)|
            + |FindTakenOrAvailable(books, reservations, false)| == |books|
  {
    var taken := FindTakenOrAvailable(books, reservations, true);
    var available := FindTakenOrAvailable(books, reservations, false);
    forall b ensures (multiset(taken) + multiset(available))[b] == multiset(books)[b] {
      TakenCounts(books, reservations, true, b);
      TakenCounts(books, reservations, false, b);
    }
    assert multiset(taken) + multiset(available) == multiset(books);
    assert |multiset(taken) + multiset(available)| == |multiset(books)|;
  }

  /** The field filter keeps every copy of each matching book and nothing else. */
  lemma {:induction false} FilterCounts(books: seq<Book>, field: string, value: string, b: Book)
    ensures multiset(FilterByField(books, field, value))[b]
            == if FieldValue(b, field) == Some(value) then multiset(books)[b] else 0
    decreases |books|
  {
    if |books| > 0 {
      var rest := FilterByField(books[1..], field, value);
      FilterCounts(books[1..], field, value, b);
      assert books == [books[0]] + books[1..];
      assert multiset(books) == multiset([books[0]]) + multiset(books[1..]);
      if FieldValue(books[0], field) == Some(value) {
        assert multiset([books[0]] + rest) == multiset([books[0]]) + multiset(rest);
      }
    }
  }

  /** Whether `getBooksByParameters` selects book `b` for this field and option. */
  predicate Selects(reservations: seq<Reservation>, filterBy: string, parameter: string, b: Book)
  {
    if parameter == TakenOption then IsTaken(b, reservations)
    else if parameter == AvailableOption then !IsTaken(b, reservations)
    else FieldValue(b, filterBy) == Some(parameter)
  }

  /** `getBooksByParameters` returns every copy of each selected book, and no other book. */
  lemma GetBooksByParametersCounts(books: seq<Book>, reservations: seq<Reservation>, filterBy: string, parameter: string, b: Book)
    ensures multiset(GetBooksByParameters(books, reservations, filterBy, parameter))[b]
            == if Selects(reservations, filterBy, parameter, b) then multiset(books)[b] else 0
    ensures b in GetBooksByParameters(books, reservations, filterBy, parameter)
            <==> b in books && Selects(reservations, filterBy, parameter, b)
  {
    if parameter == TakenOption {
      TakenCounts(books, reservations, true, b);
    } else if parameter == AvailableOption {
      TakenCounts(books, reservations, false, b);
    } else {
      FilterCounts(books, filterBy, parameter, b);
    }
  }

  /** Filtering by the rendering of an ISBN selects exactly the books with that ISBN. */
  lemma IsbnFilter(books: seq<Book>, isbn: Int32, b: Book)
    ensures b in FilterByField(books, "ISBN", IntToDecimal(isbn)) <==> b in books && b.isbn == isbn
  {
    FilterCounts(books, "ISBN", IntToDecimal(isbn), b);
    IntToDecimalInjective(b.isbn, isbn);
  }

  // ----- filter options -----

  /** The texts the option loop visits: one per book for a known field, none otherwise. */
  function Values(books: seq<Book>, field: string): (vs: seq<string>)
    ensures forall v :: v in vs <==> exists i :: 0 <= i < |books| && FieldValue(books[i], field) == Some(v)
    ensures !IsField(field) ==> vs == []
    ensures IsField(field) ==>
      |vs| == |books| && forall i :: 0 <= i < |books| ==> Some(vs[i]) == FieldValue(books[i], field)
  {
    if |books| == 0 then []
    else
      var rest := Values(books[1..], field);
      assert forall v :: (exists i :: 1 <= i < |books| && FieldValue(books[i], field) == Some(v))
                         <==> (exists i :: 0 <= i < |books[1..]| && FieldValue(books[1..][i], field) == Some(v)) by {
        forall v | exists i :: 1 <= i < |books| && FieldValue(books[i], field) == Some(v)
          ensures exists i :: 0 <= i < |books[1..]| && FieldValue(books[1..][i], field) == Some(v)
        {
          var i :| 1 <= i < |books| && FieldValue(books[i], field) == Some(v);
          assert books[1..][i - 1] == books[i];
        }
      }
      match FieldValue(books[0], field)
      case Some(v) => [v] + rest
      case None => rest
  }

  /** No text occurs twice. */
  ghost predicate NoRepeats(xs: seq<string>)
  {
    forall i, j :: 0 <= i < j < |xs| ==> xs[i] != xs[j]
  }

  /** Append each text unless it is already there: `if (!parameters.contains(v)) parameters.add(v)`. */
  function Distinct(xs: seq<string>): (r: seq<string>)
    ensures NoRepeats(r)
    ensures forall x :: x in r <==> x in xs
  {
    if |xs| == 0 then []
    else
      var p := Distinct(xs[..|xs| - 1]);
      var x := xs[|xs| - 1];
      assert xs == xs[..|xs| - 1] + [x];
      if x in p then p else p + [x]
  }

  /** The position of the first occurrence of `x`. */
  function IndexOf(xs: seq<string>, x: string): (k: nat)
    requires x in xs
    ensures k < |xs| && xs[k] == x
    ensures forall j :: 0 <= j < k ==> xs[j] != x
  {
    if xs[0] == x then 0 else 1 + IndexOf(xs[1..], x)
  }

  lemma {:induction false} IndexOfAppend(xs: seq<string>, y: string, x: string)
    requires x in xs + [y]
    ensures x in xs ==> IndexOf(xs + [y], x) == IndexOf(xs, x)
    ensures x !in xs ==> IndexOf(xs + [y], x) == |xs|
    decreases |xs|
  {
    if |xs| > 0 && xs[0] != x {
      assert (xs + [y])[1..] == xs[1..] + [y];
      IndexOfAppend(xs[1..], y, x);
    }
  }

  /** Distinct texts come out in the order of their first occurrence. */
  lemma {:induction false} DistinctOrder(xs: seq<string>)
    ensures forall i, j :: 0 <= i < j < |Distinct(xs)| ==>
      IndexOf(xs, Distinct(xs)[i]) < IndexOf(xs, Distinct(xs)[j])
    decreases |xs|
  {
    if |xs| > 0 {
      var front := xs[..|xs| - 1];
      var x := xs[|xs| - 1];
      assert xs == front + [x];
      DistinctOrder(front);
      var p := Distinct(front);
      var r := Distinct(xs);
      forall i, j | 0 <= i < j < |r| ensures IndexOf(xs, r[i]) < IndexOf(xs, r[j]) {
        IndexOfAppend(front, x, r[i]);
        IndexOfAppend(front, x, r[j]);
        if j == |p| {
          assert r[j] == x && x !in p;
          assert r[i] == p[i];
        } else {
          assert r[i] == p[i] && r[j] == p[j];
        }
      }
    }
  }

  /** Tasks' `getListOfParameters`: the menu options as an ordered list without repeats. */
  function ParameterList(books: seq<Book>, filterBy: string): (r: seq<string>)
    ensures filterBy == TakenOrAvailable ==> r == [TakenOption, AvailableOption]
    ensures filterBy != TakenOrAvailable ==> NoRepeats(r)
    ensures filterBy != TakenOrAvailable ==>
      forall v :: v in r <==> exists i :: 0 <= i < |books| && FieldValue(books[i], filterBy) == Some(v)
    ensures filterBy != TakenOrAvailable && !IsField(filterBy) ==> r == []
  {
    if filterBy == TakenOrAvailable then [TakenOption, AvailableOption]
    else Distinct(Values(books, filterBy))
  }

  /** The options of a known field come out in the order in which the books first show them. */
  lemma ParameterListOrder(books: seq<Book>, filterBy: string)
    requires filterBy != TakenOrAvailable
    ensures forall i, j :: 0 <= i < j < |ParameterList(books, filterBy)| ==>
      IndexOf(Values(books, filterBy), ParameterList(books, filterBy)[i])
        < IndexOf(Values(books, filterBy), ParameterList(books, filterBy)[j])
  {
    DistinctOrder(Values(books, filterBy));
  }

  /** The text the BookService switch adds per book: the field, or "" for an unknown name. */
  function FieldOrBlank(b: Book, field: string): string
  {
    match FieldValue(b, field)
    case Some(v) => v
    case None => ""
  }

  /** BookService's `getListOfParameters`: the menu options as a set. */
  function ParameterSet(books: seq<Book>, filterBy: string): (r: set<string>)
    ensures filterBy == TakenOrAvailable ==> r == {TakenOption, AvailableOption}
    ensures filterBy != TakenOrAvailable && |books| == 0 ==> r == {}
    ensures filterBy != TakenOrAvailable && !IsField(filterBy) && |books| > 0 ==> r == {""}
    ensures IsField(filterBy) ==>
      forall v :: v in r <==> exists i :: 0 <= i < |books| && FieldValue(books[i], filterBy) == Some(v)
  {
    if filterBy == TakenOrAvailable then {TakenOption, AvailableOption}
    else
      var r := set b | b in books :: FieldOrBlank(b, filterBy);
      assert |books| > 0 ==> FieldOrBlank(books[0], filterBy) in r;
      assert IsField(filterBy) ==>
        forall v :: v in r <==> exists i :: 0 <= i < |books| && FieldValue(books[i], filterBy) == Some(v)
      by {
        if IsField(filterBy) {
          forall v ensures v in r <==> exists i :: 0 <= i < |books| && FieldValue(books[i], filterBy) == Some(v) {
            if v in r {
              var b :| b in books && FieldOrBlank(b, filterBy) == v;
              var i :| 0 <= i < |books| && books[i] == b;
              assert FieldValue(books[i], filterBy) == Some(v);
            }
            if exists i :: 0 <= i < |books| && FieldValue(books[i], filterBy) == Some(v) {
              var i :| 0 <= i < |books| && FieldValue(books[i], filterBy) == Some(v);
              assert books[i] in books;
              assert FieldOrBlank(books[i], filterBy) == v;
            }
          }
        }
      }
      r
  }

  /**
   * The two variants offer the same options for "taken or available books"
   * and every known field; for an unknown field Tasks offers nothing and
   * BookService offers "" once there is a book.
   */
  lemma ParameterVariantsAgree(books: seq<Book>, filterBy: string)
    ensures filterBy == TakenOrAvailable || IsField(filterBy) ==>
      (set v | v in ParameterList(books, filterBy)) == ParameterSet(books, filterBy)
    ensures !(filterBy == TakenOrAvailable || IsField(filterBy)) ==>
      ParameterList(books, filterBy) == [] && ParameterSet(books, filterBy) == (if |books| == 0 then {} else {""})
  {
  }
}
