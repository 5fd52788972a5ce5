/**
 * The reservation ledger: lookup by book GUID, the per-person count, and
 * `takeBook`, the composite rule that reserves a book. BookService.java's
 * version is the function `TakeBook`; Tasks.java's version, with its empty
 * result objects and explicit scan loops, is the method `TakeBookLegacy`,
 * proved to behave identically.
 */
module Ledger {
  import opened Common
  import opened Seqs
  import opened Library
  import opened Catalog
  import RecordStore

  const NoBookMessage := "Book does not exist. Try typing book's GUID again."
  const ReservedMessage := "Book is already reserved."
  const LimitMessage := "You have already taken 3 books."
  const TakenMessage := "Book has been successfully taken."
  const PeriodMessage := "Book can be taken for 1 - 60 days period. Try again."

  /** Some reservation refers to `guid`. */
  ghost predicate IsReserved(reservations: seq<Reservation>, guid: string)
  {
    exists i :: 0 <= i < |reservations| && reservations[i].bookGuid == guid
  }

  /** BookService's `findReservationByGUID`: the first reservation of that book, or None for `null`. */
  function FindReservation(reservations: seq<Reservation>, guid: string): (r: Option<Reservation>)
    ensures r.None? <==> !IsReserved(reservations, guid)
    ensures r.Some? ==>
      (exists i :: 0 <= i < |reservations| && reservations[i] == r.value && r.value.bookGuid == guid
                   && forall j :: 0 <= j < i ==> reservations[j].bookGuid != guid)
  {
    First(reservations, ReservedGuid, guid)
  }

  /** `findCountOfTakenBooks`: how many reservations name this person. */
  function CountOfTakenBooks(reservations: seq<Reservation>, person: string): (n: nat)
    ensures n <= |reservations|
    ensures n == 0 <==> forall i :: 0 <= i < |reservations| ==> reservations[i].person != person
  {
    CountKey(reservations, Person, person)
  }

  /** Tasks' result object: a filled-in reservation, or an empty one whose getters return null. */
  datatype ReservationObject = EmptyReservation | LoadedReservation(reservation: Reservation)
  {
    /** `getBookGUID()`. */
    function Guid(): Option<string>
    {
      match this
      case EmptyReservation => None
      case LoadedReservation(r) => Some(r.bookGuid)
    }
  }

  /** Tasks' `findReservationByGUID`: copy the first match and stop, or stay empty. */
  method FindReservationOrEmpty(reservations: seq<Reservation>, guid: string) returns (found: ReservationObject)
    ensures found.Guid() == None <==> !IsReserved(reservations, guid)
    ensures FindReservation(reservations, guid).Some? ==>
      found == LoadedReservation(FindReservation(reservations, guid).value)
  {
    found := EmptyReservation;
    var i := 0;
    while i < |reservations|
      invariant 0 <= i <= |reservations|
      invariant found == EmptyReservation
      invariant First(reservations, ReservedGuid, guid) == First(reservations[i..], ReservedGuid, guid)
    {
      if reservations[i].bookGuid == guid {
        found := LoadedReservation(reservations[i]);
        return;
      }
      assert reservations[i..][1..] == reservations[i + 1..];
      i := i + 1;
    }
  }

  /** The counting loop of `findCountOfTakenBooks`. */
  method CountTakenBooks(reservations: seq<Reservation>, person: string) returns (count: nat)
    ensures count == CountOfTakenBooks(reservations, person)
  {
    count := 0;
    var i := 0;
    while i < |reservations|
      invariant 0 <= i <= |reservations|
      invariant count + CountKey(reservations[i..], Person, person) == CountKey(reservations, Person, person)
    {
      assert reservations[i..][1..] == reservations[i + 1..];
      if reservations[i].person == person {
        count := count + 1;
      }
      i := i + 1;
    }
  }

  /**
   * BookService's `takeBook`. The first failing check decides: the book must
   * exist, must not be reserved, and the person must hold fewer than three
   * reservations; only then is the reservation appended.
   */
  function TakeBook(s: Store, r: Reservation): (res: Reply)
    ensures !HasBook(s.library, r.bookGuid) ==> res == Reply(NoBookMessage, s)
    ensures HasBook(s.library, r.bookGuid) && IsReserved(s.reservations, r.bookGuid) ==>
      res == Reply(ReservedMessage, s)
    ensures (HasBook(s.library, r.bookGuid) && !IsReserved(s.reservations, r.bookGuid)
             && CountKey(s.reservations, Person, r.person) >= MaxReservations) ==>
      res == Reply(LimitMessage, s)
    ensures (HasBook(s.library, r.bookGuid) && !IsReserved(s.reservations, r.bookGuid)
             && CountKey(s.reservations, Person, r.person) < MaxReservations) ==>
      res.message == TakenMessage && res.store == s.(reservations := s.reservations + [r])
  {
    if FindBook(s.library, r.bookGuid).None? then
      Reply(NoBookMessage, s)
    else if FindReservation(s.reservations, r.bookGuid).Some? then
      Reply(ReservedMessage, s)
    else if CountOfTakenBooks(s.reservations, r.person) >= MaxReservations then
      Reply(LimitMessage, s)
    else
      Reply(TakenMessage, RecordStore.Save(s, ReservationRecord(r), ReservationsFile).value)
  }

  /** Tasks' `takeBook`: the same checks, through empty result objects and `count < 3`. */
  method TakeBookLegacy(s: Store, r: Reservation) returns (reply: Reply)
    ensures reply == TakeBook(s, r)
  {
    var book := FindBookOrEmpty(s.library, r.bookGuid);
    if book.Guid() != None {
      var reservation := FindReservationOrEmpty(s.reservations, r.bookGuid);
      if reservation.Guid() == None {
        var count := CountTakenBooks(s.reservations, r.person);
        if count < MaxReservations {
          reply := Reply(TakenMessage, RecordStore.Save(s, ReservationRecord(r), ReservationsFile).value);
        } else {
          reply := Reply(LimitMessage, s);
        }
      } else {
        reply := Reply(ReservedMessage, s);
      }
    } else {
      reply := Reply(NoBookMessage, s);
    }
  }

  /** `takeBook` keeps at most one reservation per book and at most three per person. */
  lemma TakeBookKeepsInvariant(s: Store, r: Reservation)
    requires StoreInvariant(s)
    ensures StoreInvariant(TakeBook(s, r).store)
  {
    var after := TakeBook(s, r).store.reservations;
    if after != s.reservations {
      assert after == s.reservations + [r];
      assert !IsReserved(s.reservations, r.bookGuid);
      forall i, j | 0 <= i < j < |after| ensures after[i].bookGuid != after[j].bookGuid {
        if j == |s.reservations| {
          assert s.reservations[i].bookGuid != r.bookGuid;
        } else {
          assert after[i] == s.reservations[i] && after[j] == s.reservations[j];
        }
      }
      forall p ensures CountKey(after, Person, p) <= MaxReservations {
        CountAppend(s.reservations, r, Person, p);
      }
    }
  }

  /** Once a book has been taken, taking it again is refused and changes nothing. */
  lemma TakeTwiceRefused(s: Store, r: Reservation, other: Reservation)
    requires TakeBook(s, r).message == TakenMessage
    requires other.bookGuid == r.bookGuid
    ensures TakeBook(TakeBook(s, r).store, other) == Reply(ReservedMessage, TakeBook(s, r).store)
  {
  }

  /** Every reservation's period lies in the 1 to 60 days the controllers accept. */
  ghost predicate PeriodsValid(reservations: seq<Reservation>)
  {
    forall i :: 0 <= i < |reservations| ==> 1 <= reservations[i].period <= 60
  }

  /** The controllers' take-book step: the period check, then `takeBook`. */
  function RequestTake(s: Store, person: string, period: Int32, guid: string): (res: Reply)
    ensures !(0 < period <= 60) ==> res == Reply(PeriodMessage, s)
    ensures 0 < period <= 60 ==> res == TakeBook(s, Reservation(person, period, guid))
    ensures PeriodsValid(s.reservations) ==> PeriodsValid(res.store.reservations)
    ensures res.store.library == s.library
  {
    if period <= 60 && period > 0 then TakeBook(s, Reservation(person, period, guid))
    else Reply(PeriodMessage, s)
  }
}
