/** The booking manager as a whole (app.py): the three tables the program keeps in
    flights.txt, users.txt and passengers.txt, and the operations of the admin and
    user menus as methods that change them. Each table field holds what the file
    holds; `writes` records, in order, every file an operation rewrites. */
module Airline {
  import opened Wrappers
  import opened Ascii
  import opened Catalog
  import opened Directory
  import opened Ledger

  /** The three files of the program. */
  datatype Table = FlightsFile | UsersFile | PassengersFile

  /** `n` writes of the same file. */
  function Repeat(t: Table, n: nat): (r: seq<Table>)
    ensures |r| == n
    ensures forall i :: 0 <= i < n ==> r[i] == t
  {
    if n == 0 then [] else Repeat(t, n - 1) + [t]
  }

  /** The invariant the operations keep across the three tables: upper-case flight
      numbers, distinct serials, distinct addresses, at most one booking per (address,
      flight number), and every booking naming a flight that exists. */
  predicate Invariant(flights: seq<Flight>, users: seq<User>, passengers: seq<Booking>) {
    NumbersUpper(flights) && UniqueSerials(flights) && UniqueEmails(users)
    && UniqueBookings(passengers) && References(flights, passengers)
  }

  /** A successful add_flight keeps the invariant and the distinctness of the
      compound flight keys. */
  lemma AddFlightKeepsInvariant(flights: seq<Flight>, users: seq<User>, passengers: seq<Booking>, form: FlightForm)
    requires NewFlight(flights, form).Success?
    ensures var after := flights + [NewFlight(flights, form).value];
      (Invariant(flights, users, passengers) ==> Invariant(after, users, passengers))
      && (UniqueTriples(flights) ==> UniqueTriples(after))
  {
    if Invariant(flights, users, passengers) {
      AddKeepsNumbersUpper(flights, form);
      AddKeepsUniqueSerials(flights, form);
      AddFlightKeepsReferences(flights, NewFlight(flights, form).value, passengers);
    }
    if UniqueTriples(flights) {
      AddKeepsUniqueTriples(flights, form);
    }
  }

  /** Editing one record keeps the invariant: serials and flight numbers never change. */
  lemma ModifyFlightKeepsInvariant(flights: seq<Flight>, users: seq<User>, passengers: seq<Booking>,
                                   k: nat, cs: seq<Command>)
    requires k < |flights|
    ensures Invariant(flights, users, passengers) ==>
      Invariant(flights[k := Edited(flights[k], cs)], users, passengers)
  {
    var after := flights[k := Edited(flights[k], cs)];
    if Invariant(flights, users, passengers) {
      ModifyKeepsInvariants(flights, k, cs);
      SameNumbersKeepReferences(flights, after, passengers);
    }
  }

  /** Deleting flights together with the bookings of their number keeps the invariant
      and the distinctness of the compound flight keys. */
  lemma DeleteFlightKeepsInvariant(flights: seq<Flight>, users: seq<User>, passengers: seq<Booking>,
                                   fno: string, dep: string, arr: string)
    ensures var kept := Remaining(flights, fno, dep, arr);
      (Invariant(flights, users, passengers) ==> Invariant(kept, users, Cascade(passengers, fno)))
      && (UniqueTriples(flights) ==> UniqueTriples(kept))
  {
    Catalog.DeleteKeepsInvariants(flights, fno, dep, arr);
    Ledger.DeleteKeepsInvariants(flights, passengers, fno, dep, arr);
  }

  /** register_user keeps the invariant. */
  lemma RegisterUserKeepsInvariant(flights: seq<Flight>, users: seq<User>, passengers: seq<Booking>,
                                   emailRaw: string, nameRaw: string, phoneRaw: string)
    ensures Invariant(flights, users, passengers) ==>
      Invariant(flights, Registered(users, Register(users, emailRaw, nameRaw, phoneRaw)), passengers)
  {
    if Invariant(flights, users, passengers) {
      RegisterKeepsUniqueEmails(users, emailRaw, nameRaw, phoneRaw);
    }
  }

  /** A successful book_flight keeps the invariant. */
  lemma BookFlightKeepsInvariant(flights: seq<Flight>, users: seq<User>, passengers: seq<Booking>,
                                 user: User, fnoRaw: string, passportRaw: string)
    requires NewBooking(flights, passengers, user, fnoRaw, passportRaw).Success?
    ensures Invariant(flights, users, passengers) ==>
      Invariant(flights, users, passengers + [NewBooking(flights, passengers, user, fnoRaw, passportRaw).value])
  {
    if Invariant(flights, users, passengers) {
      BookKeepsUniqueBookings(flights, passengers, user, fnoRaw, passportRaw);
      BookKeepsReferences(flights, passengers, user, fnoRaw, passportRaw);
    }
  }

  /** A successful cancel_booking keeps the invariant. */
  lemma CancelBookingKeepsInvariant(flights: seq<Flight>, users: seq<User>, passengers: seq<Booking>,
                                    user: User, fnoRaw: string)
    requires Cancel(passengers, user, fnoRaw).Success?
    ensures Invariant(flights, users, passengers) ==>
      Invariant(flights, users, Cancel(passengers, user, fnoRaw).value)
  {
    CancelKeepsInvariants(flights, passengers, user, fnoRaw);
  }

  /** Rewriting feedback keeps the invariant. */
  lemma FeedbackKeepsInvariant(flights: seq<Flight>, users: seq<User>, passengers: seq<Booking>, updated: seq<Booking>)
    requires |updated| == |passengers|
    requires forall i :: 0 <= i < |passengers| ==> updated[i] == passengers[i].(feedback := updated[i].feedback)
    ensures Invariant(flights, users, passengers) ==> Invariant(flights, users, updated)
  {
    FeedbackKeepsInvariants(flights, passengers, updated);
  }

  class Database {
    var flights: seq<Flight>
    var users: seq<User>
    var passengers: seq<Booking>
    var writes: seq<Table>

    /** The cross-table invariant of the three tables. */
    predicate Consistent()
      reads this
    {
      Invariant(flights, users, passengers)
    }

    /** The tables as read from the three files; nothing has been written yet. */
    constructor (flights: seq<Flight>, users: seq<User>, passengers: seq<Booking>)
      ensures this.flights == flights && this.users == users && this.passengers == passengers
      ensures writes == []
    {
      this.flights := flights;
      this.users := users;
      this.passengers := passengers;
      writes := [];
    }

    /** write_file for the tables an operation rewrites: the three tables take their
        new contents and `written` is appended to the write log. */
    method Commit(newFlights: seq<Flight>, newUsers: seq<User>, newPassengers: seq<Booking>, written: seq<Table>)
      modifies this
      ensures flights == newFlights && users == newUsers && passengers == newPassengers
      ensures writes == old(writes) + written
    {
      flights, users, passengers := newFlights, newUsers, newPassengers;
      writes := writes + written;
    }

    /** add_flight: on success exactly one flight is appended and the flights file
        is written; on any refusal nothing changes and nothing is written. */
    method AddFlight(form: FlightForm) returns (r: Result<Flight, AddError>)
      modifies this
      ensures r == NewFlight(old(flights), form)
      ensures flights == (if r.Success? then old(flights) + [r.value] else old(flights))
      ensures writes == old(writes) + (if r.Success? then [FlightsFile] else [])
      ensures users == old(users) && passengers == old(passengers)
      ensures old(Consistent()) ==> Consistent()
      ensures old(UniqueTriples(flights)) ==> UniqueTriples(flights)
    {
      r := NewFlight(flights, form);
      var after := if r.Success? then flights + [r.value] else flights;
      assert (Invariant(flights, users, passengers) ==> Invariant(after, users, passengers))
        && (UniqueTriples(flights) ==> UniqueTriples(after)) by {
        if r.Success? {
          AddFlightKeepsInvariant(flights, users, passengers, form);
        }
      }
      Commit(after, users, passengers, if r.Success? then [FlightsFile] else []);
    }

    /** modify_flight: the first flight whose upper-cased number is the upper-cased,
        stripped input receives the commands one by one until an exit; every
        accepted command rewrites the flights file. The passengers table, and with
        it every booked amount, is left alone. */
    method ModifyFlight(fnoRaw: string, commands: seq<Command>) returns (found: bool)
      modifies this
      ensures var k := FindByNumber(old(flights), Strip(Upper(fnoRaw)));
        found == k.Some?
        && flights == (if k.Some? then old(flights)[k.value := Edited(old(flights)[k.value], commands)] else old(flights))
        && writes == old(writes) + (if k.Some? then Repeat(FlightsFile, EditWrites(commands)) else [])
      ensures users == old(users) && passengers == old(passengers)
      ensures old(Consistent()) ==> Consistent()
    {
      var k := FindByNumber(flights, Strip(Upper(fnoRaw)));
      if k.None? {
        return false;
      }
      found := true;
      var idx := k.value;
      ModifyFlightKeepsInvariant(flights, users, passengers, idx, commands);
      var cur := flights[idx];
      var n := 0;
      var i := 0;
      while i < |commands| && !IsExit(commands[i])
        invariant 0 <= i <= |commands|
        invariant Edited(cur, commands[i..]) == Edited(flights[idx], commands)
        invariant n + EditWrites(commands[i..]) == EditWrites(commands)
      {
        assert commands[i..][1..] == commands[i + 1..];
        if Accepted(commands[i]) {
          cur := Apply(cur, commands[i]);
          n := n + 1;
        }
        i := i + 1;
      }
      Commit(flights[idx := cur], users, passengers, Repeat(FlightsFile, n));
    }

    /** delete_flight: the flights matching the compound key go, the rest stay in
        order; if any went, every booking whose upper-cased number is the input
        goes too, and both files are written; otherwise nothing is written. */
    method DeleteFlight(fnoRaw: string, depRaw: string, arrRaw: string) returns (deleted: bool)
      modifies this
      ensures var fno := Strip(Upper(fnoRaw));
        var kept := Remaining(old(flights), fno, Strip(depRaw), Strip(arrRaw));
        (deleted <==> exists f :: f in old(flights) && MatchesTriple(f, fno, Strip(depRaw), Strip(arrRaw)))
        && flights == kept
        && passengers == (if deleted then Cascade(old(passengers), fno) else old(passengers))
        && writes == old(writes) + (if deleted then [FlightsFile, PassengersFile] else [])
      ensures users == old(users)
      ensures old(Consistent()) ==> Consistent()
    {
      var fno := Strip(Upper(fnoRaw));
      var dep := Strip(depRaw);
      var arr := Strip(arrRaw);
      var kept := Remaining(flights, fno, dep, arr);
      DeleteFlightKeepsInvariant(flights, users, passengers, fno, dep, arr);
      deleted := |kept| < |flights|;
      if deleted {
        Commit(kept, users, Cascade(passengers, fno), [FlightsFile, PassengersFile]);
      }
    }

    /** register_user: an address already present (compared lower-cased) returns
        its user and writes nothing; otherwise one user is appended and the users
        file is written. */
    method RegisterUser(emailRaw: string, nameRaw: string, phoneRaw: string) returns (user: User)
      modifies this
      ensures var reg := Register(old(users), emailRaw, nameRaw, phoneRaw);
        user == reg.user
        && users == (if reg.Created? then old(users) + [reg.user] else old(users))
        && writes == old(writes) + (if reg.Created? then [UsersFile] else [])
      ensures flights == old(flights) && passengers == old(passengers)
      ensures old(Consistent()) ==> Consistent()
    {
      var reg := Register(users, emailRaw, nameRaw, phoneRaw);
      RegisterUserKeepsInvariant(flights, users, passengers, emailRaw, nameRaw, phoneRaw);
      user := reg.user;
      if reg.Created? {
        Commit(flights, users + [user], passengers, [UsersFile]);
      }
    }

    /** book_flight: on success exactly one booking is appended and the passengers
        file is written; a refusal changes and writes nothing. */
    method BookFlight(user: User, fnoRaw: string, passportRaw: string) returns (r: Result<Booking, BookError>)
      modifies this
      ensures r == NewBooking(old(flights), old(passengers), user, fnoRaw, passportRaw)
      ensures passengers == (if r.Success? then old(passengers) + [r.value] else old(passengers))
      ensures writes == old(writes) + (if r.Success? then [PassengersFile] else [])
      ensures flights == old(flights) && users == old(users)
      ensures old(Consistent()) ==> Consistent()
    {
      r := NewBooking(flights, passengers, user, fnoRaw, passportRaw);
      if r.Success? {
        BookFlightKeepsInvariant(flights, users, passengers, user, fnoRaw, passportRaw);
        Commit(flights, users, passengers + [r.value], [PassengersFile]);
      }
    }

    /** cancel_booking: on success the user's bookings with that number are gone,
        the others stay in order and the passengers file is written; a refusal
        changes and writes nothing. */
    method CancelBooking(user: User, fnoRaw: string) returns (error: Option<CancelError>)
      modifies this
      ensures var c := Cancel(old(passengers), user, fnoRaw);
        error == (if c.Success? then None else Some(c.error))
        && passengers == (if c.Success? then c.value else old(passengers))
        && writes == old(writes) + (if c.Success? then [PassengersFile] else [])
      ensures flights == old(flights) && users == old(users)
      ensures old(Consistent()) ==> Consistent()
    {
      var c := Cancel(passengers, user, fnoRaw);
      if c.Success? {
        CancelBookingKeepsInvariant(flights, users, passengers, user, fnoRaw);
        Commit(flights, users, c.value, [PassengersFile]);
        error := None;
      } else {
        error := Some(c.error);
      }
    }

    /** feedback: with one reply per booking of the user, the bookings of the user
        receive the replies in ledger order, stripped; no other booking and no other
        field changes; the passengers file is written exactly when the user has a
        booking. */
    method Feedback(user: User, answers: seq<string>) returns (found: bool)
      modifies this
      requires |Owned(passengers, Lower(user.email))| <= |answers|
      ensures var email := Lower(user.email);
        var ps := old(passengers);
        |passengers| == |ps|
        && (found <==> Owned(ps, email) != [])
        && (forall i :: 0 <= i < |ps| && !IsOwner(ps[i], email) ==> passengers[i] == ps[i])
        && (forall i :: 0 <= i < |ps| && IsOwner(ps[i], email) ==>
              OwnedBefore(ps, email, i) < |answers|
              && passengers[i] == ps[i].(feedback := Strip(answers[OwnedBefore(ps, email, i)])))
      ensures writes == old(writes) + (if found then [PassengersFile] else [])
      ensures flights == old(flights) && users == old(users)
      ensures old(Consistent()) ==> Consistent()
    {
      var email := Lower(user.email);
      OwnedBeforeCounts(passengers, email, |passengers|);
      assert passengers[..|passengers|] == passengers;
      var updated;
      updated, found := ApplyFeedback(passengers, email, answers);
      NotedMeaning(passengers, email, answers, updated);
      FeedbackKeepsInvariant(flights, users, passengers, updated);
      Commit(flights, users, updated, if found then [PassengersFile] else []);
    }
  }
}
