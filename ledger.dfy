/** The booking ledger (app.py, book_flight, view_booking, cancel_booking, feedback and
    the cascade of delete_flight): each record of the passengers table links a user to a
    flight number. */
module Ledger {
  import opened Wrappers
  import opened Ascii
  import opened Seqs
  import opened Catalog
  import opened Directory

  /** One record of the passengers table. */
  datatype Booking = Booking(
    name: string,
    phone: string,
    email: string,
    flightNo: string,
    amount: nat,
    passport: string,
    feedback: string)

  datatype BookError = NoFlights | FlightNotFound | AlreadyBooked

  datatype CancelError = NoBookings | NotBooked

  /** The key book_flight refuses to repeat: lower-cased address and stored flight number. */
  function BookingKey(b: Booking): (string, string) {
    (Lower(b.email), b.flightNo)
  }

  /** At most one booking per (e-mail address, flight number). */
  predicate UniqueBookings(ps: seq<Booking>) {
    Distinct(ps, BookingKey)
  }

  /** Every booking names the number of some flight of the catalog. */
  predicate References(flights: seq<Flight>, ps: seq<Booking>) {
    forall b :: b in ps ==> exists f :: f in flights && f.flightNo == b.flightNo
  }

  /** Whether a booking belongs to the lower-cased address `email`. */
  predicate IsOwner(b: Booking, email: string) {
    Lower(b.email) == email
  }

  /** The bookings of the lower-cased address `email`, in ledger order. */
  function Owned(ps: seq<Booking>, email: string): (r: seq<Booking>)
    ensures forall b :: b in r <==> b in ps && IsOwner(b, email)
    ensures r == [] <==> forall b :: b in ps ==> !IsOwner(b, email)
  {
    var r := Filter(ps, (b: Booking) => IsOwner(b, email));
    assert r != [] ==> r[0] in r;
    r
  }

  /** How many bookings of `email` come before position `i`. */
  function OwnedBefore(ps: seq<Booking>, email: string, i: nat): nat
    requires i <= |ps|
  {
    if i == 0 then 0 else OwnedBefore(ps, email, i - 1) + (if IsOwner(ps[i - 1], email) then 1 else 0)
  }

  /** No prefix holds more of the user's bookings than a longer one. */
  lemma {:induction false} OwnedBeforeMonotone(ps: seq<Booking>, email: string, i: nat, k: nat)
    requires i <= k <= |ps|
    ensures OwnedBefore(ps, email, i) <= OwnedBefore(ps, email, k)
    decreases k - i
  {
    if i < k {
      OwnedBeforeMonotone(ps, email, i, k - 1);
    }
  }

  /** Counting up to position `i` counts the user's bookings in `ps[..i]`. */
  lemma {:induction false} OwnedBeforeCounts(ps: seq<Booking>, email: string, i: nat)
    requires i <= |ps|
    ensures OwnedBefore(ps, email, i) == |Owned(ps[..i], email)|
  {
    if i > 0 {
      OwnedBeforeCounts(ps, email, i - 1);
      assert ps[..i] == ps[..i - 1] + [ps[i - 1]];
      FilterAppend(ps[..i - 1], [ps[i - 1]], (b: Booking) => IsOwner(b, email));
    }
  }

  /** view_booking: the user's bookings, matched by address in any case, in ledger order. */
  function BookingsOf(ps: seq<Booking>, user: User): (r: seq<Booking>)
    ensures forall b :: b in r <==> b in ps && Lower(b.email) == Lower(user.email)
  {
    Owned(ps, Lower(user.email))
  }

  /** The duplicate test of book_flight; note that the stored number is compared as is. */
  predicate HasBooking(ps: seq<Booking>, email: string, fno: string) {
    exists b :: b in ps && Lower(b.email) == email && b.flightNo == fno
  }

  /** The checks of book_flight and the record it would append: the amount is a
      snapshot of the flight's charges and the feedback starts empty. */
  function NewBooking(flights: seq<Flight>, ps: seq<Booking>, user: User,
                      fnoRaw: string, passportRaw: string): (r: Result<Booking, BookError>)
    ensures r == Failure(NoFlights) <==> flights == []
    ensures r == Failure(FlightNotFound) <==> flights != [] && FindByNumber(flights, Strip(Upper(fnoRaw))).None?
    ensures r == Failure(AlreadyBooked) <==>
      FindByNumber(flights, Strip(Upper(fnoRaw))).Some?
      && HasBooking(ps, Lower(user.email), Strip(Upper(fnoRaw)))
    ensures r.Success? ==>
      var f := flights[FindByNumber(flights, Strip(Upper(fnoRaw))).value];
      r.value == Booking(user.name, user.phone, user.email, f.flightNo, f.charges, Strip(passportRaw), "")
  {
    if flights == [] then Failure(NoFlights)
    else
      var fno := Strip(Upper(fnoRaw));
      var k := FindByNumber(flights, fno);
      if k.None? then Failure(FlightNotFound)
      else if HasBooking(ps, Lower(user.email), fno) then Failure(AlreadyBooked)
      else
        var f := flights[k.value];
        Success(Booking(user.name, user.phone, user.email, f.flightNo, f.charges, Strip(passportRaw), ""))
  }

  /** A successful booking is for a flight of the catalog whose number matches the
      request, and costs that flight's charges at the time of booking. */
  lemma BookedFlightExists(flights: seq<Flight>, ps: seq<Booking>, user: User, fnoRaw: string, passportRaw: string)
    requires NewBooking(flights, ps, user, fnoRaw, passportRaw).Success?
    ensures var b := NewBooking(flights, ps, user, fnoRaw, passportRaw).value;
      exists f :: f in flights && f.flightNo == b.flightNo && f.charges == b.amount
                  && Upper(f.flightNo) == Strip(Upper(fnoRaw))
  {
    var k := FindByNumber(flights, Strip(Upper(fnoRaw))).value;
    assert flights[k] in flights;
  }

  /** With the catalog's numbers stored upper case (as add_flight stores them), a
      booking is never duplicated. */
  lemma BookKeepsUniqueBookings(flights: seq<Flight>, ps: seq<Booking>, user: User, fnoRaw: string, passportRaw: string)
    requires NumbersUpper(flights) && UniqueBookings(ps)
    requires NewBooking(flights, ps, user, fnoRaw, passportRaw).Success?
    ensures UniqueBookings(ps + [NewBooking(flights, ps, user, fnoRaw, passportRaw).value])
  {
    var b := NewBooking(flights, ps, user, fnoRaw, passportRaw).value;
    var k := FindByNumber(flights, Strip(Upper(fnoRaw))).value;
    assert flights[k] in flights;
    assert b.flightNo == Strip(Upper(fnoRaw));
    DistinctSnoc(ps, b, BookingKey);
  }

  /** Booking the same flight a second time is refused and the ledger keeps one booking. */
  lemma BookTwiceFails(flights: seq<Flight>, ps: seq<Booking>, user: User, fnoRaw: string,
                       passportRaw: string, passportAgain: string)
    requires NumbersUpper(flights)
    requires NewBooking(flights, ps, user, fnoRaw, passportRaw).Success?
    ensures var b := NewBooking(flights, ps, user, fnoRaw, passportRaw).value;
      NewBooking(flights, ps + [b], user, fnoRaw, passportAgain) == Failure(AlreadyBooked)
  {
    var b := NewBooking(flights, ps, user, fnoRaw, passportRaw).value;
    var k := FindByNumber(flights, Strip(Upper(fnoRaw))).value;
    assert flights[k] in flights;
    assert b in ps + [b];
  }

  /** A new booking references the flight it was made for. */
  lemma BookKeepsReferences(flights: seq<Flight>, ps: seq<Booking>, user: User, fnoRaw: string, passportRaw: string)
    requires References(flights, ps)
    requires NewBooking(flights, ps, user, fnoRaw, passportRaw).Success?
    ensures References(flights, ps + [NewBooking(flights, ps, user, fnoRaw, passportRaw).value])
  {
    BookedFlightExists(flights, ps, user, fnoRaw, passportRaw);
  }

  // ---- cancel_booking ----

  /** Whether cancel_booking removes a booking (`email` lower-cased, `fno` upper-cased). */
  predicate Cancels(b: Booking, email: string, fno: string) {
    Lower(b.email) == email && Upper(b.flightNo) == fno
  }

  /** Appending a flight never leaves a booking without its flight. */
  lemma AddFlightKeepsReferences(flights: seq<Flight>, f: Flight, ps: seq<Booking>)
    requires References(flights, ps)
    ensures References(flights + [f], ps)
  {
    forall b | b in ps ensures exists g :: g in flights + [f] && g.flightNo == b.flightNo {
      var g :| g in flights && g.flightNo == b.flightNo;
      assert g in flights + [f];
    }
  }

  /** Edits that keep every flight number at its position keep every booking's flight. */
  lemma SameNumbersKeepReferences(flights: seq<Flight>, after: seq<Flight>, ps: seq<Booking>)
    requires |after| == |flights|
    requires forall i :: 0 <= i < |flights| ==> after[i].flightNo == flights[i].flightNo
    requires References(flights, ps)
    ensures References(after, ps)
  {
    forall b | b in ps ensures exists g :: g in after && g.flightNo == b.flightNo {
      var g :| g in flights && g.flightNo == b.flightNo;
      var i :| 0 <= i < |flights| && flights[i] == g;
      assert after[i] in after;
    }
  }

  /** cancel_booking: refused when the user has no booking at all (before the flight
      number is asked for) or when none of the user's bookings has that number;
      otherwise the ledger without the matching bookings, in order. */
  function Cancel(ps: seq<Booking>, user: User, fnoRaw: string): (r: Result<seq<Booking>, CancelError>)
    ensures r == Failure(NoBookings) <==> Owned(ps, Lower(user.email)) == []
    ensures r == Failure(NotBooked) <==>
      Owned(ps, Lower(user.email)) != [] && forall b :: b in ps ==> !Cancels(b, Lower(user.email), Strip(Upper(fnoRaw)))
    ensures r.Success? ==> forall b :: b in r.value <==> b in ps && !Cancels(b, Lower(user.email), Strip(Upper(fnoRaw)))
    ensures r.Success? ==> |r.value| < |ps|
  {
    var email := Lower(user.email);
    if Owned(ps, email) == [] then Failure(NoBookings)
    else
      var fno := Strip(Upper(fnoRaw));
      var keep := (b: Booking) => !Cancels(b, email, fno);
      FilterShorter(ps, keep);
      if |Filter(ps, keep)| < |ps| then Success(Filter(ps, keep)) else Failure(NotBooked)
  }

  /** Cancelling keeps both ledger invariants. */
  lemma CancelKeepsInvariants(flights: seq<Flight>, ps: seq<Booking>, user: User, fnoRaw: string)
    requires Cancel(ps, user, fnoRaw).Success?
    ensures var after := Cancel(ps, user, fnoRaw).value;
      (UniqueBookings(ps) ==> UniqueBookings(after)) && (References(flights, ps) ==> References(flights, after))
  {
    var email := Lower(user.email);
    var fno := Strip(Upper(fnoRaw));
    var keep := (b: Booking) => !Cancels(b, email, fno);
    assert Cancel(ps, user, fnoRaw).value == Filter(ps, keep);
    if UniqueBookings(ps) {
      FilterDistinct(ps, keep, BookingKey);
    }
  }

  // ---- delete_flight, passenger side ----

  /** The passengers delete_flight keeps: those whose upper-cased number is not `fno`,
      in order, whatever their flight's times. */
  function Cascade(ps: seq<Booking>, fno: string): (r: seq<Booking>)
    ensures forall b :: b in r <==> b in ps && Upper(b.flightNo) != fno
  {
    Filter(ps, (b: Booking) => Upper(b.flightNo) != fno)
  }

  /** Deleting flights with their bookings keeps both ledger invariants: every booking
      left still names a flight that is left. */
  lemma DeleteKeepsInvariants(flights: seq<Flight>, ps: seq<Booking>, fno: string, dep: string, arr: string)
    ensures var kept := Remaining(flights, fno, dep, arr);
      var left := Cascade(ps, fno);
      (UniqueBookings(ps) ==> UniqueBookings(left)) && (References(flights, ps) ==> References(kept, left))
  {
    var kept := Remaining(flights, fno, dep, arr);
    var left := Cascade(ps, fno);
    if UniqueBookings(ps) {
      FilterDistinct(ps, (b: Booking) => Upper(b.flightNo) != fno, BookingKey);
    }
    if References(flights, ps) {
      forall b | b in left ensures exists f :: f in kept && f.flightNo == b.flightNo {
        var f :| f in flights && f.flightNo == b.flightNo;
        assert !MatchesTriple(f, fno, dep, arr);
        assert f in kept;
      }
    }
  }

  /** After a delete no booking is left for the deleted number, and none of the user's
      bookings for it survives. */
  lemma CascadeRemovesNumber(ps: seq<Booking>, fno: string, user: User)
    ensures forall b :: b in Cascade(ps, fno) ==> Upper(b.flightNo) != fno
    ensures forall b :: b in BookingsOf(Cascade(ps, fno), user) ==> Upper(b.flightNo) != fno
    ensures (forall b :: b in BookingsOf(ps, user) ==> Upper(b.flightNo) == fno) ==> BookingsOf(Cascade(ps, fno), user) == []
  {
  }

  /** Booking a flight that the lookup finds, for a user who has no booking yet, succeeds
      with that flight's number and charges; deleting that number then leaves the user
      with no booking. */
  lemma BookThenCascade(flights: seq<Flight>, ps: seq<Booking>, user: User, fnoRaw: string, passportRaw: string)
    requires FindByNumber(flights, Strip(Upper(fnoRaw))).Some?
    requires BookingsOf(ps, user) == []
    ensures var f := flights[FindByNumber(flights, Strip(Upper(fnoRaw))).value];
      var r := NewBooking(flights, ps, user, fnoRaw, passportRaw);
      r.Success? && r.value.flightNo == f.flightNo && r.value.amount == f.charges
      && BookingsOf(Cascade(ps + [r.value], Strip(Upper(fnoRaw))), user) == []
  {
    var fno := Strip(Upper(fnoRaw));
    assert !HasBooking(ps, Lower(user.email), fno);
    var b := NewBooking(flights, ps, user, fnoRaw, passportRaw).value;
    forall c | c in Cascade(ps + [b], fno)
      ensures !IsOwner(c, Lower(user.email))
    {
      if c != b {
        assert c in ps;
      }
    }
  }

  /** The three operations connect: a flight added with a fresh number can be booked
      with the same reply to the flight-number prompt, at the price it was added with;
      deleting it with the same replies removes it, and with it that booking, so a user
      who had no other booking has none left. */
  lemma AddBookDelete(flights: seq<Flight>, ps: seq<Booking>, user: User, form: FlightForm, passportRaw: string)
    requires NewFlight(flights, form).Success?
    requires forall g :: g in flights ==> Upper(g.flightNo) != Upper(Strip(form.flightNo))
    requires BookingsOf(ps, user) == []
    ensures var f := NewFlight(flights, form).value;
      var r := NewBooking(flights + [f], ps, user, form.flightNo, passportRaw);
      var fno := Strip(Upper(form.flightNo));
      r.Success? && r.value.flightNo == f.flightNo && r.value.amount == f.charges
      && f !in Remaining(flights + [f], fno, Strip(form.depTime), Strip(form.arrTime))
      && BookingsOf(Cascade(ps + [r.value], fno), user) == []
  {
    var f := NewFlight(flights, form).value;
    AddedFlightFound(flights, form);
    assert (flights + [f])[|flights|] == f;
    BookThenCascade(flights + [f], ps, user, form.flightNo, passportRaw);
  }

  // ---- feedback ----

  /** Booking `j` of `ps` as the feedback loop leaves it. */
  function Noted(ps: seq<Booking>, email: string, answers: seq<string>, j: nat): Booking
    requires j < |ps|
  {
    if IsOwner(ps[j], email) && OwnedBefore(ps, email, j) < |answers|
    then ps[j].(feedback := Strip(answers[OwnedBefore(ps, email, j)]))
    else ps[j]
  }

  /** The first `i` bookings of `r` are those of `ps` as the feedback loop leaves them. */
  predicate NotedUpTo(ps: seq<Booking>, email: string, answers: seq<string>, r: seq<Booking>, i: nat) {
    |r| == |ps| && i <= |ps| && forall j :: 0 <= j < i ==> r[j] == Noted(ps, email, answers, j)
  }

  /** One more pass of the feedback loop extends the processed prefix by one booking. */
  lemma NotedExtend(ps: seq<Booking>, email: string, answers: seq<string>, r: seq<Booking>, i: nat, b: Booking)
    requires NotedUpTo(ps, email, answers, r, i) && i < |ps|
    requires b == Noted(ps, email, answers, i)
    ensures NotedUpTo(ps, email, answers, r[i := b], i + 1)
  {
  }

  /** What one pass of the feedback loop does to booking `i`. */
  lemma FeedbackStep(ps: seq<Booking>, email: string, answers: seq<string>, i: nat)
    requires i < |ps| && OwnedBefore(ps, email, |ps|) <= |answers|
    ensures OwnedBefore(ps, email, i + 1) <= OwnedBefore(ps, email, |ps|)
    ensures IsOwner(ps[i], email) ==>
      OwnedBefore(ps, email, i) < |answers|
      && Noted(ps, email, answers, i) == ps[i].(feedback := Strip(answers[OwnedBefore(ps, email, i)]))
    ensures !IsOwner(ps[i], email) ==> Noted(ps, email, answers, i) == ps[i]
  {
    OwnedBeforeMonotone(ps, email, i + 1, |ps|);
  }

  /** The feedback loop: it leaves every booking as `Noted` describes it, so every
      booking of `email` (lower-cased), in ledger order, receives the next stripped
      reply and nothing else changes (`NotedMeaning`). `found` says whether any
      booking matched. */
  method ApplyFeedback(ps: seq<Booking>, email: string, answers: seq<string>) returns (r: seq<Booking>, found: bool)
    requires OwnedBefore(ps, email, |ps|) <= |answers|
    ensures |r| == |ps|
    ensures found <==> OwnedBefore(ps, email, |ps|) > 0
    ensures NotedUpTo(ps, email, answers, r, |ps|)
  {
    r := ps;
    found := false;
    var used := 0;
    var i := 0;
    while i < |ps|
      invariant 0 <= i <= |ps| && |r| == |ps|
      invariant used == OwnedBefore(ps, email, i) <= OwnedBefore(ps, email, |ps|)
      invariant found <==> used > 0
      invariant NotedUpTo(ps, email, answers, r, i)
    {
      FeedbackStep(ps, email, answers, i);
      var b := ps[i];
      if IsOwner(b, email) {
        b := b.(feedback := Strip(answers[used]));
        found := true;
        used := used + 1;
      }
      NotedExtend(ps, email, answers, r, i, b);
      r := r[i := b];
      i := i + 1;
    }
  }

  /** What `Noted` says about a whole ledger once every answer that is needed exists. */
  lemma NotedMeaning(ps: seq<Booking>, email: string, answers: seq<string>, r: seq<Booking>)
    requires OwnedBefore(ps, email, |ps|) <= |answers|
    requires NotedUpTo(ps, email, answers, r, |ps|)
    ensures forall i :: 0 <= i < |ps| && !IsOwner(ps[i], email) ==> r[i] == ps[i]
    ensures forall i :: 0 <= i < |ps| && IsOwner(ps[i], email) ==>
              OwnedBefore(ps, email, i) < |answers| && r[i] == ps[i].(feedback := Strip(answers[OwnedBefore(ps, email, i)]))
  {
    forall j | 0 <= j < |ps| && IsOwner(ps[j], email)
      ensures OwnedBefore(ps, email, j) < |answers|
    {
      OwnedBeforeMonotone(ps, email, j + 1, |ps|);
    }
  }

  /** Setting feedback keeps both ledger invariants, since it changes no key and no
      flight number. */
  lemma FeedbackKeepsInvariants(flights: seq<Flight>, ps: seq<Booking>, qs: seq<Booking>)
    requires |qs| == |ps|
    requires forall i :: 0 <= i < |ps| ==> qs[i] == ps[i].(feedback := qs[i].feedback)
    ensures UniqueBookings(ps) ==> UniqueBookings(qs)
    ensures References(flights, ps) ==> References(flights, qs)
  {
    if UniqueBookings(ps) {
      SameKeysDistinct(ps, qs, BookingKey);
    }
    if References(flights, ps) {
      forall b | b in qs ensures exists f :: f in flights && f.flightNo == b.flightNo {
        var i :| 0 <= i < |qs| && qs[i] == b;
        assert ps[i] in ps;
      }
    }
  }
}
