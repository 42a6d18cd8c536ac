/** The flight catalog (app.py, add_flight, modify_flight and the flight side of
    delete_flight): each record of the flights table and the rules that decide how
    the table changes. */
module Catalog {
  import opened Wrappers
  import opened Ascii
  import opened Seqs

  /** One record of the flights table. */
  datatype Flight = Flight(
    sNo: string,
    airline: string,
    departure: string,
    destination: string,
    flightNo: string,
    depTime: string,
    arrTime: string,
    charges: nat)

  /** The raw replies to the prompts of add_flight, in the order they are asked. */
  datatype FlightForm = FlightForm(
    sNo: string,
    airline: string,
    departure: string,
    destination: string,
    flightNo: string,
    depTime: string,
    arrTime: string,
    charges: string)

  datatype AddError = InvalidSerial | DuplicateSerial | InvalidCharges | MissingField | DuplicateFlight

  function SerialKey(f: Flight): string {
    f.sNo
  }

  /** The compound key (case-insensitive number, departure time, arrival time). */
  function TripleKey(f: Flight): (string, string, string) {
    (Upper(f.flightNo), f.depTime, f.arrTime)
  }

  /** Every stored flight number is already upper case, as add_flight stores it. */
  predicate NumbersUpper(flights: seq<Flight>) {
    forall f :: f in flights ==> Upper(f.flightNo) == f.flightNo
  }

  predicate UniqueSerials(flights: seq<Flight>) {
    Distinct(flights, SerialKey)
  }

  /** No two flights share (flight number, departure time, arrival time). */
  predicate UniqueTriples(flights: seq<Flight>) {
    Distinct(flights, TripleKey)
  }

  predicate SerialTaken(flights: seq<Flight>, serial: string) {
    exists f :: f in flights && f.sNo == serial
  }

  predicate TripleTaken(flights: seq<Flight>, key: (string, string, string)) {
    exists f :: f in flights && TripleKey(f) == key
  }

  /** The serial as add_flight stores it, `str(int(serial))`. */
  function Serial(form: FlightForm): string
    requires IsDigits(Strip(form.sNo))
  {
    NatToString(DigitsValue(Strip(form.sNo)))
  }

  /** The compound key the form asks for, after normalisation. */
  function FormTriple(form: FlightForm): (string, string, string) {
    (Upper(Strip(form.flightNo)), Strip(form.depTime), Strip(form.arrTime))
  }

  /** None of the six text replies is empty once normalised. */
  predicate Complete(form: FlightForm) {
    Strip(form.airline) != [] && Upper(Strip(form.departure)) != [] && Upper(Strip(form.destination)) != []
    && Upper(Strip(form.flightNo)) != [] && Strip(form.depTime) != [] && Strip(form.arrTime) != []
  }

  /** The checks of add_flight, in the order the source makes them, and the record it
      would append. */
  function NewFlight(flights: seq<Flight>, form: FlightForm): (r: Result<Flight, AddError>)
    ensures r == Failure(InvalidSerial) <==> !IsDigits(Strip(form.sNo))
    ensures r == Failure(DuplicateSerial) <==> IsDigits(Strip(form.sNo)) && SerialTaken(flights, Serial(form))
    ensures r == Failure(InvalidCharges) <==>
      IsDigits(Strip(form.sNo)) && !SerialTaken(flights, Serial(form)) && !IsDigits(Strip(form.charges))
    ensures r == Failure(MissingField) <==>
      IsDigits(Strip(form.sNo)) && !SerialTaken(flights, Serial(form)) && IsDigits(Strip(form.charges))
      && !Complete(form)
    ensures r == Failure(DuplicateFlight) <==>
      IsDigits(Strip(form.sNo)) && !SerialTaken(flights, Serial(form)) && IsDigits(Strip(form.charges))
      && Complete(form) && TripleTaken(flights, FormTriple(form))
    ensures r.Success? <==>
      IsDigits(Strip(form.sNo)) && IsDigits(Strip(form.charges)) && Complete(form)
      && !SerialTaken(flights, Serial(form)) && !TripleTaken(flights, FormTriple(form))
    ensures r.Success? ==>
      r.value == Flight(Serial(form), Strip(form.airline), Upper(Strip(form.departure)),
                        Upper(Strip(form.destination)), Upper(Strip(form.flightNo)),
                        Strip(form.depTime), Strip(form.arrTime), DigitsValue(Strip(form.charges)))
    ensures r.Success? ==>
      IsDigits(r.value.sNo) && Upper(r.value.flightNo) == r.value.flightNo
      && forall g :: g in flights ==> g.sNo != r.value.sNo && TripleKey(g) != TripleKey(r.value)
  {
    var sno := Strip(form.sNo);
    if !IsDigits(sno) then Failure(InvalidSerial)
    else if SerialTaken(flights, Serial(form)) then Failure(DuplicateSerial)
    else
      var charges := Strip(form.charges);
      if !IsDigits(charges) then Failure(InvalidCharges)
      else if !Complete(form) then Failure(MissingField)
      else if TripleTaken(flights, FormTriple(form)) then Failure(DuplicateFlight)
      else
        UpperIdempotent(Strip(form.flightNo));
        Success(Flight(Serial(form), Strip(form.airline), Upper(Strip(form.departure)),
                       Upper(Strip(form.destination)), Upper(Strip(form.flightNo)),
                       Strip(form.depTime), Strip(form.arrTime), DigitsValue(charges)))
  }

  /** A successful add keeps every stored flight number upper case. */
  lemma AddKeepsNumbersUpper(flights: seq<Flight>, form: FlightForm)
    requires NewFlight(flights, form).Success? && NumbersUpper(flights)
    ensures NumbersUpper(flights + [NewFlight(flights, form).value])
  {
  }

  /** A successful add keeps the serials distinct. */
  lemma AddKeepsUniqueSerials(flights: seq<Flight>, form: FlightForm)
    requires NewFlight(flights, form).Success? && UniqueSerials(flights)
    ensures UniqueSerials(flights + [NewFlight(flights, form).value])
  {
    DistinctSnoc(flights, NewFlight(flights, form).value, SerialKey);
  }

  /** A successful add keeps the compound keys distinct. */
  lemma AddKeepsUniqueTriples(flights: seq<Flight>, form: FlightForm)
    requires NewFlight(flights, form).Success? && UniqueTriples(flights)
    ensures UniqueTriples(flights + [NewFlight(flights, form).value])
  {
    DistinctSnoc(flights, NewFlight(flights, form).value, TripleKey);
  }

  /** Once a flight is added, any later add whose serial has the same numeric value
      is refused as a duplicate ("007" after "7" included). */
  lemma SecondAddSameSerialFails(flights: seq<Flight>, form: FlightForm, again: FlightForm)
    requires NewFlight(flights, form).Success?
    requires IsDigits(Strip(again.sNo)) && DigitsValue(Strip(again.sNo)) == DigitsValue(Strip(form.sNo))
    ensures NewFlight(flights + [NewFlight(flights, form).value], again) == Failure(DuplicateSerial)
  {
    var f := NewFlight(flights, form).value;
    assert f in flights + [f];
  }

  /** Once a flight is added, no later add with the same normalised compound key can
      succeed, whatever its serial. */
  lemma SecondAddSameTripleFails(flights: seq<Flight>, form: FlightForm, again: FlightForm)
    requires NewFlight(flights, form).Success?
    requires FormTriple(again) == FormTriple(form)
    ensures NewFlight(flights + [NewFlight(flights, form).value], again).Failure?
    ensures IsDigits(Strip(again.sNo)) && !SerialTaken(flights + [NewFlight(flights, form).value], Serial(again))
            && IsDigits(Strip(again.charges)) && Complete(again) ==>
      NewFlight(flights + [NewFlight(flights, form).value], again) == Failure(DuplicateFlight)
  {
    var f := NewFlight(flights, form).value;
    UpperIdempotent(Strip(form.flightNo));
    assert f in flights + [f] && TripleKey(f) == FormTriple(again);
  }

  /** The index of the first flight whose upper-cased number is `fno`
      (the `next(...)` lookups of modify_flight and book_flight). */
  function FindByNumber(flights: seq<Flight>, fno: string): (r: Option<nat>)
    ensures r.Some? ==> r.value < |flights| && Upper(flights[r.value].flightNo) == fno
    ensures r.Some? ==> forall j :: 0 <= j < r.value ==> Upper(flights[j].flightNo) != fno
    ensures r.None? <==> forall f :: f in flights ==> Upper(f.flightNo) != fno
  {
    FindFirst(flights, (f: Flight) => Upper(f.flightNo) == fno)
  }

  /** A flight added with a number no stored flight has is what a later lookup with the
      same reply finds, although add_flight strips before upper-casing and the lookups
      upper-case before stripping; a delete with the same replies matches it. */
  lemma AddedFlightFound(flights: seq<Flight>, form: FlightForm)
    requires NewFlight(flights, form).Success?
    requires forall g :: g in flights ==> Upper(g.flightNo) != Upper(Strip(form.flightNo))
    ensures var f := NewFlight(flights, form).value;
      var fno := Strip(Upper(form.flightNo));
      f.flightNo == fno
      && FindByNumber(flights + [f], fno) == Some(|flights|)
      && MatchesTriple(f, fno, Strip(form.depTime), Strip(form.arrTime))
  {
    var f := NewFlight(flights, form).value;
    var fl := flights + [f];
    var fno := Strip(Upper(form.flightNo));
    StripUpper(form.flightNo);
    UpperIdempotent(Strip(form.flightNo));
    assert fl[|flights|] == f;
    forall j | 0 <= j < |flights|
      ensures Upper(fl[j].flightNo) != fno
    {
      assert fl[j] in flights;
    }
  }

  // ---- modify_flight ----

  /** One reply to the "Enter choice" prompt: a number with the reply to the follow-up
      prompt (read only for choices 1 to 6), or a reply that is not a number. */
  datatype Command = Choice(n: int, value: string) | NotANumber

  /** Choice 7 leaves the edit loop. */
  predicate IsExit(c: Command) {
    c.Choice? && c.n == 7
  }

  /** The edits that change the record and are followed by a write of the flights table. */
  predicate Accepted(c: Command) {
    c.Choice? && (1 <= c.n <= 5 || (c.n == 6 && IsDigits(Strip(c.value))))
  }

  /** `g` agrees with `f` on every field except the one choice `n` selects. */
  predicate SameExcept(f: Flight, g: Flight, n: int) {
    g.sNo == f.sNo && g.flightNo == f.flightNo
    && (n != 1 ==> g.airline == f.airline)
    && (n != 2 ==> g.departure == f.departure)
    && (n != 3 ==> g.destination == f.destination)
    && (n != 4 ==> g.depTime == f.depTime)
    && (n != 5 ==> g.arrTime == f.arrTime)
    && (n != 6 ==> g.charges == f.charges)
  }

  /** One pass of modify_flight's loop on the selected record. */
  function Apply(f: Flight, c: Command): (g: Flight)
    ensures !Accepted(c) ==> g == f
    ensures c.Choice? ==> SameExcept(f, g, c.n)
    ensures Accepted(c) && c.n == 1 ==> g.airline == Strip(c.value)
    ensures Accepted(c) && c.n == 2 ==> g.departure == Upper(Strip(c.value))
    ensures Accepted(c) && c.n == 3 ==> g.destination == Upper(Strip(c.value))
    ensures Accepted(c) && c.n == 4 ==> g.depTime == Strip(c.value)
    ensures Accepted(c) && c.n == 5 ==> g.arrTime == Strip(c.value)
    ensures Accepted(c) && c.n == 6 ==> g.charges == DigitsValue(Strip(c.value))
  {
    match c
    case NotANumber => f
    case Choice(n, v) =>
      if n == 1 then f.(airline := Strip(v))
      else if n == 2 then f.(departure := Upper(Strip(v)))
      else if n == 3 then f.(destination := Upper(Strip(v)))
      else if n == 4 then f.(depTime := Strip(v))
      else if n == 5 then f.(arrTime := Strip(v))
      else if n == 6 && IsDigits(Strip(v)) then f.(charges := DigitsValue(Strip(v)))
      else f
  }

  /** The record after modify_flight has processed `cs`, stopping at the first exit. */
  function Edited(f: Flight, cs: seq<Command>): (g: Flight)
    ensures g.sNo == f.sNo && g.flightNo == f.flightNo
    decreases |cs|
  {
    if cs == [] || IsExit(cs[0]) then f else Edited(Apply(f, cs[0]), cs[1..])
  }

  /** How many times modify_flight writes the flights table while processing `cs`. */
  function EditWrites(cs: seq<Command>): (n: nat)
    ensures n <= |cs|
  {
    if cs == [] || IsExit(cs[0]) then 0
    else (if Accepted(cs[0]) then 1 else 0) + EditWrites(cs[1..])
  }

  /** Edits without an accepted command leave the record as it was. */
  lemma {:induction false} EditedWithoutWrites(f: Flight, cs: seq<Command>)
    requires EditWrites(cs) == 0
    ensures Edited(f, cs) == f
    decreases |cs|
  {
    if cs != [] && !IsExit(cs[0]) {
      EditedWithoutWrites(f, cs[1..]);
    }
  }

  /** Editing one record keeps the invariants that modify_flight cannot affect:
      it never changes a serial or a flight number. */
  lemma ModifyKeepsInvariants(flights: seq<Flight>, k: nat, cs: seq<Command>)
    requires k < |flights|
    ensures var after := flights[k := Edited(flights[k], cs)];
      (NumbersUpper(flights) ==> NumbersUpper(after))
      && (UniqueSerials(flights) ==> UniqueSerials(after))
  {
    var after := flights[k := Edited(flights[k], cs)];
    if UniqueSerials(flights) {
      SameKeysDistinct(flights, after, SerialKey);
    }
    if NumbersUpper(flights) {
      forall f | f in after ensures Upper(f.flightNo) == f.flightNo {
        var i :| 0 <= i < |after| && after[i] == f;
        assert flights[i] in flights;
      }
    }
  }

  /** modify_flight checks no key, so one edit of a departure time can give two
      flights the same compound key. */
  lemma ModifyCanDuplicateTriple()
    ensures var flights := [Flight("1", "AIR", "X", "Y", "AA1", "t1", "t2", 100),
                            Flight("2", "AIR", "X", "Y", "AA1", "t3", "t2", 100)];
      var cs := [Choice(4, "t3")];
      UniqueTriples(flights) && !UniqueTriples(flights[0 := Edited(flights[0], cs)])
  {
    var flights := [Flight("1", "AIR", "X", "Y", "AA1", "t1", "t2", 100),
                    Flight("2", "AIR", "X", "Y", "AA1", "t3", "t2", 100)];
    var cs := [Choice(4, "t3")];
    assert Strip("t3") == "t3" by {
      assert TrimStart("t3") == "t3";
      assert TrimEnd("t3") == "t3";
    }
    var after := flights[0 := Edited(flights[0], cs)];
    assert after[0].depTime == "t3";
    assert TripleKey(after[0]) == TripleKey(after[1]);
    assert TripleKey(flights[0]) != TripleKey(flights[1]) by {
      assert flights[0].depTime[1] != flights[1].depTime[1];
    }
  }

  // ---- delete_flight, flight side ----

  /** Whether a flight has the compound key (`fno` already upper-cased and stripped). */
  predicate MatchesTriple(f: Flight, fno: string, dep: string, arr: string) {
    Upper(f.flightNo) == fno && f.depTime == dep && f.arrTime == arr
  }

  /** The flights delete_flight keeps: those not matching the compound key, in order. */
  function Remaining(flights: seq<Flight>, fno: string, dep: string, arr: string): (r: seq<Flight>)
    ensures forall f :: f in r <==> f in flights && !MatchesTriple(f, fno, dep, arr)
    ensures |r| < |flights| <==> exists f :: f in flights && MatchesTriple(f, fno, dep, arr)
    ensures |r| == |flights| ==> r == flights
  {
    var keep := (f: Flight) => !MatchesTriple(f, fno, dep, arr);
    FilterShorter(flights, keep);
    if |Filter(flights, keep)| == |flights| then
      FilterAll(flights, keep);
      Filter(flights, keep)
    else
      Filter(flights, keep)
  }

  /** Deleting flights keeps the catalog's invariants. */
  lemma DeleteKeepsInvariants(flights: seq<Flight>, fno: string, dep: string, arr: string)
    ensures var after := Remaining(flights, fno, dep, arr);
      (NumbersUpper(flights) ==> NumbersUpper(after))
      && (UniqueSerials(flights) ==> UniqueSerials(after))
      && (UniqueTriples(flights) ==> UniqueTriples(after))
  {
    var keep := (f: Flight) => !MatchesTriple(f, fno, dep, arr);
    FilterShorter(flights, keep);
    if |Filter(flights, keep)| == |flights| {
      FilterAll(flights, keep);
    }
    assert Remaining(flights, fno, dep, arr) == Filter(flights, keep);
    if UniqueSerials(flights) {
      FilterDistinct(flights, keep, SerialKey);
    }
    if UniqueTriples(flights) {
      FilterDistinct(flights, keep, TripleKey);
    }
  }
}
