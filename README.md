# Airline booking manager: record-consistency model

A Dafny model of the record-keeping core of `app.py`, a console airline booking
manager. The program keeps three tables, each stored as a JSON list of records:
flights, users and passenger bookings. Each operation loads a table, changes it
and writes it back. The model has these parts:

- `Catalog`: the flights table, with add_flight, modify_flight and the flight side of delete_flight.
- `Directory`: the users table, with register_user and the login lookup of the main menu.
- `Ledger`: the passengers table, with book_flight, the view_booking filter, cancel_booking, feedback and the booking cascade of delete_flight.
- `Airline`: the class `Database`, which holds the three tables as `seq` fields. It has one method per operation that changes them. A field `writes` logs every file an operation rewrites, in order.
- `Seqs`: list comprehensions (`Filter`), `next(...)` searches (`FindFirst`) and key uniqueness (`Distinct`).
- `Ascii`: the ASCII parts of `str.strip`, `upper`, `lower`, `isdigit`, `int` and `str`.
- `Wrappers`: `Option` and `Result`.

Each prompt's reply is a parameter, and error messages are error values. The
invariant `Airline.Invariant` is the conjunction of these:

- every stored flight number is upper case;
- serials are distinct;
- e-mail addresses are distinct, ignoring case;
- there is at most one booking per (lower-cased address, flight number);
- every booking names the number of an existing flight.

Every operation method of `Database` keeps this invariant. add_flight and delete_flight also
keep the uniqueness of (flight number, departure time, arrival time).
modify_flight does not keep it, and `Catalog.ModifyCanDuplicateTriple` shows two
flights that end up sharing that key.

Normalisation follows the code in each place:

- add_flight strips, then upper-cases.
- The lookups of modify_flight, delete_flight, book_flight and cancel_booking upper-case, then strip.
- register_user strips, then lower-cases.
- Login lower-cases, then strips.

`Ascii.StripUpper` and `Ascii.StripLower` prove that the two orders agree.

## Model

| member | source | states |
|---|---|---|
| Ascii.Strip | app.py:48 | the result is no longer than the input and neither starts nor ends with whitespace |
| Ascii.StripTrimmed | app.py:48 | `strip` removes only whitespace, and only from the two ends: the result is a slice of the input with whitespace on both sides |
| Ascii.StripUpper | app.py:98 | `s.upper().strip() == s.strip().upper()`, so the upper-then-strip lookups agree with the strip-then-upper stored values |
| Ascii.StripLower | app.py:375 | `s.lower().strip() == s.strip().lower()`, so login and registration normalise an address alike |
| Ascii.NatToString | app.py:83 | `str(n)` is a non-empty digit string with no leading zero |
| Ascii.NatToStringRoundTrip | app.py:51 | `int(str(n)) == n` |
| Ascii.NatToStringInjective | app.py:55 | `str(int(a)) == str(int(b))` exactly when the numbers agree, which is the duplicate-serial comparison |
| Ascii.IsSpace | app.py:48 | definition: the whitespace `str.strip` removes, restricted to ASCII (tab to carriage return, 0x1C to 0x1F, space) |
| Ascii.IsDigits | app.py:49 | definition: `str.isdigit` on ASCII, false on the empty string |
| Ascii.DigitsValue | app.py:51 | definition: `int(s)` of a string of decimal digits |
| Ascii.Upper | app.py:60 | definition: `str.upper` on ASCII, mapping `a`-`z` to `A`-`Z` and leaving every other character alone |
| Ascii.Lower | app.py:204 | definition: `str.lower` on ASCII, mapping `A`-`Z` to `a`-`z` and leaving every other character alone |
| Catalog.SerialTaken | app.py:55 | definition: some stored flight has the serial `str(int(serial))` |
| Catalog.Complete | app.py:74 | definition: none of the six normalised text fields is empty |
| Catalog.TripleTaken | app.py:78 | definition: some stored flight has the upper-cased number and the two times of the form |
| Catalog.MatchesTriple | app.py:154-156 | definition: a flight's upper-cased number and its two times equal those given for the delete |
| Directory.Registered | app.py:212 | definition: the directory after register_user, with the new user appended only when one was created |
| Ledger.HasBooking | app.py:239 | definition: a booking exists with the lower-cased address and, compared as stored, the requested number |
| Ledger.Cancels | app.py:297-298 | definition: a booking's lower-cased address and upper-cased number both match the cancellation |
| Seqs.Filter | app.py:151-158 | a comprehension keeps exactly the elements satisfying the condition, and is no longer than its input |
| Seqs.FilterAppend | app.py:294-300 | filtering distributes over concatenation, so what is kept stays in order |
| Seqs.FilterShorter | app.py:160 | the filtered list is shorter exactly when some element fails the condition |
| Seqs.FindFirst | app.py:99 | `next(...)` finds the first satisfying index, or reports that none satisfies |
| Seqs.FilterDistinct | app.py:177-180 | filtering keeps keys distinct |
| Catalog.NewFlight | app.py:45-91 | the checks of add_flight in their order: each refusal holds exactly when every earlier check passed and its own check fails (serial not digits; `str(int(serial))` taken; charges not digits; a field empty after normalisation; compound key taken); success holds exactly when all pass; the exact record built (`str(int(serial))`, upper-cased number and places, stripped times, integer charges) |
| Catalog.AddKeepsNumbersUpper | app.py:62 | a successful add keeps every stored flight number upper case |
| Catalog.AddKeepsUniqueSerials | app.py:55-57 | a successful add keeps the serials distinct |
| Catalog.AddKeepsUniqueTriples | app.py:78-80 | a successful add keeps (number, departure time, arrival time) distinct |
| Catalog.SecondAddSameSerialFails | app.py:55-57 | after an add, a second add whose serial has the same numeric value ("007" after "7") is refused as a duplicate serial |
| Catalog.SecondAddSameTripleFails | app.py:78-80 | after an add, no second add with the same normalised compound key can succeed, whatever its serial; when its serial is new and digits, its charges are digits and its fields are complete, it is refused exactly as a duplicate flight |
| Catalog.FindByNumber | app.py:99 | the first flight whose upper-cased number equals the input, or none exists |
| Catalog.AddedFlightFound | app.py:62 | a flight added with a number no stored flight has is stored under the upper-cased, stripped reply; a later lookup with the same reply (app.py:99, 232) finds it; a delete with the same replies matches it |
| Catalog.Apply | app.py:113-136 | one menu choice changes only the field it selects (upper-casing departure and destination, stripping each reply); a non-digit charges reply, an invalid choice or a non-number leaves the record unchanged |
| Catalog.Edited | app.py:105-133 | editing until choice 7 never changes the serial or the flight number |
| Catalog.EditWrites | app.py:137-138 | the flights file is written at most once per command |
| Catalog.EditedWithoutWrites | app.py:123-136 | a run of commands with no accepted edit, and so no write, leaves the record unchanged |
| Catalog.ModifyKeepsInvariants | app.py:105-138 | editing one record keeps flight numbers upper case and serials distinct |
| Catalog.ModifyCanDuplicateTriple | app.py:120 | a departure-time edit can give two flights the same compound key, because modify_flight checks no key |
| Catalog.Remaining | app.py:151-160 | delete keeps exactly the flights not matching the compound key (upper-cased number, exact times); it drops something exactly when some flight matches; if nothing matches it returns the catalog unchanged |
| Catalog.DeleteKeepsInvariants | app.py:151-158 | deleting keeps upper-case numbers, distinct serials and distinct compound keys |
| Directory.FindByEmail | app.py:205 | the first user whose lower-cased address equals the input, or no such user exists |
| Directory.Login | app.py:374-382 | login finds the first user whose lower-cased address is the lower-cased, stripped input; it fails exactly when no such user exists |
| Directory.Register | app.py:202-215 | an existing address, compared lower-cased, returns the first user with that address, as `next(...)` does; otherwise the user built from the stripped name, the stripped and lower-cased address and the stripped phone |
| Directory.RegisterKeepsUniqueEmails | app.py:209-213 | registering keeps addresses distinct |
| Directory.RegisterIdempotent | app.py:204-208 | registering the same address again returns the first call's user and leaves the directory as the first call left it |
| Directory.LoginAfterRegister | app.py:375-376 | after registering, logging in with the same reply finds the registered user |
| Ledger.Owned | app.py:262 | the comprehension keeps exactly the user's bookings, matched by lower-cased address; it is empty exactly when the user has none |
| Ledger.OwnedBeforeMonotone | app.py:313-316 | no prefix of the ledger holds more of the user's bookings than a longer one |
| Ledger.OwnedBeforeCounts | app.py:313-316 | counting the user's bookings up to a position counts the filtered prefix |
| Ledger.BookingsOf | app.py:259-262 | view_booking lists exactly the bookings whose address matches the user's in any case |
| Ledger.NewBooking | app.py:217-256 | refusals: no flights at all, no flight whose upper-cased number is the input, or an existing booking with the same lower-cased address and stored number; each holds exactly in its case; otherwise the booking copies the user's name, phone and address and the flight's stored number, snapshots the flight's charges as the amount, stores the stripped passport and starts with empty feedback |
| Ledger.BookedFlightExists | app.py:232-251 | a booking is made for a catalog flight whose number matches the request, at that flight's charges |
| Ledger.BookKeepsUniqueBookings | app.py:237-241 | with upper-case catalog numbers, a successful booking keeps one booking per (address, flight number) |
| Ledger.BookTwiceFails | app.py:239-241 | booking the same flight again is refused as already booked |
| Ledger.BookKeepsReferences | app.py:246-255 | a new booking names an existing flight |
| Ledger.AddFlightKeepsReferences | app.py:92 | appending a flight never orphans a booking |
| Ledger.SameNumbersKeepReferences | app.py:113-133 | edits that change no flight number orphan no booking |
| Ledger.Cancel | app.py:275-306 | refused before the prompt when the user has no booking; refused when no booking of the user has the upper-cased number; otherwise exactly the bookings not matching (lower-cased address, upper-cased number) stay, and at least one goes |
| Ledger.CancelKeepsInvariants | app.py:294-303 | cancelling keeps one booking per key and every booking's flight |
| Ledger.Cascade | app.py:177-180 | the bookings kept are exactly those whose upper-cased number differs from the deleted number, whatever their times |
| Ledger.DeleteKeepsInvariants | app.py:151-182 | after the flight delete and the cascade, every remaining booking still names a remaining flight, and booking keys stay distinct |
| Ledger.CascadeRemovesNumber | app.py:177-180 | no booking for the deleted number survives, neither in the ledger nor among any user's bookings |
| Ledger.BookThenCascade | app.py:231-256 | a booking of a flight the lookup finds, for a user without bookings, succeeds with the flight's stored number and charges; deleting that number leaves the user with no booking |
| Ledger.AddBookDelete | app.py:231-256 | a flight added with a fresh number is booked by the same flight-number reply, with the booking's number and amount taken from that flight; deleting with the same replies removes the flight, and a user with no other booking is left with none |
| Ledger.ApplyFeedback | app.py:308-316 | the loop leaves the ledger's length alone and every booking as `Noted` describes it (the user's n-th booking in ledger order with the n-th stripped reply, every other booking unchanged); `found` holds exactly when the user has a booking |
| Ledger.NotedMeaning | app.py:313-315 | a ledger that agrees with `Noted` everywhere has every non-owner's booking unchanged and the user's n-th booking with reply n, stripped, and nothing else changed |
| Ledger.FeedbackStep | app.py:314-316 | one pass of the loop: a booking of the user has a reply waiting and gets it, stripped; any other booking is left alone |
| Ledger.NotedExtend | app.py:313-316 | one pass of the loop extends the processed prefix by one booking |
| Ledger.Noted | app.py:313-316 | definition: booking `j` as the loop leaves it |
| Ledger.FeedbackKeepsInvariants | app.py:315 | changing only feedback keeps one booking per key and every booking's flight |
| Airline.Repeat | app.py:138 | `n` writes of one file |
| Airline.AddFlightKeepsInvariant | app.py:78-92 | a successful add keeps the invariant and compound-key uniqueness |
| Airline.ModifyFlightKeepsInvariant | app.py:105-138 | editing one flight keeps the invariant |
| Airline.DeleteFlightKeepsInvariant | app.py:151-182 | delete with cascade keeps the invariant and compound-key uniqueness |
| Airline.RegisterUserKeepsInvariant | app.py:209-213 | registration keeps the invariant |
| Airline.BookFlightKeepsInvariant | app.py:237-256 | a successful booking keeps the invariant |
| Airline.CancelBookingKeepsInvariant | app.py:294-303 | a successful cancellation keeps the invariant |
| Airline.FeedbackKeepsInvariant | app.py:313-319 | rewriting feedback keeps the invariant |
| Airline.Database.constructor | app.py:11-19 | the tables start as given, with no write |
| Airline.Database.Commit | app.py:21-23 | the tables take the new contents and the written files are logged |
| Airline.Database.AddFlight | app.py:45-93 | the result is `NewFlight`; on success exactly that flight is appended and the flights file is written once; otherwise nothing changes and nothing is written; users and passengers are untouched; the invariant and compound-key uniqueness are kept |
| Airline.Database.ModifyFlight | app.py:96-138 | without a matching flight nothing changes; otherwise only the first matching flight becomes `Edited` by the commands, the flights file is written once per accepted command, the passengers table is untouched (so booked amounts keep their snapshot), and the invariant is kept |
| Airline.Database.DeleteFlight | app.py:141-187 | deleted exactly when some flight matches the compound key; the flights become `Remaining`; only on a delete are the bookings cascaded and both files written, otherwise nothing is written; the invariant is kept |
| Airline.Database.RegisterUser | app.py:202-215 | returns the `Register` user; appends and writes the users file only for a new address; the invariant is kept |
| Airline.Database.BookFlight | app.py:217-256 | the result is `NewBooking`; on success exactly that booking is appended and the passengers file is written; otherwise nothing changes; the invariant is kept |
| Airline.Database.CancelBooking | app.py:275-306 | the error is `Cancel`'s refusal; on success the passengers become `Cancel`'s ledger and the file is written; otherwise nothing changes and nothing is written; the invariant is kept |
| Airline.Database.Feedback | app.py:308-322 | the ledger keeps its length; other users' bookings are unchanged; the user's n-th booking gets the n-th stripped reply and nothing else about it changes; the passengers file is written exactly when the user has a booking; the invariant is kept |

## Left out

- File I/O: `read_file` and `write_file` (JSON encoding, the existence check, and the fallback to an empty list on a decode error) are not modelled. The tables are in-memory sequences, and `Database.writes` records which file is rewritten, not its bytes.
- Display code is text formatting and is not modelled: `view_flights`, `view_passengers`, and the tables printed by book_flight, view_booking and cancel_booking.
- The main menu loop, the admin/admin credential check and the global `current_user` are not modelled. The logged-in user is a parameter.
- Prompts are parameters. `int(input(...))` for a menu choice is either `Command.Choice(n, reply)` or `Command.NotANumber`.
- Strings follow ASCII semantics. Unicode case mapping and Unicode whitespace are not modelled.
- Catalog.Edited: the modify loop runs until choice 7 or until the given commands run out. The source keeps prompting until choice 7; end of input is not modelled.
- Airline.Database.ModifyFlight: writes are counted, not snapshotted. Each intermediate write stores the record edited so far, but the log records only the file name.
- The dead code of delete_flight at app.py:161-176 computes values that are never used and is not modelled.
- Airline.Database.Feedback: requires one reply per booking of the user. With fewer replies the source's `input()` would fail at end of input, which is not modelled.
- Airline.Database.ModifyFlight: states the invariant but not compound-key uniqueness, because modify_flight does not keep it (see `Catalog.ModifyCanDuplicateTriple`). DeleteFlight states compound-key uniqueness only through `Airline.DeleteFlightKeepsInvariant`.
- Ledger.BookTwiceFails: requires upper-case catalog numbers. The duplicate test compares the stored number case-sensitively with the upper-cased input, so a lower-case number stored outside the program escapes it.
- The serial check is `isdigit()`, so the code accepts "0" as a serial. The model follows the code here, although a serial number is meant to be positive.
- The cascade of delete_flight is keyed on the flight number alone. Bookings of another flight with the same number but other times go too. The model keeps this behaviour (`Ledger.Cascade`).
- The flight value stored by add_flight for `CHARGES` is an integer and the one for `S_NO` a string. Other JSON value types written into the files by hand are not modelled.
