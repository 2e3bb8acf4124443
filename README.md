# Train seat reservation: a verified model

The system books seats in a single coach of 80 seats, ids 0 to 79. The seats sit
in rows of 7, and the last row (ids 77 to 79) has only 3 seats. Each seat has a
status: 0 is free and 1 is booked. A freshly initialised coach has seats
0, 1, 2, 15, 22, 23, 33, 34 and 35 booked.

A request for `k` seats is handled in three steps:

- It is refused when fewer than `k` seats are free.
- Otherwise the engine scans the rows in order. The first row that holds at
  least `k` free seats supplies its first `k` free ids.
- When no row does, the first `k` free ids of the coach are taken.

The chosen seats are then marked booked, both in the in-memory status list and
in the seat table. One reservation is also appended; it holds the ids in
decimal, joined by commas.

The model has three modules and a small wrapper module:

- `Allocation` holds the selection rule. It is written as pure functions on the
  status list: `FreeIdsIn`, `FreeIds`, `RowFree`, `FirstFit`, `Select`,
  `MarkBooked`, `InitialLayout` and `InitializedRows`. Next to it are the lemmas
  about the rule, and `ChooseSeats`, which is the booking call's row scan
  written as a loop and proved equal to `Select`.
- `SeatCodec` holds the comma-joined text of a reservation (`JoinIds`) and a
  parser for it (`ParseIds`). It proves that parsing the text gives back the ids.
- `SeatReservation` holds the two classes:
  - `Store` stands for the database. It has the seat table as a `seq<int>` in
    seat-id order, and the reservations table as a `seq<Reservation>`.
  - `TrainSeatReservation` has the in-memory `seats` array and the operations
    that initialise, load, display, count and book seats.
  - Its invariant, `Valid`, says three things: the array mirrors the seat
    table; every reservation is numbered by its position; and every seat a
    reservation names is booked.
  - `BookingOutcome` states everything one booking call promises, and
    `BookingSpecified` proves that the selection rule meets it.

Two checks are absent from the code, and the model keeps that behaviour:

- **The request size is never checked.** `book_seats` does not check that a
  request is for at least 1 seat. A request for 0 seats books nothing but still
  appends an empty reservation. A negative request follows Python's slice
  semantics: it books all but the last `-k` free seats of row 0
  (`SelectNonPositive`, `NegativeRequestFromInitial`). Requests stay between
  1 and 7 only because the number-input widget (app.py:118) keeps them there,
  and that widget is not part of this model.
- **Seat marking does not validate ids.** `update_seat_status` does not check
  that an id is in range, or that its seat is still free, before marking it
  booked. The model books whatever ids it is given. It requires only that the
  ids are in range, so that an array index exists.

## Model

| member | source | states |
|---|---|---|
| Allocation.FreeIdsInSpec | app.py:73 | the free ids of a range are exactly the ids in the range whose status is 0, each within the range, strictly ascending |
| Allocation.FreeIdsCount | app.py:100-102 | the list of free ids is as long as the count of zeros in the status list |
| Allocation.RowFreeWithinTotal | app.py:79-80 | a row never has more free seats than the whole coach |
| Allocation.FirstFitSpec | app.py:79-84 | the row scan finds the lowest row at or after its start with at least k free seats; it comes back empty only when every later row has fewer than k |
| Allocation.SelectRefusesIff | app.py:73-76 | a request is refused if and only if fewer than k seats are free |
| Allocation.SelectRowPreference | app.py:79-84 | when row r is the first row with at least k free seats, the booking takes the first k free ids of row r |
| Allocation.SelectFallback | app.py:86-89 | when no row has k free seats but the coach does, the booking takes the first k free ids of the coach |
| Allocation.SelectNonPositive | app.py:71-84 | a request for 0 or fewer seats is never refused; it takes the Python slice of row 0's free ids, which is empty for 0 |
| Allocation.ScanStep | app.py:79-84 | in one step of the row scan, the current row either is the one the rule takes or is short of k free seats like every earlier row |
| Allocation.ChooseSeats | app.py:71-89 | the loop of the booking call returns exactly the selection rule's answer, the refusal included |
| Allocation.SelectSound | app.py:73-89 | the selected ids are strictly ascending, all free, all below 80, and there are k of them for a non-negative request |
| Allocation.PrefixOfFree | app.py:80-83 | any prefix of a range's free ids is ascending and consists of free ids in that range |
| Allocation.MarkBookedSnoc | app.py:94-95 | booking one more id changes only that id's status, to 1 |
| Allocation.CountFreeBookOne | app.py:95 | booking one free seat lowers the free count by one |
| Allocation.MarkBookedCount | app.py:94-95 | booking free seats that are pairwise distinct (as every selection is) lowers the free count by their number |
| Allocation.SelectThenBook | app.py:71-98 | after a successful selection is booked: the chosen seats were free and are now booked, every other seat is unchanged, and the free count drops by the number chosen, which is k for a non-negative request |
| Allocation.InitialLayoutFacts | app.py:52-53 | the initial layout has 80 seats, is booked exactly at the nine listed ids and free elsewhere, and leaves 71 seats free |
| Allocation.InitializedRowsIdempotent | app.py:45-55 | seat initialisation fills an empty table with the initial layout, leaves a populated table alone, and doing it twice is the same as doing it once |
| Allocation.BookFourFromInitial | app.py:79-84 | on the initial layout a request for 4 takes seats 3, 4, 5 and 6, the rest of row 0 |
| Allocation.BookSevenAfterFour | app.py:79-84 | after that booking, a request for 7 skips the now full row 0 and takes the whole of row 1, seats 7 to 13 |
| Allocation.NegativeRequestFromInitial | app.py:79-84 | on the initial layout a request for -1 seats takes seats 3, 4 and 5 |
| SeatCodec.ParseNatToString | app.py:97 | the decimal form of a seat id parses back to that id |
| SeatCodec.ParseJoinIds | app.py:97 | the comma-joined text stored for a reservation parses back to exactly the booked id list; the empty list gives the empty text |
| SeatReservation.BookingKeepsStoreValid | app.py:91-98 | booking in-range seats and appending their reservation keeps the tables consistent: reservations stay numbered 1, 2, ... and every recorded seat is booked |
| SeatReservation.BookingSpecified | app.py:71-98 | the selection rule, applied by marking its seats and appending one reservation, meets the full booking outcome; a refusal changes nothing |
| SeatReservation.Store.constructor | app.py:22-40 | a new database has both tables empty |
| SeatReservation.TrainSeatReservation.constructor | app.py:7-10 | opening the system initialises the seat table when it is empty, loads it into the array, and leaves the reservations as they were |
| SeatReservation.TrainSeatReservation.InitSeats | app.py:45-55 | an empty seat table receives the initial layout, seat by seat; a populated one is left alone |
| SeatReservation.TrainSeatReservation.LoadSeats | app.py:57-61 | loading returns the seat table's statuses in seat-id order |
| SeatReservation.TrainSeatReservation.DisplaySeats | app.py:63-69 | one symbol per seat: "X" exactly where the status is 1, "O" everywhere else |
| SeatReservation.TrainSeatReservation.CountAvailableSeats | app.py:100-102 | the count of zero statuses, which is also the number of free ids |
| SeatReservation.TrainSeatReservation.BookSeats | app.py:71-89 | the booking outcome: the selection rule's answer; refusal exactly when too few seats are free, and then nothing changes; on success ascending free ids, booked in memory and in the table, all other seats unchanged, the free count lower by their number, and one reservation appended whose text parses back to the ids |
| SeatReservation.TrainSeatReservation.UpdateSeatStatus | app.py:91-98 | the given seats become booked in the array and in the seat table, nothing else changes, and one reservation numbered after the last is appended with the comma-joined ids |

## Left out

- SQLite plumbing is not modelled: the connection, the `CREATE TABLE` statements, the SQL text and the commits (app.py:12-40). The two tables are the `Store` object, and an insert into a table is an append to it.
- The failed-connection path of `create_connection`, where the error is printed and `None` is returned, is not modelled. The database is assumed to always succeed, so a persistence failure, a rollback and a partial write are not modelled either.
- The reservation timestamp is not modelled. It is set by the database clock, and the model keeps no clock.
- The Streamlit `main` is not modelled (app.py:104-127). That covers page rendering, the emoji substitution, the 1-based seat numbers in the success message, and the input widget's limit of 1 to 7 seats.
- Concurrent access to the database is not modelled. Each method is one atomic step on the two tables.
- SeatReservation.TrainSeatReservation.constructor: takes only a store that is empty, or one in the state this program writes (80 statuses and consistent reservations). A store that some other writer edited is not modelled.
- SeatReservation.TrainSeatReservation.UpdateSeatStatus: requires every id to be below 80. Python's negative indexing, and the `IndexError` for an id of 80 or more, are not modelled. Its only caller passes ids from the selection, which are always in range.
- The reservation id is modelled as the position in an append-only table plus one. A database that ever deleted a row would number differently under `AUTOINCREMENT`.
