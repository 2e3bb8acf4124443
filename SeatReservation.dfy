/** The reservation system object: an in-memory status array mirroring the
    durable seat table, a durable reservations table, and the operations that
    initialise, display, count and book seats. */
module SeatReservation {

  import opened Wrappers
  import opened Allocation
  import opened SeatCodec

  /** A row of the reservations table: its auto-incremented id and the seat ids
      joined by commas. The creation timestamp the database adds is not kept. */
  datatype Reservation = Reservation(reservationId: nat, seatIds: string)

  /** Every seat a reservation names is in range and booked in rows. */
  predicate RecordBooked(rows: seq<int>, rec: Reservation) {
    match ParseIds(rec.seatIds)
    case Some(ids) => forall x :: x in ids ==> x < |rows| && rows[x] == BOOKED
    case None => false
  }

  /** The reservations table is numbered 1, 2, ... in insertion order and names booked seats only. */
  predicate LogConsistent(rows: seq<int>, log: seq<Reservation>) {
    forall j :: 0 <= j < |log| ==> log[j].reservationId == j + 1 && RecordBooked(rows, log[j])
  }

  /** What an initialised store holds: one status per seat, and a consistent reservations table. */
  predicate StoreValid(rows: seq<int>, log: seq<Reservation>) {
    |rows| == SEAT_COUNT && LogConsistent(rows, log)
  }

  lemma RecordBookedMonotone(rows: seq<int>, ids: seq<nat>, rec: Reservation)
    requires RecordBooked(rows, rec)
    ensures RecordBooked(MarkBooked(rows, ids), rec)
  {
  }

  /** Booking seats and appending their reservation keeps the store consistent. */
  lemma BookingKeepsStoreValid(rows: seq<int>, log: seq<Reservation>, ids: seq<nat>)
    requires StoreValid(rows, log)
    requires forall x :: x in ids ==> x < SEAT_COUNT
    ensures StoreValid(MarkBooked(rows, ids), log + [Reservation(|log| + 1, JoinIds(ids))])
  {
    var after := MarkBooked(rows, ids);
    var log' := log + [Reservation(|log| + 1, JoinIds(ids))];
    forall j | 0 <= j < |log|
      ensures log'[j].reservationId == j + 1 && RecordBooked(after, log'[j])
    {
      RecordBookedMonotone(rows, ids, log[j]);
    }
    ParseJoinIds(ids);
    assert RecordBooked(after, log'[|log|]);
  }

  /** What one booking call promises, relating the statuses and the reservations
      before it to those after it, for a request of k seats answered with reserved:
      the answer is the selection rule's; a refusal (exactly when fewer than k seats
      are free) changes nothing; a success takes ascending ids that were free (k of
      them when k is not negative), books exactly them, lowers the free count by
      their number and appends one reservation whose stored text reads back as the ids. */
  ghost predicate BookingOutcome(before: seq<int>, after: seq<int>, logBefore: seq<Reservation>,
                                 logAfter: seq<Reservation>, k: int, reserved: Option<seq<nat>>)
  {
    |before| == SEAT_COUNT && |after| == SEAT_COUNT &&
    reserved == Select(before, k) &&
    (reserved.None? <==> CountFree(before) < k) &&
    (reserved.None? ==> after == before && logAfter == logBefore) &&
    (reserved.Some? ==>
      (k >= 0 ==> |reserved.value| == k) && StrictlyAscending(reserved.value) &&
      (forall x :: x in reserved.value ==> x < SEAT_COUNT && before[x] == FREE && after[x] == BOOKED) &&
      (forall i :: 0 <= i < SEAT_COUNT && i !in reserved.value ==> after[i] == before[i]) &&
      CountFree(after) == CountFree(before) - |reserved.value| &&
      logAfter == logBefore + [Reservation(|logBefore| + 1, JoinIds(reserved.value))] &&
      ParseIds(logAfter[|logAfter| - 1].seatIds) == reserved)
  }

  /** The selection rule, applied by marking the chosen seats and logging them, meets BookingOutcome. */
  lemma BookingSpecified(before: seq<int>, log: seq<Reservation>, k: int)
    requires |before| == SEAT_COUNT
    ensures Select(before, k).None? ==> BookingOutcome(before, before, log, log, k, None)
    ensures Select(before, k).Some? ==>
      var ids := Select(before, k).value;
      BookingOutcome(before, MarkBooked(before, ids), log, log + [Reservation(|log| + 1, JoinIds(ids))],
                     k, Some(ids))
  {
    SelectRefusesIff(before, k);
    if Select(before, k).Some? {
      SelectThenBook(before, k);
      ParseJoinIds(Select(before, k).value);
    }
  }

  /** The durable tables: the seat statuses in seat-id order, and the reservations. */
  class Store {
    var seatRows: seq<int>
    var reservations: seq<Reservation>

    /** A database with both tables created and still empty. */
    constructor ()
      ensures seatRows == [] && reservations == []
    {
      seatRows := [];
      reservations := [];
    }
  }

  class TrainSeatReservation {
    const store: Store
    /** The in-memory copy of the seat statuses. */
    var seats: array<int>

    ghost predicate Valid()
      reads this, store, seats
    {
      seats.Length == SEAT_COUNT &&
      seats[..] == store.seatRows &&
      LogConsistent(store.seatRows, store.reservations)
    }

    /** Opens the system over a store this program created (empty, or written by an
        earlier session): initialises the seat table if needed and loads it. */
    constructor (db: Store)
      requires (db.seatRows == [] && db.reservations == []) || StoreValid(db.seatRows, db.reservations)
      modifies db
      ensures store == db && fresh(seats)
      ensures Valid()
      ensures store.seatRows == InitializedRows(old(db.seatRows))
      ensures store.reservations == old(db.reservations)
    {
      store := db;
      seats := new int[0];
      new;
      InitSeats();
      var rows := LoadSeats();
      seats := new int[|rows|](i requires 0 <= i < |rows| => rows[i]);
      assert seats[..] == rows;
    }

    /** Fills an empty seat table with the initial layout; leaves a populated one alone. */
    method InitSeats()
      modifies store
      ensures store.seatRows == InitializedRows(old(store.seatRows))
      ensures store.reservations == old(store.reservations)
    {
      var count := |store.seatRows|;
      if count == 0 {
        var seatId := 0;
        while seatId < SEAT_COUNT
          invariant 0 <= seatId <= SEAT_COUNT
          invariant store.seatRows == InitialLayout()[..seatId]
          invariant store.reservations == old(store.reservations)
        {
          var status := if seatId !in PRE_BOOKED then FREE else BOOKED;
          store.seatRows := store.seatRows + [status];
          seatId := seatId + 1;
        }
      }
    }

    /** Reads the seat statuses from the store, in seat-id order. */
    method LoadSeats() returns (rows: seq<int>)
      ensures rows == store.seatRows
    {
      rows := store.seatRows;
    }

    /** One symbol per seat: "X" for a booked seat, "O" for any other. */
    method DisplaySeats() returns (display: seq<string>)
      ensures |display| == seats.Length
      ensures forall i :: 0 <= i < |display| ==> display[i] == (if seats[i] == BOOKED then "X" else "O")
    {
      display := [];
      var i := 0;
      while i < seats.Length
        invariant 0 <= i <= seats.Length
        invariant |display| == i
        invariant forall j :: 0 <= j < i ==> display[j] == (if seats[j] == BOOKED then "X" else "O")
      {
        var symbol := if seats[i] == BOOKED then "X" else "O";
        display := display + [symbol];
        i := i + 1;
      }
    }

    /** The number of free seats, which is also the length of the list of free ids. */
    method CountAvailableSeats() returns (count: nat)
      ensures count == CountFree(seats[..])
      ensures seats.Length == SEAT_COUNT ==> count == |FreeIds(seats[..])|
    {
      count := CountFree(seats[..]);
      if seats.Length == SEAT_COUNT {
        FreeIdsCount(seats[..]);
      }
    }

    /** Books requiredSeats seats chosen by the row-first rule, or refuses when too few are free.
        The request size is not checked: 0 books nothing but still logs an empty
        reservation, and a negative size books a Python slice of row 0. */
    method BookSeats(requiredSeats: int) returns (reserved: Option<seq<nat>>)
      requires Valid()
      modifies seats, store
      ensures Valid()
      ensures BookingOutcome(old(seats[..]), seats[..], old(store.reservations), store.reservations,
                             requiredSeats, reserved)
    {
      ghost var before := seats[..];
      BookingSpecified(before, store.reservations, requiredSeats);
      reserved := ChooseSeats(seats[..], requiredSeats);
      if reserved.Some? {
        SelectSound(before, requiredSeats);
        UpdateSeatStatus(reserved.value);
      }
    }

    /** Marks the given seats booked, in memory and in the seat table, and appends
        one reservation naming them. */
    method UpdateSeatStatus(seatIds: seq<nat>)
      requires Valid()
      requires forall x :: x in seatIds ==> x < SEAT_COUNT
      modifies seats, store
      ensures Valid()
      ensures seats[..] == MarkBooked(old(seats[..]), seatIds)
      ensures store.reservations ==
        old(store.reservations) + [Reservation(|old(store.reservations)| + 1, JoinIds(seatIds))]
    {
      ghost var before := seats[..];
      var i := 0;
      while i < |seatIds|
        invariant 0 <= i <= |seatIds|
        invariant seats[..] == MarkBooked(before, seatIds[..i])
        invariant store.seatRows == seats[..]
        invariant store.reservations == old(store.reservations)
      {
        var seatId := seatIds[i];
        assert seatId in seatIds;
        seats[seatId] := BOOKED;
        store.seatRows := store.seatRows[seatId := BOOKED];
        MarkBookedSnoc(before, seatIds[..i], seatId);
        assert seatIds[..i + 1] == seatIds[..i] + [seatId];
        i := i + 1;
      }
      assert seatIds[..i] == seatIds;
      BookingKeepsStoreValid(before, store.reservations, seatIds);
      store.reservations := store.reservations + [Reservation(|store.reservations| + 1, JoinIds(seatIds))];
    }
  }
}
