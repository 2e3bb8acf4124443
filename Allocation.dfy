/** The seat-allocation rule of the reservation engine, as pure functions over
    the status list of the coach (0 = free, anything else = not free; the
    engine only ever writes 0 and 1), with the lemmas that state what the rule
    promises. */
module Allocation {

  import opened Wrappers

  /** The coach: 80 seats with ids 0..79, in rows of 7; the last row (ids 77..79) has 3 seats. */
  const SEAT_COUNT: nat := 80
  const ROW_WIDTH: nat := 7
  /** Number of row starts 0, 7, ..., 77 visited by the row scan. */
  const ROW_COUNT: nat := 12
  /** Seats that a freshly initialised store marks booked. */
  const PRE_BOOKED: seq<nat> := [0, 1, 2, 15, 22, 23, 33, 34, 35]

  const FREE: int := 0
  const BOOKED: int := 1

  predicate StrictlyAscending(ids: seq<nat>) {
    forall i, j :: 0 <= i < j < |ids| ==> ids[i] < ids[j]
  }

  /** No id occurs twice. */
  predicate Distinct(ids: seq<nat>) {
    forall i, j :: 0 <= i < j < |ids| ==> ids[i] != ids[j]
  }

  function Min(a: int, b: int): int {
    if a <= b then a else b
  }

  /** The ids in [lo, hi) whose status is free, in ascending order. */
  function FreeIdsIn(s: seq<int>, lo: nat, hi: nat): seq<nat>
    requires lo <= hi <= |s|
    decreases hi - lo
  {
    if lo == hi then []
    else (if s[lo] == FREE then [lo] else []) + FreeIdsIn(s, lo + 1, hi)
  }

  /** All free ids of the coach, ascending. */
  function FreeIds(s: seq<int>): seq<nat>
    requires |s| == SEAT_COUNT
  {
    FreeIdsIn(s, 0, SEAT_COUNT)
  }

  /** Number of entries of the status list equal to "free" (a list count of 0). */
  function CountFree(s: seq<int>): nat {
    multiset(s)[FREE]
  }

  function RowStart(r: nat): nat {
    ROW_WIDTH * r
  }

  function RowEnd(r: nat): nat {
    Min(RowStart(r) + ROW_WIDTH, SEAT_COUNT)
  }

  /** The free ids of row r, ascending. */
  function RowFree(s: seq<int>, r: nat): seq<nat>
    requires |s| == SEAT_COUNT && r < ROW_COUNT
  {
    FreeIdsIn(s, RowStart(r), RowEnd(r))
  }

  /** How many entries Python's prefix slice xs[:k] keeps of an n-entry list: k
      itself when 0 <= k <= n, all n when k is larger, and for a negative k all
      but the last -k entries (none when -k exceeds n). */
  function TakeCount(n: nat, k: int): (m: nat)
    ensures m <= n
    ensures 0 <= k <= n ==> m == k
    ensures k > n ==> m == n
    ensures k < 0 ==> m == if n + k >= 0 then n + k else 0
  {
    if k >= 0 then (if k <= n then k else n)
    else if n + k >= 0 then n + k
    else 0
  }

  /** Python's prefix slice xs[:k]. */
  function Take(xs: seq<nat>, k: int): seq<nat> {
    xs[..TakeCount(|xs|, k)]
  }

  /** The lowest row at or after r holding at least k free seats, if any. */
  function FirstFit(s: seq<int>, k: int, r: nat): Option<nat>
    requires |s| == SEAT_COUNT && r <= ROW_COUNT
    decreases ROW_COUNT - r
  {
    if r == ROW_COUNT then None
    else if |RowFree(s, r)| >= k then Some(r)
    else FirstFit(s, k, r + 1)
  }

  /** The seats a request for k seats takes: nothing when fewer than k are free;
      otherwise the first k free ids of the lowest row with k free seats, or,
      when no row has k free seats, the first k free ids of the coach. */
  function Select(s: seq<int>, k: int): Option<seq<nat>>
    requires |s| == SEAT_COUNT
  {
    var available := FreeIds(s);
    if |available| < k then None
    else
      FirstFitSpec(s, k, 0);
      match FirstFit(s, k, 0)
      case Some(r) => Some(Take(RowFree(s, r), k))
      case None => Some(Take(available, k))
  }

  /** The status list after every id in ids is marked booked. */
  function MarkBooked(s: seq<int>, ids: seq<nat>): seq<int> {
    seq(|s|, i requires 0 <= i < |s| => if i in ids then BOOKED else s[i])
  }

  /** The status list a freshly initialised store holds. */
  function InitialLayout(): seq<int> {
    seq(SEAT_COUNT, i requires 0 <= i < SEAT_COUNT => if i !in PRE_BOOKED then FREE else BOOKED)
  }

  /** What seat initialisation leaves in the seat table: the initial layout when
      the table was empty, the table unchanged otherwise. */
  function InitializedRows(rows: seq<int>): seq<int> {
    if |rows| == 0 then InitialLayout() else rows
  }

  // ---------------------------------------------------------------------------
  // Free ids and the free count

  /** FreeIdsIn lists exactly the free ids of the range, each once, in ascending order. */
  lemma {:induction false} FreeIdsInSpec(s: seq<int>, lo: nat, hi: nat)
    requires lo <= hi <= |s|
    ensures forall x: nat :: x in FreeIdsIn(s, lo, hi) <==> lo <= x < hi && s[x] == FREE
    ensures forall i :: 0 <= i < |FreeIdsIn(s, lo, hi)| ==> lo <= FreeIdsIn(s, lo, hi)[i] < hi
    ensures StrictlyAscending(FreeIdsIn(s, lo, hi))
    decreases hi - lo
  {
    if lo < hi {
      FreeIdsInSpec(s, lo + 1, hi);
    }
  }

  lemma {:induction false} FreeIdsInSplit(s: seq<int>, a: nat, b: nat, c: nat)
    requires a <= b <= c <= |s|
    ensures FreeIdsIn(s, a, c) == FreeIdsIn(s, a, b) + FreeIdsIn(s, b, c)
    decreases b - a
  {
    if a < b {
      FreeIdsInSplit(s, a + 1, b, c);
    }
  }

  lemma {:induction false} FreeIdsInCount(s: seq<int>, lo: nat, hi: nat)
    requires lo <= hi <= |s|
    ensures |FreeIdsIn(s, lo, hi)| == CountFree(s[lo..hi])
    decreases hi - lo
  {
    if lo < hi {
      FreeIdsInCount(s, lo + 1, hi);
      assert s[lo..hi] == [s[lo]] + s[lo + 1..hi];
    }
  }

  /** The ascending list of free ids has exactly as many entries as the free count. */
  lemma FreeIdsCount(s: seq<int>)
    requires |s| == SEAT_COUNT
    ensures |FreeIds(s)| == CountFree(s)
  {
    FreeIdsInCount(s, 0, SEAT_COUNT);
    assert s[0..SEAT_COUNT] == s;
  }

  /** A row never has more free seats than the whole coach. */
  lemma RowFreeWithinTotal(s: seq<int>, r: nat)
    requires |s| == SEAT_COUNT && r < ROW_COUNT
    ensures |RowFree(s, r)| <= |FreeIds(s)|
  {
    FreeIdsInSplit(s, 0, RowStart(r), SEAT_COUNT);
    FreeIdsInSplit(s, RowStart(r), RowEnd(r), SEAT_COUNT);
  }

  // ---------------------------------------------------------------------------
  // The selection rule

  /** FirstFit finds the lowest qualifying row at or after r, and finds none only when no such row exists. */
  lemma {:induction false} FirstFitSpec(s: seq<int>, k: int, r: nat)
    requires |s| == SEAT_COUNT && r <= ROW_COUNT
    ensures FirstFit(s, k, r).Some? ==>
      r <= FirstFit(s, k, r).value < ROW_COUNT && |RowFree(s, FirstFit(s, k, r).value)| >= k &&
      forall q :: r <= q < FirstFit(s, k, r).value ==> |RowFree(s, q)| < k
    ensures FirstFit(s, k, r).None? ==> forall q :: r <= q < ROW_COUNT ==> |RowFree(s, q)| < k
    decreases ROW_COUNT - r
  {
    if r < ROW_COUNT && |RowFree(s, r)| < k {
      FirstFitSpec(s, k, r + 1);
    }
  }

  /** A request is refused exactly when fewer than k seats are free. */
  lemma SelectRefusesIff(s: seq<int>, k: int)
    requires |s| == SEAT_COUNT
    ensures Select(s, k).None? <==> CountFree(s) < k
  {
    FreeIdsCount(s);
  }

  /** Row preference: the lowest row with at least k free seats supplies its first k free ids. */
  lemma SelectRowPreference(s: seq<int>, k: int, r: nat)
    requires |s| == SEAT_COUNT && r < ROW_COUNT
    requires |RowFree(s, r)| >= k
    requires forall q :: 0 <= q < r ==> |RowFree(s, q)| < k
    ensures Select(s, k) == Some(Take(RowFree(s, r), k))
  {
    RowFreeWithinTotal(s, r);
    FirstFitSpec(s, k, 0);
    var f := FirstFit(s, k, 0);
    assert f.Some? && f.value == r;
  }

  /** Fallback: when no row has k free seats but the coach has, the first k free ids are taken. */
  lemma SelectFallback(s: seq<int>, k: int)
    requires |s| == SEAT_COUNT
    requires forall q :: 0 <= q < ROW_COUNT ==> |RowFree(s, q)| < k
    requires |FreeIds(s)| >= k
    ensures Select(s, k) == Some(Take(FreeIds(s), k))
  {
    FirstFitSpec(s, k, 0);
    assert FirstFit(s, k, 0).None?;
  }

  /** A request for no seats, or a negative number, is not refused: row 0 always
      qualifies and the Python slice of its free ids is taken, which is empty for 0
      and all but the last -k free ids of row 0 for a negative k. */
  lemma SelectNonPositive(s: seq<int>, k: int)
    requires |s| == SEAT_COUNT && k <= 0
    ensures Select(s, k) == Some(Take(RowFree(s, 0), k))
    ensures k == 0 ==> Select(s, k) == Some([])
  {
    SelectRowPreference(s, k, 0);
  }

  // ---------------------------------------------------------------------------
  // The selection as the booking call performs it

  /** One step of the row scan: when every earlier row is short of k free seats,
      row r either is the row the rule takes, or is short too. */
  lemma ScanStep(s: seq<int>, k: int, r: nat)
    requires |s| == SEAT_COUNT && r < ROW_COUNT
    requires forall q :: 0 <= q < r ==> |RowFree(s, q)| < k
    ensures |RowFree(s, r)| >= k ==> Select(s, k) == Some(Take(RowFree(s, r), k))
    ensures |RowFree(s, r)| < k ==> forall q :: 0 <= q <= r ==> |RowFree(s, q)| < k
  {
    if |RowFree(s, r)| >= k {
      SelectRowPreference(s, k, r);
    }
  }

  /** The row scan of a booking call over the statuses s: refuse when fewer than k
      seats are free, otherwise take the first k free seats of the first row holding
      k of them, or failing that the first k free seats of the carriage. */
  method ChooseSeats(s: seq<int>, k: int) returns (reserved: Option<seq<nat>>)
    requires |s| == SEAT_COUNT
    ensures reserved == Select(s, k)
  {
    var availableSeats := FreeIds(s);
    if |availableSeats| < k {
      return None;
    }
    var rowStart := 0;
    ghost var row := 0;
    while rowStart < SEAT_COUNT
      invariant row <= ROW_COUNT && rowStart == RowStart(row)
      invariant forall q :: 0 <= q < row ==> |RowFree(s, q)| < k
    {
      var rowSeats := FreeIdsIn(s, rowStart, Min(rowStart + ROW_WIDTH, SEAT_COUNT));
      assert rowSeats == RowFree(s, row);
      ScanStep(s, k, row);
      if |rowSeats| >= k {
        return Some(Take(rowSeats, k));
      }
      rowStart := rowStart + ROW_WIDTH;
      row := row + 1;
    }
    SelectFallback(s, k);
    reserved := Some(Take(availableSeats, k));
  }

  /** A selection takes seats in ascending order, all of them free, and for a
      non-negative request exactly as many as were asked for. */
  lemma SelectSound(s: seq<int>, k: int)
    requires |s| == SEAT_COUNT
    requires Select(s, k).Some?
    ensures k >= 0 ==> |Select(s, k).value| == k
    ensures StrictlyAscending(Select(s, k).value)
    ensures forall x :: x in Select(s, k).value ==> x < SEAT_COUNT && s[x] == FREE
  {
    FirstFitSpec(s, k, 0);
    match FirstFit(s, k, 0)
    case Some(r) =>
      PrefixOfFree(s, RowStart(r), RowEnd(r), TakeCount(|RowFree(s, r)|, k));
    case None =>
      PrefixOfFree(s, 0, SEAT_COUNT, TakeCount(|FreeIds(s)|, k));
  }

  /** The first k free ids of a range are ascending, and all free. */
  lemma PrefixOfFree(s: seq<int>, lo: nat, hi: nat, k: int)
    requires lo <= hi <= |s| && 0 <= k <= |FreeIdsIn(s, lo, hi)|
    ensures StrictlyAscending(FreeIdsIn(s, lo, hi)[..k])
    ensures forall x :: x in FreeIdsIn(s, lo, hi)[..k] ==> lo <= x < hi && s[x] == FREE
  {
    var ids := FreeIdsIn(s, lo, hi);
    FreeIdsInSpec(s, lo, hi);
    forall x | x in ids[..k]
      ensures lo <= x < hi && s[x] == FREE
    {
      var i :| 0 <= i < k && ids[..k][i] == x;
      assert ids[i] == x;
    }
  }

  // ---------------------------------------------------------------------------
  // Marking seats booked

  lemma MarkBookedSnoc(s: seq<int>, ids: seq<nat>, x: nat)
    requires x < |s|
    ensures MarkBooked(s, ids + [x]) == MarkBooked(s, ids)[x := BOOKED]
  {
  }

  lemma CountFreeBookOne(t: seq<int>, x: nat)
    requires x < |t| && t[x] == FREE
    ensures CountFree(t[x := BOOKED]) == CountFree(t) - 1
  {
    assert t == t[..x] + [t[x]] + t[x + 1..];
    assert t[x := BOOKED] == t[..x] + [BOOKED] + t[x + 1..];
  }

  /** Booking distinct free seats lowers the free count by the number of seats booked. */
  lemma {:induction false} MarkBookedCount(s: seq<int>, ids: seq<nat>)
    requires Distinct(ids)
    requires forall x :: x in ids ==> x < |s| && s[x] == FREE
    ensures CountFree(MarkBooked(s, ids)) == CountFree(s) - |ids|
  {
    if |ids| == 0 {
      assert MarkBooked(s, ids) == s;
    } else {
      var n := |ids| - 1;
      var init, x := ids[..n], ids[n];
      assert ids == init + [x];
      assert x in ids;
      assert forall y :: y in init ==> y in ids;
      MarkBookedCount(s, init);
      MarkBookedSnoc(s, init, x);
      assert x !in init by {
        forall j | 0 <= j < n
          ensures init[j] != x
        {
          assert ids[j] != ids[n];
        }
      }
      assert MarkBooked(s, init)[x] == FREE;
      CountFreeBookOne(MarkBooked(s, init), x);
    }
  }

  /** What a successful selection does once booked: its seats are ascending, each
      free before and booked after, every other seat is as it was, and the free
      count drops by the number taken, which is k for a non-negative request. */
  lemma SelectThenBook(s: seq<int>, k: int)
    requires |s| == SEAT_COUNT
    requires Select(s, k).Some?
    ensures var ids := Select(s, k).value;
      (k >= 0 ==> |ids| == k) && StrictlyAscending(ids) &&
      (forall x :: x in ids ==> x < SEAT_COUNT && s[x] == FREE && MarkBooked(s, ids)[x] == BOOKED) &&
      (forall i :: 0 <= i < SEAT_COUNT && i !in ids ==> MarkBooked(s, ids)[i] == s[i]) &&
      CountFree(MarkBooked(s, ids)) == CountFree(s) - |ids|
  {
    SelectSound(s, k);
    MarkBookedCount(s, Select(s, k).value);
  }

  // ---------------------------------------------------------------------------
  // The initial layout

  /** A freshly initialised coach has exactly the nine designated seats booked, and 71 free. */
  lemma InitialLayoutFacts()
    ensures |InitialLayout()| == SEAT_COUNT
    ensures forall i :: 0 <= i < SEAT_COUNT ==> (InitialLayout()[i] == BOOKED <==> i in PRE_BOOKED)
    ensures forall i :: 0 <= i < SEAT_COUNT ==> (InitialLayout()[i] == FREE <==> i !in PRE_BOOKED)
    ensures CountFree(InitialLayout()) == 71
  {
    var empty := seq(SEAT_COUNT, i => FREE);
    AllFreeCount(SEAT_COUNT);
    assert Distinct(PRE_BOOKED);
    MarkBookedCount(empty, PRE_BOOKED);
    assert MarkBooked(empty, PRE_BOOKED) == InitialLayout();
  }

  lemma {:induction false} AllFreeCount(n: nat)
    ensures CountFree(seq(n, i => FREE)) == n
  {
    if n > 0 {
      AllFreeCount(n - 1);
      assert seq(n, i => FREE) == seq(n - 1, i => FREE) + [FREE];
    }
  }

  /** Initialising seats twice leaves what initialising once does. */
  lemma InitializedRowsIdempotent(rows: seq<int>)
    ensures InitializedRows(InitializedRows(rows)) == InitializedRows(rows)
    ensures |rows| == 0 ==> InitializedRows(rows) == InitialLayout()
    ensures |rows| != 0 ==> InitializedRows(rows) == rows
  {
  }

  // ---------------------------------------------------------------------------
  // Worked examples from the initial layout

  /** Booked seats at the start of a range contribute nothing to its free ids. */
  lemma {:induction false} FreeIdsInSkipBooked(s: seq<int>, lo: nat, mid: nat, hi: nat)
    requires lo <= mid <= hi <= |s|
    requires forall i :: lo <= i < mid ==> s[i] != FREE
    ensures FreeIdsIn(s, lo, hi) == FreeIdsIn(s, mid, hi)
    decreases mid - lo
  {
    if lo < mid {
      FreeIdsInSkipBooked(s, lo + 1, mid, hi);
    }
  }

  /** A range of free seats yields every id of the range. */
  lemma {:induction false} FreeIdsInAllFree(s: seq<int>, lo: nat, hi: nat)
    requires lo <= hi <= |s|
    requires forall i :: lo <= i < hi ==> s[i] == FREE
    ensures FreeIdsIn(s, lo, hi) == seq(hi - lo, i requires 0 <= i < hi - lo => lo + i)
    decreases hi - lo
  {
    if lo < hi {
      FreeIdsInAllFree(s, lo + 1, hi);
      var rest := seq(hi - (lo + 1), i requires 0 <= i < hi - (lo + 1) => lo + 1 + i);
      assert seq(hi - lo, i requires 0 <= i < hi - lo => lo + i) == [lo] + rest;
    }
  }

  /** On the initial layout a request for 4 takes seats 3..6, the free part of row 0. */
  lemma BookFourFromInitial(s: seq<int>)
    requires s == InitialLayout()
    ensures Select(s, 4) == Some([3, 4, 5, 6])
  {
    InitialRowsZeroOne(s);
    RowZeroTakesFour(s);
  }

  /** On the initial layout a request for -1 seats books seats 3, 4 and 5. */
  lemma NegativeRequestFromInitial(s: seq<int>)
    requires s == InitialLayout()
    ensures Select(s, -1) == Some([3, 4, 5])
  {
    InitialRowsZeroOne(s);
    RowZeroFree(s);
    SelectNonPositive(s, -1);
    assert Take(RowFree(s, 0), -1) == [3, 4, 5];
  }

  /** On the initial layout seats 0..2 are booked and seats 3..13 are free. */
  lemma InitialRowsZeroOne(s: seq<int>)
    requires s == InitialLayout()
    ensures |s| == SEAT_COUNT
    ensures forall i :: 0 <= i < 3 ==> s[i] != FREE
    ensures forall i :: 3 <= i < 14 ==> s[i] == FREE
  {
  }

  /** With seats 0..2 booked and 3..6 free, the free ids of row 0 are 3, 4, 5 and 6. */
  lemma RowZeroFree(s: seq<int>)
    requires |s| == SEAT_COUNT
    requires forall i :: 0 <= i < 3 ==> s[i] != FREE
    requires forall i :: 3 <= i < 7 ==> s[i] == FREE
    ensures RowFree(s, 0) == [3, 4, 5, 6]
  {
    FreeIdsInSkipBooked(s, 0, 3, 7);
    FreeIdsInAllFree(s, 3, 7);
  }

  /** With row 0 as on the initial layout, a request for 4 takes its free seats 3..6. */
  lemma RowZeroTakesFour(s: seq<int>)
    requires |s| == SEAT_COUNT
    requires forall i :: 0 <= i < 3 ==> s[i] != FREE
    requires forall i :: 3 <= i < 7 ==> s[i] == FREE
    ensures Select(s, 4) == Some([3, 4, 5, 6])
  {
    RowZeroFree(s);
    assert Take(RowFree(s, 0), 4) == [3, 4, 5, 6];
    SelectRowPreference(s, 4, 0);
  }

  /** After that booking, a request for 7 takes all of row 1, seats 7..13. */
  lemma BookSevenAfterFour(s: seq<int>)
    requires s == MarkBooked(InitialLayout(), [3, 4, 5, 6])
    ensures Select(s, 7) == Some([7, 8, 9, 10, 11, 12, 13])
  {
    InitialRowsZeroOne(InitialLayout());
    assert forall i :: 0 <= i < 7 ==> s[i] != FREE;
    assert forall i :: 7 <= i < 14 ==> s[i] == FREE;
    RowOneTakesSeven(s);
  }

  /** The ids of the range [7, 14), listed: seats 7 to 13. */
  lemma RangeSevenToThirteen()
    ensures seq(14 - 7, i requires 0 <= i < 14 - 7 => 7 + i) == [7, 8, 9, 10, 11, 12, 13]
  {
  }

  /** With seats 0..6 booked and 7..13 free, row 0 has no free seat and row 1 is entirely free. */
  lemma RowsZeroOneAfterFour(s: seq<int>)
    requires |s| == SEAT_COUNT
    requires forall i :: 0 <= i < 7 ==> s[i] != FREE
    requires forall i :: 7 <= i < 14 ==> s[i] == FREE
    ensures RowFree(s, 0) == []
    ensures RowFree(s, 1) == [7, 8, 9, 10, 11, 12, 13]
  {
    FreeIdsInSkipBooked(s, 0, 7, 7);
    FreeIdsInAllFree(s, 7, 14);
    RangeSevenToThirteen();
  }

  /** With row 0 full and row 1 free, a request for 7 takes the whole of row 1. */
  lemma RowOneTakesSeven(s: seq<int>)
    requires |s| == SEAT_COUNT
    requires forall i :: 0 <= i < 7 ==> s[i] != FREE
    requires forall i :: 7 <= i < 14 ==> s[i] == FREE
    ensures Select(s, 7) == Some([7, 8, 9, 10, 11, 12, 13])
  {
    RowsZeroOneAfterFour(s);
    assert Take(RowFree(s, 1), 7) == RowFree(s, 1);
    SelectRowPreference(s, 7, 1);
  }
}
