/** The reservation queue of one (isbn, library) pair: creating a hold or a
    waitlist entry, promoting the oldest waitlisted entries into free slots,
    cancelling, and the daily sweep of expired holds. */
module Reservations {
  import opened Tables

  /** A hold lasts this many days once it is RESERVED. */
  const ExpirationDays: nat := 7

  /** getExpirationDate: the day that lies `days` whole days after today
      (the source then moves the time to 23:59:59.999 of that day). */
  function ExpirationDate(today: Day, days: nat): (d: Day)
    ensures today <= d
  {
    today + days
  }

  /** A hold given today is valid on every day up to and including
      today + 7 and has expired from the day after: the end-of-day expiry
      read in whole days. */
  lemma HoldLastsExpirationDays(r: Reservation, today: Day, now: Day)
    requires r.status == Reserved && r.expiresAt == Some(ExpirationDate(today, ExpirationDays))
    ensures Expired(r, now) <==> now > today + ExpirationDays
  {
  }

  predicate WaitingIn(r: Reservation, isbn: Isbn, library: LibraryId) {
    InPair(r, isbn, library) && r.status == Waitlisted
  }

  function Promoted(r: Reservation, expiry: Day): Reservation {
    r.(status := Reserved, expiresAt := Some(expiry))
  }

  function Min(a: int, b: int): int {
    if a <= b then a else b
  }

  // ------------------------------------------------- promotion, reference form

  /** Turns the first n WAITLISTED rows of the pair, in table order (which the
      well-formedness invariant makes reserved_at order), into RESERVED holds
      expiring on `expiry`. */
  function Promote(rs: seq<Reservation>, isbn: Isbn, library: LibraryId, n: int, expiry: Day): (p: seq<Reservation>)
    ensures |p| == |rs|
    decreases |rs|
  {
    if rs == [] || n <= 0 then rs
    else if WaitingIn(rs[0], isbn, library) then
      [Promoted(rs[0], expiry)] + Promote(rs[1..], isbn, library, n - 1, expiry)
    else [rs[0]] + Promote(rs[1..], isbn, library, n, expiry)
  }

  // ------------------------------------------------- promotion, as the SQL does it

  /** SELECT reservation_id ... WHERE the pair AND status = 'WAITLISTED'
      ORDER BY reserved_at ASC LIMIT limit. */
  function OldestWaitlisted(rs: seq<Reservation>, isbn: Isbn, library: LibraryId, limit: nat): (ids: seq<ReservationId>)
    ensures |ids| <= limit
    ensures forall id :: id in ids ==> exists r :: r in rs && r.id == id && WaitingIn(r, isbn, library)
  {
    if rs == [] || limit == 0 then []
    else if WaitingIn(rs[0], isbn, library) then
      [rs[0].id] + OldestWaitlisted(rs[1..], isbn, library, limit - 1)
    else OldestWaitlisted(rs[1..], isbn, library, limit)
  }

  /** UPDATE RESERVATIONS SET status = 'RESERVED', expires_at = expiry
      WHERE reservation_id = ANY(ids). */
  function MarkReserved(rs: seq<Reservation>, ids: seq<ReservationId>, expiry: Day): (r: seq<Reservation>)
    ensures |r| == |rs|
  {
    if rs == [] then []
    else [if rs[0].id in ids then Promoted(rs[0], expiry) else rs[0]] + MarkReserved(rs[1..], ids, expiry)
  }

  /** The UPDATE promotes exactly the rows whose id is listed, keeping their
      place, and leaves every other row as it was. */
  lemma {:induction false} MarkReservedPromotesListed(rs: seq<Reservation>, ids: seq<ReservationId>, expiry: Day)
    ensures var r := MarkReserved(rs, ids, expiry);
      forall k :: 0 <= k < |rs| ==> r[k] == if rs[k].id in ids then Promoted(rs[k], expiry) else rs[k]
  {
    if rs != [] {
      MarkReservedPromotesListed(rs[1..], ids, expiry);
      assert forall k :: 1 <= k < |rs| ==> rs[k] == rs[1..][k - 1];
    }
  }

  lemma {:induction false} MarkReservedNone(rs: seq<Reservation>, expiry: Day)
    ensures MarkReserved(rs, [], expiry) == rs
  {
    if rs != [] {
      MarkReservedNone(rs[1..], expiry);
    }
  }

  lemma {:induction false} MarkReservedSkips(rs: seq<Reservation>, x: ReservationId, ids: seq<ReservationId>, expiry: Day)
    requires forall r :: r in rs ==> r.id != x
    ensures MarkReserved(rs, [x] + ids, expiry) == MarkReserved(rs, ids, expiry)
  {
    if rs != [] {
      assert rs[0] in rs;
      assert forall r :: r in rs[1..] ==> r in rs;
      MarkReservedSkips(rs[1..], x, ids, expiry);
    }
  }

  lemma TailIdsIncreasing(rs: seq<Reservation>)
    requires rs != [] && IdsIncreasing(rs)
    ensures IdsIncreasing(rs[1..])
    ensures forall r :: r in rs[1..] ==> rs[0].id < r.id
  {
    forall r | r in rs[1..] ensures rs[0].id < r.id {
      var k :| 0 <= k < |rs[1..]| && rs[1..][k] == r;
      assert rs[k + 1] == r;
    }
  }

  /** Selecting the oldest waitlisted ids and updating those rows is the
      reference promotion. */
  lemma {:induction false} SelectThenUpdateIsPromote(rs: seq<Reservation>, isbn: Isbn, library: LibraryId, n: nat, expiry: Day)
    requires IdsIncreasing(rs)
    ensures MarkReserved(rs, OldestWaitlisted(rs, isbn, library, n), expiry) == Promote(rs, isbn, library, n, expiry)
  {
    if rs == [] {
    } else if n == 0 {
      MarkReservedNone(rs, expiry);
    } else {
      var tail := rs[1..];
      TailIdsIncreasing(rs);
      if WaitingIn(rs[0], isbn, library) {
        var rest := OldestWaitlisted(tail, isbn, library, n - 1);
        SelectThenUpdateIsPromote(tail, isbn, library, n - 1, expiry);
        MarkReservedSkips(tail, rs[0].id, rest, expiry);
        assert OldestWaitlisted(rs, isbn, library, n) == [rs[0].id] + rest;
        assert MarkReserved(rs, [rs[0].id] + rest, expiry)
            == [Promoted(rs[0], expiry)] + MarkReserved(tail, [rs[0].id] + rest, expiry);
        assert Promote(rs, isbn, library, n, expiry)
            == [Promoted(rs[0], expiry)] + Promote(tail, isbn, library, n - 1, expiry);
      } else {
        var ids := OldestWaitlisted(tail, isbn, library, n);
        assert rs[0].id !in ids;
        SelectThenUpdateIsPromote(tail, isbn, library, n, expiry);
        assert MarkReserved(rs, ids, expiry) == [rs[0]] + MarkReserved(tail, ids, expiry);
        assert Promote(rs, isbn, library, n, expiry) == [rs[0]] + Promote(tail, isbn, library, n, expiry);
      }
    }
  }

  // ------------------------------------------------- properties of promotion

  /** Promotion changes only status and expiry, and only of WAITLISTED rows of
      the pair, which become RESERVED until `expiry`. */
  lemma {:induction false} PromoteShape(rs: seq<Reservation>, isbn: Isbn, library: LibraryId, n: int, expiry: Day)
    ensures SameRows(rs, Promote(rs, isbn, library, n, expiry))
    ensures forall k :: 0 <= k < |rs| ==>
      Promote(rs, isbn, library, n, expiry)[k] == rs[k]
      || (WaitingIn(rs[k], isbn, library) && Promote(rs, isbn, library, n, expiry)[k] == Promoted(rs[k], expiry))
  {
    if rs != [] && n > 0 {
      var m := if WaitingIn(rs[0], isbn, library) then n - 1 else n;
      PromoteShape(rs[1..], isbn, library, m, expiry);
      var p := Promote(rs, isbn, library, n, expiry);
      assert forall k :: 1 <= k < |rs| ==> p[k] == Promote(rs[1..], isbn, library, m, expiry)[k - 1] && rs[k] == rs[1..][k - 1];
    }
  }

  /** Promoting up to n entries moves exactly min(n, #waitlisted) rows of the
      pair from WAITLISTED to RESERVED; every other pair keeps its counts. */
  lemma {:induction false} PromoteCounts(rs: seq<Reservation>, isbn: Isbn, library: LibraryId, n: nat, expiry: Day,
                                          qIsbn: Isbn, qLibrary: LibraryId)
    ensures var p := Promote(rs, isbn, library, n, expiry);
      var moved := if qIsbn == isbn && qLibrary == library
                   then Min(n, CountStatus(rs, isbn, library, Waitlisted)) else 0;
      && CountStatus(p, qIsbn, qLibrary, Reserved) == CountStatus(rs, qIsbn, qLibrary, Reserved) + moved
      && CountStatus(p, qIsbn, qLibrary, Waitlisted) == CountStatus(rs, qIsbn, qLibrary, Waitlisted) - moved
      && CountPair(p, qIsbn, qLibrary) == CountPair(rs, qIsbn, qLibrary)
  {
    if rs != [] && n > 0 {
      var m := if WaitingIn(rs[0], isbn, library) then n - 1 else n;
      PromoteCounts(rs[1..], isbn, library, m, expiry, qIsbn, qLibrary);
      var p := Promote(rs, isbn, library, n, expiry);
      assert p[1..] == Promote(rs[1..], isbn, library, m, expiry);
    }
  }

  /** With nothing waitlisted in the pair, promotion is the identity. */
  lemma {:induction false} PromoteNothingWaiting(rs: seq<Reservation>, isbn: Isbn, library: LibraryId, n: int, expiry: Day)
    requires CountStatus(rs, isbn, library, Waitlisted) == 0
    ensures Promote(rs, isbn, library, n, expiry) == rs
  {
    if rs != [] && n > 0 {
      PromoteNothingWaiting(rs[1..], isbn, library, n, expiry);
    }
  }

  /** In p (rs after some promotions), every promoted row precedes every row
      of the pair that is still waitlisted. */
  ghost predicate PromotedFirst(rs: seq<Reservation>, p: seq<Reservation>, isbn: Isbn, library: LibraryId) {
    && |p| == |rs|
    && forall j, k ::
         (0 <= j < |rs| && 0 <= k < |rs| && rs[j].status == Waitlisted && p[j].status == Reserved
          && WaitingIn(p[k], isbn, library)) ==> j < k
  }

  lemma {:induction false} PromoteInOrder(rs: seq<Reservation>, isbn: Isbn, library: LibraryId, n: int, expiry: Day)
    ensures PromotedFirst(rs, Promote(rs, isbn, library, n, expiry), isbn, library)
  {
    if rs != [] && n > 0 {
      var m := if WaitingIn(rs[0], isbn, library) then n - 1 else n;
      var p := Promote(rs, isbn, library, n, expiry);
      var tail := Promote(rs[1..], isbn, library, m, expiry);
      PromoteInOrder(rs[1..], isbn, library, m, expiry);
      PromoteShape(rs[1..], isbn, library, m, expiry);
      assert |tail| == |rs| - 1;
      var head := if WaitingIn(rs[0], isbn, library) then Promoted(rs[0], expiry) else rs[0];
      assert p == [head] + tail;
      assert !WaitingIn(head, isbn, library);
      forall j, k | 0 <= j < |rs| && 0 <= k < |rs| && rs[j].status == Waitlisted && p[j].status == Reserved
        && WaitingIn(p[k], isbn, library)
        ensures j < k
      {
        if k > 0 && j > 0 {
          assert p[j] == tail[j - 1] && p[k] == tail[k - 1] && rs[j] == rs[1..][j - 1];
        }
      }
    }
  }

  // ------------------------------------------------- updateQueue

  /** Free slots of the pair: AVAILABLE copies minus RESERVED holds. */
  function Slots(books: seq<Book>, rs: seq<Reservation>, isbn: Isbn, library: LibraryId): int {
    CountAvailable(books, isbn, library) - CountStatus(rs, isbn, library, Reserved)
  }

  /** The RESERVATIONS table after updateQueue(isbn, library) runs today. */
  function QueueAfter(books: seq<Book>, rs: seq<Reservation>, isbn: Isbn, library: LibraryId, today: Day): (q: seq<Reservation>)
    ensures |q| == |rs|
    ensures forall k :: 0 <= k < |rs| ==>
      q[k] == rs[k]
      || (WaitingIn(rs[k], isbn, library) && q[k] == Promoted(rs[k], today + ExpirationDays))
  {
    var slots := Slots(books, rs, isbn, library);
    if slots <= 0 then rs
    else
      PromoteShape(rs, isbn, library, slots, ExpirationDate(today, ExpirationDays));
      Promote(rs, isbn, library, slots, ExpirationDate(today, ExpirationDays))
  }

  /** With no free slot the queue is left alone; otherwise exactly
      min(slots, #waitlisted) entries are promoted, so the pair never ends up
      with more holds than available copies. */
  lemma QueueFillsFreeSlots(books: seq<Book>, rs: seq<Reservation>, isbn: Isbn, library: LibraryId, today: Day)
    ensures var q := QueueAfter(books, rs, isbn, library, today);
      var slots := Slots(books, rs, isbn, library);
      && (slots <= 0 ==> q == rs)
      && (slots > 0 ==>
            && CountStatus(q, isbn, library, Reserved)
               == CountStatus(rs, isbn, library, Reserved) + Min(slots, CountStatus(rs, isbn, library, Waitlisted))
            && CountStatus(q, isbn, library, Reserved) <= CountAvailable(books, isbn, library))
  {
    var slots := Slots(books, rs, isbn, library);
    if slots > 0 {
      PromoteCounts(rs, isbn, library, slots, ExpirationDate(today, ExpirationDays), isbn, library);
    }
  }

  /** updateQueue changes only the status (to RESERVED) and the expiry (to
      today + 7) of WAITLISTED rows of the pair. */
  lemma QueueOnlyPromotes(books: seq<Book>, rs: seq<Reservation>, isbn: Isbn, library: LibraryId, today: Day)
    ensures var q := QueueAfter(books, rs, isbn, library, today);
      && SameRows(rs, q)
      && forall k :: 0 <= k < |rs| ==>
           q[k] == rs[k]
           || (WaitingIn(rs[k], isbn, library) && q[k].status == Reserved
               && q[k].expiresAt == Some(today + ExpirationDays))
  {
    var slots := Slots(books, rs, isbn, library);
    if slots > 0 {
      PromoteShape(rs, isbn, library, slots, ExpirationDate(today, ExpirationDays));
    }
  }

  /** FIFO: every reservation updateQueue promotes was created before every
      reservation of the pair that it leaves on the waitlist. */
  lemma QueueIsFifo(books: seq<Book>, rs: seq<Reservation>, isbn: Isbn, library: LibraryId, today: Day, next: nat)
    requires ReservationsWellFormed(rs, next)
    ensures var q := QueueAfter(books, rs, isbn, library, today);
      forall j, k ::
        (0 <= j < |rs| && 0 <= k < |rs| && rs[j].status == Waitlisted && q[j].status == Reserved
         && WaitingIn(q[k], isbn, library)) ==> rs[j].reservedAt < q[k].reservedAt
  {
    var slots := Slots(books, rs, isbn, library);
    var q := QueueAfter(books, rs, isbn, library, today);
    if slots > 0 {
      PromoteInOrder(rs, isbn, library, slots, ExpirationDate(today, ExpirationDays));
      PromoteShape(rs, isbn, library, slots, ExpirationDate(today, ExpirationDays));
    }
    assert SameRows(rs, q) by { QueueOnlyPromotes(books, rs, isbn, library, today); }
  }

  /** updateQueue keeps the slot invariant for every pair. */
  lemma QueueKeepsSlotBound(books: seq<Book>, rs: seq<Reservation>, isbn: Isbn, library: LibraryId, today: Day)
    requires SlotBound(books, rs)
    ensures SlotBound(books, QueueAfter(books, rs, isbn, library, today))
  {
    var slots := Slots(books, rs, isbn, library);
    if slots > 0 {
      var q := QueueAfter(books, rs, isbn, library, today);
      forall i: Isbn, l: LibraryId
        ensures CountStatus(q, i, l, Reserved) <= CountAvailable(books, i, l)
      {
        PromoteCounts(rs, isbn, library, slots, ExpirationDate(today, ExpirationDays), i, l);
      }
    }
  }

  /** Running updateQueue a second time the same day changes nothing. */
  lemma QueueIdempotent(books: seq<Book>, rs: seq<Reservation>, isbn: Isbn, library: LibraryId, today: Day)
    ensures var q := QueueAfter(books, rs, isbn, library, today);
      QueueAfter(books, q, isbn, library, today) == q
  {
    var slots := Slots(books, rs, isbn, library);
    if slots > 0 {
      var expiry := ExpirationDate(today, ExpirationDays);
      var q := Promote(rs, isbn, library, slots, expiry);
      PromoteCounts(rs, isbn, library, slots, expiry, isbn, library);
      if Slots(books, q, isbn, library) > 0 {
        PromoteNothingWaiting(q, isbn, library, Slots(books, q, isbn, library), expiry);
      }
    }
  }

  /** updateQueue never adds or removes reservations. */
  lemma QueueKeepsReservationCount(books: seq<Book>, rs: seq<Reservation>, isbn: Isbn, library: LibraryId, today: Day,
                                   qIsbn: Isbn, qLibrary: LibraryId)
    ensures CountPair(QueueAfter(books, rs, isbn, library, today), qIsbn, qLibrary) == CountPair(rs, qIsbn, qLibrary)
  {
    var slots := Slots(books, rs, isbn, library);
    if slots > 0 {
      PromoteCounts(rs, isbn, library, slots, ExpirationDate(today, ExpirationDays), qIsbn, qLibrary);
    }
  }

  lemma QueueWellFormed(books: seq<Book>, rs: seq<Reservation>, isbn: Isbn, library: LibraryId, today: Day, next: nat)
    requires ReservationsWellFormed(rs, next)
    ensures ReservationsWellFormed(QueueAfter(books, rs, isbn, library, today), next)
  {
    QueueOnlyPromotes(books, rs, isbn, library, today);
    SameRowsWellFormed(rs, QueueAfter(books, rs, isbn, library, today), next);
  }

  /** updateQueue(sql, isbn_id, library_id), run inside the caller's transaction. */
  method UpdateQueue(db: Database, isbn: Isbn, library: LibraryId, today: Day)
    requires db.Valid()
    modifies db`reservations
    ensures db.Valid()
    ensures db.reservations == QueueAfter(db.books, old(db.reservations), isbn, library, today)
  {
    var availableBooks: int := CountAvailable(db.books, isbn, library);
    var activeReservations: int := CountStatus(db.reservations, isbn, library, Reserved);
    var availableSlots := availableBooks - activeReservations;
    if availableSlots <= 0 {
      return;
    }
    var waitlisted := OldestWaitlisted(db.reservations, isbn, library, availableSlots);
    var expiresAt := ExpirationDate(today, ExpirationDays);
    SelectThenUpdateIsPromote(db.reservations, isbn, library, availableSlots, expiresAt);
    if |waitlisted| == 0 {
      MarkReservedNone(db.reservations, expiresAt);
      return;
    }
    QueueWellFormed(db.books, db.reservations, isbn, library, today, db.nextReservation);
    db.reservations := MarkReserved(db.reservations, waitlisted, expiresAt);
  }

  // ------------------------------------------------- createReservation

  /** The row createReservation inserts: RESERVED until today + 7 when the
      pair has more AVAILABLE copies than RESERVED holds, WAITLISTED with no
      expiry otherwise. */
  function NewReservation(books: seq<Book>, rs: seq<Reservation>, isbn: Isbn, library: LibraryId, uid: Uid,
                          id: ReservationId, today: Day): (r: Reservation)
    ensures r.id == id && r.reservedAt == id && r.uid == uid && InPair(r, isbn, library)
    ensures r.status == Reserved <==> CountAvailable(books, isbn, library) > CountStatus(rs, isbn, library, Reserved)
    ensures r.status == Reserved ==> r.expiresAt == Some(today + ExpirationDays)
    ensures r.status == Waitlisted ==> r.expiresAt == None
  {
    if CountAvailable(books, isbn, library) > CountStatus(rs, isbn, library, Reserved) then
      Reservation(id, isbn, library, uid, Reserved, Some(ExpirationDate(today, ExpirationDays)), id)
    else
      Reservation(id, isbn, library, uid, Waitlisted, None, id)
  }

  /** Inserting the new row keeps the slot invariant: it is RESERVED only
      when a slot is free. */
  lemma NewReservationKeepsSlotBound(books: seq<Book>, rs: seq<Reservation>, isbn: Isbn, library: LibraryId,
                                     uid: Uid, id: ReservationId, today: Day)
    requires SlotBound(books, rs)
    ensures SlotBound(books, rs + [NewReservation(books, rs, isbn, library, uid, id, today)])
  {
    var r := NewReservation(books, rs, isbn, library, uid, id, today);
    forall i: Isbn, l: LibraryId
      ensures CountStatus(rs + [r], i, l, Reserved) <= CountAvailable(books, i, l)
    {
      CountConcat(rs, [r], i, l);
      assert [r][1..] == [];
      assert CountStatus([r], i, l, Reserved) == if InPair(r, i, l) && r.status == Reserved then 1 else 0;
      if InPair(r, i, l) && r.status == Reserved {
        assert i == isbn && l == library;
        assert CountAvailable(books, i, l) > CountStatus(rs, i, l, Reserved);
      }
    }
  }

  lemma NewReservationWellFormed(books: seq<Book>, rs: seq<Reservation>, isbn: Isbn, library: LibraryId,
                                 uid: Uid, next: nat, today: Day)
    requires ReservationsWellFormed(rs, next)
    requires FindHolding(rs, uid, isbn, library).None?
    ensures ReservationsWellFormed(rs + [NewReservation(books, rs, isbn, library, uid, next, today)], next + 1)
  {
  }

  datatype CreateStatus = Exists | Created(status: ReservationStatus)

  /** The transaction body of createReservation. */
  method CreateReservation(db: Database, isbn: Isbn, library: LibraryId, uid: Uid, today: Day)
    returns (result: CreateStatus)
    requires db.Valid()
    modifies db`reservations, db`nextReservation
    ensures db.Valid()
    ensures old(FindHolding(db.reservations, uid, isbn, library)).Some? ==>
      && result == Exists
      && db.reservations == old(db.reservations)
      && db.nextReservation == old(db.nextReservation)
    ensures old(FindHolding(db.reservations, uid, isbn, library)).None? ==>
      var r := NewReservation(db.books, old(db.reservations), isbn, library, uid, old(db.nextReservation), today);
      && result == Created(r.status)
      && db.reservations == old(db.reservations) + [r]
      && db.nextReservation == old(db.nextReservation) + 1
    ensures old(SlotBound(db.books, db.reservations)) ==> SlotBound(db.books, db.reservations)
  {
    var existingReservations := FindHolding(db.reservations, uid, isbn, library);
    if existingReservations.Some? {
      return Exists;
    }
    var availableCopies := CountAvailable(db.books, isbn, library);
    var activeReservations := CountStatus(db.reservations, isbn, library, Reserved);
    var status := Waitlisted;
    var expiresAt: Option<Day> := None;
    if availableCopies > activeReservations {
      status := Reserved;
      expiresAt := Some(ExpirationDate(today, ExpirationDays));
    }
    var row := Reservation(db.nextReservation, isbn, library, uid, status, expiresAt, db.nextReservation);
    assert row == NewReservation(db.books, db.reservations, isbn, library, uid, db.nextReservation, today);
    NewReservationWellFormed(db.books, db.reservations, isbn, library, uid, db.nextReservation, today);
    if SlotBound(db.books, db.reservations) {
      NewReservationKeepsSlotBound(db.books, db.reservations, isbn, library, uid, db.nextReservation, today);
    }
    db.reservations := db.reservations + [row];
    db.nextReservation := db.nextReservation + 1;
    result := Created(status);
  }

  // ------------------------------------------------- cancelReservation

  /** The table after cancelling reservation x: its row is deleted and, only
      if it was RESERVED, the queue of its pair is re-run. */
  function AfterCancel(books: seq<Book>, rs: seq<Reservation>, x: Reservation, today: Day): (r: seq<Reservation>)
    ensures forall y :: y in r ==> y.id != x.id
    ensures forall y :: y in rs && y.id != x.id && !WaitingIn(y, x.isbn, x.library) ==> y in r
  {
    var rest := Delete(rs, ById(x.id));
    if x.status == Reserved then
      var q := QueueAfter(books, rest, x.isbn, x.library, today);
      assert forall y :: y in q ==> y.id != x.id by {
        forall y | y in q ensures y.id != x.id {
          var k :| 0 <= k < |q| && q[k] == y;
          assert rest[k] in rest;
        }
      }
      assert forall y :: y in rest && !WaitingIn(y, x.isbn, x.library) ==> y in q by {
        forall y | y in rest && !WaitingIn(y, x.isbn, x.library) ensures y in q {
          var k :| 0 <= k < |rest| && rest[k] == y;
          assert q[k] == y;
        }
      }
      q
    else rest
  }

  /** Cancelling keeps the slot invariant. */
  lemma CancelKeepsSlotBound(books: seq<Book>, rs: seq<Reservation>, x: Reservation, today: Day)
    requires SlotBound(books, rs)
    ensures SlotBound(books, AfterCancel(books, rs, x, today))
  {
    DeleteKeepsSlotBound(books, rs, ById(x.id));
    if x.status == Reserved {
      QueueKeepsSlotBound(books, Delete(rs, ById(x.id)), x.isbn, x.library, today);
    }
  }

  /** Cancelling a WAITLISTED reservation removes exactly its row and
      promotes nobody. */
  lemma {:induction false} CancelWaitlistedRemovesOnlyIt(books: seq<Book>, rs: seq<Reservation>, k: nat, today: Day)
    requires IdsIncreasing(rs) && k < |rs| && rs[k].status == Waitlisted
    ensures AfterCancel(books, rs, rs[k], today) == rs[..k] + rs[k + 1..]
  {
    DeleteByIdRemovesRow(rs, k);
  }

  datatype CancelError = ReservationNotFound

  /** The transaction body of cancelReservation. */
  method CancelReservation(db: Database, id: ReservationId, today: Day) returns (r: Outcome<CancelError>)
    requires db.Valid()
    modifies db`reservations
    ensures db.Valid()
    ensures old(FindReservation(db.reservations, id)).None? ==>
      r == Fail(ReservationNotFound) && db.reservations == old(db.reservations)
    ensures old(FindReservation(db.reservations, id)).Some? ==>
      && r == Pass
      && db.reservations == AfterCancel(db.books, old(db.reservations), old(FindReservation(db.reservations, id)).value, today)
    ensures old(SlotBound(db.books, db.reservations)) ==> SlotBound(db.books, db.reservations)
  {
    var reservation := FindReservation(db.reservations, id);
    if reservation.None? {
      return Fail(ReservationNotFound);
    }
    var x := reservation.value;
    if SlotBound(db.books, db.reservations) {
      CancelKeepsSlotBound(db.books, db.reservations, x, today);
    }
    DeleteWellFormed(db.reservations, ById(id), db.nextReservation);
    db.reservations := Delete(db.reservations, ById(id));
    if x.status == Reserved {
      UpdateQueue(db, x.isbn, x.library, today);
    }
    r := Pass;
  }

  // ------------------------------------------------- cleanupExpiredReservations

  /** SELECT DISTINCT isbn_id, library_id of the RESERVED rows expired before now. */
  function ExpiredPairs(rs: seq<Reservation>, now: Day): (ps: seq<(Isbn, LibraryId)>)
    ensures forall i, j :: 0 <= i < j < |ps| ==> ps[i] != ps[j]
    ensures forall p :: p in ps <==> exists r :: r in rs && Expired(r, now) && (r.isbn, r.library) == p
  {
    if rs == [] then []
    else
      var rest := ExpiredPairs(rs[1..], now);
      assert forall r :: r in rs <==> r == rs[0] || r in rs[1..];
      if Expired(rs[0], now) && (rs[0].isbn, rs[0].library) !in rest then [(rs[0].isbn, rs[0].library)] + rest
      else rest
  }

  /** updateQueue run once for each pair in turn. */
  function QueueEach(books: seq<Book>, rs: seq<Reservation>, pairs: seq<(Isbn, LibraryId)>, today: Day)
    : (r: seq<Reservation>)
    ensures SameRows(rs, r)
    ensures forall k :: 0 <= k < |rs| ==> r[k] == rs[k] || (rs[k].status == Waitlisted && r[k].status == Reserved)
    decreases |pairs|
  {
    if pairs == [] then rs
    else
      var last := pairs[|pairs| - 1];
      QueueAfter(books, QueueEach(books, rs, pairs[..|pairs| - 1], today), last.0, last.1, today)
  }

  lemma {:induction false} QueueEachKeepsSlotBound(books: seq<Book>, rs: seq<Reservation>, pairs: seq<(Isbn, LibraryId)>, today: Day)
    requires SlotBound(books, rs)
    ensures SlotBound(books, QueueEach(books, rs, pairs, today))
  {
    if pairs != [] {
      var last := pairs[|pairs| - 1];
      QueueEachKeepsSlotBound(books, rs, pairs[..|pairs| - 1], today);
      QueueKeepsSlotBound(books, QueueEach(books, rs, pairs[..|pairs| - 1], today), last.0, last.1, today);
    }
  }

  ghost predicate NoneExpired(rs: seq<Reservation>, now: Day) {
    forall k :: 0 <= k < |rs| ==> !Expired(rs[k], now)
  }

  /** Re-running the queues never creates an expired hold: promoted holds
      expire a week after `now`. */
  lemma {:induction false} QueueEachNoneExpired(books: seq<Book>, rs: seq<Reservation>, pairs: seq<(Isbn, LibraryId)>, now: Day)
    requires NoneExpired(rs, now)
    ensures NoneExpired(QueueEach(books, rs, pairs, now), now)
  {
    if pairs != [] {
      var last := pairs[|pairs| - 1];
      var before := QueueEach(books, rs, pairs[..|pairs| - 1], now);
      QueueEachNoneExpired(books, rs, pairs[..|pairs| - 1], now);
      QueueOnlyPromotes(books, before, last.0, last.1, now);
      var q := QueueAfter(books, before, last.0, last.1, now);
      forall k | 0 <= k < |q| ensures !Expired(q[k], now) {
        if q[k] == before[k] {
          assert !Expired(before[k], now);
        } else {
          assert q[k].expiresAt == Some(now + ExpirationDays);
        }
      }
    }
  }

  /** With no expired pair there is no expired row. */
  lemma NoExpiredPairs(rs: seq<Reservation>, now: Day)
    requires ExpiredPairs(rs, now) == []
    ensures NoneExpired(rs, now)
  {
    forall k | 0 <= k < |rs| ensures !Expired(rs[k], now) {
      assert rs[k] in rs;
      assert (rs[k].isbn, rs[k].library) !in ExpiredPairs(rs, now);
    }
  }

  /** The purge followed by the re-runs leaves no expired row and keeps the
      slot invariant. */
  lemma PurgeThenQueue(books: seq<Book>, rs: seq<Reservation>, pairs: seq<(Isbn, LibraryId)>, now: Day)
    ensures NoneExpired(QueueEach(books, Delete(rs, ExpiredBefore(now)), pairs, now), now)
    ensures SlotBound(books, rs) ==> SlotBound(books, QueueEach(books, Delete(rs, ExpiredBefore(now)), pairs, now))
  {
    var purged := Delete(rs, ExpiredBefore(now));
    forall k | 0 <= k < |purged| ensures !Expired(purged[k], now) {
      assert purged[k] in purged;
    }
    QueueEachNoneExpired(books, purged, pairs, now);
    if SlotBound(books, rs) {
      DeleteKeepsSlotBound(books, rs, ExpiredBefore(now));
      QueueEachKeepsSlotBound(books, purged, pairs, now);
    }
  }

  /** The loop of cleanupExpiredReservations: updateQueue for each pair in turn. */
  method UpdateQueues(db: Database, pairs: seq<(Isbn, LibraryId)>, now: Day)
    requires db.Valid()
    modifies db`reservations
    ensures db.Valid()
    ensures db.reservations == QueueEach(db.books, old(db.reservations), pairs, now)
  {
    ghost var start := db.reservations;
    var i := 0;
    while i < |pairs|
      invariant 0 <= i <= |pairs|
      invariant db.Valid()
      invariant db.reservations == QueueEach(db.books, start, pairs[..i], now)
    {
      var pair := pairs[i];
      UpdateQueue(db, pair.0, pair.1, now);
      assert pairs[..i + 1][..i] == pairs[..i];
      i := i + 1;
    }
    assert pairs[..i] == pairs;
  }

  /** cleanupExpiredReservations: delete every RESERVED row whose expiry has
      passed, then re-run the queue of each pair that lost one. */
  method CleanupExpiredReservations(db: Database, now: Day)
    requires db.Valid()
    modifies db`reservations
    ensures db.Valid()
    ensures var pairs := ExpiredPairs(old(db.reservations), now);
      db.reservations == if pairs == [] then old(db.reservations)
                         else QueueEach(db.books, Delete(old(db.reservations), ExpiredBefore(now)), pairs, now)
    ensures NoneExpired(db.reservations, now)
    ensures old(SlotBound(db.books, db.reservations)) ==> SlotBound(db.books, db.reservations)
  {
    var expiredReservations := ExpiredPairs(db.reservations, now);
    if |expiredReservations| == 0 {
      NoExpiredPairs(db.reservations, now);
      return;
    }
    PurgeThenQueue(db.books, db.reservations, expiredReservations, now);
    DeleteWellFormed(db.reservations, ExpiredBefore(now), db.nextReservation);
    db.reservations := Delete(db.reservations, ExpiredBefore(now));
    UpdateQueues(db, expiredReservations, now);
  }
}
