/** Issuing copies at the counter and taking them back (server/controllers/issues.js). */
module Issues {
  import opened Tables
  import opened Reservations

  /** ISSUE_PERIOD: loan length in days. */
  const IssuePeriod: nat := 30

  datatype IssueError =
    | BookNotFound        // "Book not found"
    | BookAlreadyIssued   // "Book is already issued"
    | UserInWaitlist      // "User is in waitlist. Cannot issue book."
    | AllCopiesReserved   // "All copies of this book are reserved."
    | BookNotIssued       // "Book is not currently issued"

  // ------------------------------------------------------------ loan rows

  /** Number of open (not RETURNED) loans of a copy. */
  function CountOpen(loans: seq<Loan>, book: BookId): nat {
    if loans == [] then 0
    else (if loans[0].book == book && loans[0].status == OnLoan then 1 else 0) + CountOpen(loans[1..], book)
  }

  /** The loans table agrees with the copies: no copy has two open loans and
      an AVAILABLE copy has none. */
  ghost predicate LoansAgreeWithCopies(books: seq<Book>, loans: seq<Loan>) {
    && (forall b: BookId :: CountOpen(loans, b) <= 1)
    && (forall k :: 0 <= k < |books| && books[k].status == Available ==> CountOpen(loans, books[k].id) == 0)
  }

  lemma {:induction false} CountOpenAppend(loans: seq<Loan>, l: Loan, book: BookId)
    ensures CountOpen(loans + [l], book)
         == CountOpen(loans, book) + (if l.book == book && l.status == OnLoan then 1 else 0)
  {
    if loans == [] {
      assert [l][1..] == [];
    } else {
      assert (loans + [l])[1..] == loans[1..] + [l];
      CountOpenAppend(loans[1..], l, book);
    }
  }

  /** UPDATE ISSUES SET status = 'RETURNED' WHERE book_id = book. */
  function CloseLoans(loans: seq<Loan>, book: BookId): (r: seq<Loan>)
    ensures |r| == |loans|
    ensures forall k :: 0 <= k < |loans| ==>
      r[k] == if loans[k].book == book then loans[k].(status := Returned) else loans[k]
  {
    if loans == [] then []
    else [if loans[0].book == book then loans[0].(status := Returned) else loans[0]]
         + CloseLoans(loans[1..], book)
  }

  lemma CloseLoansWellFormed(loans: seq<Loan>, book: BookId, next: nat)
    requires LoansWellFormed(loans, next)
    ensures LoansWellFormed(CloseLoans(loans, book), next)
  {
  }

  /** Returning closes every open loan of the copy and no other. */
  lemma {:induction false} CloseLoansCounts(loans: seq<Loan>, book: BookId, other: BookId)
    ensures CountOpen(CloseLoans(loans, book), book) == 0
    ensures other != book ==> CountOpen(CloseLoans(loans, book), other) == CountOpen(loans, other)
  {
    if loans != [] {
      CloseLoansCounts(loans[1..], book, other);
      assert CloseLoans(loans, book)[1..] == CloseLoans(loans[1..], book);
    }
  }

  // ------------------------------------------------------------ createIssue

  /** RESERVATIONS after step "Case 1": the holder's RESERVED row is deleted
      and the pair's queue re-run; a borrower without a hold changes nothing. */
  function ClaimHold(books: seq<Book>, rs: seq<Reservation>, uid: Uid, isbn: Isbn, library: LibraryId,
                     today: Day): (r: seq<Reservation>)
    ensures var h := FindHolding(rs, uid, isbn, library);
      IdsIncreasing(rs) ==>
        CountPair(r, isbn, library)
        == CountPair(rs, isbn, library) - (if h.Some? && h.value.status == Reserved then 1 else 0)
  {
    var h := FindHolding(rs, uid, isbn, library);
    if h.Some? && h.value.status == Reserved then
      ConsumedHoldLeavesPair(books, rs, h.value, today);
      QueueAfter(books, Delete(rs, ById(h.value.id)), isbn, library, today)
    else rs
  }

  /** Deleting a hold and re-running its pair's queue leaves the pair with one
      reservation fewer: the queue only changes statuses. */
  lemma ConsumedHoldLeavesPair(books: seq<Book>, rs: seq<Reservation>, h: Reservation, today: Day)
    requires h in rs
    ensures IdsIncreasing(rs) ==>
      CountPair(QueueAfter(books, Delete(rs, ById(h.id)), h.isbn, h.library, today), h.isbn, h.library)
      == CountPair(rs, h.isbn, h.library) - 1
  {
    if IdsIncreasing(rs) {
      var k :| 0 <= k < |rs| && rs[k] == h;
      DeleteByIdCounts(rs, k, h.isbn, h.library);
      QueueKeepsReservationCount(books, Delete(rs, ById(h.id)), h.isbn, h.library, today, h.isbn, h.library);
    }
  }

  /** Whether createIssue commits, and with which error it throws otherwise. */
  function IssueOutcome(books: seq<Book>, rs: seq<Reservation>, bookId: BookId, uid: Uid, today: Day)
    : (r: Outcome<IssueError>)
    ensures r == Fail(BookNotFound) <==> FindBook(books, bookId).None?
    ensures FindBook(books, bookId).Some? ==>
      var b := FindBook(books, bookId).value;
      var h := FindHolding(rs, uid, b.isbn, b.library);
      && (b.status == Issued ==> r == Fail(BookAlreadyIssued))
      && (b.status == Available && h.Some? && h.value.status == Waitlisted ==> r == Fail(UserInWaitlist))
      && (b.status == Available && h.Some? && h.value.status == Reserved ==>
            r == Pass || r == Fail(AllCopiesReserved))
      && (b.status == Available && h.None? ==>
            && (r == Pass <==> CountAvailableExcept(books, b.isbn, b.library, bookId) >= CountPair(rs, b.isbn, b.library))
            && (r != Pass ==> r == Fail(AllCopiesReserved)))
  {
    match FindBook(books, bookId)
    case None => Fail(BookNotFound)
    case Some(b) =>
      var h := FindHolding(rs, uid, b.isbn, b.library);
      if b.status == Issued then Fail(BookAlreadyIssued)
      else if h.Some? && h.value.status == Waitlisted then Fail(UserInWaitlist)
      else if CountAvailableExcept(books, b.isbn, b.library, bookId)
              < CountPair(ClaimHold(books, rs, uid, b.isbn, b.library, today), b.isbn, b.library)
      then Fail(AllCopiesReserved)
      else Pass
  }

  /** The ISSUES row createIssue inserts: open, due ISSUE_PERIOD days from today. */
  function NewLoan(id: LoanId, b: Book, uid: Uid, today: Day): (l: Loan)
    ensures l.id == id && l.book == b.id && l.library == b.library && l.uid == uid
    ensures l.status == OnLoan && l.issuedOn == today && l.dueDate - l.issuedOn == IssuePeriod
  {
    Loan(id, b.id, b.library, uid, today, ExpirationDate(today, IssuePeriod), OnLoan)
  }

  /** A committed issue keeps the slot invariant: the copy leaves the
      AVAILABLE count only when the pair's remaining copies still cover every
      reservation of the pair. */
  lemma IssueKeepsSlotBound(books: seq<Book>, rs: seq<Reservation>, bookId: BookId, uid: Uid, today: Day)
    requires UniqueBookIds(books) && SlotBound(books, rs)
    requires IssueOutcome(books, rs, bookId, uid, today) == Pass
    ensures var b := FindBook(books, bookId).value;
      SlotBound(SetBookStatus(books, bookId, Issued), ClaimHold(books, rs, uid, b.isbn, b.library, today))
  {
    var b := FindBook(books, bookId).value;
    var h := FindHolding(rs, uid, b.isbn, b.library);
    var rs1 := ClaimHold(books, rs, uid, b.isbn, b.library, today);
    if h.Some? && h.value.status == Reserved {
      DeleteKeepsSlotBound(books, rs, ById(h.value.id));
      QueueKeepsSlotBound(books, Delete(rs, ById(h.value.id)), b.isbn, b.library, today);
    }
    assert SlotBound(books, rs1);
    forall i: Isbn, l: LibraryId
      ensures CountStatus(rs1, i, l, Reserved) <= CountAvailable(SetBookStatus(books, bookId, Issued), i, l)
    {
      CountAfterIssueStatus(books, bookId, i, l);
      if i == b.isbn && l == b.library {
        CountPairSplit(rs1, i, l);
      } else {
        CountExceptOther(books, bookId, i, l);
      }
    }
  }

  /** Issuing an AVAILABLE copy keeps the loans consistent with the copies. */
  lemma IssueKeepsLoansAgree(books: seq<Book>, loans: seq<Loan>, b: Book, l: Loan)
    requires LoansAgreeWithCopies(books, loans)
    requires b in books && b.status == Available && l.book == b.id
    ensures LoansAgreeWithCopies(SetBookStatus(books, b.id, Issued), loans + [l])
  {
    var books1 := SetBookStatus(books, b.id, Issued);
    forall c: BookId ensures CountOpen(loans + [l], c) <= 1 {
      CountOpenAppend(loans, l, c);
    }
    forall k | 0 <= k < |books1| && books1[k].status == Available
      ensures CountOpen(loans + [l], books1[k].id) == 0
    {
      CountOpenAppend(loans, l, books1[k].id);
    }
  }

  /** Case 1 of createIssue: a RESERVED holder's row is deleted and the
      pair's queue re-run; nothing happens for a borrower without a hold. */
  method ConsumeHold(db: Database, uid: Uid, isbn: Isbn, library: LibraryId, today: Day)
    requires db.Valid()
    modifies db`reservations
    ensures db.Valid()
    ensures db.reservations == ClaimHold(db.books, old(db.reservations), uid, isbn, library, today)
  {
    var existingReservation := FindHolding(db.reservations, uid, isbn, library);
    if existingReservation.Some? && existingReservation.value.status == Reserved {
      DeleteWellFormed(db.reservations, ById(existingReservation.value.id), db.nextReservation);
      db.reservations := Delete(db.reservations, ById(existingReservation.value.id));
      UpdateQueue(db, isbn, library, today);
    }
  }

  /** The last two statements of createIssue: insert the loan, mark the copy ISSUED. */
  method IssueCopy(db: Database, book: Book, uid: Uid, today: Day)
    requires db.Valid() && book in db.books && book.status == Available
    modifies db`books, db`loans, db`nextLoan
    ensures db.Valid()
    ensures db.loans == old(db.loans) + [NewLoan(old(db.nextLoan), book, uid, today)]
    ensures db.nextLoan == old(db.nextLoan) + 1
    ensures db.books == SetBookStatus(old(db.books), book.id, Issued)
    ensures old(LoansAgreeWithCopies(db.books, db.loans)) ==> LoansAgreeWithCopies(db.books, db.loans)
  {
    var loan := NewLoan(db.nextLoan, book, uid, today);
    if LoansAgreeWithCopies(db.books, db.loans) {
      IssueKeepsLoansAgree(db.books, db.loans, book, loan);
    }
    SetBookStatusKeepsIds(db.books, book.id, Issued);
    AppendLoanWellFormed(db.loans, loan, db.nextLoan);
    db.loans := db.loans + [loan];
    db.nextLoan := db.nextLoan + 1;
    db.books := SetBookStatus(db.books, book.id, Issued);
  }

  /** The transaction body of createIssue. An error thrown after the hold was
      consumed rolls the whole transaction back. */
  method CreateIssue(db: Database, bookId: BookId, uid: Uid, today: Day) returns (r: Outcome<IssueError>)
    requires db.Valid()
    modifies db`books, db`loans, db`reservations, db`nextLoan
    ensures db.Valid()
    ensures r == IssueOutcome(old(db.books), old(db.reservations), bookId, uid, today)
    ensures r.Fail? ==>
      && db.books == old(db.books) && db.loans == old(db.loans)
      && db.reservations == old(db.reservations) && db.nextLoan == old(db.nextLoan)
    ensures r.Pass? ==>
      var b := FindBook(old(db.books), bookId).value;
      && db.reservations == ClaimHold(old(db.books), old(db.reservations), uid, b.isbn, b.library, today)
      && db.loans == old(db.loans) + [NewLoan(old(db.nextLoan), b, uid, today)]
      && db.nextLoan == old(db.nextLoan) + 1
      && db.books == SetBookStatus(old(db.books), bookId, Issued)
    ensures old(SlotBound(db.books, db.reservations)) ==> SlotBound(db.books, db.reservations)
    ensures old(LoansAgreeWithCopies(db.books, db.loans)) ==> LoansAgreeWithCopies(db.books, db.loans)
  {
    var snapshot := db.reservations;
    var bookDetails := FindBook(db.books, bookId);
    if bookDetails.None? {
      return Fail(BookNotFound);
    }
    var book := bookDetails.value;
    if book.status == Issued {
      return Fail(BookAlreadyIssued);
    }
    var existingReservation := FindHolding(db.reservations, uid, book.isbn, book.library);
    if existingReservation.Some? && existingReservation.value.status == Waitlisted {
      return Fail(UserInWaitlist);
    }
    ConsumeHold(db, uid, book.isbn, book.library, today);
    var remainingAvailableCopies := CountAvailableExcept(db.books, book.isbn, book.library, bookId);
    var totalReservations := CountPair(db.reservations, book.isbn, book.library);
    if remainingAvailableCopies < totalReservations {
      db.reservations := snapshot;
      return Fail(AllCopiesReserved);
    }
    if SlotBound(db.books, snapshot) {
      IssueKeepsSlotBound(db.books, snapshot, bookId, uid, today);
    }
    IssueCopy(db, book, uid, today);
    r := Pass;
  }

  /** A borrower without a reservation is served exactly when the pair has
      more AVAILABLE copies than reservations of either status: every
      reservation keeps one copy back from walk-ins. */
  lemma WalkInServedIffUnclaimedCopy(books: seq<Book>, rs: seq<Reservation>, bookId: BookId, uid: Uid, today: Day)
    requires UniqueBookIds(books)
    requires FindBook(books, bookId).Some? && FindBook(books, bookId).value.status == Available
    requires var b := FindBook(books, bookId).value;
      FindHolding(rs, uid, b.isbn, b.library).None?
    ensures var b := FindBook(books, bookId).value;
      && (IssueOutcome(books, rs, bookId, uid, today) == Pass
          <==> CountAvailable(books, b.isbn, b.library) > CountPair(rs, b.isbn, b.library))
      && (IssueOutcome(books, rs, bookId, uid, today) != Pass
          ==> IssueOutcome(books, rs, bookId, uid, today) == Fail(AllCopiesReserved))
  {
    var b := FindBook(books, bookId).value;
    var j :| 0 <= j < |books| && books[j] == b;
    CountExceptSelf(books, bookId, b.isbn, b.library);
  }

  // ------------------------------------------------------------ the claimed-copies guard

  /** As written, the claimed-copies guard also runs after a RESERVED holder's
      hold is consumed, and the count it compares against includes every
      remaining reservation of the pair: the holder is refused exactly when
      the pair had more reservations, of either status, than AVAILABLE copies. */
  lemma {:induction false} HolderRefusedWhenOversubscribed(books: seq<Book>, rs: seq<Reservation>, bookId: BookId, uid: Uid, today: Day)
    requires UniqueBookIds(books) && IdsIncreasing(rs)
    requires FindBook(books, bookId).Some? && FindBook(books, bookId).value.status == Available
    requires var b := FindBook(books, bookId).value;
      var h := FindHolding(rs, uid, b.isbn, b.library);
      h.Some? && h.value.status == Reserved
    ensures var b := FindBook(books, bookId).value;
      IssueOutcome(books, rs, bookId, uid, today) == Fail(AllCopiesReserved)
      <==> CountAvailable(books, b.isbn, b.library) < CountPair(rs, b.isbn, b.library)
  {
    var b := FindBook(books, bookId).value;
    var h := FindHolding(rs, uid, b.isbn, b.library).value;
    var j :| 0 <= j < |books| && books[j] == b;
    CountExceptSelf(books, bookId, b.isbn, b.library);
    var others := CountAvailableExcept(books, b.isbn, b.library, bookId);
    assert others == CountAvailable(books, b.isbn, b.library) - 1;
    var k :| 0 <= k < |rs| && rs[k] == h;
    var rest := Delete(rs, ById(h.id));
    DeleteByIdCounts(rs, k, b.isbn, b.library);
    assert CountPair(rest, b.isbn, b.library) == CountPair(rs, b.isbn, b.library) - 1;
    QueueKeepsReservationCount(books, rest, b.isbn, b.library, today, b.isbn, b.library);
    var claimed := ClaimHold(books, rs, uid, b.isbn, b.library, today);
    assert claimed == QueueAfter(books, rest, b.isbn, b.library, today);
    assert CountPair(claimed, b.isbn, b.library) == CountPair(rs, b.isbn, b.library) - 1;
    assert IssueOutcome(books, rs, bookId, uid, today)
        == (if others < CountPair(claimed, b.isbn, b.library) then Fail(AllCopiesReserved) else Pass);
  }

  /** The two-copy scenario: A and B hold RESERVED, C waits. Issuing copy 1 to
      A fails with "All copies of this book are reserved." */
  lemma HolderRefusedExample()
    ensures var books := [Book(1, 100, 7, Available), Book(2, 100, 7, Available)];
      var rs := [Reservation(0, 100, 7, 10, Reserved, Some(7), 0),
                 Reservation(1, 100, 7, 11, Reserved, Some(7), 1),
                 Reservation(2, 100, 7, 12, Waitlisted, None, 2)];
      && SlotBound(books, rs)
      && IssueOutcome(books, rs, 1, 10, 0) == Fail(AllCopiesReserved)
  {
    var books := [Book(1, 100, 7, Available), Book(2, 100, 7, Available)];
    var rs := [Reservation(0, 100, 7, 10, Reserved, Some(7), 0),
               Reservation(1, 100, 7, 11, Reserved, Some(7), 1),
               Reservation(2, 100, 7, 12, Waitlisted, None, 2)];
    forall i: Isbn, l: LibraryId ensures CountStatus(rs, i, l, Reserved) <= CountAvailable(books, i, l) {
      assert rs[1..][1..][1..] == [] && books[1..][1..] == [];
      assert CountStatus(rs[1..][1..], i, l, Reserved) == 0;
      assert CountStatus(rs, i, l, Reserved) == if i == 100 && l == 7 then 2 else 0;
      assert CountAvailable(books[1..], i, l) == if i == 100 && l == 7 then 1 else 0;
    }
    assert FindHolding(rs, 10, 100, 7) == Some(rs[0]);
    assert CountAvailable(books, 100, 7) == 2 by {
      assert books[1..][1..] == [];
    }
    assert CountPair(rs, 100, 7) == 3 by {
      assert rs[1..][1..][1..] == [];
    }
    HolderRefusedWhenOversubscribed(books, rs, 1, 10, 0);
  }

  /** Evidently intended createIssue decision: a RESERVED hold entitles its
      holder to the copy, so the claimed-copies guard applies to walk-ins only. */
  function IntendedIssueOutcome(books: seq<Book>, rs: seq<Reservation>, bookId: BookId, uid: Uid)
    : (r: Outcome<IssueError>)
    ensures FindBook(books, bookId).Some? && FindBook(books, bookId).value.status == Available ==>
      var b := FindBook(books, bookId).value;
      var h := FindHolding(rs, uid, b.isbn, b.library);
      h.Some? ==> (r == Pass <==> h.value.status == Reserved)
  {
    match FindBook(books, bookId)
    case None => Fail(BookNotFound)
    case Some(b) =>
      var h := FindHolding(rs, uid, b.isbn, b.library);
      if b.status == Issued then Fail(BookAlreadyIssued)
      else if h.Some? then (if h.value.status == Waitlisted then Fail(UserInWaitlist) else Pass)
      else if CountAvailableExcept(books, b.isbn, b.library, bookId) < CountPair(rs, b.isbn, b.library)
      then Fail(AllCopiesReserved)
      else Pass
  }

  /** Evidently intended RESERVATIONS after an issue: the holder's row is
      deleted and the queue re-run once the copy counts as ISSUED. */
  function IntendedReservationsAfterIssue(books: seq<Book>, rs: seq<Reservation>, b: Book, uid: Uid, today: Day)
    : seq<Reservation>
  {
    var h := FindHolding(rs, uid, b.isbn, b.library);
    if h.Some? && h.value.status == Reserved
    then QueueAfter(SetBookStatus(books, b.id, Issued), Delete(rs, ById(h.value.id)), b.isbn, b.library, today)
    else rs
  }

  /** The intended issue serves every RESERVED holder of an AVAILABLE copy and
      still keeps the slot invariant. */
  lemma IntendedIssueKeepsSlotBound(books: seq<Book>, rs: seq<Reservation>, bookId: BookId, uid: Uid, today: Day)
    requires UniqueBookIds(books) && IdsIncreasing(rs) && SlotBound(books, rs)
    requires IntendedIssueOutcome(books, rs, bookId, uid) == Pass
    ensures var b := FindBook(books, bookId).value;
      SlotBound(SetBookStatus(books, bookId, Issued), IntendedReservationsAfterIssue(books, rs, b, uid, today))
  {
    var b := FindBook(books, bookId).value;
    assert b.id == bookId && b.status == Available;
    var books1 := SetBookStatus(books, bookId, Issued);
    var h := FindHolding(rs, uid, b.isbn, b.library);
    var j :| 0 <= j < |books| && books[j] == b;
    var after := IntendedReservationsAfterIssue(books, rs, b, uid, today);
    if h.Some? {
      assert h.value.status == Reserved;
      var k :| 0 <= k < |rs| && rs[k] == h.value;
      assert after == QueueAfter(books1, Delete(rs, ById(rs[k].id)), b.isbn, b.library, today);
      HolderIssueKeepsSlotBound(books, rs, j, k, today);
    } else {
      assert after == rs;
      assert CountAvailableExcept(books, b.isbn, b.library, bookId) >= CountPair(rs, b.isbn, b.library);
      forall i: Isbn, l: LibraryId ensures CountStatus(rs, i, l, Reserved) <= CountAvailable(books1, i, l) {
        WalkInLeavesSlot(books, rs, j, i, l);
      }
    }
  }

  /** Issuing copy j to a walk-in whom the claimed-copies guard lets through
      leaves every pair with no more RESERVED holds than AVAILABLE copies. */
  lemma {:induction false} WalkInLeavesSlot(books: seq<Book>, rs: seq<Reservation>, j: nat, i: Isbn, l: LibraryId)
    requires UniqueBookIds(books)
    requires CountStatus(rs, i, l, Reserved) <= CountAvailable(books, i, l)
    requires j < |books|
    requires CountAvailableExcept(books, books[j].isbn, books[j].library, books[j].id)
          >= CountPair(rs, books[j].isbn, books[j].library)
    ensures CountStatus(rs, i, l, Reserved) <= CountAvailable(SetBookStatus(books, books[j].id, Issued), i, l)
  {
    var b := books[j];
    CountAfterIssueStatus(books, b.id, i, l);
    if i == b.isbn && l == b.library {
      CountPairSplit(rs, i, l);
    } else {
      forall m | 0 <= m < |books| && books[m].id == b.id ensures !AvailableIn(books[m], i, l) {
        if m != j {
          assert false;
        }
      }
      CountExceptOther(books, b.id, i, l);
    }
  }

  /** The intended issue to a RESERVED holder: the copy is ISSUED, the
      holder's row deleted and the queue re-run, and the slot bound holds. */
  lemma HolderIssueKeepsSlotBound(books: seq<Book>, rs: seq<Reservation>, j: nat, k: nat, today: Day)
    requires UniqueBookIds(books) && IdsIncreasing(rs) && SlotBound(books, rs)
    requires j < |books| && books[j].status == Available
    requires k < |rs| && InPair(rs[k], books[j].isbn, books[j].library) && rs[k].status == Reserved
    ensures var books1 := SetBookStatus(books, books[j].id, Issued);
      SlotBound(books1, QueueAfter(books1, Delete(rs, ById(rs[k].id)), books[j].isbn, books[j].library, today))
  {
    var books1 := SetBookStatus(books, books[j].id, Issued);
    var rest := Delete(rs, ById(rs[k].id));
    forall i: Isbn, l: LibraryId ensures CountStatus(rest, i, l, Reserved) <= CountAvailable(books1, i, l) {
      HolderLeavesSlot(books, rs, j, k, i, l);
    }
    QueueKeepsSlotBound(books1, rest, books[j].isbn, books[j].library, today);
  }

  /** Issuing copy j to the holder of row k, whose hold is for copy j's pair,
      takes one copy and one hold from that pair and none from any other. */
  lemma {:induction false} HolderLeavesSlot(books: seq<Book>, rs: seq<Reservation>, j: nat, k: nat, i: Isbn, l: LibraryId)
    requires UniqueBookIds(books) && IdsIncreasing(rs)
    requires CountStatus(rs, i, l, Reserved) <= CountAvailable(books, i, l)
    requires j < |books| && books[j].status == Available
    requires k < |rs| && InPair(rs[k], books[j].isbn, books[j].library) && rs[k].status == Reserved
    ensures CountStatus(Delete(rs, ById(rs[k].id)), i, l, Reserved)
         <= CountAvailable(SetBookStatus(books, books[j].id, Issued), i, l)
  {
    var b := books[j];
    DeleteByIdCounts(rs, k, i, l);
    CountAfterIssueStatus(books, b.id, i, l);
    if i == b.isbn && l == b.library {
      assert AvailableIn(books[j], i, l);
      CountExceptSelf(books, b.id, i, l);
    } else {
      forall m | 0 <= m < |books| && books[m].id == b.id ensures !AvailableIn(books[m], i, l) {
        if m != j {
          assert false;
        }
      }
      CountExceptOther(books, b.id, i, l);
    }
  }

  // ------------------------------------------------------------ returnBook

  /** Whether returnBook commits, and with which error it throws otherwise. */
  function ReturnOutcome(books: seq<Book>, bookId: BookId): (r: Outcome<IssueError>)
    ensures r == Fail(BookNotFound) <==> forall k :: 0 <= k < |books| ==> books[k].id != bookId
    ensures r == Pass <==> FindBook(books, bookId).Some? && FindBook(books, bookId).value.status == Issued
    ensures r == Fail(BookNotIssued) <==>
      FindBook(books, bookId).Some? && FindBook(books, bookId).value.status == Available
  {
    match FindBook(books, bookId)
    case None => Fail(BookNotFound)
    case Some(b) => if b.status == Available then Fail(BookNotIssued) else assert b.status == Issued; Pass
  }

  /** Returning a copy keeps the slot invariant: the copy rejoins the
      AVAILABLE count before the queue is re-run. */
  lemma ReturnKeepsSlotBound(books: seq<Book>, rs: seq<Reservation>, bookId: BookId, isbn: Isbn, library: LibraryId,
                             today: Day)
    requires SlotBound(books, rs)
    ensures var books1 := SetBookStatus(books, bookId, Available);
      SlotBound(books1, QueueAfter(books1, rs, isbn, library, today))
  {
    var books1 := SetBookStatus(books, bookId, Available);
    forall i: Isbn, l: LibraryId ensures CountStatus(rs, i, l, Reserved) <= CountAvailable(books1, i, l) {
      CountAfterReturnStatus(books, bookId, i, l);
    }
    QueueKeepsSlotBound(books1, rs, isbn, library, today);
  }

  /** Returning a copy keeps the loans consistent with the copies. */
  lemma ReturnKeepsLoansAgree(books: seq<Book>, loans: seq<Loan>, bookId: BookId)
    requires LoansAgreeWithCopies(books, loans)
    ensures LoansAgreeWithCopies(SetBookStatus(books, bookId, Available), CloseLoans(loans, bookId))
  {
    var books1 := SetBookStatus(books, bookId, Available);
    var loans1 := CloseLoans(loans, bookId);
    forall c: BookId ensures CountOpen(loans1, c) <= 1 {
      CloseLoansCounts(loans, bookId, c);
    }
    forall k | 0 <= k < |books1| && books1[k].status == Available
      ensures CountOpen(loans1, books1[k].id) == 0
    {
      CloseLoansCounts(loans, bookId, books1[k].id);
    }
  }

  /** The first two updates of returnBook: the copy becomes AVAILABLE and its
      loans RETURNED. */
  method Reshelve(db: Database, bookId: BookId)
    requires db.Valid()
    modifies db`books, db`loans
    ensures db.Valid()
    ensures db.books == SetBookStatus(old(db.books), bookId, Available)
    ensures db.loans == CloseLoans(old(db.loans), bookId)
    ensures old(LoansAgreeWithCopies(db.books, db.loans)) ==> LoansAgreeWithCopies(db.books, db.loans)
  {
    if LoansAgreeWithCopies(db.books, db.loans) {
      ReturnKeepsLoansAgree(db.books, db.loans, bookId);
    }
    SetBookStatusKeepsIds(db.books, bookId, Available);
    CloseLoansWellFormed(db.loans, bookId, db.nextLoan);
    db.books := SetBookStatus(db.books, bookId, Available);
    db.loans := CloseLoans(db.loans, bookId);
  }

  /** The transaction body of returnBook. */
  method ReturnBook(db: Database, bookId: BookId, today: Day) returns (r: Outcome<IssueError>)
    requires db.Valid()
    modifies db`books, db`loans, db`reservations
    ensures db.Valid()
    ensures r == ReturnOutcome(old(db.books), bookId)
    ensures r.Fail? ==>
      db.books == old(db.books) && db.loans == old(db.loans) && db.reservations == old(db.reservations)
    ensures r.Pass? ==>
      var b := FindBook(old(db.books), bookId).value;
      && db.books == SetBookStatus(old(db.books), bookId, Available)
      && db.loans == CloseLoans(old(db.loans), bookId)
      && db.reservations == QueueAfter(db.books, old(db.reservations), b.isbn, b.library, today)
    ensures old(SlotBound(db.books, db.reservations)) ==> SlotBound(db.books, db.reservations)
    ensures old(LoansAgreeWithCopies(db.books, db.loans)) ==> LoansAgreeWithCopies(db.books, db.loans)
  {
    var bookDetails := FindBook(db.books, bookId);
    if bookDetails.None? {
      return Fail(BookNotFound);
    }
    var book := bookDetails.value;
    if book.status == Available {
      return Fail(BookNotIssued);
    }
    if SlotBound(db.books, db.reservations) {
      ReturnKeepsSlotBound(db.books, db.reservations, bookId, book.isbn, book.library, today);
    }
    Reshelve(db, bookId);
    UpdateQueue(db, book.isbn, book.library, today);
    r := Pass;
  }

  // ------------------------------------------------------------ listings

  /** getActiveIssuesByUid: the borrower's open loans. */
  function ActiveIssuesByUid(loans: seq<Loan>, uid: Uid): (r: seq<Loan>)
    ensures forall l :: l in r <==> l in loans && l.uid == uid && l.status == OnLoan
  {
    if loans == [] then []
    else (if loans[0].uid == uid && loans[0].status == OnLoan then [loans[0]] else [])
         + ActiveIssuesByUid(loans[1..], uid)
  }

  /** getPastIssuesByUid: the borrower's returned loans. */
  function PastIssuesByUid(loans: seq<Loan>, uid: Uid): (r: seq<Loan>)
    ensures forall l :: l in r <==> l in loans && l.uid == uid && l.status == Returned
  {
    if loans == [] then []
    else (if loans[0].uid == uid && loans[0].status == Returned then [loans[0]] else [])
         + PastIssuesByUid(loans[1..], uid)
  }

  /** After a copy is returned it no longer shows among anyone's active
      issues, and each of its loans shows among its borrower's past issues. */
  lemma ReturnMovesLoansToPast(loans: seq<Loan>, bookId: BookId, uid: Uid)
    ensures forall l :: l in ActiveIssuesByUid(CloseLoans(loans, bookId), uid) ==> l.book != bookId
    ensures forall l :: l in loans && l.book == bookId && l.uid == uid ==>
      l.(status := Returned) in PastIssuesByUid(CloseLoans(loans, bookId), uid)
  {
    var closed := CloseLoans(loans, bookId);
    forall l | l in loans && l.book == bookId && l.uid == uid
      ensures l.(status := Returned) in closed
    {
      var k :| 0 <= k < |loans| && loans[k] == l;
      assert closed[k] == l.(status := Returned);
    }
  }
}
