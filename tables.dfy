/** The relational state the circulation engine reads and writes: physical
    copies (BOOKS), loans (ISSUES), reservations (RESERVATIONS), fines (FINE)
    and the per-borrower penalty rate (ISSUER_DETAILS), together with the
    aggregate queries that several transactions share. Dates are whole day
    numbers; money is in hundredths of a rupee. */
module Tables {

  type Day = int
  type BookId = nat
  type Isbn = nat
  type LibraryId = nat
  type Uid = nat
  type ReservationId = nat
  type LoanId = nat
  type FineId = nat

  datatype Option<T> = None | Some(value: T)
  datatype Outcome<E> = Pass | Fail(error: E)
  datatype Result<T, E> = Success(value: T) | Failure(error: E)

  /** BOOKS row: one physical copy, owned by one (isbn, library) pair. */
  datatype CopyStatus = Available | Issued
  datatype Book = Book(id: BookId, isbn: Isbn, library: LibraryId, status: CopyStatus)

  /** RESERVATIONS row. `reservedAt` is the creation sequence number that
      orders the waitlist; `expiresAt` is None (SQL NULL) while waitlisted. */
  datatype ReservationStatus = Reserved | Waitlisted
  datatype Reservation = Reservation(
    id: ReservationId, isbn: Isbn, library: LibraryId, uid: Uid,
    status: ReservationStatus, expiresAt: Option<Day>, reservedAt: nat)

  /** ISSUES row; `OnLoan` is the status the listing of active issues calls 'ISSUED'. */
  datatype LoanStatus = OnLoan | Returned
  datatype Loan = Loan(
    id: LoanId, book: BookId, library: LibraryId, uid: Uid,
    issuedOn: Day, dueDate: Day, status: LoanStatus)

  /** FINE row. `daysLate` is the number the reason text 'Overdue by N days'
      reports; `sbiDtu` is the payment reference stored when the fine is paid. */
  datatype Fine = Fine(
    id: FineId, issue: LoanId, amount: int, paid: bool, paidDate: Option<Day>,
    daysLate: int, sbiDtu: Option<string>)

  // ---------------------------------------------------------------- BOOKS

  ghost predicate UniqueBookIds(books: seq<Book>) {
    forall i, j :: 0 <= i < j < |books| ==> books[i].id != books[j].id
  }

  /** SELECT ... FROM BOOKS WHERE book_id = id, first row. */
  function FindBook(books: seq<Book>, id: BookId): (r: Option<Book>)
    ensures r.None? <==> forall k :: 0 <= k < |books| ==> books[k].id != id
    ensures r.Some? ==> r.value in books && r.value.id == id
    ensures r.Some? && UniqueBookIds(books) ==>
      forall k :: 0 <= k < |books| && books[k].id == id ==> books[k] == r.value
  {
    if books == [] then None
    else if books[0].id == id then Some(books[0])
    else
      var r := FindBook(books[1..], id);
      assert UniqueBookIds(books) ==> UniqueBookIds(books[1..]);
      assert forall k :: 1 <= k < |books| ==> books[k] == books[1..][k - 1];
      r
  }

  /** UPDATE BOOKS SET status = status WHERE book_id = id. */
  function SetBookStatus(books: seq<Book>, id: BookId, status: CopyStatus): (r: seq<Book>)
    ensures |r| == |books|
    ensures forall k :: 0 <= k < |books| ==>
      r[k] == if books[k].id == id then books[k].(status := status) else books[k]
  {
    if books == [] then []
    else [if books[0].id == id then books[0].(status := status) else books[0]]
         + SetBookStatus(books[1..], id, status)
  }

  predicate AvailableIn(b: Book, isbn: Isbn, library: LibraryId) {
    b.isbn == isbn && b.library == library && b.status == Available
  }

  lemma SetBookStatusKeepsIds(books: seq<Book>, id: BookId, status: CopyStatus)
    requires UniqueBookIds(books)
    ensures UniqueBookIds(SetBookStatus(books, id, status))
  {
  }

  /** COUNT(*) of AVAILABLE copies of the pair. */
  function CountAvailable(books: seq<Book>, isbn: Isbn, library: LibraryId): (c: nat)
    ensures c <= |books|
  {
    if books == [] then 0
    else (if AvailableIn(books[0], isbn, library) then 1 else 0)
         + CountAvailable(books[1..], isbn, library)
  }

  /** The same count restricted to book_id != except. */
  function CountAvailableExcept(books: seq<Book>, isbn: Isbn, library: LibraryId, except: BookId): (c: nat)
    ensures c <= CountAvailable(books, isbn, library)
  {
    if books == [] then 0
    else (if AvailableIn(books[0], isbn, library) && books[0].id != except then 1 else 0)
         + CountAvailableExcept(books[1..], isbn, library, except)
  }

  /** The pair has an AVAILABLE copy exactly when the count is positive. */
  lemma {:induction false} CountAvailablePositive(books: seq<Book>, isbn: Isbn, library: LibraryId)
    ensures CountAvailable(books, isbn, library) > 0
        <==> exists k :: 0 <= k < |books| && AvailableIn(books[k], isbn, library)
  {
    if books != [] {
      CountAvailablePositive(books[1..], isbn, library);
      assert forall k :: 1 <= k < |books| ==> books[k] == books[1..][k - 1];
      if exists k :: 0 <= k < |books| && AvailableIn(books[k], isbn, library) {
        var k :| 0 <= k < |books| && AvailableIn(books[k], isbn, library);
        if k > 0 {
          assert AvailableIn(books[1..][k - 1], isbn, library);
        }
      }
    }
  }

  lemma {:induction false} CountAfterIssueStatus(books: seq<Book>, id: BookId, isbn: Isbn, library: LibraryId)
    ensures CountAvailable(SetBookStatus(books, id, Issued), isbn, library)
         == CountAvailableExcept(books, isbn, library, id)
  {
    if books != [] {
      CountAfterIssueStatus(books[1..], id, isbn, library);
      assert SetBookStatus(books, id, Issued)[1..] == SetBookStatus(books[1..], id, Issued);
    }
  }

  lemma {:induction false} CountAfterReturnStatus(books: seq<Book>, id: BookId, isbn: Isbn, library: LibraryId)
    ensures CountAvailable(SetBookStatus(books, id, Available), isbn, library)
         >= CountAvailable(books, isbn, library)
  {
    if books != [] {
      CountAfterReturnStatus(books[1..], id, isbn, library);
      assert SetBookStatus(books, id, Available)[1..] == SetBookStatus(books[1..], id, Available);
    }
  }

  /** Excluding a copy that is not an available copy of the pair changes nothing. */
  lemma {:induction false} CountExceptOther(books: seq<Book>, id: BookId, isbn: Isbn, library: LibraryId)
    requires forall k :: 0 <= k < |books| && books[k].id == id ==> !AvailableIn(books[k], isbn, library)
    ensures CountAvailableExcept(books, isbn, library, id) == CountAvailable(books, isbn, library)
  {
    if books != [] {
      CountExceptOther(books[1..], id, isbn, library);
    }
  }

  /** Excluding the one available copy with that id removes exactly one. */
  lemma {:induction false} CountExceptSelf(books: seq<Book>, id: BookId, isbn: Isbn, library: LibraryId)
    requires UniqueBookIds(books)
    requires exists k :: 0 <= k < |books| && books[k].id == id && AvailableIn(books[k], isbn, library)
    ensures CountAvailableExcept(books, isbn, library, id) == CountAvailable(books, isbn, library) - 1
  {
    if books[0].id == id {
      CountExceptOther(books[1..], id, isbn, library);
    } else {
      var k :| 0 <= k < |books| && books[k].id == id && AvailableIn(books[k], isbn, library);
      assert books[1..][k - 1] == books[k];
      CountExceptSelf(books[1..], id, isbn, library);
    }
  }

  // --------------------------------------------------------- RESERVATIONS

  predicate InPair(r: Reservation, isbn: Isbn, library: LibraryId) {
    r.isbn == isbn && r.library == library
  }

  /** COUNT(*) of the pair's reservations with the given status. */
  function CountStatus(rs: seq<Reservation>, isbn: Isbn, library: LibraryId, status: ReservationStatus): (c: nat)
  {
    if rs == [] then 0
    else (if InPair(rs[0], isbn, library) && rs[0].status == status then 1 else 0)
         + CountStatus(rs[1..], isbn, library, status)
  }

  /** COUNT(*) of the pair's reservations, whatever their status. */
  function CountPair(rs: seq<Reservation>, isbn: Isbn, library: LibraryId): (c: nat)
    ensures c <= |rs|
  {
    if rs == [] then 0
    else (if InPair(rs[0], isbn, library) then 1 else 0) + CountPair(rs[1..], isbn, library)
  }

  /** The pair has a reservation with the status exactly when the count is positive. */
  lemma {:induction false} CountStatusPositive(rs: seq<Reservation>, isbn: Isbn, library: LibraryId,
                                               status: ReservationStatus)
    ensures CountStatus(rs, isbn, library, status) > 0
        <==> exists k :: 0 <= k < |rs| && InPair(rs[k], isbn, library) && rs[k].status == status
  {
    if rs != [] {
      CountStatusPositive(rs[1..], isbn, library, status);
      assert forall k :: 1 <= k < |rs| ==> rs[k] == rs[1..][k - 1];
      if exists k :: 0 <= k < |rs| && InPair(rs[k], isbn, library) && rs[k].status == status {
        var k :| 0 <= k < |rs| && InPair(rs[k], isbn, library) && rs[k].status == status;
        if k > 0 {
          assert InPair(rs[1..][k - 1], isbn, library);
        }
      }
    }
  }

  lemma {:induction false} CountPairSplit(rs: seq<Reservation>, isbn: Isbn, library: LibraryId)
    ensures CountPair(rs, isbn, library)
         == CountStatus(rs, isbn, library, Reserved) + CountStatus(rs, isbn, library, Waitlisted)
  {
    if rs != [] {
      CountPairSplit(rs[1..], isbn, library);
    }
  }

  lemma {:induction false} CountConcat(a: seq<Reservation>, b: seq<Reservation>, isbn: Isbn, library: LibraryId)
    ensures forall s :: CountStatus(a + b, isbn, library, s)
                     == CountStatus(a, isbn, library, s) + CountStatus(b, isbn, library, s)
    ensures CountPair(a + b, isbn, library) == CountPair(a, isbn, library) + CountPair(b, isbn, library)
  {
    if a != [] {
      CountConcat(a[1..], b, isbn, library);
      assert (a + b)[1..] == a[1..] + b;
    } else {
      assert a + b == b;
    }
  }

  /** The slot invariant: no pair has more RESERVED holds than AVAILABLE copies. */
  ghost predicate SlotBound(books: seq<Book>, rs: seq<Reservation>) {
    forall isbn: Isbn, library: LibraryId ::
      CountStatus(rs, isbn, library, Reserved) <= CountAvailable(books, isbn, library)
  }

  predicate SameHolder(a: Reservation, b: Reservation) {
    a.uid == b.uid && a.isbn == b.isbn && a.library == b.library
  }

  /** Reservation ids increase along the table, so an id names one row. */
  ghost predicate IdsIncreasing(rs: seq<Reservation>) {
    forall i, j :: 0 <= i < j < |rs| ==> rs[i].id < rs[j].id
  }

  /** Ids and creation numbers increase along the table (so table order is
      reserved_at order), both stay below the next SERIAL value, and a borrower
      holds at most one reservation per (isbn, library). */
  ghost predicate ReservationsWellFormed(rs: seq<Reservation>, next: nat) {
    && IdsIncreasing(rs)
    && (forall i, j :: 0 <= i < j < |rs| ==> rs[i].reservedAt < rs[j].reservedAt)
    && (forall i :: 0 <= i < |rs| ==> rs[i].id < next && rs[i].reservedAt < next)
    && (forall i, j :: 0 <= i < j < |rs| ==> !SameHolder(rs[i], rs[j]))
  }

  /** Two tables whose rows agree, position by position, on everything but
      status and expiry. */
  ghost predicate SameRows(a: seq<Reservation>, b: seq<Reservation>) {
    && |a| == |b|
    && forall k :: 0 <= k < |a| ==>
         a[k].id == b[k].id && a[k].reservedAt == b[k].reservedAt && a[k].uid == b[k].uid
         && a[k].isbn == b[k].isbn && a[k].library == b[k].library
  }

  lemma SameRowsWellFormed(a: seq<Reservation>, b: seq<Reservation>, next: nat)
    requires ReservationsWellFormed(a, next) && SameRows(a, b)
    ensures ReservationsWellFormed(b, next)
  {
  }

  /** SELECT ... FROM RESERVATIONS WHERE uid AND isbn_id AND library_id, first row. */
  function FindHolding(rs: seq<Reservation>, uid: Uid, isbn: Isbn, library: LibraryId): (r: Option<Reservation>)
    ensures r.None? <==>
      forall k :: 0 <= k < |rs| ==> !(rs[k].uid == uid && InPair(rs[k], isbn, library))
    ensures r.Some? ==> r.value in rs && r.value.uid == uid && InPair(r.value, isbn, library)
  {
    if rs == [] then None
    else if rs[0].uid == uid && InPair(rs[0], isbn, library) then Some(rs[0])
    else
      var r := FindHolding(rs[1..], uid, isbn, library);
      assert forall k :: 1 <= k < |rs| ==> rs[k] == rs[1..][k - 1];
      r
  }

  /** SELECT ... FROM RESERVATIONS WHERE reservation_id = id. */
  function FindReservation(rs: seq<Reservation>, id: ReservationId): (r: Option<Reservation>)
    ensures r.None? <==> forall k :: 0 <= k < |rs| ==> rs[k].id != id
    ensures r.Some? ==> r.value in rs && r.value.id == id
  {
    if rs == [] then None
    else if rs[0].id == id then Some(rs[0])
    else
      var r := FindReservation(rs[1..], id);
      assert forall k :: 1 <= k < |rs| ==> rs[k] == rs[1..][k - 1];
      r
  }

  /** The WHERE clauses of the two DELETE FROM RESERVATIONS statements. */
  datatype Condition = ById(id: ReservationId) | ExpiredBefore(now: Day)

  predicate Expired(r: Reservation, now: Day) {
    r.status == Reserved && r.expiresAt.Some? && r.expiresAt.value < now
  }

  predicate Matches(c: Condition, r: Reservation) {
    match c
    case ById(id) => r.id == id
    case ExpiredBefore(now) => Expired(r, now)
  }

  /** DELETE FROM RESERVATIONS WHERE c: the surviving rows, in table order. */
  function Delete(rs: seq<Reservation>, c: Condition): (r: seq<Reservation>)
    ensures forall x :: x in r <==> x in rs && !Matches(c, x)
    ensures |r| <= |rs|
  {
    if rs == [] then []
    else if Matches(c, rs[0]) then Delete(rs[1..], c)
    else [rs[0]] + Delete(rs[1..], c)
  }

  lemma TailWellFormed(rs: seq<Reservation>, next: nat)
    requires rs != [] && ReservationsWellFormed(rs, next)
    ensures ReservationsWellFormed(rs[1..], next)
    ensures forall y :: y in rs[1..] ==>
      rs[0].id < y.id && rs[0].reservedAt < y.reservedAt && !SameHolder(rs[0], y)
  {
    forall y | y in rs[1..]
      ensures rs[0].id < y.id && rs[0].reservedAt < y.reservedAt && !SameHolder(rs[0], y)
    {
      var k :| 0 <= k < |rs[1..]| && rs[1..][k] == y;
      assert rs[k + 1] == y;
    }
  }

  lemma ConsWellFormed(x: Reservation, tail: seq<Reservation>, next: nat)
    requires ReservationsWellFormed(tail, next)
    requires x.id < next && x.reservedAt < next
    requires forall y :: y in tail ==> x.id < y.id && x.reservedAt < y.reservedAt && !SameHolder(x, y)
    ensures ReservationsWellFormed([x] + tail, next)
  {
    var r := [x] + tail;
    forall i, j | 0 <= i < j < |r|
      ensures r[i].id < r[j].id && r[i].reservedAt < r[j].reservedAt && !SameHolder(r[i], r[j])
    {
      assert r[j] == tail[j - 1];
      if i > 0 {
        assert r[i] == tail[i - 1];
      } else {
        assert r[j] in tail;
      }
    }
    forall i | 0 <= i < |r| ensures r[i].id < next && r[i].reservedAt < next {
      if i > 0 {
        assert r[i] == tail[i - 1];
      }
    }
  }

  lemma {:induction false} DeleteWellFormed(rs: seq<Reservation>, c: Condition, next: nat)
    requires ReservationsWellFormed(rs, next)
    ensures ReservationsWellFormed(Delete(rs, c), next)
  {
    if rs != [] {
      TailWellFormed(rs, next);
      DeleteWellFormed(rs[1..], c, next);
      if !Matches(c, rs[0]) {
        ConsWellFormed(rs[0], Delete(rs[1..], c), next);
      }
    }
  }

  /** Deleting rows never adds to any count. */
  lemma {:induction false} DeleteCountsLe(rs: seq<Reservation>, c: Condition, isbn: Isbn, library: LibraryId)
    ensures forall s :: CountStatus(Delete(rs, c), isbn, library, s) <= CountStatus(rs, isbn, library, s)
  {
    if rs != [] {
      DeleteCountsLe(rs[1..], c, isbn, library);
    }
  }

  lemma DeleteKeepsSlotBound(books: seq<Book>, rs: seq<Reservation>, c: Condition)
    requires SlotBound(books, rs)
    ensures SlotBound(books, Delete(rs, c))
  {
    forall isbn: Isbn, library: LibraryId
      ensures CountStatus(Delete(rs, c), isbn, library, Reserved) <= CountAvailable(books, isbn, library)
    {
      DeleteCountsLe(rs, c, isbn, library);
    }
  }

  /** A DELETE whose condition matches exactly row k removes exactly that row. */
  lemma {:induction false} DeleteOnlyRow(rs: seq<Reservation>, c: Condition, k: nat)
    requires k < |rs| && Matches(c, rs[k])
    requires forall j :: 0 <= j < |rs| && j != k ==> !Matches(c, rs[j])
    ensures Delete(rs, c) == rs[..k] + rs[k + 1..]
  {
    var tail := rs[1..];
    if k == 0 {
      forall j | 0 <= j < |tail| ensures !Matches(c, tail[j]) {
        assert tail[j] == rs[j + 1];
      }
      NoMatchIsIdentity(tail, c);
    } else {
      forall j | 0 <= j < |tail| && j != k - 1 ensures !Matches(c, tail[j]) {
        assert tail[j] == rs[j + 1];
      }
      DeleteOnlyRow(tail, c, k - 1);
      assert rs[..k] == [rs[0]] + tail[..k - 1];
      assert rs[k + 1..] == tail[k..];
    }
  }

  lemma DeleteByIdRemovesRow(rs: seq<Reservation>, k: nat)
    requires IdsIncreasing(rs)
    requires k < |rs|
    ensures Delete(rs, ById(rs[k].id)) == rs[..k] + rs[k + 1..]
  {
    forall j | 0 <= j < |rs| && j != k ensures !Matches(ById(rs[k].id), rs[j]) {
      if j < k { assert rs[j].id < rs[k].id; } else { assert rs[k].id < rs[j].id; }
    }
    DeleteOnlyRow(rs, ById(rs[k].id), k);
  }

  /** Deleting row k by its id lowers the counts of row k's pair and status by
      one and leaves every other count alone. */
  lemma DeleteByIdCounts(rs: seq<Reservation>, k: nat, isbn: Isbn, library: LibraryId)
    requires IdsIncreasing(rs) && k < |rs|
    ensures var d := Delete(rs, ById(rs[k].id));
      && CountPair(d, isbn, library) == CountPair(rs, isbn, library) - (if InPair(rs[k], isbn, library) then 1 else 0)
      && forall s :: CountStatus(d, isbn, library, s)
                  == CountStatus(rs, isbn, library, s) - (if InPair(rs[k], isbn, library) && rs[k].status == s then 1 else 0)
  {
    DeleteByIdRemovesRow(rs, k);
    assert rs == rs[..k] + ([rs[k]] + rs[k + 1..]);
    CountConcat(rs[..k], [rs[k]] + rs[k + 1..], isbn, library);
    CountConcat([rs[k]], rs[k + 1..], isbn, library);
    CountConcat(rs[..k], rs[k + 1..], isbn, library);
    assert [rs[k]][1..] == [];
  }

  lemma {:induction false} NoMatchIsIdentity(rs: seq<Reservation>, c: Condition)
    requires forall k :: 0 <= k < |rs| ==> !Matches(c, rs[k])
    ensures Delete(rs, c) == rs
  {
    if rs != [] {
      NoMatchIsIdentity(rs[1..], c);
    }
  }

  // ------------------------------------------------------- ISSUES and FINE

  ghost predicate LoanIdsIncreasing(loans: seq<Loan>) {
    forall i, j :: 0 <= i < j < |loans| ==> loans[i].id < loans[j].id
  }

  /** Loan ids increase along the table and stay below the next SERIAL value. */
  ghost predicate LoansWellFormed(loans: seq<Loan>, next: nat) {
    && LoanIdsIncreasing(loans)
    && (forall i :: 0 <= i < |loans| ==> loans[i].id < next)
  }

  lemma AppendLoanWellFormed(loans: seq<Loan>, l: Loan, next: nat)
    requires LoansWellFormed(loans, next) && l.id == next
    ensures LoansWellFormed(loans + [l], next + 1)
  {
  }

  /** Fine ids increase and stay below the next SERIAL value, and no loan has
      two fines. */
  ghost predicate FinesWellFormed(fines: seq<Fine>, next: nat) {
    && (forall i, j :: 0 <= i < j < |fines| ==> fines[i].id < fines[j].id)
    && (forall i :: 0 <= i < |fines| ==> fines[i].id < next)
    && (forall i, j :: 0 <= i < j < |fines| ==> fines[i].issue != fines[j].issue)
  }

  /** The database. Each transaction of the engine is a method that takes it,
      as the source's functions take the connection handle. */
  class Database {
    var books: seq<Book>
    var loans: seq<Loan>
    var reservations: seq<Reservation>
    var fines: seq<Fine>
    /** ISSUER_DETAILS: borrowers that have a row, with their penalty_rate (None = NULL). */
    var issuerDetails: map<Uid, Option<int>>
    var nextReservation: nat
    var nextLoan: nat
    var nextFine: nat

    ghost predicate Valid()
      reads this
    {
      && UniqueBookIds(books)
      && ReservationsWellFormed(reservations, nextReservation)
      && LoansWellFormed(loans, nextLoan)
      && FinesWellFormed(fines, nextFine)
    }

    /** A database holding the given copies and borrower details and no
        loans, reservations or fines. */
    constructor (books: seq<Book>, issuerDetails: map<Uid, Option<int>>)
      requires UniqueBookIds(books)
      ensures Valid()
      ensures this.books == books && this.issuerDetails == issuerDetails
      ensures loans == [] && reservations == [] && fines == []
    {
      this.books := books;
      this.issuerDetails := issuerDetails;
      loans, reservations, fines := [], [], [];
      nextReservation, nextLoan, nextFine := 0, 0, 0;
    }
  }
}
