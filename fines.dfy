/** Reading and paying fines (server/controllers/fines.js). */
module Fines {
  import opened Tables
  import opened FineJob

  /** The status column the queries derive from paid_status. */
  datatype FineStatus = Paid | Unpaid

  function StatusOf(f: Fine): (s: FineStatus)
    ensures s == Paid <==> f.paid
    ensures s == Unpaid <==> !f.paid
  {
    if f.paid then Paid else Unpaid
  }

  /** The columns payFine returns: id, amount, status, paid_date. */
  datatype FineView = FineView(id: FineId, amount: int, status: FineStatus, paidDate: Option<Day>)

  function View(f: Fine): FineView {
    FineView(f.id, f.amount, StatusOf(f), f.paidDate)
  }

  /** SELECT ... FROM FINE WHERE fine_id = id, first row. */
  function FindFine(fines: seq<Fine>, id: FineId): (r: Option<Fine>)
    ensures r.None? <==> forall k :: 0 <= k < |fines| ==> fines[k].id != id
    ensures r.Some? ==>
      exists k :: (0 <= k < |fines| && fines[k] == r.value && fines[k].id == id
                   && forall j :: 0 <= j < k ==> fines[j].id != id)
  {
    if fines == [] then None
    else if fines[0].id == id then Some(fines[0])
    else
      var r := FindFine(fines[1..], id);
      assert forall k :: 1 <= k < |fines| ==> fines[k] == fines[1..][k - 1];
      r
  }

  /** UPDATE FINE SET paid_status = TRUE, paid_date = today, sbi_dtu = reference
      WHERE fine_id = id. */
  function MarkPaid(fines: seq<Fine>, id: FineId, today: Day, reference: Option<string>): (r: seq<Fine>)
    ensures |r| == |fines|
    ensures forall k :: 0 <= k < |fines| ==>
      r[k] == if fines[k].id == id then fines[k].(paid := true, paidDate := Some(today), sbiDtu := reference)
              else fines[k]
  {
    if fines == [] then []
    else [if fines[0].id == id then fines[0].(paid := true, paidDate := Some(today), sbiDtu := reference)
          else fines[0]]
         + MarkPaid(fines[1..], id, today, reference)
  }

  /** Paying touches only the named fine: it becomes PAID on today's date with
      its amount, loan and lateness unchanged, and every other fine is left as
      it was. */
  lemma PayTouchesOnlyThatFine(fines: seq<Fine>, id: FineId, today: Day, reference: Option<string>)
    ensures var r := MarkPaid(fines, id, today, reference);
      && (forall k :: 0 <= k < |fines| && fines[k].id != id ==> r[k] == fines[k])
      && (forall k :: 0 <= k < |fines| && fines[k].id == id ==>
            && StatusOf(r[k]) == Paid && r[k].paidDate == Some(today)
            && r[k].id == id && r[k].amount == fines[k].amount && r[k].issue == fines[k].issue
            && r[k].daysLate == fines[k].daysLate)
      && FindFine(r, id).Some? == FindFine(fines, id).Some?
  {
    var r := MarkPaid(fines, id, today, reference);
    if FindFine(fines, id).Some? {
      var k :| 0 <= k < |fines| && fines[k].id == id;
      assert r[k].id == id;
    }
  }

  /** Paying twice is paying once with the later date and reference: the
      paid flag stays set and only paid_date (and the reference) move. */
  lemma PayTwice(fines: seq<Fine>, id: FineId, d1: Day, d2: Day, ref1: Option<string>, ref2: Option<string>)
    ensures MarkPaid(MarkPaid(fines, id, d1, ref1), id, d2, ref2) == MarkPaid(fines, id, d2, ref2)
  {
    var once := MarkPaid(fines, id, d1, ref1);
    var twice := MarkPaid(once, id, d2, ref2);
    var direct := MarkPaid(fines, id, d2, ref2);
    forall k | 0 <= k < |fines| ensures twice[k] == direct[k] {
      assert once[k].id == fines[k].id;
    }
  }

  /** Paying keeps the FINE table well formed: ids and loans are untouched. */
  lemma MarkPaidWellFormed(fines: seq<Fine>, id: FineId, today: Day, reference: Option<string>, next: nat)
    requires FinesWellFormed(fines, next)
    ensures FinesWellFormed(MarkPaid(fines, id, today, reference), next)
  {
    var r := MarkPaid(fines, id, today, reference);
    assert forall k :: 0 <= k < |fines| ==> r[k].id == fines[k].id && r[k].issue == fines[k].issue;
  }

  /** A paid fine still counts as the loan's fine: paying never lets the
      nightly job charge the same loan again. */
  lemma {:induction false} PaymentKeepsSelection(loans: seq<Loan>, fines: seq<Fine>, issuers: map<Uid, Option<int>>,
                                                 today: Day, id: FineId, paidOn: Day, reference: Option<string>)
    ensures SelectOverdue(loans, MarkPaid(fines, id, paidOn, reference), issuers, today)
         == SelectOverdue(loans, fines, issuers, today)
  {
    if loans != [] {
      MarkPaidKeepsFinedLoans(fines, id, paidOn, reference, loans[0].id);
      PaymentKeepsSelection(loans[1..], fines, issuers, today, id, paidOn, reference);
    }
  }

  lemma MarkPaidKeepsFinedLoans(fines: seq<Fine>, id: FineId, paidOn: Day, reference: Option<string>, issue: LoanId)
    ensures HasFine(MarkPaid(fines, id, paidOn, reference), issue) == HasFine(fines, issue)
  {
    var paid := MarkPaid(fines, id, paidOn, reference);
    if HasFine(fines, issue) {
      var f :| f in fines && f.issue == issue;
      var k :| 0 <= k < |fines| && fines[k] == f;
      assert paid[k] in paid;
    }
    if HasFine(paid, issue) {
      var f :| f in paid && f.issue == issue;
      var k :| 0 <= k < |paid| && paid[k] == f;
      assert fines[k] in fines;
    }
  }

  datatype FineError = FineNotFound

  /** payFine: the UPDATE ... RETURNING, and "Fine not found" when it matched no row. */
  method PayFine(db: Database, id: FineId, today: Day, reference: Option<string>)
    returns (r: Result<FineView, FineError>)
    requires db.Valid()
    modifies db`fines
    ensures db.Valid()
    ensures old(FindFine(db.fines, id)).None? ==> r == Failure(FineNotFound) && db.fines == old(db.fines)
    ensures old(FindFine(db.fines, id)).Some? ==>
      && db.fines == MarkPaid(old(db.fines), id, today, reference)
      && r.Success?
      && r.value == View(old(FindFine(db.fines, id)).value.(paid := true, paidDate := Some(today), sbiDtu := reference))
      && r.value.status == Paid
  {
    var existing := FindFine(db.fines, id);
    if existing.None? {
      return Failure(FineNotFound);
    }
    MarkPaidWellFormed(db.fines, id, today, reference, db.nextFine);
    db.fines := MarkPaid(db.fines, id, today, reference);
    var updated := existing.value.(paid := true, paidDate := Some(today), sbiDtu := reference);
    r := Success(View(updated));
  }

  // ------------------------------------------------------------ listings

  /** The fine's loan belongs to the borrower (the JOIN ISSUES ... WHERE i.uid). */
  predicate OwnedBy(f: Fine, loans: seq<Loan>, uid: Uid) {
    exists l :: l in loans && l.id == f.issue && l.uid == uid
  }

  /** getFinesByUser: the fines whose loan belongs to the borrower, in table order. */
  function FinesByUser(fines: seq<Fine>, loans: seq<Loan>, uid: Uid): (r: seq<Fine>)
    ensures forall f :: f in r <==> f in fines && OwnedBy(f, loans, uid)
    ensures |r| <= |fines|
  {
    if fines == [] then []
    else (if OwnedBy(fines[0], loans, uid) then [fines[0]] else []) + FinesByUser(fines[1..], loans, uid)
  }

  /** With loan ids unique, the borrowers' fine lists do not overlap. */
  lemma FinesByUserDisjoint(fines: seq<Fine>, loans: seq<Loan>, u1: Uid, u2: Uid)
    requires LoanIdsIncreasing(loans) && u1 != u2
    ensures forall f :: f in FinesByUser(fines, loans, u1) ==> f !in FinesByUser(fines, loans, u2)
  {
    forall f | f in FinesByUser(fines, loans, u1) ensures !OwnedBy(f, loans, u2) {
      var l1 :| l1 in loans && l1.id == f.issue && l1.uid == u1;
      var i :| 0 <= i < |loans| && loans[i] == l1;
      forall l2 | l2 in loans && l2.id == f.issue ensures l2.uid == u1 {
        var j :| 0 <= j < |loans| && loans[j] == l2;
        assert i == j;
      }
    }
  }

  /** getFineDetails: the fine with its borrower, or "Fine not found" when the
      id names no fine or its loan is missing (the inner JOIN drops it). */
  function FineDetails(fines: seq<Fine>, loans: seq<Loan>, id: FineId): (r: Result<(FineView, Uid), FineError>)
    ensures r.Failure? <==>
      FindFine(fines, id).None? || forall l :: l in loans ==> l.id != FindFine(fines, id).value.issue
    ensures r.Success? ==>
      && r.value.0.id == id
      && exists l :: l in loans && l.id == FindFine(fines, id).value.issue && l.uid == r.value.1
  {
    match FindFine(fines, id)
    case None => Failure(FineNotFound)
    case Some(f) =>
      match FindLoan(loans, f.issue)
      case None => Failure(FineNotFound)
      case Some(l) => Success((View(f), l.uid))
  }

  function FindLoan(loans: seq<Loan>, id: LoanId): (r: Option<Loan>)
    ensures r.None? <==> forall l :: l in loans ==> l.id != id
    ensures r.Some? ==> r.value in loans && r.value.id == id
  {
    if loans == [] then None
    else if loans[0].id == id then Some(loans[0])
    else FindLoan(loans[1..], id)
  }
}
