/** One run of the nightly fine job (server/utils/fineCronJob.js). */
module FineJob {
  import opened Tables

  /** The default penalty of 2.0 per day, in hundredths. */
  const DefaultPenaltyRate: int := 200

  /** A row of the overdue selection: the loan and its borrower's penalty_rate. */
  datatype OverdueIssue = OverdueIssue(loan: Loan, penaltyRate: Option<int>)

  /** The fine table already holds a row for the loan. */
  predicate HasFine(fines: seq<Fine>, issue: LoanId) {
    exists f :: f in fines && f.issue == issue
  }

  /** The WHERE and JOIN of the selection: past due, borrower has an
      ISSUER_DETAILS row, and no fine yet. The loan's status is not looked at. */
  predicate Qualifies(l: Loan, fines: seq<Fine>, issuers: map<Uid, Option<int>>, today: Day) {
    l.dueDate < today && l.uid in issuers && !HasFine(fines, l.id)
  }

  /** The selection, in table order. */
  function SelectOverdue(loans: seq<Loan>, fines: seq<Fine>, issuers: map<Uid, Option<int>>, today: Day)
    : (sel: seq<OverdueIssue>)
    ensures forall o :: o in sel <==>
      o.loan in loans && Qualifies(o.loan, fines, issuers, today) && o.penaltyRate == issuers[o.loan.uid]
    ensures LoanIdsIncreasing(loans) ==> forall i, j :: 0 <= i < j < |sel| ==> sel[i].loan.id < sel[j].loan.id
  {
    if loans == [] then []
    else
      var rest := SelectOverdue(loans[1..], fines, issuers, today);
      assert LoanIdsIncreasing(loans) ==> LoanIdsIncreasing(loans[1..]);
      assert LoanIdsIncreasing(loans) ==> forall o :: o in rest ==> loans[0].id < o.loan.id;
      if Qualifies(loans[0], fines, issuers, today)
      then [OverdueIssue(loans[0], issuers[loans[0].uid])] + rest
      else rest
  }

  /** Whole days since the due date, 1 when that is 0. */
  function DaysLate(today: Day, dueDate: Day): (d: int)
    ensures d != 0
    ensures dueDate < today ==> d == today - dueDate && d >= 1
  {
    var days := today - dueDate;
    if days == 0 then 1 else days
  }

  /** penalty_rate times daysLate, where a NULL or zero rate means the default. */
  function FineAmount(rate: Option<int>, daysLate: int): (amount: int)
    ensures rate.None? || rate == Some(0) ==> amount == DefaultPenaltyRate * daysLate
    ensures rate.Some? && rate.value != 0 ==> amount == rate.value * daysLate
  {
    var perDay := if rate.Some? && rate.value != 0 then rate.value else DefaultPenaltyRate;
    perDay * daysLate
  }

  /** The FINE row inserted for a selected loan: unpaid, with no paid date. */
  function Accrue(o: OverdueIssue, id: FineId, today: Day): (f: Fine)
    ensures f.id == id && f.issue == o.loan.id
    ensures !f.paid && f.paidDate.None? && f.sbiDtu.None?
    ensures o.loan.dueDate < today ==> f.daysLate == today - o.loan.dueDate
    ensures o.loan.dueDate < today && (o.penaltyRate.None? || o.penaltyRate.value >= 0) ==> f.amount > 0
  {
    var daysLate := DaysLate(today, o.loan.dueDate);
    Fine(id, o.loan.id, FineAmount(o.penaltyRate, daysLate), false, None, daysLate, None)
  }

  /** The rows the loop inserts, in order, numbered from firstId. */
  function AccruedFines(sel: seq<OverdueIssue>, firstId: FineId, today: Day): (r: seq<Fine>)
    ensures |r| == |sel|
    ensures forall k :: 0 <= k < |sel| ==> r[k] == Accrue(sel[k], firstId + k, today)
  {
    if sel == [] then []
    else [Accrue(sel[0], firstId, today)] + AccruedFines(sel[1..], firstId + 1, today)
  }

  /** Every inserted fine is an unpaid charge for a loan of the table that was
      past due, at least one day late, priced at the borrower's rate. */
  lemma AccruedFinesAreOverdueCharges(loans: seq<Loan>, fines: seq<Fine>, issuers: map<Uid, Option<int>>,
                                      today: Day, next: FineId)
    ensures var sel := SelectOverdue(loans, fines, issuers, today);
      var acc := AccruedFines(sel, next, today);
      forall k :: 0 <= k < |acc| ==>
        && sel[k].loan in loans && acc[k].issue == sel[k].loan.id
        && acc[k].daysLate == today - sel[k].loan.dueDate >= 1
        && acc[k].amount == FineAmount(issuers[sel[k].loan.uid], acc[k].daysLate)
        && !acc[k].paid && acc[k].paidDate.None?
  {
    var sel := SelectOverdue(loans, fines, issuers, today);
    forall k | 0 <= k < |sel| ensures sel[k].loan in loans && sel[k].loan.dueDate < today {
      assert sel[k] in sel;
    }
  }

  /** After a run each loan still has at most one fine: the selection skips
      loans that already have one and names each loan once. */
  lemma AccrualKeepsOneFinePerLoan(loans: seq<Loan>, fines: seq<Fine>, issuers: map<Uid, Option<int>>,
                                   today: Day, next: FineId)
    requires FinesWellFormed(fines, next) && LoanIdsIncreasing(loans)
    ensures var sel := SelectOverdue(loans, fines, issuers, today);
      FinesWellFormed(fines + AccruedFines(sel, next, today), next + |sel|)
  {
    var sel := SelectOverdue(loans, fines, issuers, today);
    var acc := AccruedFines(sel, next, today);
    var all := fines + acc;
    forall k | 0 <= k < |acc| ensures !HasFine(fines, acc[k].issue) {
      assert sel[k] in sel;
    }
    forall i, j | 0 <= i < j < |all| ensures all[i].issue != all[j].issue {
      if j >= |fines| {
        if i >= |fines| {
          assert sel[i - |fines|].loan.id < sel[j - |fines|].loan.id;
        } else {
          assert all[i] in fines;
        }
      }
    }
  }

  /** When no loan qualifies the selection is empty, so the run inserts nothing. */
  lemma NothingQualifiesSelectsNothing(loans: seq<Loan>, fines: seq<Fine>, issuers: map<Uid, Option<int>>, today: Day)
    requires forall l :: l in loans ==> !Qualifies(l, fines, issuers, today)
    ensures SelectOverdue(loans, fines, issuers, today) == []
  {
  }

  /** A second run the same day selects nothing. */
  lemma RerunSelectsNothing(loans: seq<Loan>, fines: seq<Fine>, issuers: map<Uid, Option<int>>,
                            today: Day, next: FineId)
    ensures var sel := SelectOverdue(loans, fines, issuers, today);
      SelectOverdue(loans, fines + AccruedFines(sel, next, today), issuers, today) == []
  {
    var sel := SelectOverdue(loans, fines, issuers, today);
    var acc := AccruedFines(sel, next, today);
    var again := SelectOverdue(loans, fines + acc, issuers, today);
    forall l | l in loans && Qualifies(l, fines, issuers, today) ensures HasFine(fines + acc, l.id) {
      var o := OverdueIssue(l, issuers[l.uid]);
      assert o in sel;
      var k :| 0 <= k < |sel| && sel[k] == o;
      assert acc[k] in fines + acc;
    }
    forall id: LoanId | HasFine(fines, id) ensures HasFine(fines + acc, id) {
      var f :| f in fines && f.issue == id;
      assert f in fines + acc;
    }
    NothingQualifiesSelectsNothing(loans, fines + acc, issuers, today);
  }

  /** The loop of the callback: one INSERT per selected row. */
  method InsertFines(db: Database, overdueIssues: seq<OverdueIssue>, today: Day)
    modifies db`fines, db`nextFine
    ensures db.fines == old(db.fines) + AccruedFines(overdueIssues, old(db.nextFine), today)
    ensures db.nextFine == old(db.nextFine) + |overdueIssues|
  {
    ghost var fines0, next0 := db.fines, db.nextFine;
    var i := 0;
    while i < |overdueIssues|
      invariant 0 <= i <= |overdueIssues|
      invariant db.fines == fines0 + AccruedFines(overdueIssues[..i], next0, today)
      invariant db.nextFine == next0 + i
    {
      var issue := overdueIssues[i];
      var daysLate := DaysLate(today, issue.loan.dueDate);
      var fineAmount := FineAmount(issue.penaltyRate, daysLate);
      var fine := Fine(db.nextFine, issue.loan.id, fineAmount, false, None, daysLate, None);
      assert fine == Accrue(overdueIssues[i], next0 + i, today);
      assert AccruedFines(overdueIssues[..i + 1], next0, today)
          == AccruedFines(overdueIssues[..i], next0, today) + [fine];
      db.fines := db.fines + [fine];
      db.nextFine := db.nextFine + 1;
      i := i + 1;
    }
    assert overdueIssues[..i] == overdueIssues;
  }

  /** One invocation of the scheduled callback. */
  method RunFineJob(db: Database, today: Day)
    requires db.Valid()
    modifies db`fines, db`nextFine
    ensures db.Valid()
    ensures var sel := SelectOverdue(db.loans, old(db.fines), db.issuerDetails, today);
      && db.fines == old(db.fines) + AccruedFines(sel, old(db.nextFine), today)
      && db.nextFine == old(db.nextFine) + |sel|
  {
    var overdueIssues := SelectOverdue(db.loans, db.fines, db.issuerDetails, today);
    AccrualKeepsOneFinePerLoan(db.loans, db.fines, db.issuerDetails, today, db.nextFine);
    if |overdueIssues| == 0 {
      return;
    }
    InsertFines(db, overdueIssues, today);
  }

  // ------------------------------------------------------------ returned loans

  /** As written, a loan returned on time is still fined once its due date
      has passed: the selection does not look at the loan's status. */
  lemma ReturnedLoanFinedExample()
    ensures var loan := Loan(0, 5, 1, 9, 0, 30, Returned);
      var sel := SelectOverdue([loan], [], map[9 := None], 31);
      AccruedFines(sel, 0, 31) == [Fine(0, 0, DefaultPenaltyRate, false, None, 1, None)]
  {
    var loan := Loan(0, 5, 1, 9, 0, 30, Returned);
    assert Qualifies(loan, [], map[9 := None], 31);
    assert SelectOverdue([loan], [], map[9 := None], 31) == [OverdueIssue(loan, None)];
  }

  /** The rows of a selection whose loan is still open. */
  function OpenOnly(sel: seq<OverdueIssue>): (r: seq<OverdueIssue>)
    ensures forall o :: o in r <==> o in sel && o.loan.status == OnLoan
  {
    if sel == [] then []
    else (if sel[0].loan.status == OnLoan then [sel[0]] else []) + OpenOnly(sel[1..])
  }

  /** Evidently intended selection: only loans still on loan accrue fines. */
  function SelectOverdueOpen(loans: seq<Loan>, fines: seq<Fine>, issuers: map<Uid, Option<int>>, today: Day)
    : seq<OverdueIssue>
  {
    OpenOnly(SelectOverdue(loans, fines, issuers, today))
  }

  /** The intended run never fines a returned loan, and fines every open loan
      the as-written run fines. */
  lemma IntendedRunSkipsReturnedLoans(loans: seq<Loan>, fines: seq<Fine>, issuers: map<Uid, Option<int>>,
                                      today: Day, next: FineId)
    ensures var sel := SelectOverdueOpen(loans, fines, issuers, today);
      var acc := AccruedFines(sel, next, today);
      && (forall f :: f in acc ==> exists l :: l in loans && l.id == f.issue && l.status == OnLoan)
      && (forall l :: l in loans && l.status == OnLoan && Qualifies(l, fines, issuers, today) ==>
            exists f :: f in acc && f.issue == l.id)
  {
    var sel := SelectOverdueOpen(loans, fines, issuers, today);
    var acc := AccruedFines(sel, next, today);
    forall f | f in acc ensures exists l :: l in loans && l.id == f.issue && l.status == OnLoan {
      var k :| 0 <= k < |acc| && acc[k] == f;
      assert sel[k] in sel;
    }
    forall l | l in loans && l.status == OnLoan && Qualifies(l, fines, issuers, today)
      ensures exists f :: f in acc && f.issue == l.id
    {
      var o := OverdueIssue(l, issuers[l.uid]);
      assert o in sel;
      var k :| 0 <= k < |sel| && sel[k] == o;
      assert acc[k] in acc;
    }
  }
}
