# Library circulation engine — a Dafny model

This project models the server-side circulation engine of the DBMS-OPAC
library system. The engine is a set of read-check-write transactions over
four tables:

- BOOKS: physical copies, each AVAILABLE or ISSUED and owned by one (isbn, library) pair.
- ISSUES: loans.
- RESERVATIONS: holds, RESERVED or WAITLISTED.
- FINE: overdue charges.

The database is the class `Tables.Database`. It has one `seq` field per
table, the borrowers' penalty rates, and the SERIAL counters. Each
`sql.begin` block of the source is one method on that object, and the
method changes only the tables it names in `modifies`. A thrown error rolls
the transaction back, so on failure the method ends in the state it
started from. Every method is specified against pure functions: `QueueAfter`,
`NewReservation`, `ClaimHold`, `IssueOutcome`, `SelectOverdue`,
`AccruedFines` and `MarkPaid`. The lemmas beside them prove what the source
promises:

- the slot bound (no pair has more RESERVED holds than AVAILABLE copies) is
  kept by every operation;
- the queue is first-come-first-served;
- a copy never has two open loans;
- a loan gets at most one fine, and a second run of the fine job inserts nothing;
- paying a fine touches only that fine and is idempotent.

Modelling choices:

- Dates are whole day numbers. `getExpirationDate(d)` is `today + d`
  (`Reservations.ExpirationDate`).
- `reserved_at` is the creation sequence number. The table is kept in
  creation order, so `ORDER BY reserved_at` is table order.
- Money is in hundredths, so the default rate of 2.0 per day is `200`.
- The FINE row's reason, meant to read `'Overdue by N days'`, is modelled by the
  number N (`Fine.daysLate`). How the source actually builds that text is
  discussed under `FineJob.RunFineJob` in "Left out".

## Model

| member | source | states |
|---|---|---|
| Tables.FindBook | server/controllers/issues.js:109-117 | None exactly when no copy has the id; otherwise a copy with that id, and with unique ids the only one |
| Tables.SetBookStatus | server/controllers/issues.js:186-190 | only rows with the id get the new status; every other copy is unchanged |
| Tables.CountAfterIssueStatus | server/controllers/issues.js:151-158 | the count of AVAILABLE copies after marking the copy ISSUED equals the guard's "available copies other than this one" |
| Tables.CountExceptSelf | server/controllers/issues.js:151-158 | excluding an AVAILABLE copy of the pair lowers the count by exactly one |
| Tables.CountAvailable | server/controllers/reservations.js:43-50 | the number of AVAILABLE copies of the pair, never more than the number of copies |
| Tables.CountAvailablePositive | server/controllers/reservations.js:43-50 | the count is positive exactly when the pair has an AVAILABLE copy |
| Tables.CountAvailableExcept | server/controllers/issues.js:151-158 | the guard's count of the pair's other AVAILABLE copies never exceeds the full AVAILABLE count |
| Tables.CountPair | server/controllers/issues.js:161-166 | the guard's count of all reservations of the pair, never more than the table's rows |
| Tables.CountStatusPositive | server/controllers/reservations.js:53-59 | the count of the pair's reservations with a status is positive exactly when such a reservation exists |
| Tables.FindHolding | server/controllers/reservations.js:30-40 | None exactly when the borrower holds no reservation for the pair; otherwise one of theirs for that pair |
| Tables.FindReservation | server/controllers/reservations.js:219-230 | None exactly when no reservation has the id; otherwise the row with that id |
| Tables.Delete | server/controllers/reservations.js:233-236 | a row survives the DELETE exactly when it does not match the WHERE clause |
| Tables.DeleteByIdRemovesRow | server/controllers/reservations.js:233-236 | deleting by a row's id removes exactly that row and keeps the order of the rest |
| Tables.DeleteByIdCounts | server/controllers/reservations.js:233-236 | that delete lowers only the deleted row's pair and status count, by one |
| Tables.DeleteWellFormed | server/controllers/reservations.js:289-293 | a delete keeps ids and creation order increasing and holders unique |
| Tables.DeleteKeepsSlotBound | server/controllers/reservations.js:289-293 | deleting reservations never breaks the slot bound |
| Reservations.ExpirationDate | server/controllers/reservations.js:4-9 | the expiry day is never before today |
| Reservations.HoldLastsExpirationDays | server/controllers/reservations.js:4-9 | a hold given today with the 7-day expiry is valid through day today + 7 and expired from the day after, as the end-of-day clamp makes it |
| Reservations.Promote | server/controllers/reservations.js:173-199 | the reference promotion keeps the number of rows; what it changes is stated by the next rows |
| Reservations.PromoteShape | server/controllers/reservations.js:189-199 | each row keeps its id, holder, pair and place, and is either unchanged or a WAITLISTED row of the pair now RESERVED until the expiry |
| Reservations.MarkReserved | server/controllers/reservations.js:194-199 | the UPDATE keeps the number of rows |
| Reservations.MarkReservedPromotesListed | server/controllers/reservations.js:194-199 | exactly the rows whose id is listed become RESERVED until the expiry; every other row is unchanged |
| Reservations.OldestWaitlisted | server/controllers/reservations.js:173-181 | at most `availableSlots` ids, each of a WAITLISTED row of the pair |
| Reservations.SelectThenUpdateIsPromote | server/controllers/reservations.js:173-199 | the SELECT ... LIMIT followed by the UPDATE ... ANY(ids) promotes the first n waitlisted rows of the pair in reserved_at order |
| Reservations.PromoteCounts | server/controllers/reservations.js:189-199 | min(n, #WAITLISTED) rows of the pair move from WAITLISTED to RESERVED; other pairs and row counts are unchanged |
| Reservations.PromoteInOrder | server/controllers/reservations.js:173-181 | every promoted row comes before every row of the pair left WAITLISTED |
| Reservations.QueueAfter | server/controllers/reservations.js:145-202 | updateQueue keeps every row in place; each is unchanged or a WAITLISTED row of the pair promoted to RESERVED until today + 7 |
| Reservations.QueueFillsFreeSlots | server/controllers/reservations.js:165-186 | with `available - active <= 0` nothing changes; otherwise exactly min(slots, #WAITLISTED) are promoted and RESERVED never exceeds AVAILABLE |
| Reservations.QueueOnlyPromotes | server/controllers/reservations.js:189-199 | each row is unchanged or is a WAITLISTED row of the pair now RESERVED until today + 7; ids, holders and order are unchanged |
| Reservations.QueueIsFifo | server/controllers/reservations.js:173-181 | every promoted reservation has an earlier reserved_at than every reservation of the pair still WAITLISTED |
| Reservations.QueueKeepsSlotBound | server/controllers/reservations.js:145-202 | updateQueue keeps the slot bound for every pair |
| Reservations.QueueIdempotent | server/controllers/reservations.js:165-186 | running updateQueue again the same day changes nothing |
| Reservations.QueueKeepsReservationCount | server/controllers/reservations.js:194-199 | updateQueue adds and removes no reservation |
| Reservations.QueueWellFormed | server/controllers/reservations.js:194-199 | updateQueue keeps the table well formed |
| Reservations.UpdateQueue | server/controllers/reservations.js:145-202 | the new table is `QueueAfter` of the old one; the database stays well formed |
| Reservations.NewReservation | server/controllers/reservations.js:62-77 | the new row is RESERVED with expiry today + 7 exactly when AVAILABLE > RESERVED for the pair; otherwise WAITLISTED with no expiry |
| Reservations.NewReservationKeepsSlotBound | server/controllers/reservations.js:43-71 | inserting that row keeps the slot bound |
| Reservations.NewReservationWellFormed | server/controllers/reservations.js:74-77 | inserting it for a borrower without a hold keeps holders unique and ids increasing |
| Reservations.CreateReservation | server/controllers/reservations.js:27-85 | EXISTS and no change when the borrower already holds one; otherwise `Created(status)` and exactly the new row appended; the slot bound is kept |
| Reservations.AfterCancel | server/controllers/reservations.js:233-243 | no row with the cancelled id remains, and every other row that is not waiting in the pair survives unchanged |
| Reservations.CancelKeepsSlotBound | server/controllers/reservations.js:233-243 | cancelling keeps the slot bound |
| Reservations.CancelWaitlistedRemovesOnlyIt | server/controllers/reservations.js:240-243 | cancelling a WAITLISTED entry removes exactly its row and promotes nobody |
| Reservations.CancelReservation | server/controllers/reservations.js:217-244 | "Reservation not found" with no change for an unknown id; otherwise the row is deleted and the queue re-run only if it was RESERVED; the slot bound is kept |
| Reservations.ExpiredPairs | server/controllers/reservations.js:272-277 | a distinct list of exactly the pairs that have an expired RESERVED row |
| Reservations.QueueEach | server/controllers/reservations.js:298-300 | the queue runs keep ids, holders, pairs and order; a row is unchanged or has moved from WAITLISTED to RESERVED |
| Reservations.QueueEachNoneExpired | server/controllers/reservations.js:298-300 | re-running queues never creates an expired hold |
| Reservations.NoExpiredPairs | server/controllers/reservations.js:280-283 | when no pair is selected, no expired hold exists |
| Reservations.PurgeThenQueue | server/controllers/reservations.js:289-300 | after the delete and the re-runs no hold has expired, and the slot bound is kept |
| Reservations.UpdateQueues | server/controllers/reservations.js:298-300 | the loop runs updateQueue once for each selected pair, in order |
| Reservations.CleanupExpiredReservations | server/controllers/reservations.js:265-309 | no change when nothing expired; otherwise the delete followed by one queue run per distinct pair; afterwards no expired hold is left and the slot bound is kept |
| Issues.ClaimHold | server/controllers/issues.js:126-148 | consuming a RESERVED hold leaves the pair with exactly one reservation fewer; without one the count is unchanged |
| Issues.ConsumedHoldLeavesPair | server/controllers/issues.js:141-147 | deleting a hold and re-running its pair's queue removes exactly one reservation of the pair |
| Issues.IssueOutcome | server/controllers/issues.js:109-171 | "Book not found" exactly for an unknown copy; "Book is already issued" for an ISSUED copy; the waitlist refusal for a WAITLISTED borrower; a RESERVED holder either passes or is refused by the claimed-copies guard; a walk-in passes exactly when the other AVAILABLE copies cover every reservation of the pair, and is otherwise refused by that guard |
| Issues.WalkInServedIffUnclaimedCopy | server/controllers/issues.js:149-171 | a walk-in is served exactly when the pair has more AVAILABLE copies than reservations of either status, and is otherwise refused as "all copies reserved" |
| Issues.NewLoan | server/controllers/issues.js:174-183 | the inserted loan is open, for this copy, library and borrower, issued today and due ISSUE_PERIOD (30) days later |
| Issues.IssueKeepsSlotBound | server/controllers/issues.js:151-190 | a committed issue leaves RESERVED <= AVAILABLE for every pair |
| Issues.IssueKeepsLoansAgree | server/controllers/issues.js:180-190 | issuing an AVAILABLE copy keeps at most one open loan per copy and none for AVAILABLE copies |
| Issues.ConsumeHold | server/controllers/issues.js:134-147 | a RESERVED holder's row is deleted and the queue re-run while the copy is still AVAILABLE |
| Issues.IssueCopy | server/controllers/issues.js:174-190 | one loan due today + 30 is appended and only this copy becomes ISSUED |
| Issues.CreateIssue | server/controllers/issues.js:107-191 | outcome is `IssueOutcome`: "Book not found", "Book is already issued", WAITLISTED holder refused, claimed-copies guard; any failure leaves every table unchanged (rollback); success has the ordered effects above and keeps the slot bound and one open loan per copy |
| Issues.HolderRefusedWhenOversubscribed | server/controllers/issues.js:151-171 | as written, a RESERVED holder of an AVAILABLE copy is refused exactly when the pair has more reservations of any status than AVAILABLE copies |
| Issues.HolderRefusedExample | server/controllers/issues.js:151-171 | two AVAILABLE copies, A and B RESERVED, C WAITLISTED: issuing to A fails although the slot bound holds |
| Issues.IntendedIssueOutcome | server/controllers/issues.js:134-171 | intended decision: a RESERVED holder of an AVAILABLE copy is always served and a WAITLISTED one refused |
| Issues.HolderLeavesSlot | server/controllers/issues.js:134-147 | issuing a copy to a RESERVED holder of its pair, whose row is deleted, keeps every pair's RESERVED count within its AVAILABLE count |
| Issues.HolderIssueKeepsSlotBound | server/controllers/issues.js:134-147 | the intended issue to a RESERVED holder (copy ISSUED, hold deleted, queue re-run) keeps the slot bound |
| Issues.WalkInLeavesSlot | server/controllers/issues.js:149-171 | issuing to a walk-in whom the guard lets through keeps each pair's RESERVED count within its AVAILABLE count |
| Issues.IntendedIssueKeepsSlotBound | server/controllers/issues.js:134-171 | the intended issue (holder's row deleted, queue re-run after the copy is ISSUED) keeps the slot bound |
| Issues.ReturnOutcome | server/controllers/issues.js:238-244 | "Book not found" exactly for an unknown copy; success exactly for an ISSUED copy; "Book is not currently issued" exactly for an AVAILABLE copy |
| Issues.CloseLoans | server/controllers/issues.js:258-262 | every loan of the copy becomes RETURNED; other loans are unchanged |
| Issues.CloseLoansCounts | server/controllers/issues.js:258-262 | the copy has no open loan afterwards; other copies keep theirs |
| Issues.ReturnKeepsSlotBound | server/controllers/issues.js:249-265 | returning then re-running the queue keeps the slot bound |
| Issues.ReturnKeepsLoansAgree | server/controllers/issues.js:249-262 | returning keeps at most one open loan per copy and none for AVAILABLE copies |
| Issues.Reshelve | server/controllers/issues.js:249-262 | the copy becomes AVAILABLE and its loans RETURNED |
| Issues.ReturnBook | server/controllers/issues.js:227-266 | errors leave everything unchanged; success sets the copy AVAILABLE, closes its loans, then runs updateQueue with the copy counted; the slot bound and one open loan per copy are kept |
| Issues.ActiveIssuesByUid | server/controllers/issues.js:29-30 | exactly the borrower's open loans |
| Issues.PastIssuesByUid | server/controllers/issues.js:75-76 | exactly the borrower's returned loans |
| Issues.ReturnMovesLoansToPast | server/controllers/issues.js:258-262 | after a return the copy is in nobody's active list, and its loans are in their borrowers' past lists |
| FineJob.SelectOverdue | server/utils/fineCronJob.js:11-19 | exactly the loans past due, with an ISSUER_DETAILS row and no fine, each once with its borrower's rate; loan status is not examined |
| FineJob.DaysLate | server/utils/fineCronJob.js:29-30 | never 0; equals today - due, at least 1, for every past-due loan |
| FineJob.FineAmount | server/utils/fineCronJob.js:31 | rate x daysLate, with 2.00 when the rate is NULL or zero |
| FineJob.Accrue | server/utils/fineCronJob.js:29-36 | the inserted fine belongs to the loan, is unpaid with no paid date or reference, is late by today - due days, and is positive for a past-due loan at a non-negative rate |
| FineJob.AccruedFines | server/utils/fineCronJob.js:28-36 | one row per selected loan, in order, numbered from the next SERIAL value |
| FineJob.AccruedFinesAreOverdueCharges | server/utils/fineCronJob.js:28-36 | each inserted fine is unpaid, has no paid date, belongs to a loan of the table, is at least one day late and priced at the borrower's rate |
| FineJob.AccrualKeepsOneFinePerLoan | server/utils/fineCronJob.js:16-18 | after a run each loan still has at most one fine and fine ids still increase |
| FineJob.NothingQualifiesSelectsNothing | server/utils/fineCronJob.js:21-24 | when no loan qualifies the selection is empty |
| FineJob.RerunSelectsNothing | server/utils/fineCronJob.js:16-18 | a second run on the same day selects nothing |
| FineJob.InsertFines | server/utils/fineCronJob.js:28-36 | the loop appends exactly `AccruedFines` of the selection |
| FineJob.RunFineJob | server/utils/fineCronJob.js:11-43 | the table grows by exactly the accrued fines of the selection, and not at all when nothing qualifies; the database stays well formed |
| FineJob.ReturnedLoanFinedExample | server/utils/fineCronJob.js:11-19 | as written, a loan returned before its due date is fined 2.00 the day after it |
| FineJob.OpenOnly | server/utils/fineCronJob.js:11-19 | keeps exactly the selected rows whose loan is open |
| FineJob.IntendedRunSkipsReturnedLoans | server/utils/fineCronJob.js:11-19 | with the status filter, every fine is for an open loan, and every qualifying open loan is fined |
| Fines.StatusOf | server/controllers/fines.js:13 | 'PAID' exactly when paid_status, else 'UNPAID' |
| Fines.FindFine | server/controllers/fines.js:85 | None exactly when no fine has the id; otherwise the first row with it |
| Fines.MarkPaid | server/controllers/fines.js:80-85 | rows with the id get paid, today's paid_date and the reference; every other row is unchanged |
| Fines.PayTouchesOnlyThatFine | server/controllers/fines.js:80-89 | the paid fine is PAID on today's date with amount, loan and reason unchanged; other fines are untouched |
| Fines.PayTwice | server/controllers/fines.js:80-85 | paying twice equals paying once with the later date: the flag stays set and only paid_date (and reference) move |
| Fines.MarkPaidWellFormed | server/controllers/fines.js:80-85 | paying keeps fine ids and their loans, so one fine per loan still holds |
| Fines.MarkPaidKeepsFinedLoans | server/controllers/fines.js:80-85 | a loan has a fine after a payment exactly when it had one before |
| Fines.PaymentKeepsSelection | server/utils/fineCronJob.js:16-18 | paying a fine never makes the nightly job select its loan again |
| Fines.PayFine | server/controllers/fines.js:73-103 | "Fine not found" with no change for an unknown id; otherwise exactly `MarkPaid` and the returned row reads PAID |
| Fines.FinesByUser | server/controllers/fines.js:22-26 | exactly the fines whose loan belongs to the borrower |
| Fines.FinesByUserDisjoint | server/controllers/fines.js:22-26 | two borrowers' fine lists never share a fine |
| Fines.FineDetails | server/controllers/fines.js:42-64 | "Fine not found" exactly when the id names no fine or its loan is missing; otherwise the fine with its borrower |
| Fines.FindLoan | server/controllers/fines.js:56 | None exactly when no loan has the id; otherwise a loan with it |

## Left out

- HTTP plumbing: `req`/`res`, status codes, the 400 answers for missing fields, and the mapping from error-message substrings to status codes. Errors are result datatypes instead.
- Database connection, schema and seed scripts (server/db/dbconn.js, server/db/initdb.js, server/db/populateDB.js). The columns the controllers use are taken as given: BOOKS.isbn_id and library_id, ISSUES.status, FINE.sbi_dtu.
- FineJob.RunFineJob: assumes that every INSERT succeeds and stores N in the reason. In the source, `${daysLate}` stands inside the quoted literal at server/utils/fineCronJob.js:35. A driver that turns every template interpolation into a bound parameter leaves the text as `'Overdue by $3 days'`, with parameter $3 used nowhere else. A server that cannot infer that parameter's type rejects the statement. The catch at server/utils/fineCronJob.js:46-48 would then end every run with something to fine before any fine is stored. The database driver is not part of this model, so that outcome is not modelled.
- Unqualified column references, read by their evident intent:
  - The available-copies count at server/controllers/reservations.js:43-50 joins BOOKS with CATALOG. Its bare `isbn_id`, `library_id` and `status` may name either table's column. `Tables.CountAvailable` counts BOOKS rows of the pair.
  - The loan listings at server/controllers/issues.js:15-31 and server/controllers/issues.js:61-77 filter on a bare `status`, which both ISSUES and BOOKS carry.
  - They also join ISBN on a `book_id` that the ISBN table of server/db/initdb.js does not declare.
  - `Issues.ActiveIssuesByUid` and `Issues.PastIssuesByUid` read `status` as the loan's status and leave out the joins, which only add display columns.
- Column type limits. The schema's `DECIMAL(4,2)` amount would make the database reject large fines; amounts here are unbounded integers, and database errors are not modelled. So the fine job's loop cannot stop half way, as a failing INSERT would stop it in the source.
- Transaction isolation and concurrency. Each `sql.begin` block is one atomic step.
- The node-cron scheduler and the logging. `RunFineJob` is one invocation of the callback, and `CleanupExpiredReservations` one run of the sweep.
- Wall-clock time and floating point. Dates are whole days, `today`/`now` are parameters, and money is integer hundredths. The 23:59:59.999 clamp of `getExpirationDate` is dropped; with it, a hold that expires on day D is past `NOW()` from day D + 1, which `expiresAt < now` states.
- FineJob.DaysLate: the source's `Math.floor(ms / day) || 1` also maps NaN to 1; with whole-day dates that case does not arise.
- The display columns of the JOINs: titles, library names, book ids in fine listings. The listings return the rows they filter.
- The `ORDER BY issued_on DESC` of the issue listings and their 404 on an empty result. The listings keep table order.
- The order of `SELECT DISTINCT` in the expiry sweep, which SQL leaves unspecified. `Reservations.ExpiredPairs` lists each pair at its last occurrence in table order. Any order gives the same slot-bound and no-expired-hold results.
- Notifications, e-mail, authentication, catalog search, and the read-only listings that are only joins (`getReservationsByUid` and the counters).

## Findings

| source | as written | input that shows it | evidently intended | confidence | as-written member | corrected member |
|---|---|---|---|---|---|---|
| server/controllers/issues.js:151-171 | the claimed-copies guard has no `else`, so it also runs after a RESERVED holder's hold is consumed, and it compares against all reservations of the pair, of either status | two AVAILABLE copies; A and B RESERVED, C WAITLISTED; issue copy 1 to A: A's row is deleted, C is promoted, and the guard sees 1 other available copy < 2 reservations, so it throws "All copies of this book are reserved." | the holder's RESERVED hold is what entitles them to the copy: serve them, then re-run the queue once the copy is ISSUED; keep the guard for walk-ins | high, not executed | Issues.HolderRefusedWhenOversubscribed, Issues.HolderRefusedExample | Issues.IntendedIssueOutcome, Issues.IntendedIssueKeepsSlotBound |
| server/utils/fineCronJob.js:11-19 | the overdue selection does not look at the loan's status | a loan due on day 30, returned on day 20; the run on day 31 inserts a fine of 2.00 for one day late | only loans still on loan accrue fines (returns are closed before the nightly run, so late returns were already fined while open) | high, not executed | FineJob.ReturnedLoanFinedExample | FineJob.IntendedRunSkipsReturnedLoans |
