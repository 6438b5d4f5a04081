# Loan lifecycle of a library backend, in Dafny

This project models the loan core of a small library-management REST backend. The backend
keeps a Book table and a Loan table behind an ORM. The loan service creates loans in batches
after an availability check, returns loans in batches, patches single loans and answers two
queries. The loan controller turns path segments into integer ids, calls the service and maps
its results and errors to HTTP responses.

- `loan_store.dfy` (module `Store`): the rows (`Book`, `Loan`, `Row`, `LoanRequest`, `Patch`),
  the service's error kinds, and each ORM call the service makes as a function over the tables,
  which are finite maps from id to row. It also holds the lemmas about those functions: what
  the availability check of `create` accepts, and what the count of `returnLoans` is.
- `loan_service.dfy` (module `Service`): class `LoanService`. It has the two tables and the
  autoincrement counter for loan ids as fields. `Create`, `ReturnLoans` and `Update` are methods
  that change the tables. `FindOne` and `FindAllUserLoan` are functions that read them.
  `Valid()` says that loan ids lie in `1 .. nextId-1` and that every loan references an existing
  book (the foreign key).
- `loan_controller.dfy` (module `Controller`): the integer pipe (`ParseInt`) and its inverse,
  one pure outcome function per handler, and class `LoanController`, whose handlers parse,
  call the service and map the outcome.
- `loan_scenarios.dfy` (module `Scenarios`): call sequences of the service on small concrete
  stores. They show the behaviours below over several calls.

Each service call is modelled as one atomic step, because each runs in one transaction or is a
single statement. The current time that `returnLoans` writes is the parameter `now`. Dates are
opaque integers.

### Behaviour kept as the code has it

Some behaviours of the code differ from what a reader of the operation names would expect. The
model follows the code.

- `create` checks availability on the requested books, but then marks unavailable the books
  whose ids equal the ids of the NEW LOANS (`src/loan/loan.service.ts:28-31`). Book ids and loan
  ids come from different tables, so the requested books are marked only when the two id sets
  happen to coincide. `Scenarios.SameBookLoanedTwice` shows a book loaned twice in a row while
  it stays available. `Scenarios.LoanReturnAndReturnAgain` shows the case where the ids
  coincide.
- The service itself accepts an empty `create` list: the check passes, nothing is written and
  the answer is an empty list (`src/loan/loan.service.ts:12-33`, `Scenarios.EmptyCreate`). The
  model applies no body validation before the handlers (see "## Left out").
- `returnLoans` returns the number of BOOKS it marked available
  (`src/loan/loan.service.ts:61-64`), not the number of loans it marked returned. Loans that
  were returned before are matched again. So a second return of the same loans reports the
  same count, not 0 (`Scenarios.LoanReturnAndReturnAgain`). Two loans of one book count once
  (`Scenarios.TwoLoansOfOneBookReturned`).
- `returnLoans` accepts an empty id list, because the request body has no minimum size
  (`src/loan/dto/return-loan.dto.ts:3-6`). The count is then 0 and the controller answers 404.
- `update` does not touch book availability, and it may leave a loan marked returned with no
  return date.

## Model

| member | source | states |
|---|---|---|
| `Service.LoanService.Create` | src/loan/loan.service.ts:10-35 | Fails with NOT_FOUND exactly when the requested books are not pairwise distinct, existing and available. On failure the tables and the counter are unchanged. On success it returns one row per request in request order. Each row has a fresh id `old(nextId)+k` and carries the request's book and due date, the given user, no return date and `isReturned = false`. The loan table gains exactly those rows. Exactly the books whose ids lie in the new loan-id range become unavailable. The store invariant is kept. |
| `Service.LoanService.ReturnLoans` | src/loan/loan.service.ts:49-66 | Every existing loan named in `ids` gets `isReturned = true` and `returnDate = now`, and every other loan is unchanged. Exactly the books referenced by the named loans become available, and every other book is unchanged. The count is the number of distinct books so referenced. It is at most the number of existing loans named, and it is 0 exactly when no id names an existing loan. |
| `Service.LoanService.Update` | src/loan/loan.service.ts:45-47 | Fails with the store's record-not-found error (P2025) exactly when there is no loan with that id, and then nothing changes. Otherwise only that loan changes: it becomes the patched loan, which is returned. Books and the counter never change. |
| `Service.LoanService.UpdateManyLoansReturned` | src/loan/loan.service.ts:51-54 | The loan update marks exactly the named loans returned at `now`. The count is the number of loans matched. Books and the counter do not change. |
| `Service.LoanService.UpdateManyBooks` | src/loan/loan.service.ts:61-64 | The book update sets the availability of exactly the named books. The count it returns is the number of books matched. Loans and the counter do not change. |
| `Service.LoanService.FindOne` | src/loan/loan.service.ts:41-43 | Returns a row exactly when a loan has that id, and the row is that loan with its id. |
| `Service.LoanService.FindAllUserLoan` | src/loan/loan.service.ts:37-39 | Every row returned is a loan of the table belonging to the user. Every loan of the user is returned. Ids are strictly increasing, so there are no repeats. |
| `Store.UserLoansIn` | src/loan/loan.service.ts:38 | The user's loans with ids in a range: each one is a loan of that user in the range, each such loan appears, and ids are strictly increasing. This is proved through its recursive calls. |
| `Store.ApplyPatch` | src/loan/loan.service.ts:46 | A patched loan keeps its book and user. Each of due date, return date and returned flag takes the patch's value when the patch carries that field, and keeps its value otherwise. |
| `Store.NewLoanRows` | src/loan/loan.service.ts:24-26 | The rows the insert returns: one per request, in request order, with consecutive ids from the counter. Each carries the request's book and due date, the user, no return date and not returned. |
| `Store.NewLoanRowIds` | src/loan/loan.service.ts:29 | The ids of the inserted rows are exactly the range `firstId .. firstId+n-1`. These are the ids the following availability update filters on. |
| `Store.InsertRows` | src/loan/loan.service.ts:24-26 | Inserting rows with increasing ids, one after the other, adds exactly their ids to the table with their contents and leaves every other loan as it was. This is proved through its recursive calls. |
| `Store.CreateEffect` | src/loan/loan.service.ts:24-31 | After a successful check, the insert and the availability update together give one row per request in request order, under fresh consecutive ids from the counter. The loan table gains exactly those rows and keeps every other loan. The book table keeps its ids, and exactly the books whose ids lie in the new loan-id range become unavailable. |
| `Store.CreateKeepsInvariant` | src/loan/loan.service.ts:24-31 | A create that passed the check keeps the store invariant: loan ids stay below the advanced counter, and every new loan references an existing book. |
| `Store.ReturnKeepsInvariant` | src/loan/loan.service.ts:51-64 | A return keeps the store invariant: it changes no loan id and no book reference. |
| `Store.SetAvailability` | src/loan/loan.service.ts:28-31 | The availability update keeps the same books. Books whose id is in the filter get the new availability, with every other column kept. Every other book is unchanged. |
| `Store.IdSet` | src/loan/loan.service.ts:52 | The `in` filter built from the id list matches exactly the ids in the list. |
| `Store.MarkReturned` | src/loan/loan.service.ts:51-54 | The return update keeps the same loans. Loans whose id is in the filter become returned at `now`. Every other loan is unchanged. |
| `Store.RequestedBookIdsCount` | src/loan/loan.service.ts:14-18 | A request names at most as many distinct books as it has elements. It names exactly as many precisely when no book is named twice. |
| `Store.CreateCheckIff` | src/loan/loan.service.ts:12-23 | The number of available books found never exceeds the number of requests. It equals the number of requests exactly when the requested books are pairwise distinct, all exist and all are available. |
| `Store.DuplicateRequestFails` | src/loan/loan.service.ts:14-18 | Naming the same book twice in one request always makes the check fail, even for an available book. |
| `Store.ReferencedBooksCount` | src/loan/loan.service.ts:56-64 | The number of books a return touches is at most the number of existing loans it names. It is 0 exactly when it names no existing loan. |
| `Store.MarkReturnedKeepsBooks` | src/loan/loan.service.ts:51-59 | Re-reading the loans after marking them returned gives the same book ids as before the update. |
| `Controller.ParseDigits` | src/loan/loan.controller.ts:27 | Reading decimal digits succeeds exactly on a non-empty string of digits. |
| `Controller.ParseInt` | src/loan/loan.controller.ts:27 | The integer pipe accepts exactly the strings of the form optional minus sign, then one or more digits. Every other path segment is rejected. |
| `Controller.ParseIntCanonical` | src/loan/loan.controller.ts:27 | A canonical numeric string (no leading zero, no minus sign on zero) is exactly how the integer the pipe reads from it is written in decimal. With `ParseIntRoundTrip`, parsing and writing are inverse on canonical strings. |
| `Controller.ParseIntRoundTrip` | src/loan/loan.controller.ts:27-29 | Every integer written in decimal parses back to itself. So the service receives exactly the id in the path. |
| `Controller.CreateOutcome` | src/loan/loan.controller.ts:24-30 | The response is the service's rows exactly when the service succeeded. It is 404 exactly when the service threw its NOT_FOUND exception. Every other error is not caught and leaves the handler as 500. |
| `Controller.FindAllOutcome` | src/loan/loan.controller.ts:35-37 | 404 exactly for an empty list. Otherwise the list is returned unchanged. |
| `Controller.FindOneOutcome` | src/loan/loan.controller.ts:43-44 | 404 exactly when there is no loan. Otherwise the loan is returned unchanged. |
| `Controller.ReturnOutcome` | src/loan/loan.controller.ts:50-52 | 404 exactly when the count is 0. Otherwise the count is returned unchanged. |
| `Controller.UpdateOutcome` | src/loan/loan.controller.ts:60-65 | A success is returned unchanged. 404 occurs exactly for the P2025 error. Every other error is swallowed and the handler answers with nothing, so mapping the service's result never gives 400 or 500. |
| `Controller.LoanController.Create` | src/loan/loan.controller.ts:24-30 | A non-numeric user id gives 400 and the store is untouched. Otherwise the answer is the created loans exactly when the requested books are distinct, existing and available, and 404 with the store untouched otherwise. Each created loan has a fresh id and carries the parsed user id. On success the loan table gains exactly the created rows, the counter advances by their number, and exactly the books whose ids lie in the new loan-id range become unavailable, as in `Service.LoanService.Create`. |
| `Controller.LoanController.FindAllUserLoan` | src/loan/loan.controller.ts:32-38 | A non-numeric user id gives 400. Otherwise the answer is 404 exactly when the user has no loan, and the user's loans otherwise. |
| `Controller.LoanController.FindOne` | src/loan/loan.controller.ts:40-45 | A non-numeric id gives 400. Otherwise the answer is 404 exactly when no loan has the parsed id, and that loan otherwise. |
| `Controller.LoanController.ReturnLoans` | src/loan/loan.controller.ts:47-53 | 404 exactly when no id names an existing loan. Otherwise the answer is the number of distinct books the named loans reference. Either way, every existing loan named is marked returned at `now`, exactly the books those loans reference become available, and nothing else changes. |
| `Controller.LoanController.Update` | src/loan/loan.controller.ts:55-66 | A non-numeric id gives 400 and the store is untouched. Otherwise the answer is 404 exactly when no loan has the parsed id, and then the store is untouched. Otherwise the loan table changes only in that loan, which is patched and returned. Books and the counter never change. |
| `Scenarios.LoanOne` | src/loan/loan.service.ts:10-35 | A create of one available book succeeds. The loan gets the counter's id and is added to the table. Exactly the book whose id equals that loan id becomes unavailable. |
| `Scenarios.LoanReturnAndReturnAgain` | src/loan/loan.service.ts:10-66 | On a store with book 1, a loan of book 1 gets loan id 1. Loaning book 1 again fails. Returning loan 1 counts 1 and leaves the book available. Returning it again counts 1 again. |
| `Scenarios.SameBookLoanedTwice` | src/loan/loan.service.ts:28-31 | On a store with book 10 only, two successive loans of book 10 both succeed, and the book is still available afterwards. |
| `Scenarios.LoanAndReturn` | src/loan/loan.service.ts:49-66 | Loaning book 1 and returning that loan leaves the loan in the table, marked returned, and book 1 available. The count is 1. |
| `Scenarios.LoanReturnLoanAgain` | src/loan/loan.service.ts:10-35 | After a loan of book 1 is returned, the book can be loaned again. The second loan gets id 2, and the table then holds two loans of book 1. |
| `Scenarios.TwoLoansOfOneBookReturned` | src/loan/loan.service.ts:56-64 | Returning two existing loans of the same book together reports a count of 1. |
| `Scenarios.DuplicateInOneRequest` | src/loan/loan.service.ts:12-23 | One request naming an available book twice fails with NOT_FOUND, and no loan is written. |
| `Scenarios.EmptyCreate` | src/loan/loan.service.ts:12-35 | An empty create body passes the check and answers an empty list of rows, and no loan is written. |

## Left out

- Transactions, isolation and concurrent requests: each service call is one atomic step. So
  the race between two concurrent `create`s of the same book is not modelled. The failure path
  of `create` throws before any write, so it needs no rollback.
- The access guard on the controller (401 responses) and the auth subsystem: token checks and
  password hashing are foreign calls.
- Body validation: the model applies no body validation; request bodies are taken as
  well-typed lists. The body classes carry validation decorators (an array of at least one
  element for `create`, `src/loan/dto/create-loan.dto.ts:18-21`). If the application installs a
  validation pipe, an empty `data` array or an ill-typed body gets 400 before the handler runs.
  The model does not capture that, so its `LoanController.Create` answers an empty list for an
  empty body.
- Service.LoanService.ReturnLoans: ids are integers. Bodies carrying fractional numbers or
  non-numbers are not modelled.
- Controller.ParseInt: integers are unbounded. The model does not capture the precision loss of
  JavaScript numbers beyond 2^53. It also does not capture the pipe's rejection (400) of digit
  strings so long that their value overflows to Infinity, which fails its finiteness check.
- Id width: loan ids, book ids and user ids are unbounded integers. The database schema is not
  part of this model. If its id columns are 32-bit, an id of 2^31 or more passes the integer
  pipe, and the store then throws an error other than record-not-found. The source answers 500
  for such an id in `findOne` and `findAllUserLoan`, and in `create` when the availability check
  passes (a failing check still answers 404). It answers nothing in `update`. The model treats
  the id like any other: 404 for the queries and `update`, a normal result for `create`.
- Service.LoanService.FindAllUserLoan: the ORM query has no `orderBy`, so the store promises
  no order. The model returns the loans in ascending id order.
- Service.LoanService.Update: the patch values are plain values. The ORM's update-operation
  objects (`{ set: ... }`) that the patch type admits are not modelled.
- Store errors other than record-not-found (lost connections and the like) are never produced
  by the model. The controller's outcome functions take any error.
- Book columns other than `isAvailable` are carried unchanged and never interpreted. The book
  catalog's own operations are not part of this model.
- Users are not modelled: a loan's `userId` is an integer with no foreign-key check.
- Dates are opaque integers. The `new Date()` of `returnLoans` is the parameter `now`.
