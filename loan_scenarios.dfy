/** Call sequences of the loan service on small concrete stores, showing what the service
    does across several calls. Book and loan ids are chosen so that the consequences of `create` marking
    books by the new LOAN ids, and of `returnLoans` counting BOOKS, are visible. */
module Scenarios {
  import opened Store
  import opened Service

  function AvailableBook(title: string): Book
  {
    Book(title, "author", "isbn", 0, true)
  }

  /** One loan of one available book: it gets the next id, and the book whose id equals that
      loan id is marked unavailable. */
  method LoanOne(service: LoanService, bookId: int, dueDate: int, userId: int) returns (row: Row)
    requires service.Valid() && bookId in service.books && service.books[bookId].isAvailable
    modifies service
    ensures service.Valid()
    ensures row == Row(old(service.nextId), Loan(bookId, userId, dueDate, None, false))
    ensures service.nextId == old(service.nextId) + 1
    ensures row.id !in old(service.loans)
    ensures service.loans.Keys == old(service.loans).Keys + {row.id} && service.loans[row.id] == row.loan
    ensures forall id :: id in old(service.loans) ==> service.loans[id] == old(service.loans)[id]
    ensures service.books.Keys == old(service.books).Keys
    ensures forall b :: b in service.books ==>
      service.books[b] == if b == row.id then old(service.books)[b].(isAvailable := false) else old(service.books)[b]
  {
    var reqs := [LoanRequest(bookId, dueDate)];
    assert CreateAllowed(service.books, reqs) by {
      assert reqs[0].bookId == bookId;
    }
    var r := service.Create(reqs, userId);
    row := r.value[0];
    assert RowIds(r.value) == {row.id};
  }

  /** Loan book 1, try to loan it again, return the loan, return it again. The first loan
      gets id 1, the id of the book, so the book is marked unavailable and the second
      request fails; both returns count the one book. */
  method LoanReturnAndReturnAgain() returns (first: Row, second: Result<seq<Row>>,
                                             count: nat, again: nat, available: bool)
    ensures first.id == 1 && first.loan.bookId == 1
    ensures second == Failure(HttpNotFound)
    ensures count == 1 && available
    ensures again == 1
  {
    var service := new LoanService(map[1 := AvailableBook("first")]);
    first := LoanOne(service, 1, 7, 42);
    var retry := [LoanRequest(1, 14)];
    assert !CreateAllowed(service.books, retry) by {
      assert retry[0].bookId == 1;
    }
    second := service.Create(retry, 42);
    var ids := [1];
    assert IdSet(ids) == {1};
    assert ReferencedBooks(service.loans, {1}) == {1};
    count := service.ReturnLoans(ids, 8);
    available := service.books[1].isAvailable;
    assert ReferencedBooks(service.loans, {1}) == {1};
    again := service.ReturnLoans(ids, 9);
  }

  /** Loan book 10 twice in a row. The new loan gets id 1, which names no book, so book 10
      stays available and the second request for it succeeds as well. */
  method SameBookLoanedTwice() returns (first: Result<seq<Row>>, second: Result<seq<Row>>, available: bool)
    ensures first.Success? && second.Success? && |first.value| == 1 && |second.value| == 1
    ensures first.value[0].loan.bookId == 10 && second.value[0].loan.bookId == 10
    ensures available
  {
    var service := new LoanService(map[10 := AvailableBook("ten")]);
    first := service.Create([LoanRequest(10, 7)], 1);
    second := service.Create([LoanRequest(10, 7)], 2);
    available := service.books[10].isAvailable;
  }

  /** Loan book 1 and return it: the loan stays in the table, marked returned, and the book
      is available again. */
  method LoanAndReturn() returns (service: LoanService, count: nat)
    ensures fresh(service) && service.Valid()
    ensures forall id :: id in service.loans <==> id == 1
    ensures service.loans[1].bookId == 1 && service.loans[1].isReturned
    ensures 1 in service.books && service.books[1].isAvailable && service.nextId == 2
    ensures count == 1
  {
    service := new LoanService(map[1 := AvailableBook("first")]);
    var first := LoanOne(service, 1, 7, 1);
    assert service.loans.Keys == {1} && service.loans[1].bookId == 1;
    var ids := [1];
    assert IdSet(ids) == {1};
    assert ReferencedBooks(service.loans, {1}) == {1};
    count := service.ReturnLoans(ids, 8);
  }

  /** Loan book 1, return it, loan it again: the second loan gets id 2, and the store then
      holds two loans of book 1. */
  method LoanReturnLoanAgain() returns (service: LoanService)
    ensures fresh(service) && service.Valid()
    ensures forall id :: id in service.loans <==> id == 1 || id == 2
    ensures service.loans[1].bookId == 1 && service.loans[2].bookId == 1
  {
    var returned;
    service, returned := LoanAndReturn();
    var second := LoanOne(service, 1, 7, 1);
    assert second.id == 2 && second.loan.bookId == 1;
  }

  /** Two loans of the same book returned together: two loans are marked returned, but the
      count reported is the one book they share. */
  method TwoLoansOfOneBookReturned() returns (loans: nat, count: nat)
    ensures loans == 2 && count == 1
  {
    var service := LoanReturnLoanAgain();
    var both := [1, 2];
    var ids := IdSet(both);
    assert ids == {1, 2};
    assert ReferencedBooks(service.loans, ids) == {1} by {
      assert service.loans[1].bookId == 1 && service.loans[2].bookId == 1;
    }
    assert ids * service.loans.Keys == {1, 2};
    loans := |ids * service.loans.Keys|;
    count := service.ReturnLoans(both, 9);
  }

  /** Asking for one available book twice in a single request fails, and nothing is written. */
  method DuplicateInOneRequest() returns (r: Result<seq<Row>>, loans: nat)
    ensures r == Failure(HttpNotFound) && loans == 0
  {
    var service := new LoanService(map[1 := AvailableBook("first")]);
    var reqs := [LoanRequest(1, 7), LoanRequest(1, 8)];
    assert reqs[0].bookId == reqs[1].bookId;
    r := service.Create(reqs, 1);
    loans := |service.loans|;
  }

  /** An empty create body passes the check (no books requested, none found) and writes
      nothing: the answer is the empty list of rows. */
  method EmptyCreate() returns (r: Result<seq<Row>>, loans: nat)
    ensures r == Success([]) && loans == 0
  {
    var service := new LoanService(map[1 := AvailableBook("first")]);
    r := service.Create([], 1);
    loans := |service.loans|;
  }
}
