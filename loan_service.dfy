/** The loan service: create, return and update loans, and the two read-only queries,
    over a store holding the Book and Loan tables. Each service call is one atomic step
    (the transaction it runs in commits as a whole). */
module Service {
  import opened Store

  class LoanService {
    /** The Book table, by id. */
    var books: map<int, Book>
    /** The Loan table, by id. */
    var loans: map<int, Loan>
    /** The id the store assigns to the next loan it inserts (an autoincrement column). */
    var nextId: int

    ghost predicate Valid()
      reads this
    {
      StoreInvariant(books, loans, nextId)
    }

    /** A store with the given catalog and no loans yet. */
    constructor (catalog: map<int, Book>)
      ensures Valid()
      ensures books == catalog && loans == map[] && nextId == 1
    {
      books := catalog;
      loans := map[];
      nextId := 1;
    }

    /** `create`: check that every requested book is available, then insert one loan per
        request and mark unavailable the books whose ids equal the new LOAN ids. */
    method Create(reqs: seq<LoanRequest>, userId: int) returns (r: Result<seq<Row>>)
      requires Valid()
      modifies this
      ensures Valid()
      ensures r.Success? <==> CreateAllowed(old(books), reqs)
      ensures r.Failure? ==>
        r.error == HttpNotFound && books == old(books) && loans == old(loans) && nextId == old(nextId)
      ensures r.Success? ==>
        && |r.value| == |reqs|
        && (forall k :: 0 <= k < |reqs| ==>
              r.value[k] == Row(old(nextId) + k, Loan(reqs[k].bookId, userId, reqs[k].dueDate, None, false)))
        && (forall k :: 0 <= k < |reqs| ==> r.value[k].id !in old(loans))
        && nextId == old(nextId) + |reqs|
        && loans.Keys == old(loans).Keys + RowIds(r.value)
        && (forall k :: 0 <= k < |reqs| ==> loans[r.value[k].id] == r.value[k].loan)
        && (forall id :: id in old(loans) ==> loans[id] == old(loans)[id])
      ensures r.Success? ==>
        && books.Keys == old(books).Keys
        && forall id :: id in books ==>
             books[id] == if old(nextId) <= id < old(nextId) + |reqs| then old(books)[id].(isAvailable := false) else old(books)[id]
    {
      var found := AvailableBooks(books, RequestedBookIds(reqs));
      CreateCheckIff(books, reqs);
      if |found| != |reqs| {
        return Failure(HttpNotFound);
      }
      CreateKeepsInvariant(books, loans, nextId, userId, reqs);
      CreateEffect(books, loans, nextId, userId, reqs);
      var rows := NewLoanRows(nextId, userId, reqs);
      loans := InsertRows(loans, rows);
      nextId := nextId + |reqs|;
      books := SetAvailability(books, RowIds(rows), false);
      r := Success(rows);
    }

    /** `book.updateMany` setting `isAvailable`; the count is the number of books matched. */
    method UpdateManyBooks(ids: set<int>, available: bool) returns (count: nat)
      modifies this
      ensures books == SetAvailability(old(books), ids, available)
      ensures count == MatchCount(old(books), ids)
      ensures loans == old(loans) && nextId == old(nextId)
    {
      count := MatchCount(books, ids);
      books := SetAvailability(books, ids, available);
    }

    /** `loan.updateMany` marking loans returned at `now`; the count is the number of loans matched. */
    method UpdateManyLoansReturned(ids: set<int>, now: int) returns (count: nat)
      modifies this
      ensures loans == MarkReturned(old(loans), ids, now)
      ensures count == MatchCount(old(loans), ids)
      ensures books == old(books) && nextId == old(nextId)
    {
      count := MatchCount(loans, ids);
      loans := MarkReturned(loans, ids, now);
    }

    /** `findAllUserLoan`: the loans of one user, in ascending id order. */
    function FindAllUserLoan(userId: int): (r: seq<Row>)
      reads this
      requires Valid()
      ensures forall k :: 0 <= k < |r| ==>
        r[k].id in loans && r[k].loan == loans[r[k].id] && r[k].loan.userId == userId
      ensures forall id :: id in loans && loans[id].userId == userId ==> id in RowIds(r)
      ensures forall i, j :: 0 <= i < j < |r| ==> r[i].id < r[j].id
    {
      UserLoansIn(loans, userId, 1, nextId)
    }

    /** `findOne`: the loan with the given id, or nothing. */
    function FindOne(id: int): (r: Option<Row>)
      reads this
      ensures r.Some? <==> id in loans
      ensures r.Some? ==> r.value == Row(id, loans[id])
    {
      if id in loans then Some(Row(id, loans[id])) else None
    }

    /** `update`: patch one loan; fails with the store's record-not-found error when there is
        no loan with that id. Books and the other loans do not change. */
    method Update(id: int, patch: Patch) returns (r: Result<Row>)
      requires Valid()
      modifies this
      ensures Valid()
      ensures books == old(books) && nextId == old(nextId)
      ensures r.Failure? <==> id !in old(loans)
      ensures r.Failure? ==> r.error == StoreError(RecordNotFound) && loans == old(loans)
      ensures r.Success? ==>
        && loans == old(loans)[id := ApplyPatch(old(loans)[id], patch)]
        && r.value == Row(id, loans[id])
    {
      if id !in loans {
        return Failure(StoreError(RecordNotFound));
      }
      loans := loans[id := ApplyPatch(loans[id], patch)];
      r := Success(Row(id, loans[id]));
    }

    /** `returnLoans`: mark the named loans returned at `now`, re-read their book ids and mark
        those books available; the result is the number of BOOKS updated. */
    method ReturnLoans(ids: seq<int>, now: int) returns (count: nat)
      requires Valid()
      modifies this
      ensures Valid()
      ensures nextId == old(nextId) && loans.Keys == old(loans).Keys && books.Keys == old(books).Keys
      ensures forall id :: id in loans ==>
        loans[id] == if id in ids then old(loans)[id].(isReturned := true, returnDate := Some(now)) else old(loans)[id]
      ensures forall b :: b in books ==>
        books[b] == if b in ReferencedBooks(old(loans), IdSet(ids)) then old(books)[b].(isAvailable := true) else old(books)[b]
      ensures count == |ReferencedBooks(old(loans), IdSet(ids))|
      ensures count <= |IdSet(ids) * old(loans).Keys|
      ensures count == 0 <==> forall i :: i in ids ==> i !in old(loans)
    {
      var idSet := IdSet(ids);
      ReferencedBooksCount(loans, idSet);
      MarkReturnedKeepsBooks(loans, idSet, now);
      ReturnKeepsInvariant(books, loans, nextId, idSet, now);
      var _ := UpdateManyLoansReturned(idSet, now);
      var bookIds := ReferencedBooks(loans, idSet);
      assert bookIds * books.Keys == bookIds;
      count := UpdateManyBooks(bookIds, true);
    }
  }
}
