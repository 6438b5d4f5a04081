/** The two tables the loan core works on, and the ORM calls it makes on them.
    Each ORM call of the service is one function here over the tables as finite maps:
    a `findMany` with an `in` filter is a set comprehension, an `updateMany` is a map
    update over the rows it matches (its count is the number of those rows), and a
    `createManyAndReturn` adds one row per request under consecutive fresh ids. */
module Store {

  datatype Option<T> = None | Some(value: T)

  datatype Result<T> = Success(value: T) | Failure(error: ServiceError)

  /** What a service call can fail with: the `HttpException(..., NOT_FOUND)` that `create`
      throws itself, or an error of the store carrying the ORM's error code. */
  datatype ServiceError = HttpNotFound | StoreError(code: string)

  /** The ORM's code for "an operation failed because a required record was not found". */
  const RecordNotFound: string := "P2025"

  /** A row of the Book table. The loan core only reads and writes `isAvailable`;
      dates are opaque integers. */
  datatype Book = Book(title: string, author: string, isbn: string, publishedDate: int, isAvailable: bool)

  /** A row of the Loan table, without its id (the id is the row's key). */
  datatype Loan = Loan(bookId: int, userId: int, dueDate: int, returnDate: Option<int>, isReturned: bool)

  /** A loan row as the ORM returns it: with its id. */
  datatype Row = Row(id: int, loan: Loan)

  /** One element of the `data` array of a create request. */
  datatype LoanRequest = LoanRequest(bookId: int, dueDate: int)

  /** The body of an update: each field is either absent or the new value
      (`returnDate` may be set to null). */
  datatype Patch = Patch(returnDate: Option<Option<int>>, dueDate: Option<int>, isReturned: Option<bool>)

  /** The book ids of a create request, as the `in` filter sees them. */
  function RequestedBookIds(reqs: seq<LoanRequest>): set<int>
  {
    set k | 0 <= k < |reqs| :: reqs[k].bookId
  }

  /** `book.findMany({ where: { id: { in: ids }, isAvailable: true } })`, as the ids of the rows found. */
  function AvailableBooks(books: map<int, Book>, ids: set<int>): set<int>
  {
    set id | id in ids && id in books && books[id].isAvailable
  }

  /** The number of rows of a table an `updateMany` with `where: { id: { in: ids } }` matches. */
  function MatchCount<V>(table: map<int, V>, ids: set<int>): nat
  {
    |ids * table.Keys|
  }

  /** `book.updateMany({ where: { id: { in: ids } }, data: { isAvailable: available } })`. */
  function SetAvailability(books: map<int, Book>, ids: set<int>, available: bool): (r: map<int, Book>)
    ensures r.Keys == books.Keys
    ensures forall id :: id in r ==> r[id] == if id in ids then books[id].(isAvailable := available) else books[id]
  {
    map id | id in books :: if id in ids then books[id].(isAvailable := available) else books[id]
  }

  /** The rows `loan.createManyAndReturn` gives back for `reqs`, the store numbering them from `firstId`. */
  function NewLoanRows(firstId: int, userId: int, reqs: seq<LoanRequest>): (r: seq<Row>)
    ensures |r| == |reqs|
    ensures forall k :: 0 <= k < |r| ==>
      r[k] == Row(firstId + k, Loan(reqs[k].bookId, userId, reqs[k].dueDate, None, false))
  {
    seq(|reqs|, k requires 0 <= k < |reqs| =>
      Row(firstId + k, Loan(reqs[k].bookId, userId, reqs[k].dueDate, None, false)))
  }

  /** The new loans take exactly the ids `firstId .. firstId + |reqs| - 1`. */
  lemma NewLoanRowIds(firstId: int, userId: int, reqs: seq<LoanRequest>)
    ensures forall id :: id in RowIds(NewLoanRows(firstId, userId, reqs)) <==> firstId <= id < firstId + |reqs|
  {
    var rows := NewLoanRows(firstId, userId, reqs);
    forall id | firstId <= id < firstId + |reqs| ensures id in RowIds(rows) {
      assert rows[id - firstId].id == id;
    }
  }

  /** The ids of a list of rows, as `rows.map((item) => item.id)` feeds them to an `in` filter. */
  function RowIds(rows: seq<Row>): set<int>
  {
    set k | 0 <= k < |rows| :: rows[k].id
  }

  /** The Loan table after the rows `rows` (with increasing ids) have been inserted, one after
      the other in order. */
  function InsertRows(loans: map<int, Loan>, rows: seq<Row>): (r: map<int, Loan>)
    requires forall i, j :: 0 <= i < j < |rows| ==> rows[i].id < rows[j].id
    ensures r.Keys == loans.Keys + RowIds(rows)
    ensures forall k :: 0 <= k < |rows| ==> r[rows[k].id] == rows[k].loan
    ensures forall id :: id in loans && id !in RowIds(rows) ==> r[id] == loans[id]
    decreases |rows|
  {
    if |rows| == 0 then loans
    else
      var rest := rows[1..];
      assert rows == [rows[0]] + rest;
      RowIdsCons(rows[0], rest);
      assert forall k :: 0 <= k < |rest| ==> rest[k] == rows[k + 1];
      InsertRows(loans[rows[0].id := rows[0].loan], rest)
  }

  /** The ids an `in` filter built from the list `ids` matches. */
  function IdSet(ids: seq<int>): (r: set<int>)
    ensures forall i :: i in r <==> i in ids
  {
    set i | i in ids
  }

  /** `loan.updateMany({ where: { id: { in: ids } }, data: { isReturned: true, returnDate: now } })`. */
  function MarkReturned(loans: map<int, Loan>, ids: set<int>, now: int): (r: map<int, Loan>)
    ensures r.Keys == loans.Keys
    ensures forall id :: id in r ==>
      r[id] == if id in ids then loans[id].(isReturned := true, returnDate := Some(now)) else loans[id]
  {
    map id | id in loans :: if id in ids then loans[id].(isReturned := true, returnDate := Some(now)) else loans[id]
  }

  /** `loan.findMany({ where: { id: { in: ids } }, select: { bookId: true } })`, as the set of book ids
      that the following `in` filter sees. */
  function ReferencedBooks(loans: map<int, Loan>, ids: set<int>): set<int>
  {
    set id | id in ids && id in loans :: loans[id].bookId
  }

  /** A loan row after `loan.update({ data: patch })`: every field the patch carries takes the
      patch's value, every other field keeps its value. */
  function ApplyPatch(l: Loan, p: Patch): (r: Loan)
    ensures r.bookId == l.bookId && r.userId == l.userId
    ensures r.dueDate == (if p.dueDate.Some? then p.dueDate.value else l.dueDate)
    ensures r.returnDate == (if p.returnDate.Some? then p.returnDate.value else l.returnDate)
    ensures r.isReturned == (if p.isReturned.Some? then p.isReturned.value else l.isReturned)
  {
    var withDue := if p.dueDate.Some? then l.(dueDate := p.dueDate.value) else l;
    var withReturnDate := if p.returnDate.Some? then withDue.(returnDate := p.returnDate.value) else withDue;
    if p.isReturned.Some? then withReturnDate.(isReturned := p.isReturned.value) else withReturnDate
  }

  /** `r` lists, in strictly increasing id order, exactly the loans of `userId` whose ids lie
      in `lo .. hi-1`, each with its id. */
  ghost predicate ListsUserLoans(loans: map<int, Loan>, userId: int, lo: int, hi: int, r: seq<Row>)
  {
    && (forall k :: 0 <= k < |r| ==>
          lo <= r[k].id < hi && r[k].id in loans && r[k].loan == loans[r[k].id] && r[k].loan.userId == userId)
    && (forall i, j :: 0 <= i < j < |r| ==> r[i].id < r[j].id)
    && (forall id :: lo <= id < hi && id in loans && loans[id].userId == userId ==> id in RowIds(r))
  }

  /** The loans of `userId` among the ids `lo .. hi-1`, in ascending id order: the rows
      `loan.findMany({ where: { userId } })` returns when every loan id lies in that range. */
  function UserLoansIn(loans: map<int, Loan>, userId: int, lo: int, hi: int): (r: seq<Row>)
    decreases hi - lo
    ensures ListsUserLoans(loans, userId, lo, hi, r)
  {
    if lo >= hi then []
    else
      var rest := UserLoansIn(loans, userId, lo + 1, hi);
      ListsUserLoansStep(loans, userId, lo, hi, rest);
      if lo in loans && loans[lo].userId == userId then [Row(lo, loans[lo])] + rest else rest
  }

  /** Extending the range one id downwards adds the loan with that id in front when it
      belongs to the user, and nothing otherwise. */
  lemma ListsUserLoansStep(loans: map<int, Loan>, userId: int, lo: int, hi: int, rest: seq<Row>)
    requires lo < hi && ListsUserLoans(loans, userId, lo + 1, hi, rest)
    ensures lo in loans && loans[lo].userId == userId ==>
      ListsUserLoans(loans, userId, lo, hi, [Row(lo, loans[lo])] + rest)
    ensures !(lo in loans && loans[lo].userId == userId) ==> ListsUserLoans(loans, userId, lo, hi, rest)
  {
    if lo in loans && loans[lo].userId == userId {
      var row := Row(lo, loans[lo]);
      var all := [row] + rest;
      RowIdsCons(row, rest);
      assert all[0] == row;
      assert forall k :: 1 <= k < |all| ==> all[k] == rest[k - 1];
    }
  }

  lemma RowIdsCons(x: Row, rows: seq<Row>)
    ensures RowIds([x] + rows) == {x.id} + RowIds(rows)
  {
    var all := [x] + rows;
    forall id | id in RowIds(rows) ensures id in RowIds(all) {
      var k :| 0 <= k < |rows| && rows[k].id == id;
      assert all[k + 1] == rows[k];
    }
    assert all[0] == x;
  }

  lemma Pick<T>(s: set<T>) returns (x: T)
    requires s != {}
    ensures x in s
  {
    x :| x in s;
  }

  lemma SubsetCount<T>(a: set<T>, b: set<T>)
    requires a <= b
    ensures |a| <= |b|
    ensures a != b ==> |a| < |b|
  {
    assert b == a + (b - a);
    if a != b {
      var x :| x in b && x !in a;
      assert x in b - a;
    }
  }

  /** No two requests of a create call name the same book. */
  predicate DistinctBookIds(reqs: seq<LoanRequest>)
  {
    forall i, j :: 0 <= i < j < |reqs| ==> reqs[i].bookId != reqs[j].bookId
  }

  /** What the availability check of `create` accepts, stated without counting: the requested
      books are pairwise distinct, and each exists and is available. */
  predicate CreateAllowed(books: map<int, Book>, reqs: seq<LoanRequest>)
  {
    && DistinctBookIds(reqs)
    && forall k :: 0 <= k < |reqs| ==> reqs[k].bookId in books && books[reqs[k].bookId].isAvailable
  }

  /** A create request names at most as many books as it has elements, and exactly as many
      precisely when no book is named twice. */
  lemma {:induction false} RequestedBookIdsCount(reqs: seq<LoanRequest>)
    ensures |RequestedBookIds(reqs)| <= |reqs|
    ensures |RequestedBookIds(reqs)| == |reqs| <==> DistinctBookIds(reqs)
  {
    if reqs != [] {
      var n := |reqs| - 1;
      var init := reqs[..n];
      RequestedBookIdsCount(init);
      assert RequestedBookIds(reqs) == RequestedBookIds(init) + {reqs[n].bookId} by {
        forall b | b in RequestedBookIds(reqs) ensures b in RequestedBookIds(init) + {reqs[n].bookId} {
          var k :| 0 <= k < |reqs| && reqs[k].bookId == b;
          if k < n { assert init[k] == reqs[k]; }
        }
        forall b | b in RequestedBookIds(init) ensures b in RequestedBookIds(reqs) {
          var k :| 0 <= k < |init| && init[k].bookId == b;
          assert reqs[k] == init[k];
        }
      }
      if reqs[n].bookId in RequestedBookIds(init) {
        var k :| 0 <= k < |init| && init[k].bookId == reqs[n].bookId;
        assert reqs[k].bookId == reqs[n].bookId;
      } else {
        assert DistinctBookIds(reqs) <==> DistinctBookIds(init) by {
          if DistinctBookIds(init) {
            forall i, j | 0 <= i < j < |reqs| ensures reqs[i].bookId != reqs[j].bookId {
              if j < n {
                assert init[i] == reqs[i] && init[j] == reqs[j];
              } else {
                assert init[i] == reqs[i];
                assert init[i].bookId in RequestedBookIds(init);
              }
            }
          }
          if DistinctBookIds(reqs) {
            forall i, j | 0 <= i < j < |init| ensures init[i].bookId != init[j].bookId {
              assert init[i] == reqs[i] && init[j] == reqs[j];
            }
          }
        }
      }
    }
  }

  /** The availability check of `create` (the number of available books found equals the number
      of requests) holds exactly when the requests are allowed; the number found never exceeds
      the number of requests, so a failing check means fewer books than requests. */
  lemma CreateCheckIff(books: map<int, Book>, reqs: seq<LoanRequest>)
    ensures |AvailableBooks(books, RequestedBookIds(reqs))| <= |reqs|
    ensures |AvailableBooks(books, RequestedBookIds(reqs))| == |reqs| <==> CreateAllowed(books, reqs)
  {
    var requested := RequestedBookIds(reqs);
    var found := AvailableBooks(books, requested);
    RequestedBookIdsCount(reqs);
    SubsetCount(found, requested);
    if |found| == |reqs| {
      forall k | 0 <= k < |reqs| ensures reqs[k].bookId in books && books[reqs[k].bookId].isAvailable {
        assert reqs[k].bookId in requested;
      }
    }
    if CreateAllowed(books, reqs) {
      assert found == requested;
    }
  }

  /** Asking for the same book twice in one create call always fails the check, even when the
      book is available: the `in` filter finds it once. */
  lemma DuplicateRequestFails(books: map<int, Book>, reqs: seq<LoanRequest>, i: int, j: int)
    requires 0 <= i < j < |reqs| && reqs[i].bookId == reqs[j].bookId
    ensures |AvailableBooks(books, RequestedBookIds(reqs))| < |reqs|
  {
    CreateCheckIff(books, reqs);
  }

  /** The number of books a return touches is at most the number of existing loans it names,
      and it is zero exactly when it names no existing loan. */
  lemma {:induction false} ReferencedBooksCount(loans: map<int, Loan>, ids: set<int>)
    ensures |ReferencedBooks(loans, ids)| <= |ids * loans.Keys|
    ensures |ReferencedBooks(loans, ids)| == 0 <==> ids * loans.Keys == {}
    decreases ids
  {
    if ids != {} {
      var x := Pick(ids);
      var rest := ids - {x};
      ReferencedBooksCount(loans, rest);
      if x in loans {
        assert ReferencedBooks(loans, ids) == ReferencedBooks(loans, rest) + {loans[x].bookId};
        assert ids * loans.Keys == rest * loans.Keys + {x};
      } else {
        assert ReferencedBooks(loans, ids) == ReferencedBooks(loans, rest);
        assert ids * loans.Keys == rest * loans.Keys;
      }
    }
  }

  /** Marking loans returned does not change which books they reference: re-reading the loans
      after the update sees the same book ids, whether or not they were returned before. */
  lemma MarkReturnedKeepsBooks(loans: map<int, Loan>, ids: set<int>, now: int)
    ensures ReferencedBooks(MarkReturned(loans, ids, now), ids) == ReferencedBooks(loans, ids)
  {
    var after := MarkReturned(loans, ids, now);
    forall b | b in ReferencedBooks(after, ids) ensures b in ReferencedBooks(loans, ids) {
      var id :| id in ids && id in after && after[id].bookId == b;
    }
    forall b | b in ReferencedBooks(loans, ids) ensures b in ReferencedBooks(after, ids) {
      var id :| id in ids && id in loans && loans[id].bookId == b;
      assert after[id].bookId == b;
    }
  }

  /** The store's invariant: loan ids are positive and below the id counter, and every loan
      references an existing book (the foreign key of `bookId`). */
  ghost predicate StoreInvariant(books: map<int, Book>, loans: map<int, Loan>, nextId: int)
  {
    && 1 <= nextId
    && (forall id :: id in loans ==> 1 <= id < nextId)
    && (forall id :: id in loans ==> loans[id].bookId in books)
  }

  /** A create that passes the availability check keeps the invariant: the new loans take ids
      at and above the counter, and each references a book the check found. */
  lemma CreateKeepsInvariant(books: map<int, Book>, loans: map<int, Loan>, nextId: int,
                             userId: int, reqs: seq<LoanRequest>)
    requires StoreInvariant(books, loans, nextId) && CreateAllowed(books, reqs)
    ensures var rows := NewLoanRows(nextId, userId, reqs);
      StoreInvariant(SetAvailability(books, RowIds(rows), false), InsertRows(loans, rows), nextId + |reqs|)
  {
    var rows := NewLoanRows(nextId, userId, reqs);
    NewLoanRowIds(nextId, userId, reqs);
    var after := InsertRows(loans, rows);
    forall id | id in after ensures after[id].bookId in books {
      if id in RowIds(rows) {
        var k :| 0 <= k < |rows| && rows[k].id == id;
        assert after[id] == rows[k].loan;
      }
    }
  }

  /** A return keeps the invariant: no loan id or book reference changes. */
  lemma ReturnKeepsInvariant(books: map<int, Book>, loans: map<int, Loan>, nextId: int,
                             ids: set<int>, now: int)
    requires StoreInvariant(books, loans, nextId)
    ensures StoreInvariant(SetAvailability(books, ReferencedBooks(loans, ids), true), MarkReturned(loans, ids, now), nextId)
  {
  }

  /** What a successful create does to the tables: the returned rows are one per request, in
      request order, under fresh ids from the counter; the loan table gains exactly those rows;
      exactly the books whose ids lie in the new loan-id range become unavailable. */
  lemma CreateEffect(books: map<int, Book>, loans: map<int, Loan>, nextId: int,
                     userId: int, reqs: seq<LoanRequest>)
    requires forall id :: id in loans ==> id < nextId
    ensures var rows := NewLoanRows(nextId, userId, reqs);
      var loans' := InsertRows(loans, rows);
      var books' := SetAvailability(books, RowIds(rows), false);
      && |rows| == |reqs|
      && (forall k :: 0 <= k < |reqs| ==>
            rows[k] == Row(nextId + k, Loan(reqs[k].bookId, userId, reqs[k].dueDate, None, false)))
      && (forall k :: 0 <= k < |reqs| ==> rows[k].id !in loans)
      && loans'.Keys == loans.Keys + RowIds(rows)
      && (forall k :: 0 <= k < |reqs| ==> loans'[rows[k].id] == rows[k].loan)
      && (forall id :: id in loans ==> loans'[id] == loans[id])
      && books'.Keys == books.Keys
      && (forall id :: id in books' ==>
            books'[id] == if nextId <= id < nextId + |reqs| then books[id].(isAvailable := false) else books[id])
  {
    NewLoanRowIds(nextId, userId, reqs);
  }
}
