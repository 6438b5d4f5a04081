/** The HTTP-facing loan controller: it parses path segments to integers, calls the loan
    service and maps the service's result or error to a response. */
module Controller {
  import opened Store
  import opened Service

  /** What a handler answers with: its return value, nothing at all (the handler returned
      `undefined`), or an HTTP error status (404, 400, or 500 for an error nobody catches). */
  datatype Response<T> = Ok(body: T) | Empty | NotFound | BadRequest | ServerError

  predicate IsDigit(c: char)
  {
    '0' <= c <= '9'
  }

  predicate AllDigits(s: string)
  {
    forall i :: 0 <= i < |s| ==> IsDigit(s[i])
  }

  /** The strings the integer pipe accepts: an optional minus sign followed by one or more
      decimal digits (the pattern `^-?\d+$`). */
  predicate IsNumeric(s: string)
  {
    if |s| > 0 && s[0] == '-' then |s| > 1 && AllDigits(s[1..]) else |s| > 0 && AllDigits(s)
  }

  /** The value of a non-empty string of decimal digits, read left to right; nothing when the
      string is empty or holds anything but digits. */
  function ParseDigits(s: string): (r: Option<nat>)
    ensures r.Some? <==> |s| > 0 && AllDigits(s)
  {
    if |s| == 0 || !IsDigit(s[|s| - 1]) then None
    else
      var d := (s[|s| - 1] - '0') as int;
      if |s| == 1 then Some(d)
      else match ParseDigits(s[..|s| - 1])
        case None => None
        case Some(v) => Some(v * 10 + d)
  }

  /** The integer pipe applied to a path segment: the integer it denotes, or nothing when the
      segment is not numeric (the pipe then answers 400 before the handler runs). */
  function ParseInt(s: string): (r: Option<int>)
    ensures r.Some? <==> IsNumeric(s)
  {
    if |s| > 0 && s[0] == '-' then
      match ParseDigits(s[1..])
      case None => None
      case Some(v) => Some(-(v as int))
    else ParseDigits(s)
  }

  function DigitChar(d: nat): char
    requires d < 10
  {
    ('0' as int + d) as char
  }

  /** The decimal digits of a natural number, without leading zeros. */
  function Digits(n: nat): (s: string)
  {
    if n < 10 then [DigitChar(n)] else Digits(n / 10) + [DigitChar(n % 10)]
  }

  /** How an integer id is written in a URL path. */
  function DecimalString(n: int): string
  {
    if n < 0 then "-" + Digits(-n) else Digits(n)
  }

  lemma {:induction false} ParseDigitsOfDigits(n: nat)
    ensures ParseDigits(Digits(n)) == Some(n)
  {
    if n >= 10 {
      var s := Digits(n);
      ParseDigitsOfDigits(n / 10);
      assert s[..|s| - 1] == Digits(n / 10);
      assert s[|s| - 1] == DigitChar(n % 10);
    }
  }

  /** Every integer written in decimal is parsed back to itself: the service receives
      exactly the id the client put in the path. */
  lemma ParseIntRoundTrip(n: int)
    ensures ParseInt(DecimalString(n)) == Some(n)
  {
    var s := DecimalString(n);
    if n < 0 {
      ParseDigitsOfDigits(-n);
      assert s[0] == '-' && s[1..] == Digits(-n);
    } else {
      ParseDigitsOfDigits(n);
      assert s == Digits(n);
      assert IsDigit(s[0]) by {
        assert AllDigits(s);
      }
    }
  }

  /** A numeric string as `DecimalString` writes it: no leading zero, and no minus sign on zero. */
  predicate IsCanonical(s: string)
  {
    if |s| > 0 && s[0] == '-' then |s| > 1 && AllDigits(s[1..]) && s[1] != '0'
    else |s| > 0 && AllDigits(s) && (|s| == 1 || s[0] != '0')
  }

  lemma {:induction false} DigitsOfParseDigits(s: string)
    requires |s| > 0 && AllDigits(s) && (|s| == 1 || s[0] != '0')
    ensures ParseDigits(s).Some?
    ensures |s| > 1 ==> ParseDigits(s).value >= 10
    ensures s[0] != '0' ==> ParseDigits(s).value > 0
    ensures Digits(ParseDigits(s).value) == s
  {
    var d := (s[|s| - 1] - '0') as int;
    assert IsDigit(s[|s| - 1]);
    assert DigitChar(d) == s[|s| - 1];
    if |s| > 1 {
      var prefix := s[..|s| - 1];
      assert prefix[0] == s[0];
      assert AllDigits(prefix) by {
        forall i | 0 <= i < |prefix| ensures IsDigit(prefix[i]) {
          assert prefix[i] == s[i];
        }
      }
      DigitsOfParseDigits(prefix);
      var v := ParseDigits(prefix).value;
      assert ParseDigits(s).value == v * 10 + d;
      assert (v * 10 + d) / 10 == v && (v * 10 + d) % 10 == d;
      assert s == prefix + [s[|s| - 1]];
    }
  }

  /** Every canonical numeric string is how `DecimalString` writes the integer the pipe reads
      from it; with `ParseIntRoundTrip` the two are inverse on canonical strings. A leading
      zero does not change the value read, but such a string is not canonical. */
  lemma ParseIntCanonical(s: string)
    requires IsCanonical(s)
    ensures IsNumeric(s)
    ensures DecimalString(ParseInt(s).value) == s
  {
    if |s| > 0 && s[0] == '-' {
      var t := s[1..];
      assert t[0] == s[1];
      DigitsOfParseDigits(t);
      assert s == "-" + t;
    } else {
      DigitsOfParseDigits(s);
    }
  }

  /** The response of `create`: the created loans, or 404 when the service threw its
      NOT_FOUND exception; any other error is not caught. */
  function CreateOutcome(r: Result<seq<Row>>): (resp: Response<seq<Row>>)
    ensures resp.Ok? <==> r.Success?
    ensures r.Success? ==> resp.body == r.value
    ensures resp == NotFound <==> r == Failure(HttpNotFound)
    ensures r.Failure? && r.error != HttpNotFound ==> resp == ServerError
  {
    match r
    case Success(rows) => Ok(rows)
    case Failure(HttpNotFound) => NotFound
    case Failure(StoreError(_)) => ServerError
  }

  /** The response of `findAllUserLoan`: 404 for an empty list, the list itself otherwise. */
  function FindAllOutcome(result: seq<Row>): (resp: Response<seq<Row>>)
    ensures resp == NotFound <==> |result| == 0
    ensures resp != NotFound ==> resp == Ok(result)
  {
    if |result| == 0 then NotFound else Ok(result)
  }

  /** The response of `findOne`: 404 when there is no loan, the loan itself otherwise. */
  function FindOneOutcome(data: Option<Row>): (resp: Response<Row>)
    ensures resp == NotFound <==> data.None?
    ensures data.Some? ==> resp == Ok(data.value)
  {
    match data
    case None => NotFound
    case Some(row) => Ok(row)
  }

  /** The response of `returnLoans`: 404 when the count is zero, `{count}` otherwise. */
  function ReturnOutcome(count: nat): (resp: Response<nat>)
    ensures resp == NotFound <==> count == 0
    ensures count != 0 ==> resp == Ok(count)
  {
    if count == 0 then NotFound else Ok(count)
  }

  /** The response of `update`: the updated loan; 404 for the store's record-not-found error;
      any other error is caught and swallowed, and the handler answers with nothing. No
      error ever leaves this handler as anything but 404. */
  function UpdateOutcome(r: Result<Row>): (resp: Response<Row>)
    ensures r.Success? ==> resp == Ok(r.value)
    ensures resp == NotFound <==> r == Failure(StoreError(RecordNotFound))
    ensures r.Failure? && r.error != StoreError(RecordNotFound) ==> resp == Empty
    ensures !resp.ServerError? && !resp.BadRequest?
  {
    match r
    case Success(row) => Ok(row)
    case Failure(StoreError(code)) => if code == RecordNotFound then NotFound else Empty
    case Failure(HttpNotFound) => Empty
  }

  /** Neither table nor the id counter of the store changed during the call. */
  twostate predicate TablesUnchanged(service: LoanService)
    reads service
  {
    service.books == old(service.books) && service.loans == old(service.loans) && service.nextId == old(service.nextId)
  }

  class LoanController {
    const service: LoanService

    constructor (service: LoanService)
      ensures this.service == service
    {
      this.service := service;
    }

    /** `POST /loans/:userId`. */
    method Create(body: seq<LoanRequest>, userId: string) returns (resp: Response<seq<Row>>)
      requires service.Valid()
      modifies service
      ensures service.Valid()
      ensures !IsNumeric(userId) ==> resp == BadRequest && TablesUnchanged(service)
      ensures IsNumeric(userId) ==>
        && (resp.Ok? <==> CreateAllowed(old(service.books), body))
        && (!resp.Ok? ==> resp == NotFound && TablesUnchanged(service))
      ensures resp.Ok? ==>
        && |resp.body| == |body|
        && (forall k :: 0 <= k < |body| ==>
              resp.body[k] == Row(old(service.nextId) + k,
                                  Loan(body[k].bookId, ParseInt(userId).value, body[k].dueDate, None, false)))
        && (forall k :: 0 <= k < |body| ==> resp.body[k].id !in old(service.loans))
        && service.nextId == old(service.nextId) + |body|
        && service.loans.Keys == old(service.loans).Keys + RowIds(resp.body)
        && (forall k :: 0 <= k < |body| ==> service.loans[resp.body[k].id] == resp.body[k].loan)
        && (forall id :: id in old(service.loans) ==> service.loans[id] == old(service.loans)[id])
      ensures resp.Ok? ==>
        && service.books.Keys == old(service.books).Keys
        && forall id :: id in service.books ==>
             service.books[id] ==
               if old(service.nextId) <= id < old(service.nextId) + |body|
               then old(service.books)[id].(isAvailable := false) else old(service.books)[id]
    {
      var parsed := ParseInt(userId);
      if parsed.None? {
        return BadRequest;
      }
      var r := service.Create(body, parsed.value);
      resp := CreateOutcome(r);
      if r.Failure? {
        assert service.books == old(service.books) && service.loans == old(service.loans);
        assert service.nextId == old(service.nextId);
      }
    }

    /** `GET /loans/user/:userId`. */
    method FindAllUserLoan(userId: string) returns (resp: Response<seq<Row>>)
      requires service.Valid()
      ensures !IsNumeric(userId) ==> resp == BadRequest
      ensures IsNumeric(userId) ==>
        var u := ParseInt(userId).value;
        && (resp == NotFound <==> forall id :: id in service.loans ==> service.loans[id].userId != u)
        && (resp != NotFound ==> resp == Ok(service.FindAllUserLoan(u)))
    {
      var parsed := ParseInt(userId);
      if parsed.None? {
        return BadRequest;
      }
      var result := service.FindAllUserLoan(parsed.value);
      if exists id :: id in service.loans && service.loans[id].userId == parsed.value {
        var id :| id in service.loans && service.loans[id].userId == parsed.value;
        assert id in RowIds(result);
        assert |result| > 0;
      }
      if |result| > 0 {
        assert result[0].id in service.loans && service.loans[result[0].id].userId == parsed.value;
      }
      resp := FindAllOutcome(result);
    }

    /** `GET /loans/:id`. */
    method FindOne(id: string) returns (resp: Response<Row>)
      ensures !IsNumeric(id) ==> resp == BadRequest
      ensures IsNumeric(id) ==>
        var n := ParseInt(id).value;
        && (resp == NotFound <==> n !in service.loans)
        && (n in service.loans ==> resp == Ok(Row(n, service.loans[n])))
    {
      var parsed := ParseInt(id);
      if parsed.None? {
        return BadRequest;
      }
      resp := FindOneOutcome(service.FindOne(parsed.value));
    }

    /** `PATCH /loans/return`. */
    method ReturnLoans(ids: seq<int>, now: int) returns (resp: Response<nat>)
      requires service.Valid()
      modifies service
      ensures service.Valid()
      ensures resp == NotFound <==> forall i :: i in ids ==> i !in old(service.loans)
      ensures resp != NotFound ==> resp == Ok(|ReferencedBooks(old(service.loans), IdSet(ids))|)
      ensures service.nextId == old(service.nextId)
      ensures service.loans.Keys == old(service.loans).Keys && service.books.Keys == old(service.books).Keys
      ensures forall id :: id in service.loans ==>
        service.loans[id] ==
          if id in ids then old(service.loans)[id].(isReturned := true, returnDate := Some(now))
          else old(service.loans)[id]
      ensures forall b :: b in service.books ==>
        service.books[b] ==
          if b in ReferencedBooks(old(service.loans), IdSet(ids)) then old(service.books)[b].(isAvailable := true)
          else old(service.books)[b]
    {
      var count := service.ReturnLoans(ids, now);
      resp := ReturnOutcome(count);
    }

    /** `PATCH /loans/:id`. */
    method Update(id: string, patch: Patch) returns (resp: Response<Row>)
      requires service.Valid()
      modifies service
      ensures service.Valid()
      ensures service.books == old(service.books) && service.nextId == old(service.nextId)
      ensures !IsNumeric(id) ==> resp == BadRequest && TablesUnchanged(service)
      ensures IsNumeric(id) ==>
        var n := ParseInt(id).value;
        && (resp == NotFound <==> n !in old(service.loans))
        && (resp == NotFound ==> TablesUnchanged(service))
        && (n in old(service.loans) ==>
              && service.loans == old(service.loans)[n := ApplyPatch(old(service.loans)[n], patch)]
              && resp == Ok(Row(n, service.loans[n])))
    {
      var parsed := ParseInt(id);
      if parsed.None? {
        return BadRequest;
      }
      var r := service.Update(parsed.value, patch);
      resp := UpdateOutcome(r);
    }
  }
}
