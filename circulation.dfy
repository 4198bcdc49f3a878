/**
 * The operations of app.py that change the tables: member and book
 * registration, member update, book removal, and the loan lifecycle
 * (emprestar_livro, devolver_livro, renovar_emprestimo). The SQLite file
 * is replaced by a Library object holding the three tables and their
 * AUTOINCREMENT counters; the clock is the `today` parameter.
 *
 * Guards that only the later version exercised by the test suite has
 * (missing ids, missing fields, an unknown book, a book not marked as
 * lent, an update with nothing to update) are marked "test-asserted"
 * below; each refuses without changing anything.
 */
module Circulation {
  import opened Records
  import Registration

  /** Why an operation changed nothing. */
  datatype Failure =
    | MissingId        // test-asserted: a None id
    | MissingFields    // test-asserted: an empty required field
    | InvalidCpf       // test-asserted: is_valid_cpf fails
    | InvalidEmail     // test-asserted: is_valid_email fails
    | NothingToUpdate  // test-asserted: atualizar_usuario with no field
    | DuplicateCpf     // UNIQUE usuarios.cpf: app.py raises IntegrityError
    | DuplicateIsbn    // UNIQUE livros.isbn: app.py raises IntegrityError (test-asserted refusal)
    | BookNotFound     // no livros row with that id
    | NotAvailable     // status is not 'Disponível'
    | NotLent          // test-asserted: status is not 'Emprestado'
    | NoOpenLoan       // no loan of that member on that book with a NULL data_devolucao
    | RenewalLimit     // the book already has max_renovacoes open loans

  datatype Outcome = Done | DueOn(date: int) | Failed(why: Failure)

  /** timedelta(days=14): the loan period, also the renewal period. */
  const LoanDays := 14

  /** max_renovacoes. */
  const MaxRenewals := 2

  /** The failure a registration verdict other than Accepted reports. */
  function VerdictFailure(v: Registration.Verdict): Failure
    requires v != Registration.Accepted
  {
    match v
    case MissingFields => MissingFields
    case InvalidCpf => InvalidCpf
    case InvalidEmail => InvalidEmail
  }

  /**
   * The three UPDATE statements of atualizar_usuario on one row: each
   * field passed non-empty replaces the stored one; the id and the CPF are
   * never touched.
   */
  function Patch(m: Member, name: string, email: string, phone: string): (r: Member)
    ensures r.id == m.id && r.cpf == m.cpf
    ensures name != [] ==> r.name == name
    ensures name == [] ==> r.name == m.name
    ensures email != [] ==> r.email == email
    ensures email == [] ==> r.email == m.email
    ensures phone != [] ==> r.phone == phone
    ensures phone == [] ==> r.phone == m.phone
  {
    m.(name := if name != [] then name else m.name,
       email := if email != [] then email else m.email,
       phone := if phone != [] then phone else m.phone)
  }

  class Library {
    var members: seq<Member>
    var books: seq<Book>
    var loans: seq<Loan>
    var nextMemberId: int
    var nextBookId: int
    var nextLoanId: int

    /** The schema's constraints: fresh increasing ids, unique CPF, unique ISBN. */
    ghost predicate Valid()
      reads this
    {
      && MemberIdsFresh(members, nextMemberId) && CpfsUnique(members)
      && BookIdsFresh(books, nextBookId) && IsbnsUnique(books)
      && LoanIdsFresh(loans, nextLoanId)
    }

    /** Freshly created tables: empty, every counter at 1. */
    constructor ()
      ensures Valid()
      ensures members == [] && books == [] && loans == []
      ensures nextMemberId == 1 && nextBookId == 1 && nextLoanId == 1
    {
      members, books, loans := [], [], [];
      nextMemberId, nextBookId, nextLoanId := 1, 1, 1;
    }

    /**
     * cadastrar_usuario: the test-asserted checks of presence, CPF and
     * e-mail in that order, then the INSERT, which the UNIQUE constraint on
     * cpf refuses for a CPF already registered.
     */
    method RegisterMember(name: string, cpf: string, email: string, phone: string) returns (r: Outcome)
      requires Valid()
      modifies this
      ensures Valid()
      ensures books == old(books) && loans == old(loans)
      ensures nextBookId == old(nextBookId) && nextLoanId == old(nextLoanId)
      ensures var v := Registration.CheckRegistration(name, cpf, email, phone);
        if v != Registration.Accepted then
          r == Failed(VerdictFailure(v)) && unchanged(this)
        else if CpfInUse(old(members), cpf) then
          r == Failed(DuplicateCpf) && unchanged(this)
        else
          && r == Done
          && members == old(members) + [Member(old(nextMemberId), name, cpf, email, phone)]
          && nextMemberId == old(nextMemberId) + 1
    {
      var v := Registration.CheckRegistration(name, cpf, email, phone);
      if v != Registration.Accepted {
        return Failed(VerdictFailure(v));
      }
      if CpfInUse(members, cpf) {
        return Failed(DuplicateCpf);
      }
      MemberIdsAppend(members, nextMemberId, Member(nextMemberId, name, cpf, email, phone));
      members := members + [Member(nextMemberId, name, cpf, email, phone)];
      nextMemberId := nextMemberId + 1;
      r := Done;
    }

    /**
     * atualizar_usuario: each of name, e-mail and phone given non-empty
     * overwrites that column on every row with the id; the rest stays.
     * Test-asserted: nothing given, or an invalid e-mail, is refused.
     */
    method UpdateMember(id: int, name: string, email: string, phone: string) returns (r: Outcome)
      requires Valid()
      modifies this
      ensures Valid()
      ensures books == old(books) && loans == old(loans)
      ensures nextMemberId == old(nextMemberId) && nextBookId == old(nextBookId) && nextLoanId == old(nextLoanId)
      ensures if name == [] && email == [] && phone == [] then
          r == Failed(NothingToUpdate) && unchanged(this)
        else if email != [] && !Registration.IsValidEmail(email) then
          r == Failed(InvalidEmail) && unchanged(this)
        else
          && r == Done
          && |members| == |old(members)|
          && forall i :: 0 <= i < |members| ==>
               members[i] == if old(members)[i].id == id then Patch(old(members)[i], name, email, phone)
                             else old(members)[i]
    {
      if name == [] && email == [] && phone == [] {
        return Failed(NothingToUpdate);
      }
      if email != [] && !Registration.IsValidEmail(email) {
        return Failed(InvalidEmail);
      }
      var old_members := members;
      members := seq(|old_members|, i requires 0 <= i < |old_members| =>
        if old_members[i].id == id then Patch(old_members[i], name, email, phone) else old_members[i]);
      r := Done;
    }

    /**
     * cadastrar_livro: a new row with a fresh id and status 'Disponível';
     * the UNIQUE constraint on isbn refuses an ISBN already registered.
     * Test-asserted: an empty field is refused first.
     */
    method RegisterBook(title: string, author: string, isbn: string, category: string) returns (r: Outcome)
      requires Valid()
      modifies this
      ensures Valid()
      ensures members == old(members) && loans == old(loans)
      ensures nextMemberId == old(nextMemberId) && nextLoanId == old(nextLoanId)
      ensures if title == [] || author == [] || isbn == [] || category == [] then
          r == Failed(MissingFields) && unchanged(this)
        else if IsbnInUse(old(books), isbn) then
          r == Failed(DuplicateIsbn) && unchanged(this)
        else
          && r == Done
          && books == old(books) + [Book(old(nextBookId), title, author, isbn, category, Available)]
          && nextBookId == old(nextBookId) + 1
    {
      if title == [] || author == [] || isbn == [] || category == [] {
        return Failed(MissingFields);
      }
      if IsbnInUse(books, isbn) {
        return Failed(DuplicateIsbn);
      }
      BookIdsAppend(books, nextBookId, Book(nextBookId, title, author, isbn, category, Available));
      books := books + [Book(nextBookId, title, author, isbn, category, Available)];
      nextBookId := nextBookId + 1;
      r := Done;
    }

    /**
     * remover_livro: DELETE FROM livros WHERE id = ?. Loans that refer to
     * the book stay (foreign keys are not enforced). Test-asserted: a
     * missing id, or an id with no row, is refused.
     */
    method RemoveBook(bookId: Option<int>) returns (r: Outcome)
      requires Valid()
      modifies this
      ensures Valid()
      ensures members == old(members) && loans == old(loans)
      ensures nextMemberId == old(nextMemberId) && nextBookId == old(nextBookId) && nextLoanId == old(nextLoanId)
      ensures if bookId.None? then r == Failed(MissingId) && unchanged(this)
        else if FindBook(old(books), bookId.value).None? then r == Failed(BookNotFound) && unchanged(this)
        else
          && r == Done
          && var k := FindBook(old(books), bookId.value).value;
             books == old(books)[..k] + old(books)[k + 1..]
      ensures forall b :: b in books <==> b in old(books) && (r.Failed? || b.id != bookId.value)
    {
      if bookId.None? {
        return Failed(MissingId);
      }
      var found := FindBook(books, bookId.value);
      if found.None? {
        return Failed(BookNotFound);
      }
      var k := found.value;
      var before := books;
      BooksRemoveAt(before, nextBookId, k);
      BooksRemoveAtMembers(before, nextBookId, k);
      books := before[..k] + before[k + 1..];
      r := Done;
    }

    /**
     * emprestar_livro: a book whose status is 'Disponível' gets a new loan
     * (member, book, today, today + 14) and its status becomes 'Emprestado';
     * nothing else changes. The loan's data_devolucao is written at once, so
     * the loan is never open. Any other status is refused. A book id with no
     * row crashes the source (fetchone() is None) and is a refusal here, as
     * the tests assert; so is a missing id (test-asserted).
     */
    method LendBook(memberId: Option<int>, bookId: Option<int>, today: int) returns (r: Outcome)
      requires Valid()
      modifies this
      ensures Valid()
      ensures members == old(members) && nextMemberId == old(nextMemberId) && nextBookId == old(nextBookId)
      ensures if memberId.None? || bookId.None? then
          r == Failed(MissingId) && unchanged(this)
        else
          var k := FindBook(old(books), bookId.value);
          if k.None? then
            r == Failed(BookNotFound) && unchanged(this)
          else if old(books)[k.value].status != Available then
            r == Failed(NotAvailable) && unchanged(this)
          else
            && r == DueOn(today + LoanDays)
            && loans == old(loans) + [Loan(old(nextLoanId), memberId.value, bookId.value, today,
                                           Some(today + LoanDays))]
            && nextLoanId == old(nextLoanId) + 1
            && books == old(books)[k.value := old(books)[k.value].(status := Loaned)]
      ensures NoOpenLoans(old(loans)) ==> NoOpenLoans(loans)
    {
      if memberId.None? || bookId.None? {
        return Failed(MissingId);
      }
      var found := FindBook(books, bookId.value);
      if found.None? {
        return Failed(BookNotFound);
      }
      var k := found.value;
      if books[k].status != Available {
        return Failed(NotAvailable);
      }
      var due := today + LoanDays;
      LoanIdsAppend(loans, nextLoanId, Loan(nextLoanId, memberId.value, bookId.value, today, Some(due)));
      loans := loans + [Loan(nextLoanId, memberId.value, bookId.value, today, Some(due))];
      nextLoanId := nextLoanId + 1;
      books := books[k := books[k].(status := Loaned)];
      r := DueOn(due);
    }

    /**
     * devolver_livro: the first loan of exactly this member on this book
     * with a NULL data_devolucao gets today's date there, and the book
     * becomes 'Disponível'. Without such a loan nothing changes. Loans of
     * other members are never touched. Test-asserted: a missing id, an
     * unknown book, or a book not marked 'Emprestado' is refused first.
     */
    method ReturnBook(memberId: Option<int>, bookId: Option<int>, today: int) returns (r: Outcome)
      requires Valid()
      modifies this
      ensures Valid()
      ensures members == old(members)
      ensures nextMemberId == old(nextMemberId) && nextBookId == old(nextBookId) && nextLoanId == old(nextLoanId)
      ensures if memberId.None? || bookId.None? then
          r == Failed(MissingId) && unchanged(this)
        else
          var k := FindBook(old(books), bookId.value);
          if k.None? then
            r == Failed(BookNotFound) && unchanged(this)
          else if old(books)[k.value].status != Loaned then
            r == Failed(NotLent) && unchanged(this)
          else
            var j := FindOpenLoan(old(loans), memberId.value, bookId.value);
            if j.None? then
              r == Failed(NoOpenLoan) && unchanged(this)
            else
              && r == Done
              && loans == old(loans)[j.value := old(loans)[j.value].(returnDate := Some(today))]
              && books == old(books)[k.value := old(books)[k.value].(status := Available)]
      ensures |loans| == |old(loans)|
      ensures forall i :: 0 <= i < |loans| && (memberId.None? || old(loans)[i].memberId != memberId.value) ==>
        loans[i] == old(loans)[i]
      ensures NoOpenLoans(old(loans)) ==> r.Failed? && unchanged(this)
    {
      if memberId.None? || bookId.None? {
        return Failed(MissingId);
      }
      var found := FindBook(books, bookId.value);
      if found.None? {
        return Failed(BookNotFound);
      }
      var k := found.value;
      if books[k].status != Loaned {
        return Failed(NotLent);
      }
      var open := FindOpenLoan(loans, memberId.value, bookId.value);
      if open.None? {
        return Failed(NoOpenLoan);
      }
      var j := open.value;
      loans := loans[j := loans[j].(returnDate := Some(today))];
      books := books[k := books[k].(status := Available)];
      r := Done;
    }

    /**
     * renovar_emprestimo, the second definition (the one the name is bound
     * to): the first open loan of this member on this book gets
     * data_devolucao = today + 14, provided the book has fewer than
     * max_renovacoes open loans. No book status changes. Writing the date
     * makes the loan no longer open. Test-asserted: a missing id is refused.
     */
    method RenewLoan(memberId: Option<int>, bookId: Option<int>, today: int) returns (r: Outcome)
      requires Valid()
      modifies this
      ensures Valid()
      ensures members == old(members) && books == old(books)
      ensures nextMemberId == old(nextMemberId) && nextBookId == old(nextBookId) && nextLoanId == old(nextLoanId)
      ensures if memberId.None? || bookId.None? then
          r == Failed(MissingId) && unchanged(this)
        else
          var j := FindOpenLoan(old(loans), memberId.value, bookId.value);
          if j.None? then
            r == Failed(NoOpenLoan) && unchanged(this)
          else if CountOpenLoans(old(loans), bookId.value) >= MaxRenewals then
            r == Failed(RenewalLimit) && unchanged(this)
          else
            && r == DueOn(today + LoanDays)
            && loans == old(loans)[j.value := old(loans)[j.value].(returnDate := Some(today + LoanDays))]
      ensures r.DueOn? ==> bookId.Some? && CountOpenLoans(loans, bookId.value) == 0
      ensures memberId.Some? && bookId.Some? && FindOpenLoan(old(loans), memberId.value, bookId.value).Some? ==>
        var k := FindOpenLoan(old(loans), memberId.value, bookId.value).value;
        (r.DueOn? <==> forall j :: 0 <= j < |old(loans)| && j != k ==>
                         !(IsOpen(old(loans)[j]) && old(loans)[j].bookId == bookId.value))
      ensures NoOpenLoans(old(loans)) ==> r.Failed? && unchanged(this)
    {
      if memberId.None? || bookId.None? {
        return Failed(MissingId);
      }
      var open := FindOpenLoan(loans, memberId.value, bookId.value);
      if open.None? {
        return Failed(NoOpenLoan);
      }
      var j := open.value;
      BelowCapIffSole(loans, bookId.value, j);
      if CountOpenLoans(loans, bookId.value) >= MaxRenewals {
        return Failed(RenewalLimit);
      }
      CountBelowTwoMeansSole(loans, bookId.value, j);
      var due := today + LoanDays;
      loans := loans[j := loans[j].(returnDate := Some(due))];
      r := DueOn(due);
    }
  }
}
