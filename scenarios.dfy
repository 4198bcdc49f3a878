/**
 * The loan lifecycle run on fresh tables with the records of app.py's
 * demonstration: because emprestar_livro fills data_devolucao at once, the
 * loan it creates is never found by devolver_livro or renovar_emprestimo,
 * and the book stays 'Emprestado'.
 */
module Scenarios {
  import opened Records
  import opened Circulation
  import Queries
  import Registration

  /** The demonstration member passes every registration check. */
  lemma DemoMemberAccepted()
    ensures Registration.CheckRegistration("João Silva", "12345678901", "joao.silva@example.com", "11987654321")
            == Registration.Accepted
  {
    Registration.ElevenDigitsValid("12345678901");
    assert Registration.IsValidCpf("12345678901");
    Registration.ValidEmailExample();
    assert Registration.IsValidEmail("joao.silva@example.com");
  }

  const DemoBook := Book(1, "Python para Iniciantes", "Jane Doe", "9781234567890", "Tecnologia", Available)

  /**
   * On fresh tables, a member who passes the registration checks and a book
   * with every field given are both registered, and both get id 1.
   */
  method FreshLibrary(name: string, cpf: string, email: string, phone: string,
                      title: string, author: string, isbn: string, category: string)
    returns (lib: Library, registered: Outcome, added: Outcome)
    requires Registration.CheckRegistration(name, cpf, email, phone) == Registration.Accepted
    requires title != [] && author != [] && isbn != [] && category != []
    ensures fresh(lib) && lib.Valid()
    ensures registered == Done && added == Done
    ensures lib.members == [Member(1, name, cpf, email, phone)]
    ensures lib.books == [Book(1, title, author, isbn, category, Available)] && lib.loans == []
    ensures lib.nextMemberId == 2 && lib.nextBookId == 2 && lib.nextLoanId == 1
  {
    lib := new Library();
    registered := lib.RegisterMember(name, cpf, email, phone);
    added := lib.RegisterBook(title, author, isbn, category);
  }

  /**
   * Lend, lend again, return, renew. The second loan is refused, and the
   * return and the renewal find no open loan: the book stays lent and its
   * loan keeps the due date written when it was lent.
   */
  method LendThenReturn(today: int)
    returns (lent: Outcome, lentAgain: Outcome, returned: Outcome, renewed: Outcome,
             books: seq<Book>, loans: seq<Loan>)
    ensures lent == DueOn(today + LoanDays)
    ensures lentAgain == Failed(NotAvailable)
    ensures returned == Failed(NoOpenLoan) && renewed == Failed(NoOpenLoan)
    ensures books == [DemoBook.(status := Loaned)]
    ensures loans == [Loan(1, 1, 1, today, Some(today + LoanDays))]
  {
    DemoMemberAccepted();
    var lib, _, _ := FreshLibrary("João Silva", "12345678901", "joao.silva@example.com", "11987654321",
                                  DemoBook.title, DemoBook.author, DemoBook.isbn, DemoBook.category);
    lent := lib.LendBook(Some(1), Some(1), today);
    lentAgain := lib.LendBook(Some(2), Some(1), today);
    returned := lib.ReturnBook(Some(1), Some(1), today);
    renewed := lib.RenewLoan(Some(1), Some(1), today);
    books, loans := lib.books, lib.loans;
  }

  /**
   * The tables LendThenReturn leaves: the book reads as lent although no
   * loan on it is open, and once the due date has passed the loan shows in
   * the 'atraso' report.
   */
  lemma StuckLoanQueries(today: int)
    ensures var books := [DemoBook.(status := Loaned)];
      var loans := [Loan(1, 1, 1, today, Some(today + LoanDays))];
      && Queries.ConsultAvailability(Some(1), books) == Queries.Status(Loaned)
      && CountOpenLoans(loans, 1) == 0
      && var report := Queries.GenerateReport("atraso", books, loans, today + LoanDays + 1);
         report.OverdueReport? &&
         forall x :: x in report.overdue <==> x == Queries.TitleDate("Python para Iniciantes", Some(today + LoanDays))
  {
    var books := [DemoBook.(status := Loaned)];
    var loans := [Loan(1, 1, 1, today, Some(today + LoanDays))];
    assert Queries.BackDateBefore(loans[0], today + LoanDays + 1);
  }
}
