/**
 * The rows of the three tables that create_tables declares (usuarios,
 * livros, emprestimos), the constraints the schema imposes on them, and
 * the SELECT ... WHERE lookups the operations run.
 */
module Records {

  datatype Option<T> = None | Some(value: T)

  /** livros.status: the code only ever writes 'Disponível' or 'Emprestado'. */
  datatype BookStatus = Available | Loaned

  /** A row of usuarios(id, nome, cpf, email, telefone). */
  datatype Member = Member(id: int, name: string, cpf: string, email: string, phone: string)

  /** A row of livros(id, titulo, autor, isbn, categoria, status). */
  datatype Book = Book(id: int, title: string, author: string, isbn: string, category: string,
                       status: BookStatus)

  /**
   * A row of emprestimos(id, usuario_id, livro_id, data_emprestimo,
   * data_devolucao). Dates are day numbers. The one column data_devolucao,
   * here returnDate, holds both the due date written when the book is lent
   * and the date written when it comes back; None is SQL NULL.
   */
  datatype Loan = Loan(id: int, memberId: int, bookId: int, loanDate: int,
                       returnDate: Option<int>)

  /** The lookups' notion of an outstanding loan: data_devolucao IS NULL. */
  predicate IsOpen(l: Loan) {
    l.returnDate.None?
  }

  /** No loan has a NULL data_devolucao. */
  predicate NoOpenLoans(loans: seq<Loan>) {
    forall i :: 0 <= i < |loans| ==> !IsOpen(loans[i])
  }

  // INTEGER PRIMARY KEY AUTOINCREMENT: every id is below the table's next
  // id, ids were handed out from 1 in increasing order and are never reused.

  predicate MemberIdsFresh(members: seq<Member>, next: int) {
    && 1 <= next
    && (forall i :: 0 <= i < |members| ==> 1 <= members[i].id < next)
    && (forall i, j :: 0 <= i < j < |members| ==> members[i].id < members[j].id)
  }

  predicate BookIdsFresh(books: seq<Book>, next: int) {
    && 1 <= next
    && (forall i :: 0 <= i < |books| ==> 1 <= books[i].id < next)
    && (forall i, j :: 0 <= i < j < |books| ==> books[i].id < books[j].id)
  }

  predicate LoanIdsFresh(loans: seq<Loan>, next: int) {
    && 1 <= next
    && (forall i :: 0 <= i < |loans| ==> 1 <= loans[i].id < next)
    && (forall i, j :: 0 <= i < j < |loans| ==> loans[i].id < loans[j].id)
  }

  /** An INSERT takes the next id and moves the counter on. */
  lemma MemberIdsAppend(members: seq<Member>, next: int, m: Member)
    requires MemberIdsFresh(members, next) && m.id == next
    ensures MemberIdsFresh(members + [m], next + 1)
  {
    assert forall i :: 0 <= i < |members| ==> (members + [m])[i] == members[i];
  }

  lemma BookIdsAppend(books: seq<Book>, next: int, b: Book)
    requires BookIdsFresh(books, next) && b.id == next
    ensures BookIdsFresh(books + [b], next + 1)
  {
    assert forall i :: 0 <= i < |books| ==> (books + [b])[i] == books[i];
  }

  lemma LoanIdsAppend(loans: seq<Loan>, next: int, l: Loan)
    requires LoanIdsFresh(loans, next) && l.id == next
    ensures LoanIdsFresh(loans + [l], next + 1)
  {
    assert forall i :: 0 <= i < |loans| ==> (loans + [l])[i] == loans[i];
  }

  /** Deleting a row keeps the order of the others, hence their constraints. */
  lemma BooksRemoveAt(books: seq<Book>, next: int, k: nat)
    requires k < |books|
    requires BookIdsFresh(books, next) && IsbnsUnique(books)
    ensures var rest := books[..k] + books[k + 1..];
      && |rest| == |books| - 1
      && (forall i :: 0 <= i < |rest| ==> rest[i] == books[if i < k then i else i + 1])
      && BookIdsFresh(rest, next) && IsbnsUnique(rest)
  {
    var rest := books[..k] + books[k + 1..];
    forall i | 0 <= i < |rest|
      ensures rest[i] == books[if i < k then i else i + 1]
    {
    }
  }

  /** With unique ids, deleting row k removes exactly the rows with its id. */
  lemma BooksRemoveAtMembers(books: seq<Book>, next: int, k: nat)
    requires k < |books| && BookIdsFresh(books, next)
    ensures forall b :: b in books[..k] + books[k + 1..] <==> b in books && b.id != books[k].id
  {
    var rest := books[..k] + books[k + 1..];
    forall b ensures b in rest <==> b in books && b.id != books[k].id {
      if b in books && b.id != books[k].id {
        var i :| 0 <= i < |books| && books[i] == b;
        assert rest[if i < k then i else i - 1] == b;
      }
    }
  }

  /** usuarios.cpf is UNIQUE. */
  predicate CpfsUnique(members: seq<Member>) {
    forall i, j :: 0 <= i < j < |members| ==> members[i].cpf != members[j].cpf
  }

  /** livros.isbn is UNIQUE. */
  predicate IsbnsUnique(books: seq<Book>) {
    forall i, j :: 0 <= i < j < |books| ==> books[i].isbn != books[j].isbn
  }

  predicate CpfInUse(members: seq<Member>, cpf: string) {
    exists i :: 0 <= i < |members| && members[i].cpf == cpf
  }

  predicate IsbnInUse(books: seq<Book>, isbn: string) {
    exists i :: 0 <= i < |books| && books[i].isbn == isbn
  }

  /**
   * SELECT ... FROM livros WHERE id = ?, fetchone(): the position of the
   * first row with that id, if any.
   */
  function FindBook(books: seq<Book>, id: int): (r: Option<nat>)
    ensures r.Some? ==> r.value < |books| && books[r.value].id == id
    ensures r.Some? ==> forall j :: 0 <= j < r.value ==> books[j].id != id
    ensures r.None? <==> forall j :: 0 <= j < |books| ==> books[j].id != id
  {
    if books == [] then None
    else if books[0].id == id then Some(0)
    else match FindBook(books[1..], id)
      case None => None
      case Some(k) => Some(k + 1)
  }

  /** With unique ids, the row found is the only row with that id. */
  lemma FindBookUnique(books: seq<Book>, next: int, id: int, j: int)
    requires BookIdsFresh(books, next)
    requires 0 <= j < |books| && books[j].id == id
    ensures FindBook(books, id) == Some(j)
  {
  }

  /**
   * SELECT id FROM emprestimos WHERE usuario_id = ? AND livro_id = ? AND
   * data_devolucao IS NULL, fetchone(): the first open loan of that member
   * on that book, if any.
   */
  function FindOpenLoan(loans: seq<Loan>, memberId: int, bookId: int): (r: Option<nat>)
    ensures r.Some? ==> r.value < |loans| && IsOpen(loans[r.value])
                        && loans[r.value].memberId == memberId && loans[r.value].bookId == bookId
    ensures r.None? <==> forall j :: 0 <= j < |loans| ==>
      !(IsOpen(loans[j]) && loans[j].memberId == memberId && loans[j].bookId == bookId)
  {
    if loans == [] then None
    else if IsOpen(loans[0]) && loans[0].memberId == memberId && loans[0].bookId == bookId then Some(0)
    else match FindOpenLoan(loans[1..], memberId, bookId)
      case None => None
      case Some(k) => Some(k + 1)
  }

  /**
   * SELECT COUNT(*) FROM emprestimos WHERE livro_id = ? AND
   * data_devolucao IS NULL: the number of open loans on the book.
   */
  function CountOpenLoans(loans: seq<Loan>, bookId: int): (n: nat)
    ensures n <= |loans|
    ensures n == 0 <==> forall j :: 0 <= j < |loans| ==> !(IsOpen(loans[j]) && loans[j].bookId == bookId)
  {
    if loans == [] then 0
    else (if IsOpen(loans[0]) && loans[0].bookId == bookId then 1 else 0)
         + CountOpenLoans(loans[1..], bookId)
  }

  /** Adding an element a set lacks adds one to its size. */
  lemma SizeAfterAdd<T>(s: set<T>, s': set<T>, x: T)
    requires forall y :: y in s <==> y in s' || y == x
    requires x !in s'
    ensures |s| == |s'| + 1
  {
    assert s == s' + {x};
  }

  /** The positions at or after lo of the open loans on the book. */
  ghost function OpenOnBookFrom(loans: seq<Loan>, bookId: int, lo: nat): set<int>
  {
    set j | lo <= j < |loans| && IsOpen(loans[j]) && loans[j].bookId == bookId
  }

  /** COUNT(*) over a suffix is the number of open loans on the book in it. */
  lemma {:induction false} CountOpenLoansFrom(loans: seq<Loan>, bookId: int, lo: nat)
    requires lo <= |loans|
    ensures CountOpenLoans(loans[lo..], bookId) == |OpenOnBookFrom(loans, bookId, lo)|
    decreases |loans| - lo
  {
    var s := OpenOnBookFrom(loans, bookId, lo);
    if lo == |loans| {
      assert s == {};
    } else {
      var s' := OpenOnBookFrom(loans, bookId, lo + 1);
      CountOpenLoansFrom(loans, bookId, lo + 1);
      assert loans[lo..][1..] == loans[lo + 1..];
      assert loans[lo..][0] == loans[lo];
      if IsOpen(loans[lo]) && loans[lo].bookId == bookId {
        SizeAfterAdd(s, s', lo);
      } else {
        assert s == s';
      }
    }
  }

  /** The renewal cap's COUNT(*) is exactly the number of open loans on the book. */
  lemma CountOpenLoansIsSize(loans: seq<Loan>, bookId: int)
    ensures CountOpenLoans(loans, bookId)
            == |set j | 0 <= j < |loans| && IsOpen(loans[j]) && loans[j].bookId == bookId|
  {
    CountOpenLoansFrom(loans, bookId, 0);
    assert loans[0..] == loans;
  }

  /**
   * The count stays below 2 only when the open loan that was found is the
   * one open loan on its book: the renewal cap counts open loans, not
   * renewals.
   */
  lemma {:induction false} CountBelowTwoMeansSole(loans: seq<Loan>, bookId: int, k: nat)
    requires k < |loans| && IsOpen(loans[k]) && loans[k].bookId == bookId
    requires CountOpenLoans(loans, bookId) < 2
    ensures forall j :: 0 <= j < |loans| && j != k ==> !(IsOpen(loans[j]) && loans[j].bookId == bookId)
  {
    if k == 0 {
      assert CountOpenLoans(loans[1..], bookId) == 0;
      assert forall j :: 1 <= j < |loans| ==> loans[j] == loans[1..][j - 1];
    } else {
      CountBelowTwoMeansSole(loans[1..], bookId, k - 1);
      assert forall j :: 1 <= j < |loans| ==> loans[j] == loans[1..][j - 1];
    }
  }

  /**
   * Conversely, when the found open loan is the only open loan on its book
   * the count is 1, below the cap: the renewal goes ahead.
   */
  lemma SoleOpenLoanCountsOne(loans: seq<Loan>, bookId: int, k: nat)
    requires k < |loans| && IsOpen(loans[k]) && loans[k].bookId == bookId
    requires forall j :: 0 <= j < |loans| && j != k ==> !(IsOpen(loans[j]) && loans[j].bookId == bookId)
    ensures CountOpenLoans(loans, bookId) == 1
  {
    CountOpenLoansIsSize(loans, bookId);
    assert (set j | 0 <= j < |loans| && IsOpen(loans[j]) && loans[j].bookId == bookId) == {k};
  }

  /** The cap of 2 lets a found open loan be renewed iff it is its book's only open loan. */
  lemma BelowCapIffSole(loans: seq<Loan>, bookId: int, k: nat)
    requires k < |loans| && IsOpen(loans[k]) && loans[k].bookId == bookId
    ensures CountOpenLoans(loans, bookId) < 2 <==>
      forall j :: 0 <= j < |loans| && j != k ==> !(IsOpen(loans[j]) && loans[j].bookId == bookId)
  {
    if CountOpenLoans(loans, bookId) < 2 {
      CountBelowTwoMeansSole(loans, bookId, k);
    }
    if forall j :: 0 <= j < |loans| && j != k ==> !(IsOpen(loans[j]) && loans[j].bookId == bookId) {
      SoleOpenLoanCountsOne(loans, bookId, k);
    }
  }
}
