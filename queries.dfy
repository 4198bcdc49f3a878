/**
 * The read-only queries: consultar_historico, consultar_disponibilidade
 * and gerar_relatorio. Each is a function of the tables (and of today's
 * day number where the query reads the clock).
 */
module Queries {
  import opened Records

  /**
   * The rows an inner JOIN livros ON emprestimos.livro_id = livros.id makes
   * for one loan: one per book row carrying the loan's book id.
   */
  function RowsFor<R>(l: Loan, books: seq<Book>, row: (string, Loan) -> R): seq<R>
  {
    if books == [] then []
    else (if books[0].id == l.bookId then [row(books[0].title, l)] else []) + RowsFor(l, books[1..], row)
  }

  lemma {:induction false} RowsForMembers<R>(l: Loan, books: seq<Book>, row: (string, Loan) -> R, x: R)
    ensures x in RowsFor(l, books, row) <==>
      exists j :: 0 <= j < |books| && books[j].id == l.bookId && x == row(books[j].title, l)
  {
    if books != [] {
      RowsForMembers(l, books[1..], row, x);
      assert forall j :: 1 <= j < |books| ==> books[j] == books[1..][j - 1];
      if x in RowsFor(l, books[1..], row) {
        var j :| 0 <= j < |books[1..]| && books[1..][j].id == l.bookId && x == row(books[1..][j].title, l);
        assert books[j + 1] == books[1..][j];
      }
    }
  }

  /**
   * SELECT ... FROM emprestimos JOIN livros ON emprestimos.livro_id =
   * livros.id WHERE keep(emprestimo): for each kept loan, in table order,
   * one row per matching book.
   */
  function Join<R>(loans: seq<Loan>, books: seq<Book>, keep: Loan -> bool, row: (string, Loan) -> R): seq<R>
  {
    if loans == [] then []
    else (if keep(loans[0]) then RowsFor(loans[0], books, row) else []) + Join(loans[1..], books, keep, row)
  }

  /** A joined row exists exactly for each kept loan and each book row with that loan's book id. */
  lemma {:induction false} JoinMembers<R>(loans: seq<Loan>, books: seq<Book>, keep: Loan -> bool,
                                             row: (string, Loan) -> R, x: R)
    ensures x in Join(loans, books, keep, row) <==>
      exists i, j :: 0 <= i < |loans| && 0 <= j < |books| && keep(loans[i])
                     && books[j].id == loans[i].bookId && x == row(books[j].title, loans[i])
  {
    if loans != [] {
      JoinMembers(loans[1..], books, keep, row, x);
      RowsForMembers(loans[0], books, row, x);
      if x in Join(loans[1..], books, keep, row) {
        var i, j :| 0 <= i < |loans[1..]| && 0 <= j < |books| && keep(loans[1..][i])
          && books[j].id == loans[1..][i].bookId && x == row(books[j].title, loans[1..][i]);
        assert loans[i + 1] == loans[1..][i];
      }
      if exists i, j :: 0 <= i < |loans| && 0 <= j < |books| && keep(loans[i])
                       && books[j].id == loans[i].bookId && x == row(books[j].title, loans[i]) {
        var i, j :| 0 <= i < |loans| && 0 <= j < |books| && keep(loans[i])
          && books[j].id == loans[i].bookId && x == row(books[j].title, loans[i]);
        if i > 0 {
          assert loans[1..][i - 1] == loans[i];
        }
      }
    }
  }

  /** A join is empty exactly when no kept loan meets a book row with its book id. */
  lemma JoinEmpty<R>(loans: seq<Loan>, books: seq<Book>, keep: Loan -> bool, row: (string, Loan) -> R)
    ensures Join(loans, books, keep, row) == [] <==>
      forall i, j :: 0 <= i < |loans| && 0 <= j < |books| && keep(loans[i]) ==> books[j].id != loans[i].bookId
  {
    var rows := Join(loans, books, keep, row);
    if rows != [] {
      JoinMembers(loans, books, keep, row, rows[0]);
    }
    if exists i, j :: 0 <= i < |loans| && 0 <= j < |books| && keep(loans[i]) && books[j].id == loans[i].bookId {
      var i, j :| 0 <= i < |loans| && 0 <= j < |books| && keep(loans[i]) && books[j].id == loans[i].bookId;
      JoinMembers(loans, books, keep, row, row(books[j].title, loans[i]));
    }
  }

  // consultar_historico

  /** A history row: (livros.titulo, data_emprestimo, data_devolucao). */
  datatype HistoryEntry = HistoryEntry(title: string, loanDate: int, returnDate: Option<int>)

  datatype HistoryResult = MissingMemberId | NoHistory | History(entries: seq<HistoryEntry>)

  /**
   * consultar_historico: every loan of the member joined with its book; an
   * empty answer is reported as no history. Test-asserted: a missing id is
   * refused before any query (app.py itself just finds no rows for None).
   */
  function ConsultHistory(memberId: Option<int>, loans: seq<Loan>, books: seq<Book>): (r: HistoryResult)
    ensures memberId.None? <==> r == MissingMemberId
    ensures r == NoHistory <==> (memberId.Some? &&
      forall i, j :: 0 <= i < |loans| && 0 <= j < |books| && loans[i].memberId == memberId.value
        ==> books[j].id != loans[i].bookId)
    ensures r.History? ==> memberId.Some? && forall e :: e in r.entries <==>
      exists i, j :: 0 <= i < |loans| && 0 <= j < |books| && loans[i].memberId == memberId.value
        && books[j].id == loans[i].bookId
        && e == HistoryEntry(books[j].title, loans[i].loanDate, loans[i].returnDate)
  {
    match memberId
    case None => MissingMemberId
    case Some(m) =>
      var keep := (l: Loan) => l.memberId == m;
      var row := (t: string, l: Loan) => HistoryEntry(t, l.loanDate, l.returnDate);
      var entries := Join(loans, books, keep, row);
      JoinEmpty(loans, books, keep, row);
      assert forall e :: e in entries <==>
        exists i, j :: 0 <= i < |loans| && 0 <= j < |books| && keep(loans[i])
          && books[j].id == loans[i].bookId && e == row(books[j].title, loans[i]) by {
        forall e { JoinMembers(loans, books, keep, row, e); }
      }
      if entries == [] then NoHistory else History(entries)
  }

  // consultar_disponibilidade

  datatype AvailabilityResult = MissingBookId | UnknownBook | Status(status: BookStatus)

  /**
   * consultar_disponibilidade: the status of the book row with that id, or
   * a not-found answer. Test-asserted: a missing id is refused before any
   * query (app.py itself just finds no row for None).
   */
  function ConsultAvailability(bookId: Option<int>, books: seq<Book>): (r: AvailabilityResult)
    ensures bookId.None? <==> r == MissingBookId
    ensures r == UnknownBook <==> bookId.Some? && forall j :: 0 <= j < |books| ==> books[j].id != bookId.value
    ensures r.Status? ==> (bookId.Some? &&
      exists j :: 0 <= j < |books| && books[j].id == bookId.value && books[j].status == r.status)
  {
    match bookId
    case None => MissingBookId
    case Some(b) =>
      match FindBook(books, b)
      case None => UnknownBook
      case Some(k) => Status(books[k].status)
  }

  // gerar_relatorio

  /** A row of the 'emprestados' report: (titulo, COUNT(emprestimos.id)). */
  datatype TitleCount = TitleCount(title: string, count: nat)

  /** A row of the 'atraso' report: (titulo, data_devolucao). */
  datatype TitleDate = TitleDate(title: string, returnDate: Option<int>)

  datatype Report =
    | InvalidKind
    | NoData
    | LentReport(lent: seq<TitleCount>)
    | AvailableReport(titles: seq<string>)
    | OverdueReport(overdue: seq<TitleDate>)

  /** SELECT titulo FROM livros WHERE status = 'Disponível', in table order. */
  function AvailableTitles(books: seq<Book>): (r: seq<string>)
    ensures |r| <= |books|
    ensures forall t :: t in r <==>
      exists j :: 0 <= j < |books| && books[j].status == Available && books[j].title == t
  {
    if books == [] then []
    else
      var rest := AvailableTitles(books[1..]);
      assert forall j :: 1 <= j < |books| ==> books[j] == books[1..][j - 1];
      (if books[0].status == Available then [books[0].title] else []) + rest
  }

  /** The joined row of the 'emprestados' report keeps only livros.titulo. */
  function TitleOf(title: string, l: Loan): string
  {
    title
  }

  /** The join rows of the 'emprestados' report before grouping: one title per open loan and matching book. */
  function LentTitles(loans: seq<Loan>, books: seq<Book>): (ts: seq<string>)
    ensures forall t :: t in ts <==>
      exists i, j :: 0 <= i < |loans| && 0 <= j < |books| && IsOpen(loans[i])
        && books[j].id == loans[i].bookId && books[j].title == t
  {
    var ts := Join(loans, books, IsOpen, TitleOf);
    assert forall t :: t in ts <==>
      exists i, j :: 0 <= i < |loans| && 0 <= j < |books| && IsOpen(loans[i])
        && books[j].id == loans[i].bookId && t == TitleOf(books[j].title, loans[i]) by {
      forall t { JoinMembers(loans, books, IsOpen, TitleOf, t); }
    }
    ts
  }

  /** How many times t occurs in ts. */
  function Occurrences(ts: seq<string>, t: string): (n: nat)
    ensures n <= |ts|
    ensures n > 0 <==> t in ts
  {
    if ts == [] then 0
    else (if ts[0] == t then 1 else 0) + Occurrences(ts[1..], t)
  }

  /** Counting distributes over concatenation. */
  lemma {:induction false} OccurrencesAppend(a: seq<string>, b: seq<string>, t: string)
    ensures Occurrences(a + b, t) == Occurrences(a, t) + Occurrences(b, t)
  {
    if a == [] {
      assert a + b == b;
    } else {
      assert (a + b)[1..] == a[1..] + b;
      OccurrencesAppend(a[1..], b, t);
    }
  }

  /** The 'Disponível' books from position lo on that carry title t. */
  ghost function AvailableFrom(books: seq<Book>, t: string, lo: nat): set<int>
  {
    set j | lo <= j < |books| && books[j].status == Available && books[j].title == t
  }

  lemma AvailableFromSplit(books: seq<Book>, t: string, lo: nat)
    requires lo < |books|
    ensures |AvailableFrom(books, t, lo)|
            == (if books[lo].status == Available && books[lo].title == t then 1 else 0)
               + |AvailableFrom(books, t, lo + 1)|
  {
    var s, s' := AvailableFrom(books, t, lo), AvailableFrom(books, t, lo + 1);
    if books[lo].status == Available && books[lo].title == t {
      SizeAfterAdd(s, s', lo);
    } else {
      assert s == s' by {
        assert forall x :: x in s <==> x in s';
      }
    }
  }

  /** A singleton or empty head counts t at most once. */
  lemma OccurrencesHead(head: seq<string>, rest: seq<string>, t: string)
    requires |head| <= 1
    ensures Occurrences(head + rest, t) == (if head != [] && head[0] == t then 1 else 0) + Occurrences(rest, t)
  {
    OccurrencesAppend(head, rest, t);
    assert head == [] || head[1..] == [];
  }

  lemma {:induction false} AvailableTitlesFrom(books: seq<Book>, t: string, lo: nat)
    requires lo <= |books|
    ensures Occurrences(AvailableTitles(books[lo..]), t) == |AvailableFrom(books, t, lo)|
    decreases |books| - lo
  {
    if lo == |books| {
      assert AvailableFrom(books, t, lo) == {};
    } else {
      AvailableTitlesFrom(books, t, lo + 1);
      AvailableFromSplit(books, t, lo);
      var b := books[lo];
      var head: seq<string> := if b.status == Available then [b.title] else [];
      assert AvailableTitles(books[lo..]) == head + AvailableTitles(books[lo + 1..]) by {
        assert books[lo..][0] == b && books[lo..][1..] == books[lo + 1..];
      }
      OccurrencesHead(head, AvailableTitles(books[lo + 1..]), t);
    }
  }

  /** The 'disponiveis' report lists each title once per 'Disponível' book that carries it. */
  lemma AvailableTitlesCount(books: seq<Book>, t: string)
    ensures Occurrences(AvailableTitles(books), t)
            == |set j | 0 <= j < |books| && books[j].status == Available && books[j].title == t|
  {
    AvailableTitlesFrom(books, t, 0);
    assert books[0..] == books;
  }

  /** The pairs (i, j) with j >= lo that join loan i to a book row titled t. */
  ghost function RowPairs(loans: seq<Loan>, i: nat, books: seq<Book>, t: string, lo: nat): set<(int, int)>
    requires i < |loans|
  {
    set j | lo <= j < |books| && books[j].id == loans[i].bookId && books[j].title == t :: (i, j)
  }

  lemma RowPairsMembers(loans: seq<Loan>, i: nat, books: seq<Book>, t: string, lo: nat)
    requires i < |loans|
    ensures forall x: (int, int) :: x in RowPairs(loans, i, books, t, lo) <==>
      x.0 == i && lo <= x.1 < |books| && books[x.1].id == loans[i].bookId && books[x.1].title == t
  {
    forall x: (int, int) | x.0 == i && lo <= x.1 < |books| && books[x.1].id == loans[i].bookId && books[x.1].title == t
      ensures x in RowPairs(loans, i, books, t, lo)
    {
      assert x == (i, x.1);
    }
  }

  lemma RowPairsSplit(loans: seq<Loan>, i: nat, books: seq<Book>, t: string, lo: nat)
    requires i < |loans| && lo < |books|
    ensures |RowPairs(loans, i, books, t, lo)|
            == (if books[lo].id == loans[i].bookId && books[lo].title == t then 1 else 0)
               + |RowPairs(loans, i, books, t, lo + 1)|
  {
    var s, s' := RowPairs(loans, i, books, t, lo), RowPairs(loans, i, books, t, lo + 1);
    RowPairsMembers(loans, i, books, t, lo);
    RowPairsMembers(loans, i, books, t, lo + 1);
    if books[lo].id == loans[i].bookId && books[lo].title == t {
      SizeAfterAdd(s, s', (i, lo));
    } else {
      assert s == s';
    }
  }

  lemma {:induction false} RowsForCount(loans: seq<Loan>, i: nat, books: seq<Book>, t: string, lo: nat)
    requires i < |loans| && lo <= |books|
    ensures Occurrences(RowsFor(loans[i], books[lo..], TitleOf), t) == |RowPairs(loans, i, books, t, lo)|
    decreases |books| - lo
  {
    if lo == |books| {
      assert RowPairs(loans, i, books, t, lo) == {};
    } else {
      RowsForCount(loans, i, books, t, lo + 1);
      RowPairsSplit(loans, i, books, t, lo);
      var b := books[lo];
      var head: seq<string> := if b.id == loans[i].bookId then [b.title] else [];
      assert RowsFor(loans[i], books[lo..], TitleOf) == head + RowsFor(loans[i], books[lo + 1..], TitleOf) by {
        assert books[lo..][0] == b && books[lo..][1..] == books[lo + 1..];
      }
      OccurrencesHead(head, RowsFor(loans[i], books[lo + 1..], TitleOf), t);
    }
  }

  /** The pairs (i, j) with i >= lo that join an open loan i to a book row j titled t. */
  ghost function LentPairs(loans: seq<Loan>, books: seq<Book>, t: string, lo: nat): set<(int, int)>
  {
    set i, j | lo <= i < |loans| && 0 <= j < |books| && IsOpen(loans[i])
      && books[j].id == loans[i].bookId && books[j].title == t :: (i, j)
  }

  lemma LentPairsSplit(loans: seq<Loan>, books: seq<Book>, t: string, lo: nat)
    requires lo < |loans|
    ensures |LentPairs(loans, books, t, lo)|
            == (if IsOpen(loans[lo]) then |RowPairs(loans, lo, books, t, 0)| else 0)
               + |LentPairs(loans, books, t, lo + 1)|
  {
    var s, s' := LentPairs(loans, books, t, lo), LentPairs(loans, books, t, lo + 1);
    var first: set<(int, int)> := if IsOpen(loans[lo]) then RowPairs(loans, lo, books, t, 0) else {};
    assert s == first + s';
    assert first * s' == {};
  }

  lemma {:induction false} LentTitlesFrom(loans: seq<Loan>, books: seq<Book>, t: string, lo: nat)
    requires lo <= |loans|
    ensures Occurrences(Join(loans[lo..], books, IsOpen, TitleOf), t) == |LentPairs(loans, books, t, lo)|
    decreases |loans| - lo
  {
    if lo == |loans| {
      assert LentPairs(loans, books, t, lo) == {};
    } else {
      LentTitlesFrom(loans, books, t, lo + 1);
      LentPairsSplit(loans, books, t, lo);
      var head := if IsOpen(loans[lo]) then RowsFor(loans[lo], books, TitleOf) else [];
      var rest := Join(loans[lo + 1..], books, IsOpen, TitleOf);
      assert Join(loans[lo..], books, IsOpen, TitleOf) == head + rest by {
        assert loans[lo..][0] == loans[lo] && loans[lo..][1..] == loans[lo + 1..];
      }
      assert IsOpen(loans[lo]) ==> Occurrences(head, t) == |RowPairs(loans, lo, books, t, 0)| by {
        RowsForCount(loans, lo, books, t, 0);
        assert books[0..] == books;
      }
      OccurrencesAppend(head, rest, t);
    }
  }

  /**
   * The 'emprestados' join yields title t once per pair of an open loan and
   * a book row with its id and that title, which is what COUNT counts.
   */
  lemma LentTitlesCount(loans: seq<Loan>, books: seq<Book>, t: string)
    ensures Occurrences(LentTitles(loans, books), t)
            == |set i, j | 0 <= i < |loans| && 0 <= j < |books| && IsOpen(loans[i])
                 && books[j].id == loans[i].bookId && books[j].title == t :: (i, j)|
  {
    LentTitlesFrom(loans, books, t, 0);
    assert loans[0..] == loans;
  }

  /** The titles of ts, each once. */
  function Distinct(ts: seq<string>): (r: seq<string>)
    ensures forall t :: t in r <==> t in ts
    ensures forall i, j :: 0 <= i < j < |r| ==> r[i] != r[j]
  {
    if ts == [] then []
    else
      var init := Distinct(ts[..|ts| - 1]);
      var last := ts[|ts| - 1];
      assert ts == ts[..|ts| - 1] + [last];
      if last in init then init else init + [last]
  }

  /** GROUP BY titulo with COUNT: one row per distinct title, with its number of rows. */
  function GroupByTitle(ts: seq<string>): (r: seq<TitleCount>)
    ensures forall g :: g in r <==> g.title in ts && g.count == Occurrences(ts, g.title)
    ensures forall i, j :: 0 <= i < j < |r| ==> r[i].title != r[j].title
    ensures r == [] <==> ts == []
  {
    var d := Distinct(ts);
    var r := seq(|d|, k requires 0 <= k < |d| => TitleCount(d[k], Occurrences(ts, d[k])));
    assert forall g :: g in r <==> g.title in ts && g.count == Occurrences(ts, g.title) by {
      forall g ensures g in r <==> g.title in ts && g.count == Occurrences(ts, g.title) {
        if g.title in ts && g.count == Occurrences(ts, g.title) {
          var k :| 0 <= k < |d| && d[k] == g.title;
          assert r[k] == g;
        }
      }
    }
    assert ts != [] ==> ts[0] in d;
    r
  }

  /** data_devolucao < today AND data_devolucao IS NOT NULL. */
  predicate BackDateBefore(l: Loan, today: int) {
    match l.returnDate
    case None => false
    case Some(d) => d < today
  }

  /**
   * gerar_relatorio: 'emprestados' groups the open loans' titles with their
   * counts, 'disponiveis' lists the available titles, 'atraso' lists every
   * loan whose data_devolucao is before today with its title. Any other
   * kind is refused without a query; an empty answer is reported as no data.
   */
  function GenerateReport(kind: string, books: seq<Book>, loans: seq<Loan>, today: int): (r: Report)
    ensures r == InvalidKind <==> kind != "emprestados" && kind != "disponiveis" && kind != "atraso"
    ensures kind == "emprestados" ==>
      (r == NoData <==> LentTitles(loans, books) == []) &&
      (r != NoData ==> r.LentReport? && r.lent == GroupByTitle(LentTitles(loans, books)))
    ensures kind == "disponiveis" ==>
      (r == NoData <==> forall j :: 0 <= j < |books| ==> books[j].status != Available) &&
      (r != NoData ==> r.AvailableReport? && r.titles == AvailableTitles(books))
    ensures kind == "atraso" ==>
      (r == NoData <==> forall i, j :: 0 <= i < |loans| && 0 <= j < |books| && BackDateBefore(loans[i], today)
                                       ==> books[j].id != loans[i].bookId) &&
      (r != NoData ==> r.OverdueReport? && forall x :: x in r.overdue <==>
        exists i, j :: 0 <= i < |loans| && 0 <= j < |books| && BackDateBefore(loans[i], today)
          && books[j].id == loans[i].bookId && x == TitleDate(books[j].title, loans[i].returnDate))
  {
    if kind == "emprestados" then
      var g := GroupByTitle(LentTitles(loans, books));
      if g == [] then NoData else LentReport(g)
    else if kind == "disponiveis" then
      var ts := AvailableTitles(books);
      assert forall j :: 0 <= j < |books| && books[j].status == Available ==> books[j].title in ts;
      if ts == [] then
        NoData
      else
        assert ts[0] in ts;
        AvailableReport(ts)
    else if kind == "atraso" then
      var keep := (l: Loan) => BackDateBefore(l, today);
      var row := (t: string, l: Loan) => TitleDate(t, l.returnDate);
      var rows := Join(loans, books, keep, row);
      JoinEmpty(loans, books, keep, row);
      assert forall x :: x in rows <==>
        exists i, j :: 0 <= i < |loans| && 0 <= j < |books| && keep(loans[i])
          && books[j].id == loans[i].bookId && x == row(books[j].title, loans[i]) by {
        forall x { JoinMembers(loans, books, keep, row, x); }
      }
      if rows == [] then NoData else OverdueReport(rows)
    else
      InvalidKind
  }

  /**
   * Each row of the 'emprestados' report carries, as its COUNT, the number
   * of pairs of an open loan and a book row with its id and that title.
   */
  lemma LentReportCounts(books: seq<Book>, loans: seq<Loan>, today: int, g: TitleCount)
    requires GenerateReport("emprestados", books, loans, today).LentReport?
    requires g in GenerateReport("emprestados", books, loans, today).lent
    ensures g.count > 0
    ensures g.count == |set i, j | 0 <= i < |loans| && 0 <= j < |books| && IsOpen(loans[i])
                         && books[j].id == loans[i].bookId && books[j].title == g.title :: (i, j)|
  {
    LentTitlesCount(loans, books, g.title);
  }

  /** The 'disponiveis' report lists each title as often as 'Disponível' books carry it. */
  lemma AvailableReportCounts(books: seq<Book>, loans: seq<Loan>, today: int, t: string)
    requires GenerateReport("disponiveis", books, loans, today).AvailableReport?
    ensures Occurrences(GenerateReport("disponiveis", books, loans, today).titles, t)
            == |set j | 0 <= j < |books| && books[j].status == Available && books[j].title == t|
  {
    AvailableTitlesCount(books, t);
  }
}
