# Library circulation: a Dafny model

This project models the circulation core of a small library application
(`app.py`), which keeps three SQLite tables: members (`usuarios`), books
(`livros`, each with a status `'Disponível'` or `'Emprestado'`) and loans
(`emprestimos`). The operations register and update members, register and
remove books, lend a book (`emprestar_livro`), take it back
(`devolver_livro`) and renew a loan (`renovar_emprestimo`). Three read-only
queries go with them: a member's loan history, a book's availability, and
reports of lent, available and overdue books. The project also models the
member-registration validator of `tests/test_cadastrar_usuario.py`, which
checks that every field is present, then the CPF (Brazilian taxpayer
number), then the shape of the e-mail address.

Modules:

- `Registration` (`registration.dfy`) holds the validator as pure
  functions. `Digits` is `re.sub(r'\D', '', cpf)` and `IsValidCpf` is
  `is_valid_cpf`. The e-mail regular expression is written twice: once as
  the shape it describes (`EmailShape`) and once as the first-occurrence
  scan that decides it (`MatchesEmail`). A lemma proves that the two
  agree.
- `Records` (`records.dfy`) holds the row datatypes, the schema's
  constraints (AUTOINCREMENT ids, UNIQUE `cpf`, UNIQUE `isbn`) and the
  `SELECT … WHERE` lookups.
- `Queries` (`queries.dfy`) holds `consultar_historico`,
  `consultar_disponibilidade` and `gerar_relatorio` as functions of the
  tables. They share one definition of the inner join of loans with books.
- `Circulation` (`circulation.dfy`) holds the class `Library`, which stands
  in for the database. It has the three tables as sequences, one id
  counter per table, and one method per operation that changes the tables.
  Each method's contract gives the exact new state and the outcome, and
  states that the schema's constraints are kept.
- `Scenarios` (`scenarios.dfy`) runs the lifecycle on fresh tables, using
  the records of the demonstration in `app.py`'s `main`.

The clock is a parameter, `today`, counted in days. So
`timedelta(days=14)` becomes `+ 14`.

## How the code behaves, and where it departs from its design

- One column, `data_devolucao`, holds both the due date and the return
  date. `emprestar_livro` fills it with `today + 14` at once.
  `devolver_livro` and `renovar_emprestimo` only look for loans where it is
  NULL. So no loan is ever open. `LendBook`, `ReturnBook` and `RenewLoan`
  each keep `NoOpenLoans`, which holds on fresh tables. On such tables,
  `ReturnBook` and `RenewLoan` always refuse and change nothing.
  `Scenarios.LendThenReturn` shows a lend followed by a return and a
  renewal that both fail. The book then stays `'Emprestado'` for good, with
  no open loan behind it (`Scenarios.StuckLoanQueries`). Yet `main()`
  (app.py:236-237) returns the book right after lending it, and
  `tests/test_devolver_livro.py:7-28` expects such a return to succeed.
  The model follows the code.
- `renovar_emprestimo` is defined twice. The second definition rebinds the
  name, so it is the one modelled. It sets `data_devolucao` to
  `today + 14`, not to the old due date plus an extension. Its cap of 2
  counts the book's open loans, not renewals. Renewal is allowed only when
  the matched loan is the book's sole open loan
  (`Records.BelowCapIffSole`). Writing the date also closes that loan.
  The first, shadowed definition (app.py:122-136) instead adds 14 days to
  the stored date and has no cap.
- Only `cpf` and `isbn` are declared UNIQUE. E-mail addresses may repeat.
  In `app.py` a duplicate CPF or ISBN makes the INSERT raise
  `sqlite3.IntegrityError`, which leaves `cadastrar_usuario`
  (app.py:47-49) or `cadastrar_livro` (app.py:70-72) uncaught. The model
  returns the refusal `DuplicateCpf` or `DuplicateIsbn` instead, with the
  tables unchanged. The ISBN case is test-asserted
  (`tests/test_cadastrar_livro.py:47-64`, "ISBN já cadastrado"); no test
  covers the CPF case.
- The `'atraso'` report selects every loan whose `data_devolucao` is before
  today. That would include returned loans if any existed.
- A guard marked test-asserted comes from the later version that the test
  suite describes, not from `app.py`. These guards refuse a missing id, an
  empty required field, a book id with no row, a return of a book not
  marked `'Emprestado'`, and an update with nothing to update. Each refusal
  changes nothing. `RegisterMember` runs the validator of
  `tests/test_cadastrar_usuario.py` as its test-asserted guard. Where
  `emprestar_livro` crashes on a missing book (`fetchone()[0]` on `None`),
  the model refuses with `BookNotFound`, as the tests expect.

## Model

| member | source | states |
|---|---|---|
| Registration.Digits | tests/test_cadastrar_usuario.py:6 | stripping keeps only digits and never lengthens the string |
| Registration.DigitsKeepExactlyDigits | tests/test_cadastrar_usuario.py:6 | a character survives stripping iff it occurs in the input and is a digit |
| Registration.DigitsAppend | tests/test_cadastrar_usuario.py:6 | stripping a concatenation is the concatenation of the stripped parts |
| Registration.DigitsOfDigitString | tests/test_cadastrar_usuario.py:6 | a string of digits only is left unchanged |
| Registration.IsValidCpf | tests/test_cadastrar_usuario.py:5-7 | a CPF is valid iff exactly 11 digits remain after stripping; the isdigit() test never decides |
| Registration.ElevenDigitsValid | tests/test_cadastrar_usuario.py:5-7 | eleven bare digits form a valid CPF |
| Registration.FormattedCpfDigits | tests/test_cadastrar_usuario.py:6 | stripping three digit groups joined by non-digits, then a last part, leaves the groups followed by the last part's digits |
| Registration.PunctuatedCpfDigits | tests/test_cadastrar_usuario.py:6 | in a 14-character ddd.ddd.ddd-ee string, exactly the three groups and the digits of ee survive |
| Registration.PunctuatedCpfValid | tests/test_cadastrar_usuario.py:5-7 | any eleven digits punctuated as ddd.ddd.ddd-dd form a valid CPF |
| Registration.PunctuatedCpfShortInvalid | tests/test_cadastrar_usuario.py:5-7 | ddd.ddd.ddd-d followed by a non-digit leaves ten digits and is rejected |
| Registration.ValidCpfExample | tests/test_cadastrar_usuario.py:26-35 | "123.456.789-09" is accepted |
| Registration.OtherValidCpfExample | tests/test_cadastrar_usuario.py:62-71 | "111.222.333-44" is accepted |
| Registration.InvalidCpfExample | tests/test_cadastrar_usuario.py:50-59 | "111.222.333-4g" is rejected: ten digits remain |
| Registration.ShapeIsMatch | tests/test_cadastrar_usuario.py:10 | for an address of the regex shape, the scan finds that shape's '@' and '.' and accepts |
| Registration.MatchesEmailIsShape | tests/test_cadastrar_usuario.py:10 | the first-'@'/first-'.' scan accepts exactly the strings local@label.tail over the regex's character classes |
| Registration.IsValidEmailShape | tests/test_cadastrar_usuario.py:9-10 | an address is valid iff it has that shape, alone or followed by one newline (the '$' of re.match) |
| Registration.IsValidEmail | tests/test_cadastrar_usuario.py:9-10 | every valid address contains '@' (its full shape is in IsValidEmailShape) |
| Registration.NoAtIsInvalid | tests/test_cadastrar_usuario.py:9-10 | an address without '@' is never valid |
| Registration.AssembledEmailIsValid | tests/test_cadastrar_usuario.py:9-10 | every non-empty local part, label and tail drawn from the regex's classes, joined by '@' and '.', form a valid address |
| Registration.ValidEmailAt | tests/test_cadastrar_usuario.py:9-10 | a string whose characters, read position by position, are local@label.tail over the regex's classes is valid |
| Registration.ValidEmailExample | tests/test_cadastrar_usuario.py:26-35 | "joao.silva@example.com" is valid |
| Registration.InvalidEmailExample | tests/test_cadastrar_usuario.py:62-71 | "joao.silvaexample.com" is not valid |
| Registration.CheckRegistration | tests/test_cadastrar_usuario.py:12-23 | missing fields iff some field is empty; invalid CPF iff all present and CPF invalid; invalid e-mail iff those pass and the e-mail fails; accepted iff all pass |
| Registration.RegistrationScenarios | tests/test_cadastrar_usuario.py:26-71 | the four test scenarios get their verdicts, and a bad CPF is reported before a bad e-mail |
| Records.FindBook | app.py:88-89 | the lookup yields the first row with the id, or none iff no row has it |
| Records.FindBookUnique | app.py:22-23 | with AUTOINCREMENT ids, the lookup finds the one row with that id |
| Records.FindOpenLoan | app.py:108-111 | the lookup yields an open loan of exactly that member and book, or none iff no such loan exists |
| Records.CountOpenLoans | app.py:179-180 | the count is zero iff the book has no open loan, and never exceeds the table size (its exact value is in Records.CountOpenLoansIsSize) |
| Records.CountOpenLoansIsSize | app.py:179-180 | the count equals the number of positions in the table holding an open loan on the book |
| Records.CountBelowTwoMeansSole | app.py:178-181 | a count below the cap of 2 means the found open loan is the book's only open loan |
| Records.SoleOpenLoanCountsOne | app.py:178-181 | when one open loan is the book's only one, the count is exactly 1 |
| Records.BelowCapIffSole | app.py:178-181 | given an open loan on the book, the count is below the cap of 2 iff no other open loan is on that book |
| Records.MemberIdsAppend | app.py:14-20 | an INSERT into usuarios takes the next id and keeps ids fresh and increasing |
| Records.BookIdsAppend | app.py:22-29 | an INSERT into livros takes the next id and keeps ids fresh and increasing |
| Records.LoanIdsAppend | app.py:31-39 | an INSERT into emprestimos takes the next id and keeps ids fresh and increasing |
| Records.BooksRemoveAtMembers | app.py:80 | with unique ids, deleting the found row removes exactly the rows with that id |
| Records.BooksRemoveAt | app.py:80 | deleting one row keeps the other rows in order, so ids stay increasing and ISBNs unique |
| Queries.RowsForMembers | app.py:145 | joining one loan yields a row for each book row with the loan's book id, and nothing else |
| Queries.JoinMembers | app.py:142-147 | a joined row exists iff some kept loan and some book row with its book id produce it |
| Queries.JoinEmpty | app.py:148-153 | a join is empty iff no kept loan meets a book row with its book id |
| Queries.ConsultHistory | app.py:139-154 | missing id refused (test-asserted); no history iff none of the member's loans joins a book; otherwise exactly the (title, loan date, data_devolucao) of the member's joined loans |
| Queries.ConsultAvailability | app.py:157-166 | missing id refused (test-asserted); not found iff no row has the id; otherwise the status of a row with that id |
| Queries.AvailableTitles | app.py:206-209 | a title is listed iff some book with status 'Disponível' has it (how often: Queries.AvailableTitlesCount) |
| Queries.LentTitles | app.py:199-205 | a title is listed iff an open loan joins a book with that title (how often: Queries.LentTitlesCount) |
| Queries.Occurrences | app.py:200 | the count is positive iff the title occurs |
| Queries.OccurrencesAppend | app.py:200 | counting over a concatenation adds the counts of the parts |
| Queries.AvailableTitlesCount | app.py:206-209 | each title is listed exactly as often as there are 'Disponível' books with that title |
| Queries.RowsForCount | app.py:202 | one loan contributes a title as often as there are book rows with its book id and that title |
| Queries.LentTitlesCount | app.py:199-205 | each title is listed exactly as often as there are (open loan, book row) pairs joined on the book id with that title |
| Queries.Distinct | app.py:204 | the same titles, each once |
| Queries.GroupByTitle | app.py:199-205 | one row per distinct title, with its number of joined rows; empty iff there are no rows |
| Queries.GenerateReport | app.py:195-228 | invalid kind iff not one of the three; for each kind: no data iff nothing selected, otherwise the variant of the kind asked for, holding exactly the grouped open-loan titles, the available titles, or the (title, date) of loans dated before today |
| Queries.LentReportCounts | app.py:199-205 | each row of an 'emprestados' report counts exactly the joined (open loan, book) pairs with its title, and is positive |
| Queries.AvailableReportCounts | app.py:206-209 | in a 'disponiveis' report each title occurs once per 'Disponível' book with that title |
| Circulation.Patch | app.py:57-62 | each field given non-empty replaces the stored one, the others stay, id and CPF untouched |
| Circulation.Library.constructor | app.py:10-41 | fresh tables are empty, with every counter at 1 |
| Circulation.Library.RegisterMember | app.py:44-51 | the test-asserted checks refuse first, a CPF in use is refused, otherwise exactly one member with the next id is appended; a refusal changes nothing |
| Circulation.Library.UpdateMember | app.py:54-64 | nothing given, or an invalid e-mail, is refused (test-asserted); otherwise only rows with the id change, and only in the fields given |
| Circulation.Library.RegisterBook | app.py:67-74 | an empty field (test-asserted) or an ISBN in use is refused unchanged; otherwise exactly one book with the next id and status 'Disponível' is appended |
| Circulation.Library.RemoveBook | app.py:77-82 | the row with the id is removed and no other; loans stay; missing id or unknown book refused unchanged (test-asserted) |
| Circulation.Library.LendBook | app.py:85-102 | on a 'Disponível' book, appends the loan (member, book, today, today + 14) and sets only that book to 'Emprestado'; missing ids, unknown book or other status change nothing; no loan becomes open |
| Circulation.Library.ReturnBook | app.py:105-119 | closes only the first open loan of exactly that member and book with today's date and sets the book 'Disponível'; other members' loans never change; with no open loans it always refuses unchanged |
| Circulation.Library.RenewLoan | app.py:169-190 | with an open loan and fewer than 2 open loans on the book, sets its date to today + 14, closing it; given the open loan, it renews iff that loan is the book's only open one; otherwise nothing changes; no book changes; with no open loans it always refuses |
| Scenarios.DemoMemberAccepted | app.py:234 | the demonstration member passes every registration check |
| Scenarios.FreshLibrary | app.py:232-235 | on fresh tables, any member passing the registration checks and any book with every field given are registered, both with id 1 |
| Scenarios.LendThenReturn | app.py:236-239 | the lend succeeds with due date today + 14, a second lend is refused, and the return and renewal find no open loan |
| Scenarios.StuckLoanQueries | app.py:157-166 | afterwards the book reads 'Emprestado', it has no open loan, and the loan appears in the 'atraso' report once due |

## Left out

- Opening, committing and closing the SQLite connection, and creating the tables (`connect_db`, `create_tables`), are I/O. The schema is used only for row shapes and constraints.
- Store failures (`sqlite3.Error`, reported by the tests as "Erro de banco de dados") are I/O faults, not modelled.
- The clock (`datetime.now()`) becomes the `today` parameter, counted in days. Dates stored as ISO text compare like day numbers. Date formatting and `strptime` are not modelled.
- The first `renovar_emprestimo` (app.py:122-136) is never called, because the second definition rebinds the name.
- Printed messages and the `for` loops that print rows are replaced by outcome datatypes.
- `is_valid_isbn` (the tests' "ISBN inválido" case) is not part of this model: its body is not in the source.
- Foreign keys are not enforced by SQLite by default. So lending does not check that the member exists, and removing a book keeps its loans. The model does the same and adds no check.
- Rows come in table order. SQL without `ORDER BY` promises no order, and `GROUP BY` output order is not modelled.
- `\D` in Python also keeps non-ASCII decimal digits. `IsDigit` accepts only '0' to '9'.
- A field "not given" to `atualizar_usuario` is the empty string. Python's truthiness treats `None` and `""` alike. The member id there is a plain integer, since no test passes `None`.
- The tests' status lookup before a renewal is not modelled. Of the guards the renewal tests add, only the missing-id refusal is modelled.
- `main()` and `tests/test_bd.py` are not modelled. The scenarios reuse `main()`'s records.
- Concurrency is not modelled: the application is single-threaded.
- Queries.ConsultAvailability: states the status of some row with the id, not that it is the first such row. With unique ids (`Records.FindBookUnique`) there is only one.
- Queries.ConsultHistory: states which entries occur, not their order or how often they repeat.
- Queries.GenerateReport: for 'atraso' it states which rows occur, not their order or how often they repeat.
