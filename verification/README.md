# Library loans DAO: a verified model

This project models `EmprestimoDAO`, the data-access object for loans
(`emprestimos`) of a library system, in Dafny. It works on two tables:

- `livros`: each book id has a `disponivel` (available) flag;
- `emprestimos`: each loan id maps to a row holding the book id, the user id,
  the loan date and the due date.

The DAO enforces four rules (stated in `src/dao/EmprestimoDAO.java`, lines 14-18):

1. A book whose `disponivel` is 0 cannot be lent.
2. Creating a loan blocks its book.
3. Deleting a loan frees its book.
4. Moving a loan to another book frees the old book and blocks the new one.

The model keeps the two tables in memory as the fields of the class
`Dao.EmprestimoDAO`: `livros: map<int, bool>`, `emprestimos: map<int, Emprestimo>`
and `nextId`, which stands in for the auto-increment key. Each public method of the
DAO is a method of that class. The method changes the maps one SQL statement at a
time. Every failure the source reports before changing anything becomes an
error value (`Falha`), and both tables stay as they were. These are the failures
thrown right after `conn.rollback()`, plus the missing-loan failure of `atualizar`,
which is thrown before any transaction opens. Each operation is one
atomic step. The row lock (`SELECT ... FOR UPDATE`) and the transaction exist to
make the operations behave this way under concurrent callers, so the model takes
that behaviour as given.

Files:

- `emprestimo.dfy` (module `Emprestimos`): the loan record, an opaque `Date`,
  and the row decoder (`map` in the source) with its inverse.
- `tables.dfy` (module `Tables`): what `UPDATE livros SET disponivel = ?` does,
  the consistency invariant, and one lemma per mutating operation saying that
  its sequence of statements preserves the invariant.
- `dao.dfy` (module `Dao`): the DAO class with `Salvar`, `Listar`,
  `BuscarPorId`, `Atualizar` and `Deletar`, plus lemmas about listing order and
  serialized creation.

The invariant (`Tables.Consistent`) is stronger than the source comment's
"unavailable exactly when one loan references it":

- every loan references an existing book;
- an available book has no loan;
- an unavailable book has exactly one loan.

The weaker form is not preserved by `salvar`: a book marked available that some
loans still referenced would gain one more loan. `UnavailableIffOneLoan` derives
the weaker form from the strong one, and `NoSharedBook` derives "no book is lent
twice". The methods do not require the invariant. Each one behaves as the source
does on any state of the tables, and ensures that it keeps the invariant when the
invariant held before.

## Model

| member | source | states |
|---|---|---|
| `Emprestimos.DecodeRow` | src/dao/EmprestimoDAO.java:281-293 | a row decodes exactly when its five columns are present with the right types, and the loan carries the values of those columns |
| `Emprestimos.DecodeEncode` | src/dao/EmprestimoDAO.java:281-293 | decoding the row of a stored loan gives back that loan |
| `Emprestimos.EncodeDecode` | src/dao/EmprestimoDAO.java:281-293 | re-encoding a decoded loan reproduces exactly the columns it was read from |
| `Tables.SetDisponivel` | src/dao/EmprestimoDAO.java:44-45 | the UPDATE sets the flag of the named book, leaves every other book alone, and adds no row when the book does not exist |
| `Tables.AvailableMeansNoLoan` | src/dao/EmprestimoDAO.java:14-16 | under the invariant, no loan references an available book, so the availability check before an insertion is enough |
| `Tables.NoSharedBook` | src/dao/EmprestimoDAO.java:14-18 | under the invariant, two loans of the same book are the same loan |
| `Tables.UnavailableIffOneLoan` | src/dao/EmprestimoDAO.java:14-18 | under the invariant, a book is unavailable if and only if some loan references it, and then exactly one does |
| `Tables.SalvarKeepsConsistent` | src/dao/EmprestimoDAO.java:72-91 | inserting a loan under a fresh id for an available book, then blocking that book, keeps the invariant |
| `Tables.AtualizarSameBookKeepsConsistent` | src/dao/EmprestimoDAO.java:206-214 | rewriting a loan without changing its book keeps the invariant with no flag change |
| `Tables.AtualizarSwapKeepsConsistent` | src/dao/EmprestimoDAO.java:186-229 | moving a loan to an available book, freeing the old book and blocking the new one, keeps the invariant |
| `Tables.DeletarKeepsConsistent` | src/dao/EmprestimoDAO.java:259-269 | deleting a loan and freeing its book keeps the invariant |
| `Dao.EmprestimoDAO.Salvar` | src/dao/EmprestimoDAO.java:33-101 | missing book gives `LivroNaoEncontrado` and unavailable book gives `LivroEmprestado`, both with nothing changed; otherwise it adds exactly one loan under the next auto-increment id (fresh, and above every id handed out before), carrying the given fields, blocks that book, changes nothing else, returns the loan with its id, and keeps the invariant |
| `Dao.EmprestimoDAO.Listar` | src/dao/EmprestimoDAO.java:106-127 | returns every loan in the table and nothing else, in strictly decreasing id order |
| `Dao.EmprestimoDAO.BuscarPorId` | src/dao/EmprestimoDAO.java:132-153 | returns the loan stored under the id, or None when there is none, and reads state only |
| `Dao.EmprestimoDAO.Atualizar` | src/dao/EmprestimoDAO.java:158-236 | unknown loan id gives `EmprestimoNaoEncontrado` with no change; an unchanged book rewrites only that loan and touches no flag; a changed book fails with no change when the new book is missing or lent, and otherwise frees the old book, blocks the new one and stores the new row under the same id; keeps the invariant |
| `Dao.EmprestimoDAO.Deletar` | src/dao/EmprestimoDAO.java:241-276 | a missing id changes nothing; otherwise it removes that loan and sets its book available, inserting no book row when that book is absent; keeps the invariant |
| `Dao.SalvarMesmoLivro` | src/dao/EmprestimoDAO.java:20-23 | two serialized creations of loans for one book never both succeed, and when the book was available the second fails with `LivroEmprestado` |
| `Dao.ListingIsUnique` | src/dao/EmprestimoDAO.java:109-121 | two listings in strictly decreasing id order that hold the same loans are equal, so `Listar`'s contract fixes its result |

## Left out

- The database connection factory (`src/database/Database.java`) and all JDBC plumbing are not modelled. Connections, statements and result sets become direct map reads and updates.
- Row locking (`SELECT ... FOR UPDATE`), `setAutoCommit(false)`, `commit` and concurrent callers are not modelled. Each operation is one atomic step; `Dao.SalvarMesmoLivro` states the serialized outcome that the locking exists to guarantee.
- The `SQLException` exits (`salvar`, `listar`, `buscarPorId`, `atualizar`, `deletar`) are storage faults raised by a foreign library. None of their handlers rolls back explicitly, and `listar` and `buscarPorId` open no transaction at all. They are not modelled.
- Faults the database raises on its own, such as a foreign-key violation for an unknown user id, are not modelled. `salvar` and `atualizar` do no user check.
- `Dao.EmprestimoDAO.Salvar`: when the driver returns no generated key, the source leaves the argument's id unset. The model always assigns the fresh id `nextId`. The source mutates its argument through `setId`; the model returns the loan with its id instead, so aliasing of that argument is not captured.
- `Dao.EmprestimoDAO.Atualizar`, `Dao.EmprestimoDAO.Deletar`: the source reads the previous row through `buscarPorId` before its transaction opens. The model reads it in the same atomic step.
- Dates are opaque values. The `LocalDate` / `java.sql.Date` conversion and SQL NULL columns are not modelled.
- Ids are unbounded integers. The 32-bit range of Java `int` and of the auto-increment column is not modelled.
- `Dao.EmprestimoDAO.Listar`: the database does the `ORDER BY id DESC` sort. The model produces the same sequence by scanning ids from the highest assigned id down to 1.
- Books are never created or removed by the DAO. The model keeps the set of book ids fixed and takes the initial books as a constructor argument.
