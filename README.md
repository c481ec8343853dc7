# Student and grade record store, in Dafny

This project models the data layer of a desktop tool that records students
and their per-subject grades: the class `Banco` of `alunos_notas.py` and the
two small string functions the form uses to show a student in a combo box
and read its matricula back.

`Banco` holds two SQLite tables:

- `alunos(matricula TEXT PRIMARY KEY, nome TEXT NOT NULL)`;
- `notas(id INTEGER PRIMARY KEY AUTOINCREMENT, disciplina, valor, aluno_matricula,
  UNIQUE(disciplina, aluno_matricula))`, with a foreign key on
  `aluno_matricula` that the connection never enforces.

The model keeps the engine's state in memory:

- `Tabelas` (`tabelas.dfy`) holds the rows as datatypes (`Aluno`, `Nota`) and
  the WHERE clauses of the store's statements as functions on row sequences
  (`BuscaAluno`, `SemAluno`, `SemNotasDoAluno`, `SemNota`, `NotasDoAluno`). It
  also holds the lemmas about those functions: no effect on a missing row,
  idempotence, other rows preserved, and exactly one row removed.
- `Ordem` (`ordem.dfy`) holds the BINARY collation order on text, the
  `ORDER BY` sort `OrdenarPor` (sorted, a permutation, and the only sorted
  arrangement when keys are distinct), and the order's own laws.
- `Armazenamento` (`banco.dfy`) holds the class `Banco`:
  - its fields are the rows of `alunos` and `notas` in insertion order, the
    AUTOINCREMENT counter `ultimoId`, and a ghost set `emitidos` of every
    grade id ever issued;
  - `Valid()` states the engine's constraints;
  - each method of the source is a method whose `ensures` gives the new
    state and the result.
- `Rotulos` (`rotulos.dfy`) holds the combo label `matricula - nome` and
  `split(" - ")[0]`, with the exact condition under which a matricula
  survives the round trip.
- `Cenarios` (`cenarios.dfy`) holds client methods that derive the store's
  documented behaviour on concrete rows from the contracts alone. Examples:
  a duplicate key is refused; Bob then Alice are listed as Alice, Bob; the
  same subject for two students is accepted; and the cascade delete.

The round trip of the label does not hold just because the matricula has no
`" - "`. The matricula must also not end in `" -"`: the label of `"12 -"`
is `"12 - - Ana"`, and splitting it gives back `"12"`.
`Rotulos.RecuperaMatricula` states the exact condition: no `" - "` in
`matricula + " "`. `Rotulos.MatriculaTerminadaEmHifen` exhibits that
counterexample.

Every mutating operation returns a bare boolean, so a duplicate key and a
storage error both come back as false. The reads give a storage error back
as "not found" (`None`) or as an empty list, which the model does not
distinguish from a real miss because it has no storage errors. The engine
demands only NOT NULL of names and subjects, so empty strings are stored
too. A stricter design with a distinct duplicate-key result and non-empty
names would differ here; the model follows the code.

## Model

| member | source | states |
|---|---|---|
| `Armazenamento.Banco.constructor` | alunos_notas.py:15-36 | creating the tables on a new file gives two empty tables and a zero id sequence, satisfying every table constraint |
| `Armazenamento.Banco.Valid` | alunos_notas.py:19-32 | the schema's constraints: matriculas are unique (PRIMARY KEY); grade ids are issued in increasing order, the counter is never below any issued id and is itself the last one issued (AUTOINCREMENT); no two grade rows share (disciplina, aluno_matricula) (UNIQUE); so every stored id lies in 1..counter |
| `Armazenamento.Banco.CadastrarAluno` | alunos_notas.py:38-45 | true exactly when the matricula is not yet a key; then the one row is appended and found by its key, other keys find what they found before; otherwise nothing changes; the grade table and id sequence never change |
| `Armazenamento.Banco.CadastrarNota` | alunos_notas.py:50-63 | true exactly when the pair (disciplina, matricula) is new and the id sequence is not exhausted; no student existence check; on success the row gets the id one above every id ever issued, never a reused one, and only that student's selection grows by (disciplina, valor); on failure nothing changes |
| `Armazenamento.Banco.ExcluirAluno` | alunos_notas.py:65-74 | always true; the student's grades are deleted, then the student; afterwards the student is not found and has no grades, while every other student's row and grades are unchanged |
| `Armazenamento.Banco.ExcluirNota` | alunos_notas.py:79-86 | always true; exactly the row with that pair is removed (one row if it existed, none otherwise); every other row and every other student's grades stay |
| `Armazenamento.Banco.BuscarAluno` | alunos_notas.py:91-94 | returns a row exactly when the key is in the table, and the returned row is that key's row |
| `Armazenamento.Banco.ListarAlunos` | alunos_notas.py:99-102 | the result is a permutation of the student table in non-decreasing order of nome |
| `Armazenamento.Banco.BuscarNotasAluno` | alunos_notas.py:107-113 | the result holds exactly the (disciplina, valor) pairs of that student's rows, as a permutation of them, in strictly increasing order of disciplina |
| `Tabelas.BuscaAluno` | alunos_notas.py:93 | finds a row exactly when some row has the key, and the row found has that key |
| `Tabelas.SemAluno` | alunos_notas.py:71 | keeps exactly the rows with another matricula and preserves key uniqueness |
| `Tabelas.SemNotasDoAluno` | alunos_notas.py:68 | keeps exactly the grade rows of other students and preserves id order and pair uniqueness |
| `Tabelas.SemNota` | alunos_notas.py:81-84 | keeps exactly the grade rows without the pair and preserves id order and pair uniqueness |
| `Tabelas.NotasDoAluno` | alunos_notas.py:109-112 | the selection holds exactly the (disciplina, valor) of the rows whose aluno_matricula is the argument |
| `Tabelas.NotasDoAlunoDistintas` | alunos_notas.py:32 | under UNIQUE(disciplina, aluno_matricula) one student's selected disciplinas are pairwise distinct |
| `Tabelas.SemAlunoSemEfeito` | alunos_notas.py:71 | deleting an unregistered matricula leaves the student table unchanged |
| `Tabelas.SemNotasDoAlunoSemEfeito` | alunos_notas.py:68 | the cascade leaves the grade table unchanged when the student has no grades |
| `Tabelas.SemNotaSemEfeito` | alunos_notas.py:81-84 | deleting a pair that is not there leaves the grade table unchanged |
| `Tabelas.ExcluirAlunoIdempotente` | alunos_notas.py:65-74 | deleting a student twice leaves both tables as deleting once does |
| `Tabelas.ExcluirNotaIdempotente` | alunos_notas.py:79-86 | deleting a grade twice leaves the table as deleting once does |
| `Tabelas.SemNotaRemoveUmaLinha` | alunos_notas.py:81-84 | under the uniqueness constraint the grade delete removes exactly one row when the pair exists and none otherwise |
| `Tabelas.SemNotasDoAlunoEsvazia` | alunos_notas.py:68 | after the cascade the student's grade selection is empty |
| `Tabelas.SemAlunoPreservaOutros` | alunos_notas.py:71 | deleting one student does not change what any other matricula finds |
| `Tabelas.SemNotasDoAlunoPreservaOutros` | alunos_notas.py:68 | the cascade does not change any other student's grade selection |
| `Tabelas.ExcluirNotaPreservaOutras` | alunos_notas.py:81-84 | deleting (d, m) leaves every other student's selection equal and keeps exactly m's pairs whose disciplina is not d |
| `Tabelas.NotasDoAlunoAposInsercao` | alunos_notas.py:52-55 | a new grade row extends only its own student's selection, by its (disciplina, valor), with the value unchanged |
| `Tabelas.BuscaAlunoAposInsercao` | alunos_notas.py:40 | after inserting a fresh key its row is found by that key, and every other key finds what it found before |
| `Ordem.MenorOuIgual` | alunos_notas.py:101 | the BINARY text order of `ORDER BY`: a prefix comes first, and a non-empty text is at most only a non-empty text whose first character is not smaller |
| `Ordem.OrdenarPor` | alunos_notas.py:101 | the ordered result is a permutation of its input |
| `Ordem.OrdenarPorOrdenada` | alunos_notas.py:101 | the ordered result is in non-decreasing key order |
| `Ordem.OrdenarPorChavesDistintas` | alunos_notas.py:110 | sorting keeps the keys distinct when they were distinct |
| `Ordem.OrdenacaoUnica` | alunos_notas.py:101 | with distinct keys there is only one sorted permutation, so the listing does not depend on insertion order |
| `Ordem.OrdemTotal` | alunos_notas.py:101 | any two texts are comparable under the collation |
| `Ordem.OrdemTransitiva` | alunos_notas.py:101 | the collation order is transitive |
| `Ordem.OrdemAntissimetrica` | alunos_notas.py:101 | two texts each at most the other are equal |
| `Rotulos.Rotulo` | alunos_notas.py:463 | the label `f"{a[0]} - {a[1]}"` is the matricula, then the separator `" - "` starting right after it, then the nome, with nothing else |
| `Rotulos.RotulosCombo` | alunos_notas.py:461-464 | the combo values hold one label per listed row, in the listing's order, each made of that row's matricula, the separator and its nome |
| `Rotulos.PrimeiroCampo` | alunos_notas.py:395 | `split(" - ")[0]` is the prefix before the leftmost separator: a prefix of the label, no separator starting inside it, and either the whole label or followed by a separator |
| `Rotulos.RecuperaMatricula` | alunos_notas.py:463 | splitting the label `matricula - nome` gives back the matricula if and only if `matricula + " "` contains no `" - "` |
| `Rotulos.ContemComEspaco` | alunos_notas.py:395 | `matricula + " "` contains the separator exactly when the matricula contains it or ends in `" -"` |
| `Rotulos.MatriculaTerminadaEmHifen` | alunos_notas.py:485 | the matricula `"12 -"`, which contains no `" - "`, is read back from its label as `"12"` |
| `Rotulos.SelecaoRecuperaMatricula` | alunos_notas.py:461-469 | reading back entry i of the combo built from a student list gives row i's matricula whenever that matricula round-trips |

## Left out

- The Tkinter form is not modelled: widgets, tabs, tables, combo refresh, message boxes and confirmation dialogs (alunos_notas.py:123-514). Neither are its field checks: `strip()`, empty-field warnings and selection checks. All of this is presentation.
- Parsing the grade text (`float(... .replace(',', '.'))`) and the 0 to 10 range check (alunos_notas.py:387-393) are left out because they are floating-point input parsing. `valor` is a Dafny `real` that the store keeps and returns unchanged. IEEE-754 values such as NaN, which SQLite stores as NULL and so rejects under NOT NULL, are not modelled.
- The connection, cursor, `commit` and `fechar`/`close` (alunos_notas.py:8-13, 36, 118-120) are not modelled: the tables are held in memory. The constructor models opening a new file. Reopening a file whose tables already hold rows (`CREATE TABLE IF NOT EXISTS` keeping old data) is not modelled.
- Storage failures caught by the generic `except Exception` branches (disk, I/O, a closed connection) are not modelled, because nothing about them can be specified. The one exception is `CadastrarNota`, which models the exhausted AUTOINCREMENT sequence. SQLite reports that case as a plain error, so the source returns false for it.
- Armazenamento.Banco.ListarAlunos: its contract promises only non-decreasing names and a permutation, because SQLite leaves the order among equal names open. The body happens to use a stable sort.
- Text comparison is by character code, which gives the same order as SQLite's byte-wise comparison of UTF-8. Other collations are not modelled.
- Ids are unbounded integers bounded by the invariant to at most 2^63 - 1. SQLite's 64-bit storage is not modelled otherwise.
