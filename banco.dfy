/** The record store: class `Banco` over the tables `alunos` and `notas`,
    with the engine's constraints (PRIMARY KEY, AUTOINCREMENT, UNIQUE) as its
    invariant. The foreign key on `aluno_matricula` is declared but not
    enforced, since the connection never enables foreign keys; the invariant
    therefore does not tie grades to existing students. */
module Armazenamento {

  import opened Ordem
  import opened Tabelas

  /** The largest rowid SQLite issues; an AUTOINCREMENT table whose sequence
      has reached it rejects further inserts. */
  const MaxRowid: int := 0x7FFF_FFFF_FFFF_FFFF

  class Banco {
    /** Rows of `alunos`, in insertion order. */
    var alunos: seq<Aluno>
    /** Rows of `notas`, in insertion (and id) order. */
    var notas: seq<Nota>
    /** The AUTOINCREMENT sequence of `notas`: the largest id ever issued. */
    var ultimoId: int
    /** Every grade id issued so far, deleted rows included. */
    ghost var emitidos: set<int>

    ghost predicate Valid()
      reads this
      ensures Valid() ==> forall i :: 0 <= i < |notas| ==> 1 <= notas[i].id <= ultimoId
    {
      && MatriculasUnicas(alunos)
      && NotasBemFormadas(notas)
      && 0 <= ultimoId <= MaxRowid
      && (forall e :: e in emitidos ==> 1 <= e <= ultimoId)
      && (ultimoId == 0 || ultimoId in emitidos)
      && (forall i :: 0 <= i < |notas| ==> notas[i].id in emitidos)
    }

    /** Opening a new database file: `criar_tabelas` creates both tables empty. */
    constructor ()
      ensures Valid()
      ensures alunos == [] && notas == [] && ultimoId == 0 && emitidos == {}
    {
      alunos := [];
      notas := [];
      ultimoId := 0;
      emitidos := {};
    }

    /** `INSERT INTO alunos VALUES (?, ?)`; false on a duplicate key. */
    method CadastrarAluno(matricula: string, nome: string) returns (ok: bool)
      requires Valid()
      modifies this
      ensures Valid()
      ensures ok <==> !Cadastrado(old(alunos), matricula)
      ensures alunos == if ok then old(alunos) + [Aluno(matricula, nome)] else old(alunos)
      ensures ok ==> BuscaAluno(alunos, matricula) == Some(Aluno(matricula, nome))
      ensures forall m :: m != matricula ==> BuscaAluno(alunos, m) == BuscaAluno(old(alunos), m)
      ensures notas == old(notas) && ultimoId == old(ultimoId) && emitidos == old(emitidos)
    {
      if Cadastrado(alunos, matricula) {
        ok := false;
      } else {
        var novo := Aluno(matricula, nome);
        forall m ensures BuscaAluno(alunos + [novo], m) == if m == matricula then Some(novo) else BuscaAluno(alunos, m) {
          BuscaAlunoAposInsercao(alunos, novo, m);
        }
        alunos := alunos + [novo];
        ok := true;
      }
    }

    /** `INSERT INTO notas (disciplina, valor, aluno_matricula) VALUES (?, ?, ?)`;
        false, with nothing changed, on a duplicate (disciplina, aluno_matricula)
        or when the id sequence is exhausted. Whether `aluno_matricula` names a
        registered student is not checked. */
    method CadastrarNota(disciplina: string, valor: real, matricula: string) returns (ok: bool)
      requires Valid()
      modifies this
      ensures Valid()
      ensures ok <==> !ExistePar(old(notas), disciplina, matricula) && old(ultimoId) < MaxRowid
      ensures ok ==> ultimoId == old(ultimoId) + 1
      ensures ok ==> ultimoId !in old(emitidos) && emitidos == old(emitidos) + {ultimoId}
      ensures ok ==> forall i :: 0 <= i < |old(notas)| ==> old(notas)[i].id < ultimoId
      ensures ok ==> notas == old(notas) + [Nota(ultimoId, disciplina, valor, matricula)]
      ensures ok ==> forall m ::
        NotasDoAluno(notas, m) == NotasDoAluno(old(notas), m) + (if m == matricula then [(disciplina, valor)] else [])
      ensures !ok ==> notas == old(notas) && ultimoId == old(ultimoId) && emitidos == old(emitidos)
      ensures alunos == old(alunos)
    {
      if ExistePar(notas, disciplina, matricula) || ultimoId == MaxRowid {
        ok := false;
      } else {
        var nota := Nota(ultimoId + 1, disciplina, valor, matricula);
        forall m ensures NotasDoAluno(notas + [nota], m) ==
          NotasDoAluno(notas, m) + (if m == matricula then [(disciplina, valor)] else []) {
          NotasDoAlunoAposInsercao(notas, nota, m);
        }
        notas := notas + [nota];
        ultimoId := ultimoId + 1;
        emitidos := emitidos + {ultimoId};
        ok := true;
      }
    }

    /** Deletes the student's grades, then the student; succeeds whether or
        not any row matched. */
    method ExcluirAluno(matricula: string) returns (ok: bool)
      requires Valid()
      modifies this
      ensures Valid()
      ensures ok
      ensures notas == SemNotasDoAluno(old(notas), matricula)
      ensures alunos == SemAluno(old(alunos), matricula)
      ensures BuscaAluno(alunos, matricula) == None && NotasDoAluno(notas, matricula) == []
      ensures forall m :: m != matricula ==>
        BuscaAluno(alunos, m) == BuscaAluno(old(alunos), m) && NotasDoAluno(notas, m) == NotasDoAluno(old(notas), m)
      ensures ultimoId == old(ultimoId) && emitidos == old(emitidos)
    {
      forall m | m != matricula
        ensures BuscaAluno(SemAluno(alunos, matricula), m) == BuscaAluno(alunos, m)
        ensures NotasDoAluno(SemNotasDoAluno(notas, matricula), m) == NotasDoAluno(notas, m)
      {
        SemAlunoPreservaOutros(alunos, matricula, m);
        SemNotasDoAlunoPreservaOutros(notas, matricula, m);
      }
      SemNotasDoAlunoEsvazia(notas, matricula);
      notas := SemNotasDoAluno(notas, matricula);
      alunos := SemAluno(alunos, matricula);
      ok := true;
    }

    /** Deletes the one grade of `matricula` in `disciplina`, if there is one;
        succeeds either way. */
    method ExcluirNota(disciplina: string, matricula: string) returns (ok: bool)
      requires Valid()
      modifies this
      ensures Valid()
      ensures ok
      ensures notas == SemNota(old(notas), disciplina, matricula)
      ensures !ExistePar(notas, disciplina, matricula)
      ensures |notas| == if ExistePar(old(notas), disciplina, matricula) then |old(notas)| - 1 else |old(notas)|
      ensures forall n :: n in notas <==> n in old(notas) && !(n.disciplina == disciplina && n.matricula == matricula)
      ensures forall m :: m != matricula ==> NotasDoAluno(notas, m) == NotasDoAluno(old(notas), m)
      ensures alunos == old(alunos) && ultimoId == old(ultimoId) && emitidos == old(emitidos)
    {
      SemNotaRemoveUmaLinha(notas, disciplina, matricula);
      forall m | m != matricula ensures NotasDoAluno(SemNota(notas, disciplina, matricula), m) == NotasDoAluno(notas, m) {
        ExcluirNotaPreservaOutras(notas, disciplina, matricula, m);
      }
      notas := SemNota(notas, disciplina, matricula);
      ok := true;
    }

    /** `SELECT matricula, nome FROM alunos WHERE matricula = ?`. */
    method BuscarAluno(matricula: string) returns (r: Option<Aluno>)
      requires Valid()
      ensures r.Some? <==> exists i :: 0 <= i < |alunos| && alunos[i].matricula == matricula
      ensures r.Some? ==> r.value in alunos && r.value.matricula == matricula
    {
      r := BuscaAluno(alunos, matricula);
    }

    /** `SELECT matricula, nome FROM alunos ORDER BY nome`. */
    method ListarAlunos() returns (r: seq<Aluno>)
      requires Valid()
      ensures multiset(r) == multiset(alunos)
      ensures forall i, j :: 0 <= i < j < |r| ==> MenorOuIgual(r[i].nome, r[j].nome)
    {
      r := OrdenarPor(alunos, Nome);
      OrdenarPorOrdenada(alunos, Nome);
    }

    /** `SELECT disciplina, valor FROM notas WHERE aluno_matricula = ? ORDER BY disciplina`. */
    method BuscarNotasAluno(matricula: string) returns (r: seq<NotaLida>)
      requires Valid()
      ensures multiset(r) == multiset(NotasDoAluno(notas, matricula))
      ensures forall p :: p in r <==> exists n :: n in notas && n.matricula == matricula && p == (n.disciplina, n.valor)
      ensures forall i, j :: 0 <= i < j < |r| ==> MenorOuIgual(r[i].0, r[j].0) && r[i].0 != r[j].0
    {
      var selecao := NotasDoAluno(notas, matricula);
      NotasDoAlunoDistintas(notas, matricula);
      r := OrdenarPor(selecao, Disciplina);
      OrdenarPorOrdenada(selecao, Disciplina);
      OrdenarPorChavesDistintas(selecao, Disciplina);
      forall i, j | 0 <= i < j < |r| ensures MenorOuIgual(r[i].0, r[j].0) && r[i].0 != r[j].0 {
        assert Disciplina(r[i]) == r[i].0 && Disciplina(r[j]) == r[j].0;
      }
      forall p ensures p in r <==> p in selecao {
        assert p in r <==> p in multiset(r);
        assert p in selecao <==> p in multiset(selecao);
      }
    }
  }
}
