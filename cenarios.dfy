/** Clients of the store that walk through its documented behaviour on
    concrete rows, using only the contracts of `Banco`. */
module Cenarios {

  import opened Ordem
  import opened Tabelas
  import opened Armazenamento

  /** A fresh key is accepted, a repeated one is refused. */
  method CenarioChaveDuplicada()
  {
    var b := new Banco();
    var ok := b.CadastrarAluno("2", "Bob");
    assert ok;
    ok := b.CadastrarAluno("2", "Outro");
    assert !ok;
    assert b.alunos == [Aluno("2", "Bob")];
  }

  /** A store into which Bob was registered before Alice. */
  method BobAntesDeAlice() returns (b: Banco)
    ensures fresh(b) && b.Valid()
    ensures b.alunos == [Aluno("2", "Bob"), Aluno("1", "Alice")]
  {
    b := new Banco();
    var ok := b.CadastrarAluno("2", "Bob");
    assert b.alunos == [Aluno("2", "Bob")];
    ok := b.CadastrarAluno("1", "Alice");
  }

  lemma AliceAntesDeBob()
    ensures Ordenada([Aluno("1", "Alice"), Aluno("2", "Bob")], Nome)
    ensures ChavesDistintas([Aluno("1", "Alice"), Aluno("2", "Bob")], Nome)
  {
    assert "Alice"[0] == 'A' && "Bob"[0] == 'B';
  }

  /** Students are listed by name whatever the insertion order. */
  method CenarioListagemPorNome()
  {
    var b := BobAntesDeAlice();
    var lista := b.ListarAlunos();
    var esperada := [Aluno("1", "Alice"), Aluno("2", "Bob")];
    AliceAntesDeBob();
    assert multiset(esperada) == multiset(b.alunos);
    OrdenacaoUnica(esperada, lista, Nome);
    assert lista == esperada;
  }

  /** One grade per (disciplina, student); the same disciplina for another
      student, or for a matricula no student has, is accepted; a refused
      insert consumes no id. */
  method CenarioNotaDuplicada()
  {
    var b := new Banco();
    var ok := b.CadastrarAluno("S1", "Ana");
    ok := b.CadastrarNota("Math", 8.5, "S1");
    assert ok && b.ultimoId == 1;
    assert ExistePar(b.notas, "Math", "S1") by {
      assert b.notas[0] == Nota(1, "Math", 8.5, "S1");
    }
    ok := b.CadastrarNota("Math", 9.0, "S1");
    assert !ok && b.ultimoId == 1;
    ok := b.CadastrarNota("Math", 7.0, "S2");
    assert ok && b.ultimoId == 2;
    assert !Cadastrado(b.alunos, "S2");
    assert b.notas == [Nota(1, "Math", 8.5, "S1"), Nota(2, "Math", 7.0, "S2")];
  }

  /** Grades come back ordered by disciplina, with their values unchanged. */
  method CenarioNotasPorDisciplina()
  {
    var b := new Banco();
    var ok := b.CadastrarNota("Science", 9.0, "S1");
    ok := b.CadastrarNota("Math", 7.25, "S1");
    assert NotasDoAluno(b.notas, "S1") == [("Science", 9.0), ("Math", 7.25)];
    var notas := b.BuscarNotasAluno("S1");
    assert MenorOuIgual("Math", "Science") && !MenorOuIgual("Science", "Math");
    assert |notas| == 2 by {
      assert |multiset(notas)| == |multiset(NotasDoAluno(b.notas, "S1"))|;
    }
    assert notas[0] in multiset(NotasDoAluno(b.notas, "S1")) && notas[1] in multiset(NotasDoAluno(b.notas, "S1"));
    assert notas == [("Math", 7.25), ("Science", 9.0)];
  }

  /** Deleting a student takes its grades with it, leaves other students'
      grades alone, and can be repeated. */
  method CenarioExclusaoEmCascata()
  {
    var b := new Banco();
    var ok := b.CadastrarAluno("S1", "Ana");
    ok := b.CadastrarNota("Math", 8.0, "S1");
    ok := b.CadastrarNota("Math", 5.0, "S2");
    var antes := NotasDoAluno(b.notas, "S2");
    ok := b.ExcluirAluno("S1");
    var aluno := b.BuscarAluno("S1");
    var notas := b.BuscarNotasAluno("S1");
    assert aluno == None;
    assert notas == [] by {
      assert |notas| == |multiset(notas)| == |multiset(NotasDoAluno(b.notas, "S1"))| == 0;
    }
    assert "S2" != "S1";
    assert NotasDoAluno(b.notas, "S2") == antes;
    ok := b.ExcluirAluno("S1");
    assert ok;
  }

  /** Deleting one grade keeps the student's other grades and everyone
      else's; deleting it again is a successful no-op. */
  method CenarioExclusaoDeNota()
  {
    var b := new Banco();
    var ok := b.CadastrarNota("Math", 8.0, "S1");
    ok := b.CadastrarNota("Math", 5.0, "S2");
    assert b.notas == [Nota(1, "Math", 8.0, "S1"), Nota(2, "Math", 5.0, "S2")];
    assert ExistePar(b.notas, "Math", "S1") by {
      assert b.notas[0] == Nota(1, "Math", 8.0, "S1");
    }
    ok := b.ExcluirNota("Math", "S1");
    assert |b.notas| == 1;
    assert Nota(2, "Math", 5.0, "S2") in b.notas;
    assert ok && b.notas == [Nota(2, "Math", 5.0, "S2")];
    var antes := b.notas;
    ok := b.ExcluirNota("Math", "S1");
    assert ok && b.notas == antes;
  }
}
