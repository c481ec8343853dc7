/** The two tables of the store, as sequences of rows in insertion order,
    and the WHERE clauses of the store's statements as functions on them. */
module Tabelas {

  import opened Ordem

  datatype Option<T> = None | Some(value: T)

  /** A row of `alunos (matricula TEXT PRIMARY KEY, nome TEXT NOT NULL)`. */
  datatype Aluno = Aluno(matricula: string, nome: string)

  /** A row of `notas (id, disciplina, valor, aluno_matricula)`. */
  datatype Nota = Nota(id: int, disciplina: string, valor: real, matricula: string)

  /** A row of the result of `SELECT disciplina, valor FROM notas ...`. */
  type NotaLida = (string, real)

  function Nome(a: Aluno): (r: string) { a.nome }

  function Disciplina(p: NotaLida): (r: string) { p.0 }

  /** PRIMARY KEY on `matricula`. */
  ghost predicate MatriculasUnicas(s: seq<Aluno>)
  {
    forall i, j :: 0 <= i < j < |s| ==> s[i].matricula != s[j].matricula
  }

  /** What the engine keeps of `notas`: rows in increasing order of their
      AUTOINCREMENT id, and UNIQUE(disciplina, aluno_matricula). */
  ghost predicate NotasBemFormadas(s: seq<Nota>)
  {
    forall i, j :: 0 <= i < j < |s| ==>
      s[i].id < s[j].id && !(s[i].disciplina == s[j].disciplina && s[i].matricula == s[j].matricula)
  }

  /** Some row of `alunos` has key `m`. */
  predicate Cadastrado(s: seq<Aluno>, m: string)
  {
    exists i :: 0 <= i < |s| && s[i].matricula == m
  }

  /** Some row of `notas` has the pair (`d`, `m`). */
  predicate ExistePar(s: seq<Nota>, d: string, m: string)
  {
    exists i :: 0 <= i < |s| && s[i].disciplina == d && s[i].matricula == m
  }

  /** `SELECT matricula, nome FROM alunos WHERE matricula = ?`, fetchone. */
  function BuscaAluno(s: seq<Aluno>, m: string): (r: Option<Aluno>)
    ensures r.Some? <==> Cadastrado(s, m)
    ensures r.Some? ==> r.value in s && r.value.matricula == m
  {
    if s == [] then None
    else if s[0].matricula == m then Some(s[0])
    else BuscaAluno(s[1..], m)
  }

  /** `DELETE FROM alunos WHERE matricula = ?`. */
  function SemAluno(s: seq<Aluno>, m: string): (r: seq<Aluno>)
    ensures forall a :: a in r <==> a in s && a.matricula != m
    ensures MatriculasUnicas(s) ==> MatriculasUnicas(r)
  {
    if s == [] then []
    else
      var t := SemAluno(s[1..], m);
      assert MatriculasUnicas(s) ==> MatriculasUnicas(s[1..]) && MatriculasUnicas([s[0]] + t) by {
        if MatriculasUnicas(s) { AlunosPrefixados(s, t); }
      }
      if s[0].matricula == m then t else [s[0]] + t
  }

  /** `DELETE FROM notas WHERE aluno_matricula = ?`. */
  function SemNotasDoAluno(s: seq<Nota>, m: string): (r: seq<Nota>)
    ensures forall n :: n in r <==> n in s && n.matricula != m
    ensures NotasBemFormadas(s) ==> NotasBemFormadas(r)
  {
    if s == [] then []
    else
      var t := SemNotasDoAluno(s[1..], m);
      assert NotasBemFormadas(s) ==> NotasBemFormadas(s[1..]) && NotasBemFormadas([s[0]] + t) by {
        if NotasBemFormadas(s) { NotasPrefixadas(s, t); }
      }
      if s[0].matricula == m then t else [s[0]] + t
  }

  /** `DELETE FROM notas WHERE disciplina = ? AND aluno_matricula = ?`. */
  function SemNota(s: seq<Nota>, d: string, m: string): (r: seq<Nota>)
    ensures forall n :: n in r <==> n in s && !(n.disciplina == d && n.matricula == m)
    ensures NotasBemFormadas(s) ==> NotasBemFormadas(r)
  {
    if s == [] then []
    else
      var t := SemNota(s[1..], d, m);
      assert NotasBemFormadas(s) ==> NotasBemFormadas(s[1..]) && NotasBemFormadas([s[0]] + t) by {
        if NotasBemFormadas(s) { NotasPrefixadas(s, t); }
      }
      if s[0].disciplina == d && s[0].matricula == m then t else [s[0]] + t
  }

  /** Keeping the first row in front of rows taken from the rest keeps the
      primary key unique. */
  lemma AlunosPrefixados(s: seq<Aluno>, t: seq<Aluno>)
    requires s != [] && MatriculasUnicas(s)
    requires MatriculasUnicas(s[1..]) ==> MatriculasUnicas(t)
    requires forall a :: a in t ==> a in s[1..]
    ensures MatriculasUnicas(s[1..]) && MatriculasUnicas([s[0]] + t)
  {
    forall i, j | 0 <= i < j < |s[1..]| ensures s[1..][i].matricula != s[1..][j].matricula {
      assert s[1..][i] == s[i + 1] && s[1..][j] == s[j + 1];
    }
    forall a | a in s[1..] ensures s[0].matricula != a.matricula {
      var k :| 0 <= k < |s[1..]| && s[1..][k] == a;
      assert s[k + 1] == a;
    }
    var r := [s[0]] + t;
    forall i, j | 0 <= i < j < |r| ensures r[i].matricula != r[j].matricula {
      assert r[j] == t[j - 1] && t[j - 1] in t;
      if i > 0 { assert r[i] == t[i - 1]; }
    }
  }

  /** Keeping the first row in front of rows taken from the rest keeps the
      ids increasing and the pairs unique. */
  lemma NotasPrefixadas(s: seq<Nota>, t: seq<Nota>)
    requires s != [] && NotasBemFormadas(s)
    requires NotasBemFormadas(s[1..]) ==> NotasBemFormadas(t)
    requires forall n :: n in t ==> n in s[1..]
    ensures NotasBemFormadas(s[1..]) && NotasBemFormadas([s[0]] + t)
  {
    forall i, j | 0 <= i < j < |s[1..]|
      ensures s[1..][i].id < s[1..][j].id
      ensures !(s[1..][i].disciplina == s[1..][j].disciplina && s[1..][i].matricula == s[1..][j].matricula)
    {
      assert s[1..][i] == s[i + 1] && s[1..][j] == s[j + 1];
    }
    forall n | n in s[1..] ensures s[0].id < n.id && !(s[0].disciplina == n.disciplina && s[0].matricula == n.matricula) {
      var k :| 0 <= k < |s[1..]| && s[1..][k] == n;
      assert s[k + 1] == n;
    }
    var r := [s[0]] + t;
    forall i, j | 0 <= i < j < |r|
      ensures r[i].id < r[j].id && !(r[i].disciplina == r[j].disciplina && r[i].matricula == r[j].matricula)
    {
      assert r[j] == t[j - 1] && t[j - 1] in t;
      if i > 0 { assert r[i] == t[i - 1]; }
    }
  }

  /** `SELECT disciplina, valor FROM notas WHERE aluno_matricula = ?`,
      before the ORDER BY. */
  function NotasDoAluno(s: seq<Nota>, m: string): (r: seq<NotaLida>)
    ensures forall p :: p in r <==> exists n :: n in s && n.matricula == m && p == (n.disciplina, n.valor)
  {
    if s == [] then []
    else if s[0].matricula == m then [(s[0].disciplina, s[0].valor)] + NotasDoAluno(s[1..], m)
    else NotasDoAluno(s[1..], m)
  }

  // ---- Properties of the statements ----

  /** Within one student the UNIQUE constraint makes the selected
      disciplinas distinct. */
  lemma {:induction false} NotasDoAlunoDistintas(s: seq<Nota>, m: string)
    requires NotasBemFormadas(s)
    ensures ChavesDistintas(NotasDoAluno(s, m), Disciplina)
  {
    if s != [] {
      NotasDoAlunoDistintas(s[1..], m);
      var resto := NotasDoAluno(s[1..], m);
      if s[0].matricula == m {
        forall j | 0 <= j < |resto| ensures resto[j].0 != s[0].disciplina {
          assert resto[j] in resto;
          var n :| n in s[1..] && n.matricula == m && resto[j] == (n.disciplina, n.valor);
          var t :| 0 <= t < |s[1..]| && s[1..][t] == n;
          assert s[t + 1] == n;
        }
        var r := [(s[0].disciplina, s[0].valor)] + resto;
        forall i, j | 0 <= i < j < |r| ensures Disciplina(r[i]) != Disciplina(r[j]) {
          if i > 0 {
            assert r[i] == resto[i - 1] && r[j] == resto[j - 1];
          } else {
            assert r[j] == resto[j - 1];
          }
        }
      }
    }
  }

  /** Deleting a student who is not in the table changes nothing. */
  lemma {:induction false} SemAlunoSemEfeito(s: seq<Aluno>, m: string)
    requires !Cadastrado(s, m)
    ensures SemAluno(s, m) == s
  {
    if s != [] {
      assert forall i :: 0 <= i < |s[1..]| ==> s[1..][i] == s[i + 1];
      assert s[0].matricula != m;
      SemAlunoSemEfeito(s[1..], m);
      assert s == [s[0]] + s[1..];
    }
  }

  /** The cascade deletes nothing when the student has no grade. */
  lemma {:induction false} SemNotasDoAlunoSemEfeito(s: seq<Nota>, m: string)
    requires forall i :: 0 <= i < |s| ==> s[i].matricula != m
    ensures SemNotasDoAluno(s, m) == s
  {
    if s != [] {
      assert forall i :: 0 <= i < |s[1..]| ==> s[1..][i] == s[i + 1];
      SemNotasDoAlunoSemEfeito(s[1..], m);
      assert s == [s[0]] + s[1..];
    }
  }

  /** Deleting a grade pair that is not in the table changes nothing. */
  lemma {:induction false} SemNotaSemEfeito(s: seq<Nota>, d: string, m: string)
    requires !ExistePar(s, d, m)
    ensures SemNota(s, d, m) == s
  {
    if s != [] {
      assert forall i :: 0 <= i < |s[1..]| ==> s[1..][i] == s[i + 1];
      assert !(s[0].disciplina == d && s[0].matricula == m);
      SemNotaSemEfeito(s[1..], d, m);
      assert s == [s[0]] + s[1..];
    }
  }

  /** Deleting a student twice is the same as deleting it once. */
  lemma ExcluirAlunoIdempotente(alunos: seq<Aluno>, notas: seq<Nota>, m: string)
    ensures SemAluno(SemAluno(alunos, m), m) == SemAluno(alunos, m)
    ensures SemNotasDoAluno(SemNotasDoAluno(notas, m), m) == SemNotasDoAluno(notas, m)
  {
    var a := SemAluno(alunos, m);
    SemAlunoSemEfeito(a, m);
    var n := SemNotasDoAluno(notas, m);
    assert forall i :: 0 <= i < |n| ==> n[i] in n;
    SemNotasDoAlunoSemEfeito(n, m);
  }

  /** Deleting a grade twice is the same as deleting it once. */
  lemma ExcluirNotaIdempotente(s: seq<Nota>, d: string, m: string)
    ensures SemNota(SemNota(s, d, m), d, m) == SemNota(s, d, m)
  {
    var r := SemNota(s, d, m);
    SemNotaSemEfeito(r, d, m);
  }

  /** Under UNIQUE(disciplina, aluno_matricula) the grade delete removes
      exactly one row when the pair exists and none otherwise. */
  lemma {:induction false} SemNotaRemoveUmaLinha(s: seq<Nota>, d: string, m: string)
    requires NotasBemFormadas(s)
    ensures |SemNota(s, d, m)| == if ExistePar(s, d, m) then |s| - 1 else |s|
  {
    if s == [] {
    } else {
      assert ExistePar(s, d, m) <==> (s[0].disciplina == d && s[0].matricula == m) || ExistePar(s[1..], d, m) by {
        if ExistePar(s[1..], d, m) {
          var i :| 0 <= i < |s[1..]| && s[1..][i].disciplina == d && s[1..][i].matricula == m;
          assert s[i + 1] == s[1..][i];
        }
        if ExistePar(s, d, m) && !(s[0].disciplina == d && s[0].matricula == m) {
          var i :| 0 <= i < |s| && s[i].disciplina == d && s[i].matricula == m;
          assert s[1..][i - 1] == s[i];
        }
      }
      if s[0].disciplina == d && s[0].matricula == m {
        SemNotaSemEfeito(s[1..], d, m);
      } else {
        SemNotaRemoveUmaLinha(s[1..], d, m);
      }
    }
  }

  /** Deleting one student's row leaves every other student's row as it was. */
  lemma {:induction false} SemAlunoPreservaOutros(s: seq<Aluno>, m: string, outro: string)
    requires outro != m
    ensures BuscaAluno(SemAluno(s, m), outro) == BuscaAluno(s, outro)
  {
    if s != [] {
      SemAlunoPreservaOutros(s[1..], m, outro);
    }
  }

  /** After the cascade the student has no grade left. */
  lemma {:induction false} SemNotasDoAlunoEsvazia(s: seq<Nota>, m: string)
    ensures NotasDoAluno(SemNotasDoAluno(s, m), m) == []
  {
    if s != [] {
      SemNotasDoAlunoEsvazia(s[1..], m);
    }
  }

  /** The cascade leaves the grades of every other student as they were. */
  lemma {:induction false} SemNotasDoAlunoPreservaOutros(s: seq<Nota>, m: string, outro: string)
    requires outro != m
    ensures NotasDoAluno(SemNotasDoAluno(s, m), outro) == NotasDoAluno(s, outro)
  {
    if s != [] {
      SemNotasDoAlunoPreservaOutros(s[1..], m, outro);
    }
  }

  /** Deleting the grade (d, m) leaves the grades of every other student as
      they were, and the other grades of m in their order. */
  lemma {:induction false} ExcluirNotaPreservaOutras(s: seq<Nota>, d: string, m: string, outro: string)
    ensures outro != m ==> NotasDoAluno(SemNota(s, d, m), outro) == NotasDoAluno(s, outro)
    ensures forall p :: p in NotasDoAluno(SemNota(s, d, m), m) <==> p in NotasDoAluno(s, m) && p.0 != d
  {
    if s != [] {
      ExcluirNotaPreservaOutras(s[1..], d, m, outro);
    }
  }

  /** A new grade row only adds to its own student's selection, at the end. */
  lemma {:induction false} NotasDoAlunoAposInsercao(s: seq<Nota>, n: Nota, m: string)
    ensures NotasDoAluno(s + [n], m) ==
      NotasDoAluno(s, m) + (if n.matricula == m then [(n.disciplina, n.valor)] else [])
  {
    if s == [] {
      assert [] + [n] == [n];
    } else {
      assert (s + [n])[1..] == s[1..] + [n];
      NotasDoAlunoAposInsercao(s[1..], n, m);
    }
  }

  /** A new student row with a fresh key is found by its key, and every
      other key finds what it found before. */
  lemma {:induction false} BuscaAlunoAposInsercao(s: seq<Aluno>, a: Aluno, m: string)
    requires !Cadastrado(s, a.matricula)
    ensures BuscaAluno(s + [a], m) == if m == a.matricula then Some(a) else BuscaAluno(s, m)
  {
    if s == [] {
      assert [] + [a] == [a];
    } else {
      assert (s + [a])[1..] == s[1..] + [a];
      assert s[0].matricula != a.matricula;
      BuscaAlunoAposInsercao(s[1..], a, m);
    }
  }
}
